/** struct memblock_type and the routines of mm/memblock.c that edit it in place. The
    table never grows beyond max: resizing is taken to be disabled. */
module MemblockProgram {
  import opened MemblockRegions
  import opened MemblockOps

  class MemblockType {
    const max: nat
    var regions: seq<Region>  // regions[..cnt]
    var totalSize: int

    /** An empty table is a single dummy region of size 0. */
    ghost function Live(): seq<Region>
      reads this
    {
      if |regions| == 1 && regions[0].size == 0 then [] else regions
    }

    ghost predicate Shaped()
      reads this
    {
      1 <= |regions| <= max && Sorted(Live()) && totalSize == Total(Live()) && (Live() == [] ==> regions[0].base == 0)
    }

    ghost predicate Valid()
      reads this
    {
      Shaped() && Minimal(Live())
    }

    constructor (max: nat)
      requires max > 0
      ensures Valid() && Live() == [] && this.max == max
    {
      this.max := max;
      regions := [DUMMY];
      totalSize := 0;
    }

    method InsertRegion(idx: nat, r: Region)
      requires idx <= |regions| < max
      modifies this
      ensures regions == old(regions)[..idx] + [r] + old(regions)[idx..] && totalSize == old(totalSize) + r.size
    {
      regions := regions[..idx] + [r] + regions[idx..];
      totalSize := totalSize + r.size;
    }

    method RemoveRegion(i: nat)
      requires i < |regions|
      modifies this
      ensures totalSize == old(totalSize) - old(regions)[i].size
      ensures var rest := old(regions)[..i] + old(regions)[i + 1..];
              regions == if rest == [] then [DUMMY] else rest
    {
      totalSize := totalSize - regions[i].size;
      regions := regions[..i] + regions[i + 1..];
      if |regions| == 0 {
        regions := [DUMMY];
      }
    }

    method MergeRegions()
      requires regions != []
      modifies this`regions
      ensures regions == MergeAll(old(regions))
    {
      var i := 0;
      assert regions[..0] + MergeAll(regions[0..]) == MergeAll(regions);
      while i < |regions| - 1
        invariant 0 <= i < |regions|
        invariant regions[..i] + MergeAll(regions[i..]) == MergeAll(old(regions))
        decreases |regions| - i
      {
        var here, next := regions[i], regions[i + 1];
        ghost var rs := regions;
        assert rs[i..][1..] == rs[i + 1..] && rs[i..][2..] == rs[i + 2..];
        if End(here) != next.base || here.nid != next.nid || here.flags != next.flags {
          assert MergeAll(rs[i..]) == [here] + MergeAll(rs[i + 1..]);
          assert rs[..i] + ([here] + MergeAll(rs[i + 1..])) == rs[..i + 1] + MergeAll(rs[i + 1..]);
          i := i + 1;
        } else {
          regions := regions[..i] + [Joined(here, next)] + regions[i + 2..];
          assert regions[i..] == [Joined(here, next)] + rs[i + 2..];
          assert regions[..i] == rs[..i];
        }
      }
      assert regions == regions[..i] + regions[i..];
    }

    /** The first round of memblock_add_range's loop: how many regions will be needed? */
    method CountNew(obase: nat, end: nat, nid: int, flags: set<nat>) returns (nrNew: nat)
      requires obase < end
      ensures nrNew == |Filled(regions, obase, end, nid, flags)| - |regions|
    {
      nrNew := 0;
      var base: nat, idx := obase, 0;
      assert regions[0..] == regions;
      while idx < |regions| && regions[idx].base < end
        invariant 0 <= idx <= |regions| && base <= end
        invariant nrNew + |Filled(regions[idx..], base, end, nid, flags)| + idx == |Filled(regions, obase, end, nid, flags)|
      {
        var r := regions[idx];
        assert regions[idx..] == [r] + regions[idx + 1..];
        if base >= end {
          FilledFull(regions[idx..], base, end, nid, flags);
          FilledFull(regions[idx + 1..], base, end, nid, flags);
        }
        if End(r) > base {
          if r.base > base {
            nrNew := nrNew + 1;
          }
          base := Min(End(r), end);
        }
        idx := idx + 1;
      }
      if base < end {
        nrNew := nrNew + 1;
      }
    }

    /** Insert the part of the new range that lies below region idx, if any. */
    method FillBefore(idx: nat, base: nat, nid: int, flags: set<nat>) returns (idx': nat)
      requires idx < |regions| && totalSize == Total(regions)
      requires |regions| + |Gap(regions[idx], base, nid, flags)| <= max
      modifies this
      ensures var gap := Gap(old(regions)[idx], base, nid, flags);
              && regions == old(regions)[..idx] + gap + old(regions)[idx..]
              && idx' == idx + |gap| && totalSize == Total(regions)
    {
      idx' := idx;
      if regions[idx].base > base {
        var p := Piece(base, regions[idx].base, nid, flags);
        TotalInsert(regions, idx, p);
        InsertRegion(idx, p);
        idx' := idx + 1;
      }
    }

    /** The second round: insert them. */
    method InsertNew(obase: nat, end: nat, nid: int, flags: set<nat>)
      requires obase < end && totalSize == Total(regions)
      requires |Filled(regions, obase, end, nid, flags)| <= max
      modifies this
      ensures regions == Filled(old(regions), obase, end, nid, flags) && totalSize == Total(regions)
    {
      hide Total, Filled;
      var base: nat, idx := obase, 0;
      ghost var goal := Filled(regions, obase, end, nid, flags);
      assert regions[..0] + goal == goal && regions[0..] == regions;
      while idx < |regions| && regions[idx].base < end
        invariant 0 <= idx <= |regions| && base <= end
        invariant regions[..idx] + Filled(regions[idx..], base, end, nid, flags) == goal
        invariant totalSize == Total(regions)
        decreases |regions| - idx
      {
        var r := regions[idx];
        ghost var before, rest := regions[..idx], regions[idx + 1..];
        assert regions[idx..] == [r] + rest;
        FilledStep(before, r, rest, base, end, nid, flags);
        ghost var gap := Gap(r, base, nid, flags);
        if End(r) > base {
          idx := FillBefore(idx, base, nid, flags);
          base := Min(End(r), end);
        }
        idx := idx + 1;
        assert regions == before + gap + [r] + rest;
        assert regions[idx..] == rest && regions[..idx] == before + gap + [r];
      }
      if base < end {
        FilledLast(regions[idx..], base, end, nid, flags);
        assert regions[..idx] + ([Piece(base, end, nid, flags)] + regions[idx..]) == regions[..idx] + [Piece(base, end, nid, flags)] + regions[idx..];
        TotalInsert(regions, idx, Piece(base, end, nid, flags));
        InsertRegion(idx, Piece(base, end, nid, flags));
      } else {
        FilledFull(regions[idx..], base, end, nid, flags);
        assert regions == regions[..idx] + regions[idx..];
      }
    }

    /** memblock_add_range(); the result is false for -ENOMEM, and then nothing changed. */
    method AddRange(base: nat, size: nat, nid: int, flags: set<nat>) returns (ok: bool)
      requires Valid() && base <= PHYS_ADDR_MAX
      modifies this
      ensures Valid()
      ensures ok ==> AddedMap(old(Live()), Live(), base, CappedEnd(base, size), (nid, flags))
      ensures !ok ==> regions == old(regions) && totalSize == old(totalSize)
      ensures ok <==> |Filled(old(Live()), base, CappedEnd(base, size), nid, flags)| <= max
    {
      var end := CappedEnd(base, size);
      AddKeeps(Live(), base, end, nid, flags);
      if base == end {
        FilledFull(Live(), base, end, nid, flags);
        return true;
      }
      if regions[0].size == 0 {
        assert Live() == [];
        regions := [Piece(base, end, nid, flags)];
        totalSize := end - base;
        return true;
      }
      assert Live() == regions;
      var nrNew := CountNew(base, end, nid, flags);
      FilledLonger(regions, base, end, nid, flags);
      if nrNew == 0 {
        FilledSame(regions, base, end, nid, flags);
        return true;
      }
      if |regions| + nrNew > max { return false; }
      InsertNew(base, end, nid, flags);
      MergeKeepsSome(regions);
      MergeRegions();
      return true;
    }

    /** Split region idx at address m. */
    method CutRegion(idx: nat, m: nat)
      requires idx < |regions| < max && totalSize == Total(regions)
      requires regions[idx].base < m < End(regions[idx])
      modifies this
      ensures var r := old(regions)[idx];
              regions == old(regions)[..idx] + [Piece(r.base, m, r.nid, r.flags), Piece(m, End(r), r.nid, r.flags)] + old(regions)[idx + 1..]
      ensures totalSize == Total(regions)
    {
      var r := regions[idx];
      ghost var before, rest := regions[..idx], regions[idx + 1..];
      assert regions == before + [r] + rest;
      TotalAround(before, [r], rest);
      regions := regions[idx := Piece(m, End(r), r.nid, r.flags)];
      totalSize := totalSize - (m - r.base);
      var low := Piece(r.base, m, r.nid, r.flags);
      InsertRegion(idx, low);
      assert regions == before + [low, Piece(m, End(r), r.nid, r.flags)] + rest;
      TotalAround(before, [low, Piece(m, End(r), r.nid, r.flags)], rest);
      TotalOfTwo(low, Piece(m, End(r), r.nid, r.flags));
      TotalOfOne(r);
    }

    /** One turn of the loop in memblock_isolate_range(). */
    method IsolateVisit(idx: nat, base: nat, end: nat) returns (next: nat, within: bool)
      requires base < end && idx < |regions| && regions[idx].base < end && regions[idx].size > 0 && totalSize == Total(regions)
      requires idx + |Isolated(regions[idx..], base, end)| <= max
      modifies this
      ensures totalSize == Total(regions) && idx <= next <= |regions| && next <= idx + 1
      ensures regions[..idx] == old(regions)[..idx]
      ensures regions[..next] + Isolated(regions[next..], base, end) == old(regions[..idx] + Isolated(regions[idx..], base, end))
      ensures within ==> next == idx + 1 && Within(regions[idx], base, end)
      ensures !within && next == idx + 1 ==> !Within(regions[idx], base, end)
      ensures !within && next != idx ==> old(regions)[idx].base < base
      ensures next == idx ==> idx < |regions| && End(regions[idx]) <= end < End(old(regions)[idx])
    {
      hide Isolated, Total;
      var r := regions[idx];
      ghost var before, rest := regions[..idx], regions[idx + 1..];
      assert regions[idx..] == [r] + rest;
      IsolatedStep(r, rest, base, end);
      if End(r) <= base {
        next, within := idx + 1, false;
        Assoc(before, [r], Isolated(rest, base, end));
        assert regions[..next] == before + [r];
      } else if r.base < base {
        IsolatedLonger([Piece(base, End(r), r.nid, r.flags)] + rest, base, end);
        CutRegion(idx, base);
        next, within := idx + 1, false;
        Assoc(before, [Piece(r.base, base, r.nid, r.flags)], Isolated([Piece(base, End(r), r.nid, r.flags)] + rest, base, end));
        assert regions[next..] == [Piece(base, End(r), r.nid, r.flags)] + rest;
        assert regions[..next] == before + [Piece(r.base, base, r.nid, r.flags)];
      } else if End(r) > end {
        IsolatedLonger([Piece(r.base, end, r.nid, r.flags), Piece(end, End(r), r.nid, r.flags)] + rest, base, end);
        CutRegion(idx, end);
        next, within := idx, false;
        assert regions[idx..] == [Piece(r.base, end, r.nid, r.flags), Piece(end, End(r), r.nid, r.flags)] + rest;
      } else {
        next, within := idx + 1, true;
        Assoc(before, [r], Isolated(rest, base, end));
        assert regions[..next] == before + [r];
      }
    }

    /** The loop of memblock_isolate_range(). */
    method IsolateLoop(base: nat, end: nat) returns (start: nat, stop: nat)
      requires base < end && Sorted(regions) && totalSize == Total(regions) && |regions| + 2 <= max
      modifies this
      ensures regions == Isolated(old(regions), base, end) && totalSize == Total(regions)
      ensures Marks(regions, base, end, start, stop) && |regions| <= max
    {
      hide Isolated, Total, Lookup, Sorted, Marks, Standing;
      start, stop := 0, 0;
      var idx := 0;
      ghost var goal := Isolated(regions, base, end);
      CutIsBounded(regions, base, end);
      StandingStart(regions, base, end);
      while idx < |regions| && regions[idx].base < end
        invariant 0 <= idx <= |regions| && totalSize == Total(regions) && Standing(regions, goal, idx, base, end, start, stop)
        decreases |goal| - idx, if idx < |regions| && End(regions[idx]) > end then 1 else 0
      {
        StandingHead(regions, goal, idx, base, end, start, stop);
        StandingGoal(regions, goal, idx, base, end, start, stop);
        ghost var rs := regions;
        var next, within := IsolateVisit(idx, base, end);
        StandingStep(rs, regions, goal, idx, next, within, base, end, start, stop);
        if within {
          if stop == 0 { start := idx; }
          stop := next;
        }
        idx := next;
      }
      StandingDone(regions, goal, idx, base, end, start, stop);
    }

    /** memblock_isolate_range(); false for -ENOMEM, and then nothing changed. */
    method IsolateRange(base: nat, size: nat) returns (ok: bool, start: nat, stop: nat)
      requires Valid() && base <= PHYS_ADDR_MAX
      modifies this
      ensures Shaped()
      ensures ok <==> base == CappedEnd(base, size) || |old(regions)| + 2 <= max
      ensures !ok || base == CappedEnd(base, size) ==> regions == old(regions) && totalSize == old(totalSize) && start == stop == 0
      ensures ok && base < CappedEnd(base, size) ==>
                var end := CappedEnd(base, size);
                Live() == Isolated(old(Live()), base, end) && (old(Live()) != [] ==> Marks(regions, base, end, start, stop))
      ensures totalSize == old(totalSize)
      ensures start <= stop <= |regions| && (old(Live()) == [] ==> regions == old(regions) && start == stop)
      ensures old(Live()) != [] ==> Live() == regions
    {
      var end := CappedEnd(base, size);
      if base == end { return true, 0, 0; }
      if |regions| + 2 > max { return false, 0, 0; }
      IsolatedSame(Live(), base, end);
      if |regions| == 1 && regions[0].size == 0 {
        // the dummy region ends at 0 <= base, so the loop passes over it
        return true, 0, 0;
      }
      start, stop := IsolateLoop(base, end);
      assert regions[0].size > 0;
      return true, start, stop;
    }

    method RemoveMarked(start: nat, stop: nat)
      requires start <= stop <= |regions| && totalSize == Total(regions) && regions != []
      modifies this
      ensures var rest := old(regions)[..start] + old(regions)[stop..];
              regions == (if rest == [] then [DUMMY] else rest) && totalSize == Total(rest)
    {
      ghost var cut := regions;
      var i := stop;
      assert cut[..i] + cut[stop..] == cut;
      while i > start
        invariant start <= i <= stop
        invariant var rest := cut[..i] + cut[stop..];
                  regions == (if rest == [] then [DUMMY] else rest) && totalSize == Total(rest)
      {
        i := i - 1;
        ghost var r := cut[i];
        assert cut[..i + 1] == cut[..i] + [r];
        TotalAround(cut[..i], [r], cut[stop..]);
        TotalConcat(cut[..i], cut[stop..]);
        TotalOfOne(r);
        RemoveRegion(i);
        assert (cut[..i + 1] + cut[stop..])[..i] == cut[..i];
        assert (cut[..i + 1] + cut[stop..])[i + 1..] == cut[stop..];
      }
    }

    /** memblock_remove_range(); false for -ENOMEM, and then nothing changed. */
    method RemoveRange(base: nat, size: nat) returns (ok: bool)
      requires Valid() && base <= PHYS_ADDR_MAX
      modifies this
      ensures Valid()
      ensures ok ==> RemovedMap(old(Live()), Live(), base, CappedEnd(base, size))
      ensures !ok ==> regions == old(regions) && totalSize == old(totalSize)
      ensures ok <==> base == CappedEnd(base, size) || |old(regions)| + 2 <= max
    {
      hide Isolated, Outside, Total, Minimal, Marks, Lookup, Within, RemovedMap;
      var end := CappedEnd(base, size);
      ghost var live := Live();
      if base < end { RemoveKeeps(live, base, end); }
      if live == [] || base >= end { NothingRemoved(live, base, end); }
      var start, stop;
      ok, start, stop := IsolateRange(base, size);
      if !ok || start == stop {
        if ok && base < end && live != [] {
          MarkedOutside(regions, base, end, start, stop);
          assert regions[..start] + regions[start..] == regions;
        }
        return;
      }
      MarkedOutside(regions, base, end, start, stop);
      RemoveMarked(start, stop);
    }

    method EditMarked(start: nat, stop: nat, edit: Attr -> Attr)
      requires start <= stop <= |regions|
      modifies this`regions
      ensures |regions| == |old(regions)|
      ensures forall k | 0 <= k < |regions| ::
                regions[k] == if start <= k < stop then EditedRegion(old(regions)[k], edit) else old(regions)[k]
    {
      var i := start;
      while i < stop
        invariant start <= i <= stop && |regions| == |old(regions)|
        invariant forall k | 0 <= k < |regions| ::
                    regions[k] == if start <= k < i then EditedRegion(old(regions)[k], edit) else old(regions)[k]
      {
        regions := regions[i := EditedRegion(regions[i], edit)];
        i := i + 1;
      }
    }

    /** memblock_setclr_flag(), and any other pointwise change of attributes. */
    method EditRange(base: nat, size: nat, edit: Attr -> Attr) returns (ok: bool)
      requires Valid() && base <= PHYS_ADDR_MAX
      modifies this
      ensures Valid()
      ensures ok ==> EditedMap(old(Live()), Live(), base, CappedEnd(base, size), edit) && totalSize == old(totalSize)
      ensures !ok ==> regions == old(regions) && totalSize == old(totalSize)
      ensures ok <==> base == CappedEnd(base, size) || |old(regions)| + 2 <= max
    {
      hide Isolated, Edited, Total, Marks;
      var end := CappedEnd(base, size);
      ghost var live := Live();
      if base < end { EditKeeps(live, base, end, edit); }
      var start, stop;
      ok, start, stop := IsolateRange(base, size);
      if !ok { return; }
      ghost var cut := regions;
      EditMarked(start, stop, edit);
      if base < end && live != [] {
        MarkedEdited(cut, regions, base, end, edit, start, stop);
      } else {
        assert regions == cut;
        if live != [] { MergeIdle(regions); }
      }
      MergeKeepsSome(regions);
      MergeRegions();
    }
  }

  /** No gap counted means nothing to insert. */
  lemma {:induction false} FilledSame(rs: seq<Region>, base: nat, end: nat, nid: int, flags: set<nat>)
    requires |Filled(rs, base, end, nid, flags)| == |rs|
    ensures Filled(rs, base, end, nid, flags) == rs
  {
    if base < end && rs != [] && rs[0].base < end {
      var base' := if End(rs[0]) <= base then base else Min(End(rs[0]), end);
      FilledLonger(rs[1..], base', end, nid, flags);
      FilledSame(rs[1..], base', end, nid, flags);
    }
  }

  lemma {:induction false} MergeKeepsSome(rs: seq<Region>)
    requires rs != []
    ensures 1 <= |MergeAll(rs)| <= |rs| && (rs[0].size > 0 ==> MergeAll(rs)[0].size > 0)
    decreases |rs|
  {
    if |rs| > 1 {
      if Joinable(rs[0], rs[1]) {
        MergeKeepsSome([Joined(rs[0], rs[1])] + rs[2..]);
      } else {
        MergeKeepsSome(rs[1..]);
      }
    }
  }

  ghost function Gap(r: Region, base: nat, nid: int, flags: set<nat>): seq<Region> {
    if r.base > base then [Piece(base, r.base, nid, flags)] else []
  }

  lemma FilledStep(before: seq<Region>, r: Region, rest: seq<Region>, base: nat, end: nat, nid: int, flags: set<nat>)
    requires r.base < end && base <= end
    ensures var base' := if End(r) <= base then base else Min(End(r), end);
            var f := Filled(rest, base', end, nid, flags);
            && before + Filled([r] + rest, base, end, nid, flags) == before + Gap(r, base, nid, flags) + [r] + f
            && |f| >= |rest|
  {
    hide Filled;
    var base' := if End(r) <= base then base else Min(End(r), end);
    var f, gap := Filled(rest, base', end, nid, flags), Gap(r, base, nid, flags);
    FilledLonger(rest, base', end, nid, flags);
    FilledHead(r, rest, base, end, nid, flags);
    Assoc(before, gap + [r], f);
    Assoc(before, gap, [r]);
  }

  lemma {:induction false} FilledHead(r: Region, rest: seq<Region>, base: nat, end: nat, nid: int, flags: set<nat>)
    requires r.base < end && base <= end
    ensures var base' := if End(r) <= base then base else Min(End(r), end);
            Filled([r] + rest, base, end, nid, flags) == Gap(r, base, nid, flags) + [r] + Filled(rest, base', end, nid, flags)
  {
    assert ([r] + rest)[1..] == rest;
    if base >= end {
      FilledFull(rest, if End(r) <= base then base else Min(End(r), end), end, nid, flags);
    }
  }

  lemma {:induction false} FilledFull(rs: seq<Region>, base: nat, end: nat, nid: int, flags: set<nat>)
    requires base >= end
    ensures Filled(rs, base, end, nid, flags) == rs
  {
  }

  lemma {:induction false} FilledLast(rs: seq<Region>, base: nat, end: nat, nid: int, flags: set<nat>)
    requires base < end && (rs != [] ==> rs[0].base >= end)
    ensures Filled(rs, base, end, nid, flags) == [Piece(base, end, nid, flags)] + rs
  {
  }

  lemma {:induction false} TotalInsert(rs: seq<Region>, idx: nat, p: Region)
    requires idx <= |rs|
    ensures Total(rs[..idx] + [p] + rs[idx..]) == Total(rs) + p.size
  {
    TotalConcat(rs[..idx] + [p], rs[idx..]);
    TotalConcat(rs[..idx], [p]);
    TotalConcat(rs[..idx], rs[idx..]);
    assert rs == rs[..idx] + rs[idx..];
  }

  /** The indices in [start, stop) are exactly the regions inside [base, end). */
  ghost predicate Marks(rs: seq<Region>, base: nat, end: nat, start: nat, stop: nat) {
    start <= stop <= |rs| && forall k | 0 <= k < |rs| :: Within(rs[k], base, end) <==> start <= k < stop
  }

  lemma TotalOfOne(r: Region)
    ensures Total([r]) == r.size
  {
    assert [r][1..] == [];
  }

  lemma TotalOfTwo(a: Region, b: Region)
    ensures Total([a, b]) == a.size + b.size
  {
    assert [a, b][1..] == [b];
    TotalOfOne(b);
  }

  lemma Assoc(a: seq<Region>, b: seq<Region>, c: seq<Region>)
    ensures a + b + c == a + (b + c)
  {
  }

  lemma {:induction false} TotalAround(a: seq<Region>, b: seq<Region>, c: seq<Region>)
    ensures Total(a + b + c) == Total(a) + Total(b) + Total(c)
  {
    TotalConcat(a + b, c);
    TotalConcat(a, b);
  }

  lemma {:induction false} IsolatedLonger(rs: seq<Region>, base: nat, end: nat)
    ensures |Isolated(rs, base, end)| >= |rs|
    ensures rs != [] ==> Isolated(rs, base, end)[0].base == rs[0].base
    decreases |rs|, if rs != [] && rs[0].base < base then 1 else 0
  {
    if rs != [] && rs[0].base < end {
      var r := rs[0];
      if End(r) > base && r.base < base {
        IsolatedLonger([Piece(base, End(r), r.nid, r.flags)] + rs[1..], base, end);
      } else {
        IsolatedLonger(rs[1..], base, end);
      }
    }
  }

  /** At most one region is cut at end, and at most one at base. */
  lemma {:induction false} IsolatedAtMostTwo(rs: seq<Region>, base: nat, end: nat)
    requires Sorted(rs)
    ensures |Isolated(rs, base, end)| <= |rs| + if rs != [] && rs[0].base >= base then 1 else 2
    decreases |rs|, if rs != [] && rs[0].base < base then 1 else 0
  {
    if rs != [] && rs[0].base < end {
      var r, rest := rs[0], rs[1..];
      SortedTail(rs);
      if End(r) <= base {
        IsolatedAtMostTwo(rest, base, end);
      } else if r.base < base {
        assert rs == [r] + rest;
        CutPiece(r, rest, base);
        IsolatedAtMostTwo([Piece(base, End(r), r.nid, r.flags)] + rest, base, end);
      } else if End(r) <= end {
        IsolatedAtMostTwo(rest, base, end);
      }
    }
  }

  lemma {:induction false} IsolatedStep(r: Region, rest: seq<Region>, base: nat, end: nat)
    requires r.base < end && base < end
    ensures var low, high := Piece(r.base, Mid(r, base), r.nid, r.flags), Piece(Mid(r, base), End(r), r.nid, r.flags);
            Isolated([r] + rest, base, end) ==
            if End(r) <= base then [r] + Isolated(rest, base, end)
            else if r.base < base then [low] + Isolated([high] + rest, base, end)
            else if End(r) > end then
              Isolated([Piece(r.base, end, r.nid, r.flags), Piece(end, End(r), r.nid, r.flags)] + rest, base, end)
            else [r] + Isolated(rest, base, end)
  {
    assert ([r] + rest)[1..] == rest;
    if base <= r.base && End(r) > end {
      var a, b := Piece(r.base, end, r.nid, r.flags), Piece(end, End(r), r.nid, r.flags);
      assert ([a, b] + rest)[1..] == [b] + rest;
      assert Isolated([b] + rest, base, end) == [b] + rest;
    }
  }

  lemma {:induction false} IsolatedDone(rs: seq<Region>, base: nat, end: nat)
    requires rs == [] || rs[0].base >= end
    ensures Isolated(rs, base, end) == rs
  {
  }

  ghost function Mid(r: Region, m: nat): (k: nat)
    ensures r.base <= k <= End(r)
  {
    if r.base <= m <= End(r) then m else r.base
  }

  /** Where the loop stands: goal is the finished table, rs[..idx] its first part. */
  ghost predicate Standing(rs: seq<Region>, goal: seq<Region>, idx: nat, base: nat, end: nat, start: nat, stop: nat) {
    && idx <= |rs| && rs[..idx] + Isolated(rs[idx..], base, end) == goal
    && (stop == 0 || (start < stop == idx)) && start <= stop
    && forall k | 0 <= k < idx :: Within(rs[k], base, end) <==> start <= k < stop
  }

  lemma {:induction false} StandingStart(rs: seq<Region>, base: nat, end: nat)
    ensures Standing(rs, Isolated(rs, base, end), 0, base, end, 0, 0)
  {
    assert rs[0..] == rs;
  }

  lemma {:induction false} StandingGoal(rs: seq<Region>, goal: seq<Region>, idx: nat, base: nat, end: nat, start: nat, stop: nat)
    requires Standing(rs, goal, idx, base, end, start, stop)
    ensures idx <= |rs| && rs[..idx] + Isolated(rs[idx..], base, end) == goal
  {
  }

  lemma {:induction false} StandingHead(rs: seq<Region>, goal: seq<Region>, idx: nat, base: nat, end: nat, start: nat, stop: nat)
    requires Standing(rs, goal, idx, base, end, start, stop) && Sorted(goal) && idx < |rs| && base < end
    ensures idx < |goal| && goal[idx].base == rs[idx].base && rs[idx].size > 0
    ensures stop != 0 ==> rs[idx].base > base
    ensures idx + |Isolated(rs[idx..], base, end)| == |goal|
  {
    IsolatedLonger(rs[idx..], base, end);
    assert goal[idx] == Isolated(rs[idx..], base, end)[0];
    if stop != 0 {
      assert Within(rs[idx - 1], base, end);
      assert goal[idx - 1] == rs[idx - 1];
      assert End(goal[idx - 1]) <= goal[idx].base;
    }
  }

  lemma {:induction false} StandingStep(rs: seq<Region>, rs': seq<Region>, goal: seq<Region>, idx: nat, next: nat, within: bool,
                     base: nat, end: nat, start: nat, stop: nat)
    requires Standing(rs, goal, idx, base, end, start, stop) && idx < |rs| && (stop != 0 ==> rs[idx].base > base)
    requires idx <= next <= |rs'| && next <= idx + 1 && rs'[..idx] == rs[..idx]
    requires rs'[..next] + Isolated(rs'[next..], base, end) == goal
    requires within ==> next == idx + 1 && Within(rs'[idx], base, end)
    requires !within && next == idx + 1 ==> !Within(rs'[idx], base, end)
    requires !within && stop != 0 ==> next == idx
    ensures Standing(rs', goal, next, base, end, if within && stop == 0 then idx else start, if within then next else stop)
  {
    hide Isolated;
    forall k | 0 <= k < idx ensures rs'[k] == rs[k] { assert rs'[..idx][k] == rs[..idx][k]; }
  }

  lemma StandingDone(rs: seq<Region>, goal: seq<Region>, idx: nat, base: nat, end: nat, start: nat, stop: nat)
    requires Standing(rs, goal, idx, base, end, start, stop) && Sorted(goal)
    requires idx == |rs| || rs[idx].base >= end
    ensures rs == goal && Marks(rs, base, end, start, stop)
  {
    IsolatedDone(rs[idx..], base, end);
    assert rs == rs[..idx] + rs[idx..] == goal;
    forall k | idx <= k < |rs| ensures !Within(rs[k], base, end) {
      if k > idx { assert End(goal[idx]) <= goal[k].base; }
    }
  }

  lemma {:induction false} CutIsBounded(rs: seq<Region>, base: nat, end: nat)
    requires Sorted(rs) && base < end
    ensures Sorted(Isolated(rs, base, end)) && |Isolated(rs, base, end)| <= |rs| + 2
  {
    IsolatedSame(rs, base, end);
    IsolatedAtMostTwo(rs, base, end);
  }

  lemma MarksTail(rs: seq<Region>, base: nat, end: nat, start: nat, stop: nat)
    requires Marks(rs, base, end, start, stop) && rs != []
    ensures start <= stop <= |rs| && (Within(rs[0], base, end) <==> start <= 0 < stop)
    ensures Marks(rs[1..], base, end, if start == 0 then 0 else start - 1, if stop == 0 then 0 else stop - 1)
  {
    hide Within;
    assert forall k | 0 <= k < |rs[1..]| :: rs[1..][k] == rs[k + 1];
  }

  /** Removing the marked indices is removing what lies inside the range. */
  lemma {:induction false} MarkedOutside(rs: seq<Region>, base: nat, end: nat, start: nat, stop: nat)
    requires Marks(rs, base, end, start, stop)
    ensures Outside(rs, base, end) == rs[..start] + rs[stop..]
  {
    if rs != [] {
      hide Marks, Within;
      var s, t := if start == 0 then 0 else start - 1, if stop == 0 then 0 else stop - 1;
      MarksTail(rs, base, end, start, stop);
      MarkedOutside(rs[1..], base, end, s, t);
      if start == 0 && stop == 0 {
        assert rs[1..][..0] + rs[1..][0..] == rs[1..];
      } else if start == 0 {
        assert rs[1..][..0] + rs[1..][t..] == rs[stop..];
      } else {
        assert [rs[0]] + rs[1..][..s] == rs[..start] && rs[1..][t..] == rs[stop..];
      }
    }
  }

  lemma NothingRemoved(rs: seq<Region>, base: nat, end: nat)
    requires rs == [] || base >= end
    ensures RemovedMap(rs, rs, base, end)
  {
  }

  function EditedRegion(r: Region, edit: Attr -> Attr): Region {
    var a := edit(AttrOf(r));
    Region(r.base, r.size, a.0, a.1)
  }

  lemma {:induction false} MarkedEdited(cut: seq<Region>, rs: seq<Region>, base: nat, end: nat, edit: Attr -> Attr, start: nat, stop: nat)
    requires Marks(cut, base, end, start, stop) && |rs| == |cut|
    requires forall k | 0 <= k < |cut| :: rs[k] == if start <= k < stop then EditedRegion(cut[k], edit) else cut[k]
    ensures rs == Edited(cut, base, end, edit)
  {
    EditedAt(cut, base, end, edit);
  }

  lemma {:induction false} EditedAt(rs: seq<Region>, base: nat, end: nat, edit: Attr -> Attr)
    ensures var e := Edited(rs, base, end, edit);
            |e| == |rs| && forall k | 0 <= k < |rs| :: e[k] == if Within(rs[k], base, end) then EditedRegion(rs[k], edit) else rs[k]
  {
    if rs != [] {
      EditedAt(rs[1..], base, end, edit);
    }
  }

  lemma {:induction false} MergeIdle(rs: seq<Region>)
    requires Minimal(rs)
    ensures MergeAll(rs) == rs
  {
    if |rs| > 1 {
      TailMinimal(rs);
      MergeIdle(rs[1..]);
      assert !Joinable(rs[0], rs[1]);
    }
  }
}
