/** memblock_add_range, memblock_isolate_range, memblock_remove_range and
    memblock_setclr_flag on region tables, and their effect on the address map. */
module MemblockOps {
  import opened Options
  import opened MemblockRegions

  /** base + memblock_cap_size(base, &size) */
  function CappedEnd(base: nat, size: nat): (e: nat)
    requires base <= PHYS_ADDR_MAX
    ensures base <= e <= PHYS_ADDR_MAX
  {
    base + Min(size, PHYS_ADDR_MAX - base)
  }

  function Piece(base: nat, end: nat, nid: int, flags: set<nat>): Region
    requires base <= end
  {
    Region(base, end - base, nid, flags)
  }

  // ---------- adding

  /** The table with every gap in [base, end) filled by a region of its own. */
  function Filled(rs: seq<Region>, base: nat, end: nat, nid: int, flags: set<nat>): seq<Region> {
    if base >= end then rs
    else if rs == [] || rs[0].base >= end then [Piece(base, end, nid, flags)] + rs
    else if End(rs[0]) <= base then [rs[0]] + Filled(rs[1..], base, end, nid, flags)
    else
      var gap := if rs[0].base > base then [Piece(base, rs[0].base, nid, flags)] else [];
      gap + [rs[0]] + Filled(rs[1..], Min(End(rs[0]), end), end, nid, flags)
  }

  /** Existing addresses keep what they have, new ones get the given attributes. */
  ghost predicate AddedMap(rs: seq<Region>, rs': seq<Region>, base: nat, end: nat, attr: Attr) {
    forall x: nat :: Lookup(rs', x) ==
      if Lookup(rs, x).Some? then Lookup(rs, x) else if base <= x < end then Some(attr) else None
  }

  lemma {:induction false} FilledStarts(rs: seq<Region>, base: nat, end: nat, nid: int, flags: set<nat>, low: nat)
    requires low <= base && (rs != [] ==> low <= rs[0].base)
    ensures var f := Filled(rs, base, end, nid, flags); f != [] ==> low <= f[0].base
  {
  }

  lemma GapSorted(gap: seq<Region>, base: nat, r: Region, f: seq<Region>, nid: int, flags: set<nat>)
    requires Sorted([r] + f) && r.base <= PHYS_ADDR_MAX
    requires gap == if r.base > base then [Piece(base, r.base, nid, flags)] else []
    ensures Sorted(gap + [r] + f)
  {
    if r.base > base {
      SortedCons(gap[0], [r] + f);
      assert gap + [r] + f == [gap[0]] + ([r] + f);
    } else {
      assert gap + [r] + f == [r] + f;
    }
  }

  lemma {:induction false} FilledSorted(rs: seq<Region>, base: nat, end: nat, nid: int, flags: set<nat>)
    requires Sorted(rs) && end <= PHYS_ADDR_MAX
    ensures Sorted(Filled(rs, base, end, nid, flags))
  {
    if base < end {
      if rs == [] || rs[0].base >= end {
        SortedCons(Piece(base, end, nid, flags), rs);
      } else {
        SortedTail(rs);
        var r := rs[0];
        var base' := if End(r) <= base then base else Min(End(r), end);
        var f := Filled(rs[1..], base', end, nid, flags);
        FilledSorted(rs[1..], base', end, nid, flags);
        if End(r) <= base' {
          FilledStarts(rs[1..], base', end, nid, flags, End(r));
        } else {
          assert f == rs[1..];
        }
        SortedCons(r, f);
        var gap := if r.base > base then [Piece(base, r.base, nid, flags)] else [];
        GapSorted(gap, base, r, f, nid, flags);
      }
    }
  }

  lemma {:induction false} FilledMap(rs: seq<Region>, base: nat, end: nat, nid: int, flags: set<nat>, x: nat)
    requires Sorted(rs)
    ensures Lookup(Filled(rs, base, end, nid, flags), x) ==
            if Lookup(rs, x).Some? then Lookup(rs, x) else if base <= x < end then Some((nid, flags)) else None
  {
    if base < end {
      if rs == [] || rs[0].base >= end {
        var p := Piece(base, end, nid, flags);
        assert ([p] + rs)[1..] == rs;
        if base <= x < end {
          forall i | 0 <= i < |rs| ensures x < rs[i].base { if i > 0 { assert End(rs[0]) <= rs[i].base; } }
          LookupBelow(rs, x);
        }
      } else {
        SortedTail(rs);
        var r := rs[0];
        var base' := if End(r) <= base then base else Min(End(r), end);
        var f := Filled(rs[1..], base', end, nid, flags);
        FilledMap(rs[1..], base', end, nid, flags, x);
        assert ([r] + f)[1..] == f;
        if base < r.base {
          var p := Piece(base, r.base, nid, flags);
          assert [p] + [r] + f == [p] + ([r] + f);
          assert ([p] + ([r] + f))[1..] == [r] + f;
          if base <= x < r.base { LookupBelow(rs[1..], x); }
        } else {
          assert [] + [r] + f == [r] + f;
        }
      }
    }
  }

  // ---------- isolating

  /** The table with regions cut at base and at end. */
  function Isolated(rs: seq<Region>, base: nat, end: nat): seq<Region>
    decreases |rs|, if rs != [] && rs[0].base < base then 1 else 0
  {
    if rs == [] || rs[0].base >= end then rs
    else
      var r := rs[0];
      if End(r) <= base then [r] + Isolated(rs[1..], base, end)
      else if r.base < base then
        [Piece(r.base, base, r.nid, r.flags)] + Isolated([Piece(base, End(r), r.nid, r.flags)] + rs[1..], base, end)
      else if End(r) > end then [Piece(r.base, end, r.nid, r.flags), Piece(end, End(r), r.nid, r.flags)] + rs[1..]
      else [r] + Isolated(rs[1..], base, end)
  }

  /** Every region is inside [base, end) or outside it. */
  ghost predicate CutAt(rs: seq<Region>, base: nat, end: nat) {
    forall i | 0 <= i < |rs| :: Within(rs[i], base, end) || End(rs[i]) <= base || end <= rs[i].base
  }

  predicate Within(r: Region, base: nat, end: nat) { base <= r.base && End(r) <= end }

  lemma {:induction false} CutPiece(r: Region, rest: seq<Region>, m: nat)
    requires Sorted([r] + rest) && r.base < m < End(r)
    ensures Sorted([Piece(m, End(r), r.nid, r.flags)] + rest)
    ensures var cut := [Piece(r.base, m, r.nid, r.flags), Piece(m, End(r), r.nid, r.flags)] + rest;
            Sorted(cut) && SameMap(cut, [r] + rest) && Total(cut) == Total([r] + rest)
  {
    var a, b := Piece(r.base, m, r.nid, r.flags), Piece(m, End(r), r.nid, r.flags);
    SortedTail([r] + rest);
    assert ([r] + rest)[1..] == rest && ([r] + rest)[0] == r;
    if rest != [] { assert ([r] + rest)[1] == rest[0]; }
    SortedCons(b, rest);
    SortedCons(a, [b] + rest);
    var cut := [a, b] + rest;
    assert cut == [a] + ([b] + rest);
    assert cut[1..] == [b] + rest && ([b] + rest)[1..] == rest;
    forall x: nat ensures Lookup(cut, x) == Lookup([r] + rest, x) {
      assert Lookup([b] + rest, x) == if Holds(b, x) then Some(AttrOf(b)) else Lookup(rest, x);
    }
    assert Total([b] + rest) == b.size + Total(rest);
  }

  /** s is rs with some regions cut, at base and end at least. */
  ghost predicate Cut(s: seq<Region>, rs: seq<Region>, base: nat, end: nat) {
    && Sorted(s) && SameMap(s, rs) && Total(s) == Total(rs) && CutAt(s, base, end)
    && (rs != [] ==> s != [] && s[0].base == rs[0].base)
  }

  lemma CutCons(r: Region, a: seq<Region>, b: seq<Region>, base: nat, end: nat)
    requires Sorted([r] + a) && Cut(b, a, base, end)
    requires Within(r, base, end) || End(r) <= base || end <= r.base
    ensures Cut([r] + b, [r] + a, base, end)
  {
    ConsKept(r, a, b);
  }

  lemma CutLast(r: Region, rest: seq<Region>, base: nat, end: nat)
    requires Sorted([r] + rest) && base <= r.base < end < End(r)
    ensures Cut([Piece(r.base, end, r.nid, r.flags), Piece(end, End(r), r.nid, r.flags)] + rest, [r] + rest, base, end)
  {
    CutPiece(r, rest, end);
    var s := [Piece(r.base, end, r.nid, r.flags), Piece(end, End(r), r.nid, r.flags)] + rest;
    forall i | 0 <= i < |s| ensures Within(s[i], base, end) || End(s[i]) <= base || end <= s[i].base {
      if i > 1 { assert s[i] == ([r] + rest)[i - 1]; assert End(([r] + rest)[0]) <= ([r] + rest)[i - 1].base; }
    }
  }

  lemma {:induction false} IsolatedSame(rs: seq<Region>, base: nat, end: nat)
    requires Sorted(rs) && base < end
    ensures Cut(Isolated(rs, base, end), rs, base, end)
    decreases |rs|, if rs != [] && rs[0].base < base then 1 else 0
  {
    if rs == [] {
    } else if rs[0].base >= end {
      forall i | 0 <= i < |rs| ensures end <= rs[i].base { if i > 0 { assert End(rs[0]) <= rs[i].base; } }
    } else {
      SortedTail(rs);
      var r, rest := rs[0], rs[1..];
      assert rs == [r] + rest;
      if End(r) <= base {
        IsolatedSame(rest, base, end);
        CutCons(r, rest, Isolated(rest, base, end), base, end);
      } else if r.base < base {
        CutPiece(r, rest, base);
        var low, high := Piece(r.base, base, r.nid, r.flags), Piece(base, End(r), r.nid, r.flags);
        IsolatedSame([high] + rest, base, end);
        assert [low] + ([high] + rest) == [low, high] + rest;
        CutCons(low, [high] + rest, Isolated([high] + rest, base, end), base, end);
      } else if End(r) > end {
        CutLast(r, rest, base, end);
      } else {
        IsolatedSame(rest, base, end);
        CutCons(r, rest, Isolated(rest, base, end), base, end);
      }
    }
  }

  lemma {:induction false} ConsKept(r: Region, a: seq<Region>, b: seq<Region>)
    requires Sorted([r] + a) && Sorted(b) && SameMap(b, a) && Total(b) == Total(a)
    requires a != [] ==> b != [] && b[0].base == a[0].base
    ensures a == [] ==> b == []
    ensures Sorted([r] + b) && SameMap([r] + b, [r] + a) && Total([r] + b) == Total([r] + a)
  {
    assert ([r] + a)[1..] == a && ([r] + b)[1..] == b;
    assert ([r] + a)[0] == r;
    if a != [] {
      assert End(([r] + a)[0]) <= ([r] + a)[1].base;
      SortedCons(r, b);
    }
  }

  lemma {:induction false} FilledLonger(rs: seq<Region>, base: nat, end: nat, nid: int, flags: set<nat>)
    ensures |Filled(rs, base, end, nid, flags)| >= |rs|
  {
    if base < end && rs != [] && rs[0].base < end {
      FilledLonger(rs[1..], if End(rs[0]) <= base then base else Min(End(rs[0]), end), end, nid, flags);
    }
  }

  // ---------- seeing minimality through the address map

  lemma {:induction false} EndShows(rs: seq<Region>, i: nat)
    requires Table(rs) && i < |rs|
    ensures Lookup(rs, End(rs[i])) != Some(AttrOf(rs[i]))
  {
    if i == 0 {
      FirstEnds(rs);
    } else {
      SortedTail(rs);
      TailMinimal(rs);
      EndShows(rs[1..], i - 1);
      assert End(rs[0]) <= rs[i].base;
    }
  }

  lemma {:induction false} MinimalByEnds(rs: seq<Region>)
    requires Sorted(rs) && forall i | 0 <= i < |rs| :: Lookup(rs, End(rs[i])) != Some(AttrOf(rs[i]))
    ensures Minimal(rs)
  {
    forall i | 0 <= i < |rs| - 1 ensures !Joinable(rs[i], rs[i + 1]) {
      if End(rs[i]) == rs[i + 1].base {
        LookupAt(rs, i + 1, rs[i + 1].base);
      }
    }
  }

  // ---------- removing

  function Outside(rs: seq<Region>, base: nat, end: nat): seq<Region> {
    if rs == [] then []
    else if Within(rs[0], base, end) then Outside(rs[1..], base, end)
    else [rs[0]] + Outside(rs[1..], base, end)
  }

  ghost predicate RemovedMap(rs: seq<Region>, rs': seq<Region>, base: nat, end: nat) {
    forall x: nat :: Lookup(rs', x) == if base <= x < end then None else Lookup(rs, x)
  }

  lemma {:induction false} OutsideRegions(rs: seq<Region>, base: nat, end: nat)
    ensures forall r :: r in Outside(rs, base, end) <==> r in rs && !Within(r, base, end)
  {
    if rs != [] {
      OutsideRegions(rs[1..], base, end);
      assert rs == [rs[0]] + rs[1..];
    }
  }

  lemma {:induction false} OutsideSorted(rs: seq<Region>, base: nat, end: nat)
    requires Sorted(rs)
    ensures Sorted(Outside(rs, base, end))
  {
    if rs != [] {
      SortedTail(rs);
      OutsideSorted(rs[1..], base, end);
      OutsideRegions(rs[1..], base, end);
      var o := Outside(rs[1..], base, end);
      if !Within(rs[0], base, end) {
        if o != [] {
          assert o[0] in rs[1..];
        }
        SortedCons(rs[0], o);
      }
    }
  }

  lemma {:induction false} OutsideMap(rs: seq<Region>, base: nat, end: nat, x: nat)
    requires Sorted(rs) && CutAt(rs, base, end)
    ensures Lookup(Outside(rs, base, end), x) == if base <= x < end then None else Lookup(rs, x)
  {
    if rs != [] {
      SortedTail(rs);
      assert forall i | 0 <= i < |rs[1..]| :: rs[1..][i] == rs[i + 1];
      OutsideMap(rs[1..], base, end, x);
      var o := Outside(rs[1..], base, end);
      assert ([rs[0]] + o)[1..] == o;
      assert Within(rs[0], base, end) || End(rs[0]) <= base || end <= rs[0].base;
    }
  }

  /** Cutting makes no new right ends except at base and at end. */
  ghost predicate OldEnd(rs: seq<Region>, s: Region, base: nat, end: nat) {
    End(s) == base || End(s) == end || exists r :: r in rs && End(r) == End(s) && AttrOf(r) == AttrOf(s)
  }

  lemma {:induction false} IsolatedEnds(rs: seq<Region>, base: nat, end: nat)
    ensures forall s | s in Isolated(rs, base, end) :: OldEnd(rs, s, base, end)
    decreases |rs|, if rs != [] && rs[0].base < base then 1 else 0
  {
    if rs != [] && rs[0].base < end {
      var r, rest := rs[0], rs[1..];
      assert rs == [r] + rest;
      if End(r) <= base {
        IsolatedEnds(rest, base, end);
      } else if r.base < base {
        var high := Piece(base, End(r), r.nid, r.flags);
        IsolatedEnds([high] + rest, base, end);
        forall s | s in Isolated([high] + rest, base, end) ensures OldEnd(rs, s, base, end) {
          assert OldEnd([high] + rest, s, base, end);
          if End(s) != base && End(s) != end {
            var t :| t in [high] + rest && End(t) == End(s) && AttrOf(t) == AttrOf(s);
            if t == high { assert r in rs && End(r) == End(s) && AttrOf(r) == AttrOf(s); }
          }
        }
      } else if End(r) <= end {
        IsolatedEnds(rest, base, end);
      }
    }
  }

  lemma {:induction false} OldEndShows(rs: seq<Region>, s: Region, base: nat, end: nat)
    requires Table(rs) && OldEnd(rs, s, base, end) && End(s) != base && End(s) != end
    ensures Lookup(rs, End(s)) != Some(AttrOf(s))
  {
    hide Lookup, Minimal, Sorted;
    var r :| r in rs && End(r) == End(s) && AttrOf(r) == AttrOf(s);
    var k :| 0 <= k < |rs| && rs[k] == r;
    EndShows(rs, k);
  }

  /** memblock_remove_range() leaves nothing in the range, everything elsewhere, and the
      table minimal although it does not merge. */
  lemma {:induction false} RemoveKeeps(rs: seq<Region>, base: nat, end: nat)
    requires Table(rs) && base < end
    ensures var t := Outside(Isolated(rs, base, end), base, end); Table(t) && RemovedMap(rs, t, base, end)
  {
    hide Lookup, Isolated, Outside, Minimal, Sorted, OldEnd;
    var s := Isolated(rs, base, end);
    var t := Outside(s, base, end);
    IsolatedSame(rs, base, end);
    IsolatedEnds(rs, base, end);
    OutsideSorted(s, base, end);
    OutsideRegions(s, base, end);
    forall x: nat ensures Lookup(t, x) == if base <= x < end then None else Lookup(rs, x) {
      OutsideMap(s, base, end, x);
    }
    forall i | 0 <= i < |t| ensures Lookup(t, End(t[i])) != Some(AttrOf(t[i])) {
      assert t[i] in t;
      assert OldEnd(rs, t[i], base, end);
      if !(base <= End(t[i]) < end) {
        var j :| 0 <= j < |s| && s[j] == t[i];
        assert End(t[i]) != end;
        OldEndShows(rs, t[i], base, end);
      }
    }
    MinimalByEnds(t);
  }

  // ---------- changing attributes

  /** Regions inside the range get edited attributes. */
  function Edited(rs: seq<Region>, base: nat, end: nat, edit: Attr -> Attr): seq<Region> {
    if rs == [] then []
    else
      var r := rs[0];
      var a := edit(AttrOf(r));
      [if Within(r, base, end) then Region(r.base, r.size, a.0, a.1) else r] + Edited(rs[1..], base, end, edit)
  }

  ghost predicate EditedMap(rs: seq<Region>, rs': seq<Region>, base: nat, end: nat, edit: Attr -> Attr) {
    forall x: nat :: Lookup(rs', x) ==
      if base <= x < end && Lookup(rs, x).Some? then Some(edit(Lookup(rs, x).value)) else Lookup(rs, x)
  }

  lemma {:induction false} EditedShape(rs: seq<Region>, base: nat, end: nat, edit: Attr -> Attr)
    ensures var e := Edited(rs, base, end, edit);
            |e| == |rs| && Total(e) == Total(rs) && forall i | 0 <= i < |rs| :: e[i].base == rs[i].base && e[i].size == rs[i].size
  {
    if rs != [] {
      EditedShape(rs[1..], base, end, edit);
    }
  }

  lemma {:induction false} EditedLookup(rs: seq<Region>, base: nat, end: nat, edit: Attr -> Attr, x: nat)
    requires Sorted(rs) && CutAt(rs, base, end)
    ensures Lookup(Edited(rs, base, end, edit), x) ==
            if base <= x < end && Lookup(rs, x).Some? then Some(edit(Lookup(rs, x).value)) else Lookup(rs, x)
  {
    if rs != [] {
      SortedTail(rs);
      assert forall i | 0 <= i < |rs[1..]| :: rs[1..][i] == rs[i + 1];
      EditedLookup(rs[1..], base, end, edit, x);
      var e := Edited(rs, base, end, edit);
      assert e[1..] == Edited(rs[1..], base, end, edit);
      assert Within(rs[0], base, end) ==> AttrOf(e[0]) == edit(AttrOf(rs[0]));
      assert Holds(e[0], x) <==> Holds(rs[0], x);
      assert Within(rs[0], base, end) || End(rs[0]) <= base || end <= rs[0].base;
    }
  }

  /** memblock_setclr_flag(): pointwise on the range, minimal again by merging. */
  lemma {:induction false} EditKeeps(rs: seq<Region>, base: nat, end: nat, edit: Attr -> Attr)
    requires Table(rs) && base < end
    ensures var t := MergeAll(Edited(Isolated(rs, base, end), base, end, edit));
            Table(t) && EditedMap(rs, t, base, end, edit) && Total(t) == Total(rs)
  {
    var s := Isolated(rs, base, end);
    var e := Edited(s, base, end, edit);
    IsolatedSame(rs, base, end);
    EditedShape(s, base, end, edit);
    assert Sorted(e);
    MergeMakesTable(e);
    forall x: nat ensures Lookup(MergeAll(e), x) ==
      if base <= x < end && Lookup(rs, x).Some? then Some(edit(Lookup(rs, x).value)) else Lookup(rs, x)
    {
      EditedLookup(s, base, end, edit, x);
    }
  }

  /** memblock_add_range(): pointwise, existing addresses untouched, minimal again. */
  lemma {:induction false} AddKeeps(rs: seq<Region>, base: nat, end: nat, nid: int, flags: set<nat>)
    requires Table(rs) && end <= PHYS_ADDR_MAX
    ensures var f := Filled(rs, base, end, nid, flags);
            && Table(MergeAll(f)) && AddedMap(rs, MergeAll(f), base, end, (nid, flags)) && Total(MergeAll(f)) == Total(f)
            && (f == rs ==> AddedMap(rs, rs, base, end, (nid, flags)))
  {
    var f := Filled(rs, base, end, nid, flags);
    FilledSorted(rs, base, end, nid, flags);
    MergeMakesTable(f);
    forall x: nat ensures Lookup(f, x) ==
      if Lookup(rs, x).Some? then Lookup(rs, x) else if base <= x < end then Some((nid, flags)) else None
    {
      FilledMap(rs, base, end, nid, flags, x);
    }
  }

  /** Adding a range that was wholly absent and removing it again gives the very same
      table back. */
  lemma {:induction false} RemoveUndoesAdd(rs: seq<Region>, base: nat, end: nat, nid: int, flags: set<nat>)
    requires Table(rs) && base < end <= PHYS_ADDR_MAX && forall x | base <= x < end :: Lookup(rs, x).None?
    ensures var t := MergeAll(Filled(rs, base, end, nid, flags));
            Outside(Isolated(t, base, end), base, end) == rs
  {
    var t := MergeAll(Filled(rs, base, end, nid, flags));
    AddKeeps(rs, base, end, nid, flags);
    RemoveKeeps(t, base, end);
    Canonical(Outside(Isolated(t, base, end), base, end), rs);
  }

  /** Two additions with the same attributes commute, whatever they overlap. */
  lemma {:induction false} AddsCommute(rs: seq<Region>, b1: nat, e1: nat, b2: nat, e2: nat, nid: int, flags: set<nat>)
    requires Table(rs) && e1 <= PHYS_ADDR_MAX && e2 <= PHYS_ADDR_MAX
    ensures MergeAll(Filled(MergeAll(Filled(rs, b1, e1, nid, flags)), b2, e2, nid, flags)) ==
            MergeAll(Filled(MergeAll(Filled(rs, b2, e2, nid, flags)), b1, e1, nid, flags))
  {
    var t1, t2 := MergeAll(Filled(rs, b1, e1, nid, flags)), MergeAll(Filled(rs, b2, e2, nid, flags));
    AddKeeps(rs, b1, e1, nid, flags);
    AddKeeps(rs, b2, e2, nid, flags);
    AddKeeps(t1, b2, e2, nid, flags);
    AddKeeps(t2, b1, e1, nid, flags);
    Canonical(MergeAll(Filled(t1, b2, e2, nid, flags)), MergeAll(Filled(t2, b1, e1, nid, flags)));
  }
}
