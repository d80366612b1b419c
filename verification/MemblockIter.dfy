/** The two-cursor iterators __next_mem_range() and __next_mem_range_rev() of
    mm/memblock.c: all of one table minus another. */
module MemblockIter {
  import opened Options
  import opened MemblockRegions

  datatype Range = Range(start: nat, end: nat, nid: int)

  /** Ascending and disjoint; empty regions (the dummy) allowed. */
  ghost predicate Ascending(rs: seq<Region>) {
    && (forall i | 0 <= i < |rs| :: End(rs[i]) <= PHYS_ADDR_MAX)
    && (forall i, j | 0 <= i < j < |rs| :: End(rs[i]) <= rs[j].base)
  }

  /** Gap b of a table lies before its region b; the last one reaches to the top. */
  function GapStart(rs: seq<Region>, b: nat): nat
    requires b <= |rs|
  {
    if b == 0 then 0 else End(rs[b - 1])
  }

  function GapEnd(rs: seq<Region>, b: nat): nat
    requires b <= |rs|
  {
    if b < |rs| then rs[b].base else PHYS_ADDR_MAX
  }

  predicate Meets(m: Region, rs: seq<Region>, b: nat)
    requires b <= |rs|
  {
    GapStart(rs, b) < End(m) && m.base < GapEnd(rs, b)
  }

  function Overlap(m: Region, rs: seq<Region>, b: nat): Range
    requires b <= |rs|
  {
    Range(Max(m.base, GapStart(rs, b)), Min(End(m), GapEnd(rs, b)), m.nid)
  }

  // ---------- the reference: every region against every gap

  function RowFrom(m: Region, rs: seq<Region>, b: nat): seq<Range>
    requires b <= |rs| + 1
    decreases |rs| + 1 - b
  {
    if b == |rs| + 1 then []
    else (if Meets(m, rs, b) then [Overlap(m, rs, b)] else []) + RowFrom(m, rs, b + 1)
  }

  function RowsFrom(ms: seq<Region>, rs: seq<Region>, want: Region -> bool, a: nat): seq<Range>
    requires a <= |ms|
    decreases |ms| - a
  {
    if a == |ms| then []
    else (if want(ms[a]) then RowFrom(ms[a], rs, 0) else []) + RowsFrom(ms, rs, want, a + 1)
  }

  function AllFree(ms: seq<Region>, rs: seq<Region>, want: Region -> bool): seq<Range> {
    RowsFrom(ms, rs, want, 0)
  }

  // ---------- forwards

  /** __next_mem_range() from cursors a and b: the range found and the cursors after it. */
  function Next(ms: seq<Region>, rs: seq<Region>, want: Region -> bool, a: nat, b: nat): (r: Option<(Range, nat, nat)>)
    requires a <= |ms| && b <= |rs| + 1
    ensures r.Some? ==> a <= r.value.1 <= |ms| && b <= r.value.2 <= |rs| + 1 && a + b < r.value.1 + r.value.2
    decreases |ms| - a + |rs| + 1 - b
  {
    if a == |ms| then None
    else if !want(ms[a]) || b == |rs| + 1 || GapStart(rs, b) >= End(ms[a]) then Next(ms, rs, want, a + 1, b)
    else if ms[a].base < GapEnd(rs, b) then
      var next := if End(ms[a]) <= GapEnd(rs, b) then (a + 1, b) else (a, b + 1);
      Some((Overlap(ms[a], rs, b), next.0, next.1))
    else Next(ms, rs, want, a, b + 1)
  }

  /** Iterating until the end marker. */
  function Walk(ms: seq<Region>, rs: seq<Region>, want: Region -> bool, a: nat, b: nat): seq<Range>
    requires a <= |ms| && b <= |rs| + 1
    decreases |ms| - a + |rs| + 1 - b
  {
    match Next(ms, rs, want, a, b)
    case None => []
    case Some((r, a', b')) => [r] + Walk(ms, rs, want, a', b')
  }

  lemma GapsAscend(rs: seq<Region>, b: nat, c: nat)
    requires Ascending(rs) && b < c <= |rs|
    ensures GapEnd(rs, b) <= GapStart(rs, c) && GapStart(rs, b) <= GapStart(rs, c) && GapEnd(rs, b) <= GapEnd(rs, c)
  {
    if b < c - 1 { assert End(rs[b]) <= rs[c - 1].base; }
    if b > 0 { assert End(rs[b - 1]) <= rs[c - 1].base; }
    if c < |rs| { assert End(rs[b]) <= rs[c].base; }
  }

  /** Once past a region's end, no later gap meets it. */
  lemma {:induction false} RowEnds(m: Region, rs: seq<Region>, b: nat)
    requires Ascending(rs) && b <= |rs| + 1 && (b <= |rs| ==> GapStart(rs, b) >= End(m))
    ensures RowFrom(m, rs, b) == []
    decreases |rs| + 1 - b
  {
    if b <= |rs| {
      if b < |rs| { GapsAscend(rs, b, b + 1); }
      RowEnds(m, rs, b + 1);
    }
  }

  /** No region from a on meets a gap before b. */
  ghost predicate Behind(ms: seq<Region>, rs: seq<Region>, a: nat, b: nat) {
    forall i, j | a <= i < |ms| && 0 <= j < b && j <= |rs| :: GapEnd(rs, j) <= ms[i].base
  }

  lemma {:induction false} RowSkips(m: Region, rs: seq<Region>, b: nat, c: nat)
    requires b <= c <= |rs| + 1 && forall j | b <= j < c :: GapEnd(rs, j) <= m.base
    ensures RowFrom(m, rs, b) == RowFrom(m, rs, c)
    decreases c - b
  {
    if b < c {
      RowSkips(m, rs, b + 1, c);
    }
  }

  /** What is left to yield from cursors a and b. */
  function Left(ms: seq<Region>, rs: seq<Region>, want: Region -> bool, a: nat, b: nat): seq<Range>
    requires a <= |ms| && b <= |rs| + 1
  {
    if a == |ms| then []
    else (if want(ms[a]) then RowFrom(ms[a], rs, b) else []) + RowsFrom(ms, rs, want, a + 1)
  }

  lemma LeftNextRow(ms: seq<Region>, rs: seq<Region>, want: Region -> bool, a: nat, b: nat)
    requires a < |ms| && b <= |rs| + 1 && Behind(ms, rs, a + 1, b)
    ensures Left(ms, rs, want, a + 1, b) == RowsFrom(ms, rs, want, a + 1)
  {
    if a + 1 < |ms| {
      RowSkips(ms[a + 1], rs, 0, b);
    }
  }

  lemma BehindNext(ms: seq<Region>, rs: seq<Region>, a: nat, b: nat)
    requires Ascending(ms) && Ascending(rs) && a < |ms| && b <= |rs| && Behind(ms, rs, a + 1, b)
    requires GapEnd(rs, b) <= ms[a].base || GapEnd(rs, b) < End(ms[a])
    ensures Behind(ms, rs, a + 1, b + 1)
  {
    forall i, j | a + 1 <= i < |ms| && 0 <= j < b + 1 && j <= |rs| ensures GapEnd(rs, j) <= ms[i].base {
      if j == b { assert End(ms[a]) <= ms[i].base; }
    }
  }

  lemma LeftSkipRow(ms: seq<Region>, rs: seq<Region>, want: Region -> bool, a: nat, b: nat)
    requires Ascending(rs) && a < |ms| && b <= |rs| + 1 && Behind(ms, rs, a + 1, b)
    requires !want(ms[a]) || b == |rs| + 1 || GapStart(rs, b) >= End(ms[a])
    ensures Left(ms, rs, want, a, b) == Left(ms, rs, want, a + 1, b)
  {
    LeftNextRow(ms, rs, want, a, b);
    if want(ms[a]) {
      RowEnds(ms[a], rs, b);
    }
  }

  lemma LeftYieldLast(ms: seq<Region>, rs: seq<Region>, want: Region -> bool, a: nat, b: nat)
    requires Ascending(rs) && a < |ms| && b <= |rs| && Behind(ms, rs, a + 1, b)
    requires want(ms[a]) && Meets(ms[a], rs, b) && End(ms[a]) <= GapEnd(rs, b)
    ensures Left(ms, rs, want, a, b) == [Overlap(ms[a], rs, b)] + Left(ms, rs, want, a + 1, b)
  {
    hide RowsFrom, Behind;
    if b < |rs| { GapsAscend(rs, b, b + 1); }
    RowEnds(ms[a], rs, b + 1);
    LeftNextRow(ms, rs, want, a, b);
  }

  lemma {:induction false} LeftYieldMore(ms: seq<Region>, rs: seq<Region>, want: Region -> bool, a: nat, b: nat)
    requires a < |ms| && b <= |rs| && want(ms[a]) && Meets(ms[a], rs, b)
    ensures Left(ms, rs, want, a, b) == [Overlap(ms[a], rs, b)] + Left(ms, rs, want, a, b + 1)
  {
  }

  lemma RowSkipsGap(m: Region, rs: seq<Region>, b: nat)
    requires b <= |rs| && !Meets(m, rs, b)
    ensures RowFrom(m, rs, b) == RowFrom(m, rs, b + 1)
  {
  }

  lemma LeftSkipGap(ms: seq<Region>, rs: seq<Region>, want: Region -> bool, a: nat, b: nat)
    requires a < |ms| && b <= |rs| && want(ms[a]) && !Meets(ms[a], rs, b)
    ensures Left(ms, rs, want, a, b) == Left(ms, rs, want, a, b + 1)
  {
    hide RowFrom, RowsFrom, Meets;
    RowSkipsGap(ms[a], rs, b);
  }

  lemma BehindLess(ms: seq<Region>, rs: seq<Region>, a: nat, b: nat)
    requires Behind(ms, rs, a, b)
    ensures Behind(ms, rs, a + 1, b)
  {
  }

  ghost predicate Yields(ms: seq<Region>, rs: seq<Region>, want: Region -> bool, a: nat, b: nat)
    requires a <= |ms| && b <= |rs| + 1
  {
    match Next(ms, rs, want, a, b)
    case None => Left(ms, rs, want, a, b) == []
    case Some((r, a', b')) =>
      Behind(ms, rs, a' + 1, b') && Left(ms, rs, want, a, b) == [r] + Left(ms, rs, want, a', b')
  }

  lemma {:induction false} NextIsFirstLeft(ms: seq<Region>, rs: seq<Region>, want: Region -> bool, a: nat, b: nat)
    requires Ascending(ms) && Ascending(rs) && a <= |ms| && b <= |rs| + 1 && Behind(ms, rs, a + 1, b)
    ensures Yields(ms, rs, want, a, b)
    decreases |ms| - a + |rs| + 1 - b
  {
    hide Left, Behind, Ascending;
    if a == |ms| {
      LeftNone(ms, rs, want, b);
    } else {
      BehindLess(ms, rs, a + 1, b);
      if !want(ms[a]) || b == |rs| + 1 || GapStart(rs, b) >= End(ms[a]) {
        LeftSkipRow(ms, rs, want, a, b);
        NextIsFirstLeft(ms, rs, want, a + 1, b);
      } else if ms[a].base < GapEnd(rs, b) {
        if End(ms[a]) <= GapEnd(rs, b) {
          LeftYieldLast(ms, rs, want, a, b);
        } else {
          BehindNext(ms, rs, a, b);
          LeftYieldMore(ms, rs, want, a, b);
        }
      } else {
        BehindNext(ms, rs, a, b);
        LeftSkipGap(ms, rs, want, a, b);
        NextIsFirstLeft(ms, rs, want, a, b + 1);
      }
    }
  }

  lemma LeftNone(ms: seq<Region>, rs: seq<Region>, want: Region -> bool, b: nat)
    requires b <= |rs| + 1
    ensures Left(ms, rs, want, |ms|, b) == []
  {
  }

  lemma {:induction false} WalkIsLeft(ms: seq<Region>, rs: seq<Region>, want: Region -> bool, a: nat, b: nat)
    requires Ascending(ms) && Ascending(rs) && a <= |ms| && b <= |rs| + 1 && Behind(ms, rs, a + 1, b)
    ensures Walk(ms, rs, want, a, b) == Left(ms, rs, want, a, b)
    decreases |ms| - a + |rs| + 1 - b
  {
    NextIsFirstLeft(ms, rs, want, a, b);
    if Next(ms, rs, want, a, b).Some? {
      var (r, a', b') := Next(ms, rs, want, a, b).value;
      WalkIsLeft(ms, rs, want, a', b');
    }
  }

  /** Two cursors moving only forwards yield what comparing everything with everything
      yields, in the same order. */
  lemma {:induction false} WalkIsAllFree(ms: seq<Region>, rs: seq<Region>, want: Region -> bool)
    requires Ascending(ms) && Ascending(rs)
    ensures Walk(ms, rs, want, 0, 0) == AllFree(ms, rs, want)
  {
    WalkIsLeft(ms, rs, want, 0, 0);
  }

  // ---------- backwards

  /** __next_mem_range_rev(); the cursors count the regions and gaps still below. */
  function NextRev(ms: seq<Region>, rs: seq<Region>, want: Region -> bool, a: nat, b: nat): (r: Option<(Range, nat, nat)>)
    requires a <= |ms| && b <= |rs| + 1
    ensures r.Some? ==> r.value.1 <= a && r.value.2 <= b && r.value.1 + r.value.2 < a + b
    decreases a + b
  {
    if a == 0 then None
    else if !want(ms[a - 1]) || b == 0 || GapEnd(rs, b - 1) <= ms[a - 1].base then NextRev(ms, rs, want, a - 1, b)
    else if End(ms[a - 1]) > GapStart(rs, b - 1) then
      var next := if ms[a - 1].base >= GapStart(rs, b - 1) then (a - 1, b) else (a, b - 1);
      Some((Overlap(ms[a - 1], rs, b - 1), next.0, next.1))
    else NextRev(ms, rs, want, a, b - 1)
  }

  function WalkRev(ms: seq<Region>, rs: seq<Region>, want: Region -> bool, a: nat, b: nat): seq<Range>
    requires a <= |ms| && b <= |rs| + 1
    decreases a + b
  {
    match NextRev(ms, rs, want, a, b)
    case None => []
    case Some((r, a', b')) => [r] + WalkRev(ms, rs, want, a', b')
  }

  function Reversed(s: seq<Range>): seq<Range> {
    if s == [] then [] else Reversed(s[1..]) + [s[0]]
  }

  lemma {:induction false} ReversedSnoc(s: seq<Range>, r: Range)
    ensures Reversed(s + [r]) == [r] + Reversed(s)
  {
    if s == [] {
      assert s + [r] == [r];
    } else {
      assert (s + [r])[1..] == s[1..] + [r];
      ReversedSnoc(s[1..], r);
    }
  }

  /** The pieces of one region in the first b gaps, and of the first a regions. */
  function RowUpTo(m: Region, rs: seq<Region>, b: nat): seq<Range>
    requires b <= |rs| + 1
  {
    if b == 0 then [] else RowUpTo(m, rs, b - 1) + (if Meets(m, rs, b - 1) then [Overlap(m, rs, b - 1)] else [])
  }

  function RowsUpTo(ms: seq<Region>, rs: seq<Region>, want: Region -> bool, a: nat): seq<Range>
    requires a <= |ms|
  {
    if a == 0 then []
    else RowsUpTo(ms, rs, want, a - 1) + (if want(ms[a - 1]) then RowUpTo(ms[a - 1], rs, |rs| + 1) else [])
  }

  lemma {:induction false} RowSplits(m: Region, rs: seq<Region>, b: nat)
    requires b <= |rs| + 1
    ensures RowUpTo(m, rs, b) + RowFrom(m, rs, b) == RowFrom(m, rs, 0)
  {
    if b > 0 {
      RowSplits(m, rs, b - 1);
      var piece := if Meets(m, rs, b - 1) then [Overlap(m, rs, b - 1)] else [];
      assert RowUpTo(m, rs, b - 1) + piece + RowFrom(m, rs, b) == RowUpTo(m, rs, b - 1) + (piece + RowFrom(m, rs, b));
    }
  }

  lemma {:induction false} RowsSplit(ms: seq<Region>, rs: seq<Region>, want: Region -> bool, a: nat)
    requires a <= |ms|
    ensures RowsUpTo(ms, rs, want, a) + RowsFrom(ms, rs, want, a) == AllFree(ms, rs, want)
  {
    if a > 0 {
      RowsSplit(ms, rs, want, a - 1);
      RowSplits(ms[a - 1], rs, |rs| + 1);
      assert RowsUpTo(ms, rs, want, a) + RowsFrom(ms, rs, want, a) ==
             RowsUpTo(ms, rs, want, a - 1) + RowsFrom(ms, rs, want, a - 1);
    }
  }

  function Below(ms: seq<Region>, rs: seq<Region>, want: Region -> bool, a: nat, b: nat): seq<Range>
    requires a <= |ms| && b <= |rs| + 1
  {
    if a == 0 then []
    else RowsUpTo(ms, rs, want, a - 1) + (if want(ms[a - 1]) then RowUpTo(ms[a - 1], rs, b) else [])
  }

  /** None of the first a regions meets a gap from b on. */
  ghost predicate Ahead(ms: seq<Region>, rs: seq<Region>, a: nat, b: nat) {
    forall i, j | 0 <= i < a && i < |ms| && b <= j <= |rs| :: End(ms[i]) <= GapStart(rs, j)
  }

  lemma {:induction false} RowUpToSkips(m: Region, rs: seq<Region>, b: nat, c: nat)
    requires b <= c <= |rs| + 1 && forall j | b <= j < c :: End(m) <= GapStart(rs, j)
    ensures RowUpTo(m, rs, c) == RowUpTo(m, rs, b)
    decreases c - b
  {
    if b < c {
      RowUpToSkips(m, rs, b, c - 1);
    }
  }

  lemma {:induction false} RowUpToEmpty(m: Region, rs: seq<Region>, b: nat)
    requires Ascending(rs) && b <= |rs| + 1 && (b > 0 ==> GapEnd(rs, b - 1) <= m.base)
    ensures RowUpTo(m, rs, b) == []
  {
    if b > 0 {
      if b > 1 { GapsAscend(rs, b - 2, b - 1); }
      RowUpToEmpty(m, rs, b - 1);
    }
  }

  lemma BelowNextRow(ms: seq<Region>, rs: seq<Region>, want: Region -> bool, a: nat, b: nat)
    requires 0 < a <= |ms| && b <= |rs| + 1 && Ahead(ms, rs, a - 1, b)
    ensures Below(ms, rs, want, a - 1, b) == RowsUpTo(ms, rs, want, a - 1)
  {
    if a > 1 {
      RowUpToSkips(ms[a - 2], rs, b, |rs| + 1);
    }
  }

  lemma BelowSkipRow(ms: seq<Region>, rs: seq<Region>, want: Region -> bool, a: nat, b: nat)
    requires Ascending(rs) && 0 < a <= |ms| && b <= |rs| + 1 && Ahead(ms, rs, a - 1, b)
    requires !want(ms[a - 1]) || b == 0 || GapEnd(rs, b - 1) <= ms[a - 1].base
    ensures Below(ms, rs, want, a, b) == Below(ms, rs, want, a - 1, b)
  {
    BelowNextRow(ms, rs, want, a, b);
    if want(ms[a - 1]) {
      RowUpToEmpty(ms[a - 1], rs, b);
    }
  }

  lemma BelowYieldLast(ms: seq<Region>, rs: seq<Region>, want: Region -> bool, a: nat, b: nat)
    requires Ascending(rs) && 0 < a <= |ms| && 0 < b <= |rs| + 1 && Ahead(ms, rs, a - 1, b)
    requires want(ms[a - 1]) && Meets(ms[a - 1], rs, b - 1) && ms[a - 1].base >= GapStart(rs, b - 1)
    ensures Below(ms, rs, want, a, b) == Below(ms, rs, want, a - 1, b) + [Overlap(ms[a - 1], rs, b - 1)]
  {
    if b > 1 { GapsAscend(rs, b - 2, b - 1); }
    RowUpToEmpty(ms[a - 1], rs, b - 1);
    BelowNextRow(ms, rs, want, a, b);
  }

  lemma BelowYieldMore(ms: seq<Region>, rs: seq<Region>, want: Region -> bool, a: nat, b: nat)
    requires 0 < a <= |ms| && 0 < b <= |rs| + 1 && want(ms[a - 1])
    ensures Below(ms, rs, want, a, b) ==
            Below(ms, rs, want, a, b - 1) + if Meets(ms[a - 1], rs, b - 1) then [Overlap(ms[a - 1], rs, b - 1)] else []
  {
  }

  lemma AheadNext(ms: seq<Region>, rs: seq<Region>, a: nat, b: nat)
    requires Ascending(ms) && Ascending(rs) && 0 < a <= |ms| && 0 < b <= |rs| + 1 && Ahead(ms, rs, a - 1, b)
    requires End(ms[a - 1]) <= GapStart(rs, b - 1) || ms[a - 1].base < GapStart(rs, b - 1)
    ensures Ahead(ms, rs, a - 1, b - 1)
  {
    forall i, j | 0 <= i < a - 1 && i < |ms| && b - 1 <= j <= |rs| ensures End(ms[i]) <= GapStart(rs, j) {
      if j == b - 1 { assert End(ms[i]) <= ms[a - 1].base; }
    }
  }

  lemma AheadLess(ms: seq<Region>, rs: seq<Region>, a: nat, b: nat)
    requires 0 < a && Ahead(ms, rs, a - 1, b)
    ensures a > 1 ==> Ahead(ms, rs, a - 2, b)
  {
  }

  lemma BelowNone(ms: seq<Region>, rs: seq<Region>, want: Region -> bool, b: nat)
    requires b <= |rs| + 1
    ensures Below(ms, rs, want, 0, b) == []
  {
  }

  lemma {:induction false} WalkRevIsBelow(ms: seq<Region>, rs: seq<Region>, want: Region -> bool, a: nat, b: nat)
    requires Ascending(ms) && Ascending(rs) && a <= |ms| && b <= |rs| + 1 && (a > 0 ==> Ahead(ms, rs, a - 1, b))
    ensures WalkRev(ms, rs, want, a, b) == Reversed(Below(ms, rs, want, a, b))
    decreases a + b
  {
    hide Below, Ahead, Ascending, Reversed;
    if a == 0 {
      BelowNone(ms, rs, want, b);
      ReversedNone();
    } else {
      AheadLess(ms, rs, a, b);
      if !want(ms[a - 1]) || b == 0 || GapEnd(rs, b - 1) <= ms[a - 1].base {
        BelowSkipRow(ms, rs, want, a, b);
        WalkRevIsBelow(ms, rs, want, a - 1, b);
      } else if End(ms[a - 1]) > GapStart(rs, b - 1) {
        var r := Overlap(ms[a - 1], rs, b - 1);
        if ms[a - 1].base >= GapStart(rs, b - 1) {
          BelowYieldLast(ms, rs, want, a, b);
          ReversedSnoc(Below(ms, rs, want, a - 1, b), r);
          WalkRevIsBelow(ms, rs, want, a - 1, b);
        } else {
          BelowYieldMore(ms, rs, want, a, b);
          ReversedSnoc(Below(ms, rs, want, a, b - 1), r);
          AheadNext(ms, rs, a, b);
          WalkRevIsBelow(ms, rs, want, a, b - 1);
        }
      } else {
        BelowYieldMore(ms, rs, want, a, b);
        AheadNext(ms, rs, a, b);
        WalkRevIsBelow(ms, rs, want, a, b - 1);
        assert Below(ms, rs, want, a, b - 1) + [] == Below(ms, rs, want, a, b - 1);
      }
    }
  }

  lemma ReversedNone()
    ensures Reversed([]) == []
  {
  }

  /** The reverse iterator yields the forward iterator's ranges, backwards. */
  lemma {:induction false} WalkRevIsWalkReversed(ms: seq<Region>, rs: seq<Region>, want: Region -> bool)
    requires Ascending(ms) && Ascending(rs)
    ensures WalkRev(ms, rs, want, |ms|, |rs| + 1) == Reversed(Walk(ms, rs, want, 0, 0))
  {
    WalkRevIsBelow(ms, rs, want, |ms|, |rs| + 1);
    WalkIsAllFree(ms, rs, want);
    RowsSplit(ms, rs, want, |ms|);
    assert RowsUpTo(ms, rs, want, |ms|) + [] == RowsUpTo(ms, rs, want, |ms|);
  }

  // ---------- what is yielded

  ghost predicate Yielded(s: seq<Range>, x: nat) {
    exists i :: 0 <= i < |s| && s[i].start <= x < s[i].end
  }

  lemma YieldedConcat(s: seq<Range>, t: seq<Range>, x: nat)
    ensures Yielded(s + t, x) <==> Yielded(s, x) || Yielded(t, x)
  {
    if Yielded(s, x) {
      var i :| 0 <= i < |s| && s[i].start <= x < s[i].end;
      assert (s + t)[i] == s[i];
    }
    if Yielded(t, x) {
      var i :| 0 <= i < |t| && t[i].start <= x < t[i].end;
      assert (s + t)[|s| + i] == t[i];
    }
    if Yielded(s + t, x) {
      var i :| 0 <= i < |s + t| && (s + t)[i].start <= x < (s + t)[i].end;
      if i < |s| { assert s[i] == (s + t)[i]; } else { assert t[i - |s|] == (s + t)[i]; }
    }
  }

  ghost predicate InGap(rs: seq<Region>, b: nat, x: nat) {
    exists j: nat :: b <= j <= |rs| && GapStart(rs, j) <= x < GapEnd(rs, j)
  }

  ghost predicate Taken(rs: seq<Region>, x: nat) {
    exists i :: 0 <= i < |rs| && Holds(rs[i], x)
  }

  /** The gaps are exactly the addresses outside the table. */
  lemma {:induction false} GapsAreFree(rs: seq<Region>, b: nat, x: nat)
    requires Ascending(rs) && b <= |rs| && x < PHYS_ADDR_MAX && GapStart(rs, b) <= x
    ensures InGap(rs, b, x) <==> !exists i :: b <= i < |rs| && Holds(rs[i], x)
    decreases |rs| - b
  {
    if b < |rs| {
      GapsAscend(rs, b, b + 1);
      if x < rs[b].base {
        assert GapStart(rs, b) <= x < GapEnd(rs, b);
        forall i | b <= i < |rs| ensures !Holds(rs[i], x) {
          if i > b { assert End(rs[b]) <= rs[i].base; }
        }
      } else if Holds(rs[b], x) {
        forall j: nat | b <= j <= |rs| ensures !(GapStart(rs, j) <= x < GapEnd(rs, j)) {
          if j > b { GapsAscend(rs, b, j); if j > b + 1 { GapsAscend(rs, b + 1, j); } }
        }
      } else {
        GapsAreFree(rs, b + 1, x);
        if InGap(rs, b, x) {
          var j: nat :| b <= j <= |rs| && GapStart(rs, j) <= x < GapEnd(rs, j);
          assert j != b;
        }
      }
    } else {
      assert GapStart(rs, b) <= x < GapEnd(rs, b);
    }
  }

  lemma GapsOutside(rs: seq<Region>, x: nat)
    requires Ascending(rs) && x < PHYS_ADDR_MAX
    ensures InGap(rs, 0, x) <==> !Taken(rs, x)
  {
    GapsAreFree(rs, 0, x);
  }

  lemma {:induction false} RowYields(m: Region, rs: seq<Region>, b: nat, x: nat)
    requires b <= |rs| + 1
    ensures Yielded(RowFrom(m, rs, b), x) <==> Holds(m, x) && InGap(rs, b, x)
    decreases |rs| + 1 - b
  {
    if b <= |rs| {
      RowYields(m, rs, b + 1, x);
      var first := if Meets(m, rs, b) then [Overlap(m, rs, b)] else [];
      YieldedConcat(first, RowFrom(m, rs, b + 1), x);
      FirstYields(m, rs, b, x);
      GapsFrom(rs, b, x);
    }
  }

  lemma FirstYields(m: Region, rs: seq<Region>, b: nat, x: nat)
    requires b <= |rs|
    ensures Yielded(if Meets(m, rs, b) then [Overlap(m, rs, b)] else [], x) <==>
            Holds(m, x) && GapStart(rs, b) <= x < GapEnd(rs, b)
  {
    if Meets(m, rs, b) {
      assert [Overlap(m, rs, b)][0] == Overlap(m, rs, b);
    }
  }

  lemma GapsFrom(rs: seq<Region>, b: nat, x: nat)
    requires b <= |rs|
    ensures InGap(rs, b, x) <==> (GapStart(rs, b) <= x < GapEnd(rs, b)) || InGap(rs, b + 1, x)
  {
  }

  ghost predicate Wanted(ms: seq<Region>, want: Region -> bool, a: nat, x: nat) {
    exists i :: a <= i < |ms| && want(ms[i]) && Holds(ms[i], x)
  }

  lemma {:induction false} RowsYield(ms: seq<Region>, rs: seq<Region>, want: Region -> bool, a: nat, x: nat)
    requires a <= |ms|
    ensures Yielded(RowsFrom(ms, rs, want, a), x) <==> Wanted(ms, want, a, x) && InGap(rs, 0, x)
    decreases |ms| - a
  {
    if a < |ms| {
      RowsYield(ms, rs, want, a + 1, x);
      var first := if want(ms[a]) then RowFrom(ms[a], rs, 0) else [];
      YieldedConcat(first, RowsFrom(ms, rs, want, a + 1), x);
      RowYields(ms[a], rs, 0, x);
      assert Wanted(ms, want, a, x) <==> (want(ms[a]) && Holds(ms[a], x)) || Wanted(ms, want, a + 1, x);
    }
  }

  /** Iterating to the end yields exactly the wanted memory that is not taken. */
  lemma {:induction false} WalkYieldsFree(ms: seq<Region>, rs: seq<Region>, want: Region -> bool, x: nat)
    requires Ascending(ms) && Ascending(rs)
    ensures Yielded(Walk(ms, rs, want, 0, 0), x) <==> Wanted(ms, want, 0, x) && !Taken(rs, x)
  {
    WalkIsAllFree(ms, rs, want);
    RowsYield(ms, rs, want, 0, x);
    if Wanted(ms, want, 0, x) {
      GapsOutside(rs, x);
    }
  }

  ghost predicate InOrder(s: seq<Range>) {
    forall i, j | 0 <= i < j < |s| :: s[i].end <= s[j].start
  }

  lemma InOrderConcat(s: seq<Range>, t: seq<Range>)
    requires InOrder(s) && InOrder(t) && forall i, j | 0 <= i < |s| && 0 <= j < |t| :: s[i].end <= t[j].start
    ensures InOrder(s + t)
  {
  }

  lemma {:induction false} RowInOrder(m: Region, rs: seq<Region>, b: nat)
    requires Ascending(rs) && b <= |rs| + 1
    ensures var s := RowFrom(m, rs, b);
            && InOrder(s)
            && forall i | 0 <= i < |s| :: m.base <= s[i].start <= s[i].end <= End(m) && (b <= |rs| ==> GapStart(rs, b) <= s[i].start)
    decreases |rs| + 1 - b
  {
    if b <= |rs| {
      RowInOrder(m, rs, b + 1);
      if b < |rs| { GapsAscend(rs, b, b + 1); }
      GapInside(rs, b);
      var first := if Meets(m, rs, b) then [Overlap(m, rs, b)] else [];
      InOrderConcat(first, RowFrom(m, rs, b + 1));
    }
  }

  lemma GapInside(rs: seq<Region>, b: nat)
    requires Ascending(rs) && b <= |rs|
    ensures GapStart(rs, b) <= GapEnd(rs, b)
  {
  }

  lemma {:induction false} RowsInOrder(ms: seq<Region>, rs: seq<Region>, want: Region -> bool, a: nat)
    requires Ascending(ms) && Ascending(rs) && a <= |ms|
    ensures var s := RowsFrom(ms, rs, want, a);
            && InOrder(s)
            && forall i | 0 <= i < |s| :: s[i].start <= s[i].end && exists k :: a <= k < |ms| && ms[k].base <= s[i].start && s[i].end <= End(ms[k])
    decreases |ms| - a
  {
    hide RowFrom;
    if a < |ms| {
      RowsInOrder(ms, rs, want, a + 1);
      RowInOrder(ms[a], rs, 0);
      var first, rest := if want(ms[a]) then RowFrom(ms[a], rs, 0) else [], RowsFrom(ms, rs, want, a + 1);
      forall i, j | 0 <= i < |first| && 0 <= j < |rest| ensures first[i].end <= rest[j].start {
        var k :| a + 1 <= k < |ms| && ms[k].base <= rest[j].start && rest[j].end <= End(ms[k]);
        assert End(ms[a]) <= ms[k].base;
      }
      InOrderConcat(first, rest);
      var s := first + rest;
      forall i | 0 <= i < |s|
        ensures s[i].start <= s[i].end && exists k :: a <= k < |ms| && ms[k].base <= s[i].start && s[i].end <= End(ms[k])
      {
        if i < |first| {
          assert ms[a].base <= s[i].start && s[i].end <= End(ms[a]);
        } else {
          var k :| a + 1 <= k < |ms| && ms[k].base <= rest[i - |first|].start && rest[i - |first|].end <= End(ms[k]);
          assert a <= k;
        }
      }
    }
  }

  /** Ranges come out in ascending order, disjoint, each inside one region. */
  lemma {:induction false} WalkInOrder(ms: seq<Region>, rs: seq<Region>, want: Region -> bool)
    requires Ascending(ms) && Ascending(rs)
    ensures var s := Walk(ms, rs, want, 0, 0);
            && InOrder(s)
            && forall i | 0 <= i < |s| :: s[i].start <= s[i].end && exists k :: 0 <= k < |ms| && ms[k].base <= s[i].start && s[i].end <= End(ms[k])
  {
    WalkIsAllFree(ms, rs, want);
    RowsInOrder(ms, rs, want, 0);
  }

  // ---------- which ranges come out

  /** Region i meets gap b. */
  predicate Pair(ms: seq<Region>, rs: seq<Region>, want: Region -> bool, i: nat, b: nat) {
    i < |ms| && b <= |rs| && want(ms[i]) && Meets(ms[i], rs, b)
  }

  lemma {:induction false} OverlapInRow(m: Region, rs: seq<Region>, a: nat, b: nat)
    requires a <= b <= |rs| && Meets(m, rs, b)
    ensures Overlap(m, rs, b) in RowFrom(m, rs, a)
    decreases b - a
  {
    hide Meets, Overlap;
    if a < b {
      OverlapInRow(m, rs, a + 1, b);
    }
  }

  lemma {:induction false} RowInRows(ms: seq<Region>, rs: seq<Region>, want: Region -> bool, a: nat, i: nat, r: Range)
    requires a <= i < |ms| && want(ms[i]) && r in RowFrom(ms[i], rs, 0)
    ensures r in RowsFrom(ms, rs, want, a)
    decreases i - a
  {
    hide RowFrom;
    if a < i {
      RowInRows(ms, rs, want, a + 1, i, r);
    }
  }

  lemma {:induction false} PairYields(ms: seq<Region>, rs: seq<Region>, want: Region -> bool, i: nat, b: nat)
    requires Ascending(ms) && Ascending(rs) && Pair(ms, rs, want, i, b)
    ensures Overlap(ms[i], rs, b) in Walk(ms, rs, want, 0, 0)
  {
    hide RowFrom, RowsFrom, Walk, Overlap;
    OverlapInRow(ms[i], rs, 0, b);
    RowInRows(ms, rs, want, 0, i, Overlap(ms[i], rs, b));
    WalkIsAllFree(ms, rs, want);
  }

  lemma {:induction false} RowByGap(m: Region, rs: seq<Region>, a: nat, r: Range) returns (b: nat)
    requires a <= |rs| + 1 && r in RowFrom(m, rs, a)
    ensures b <= |rs| && Meets(m, rs, b) && r == Overlap(m, rs, b)
    decreases |rs| + 1 - a
  {
    if Meets(m, rs, a) && r == Overlap(m, rs, a) {
      b := a;
    } else {
      b := RowByGap(m, rs, a + 1, r);
    }
  }

  lemma {:induction false} RowsByPair(ms: seq<Region>, rs: seq<Region>, want: Region -> bool, a: nat, r: Range) returns (i: nat, b: nat)
    requires a <= |ms| && r in RowsFrom(ms, rs, want, a)
    ensures Pair(ms, rs, want, i, b) && r == Overlap(ms[i], rs, b)
    decreases |ms| - a
  {
    hide RowFrom;
    if want(ms[a]) && r in RowFrom(ms[a], rs, 0) {
      i := a;
      b := RowByGap(ms[a], rs, 0, r);
    } else {
      i, b := RowsByPair(ms, rs, want, a + 1, r);
    }
  }

  lemma {:induction false} YieldedByPair(ms: seq<Region>, rs: seq<Region>, want: Region -> bool, r: Range) returns (i: nat, b: nat)
    requires Ascending(ms) && Ascending(rs) && r in Walk(ms, rs, want, 0, 0)
    ensures Pair(ms, rs, want, i, b) && r == Overlap(ms[i], rs, b)
  {
    WalkIsAllFree(ms, rs, want);
    i, b := RowsByPair(ms, rs, want, 0, r);
  }

  /** Regions c - 1 and c of rs touch strictly inside m. */
  predicate TouchInside(m: Region, rs: seq<Region>, c: nat) {
    0 < c < |rs| && End(rs[c - 1]) == rs[c].base && m.base < rs[c].base < End(m)
  }

  /** m is empty and strictly inside gap b of rs. */
  predicate Hollow(m: Region, rs: seq<Region>, b: nat) {
    b <= |rs| && m.size == 0 && GapStart(rs, b) < m.base < GapEnd(rs, b)
  }

  /** The two ways for a range to come out empty. */
  lemma PairIsEmpty(ms: seq<Region>, rs: seq<Region>, want: Region -> bool, i: nat, b: nat)
    requires Ascending(ms) && Ascending(rs) && i < |ms| && want(ms[i])
    ensures Pair(ms, rs, want, i, b) && Overlap(ms[i], rs, b).start >= Overlap(ms[i], rs, b).end
       <==> TouchInside(ms[i], rs, b) || Hollow(ms[i], rs, b)
  {
    if b <= |rs| { GapInside(rs, b); }
  }

  /** No range is empty if and only if no two taken regions touch strictly inside a wanted one, and no wanted
      region is empty and strictly inside a gap. */
  lemma {:induction false} EmptyRangesExactly(ms: seq<Region>, rs: seq<Region>, want: Region -> bool)
    requires Ascending(ms) && Ascending(rs)
    ensures (forall r | r in Walk(ms, rs, want, 0, 0) :: r.start < r.end)
       <==> forall i: nat, b: nat | i < |ms| && want(ms[i]) :: !TouchInside(ms[i], rs, b) && !Hollow(ms[i], rs, b)
  {
    hide Walk, Ascending, TouchInside, Hollow, Pair, Overlap;
    forall r | r in Walk(ms, rs, want, 0, 0) && r.start >= r.end
      ensures exists i: nat, b: nat :: i < |ms| && want(ms[i]) && (TouchInside(ms[i], rs, b) || Hollow(ms[i], rs, b))
    {
      var i, b := YieldedByPair(ms, rs, want, r);
      PairWants(ms, rs, want, i, b);
      PairIsEmpty(ms, rs, want, i, b);
    }
    forall i: nat, b: nat | i < |ms| && want(ms[i]) && (TouchInside(ms[i], rs, b) || Hollow(ms[i], rs, b))
      ensures exists r :: r in Walk(ms, rs, want, 0, 0) && r.start >= r.end
    {
      PairIsEmpty(ms, rs, want, i, b);
      PairWants(ms, rs, want, i, b);
      PairYields(ms, rs, want, i, b);
    }
  }

  lemma PairWants(ms: seq<Region>, rs: seq<Region>, want: Region -> bool, i: nat, b: nat)
    requires Pair(ms, rs, want, i, b)
    ensures i < |ms| && b <= |rs| && want(ms[i])
  {
  }

  const Memory := Region(0, 30, 0, {})
  const Touching := [Region(10, 5, 0, {}), Region(15, 5, 0, {})]

  /** Two taken regions that touch at 15: the range between them comes out empty. */
  lemma {:induction false} EmptyRangeHappens(want: Region -> bool)
    requires want(Memory)
    ensures Ascending([Memory]) && Ascending(Touching) && Range(15, 15, 0) in Walk([Memory], Touching, want, 0, 0)
  {
    assert Pair([Memory], Touching, want, 0, 1) && Overlap(Memory, Touching, 1) == Range(15, 15, 0);
    hide Walk;
    PairYields([Memory], Touching, want, 0, 1);
  }

  // ---------- as it runs

  method NextMemRange(ms: seq<Region>, rs: seq<Region>, want: Region -> bool, a0: nat, b0: nat)
    returns (r: Option<Range>, a: nat, b: nat)
    requires a0 <= |ms| && b0 <= |rs| + 1
    ensures match Next(ms, rs, want, a0, b0)
            case None => r.None?
            case Some((found, a', b')) => r == Some(found) && a == a' && b == b'
  {
    a, b := a0, b0;
    while a < |ms|
      invariant a <= |ms| && b <= |rs| + 1
      invariant Next(ms, rs, want, a0, b0) == Next(ms, rs, want, a, b)
      decreases |ms| - a
    {
      var m := ms[a];
      if want(m) {
        while b < |rs| + 1
          invariant b <= |rs| + 1
          invariant Next(ms, rs, want, a0, b0) == Next(ms, rs, want, a, b)
        {
          if GapStart(rs, b) >= End(m) { break; }
          if m.base < GapEnd(rs, b) {
            r := Some(Overlap(m, rs, b));
            if End(m) <= GapEnd(rs, b) { a := a + 1; } else { b := b + 1; }
            return;
          }
          b := b + 1;
        }
      }
      a := a + 1;
    }
    r := None;
  }

  method NextMemRangeRev(ms: seq<Region>, rs: seq<Region>, want: Region -> bool, a0: nat, b0: nat)
    returns (r: Option<Range>, a: nat, b: nat)
    requires a0 <= |ms| && b0 <= |rs| + 1
    ensures match NextRev(ms, rs, want, a0, b0)
            case None => r.None?
            case Some((found, a', b')) => r == Some(found) && a == a' && b == b'
  {
    a, b := a0, b0;
    while a > 0
      invariant a <= |ms| && b <= |rs| + 1
      invariant NextRev(ms, rs, want, a0, b0) == NextRev(ms, rs, want, a, b)
    {
      var m := ms[a - 1];
      if want(m) {
        while b > 0
          invariant b <= |rs| + 1
          invariant NextRev(ms, rs, want, a0, b0) == NextRev(ms, rs, want, a, b)
        {
          if GapEnd(rs, b - 1) <= m.base { break; }
          if End(m) > GapStart(rs, b - 1) {
            r := Some(Overlap(m, rs, b - 1));
            if m.base >= GapStart(rs, b - 1) { a := a - 1; } else { b := b - 1; }
            return;
          }
          b := b - 1;
        }
      }
      a := a - 1;
    }
    r := None;
  }
}
