/** memblock_find_in_range_node() in its top-down form and memblock_alloc_range_nid(). */
module MemblockAlloc {
  import opened Options
  import opened MemblockRegions
  import opened MemblockOps
  import opened MemblockIter

  const PAGE_SIZE: nat := 4096

  function Clamp(v: nat, lo: nat, hi: nat): nat {
    if v < lo then lo else if v > hi then hi else v
  }

  /** round_down(): the largest multiple of align up to x. */
  function RoundDown(x: nat, align: nat): (r: nat)
    requires align > 0
    ensures r <= x < r + align
  {
    if x < align then 0 else align + RoundDown(x - align, align)
  }

  /** c is a multiple of align. */
  predicate Multiple(c: nat, align: nat)
    requires align > 0
  {
    c == 0 || (c >= align && Multiple(c - align, align))
  }

  lemma {:induction false} RoundedIsMultiple(x: nat, align: nat)
    requires align > 0
    ensures Multiple(RoundDown(x, align), align)
  {
    if x >= align {
      RoundedIsMultiple(x - align, align);
    }
  }

  lemma {:induction false} RoundedIsLargest(x: nat, align: nat, c: nat)
    requires align > 0 && c <= x && Multiple(c, align)
    ensures c <= RoundDown(x, align)
  {
    if c > 0 {
      RoundedIsLargest(x - align, align, c - align);
    }
  }

  lemma {:induction false} RoundsDown(x: nat, align: nat)
    requires align > 0
    ensures Multiple(RoundDown(x, align), align)
    ensures forall c: nat | c <= x && Multiple(c, align) :: c <= RoundDown(x, align)
  {
    RoundedIsMultiple(x, align);
    forall c: nat | c <= x && Multiple(c, align) ensures c <= RoundDown(x, align) {
      RoundedIsLargest(x, align, c);
    }
  }

  /** Address c is usable for the request inside range r. */
  predicate Fits(c: nat, r: Range, start: nat, end: nat, size: nat, align: nat)
    requires align > 0
  {
    Multiple(c, align) && Max(r.start, start) <= c && c + size <= Min(r.end, end)
  }

  /** What the search makes of one range. */
  function Candidate(r: Range, start: nat, end: nat, size: nat, align: nat): Option<nat>
    requires align > 0
  {
    var lo, hi := Clamp(r.start, start, end), Clamp(r.end, start, end);
    if hi < size then None
    else if RoundDown(hi - size, align) >= lo then Some(RoundDown(hi - size, align))
    else None
  }

  lemma CandidateIsHighest(r: Range, start: nat, end: nat, size: nat, align: nat)
    requires align > 0 && start <= end && size > 0 && r.start <= r.end
    ensures match Candidate(r, start, end, size, align)
            case None => forall c: nat :: !Fits(c, r, start, end, size, align)
            case Some(k) => k >= start && Fits(k, r, start, end, size, align) && forall c: nat | Fits(c, r, start, end, size, align) :: c <= k
  {
    var hi := Clamp(r.end, start, end);
    if hi >= size {
      RoundsDown(hi - size, align);
    }
  }

  /** __memblock_find_range_top_down(): the first candidate, 0 if there is none. */
  function TopDown(s: seq<Range>, start: nat, end: nat, size: nat, align: nat): nat
    requires align > 0
  {
    if s == [] then 0
    else match Candidate(s[0], start, end, size, align)
      case Some(c) => c
      case None => TopDown(s[1..], start, end, size, align)
  }

  ghost predicate Descending(s: seq<Range>) {
    && (forall i | 0 <= i < |s| :: s[i].start <= s[i].end)
    && (forall i, j | 0 <= i < j < |s| :: s[j].end <= s[i].start)
  }

  ghost predicate FitsSome(c: nat, s: seq<Range>, start: nat, end: nat, size: nat, align: nat)
    requires align > 0
  {
    exists i :: 0 <= i < |s| && Fits(c, s[i], start, end, size, align)
  }

  /** The highest fitting address of all ranges; 0 only if nothing fits. */
  lemma {:induction false} TopDownIsHighest(s: seq<Range>, start: nat, end: nat, size: nat, align: nat)
    requires align > 0 && 0 < start <= end && size > 0 && Descending(s)
    ensures var k := TopDown(s, start, end, size, align);
            && (k == 0 <==> forall c: nat :: !FitsSome(c, s, start, end, size, align))
            && (k != 0 ==> FitsSome(k, s, start, end, size, align))
            && forall c: nat | FitsSome(c, s, start, end, size, align) :: c <= k
  {
    hide Candidate, Fits;
    if s != [] {
      CandidateIsHighest(s[0], start, end, size, align);
      TopDownIsHighest(s[1..], start, end, size, align);
      forall c: nat ensures FitsSome(c, s, start, end, size, align) <==>
                            Fits(c, s[0], start, end, size, align) || FitsSome(c, s[1..], start, end, size, align)
      {
        FitsCons(c, s, start, end, size, align);
      }
      if Candidate(s[0], start, end, size, align).Some? {
        var k := Candidate(s[0], start, end, size, align).value;
        forall c: nat | FitsSome(c, s[1..], start, end, size, align) ensures c <= k {
          var i :| 0 <= i < |s[1..]| && Fits(c, s[1..][i], start, end, size, align);
          assert s[1..][i] == s[i + 1] && s[i + 1].end <= s[0].start;
          LowerRange(c, s[i + 1], k, s[0], start, end, size, align);
        }
      }
    }
  }

  lemma LowerRange(c: nat, lower: Range, k: nat, upper: Range, start: nat, end: nat, size: nat, align: nat)
    requires align > 0 && lower.end <= upper.start
    requires Fits(c, lower, start, end, size, align) && Fits(k, upper, start, end, size, align)
    ensures c <= k
  {
  }

  lemma FitsCons(c: nat, s: seq<Range>, start: nat, end: nat, size: nat, align: nat)
    requires align > 0 && s != []
    ensures FitsSome(c, s, start, end, size, align) <==>
            Fits(c, s[0], start, end, size, align) || FitsSome(c, s[1..], start, end, size, align)
  {
    if FitsSome(c, s, start, end, size, align) {
      var i :| 0 <= i < |s| && Fits(c, s[i], start, end, size, align);
      if i > 0 { assert s[1..][i - 1] == s[i]; }
    }
    if FitsSome(c, s[1..], start, end, size, align) {
      var i :| 0 <= i < |s[1..]| && Fits(c, s[1..][i], start, end, size, align);
      assert s[i + 1] == s[1..][i];
    }
  }

  lemma {:induction false} ReversedDescends(s: seq<Range>)
    requires InOrder(s) && forall i | 0 <= i < |s| :: s[i].start <= s[i].end
    ensures Descending(Reversed(s))
    ensures forall r :: r in Reversed(s) <==> r in s
  {
    if s != [] {
      assert s == [s[0]] + s[1..];
      ReversedDescends(s[1..]);
      var t := Reversed(s[1..]);
      var u := t + [s[0]];
      forall i, j | 0 <= i < j < |u| ensures u[j].end <= u[i].start {
        if j == |t| {
          assert t[i] in s[1..];
          var k :| 0 <= k < |s[1..]| && s[1..][k] == t[i];
          assert s[0].end <= s[k + 1].start;
        }
      }
      forall i | 0 <= i < |u| ensures u[i].start <= u[i].end {
        if i < |t| { assert t[i] in s[1..]; }
      }
    }
  }

  /** The descending list of free ranges the search goes through. */
  function FreeDown(ms: seq<Region>, rs: seq<Region>, want: Region -> bool): seq<Range> {
    WalkRev(ms, rs, want, |ms|, |rs| + 1)
  }

  /** Every address of the request inside wanted memory, none taken. */
  ghost predicate FreeSpan(ms: seq<Region>, rs: seq<Region>, want: Region -> bool, c: nat, size: nat) {
    forall x | c <= x < c + size :: Wanted(ms, want, 0, x) && !Taken(rs, x)
  }

  lemma {:induction false} FreeDownIsWalk(ms: seq<Region>, rs: seq<Region>, want: Region -> bool)
    requires Ascending(ms) && Ascending(rs)
    ensures Descending(FreeDown(ms, rs, want))
    ensures forall r :: r in FreeDown(ms, rs, want) <==> r in Walk(ms, rs, want, 0, 0)
  {
    WalkRevIsWalkReversed(ms, rs, want);
    WalkInOrder(ms, rs, want);
    ReversedDescends(Walk(ms, rs, want, 0, 0));
  }

  lemma {:induction false} RangeIsFree(ms: seq<Region>, rs: seq<Region>, want: Region -> bool, r: Range, c: nat, size: nat)
    requires Ascending(ms) && Ascending(rs) && r in Walk(ms, rs, want, 0, 0) && r.start <= c && c + size <= r.end
    ensures FreeSpan(ms, rs, want, c, size)
  {
    var up := Walk(ms, rs, want, 0, 0);
    var j :| 0 <= j < |up| && up[j] == r;
    forall x | c <= x < c + size ensures Wanted(ms, want, 0, x) && !Taken(rs, x) {
      assert up[j].start <= x < up[j].end;
      WalkYieldsFree(ms, rs, want, x);
    }
  }

  lemma {:induction false} FoundIsFree(ms: seq<Region>, rs: seq<Region>, want: Region -> bool, start: nat, end: nat, size: nat, align: nat)
    requires Ascending(ms) && Ascending(rs) && align > 0 && 0 < start <= end && size > 0
    ensures var k := TopDown(FreeDown(ms, rs, want), start, end, size, align);
            k != 0 ==> Multiple(k, align) && start <= k && k + size <= end && FreeSpan(ms, rs, want, k, size)
  {
    hide TopDown, FreeDown, Descending, Ascending, FreeSpan;
    var down := FreeDown(ms, rs, want);
    FreeDownIsWalk(ms, rs, want);
    TopDownIsHighest(down, start, end, size, align);
    var k := TopDown(down, start, end, size, align);
    if k != 0 {
      var i :| 0 <= i < |down| && Fits(k, down[i], start, end, size, align);
      RangeIsFree(ms, rs, want, down[i], k, size);
    }
  }

  // ---------- nothing is missed

  /** No region is empty, except the dummy at address 0. */
  ghost predicate Solid(rs: seq<Region>) {
    forall j | 0 <= j < |rs| :: rs[j].size > 0 || rs[j].base == 0
  }

  /** The request can be met at c: aligned, within the limits, inside one wanted region, nothing taken. */
  ghost predicate Usable(ms: seq<Region>, rs: seq<Region>, want: Region -> bool, start: nat, end: nat, size: nat, align: nat, c: nat)
    requires align > 0
  {
    && Multiple(c, align) && start <= c && c + size <= end
    && (exists i :: 0 <= i < |ms| && want(ms[i]) && ms[i].base <= c && c + size <= End(ms[i]))
    && (forall x | c <= x < c + size :: !Taken(rs, x))
  }

  /** An untaken span lies in one gap. */
  lemma SpanInGap(rs: seq<Region>, c: nat, size: nat) returns (b: nat)
    requires Ascending(rs) && Solid(rs) && size > 0 && c + size <= PHYS_ADDR_MAX
    requires forall x | c <= x < c + size :: !Taken(rs, x)
    ensures b <= |rs| && GapStart(rs, b) <= c && c + size <= GapEnd(rs, b)
  {
    b := 0;
    while b < |rs| && End(rs[b]) <= c
      invariant b <= |rs| && (b > 0 ==> End(rs[b - 1]) <= c)
    {
      b := b + 1;
    }
    if b < |rs| {
      var first := Max(rs[b].base, c);
      assert Holds(rs[b], first) ==> Taken(rs, first);
    }
  }

  /** A usable address fits one of the ranges the search goes through. */
  lemma UsableIsYielded(ms: seq<Region>, rs: seq<Region>, want: Region -> bool, start: nat, end: nat, size: nat, align: nat, c: nat)
    requires Ascending(ms) && Ascending(rs) && Solid(rs) && align > 0 && size > 0
    requires Usable(ms, rs, want, start, end, size, align, c)
    ensures FitsSome(c, FreeDown(ms, rs, want), start, end, size, align)
  {
    hide Multiple, RowFrom, RowsFrom, Walk, FreeDown, Taken;
    var i :| 0 <= i < |ms| && want(ms[i]) && ms[i].base <= c && c + size <= End(ms[i]);
    var b := SpanInGap(rs, c, size);
    var r := Overlap(ms[i], rs, b);
    PairYields(ms, rs, want, i, b);
    FreeDownIsWalk(ms, rs, want);
    var down := FreeDown(ms, rs, want);
    var j :| 0 <= j < |down| && down[j] == r;
    assert Fits(c, down[j], start, end, size, align);
  }

  /** And conversely. */
  lemma YieldedIsUsable(ms: seq<Region>, rs: seq<Region>, want: Region -> bool, start: nat, end: nat, size: nat, align: nat, c: nat)
    requires Ascending(ms) && Ascending(rs) && align > 0 && size > 0
    requires FitsSome(c, FreeDown(ms, rs, want), start, end, size, align)
    ensures Usable(ms, rs, want, start, end, size, align, c)
  {
    hide Multiple, Walk, FreeDown, Ascending;
    var down := FreeDown(ms, rs, want);
    var j :| 0 <= j < |down| && Fits(c, down[j], start, end, size, align);
    FreeDownIsWalk(ms, rs, want);
    RangeIsFree(ms, rs, want, down[j], c, size);
    RangeInRegion(ms, rs, want, down[j]);
  }

  lemma {:induction false} RangeInRegion(ms: seq<Region>, rs: seq<Region>, want: Region -> bool, r: Range)
    requires Ascending(ms) && Ascending(rs) && r in Walk(ms, rs, want, 0, 0)
    ensures exists i :: 0 <= i < |ms| && want(ms[i]) && ms[i].base <= r.start && r.end <= End(ms[i])
  {
    var i, b := YieldedByPair(ms, rs, want, r);
  }

  /** k is the highest place for the request. */
  ghost predicate Highest(ms: seq<Region>, rs: seq<Region>, want: Region -> bool, start: nat, end: nat, size: nat, align: nat, k: nat)
    requires align > 0
  {
    && Usable(ms, rs, want, start, end, size, align, k)
    && forall c: nat | Usable(ms, rs, want, start, end, size, align, c) :: c <= k
  }

  /** The top-down search over memory minus reserved: the highest usable address, 0 exactly when there is none. */
  lemma {:induction false} FoundIsHighest(ms: seq<Region>, rs: seq<Region>, want: Region -> bool, start: nat, end: nat, size: nat, align: nat)
    requires Ascending(ms) && Ascending(rs) && Solid(rs) && align > 0 && 0 < start <= end && size > 0
    ensures var k := TopDown(FreeDown(ms, rs, want), start, end, size, align);
            && (k == 0 <==> forall c: nat :: !Usable(ms, rs, want, start, end, size, align, c))
            && (k != 0 ==> Highest(ms, rs, want, start, end, size, align, k))
  {
    hide TopDown, FreeDown, Descending, Ascending, FitsSome, Usable, Solid;
    var down := FreeDown(ms, rs, want);
    FreeDownIsWalk(ms, rs, want);
    TopDownIsHighest(down, start, end, size, align);
    forall c: nat ensures Usable(ms, rs, want, start, end, size, align, c) <==> FitsSome(c, down, start, end, size, align) {
      if Usable(ms, rs, want, start, end, size, align, c) { UsableIsYielded(ms, rs, want, start, end, size, align, c); }
      if FitsSome(c, down, start, end, size, align) { YieldedIsUsable(ms, rs, want, start, end, size, align, c); }
    }
  }

  /** The search as it runs, over the reverse iterator. */
  method FindTopDown(ms: seq<Region>, rs: seq<Region>, want: Region -> bool, start: nat, end: nat, size: nat, align: nat)
    returns (found: nat)
    requires align > 0
    ensures found == TopDown(FreeDown(ms, rs, want), start, end, size, align)
  {
    var a: nat, b: nat := |ms|, |rs| + 1;
    while true
      invariant a <= |ms| && b <= |rs| + 1
      invariant TopDown(FreeDown(ms, rs, want), start, end, size, align) == TopDown(WalkRev(ms, rs, want, a, b), start, end, size, align)
      decreases a + b
    {
      var r;
      ghost var rest := WalkRev(ms, rs, want, a, b);
      r, a, b := NextMemRangeRev(ms, rs, want, a, b);
      if r.None? { return 0; }
      assert rest[1..] == WalkRev(ms, rs, want, a, b);
      var lo, hi := Clamp(r.value.start, start, end), Clamp(r.value.end, start, end);
      if hi >= size {
        var cand := RoundDown(hi - size, align);
        if cand >= lo { return cand; }
      }
    }
  }

  // ---------- allocating

  datatype Request = Request(size: nat, align: nat, start: nat, end: nat, want: Region -> bool)

  /** The table an iterator sees: an empty one shows its dummy region. */
  function Raw(live: seq<Region>): seq<Region> {
    if live == [] then [DUMMY] else live
  }

  /** memblock_find_in_range_node(): the first page is never used. */
  function Search(ms: seq<Region>, res: seq<Region>, q: Request): nat
    requires q.align > 0
  {
    var start := Max(q.start, PAGE_SIZE);
    TopDown(FreeDown(ms, Raw(res), q.want), start, Max(start, q.end), q.size, q.align)
  }

  /** memblock_alloc_range_nid() with room for max reserved regions: the reserved table
      afterwards and the address, 0 for failure. */
  function Alloc(ms: seq<Region>, res: seq<Region>, max: nat, q: Request): (seq<Region>, nat)
    requires q.align > 0
  {
    var found := Search(ms, res, q);
    if found == 0 then (res, 0)
    else
      var f := Filled(res, found, Min(found + q.size, PHYS_ADDR_MAX), MAX_NUMNODES, {});
      if |f| > max then (res, 0) else (MergeAll(f), found)
  }

  lemma {:induction false} RawAscends(res: seq<Region>)
    requires Sorted(res)
    ensures Ascending(Raw(res)) && Solid(Raw(res))
    ensures forall x: nat :: Taken(Raw(res), x) <==> Lookup(res, x).Some?
  {
    RawShape(res);
    hide Raw, Lookup, Sorted;
    forall x: nat ensures Taken(Raw(res), x) <==> Lookup(res, x).Some? {
      TakenIsLookup(res, x);
      RawTaken(res, x);
    }
  }

  lemma RawShape(res: seq<Region>)
    requires Sorted(res)
    ensures Ascending(Raw(res)) && Solid(Raw(res))
  {
  }

  /** The dummy holds no address. */
  lemma RawTaken(res: seq<Region>, x: nat)
    ensures Taken(Raw(res), x) <==> Taken(res, x)
  {
    if res == [] {
      var raw := Raw(res);
      forall i | 0 <= i < |raw| ensures !Holds(raw[i], x) { }
    } else {
      assert Raw(res) == res;
      hide Raw;
    }
  }

  lemma {:induction false} TakenIsLookup(rs: seq<Region>, x: nat)
    ensures Taken(rs, x) <==> Lookup(rs, x).Some?
  {
    if rs != [] {
      TakenIsLookup(rs[1..], x);
      if Taken(rs, x) && !Holds(rs[0], x) {
        var i :| 0 <= i < |rs| && Holds(rs[i], x);
        assert Holds(rs[1..][i - 1], x);
      }
      if Taken(rs[1..], x) {
        var i :| 0 <= i < |rs[1..]| && Holds(rs[1..][i], x);
        assert Holds(rs[i + 1], x);
      }
    }
  }

  /** k is the highest address at which the request can be met. */
  ghost predicate Best(ms: seq<Region>, res: seq<Region>, q: Request, k: nat)
    requires q.align > 0
  {
    var start := Max(q.start, PAGE_SIZE);
    Highest(ms, Raw(res), q.want, start, Max(start, q.end), q.size, q.align, k)
  }

  /** The request can be met at c. */
  ghost predicate CanServe(ms: seq<Region>, res: seq<Region>, q: Request, c: nat)
    requires q.align > 0
  {
    var start := Max(q.start, PAGE_SIZE);
    Usable(ms, Raw(res), q.want, start, Max(start, q.end), q.size, q.align, c)
  }

  /** The reserved table has no room for one more block at k. */
  predicate TableFull(res: seq<Region>, max: nat, k: nat, size: nat) {
    |Filled(res, k, k + size, MAX_NUMNODES, {})| > max
  }

  lemma {:induction false} BestIsFree(ms: seq<Region>, res: seq<Region>, q: Request, k: nat)
    requires Ascending(ms) && Sorted(res) && q.align > 0 && q.size > 0 && Best(ms, res, q, k)
    ensures Multiple(k, q.align) && k >= q.start && k >= PAGE_SIZE && k + q.size <= q.end && k + q.size <= PHYS_ADDR_MAX
    ensures forall x | k <= x < k + q.size :: Wanted(ms, q.want, 0, x) && Lookup(res, x).None?
  {
    hide Multiple, Lookup, Taken;
    RawAscends(res);
  }

  /** The highest usable address is taken if the table has room for it, and allocation fails exactly when there is
      no usable address or no room. What was taken was free wanted memory and is reserved afterwards; nothing else
      changes in the reserved map. */
  lemma {:induction false} AllocTakesFree(ms: seq<Region>, res: seq<Region>, max: nat, q: Request)
    requires Ascending(ms) && Table(res) && q.align > 0 && q.size > 0
    ensures var (res', k) := Alloc(ms, res, max, q);
            && Table(res')
            && (k == 0 <==> (forall c: nat :: !CanServe(ms, res, q, c)) || exists c: nat :: Best(ms, res, q, c) && TableFull(res, max, c, q.size))
            && (k == 0 ==> res' == res)
            && (k != 0 ==>
                  && Best(ms, res, q, k) && Multiple(k, q.align) && k >= q.start && k >= PAGE_SIZE && k + q.size <= q.end
                  && (forall x | k <= x < k + q.size :: Wanted(ms, q.want, 0, x) && Lookup(res, x).None? && Lookup(res', x).Some?)
                  && (forall x: nat | x < k || k + q.size <= x :: Lookup(res', x) == Lookup(res, x)))
  {
    hide Best, CanServe, Search, Filled, MergeAll, Ascending, Lookup, Multiple, Wanted;
    SearchIsBest(ms, res, q);
    var found := Search(ms, res, q);
    if found != 0 {
      BestIsFree(ms, res, q, found);
      AddKeeps(res, found, found + q.size, MAX_NUMNODES, {});
    }
  }

  /** What the search finds: the one best address, 0 exactly when no address will do. */
  lemma SearchIsBest(ms: seq<Region>, res: seq<Region>, q: Request)
    requires Ascending(ms) && Sorted(res) && q.align > 0 && q.size > 0
    ensures var k := Search(ms, res, q);
            && (k == 0 <==> forall c: nat :: !CanServe(ms, res, q, c))
            && (k != 0 ==> Best(ms, res, q, k))
            && forall c: nat | Best(ms, res, q, c) :: c == k
  {
    hide TopDown, FreeDown, Ascending, Usable, Solid;
    var start := Max(q.start, PAGE_SIZE);
    RawAscends(res);
    FoundIsHighest(ms, Raw(res), q.want, start, Max(start, q.end), q.size, q.align);
    var k := Search(ms, res, q);
    forall c: nat | Best(ms, res, q, c) ensures c == k {
      assert CanServe(ms, res, q, c);
      assert Best(ms, res, q, k);
    }
    forall c: nat ensures k == 0 ==> !CanServe(ms, res, q, c) {
    }
    if k != 0 { assert CanServe(ms, res, q, k); }
  }

  /** The blocks handed out by a run of allocations, and the reserved table after it. */
  function Run(ms: seq<Region>, res: seq<Region>, max: nat, qs: seq<Request>): (seq<Region>, seq<(nat, nat)>)
    requires forall q | q in qs :: q.align > 0
  {
    if qs == [] then (res, [])
    else
      var (res1, blocks) := Run(ms, res, max, qs[..|qs| - 1]);
      var q := qs[|qs| - 1];
      var (res2, k) := Alloc(ms, res1, max, q);
      (res2, if k == 0 then blocks else blocks + [(k, q.size)])
  }

  ghost predicate Disjoint(a: (nat, nat), b: (nat, nat)) {
    a.0 + a.1 <= b.0 || b.0 + b.1 <= a.0
  }

  lemma ApartByLookup(res: seq<Region>, b: (nat, nat), k: nat, n: nat)
    requires b.1 > 0 && n > 0
    requires forall x | b.0 <= x < b.0 + b.1 :: Lookup(res, x).Some?
    requires forall x | k <= x < k + n :: Lookup(res, x).None?
    ensures Disjoint(b, (k, n))
  {
    var x := Max(b.0, k);
    if b.0 <= x < b.0 + b.1 { assert Lookup(res, x).Some?; }
  }

  /** All non-empty blocks of a run without frees are pairwise disjoint and reserved. */
  lemma {:induction false} BlocksAreDisjoint(ms: seq<Region>, res: seq<Region>, max: nat, qs: seq<Request>)
    requires Ascending(ms) && Table(res) && forall q | q in qs :: q.align > 0 && q.size > 0
    ensures var (res', blocks) := Run(ms, res, max, qs);
            && Table(res')
            && (forall i, x | 0 <= i < |blocks| && blocks[i].0 <= x < blocks[i].0 + blocks[i].1 :: Lookup(res', x).Some?)
            && (forall i, j | 0 <= i < j < |blocks| :: Disjoint(blocks[i], blocks[j]))
            && (forall i | 0 <= i < |blocks| :: blocks[i].1 > 0)
  {
    hide Alloc, Table, Lookup;
    if qs != [] {
      var front, q := qs[..|qs| - 1], qs[|qs| - 1];
      BlocksAreDisjoint(ms, res, max, front);
      var (res1, blocks) := Run(ms, res, max, front);
      AllocTakesFree(ms, res1, max, q);
      var (res2, k) := Alloc(ms, res1, max, q);
      if k != 0 {
        forall i | 0 <= i < |blocks| ensures Disjoint(blocks[i], (k, q.size)) {
          ApartByLookup(res1, blocks[i], k, q.size);
        }
        forall i, x | 0 <= i < |blocks| && blocks[i].0 <= x < blocks[i].0 + blocks[i].1 ensures Lookup(res2, x).Some? {
          assert Lookup(res1, x).Some?;
        }
      }
    }
  }
}
