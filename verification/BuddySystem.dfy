/** Per-cpu page lists on top of one zone: whole allocations and frees by any number
    of CPUs, and what every run of them keeps. */
module BuddySystem {
  import opened Numbers
  import opened Options
  import opened Alignment
  import opened BuddyMath
  import opened BuddyBlocks
  import opened BuddyZone

  /** struct per_cpu_pages */
  datatype Pcp = Pcp(list: seq<nat>, count: nat, high: nat, batch: nat)

  /** used: the blocks callers hold. lost: pages dropped because their struct page looked
      corrupted. */
  datatype Sys = Sys(zone: Zone, pcps: map<nat, Pcp>, used: Blocks, lost: set<nat>)

  function BlockPages(p: nat, o: nat): set<nat> {
    set x: nat | p <= x < p + Pow2(o) && In(p, o, x)
  }

  lemma SinglePage(p: nat)
    ensures BlockPages(p, 0) == {p}
  {
    assert Pow2(0) == 1;
    assert In(p, 0, p);
  }

  ghost function Pages(b: Blocks): set<nat> {
    set p, x | p in b && x in BlockPages(p, b[p]) :: x
  }

  function Elems(s: seq<nat>): set<nat> {
    set x | x in s
  }

  lemma PagesAreFree(b: Blocks)
    ensures forall x: nat :: x in Pages(b) <==> Free(b, x)
  {
    forall x: nat ensures x in Pages(b) <==> Free(b, x) {
      if Free(b, x) {
        var p :| p in b && In(p, b[p], x);
        assert x in BlockPages(p, b[p]);
      }
      if x in Pages(b) {
        var p :| p in b && x in BlockPages(p, b[p]);
        assert In(p, b[p], x);
      }
    }
  }

  // ---------- the zone's view

  /** Pages that are neither in the zone nor in this CPU's list are someone else's. */
  ghost predicate Split(z: Zone, list: seq<nat>, rest: set<nat>, managed: set<nat>) {
    && ZoneOk(z) && managed <= z.valid && NoDup(list)
    && Pages(z.order) !! Elems(list) && Pages(z.order) !! rest && Elems(list) !! rest
    && Pages(z.order) + Elems(list) + rest == managed
  }

  lemma SplitValid(z: Zone, managed: set<nat>)
    requires Pages(z.order) <= managed <= z.valid
    ensures forall q | q in z.order :: q in z.valid
  {
    PagesAreFree(z.order);
    forall q | q in z.order ensures q in z.valid {
      assert In(q, z.order[q], q);
      assert Free(z.order, q);
    }
  }

  lemma {:induction false} TakesPages(z: Zone, order: nat)
    requires ZoneOk(z) && Rmqueue(z, order).Some?
    ensures var (z1, p) := Rmqueue(z, order).value;
            && order < MAX_ORDER && Aligned(p, order)
            && ZoneOk(z1) && Pages(z.order) == Pages(z1.order) + BlockPages(p, order)
            && Pages(z1.order) !! BlockPages(p, order) && p in BlockPages(p, order) && z1.valid == z.valid
  {
    RmqueueTakes(z, order);
    var (z1, p) := Rmqueue(z, order).value;
    PagesAreFree(z.order);
    PagesAreFree(z1.order);
    forall x: nat ensures x in BlockPages(p, order) <==> In(p, order, x) { }
  }

  lemma {:induction false} GivesPages(z: Zone, p: nat, o: nat, managed: set<nat>)
    requires ZoneOk(z) && Pages(z.order) <= managed <= z.valid && o < MAX_ORDER && Aligned(p, o)
    requires Pages(z.order) !! BlockPages(p, o)
    ensures var z1 := FreeOne(z, p, o);
            ZoneOk(z1) && Pages(z1.order) == Pages(z.order) + BlockPages(p, o) && z1.valid == z.valid
  {
    PagesAreFree(z.order);
    forall x | In(p, o, x) ensures !Free(z.order, x) { assert x in BlockPages(p, o); }
    SplitValid(z, managed);
    FreeOneGives(z, p, o);
    PagesAreFree(FreeOne(z, p, o).order);
    forall x: nat ensures x in BlockPages(p, o) <==> In(p, o, x) { }
  }

  // ---------- rmqueue_bulk

  /** Zone and list after taking up to n single pages, and the pages dropped on the way. */
  function RmqueueBulk(z: Zone, n: nat, list: seq<nat>, bad: nat -> bool): (r: (Zone, seq<nat>, set<nat>))
    requires Sized(z)
    ensures Sized(r.0)
    decreases n
  {
    if n == 0 then (z, list, {})
    else match Rmqueue(z, 0)
      case None => (z, list, {})
      case Some((z1, p)) =>
        if bad(p) then
          var r := RmqueueBulk(z1, n - 1, list, bad);
          (r.0, r.1, r.2 + {p})
        else RmqueueBulk(z1, n - 1, list + [p], bad)
  }

  lemma TakeOne(z: Zone, list: seq<nat>, rest: set<nat>, managed: set<nat>)
    requires Split(z, list, rest, managed) && Rmqueue(z, 0).Some?
    ensures var (z1, p) := Rmqueue(z, 0).value;
            p !in rest && Split(z1, list + [p], rest, managed) && Split(z1, list, rest + {p}, managed)
  {
    var (z1, p) := Rmqueue(z, 0).value;
    TakesPages(z, 0);
    SinglePage(p);
    assert Elems(list + [p]) == Elems(list) + {p};
    assert p !in list by { assert p in Pages(z.order); assert p !in Elems(list); }
  }

  lemma {:induction false} BulkSplits(z: Zone, n: nat, list: seq<nat>, bad: nat -> bool, rest: set<nat>, managed: set<nat>)
    requires Split(z, list, rest, managed)
    ensures var r := RmqueueBulk(z, n, list, bad);
            r.2 !! rest && Split(r.0, r.1, rest + r.2, managed) && |r.1| <= |list| + n && list <= r.1
    decreases n
  {
    hide Split, Rmqueue;
    SplitFacts(z, list, rest, managed);
    assert rest + {} == rest;
    if n > 0 && Rmqueue(z, 0).Some? {
      var (z1, p) := Rmqueue(z, 0).value;
      TakeOne(z, list, rest, managed);
      if bad(p) {
        BulkSplits(z1, n - 1, list, bad, rest + {p}, managed);
        var r := RmqueueBulk(z1, n - 1, list, bad);
        assert rest + {p} + r.2 == rest + (r.2 + {p});
      } else {
        BulkSplits(z1, n - 1, list + [p], bad, rest, managed);
      }
    }
  }

  // ---------- free_pcppages_bulk

  /** Hand single pages back to the zone, dropping the bad ones. */
  function FreeAll(z: Zone, ps: seq<nat>, bad: nat -> bool): (r: Zone)
    requires Sized(z)
    ensures Sized(r)
    decreases |ps|
  {
    if ps == [] then z
    else if bad(ps[0]) then FreeAll(z, ps[1..], bad)
    else FreeAll(FreeOne(z, ps[0], 0), ps[1..], bad)
  }

  function BadOnes(ps: seq<nat>, bad: nat -> bool): set<nat> {
    set x | x in ps && bad(x)
  }

  lemma {:induction false} FreeAllSplits(z: Zone, ps: seq<nat>, bad: nat -> bool, rest: set<nat>, managed: set<nat>)
    requires Split(z, ps, rest, managed)
    ensures Split(FreeAll(z, ps, bad), [], rest + BadOnes(ps, bad), managed)
    decreases |ps|
  {
    if ps == [] {
      assert rest + BadOnes(ps, bad) == rest;
    } else {
      var p := ps[0];
      assert ps == [p] + ps[1..];
      assert Elems(ps) == {p} + Elems(ps[1..]);
      assert p !in ps[1..];
      if bad(p) {
        FreeAllSplits(z, ps[1..], bad, rest + {p}, managed);
        assert rest + {p} + BadOnes(ps[1..], bad) == rest + BadOnes(ps, bad);
      } else {
        SinglePage(p);
        GivesPages(z, p, 0, managed);
        FreeAllSplits(FreeOne(z, p, 0), ps[1..], bad, rest, managed);
        assert BadOnes(ps[1..], bad) == BadOnes(ps, bad);
      }
    }
  }

  function Reversed(s: seq<nat>): seq<nat> {
    if s == [] then [] else Reversed(s[1..]) + [s[0]]
  }

  lemma {:induction false} ReversedCons(s: seq<nat>, p: nat)
    ensures Reversed([p] + s) == Reversed(s) + [p]
  {
    assert ([p] + s)[1..] == s;
  }

  lemma {:induction false} ReversedSame(s: seq<nat>)
    requires NoDup(s)
    ensures NoDup(Reversed(s)) && Elems(Reversed(s)) == Elems(s)
  {
    if s != [] {
      ReversedSame(s[1..]);
      var r := Reversed(s[1..]);
      assert s == [s[0]] + s[1..];
      assert Elems(s) == {s[0]} + Elems(s[1..]) && Elems(r + [s[0]]) == Elems(r) + {s[0]};
      assert s[0] !in s[1..];
      assert s[0] !in Elems(r);
      assert forall i | 0 <= i < |r| :: r[i] in Elems(r);
    }
  }

  // ---------- whole operations

  ghost predicate PcpOk(q: Pcp) {
    NoDup(q.list) && q.count == |q.list| && 1 <= q.batch && (q.batch <= q.high || q.batch == 1)
  }

  /** rmqueue_pcplist(): refill from the zone if empty, then take the first page. */
  function AllocPage(s: Sys, c: nat, bad: nat -> bool): (Sys, Option<nat>)
    requires Sized(s.zone) && c in s.pcps
  {
    var q := s.pcps[c];
    var (z, list, dropped) :=
      if q.list == [] then RmqueueBulk(s.zone, q.batch, [], bad) else (s.zone, q.list, {});
    if list == [] then (s.(zone := z, lost := s.lost + dropped), None)
    else
      var count := if q.list == [] then q.count + |list| else q.count;
      var q' := q.(list := list[1..], count := Dec(count));
      (Sys(z, s.pcps[c := q'], s.used[list[0] := 0], s.lost + dropped), Some(list[0]))
  }

  ghost predicate AnyBad(p: nat, o: nat, bad: nat -> bool) {
    exists x :: x in BlockPages(p, o) && bad(x)
  }

  /** rmqueue() for larger orders: blocks with a corrupted page are dropped and the
      search goes on. */
  ghost function RmqueueGood(z: Zone, o: nat, bad: nat -> bool): (r: (Zone, Option<nat>, set<nat>))
    requires ZoneOk(z)
    ensures ZoneOk(r.0)
    decreases |Pages(z.order)|
  {
    match Rmqueue(z, o)
    case None => (z, None, {})
    case Some((z1, p)) =>
      TakesPages(z, o);
      if !AnyBad(p, o, bad) then (z1, Some(p), {})
      else
        assert Pages(z1.order) < Pages(z.order);
        SmallerSet(Pages(z1.order), Pages(z.order));
        var r := RmqueueGood(z1, o, bad);
        (r.0, r.1, r.2 + BlockPages(p, o))
  }

  lemma {:induction false} SmallerSet(a: set<nat>, b: set<nat>)
    requires a < b
    ensures |a| < |b|
  {
    var d := b - a;
    assert b == a + d && a !! d;
    assert d != {};
  }

  ghost function AllocBlock(s: Sys, o: nat, bad: nat -> bool): (Sys, Option<nat>)
    requires ZoneOk(s.zone)
  {
    var (z, p, dropped) := RmqueueGood(s.zone, o, bad);
    (s.(zone := z, lost := s.lost + dropped, used := if p.Some? then s.used[p.value := o] else s.used), p)
  }

  /** free_pages_prepare(): the pages after the first are always looked at, the first one only if asked. */
  ghost predicate PrepareFails(p: nat, o: nat, checkFree: bool, bad: nat -> bool) {
    exists x :: x in BlockPages(p, o) && bad(x) && (x != p || checkFree)
  }

  /** A larger block is refused for any bad page, a single page never: it is looked at when it leaves the CPU's
      list. */
  lemma PrepareExact(p: nat, o: nat, bad: nat -> bool)
    ensures PrepareFails(p, o, true, bad) <==> AnyBad(p, o, bad)
    ensures !PrepareFails(p, 0, false, bad)
  {
    SinglePage(p);
  }

  /** free_unref_page(): onto the CPU's list, and a batch of the oldest pages back to the
      zone once the list is long. */
  function FreePage(s: Sys, c: nat, p: nat, bad: nat -> bool): Sys
    requires Sized(s.zone) && c in s.pcps
    requires s.pcps[c].count == |s.pcps[c].list| && (s.pcps[c].batch <= s.pcps[c].high || s.pcps[c].batch == 1)
  {
    var q := s.pcps[c];
    var list, count := [p] + q.list, q.count + 1;
    if count < q.high then
      s.(used := s.used - {p}, pcps := s.pcps[c := q.(list := list, count := count)])
    else
      var keep := |list| - q.batch;
      s.(used := s.used - {p},
         pcps := s.pcps[c := q.(list := list[..keep], count := keep)],
         zone := FreeAll(s.zone, Reversed(list[keep..]), bad),
         lost := s.lost + BadOnes(list[keep..], bad))
  }

  /** __free_pages_ok() */
  ghost function FreeBlock(s: Sys, p: nat, o: nat, bad: nat -> bool): Sys
    requires Sized(s.zone) && o < MAX_ORDER
  {
    if AnyBad(p, o, bad) then s.(used := s.used - {p}, lost := s.lost + BlockPages(p, o))
    else s.(used := s.used - {p}, zone := FreeOne(s.zone, p, o))
  }

  datatype Op =
    | Alloc(cpu: nat, order: nat, bad: nat -> bool)
    | Release(cpu: nat, page: nat, bad: nat -> bool)

  // ---------- what every operation keeps

  ghost function PcpPages(pcps: map<nat, Pcp>): set<nat> {
    set c, x | c in pcps && x in Elems(pcps[c].list) :: x
  }

  ghost predicate PcpsApart(pcps: map<nat, Pcp>) {
    && (forall c | c in pcps :: PcpOk(pcps[c]))
    && (forall c, d | c in pcps && d in pcps && c != d :: Elems(pcps[c].list) !! Elems(pcps[d].list))
  }

  /** Every managed page is in exactly one place: a free block of the zone, one CPU's
      list, one block in use, or dropped. */
  ghost predicate Inv(s: Sys, managed: set<nat>) {
    && ZoneOk(s.zone) && managed <= s.zone.valid
    && Shaped(s.used) && Apart(s.used) && PcpsApart(s.pcps)
    && Pages(s.zone.order) !! PcpPages(s.pcps) !! Pages(s.used) !! s.lost
    && Pages(s.zone.order) + PcpPages(s.pcps) + Pages(s.used) + s.lost == managed
  }

  ghost function Rest(s: Sys, c: nat): set<nat> {
    PcpPages(s.pcps - {c}) + Pages(s.used) + s.lost
  }

  ghost predicate RestOk(s: Sys, c: nat) {
    && Shaped(s.used) && Apart(s.used) && PcpsApart(s.pcps - {c})
    && PcpPages(s.pcps - {c}) !! Pages(s.used) !! s.lost
  }

  lemma PcpPagesSplit(pcps: map<nat, Pcp>, c: nat)
    requires c in pcps
    ensures PcpPages(pcps) == PcpPages(pcps - {c}) + Elems(pcps[c].list)
  {
    var others := pcps - {c};
    forall x: nat ensures x in PcpPages(pcps) <==> x in PcpPages(others) || x in Elems(pcps[c].list) {
      if x in PcpPages(pcps) {
        var d :| d in pcps && x in Elems(pcps[d].list);
        if d != c { assert d in others && others[d] == pcps[d]; }
      }
      if x in PcpPages(others) {
        var d :| d in others && x in Elems(others[d].list);
        assert d in pcps && pcps[d] == others[d];
      }
    }
  }

  lemma Focus(s: Sys, c: nat, managed: set<nat>)
    requires Inv(s, managed) && c in s.pcps
    ensures Split(s.zone, s.pcps[c].list, Rest(s, c), managed) && RestOk(s, c) && PcpOk(s.pcps[c])
  {
    PcpPagesSplit(s.pcps, c);
    var others := s.pcps - {c};
    assert PcpPages(others) !! Elems(s.pcps[c].list) by {
      forall x | x in PcpPages(others) ensures x !in Elems(s.pcps[c].list) {
        var d :| d in others && x in Elems(others[d].list);
        assert Elems(s.pcps[d].list) !! Elems(s.pcps[c].list);
      }
    }
  }

  lemma Unfocus(s: Sys, c: nat, managed: set<nat>)
    requires c in s.pcps && Split(s.zone, s.pcps[c].list, Rest(s, c), managed) && RestOk(s, c) && PcpOk(s.pcps[c])
    ensures Inv(s, managed)
  {
    PcpPagesSplit(s.pcps, c);
    var others := s.pcps - {c};
    forall d | d in s.pcps ensures PcpOk(s.pcps[d]) {
      if d != c { assert others[d] == s.pcps[d]; }
    }
    forall d, e | d in s.pcps && e in s.pcps && d != e ensures Elems(s.pcps[d].list) !! Elems(s.pcps[e].list) {
      if d != c { OthersHold(others, d); assert others[d] == s.pcps[d]; }
      if e != c { OthersHold(others, e); assert others[e] == s.pcps[e]; }
    }
  }

  lemma OthersHold(pcps: map<nat, Pcp>, d: nat)
    requires d in pcps
    ensures Elems(pcps[d].list) <= PcpPages(pcps)
  {
  }

  lemma {:induction false} UseBlock(used: Blocks, p: nat, o: nat)
    requires Shaped(used) && Apart(used) && o < MAX_ORDER && Aligned(p, o) && Pages(used) !! BlockPages(p, o)
    ensures p !in used && Shaped(used[p := o]) && Apart(used[p := o])
    ensures Pages(used[p := o]) == Pages(used) + BlockPages(p, o)
  {
    PagesAreFree(used);
    forall x | In(p, o, x) ensures !Free(used, x) { assert x in BlockPages(p, o); }
    ApartWith(used, p, o);
    PagesAreFree(used[p := o]);
  }

  lemma ReturnBlock(used: Blocks, p: nat)
    requires Shaped(used) && Apart(used) && p in used
    ensures Shaped(used - {p}) && Apart(used - {p})
    ensures BlockPages(p, used[p]) <= Pages(used) && Pages(used - {p}) == Pages(used) - BlockPages(p, used[p])
  {
    PagesAreFree(used);
    PagesAreFree(used - {p});
    forall x: nat ensures Free(used - {p}, x) <==> Free(used, x) && !In(p, used[p], x) { FreeWithout(used, p, x); }
  }

  lemma AllocPageKeeps(s: Sys, c: nat, bad: nat -> bool, managed: set<nat>)
    requires Inv(s, managed) && c in s.pcps
    ensures Inv(AllocPage(s, c, bad).0, managed)
    ensures var (t, p) := AllocPage(s, c, bad); p.Some? ==> p.value !in s.used && t.used == s.used[p.value := 0]
  {
    hide Inv, Split, RestOk, RmqueueBulk;
    var q := s.pcps[c];
    Focus(s, c, managed);
    SplitFacts(s.zone, q.list, Rest(s, c), managed);
    var (z, list, dropped) :=
      if q.list == [] then RmqueueBulk(s.zone, q.batch, [], bad) else (s.zone, q.list, {});
    if q.list == [] {
      BulkSplits(s.zone, q.batch, [], bad, Rest(s, c), managed);
    }
    assert Rest(s, c) + {} == Rest(s, c);
    var t := AllocPage(s, c, bad).0;
    if list == [] {
      assert q.list == [];
      NoneTaken(s, t, c, dropped);
      Unfocus(t, c, managed);
    } else {
      TakeFirst(z, list, Rest(s, c) + dropped, managed);
      PageTaken(s, t, c, list[0], dropped);
      SplitFacts(z, list, Rest(s, c) + dropped, managed);
      Unfocus(t, c, managed);
    }
  }

  lemma NoneTaken(s: Sys, t: Sys, c: nat, dropped: set<nat>)
    requires RestOk(s, c) && dropped !! Rest(s, c)
    requires t.pcps == s.pcps && t.used == s.used && t.lost == s.lost + dropped
    ensures RestOk(t, c) && Rest(t, c) == Rest(s, c) + dropped
  {
  }

  lemma PageTaken(s: Sys, t: Sys, c: nat, p: nat, dropped: set<nat>)
    requires RestOk(s, c) && p !in Rest(s, c) + dropped && dropped !! Rest(s, c)
    requires t.pcps - {c} == s.pcps - {c} && t.used == s.used[p := 0] && t.lost == s.lost + dropped
    ensures p !in s.used && RestOk(t, c) && Rest(t, c) == Rest(s, c) + dropped + {p}
  {
    SinglePage(p);
    UseBlock(s.used, p, 0);
  }

  lemma TakeFirst(z: Zone, list: seq<nat>, rest: set<nat>, managed: set<nat>)
    requires Split(z, list, rest, managed) && list != []
    ensures list[0] !in rest && Split(z, list[1..], rest + {list[0]}, managed)
  {
    assert list == [list[0]] + list[1..];
    assert Elems(list) == {list[0]} + Elems(list[1..]);
    assert list[0] !in list[1..];
  }

  /** From z, some pages were dropped and block p, if any, was taken; z' is left. */
  ghost predicate TakenFrom(z: Zone, z': Zone, dropped: set<nat>, p: Option<nat>, o: nat) {
    var block := if p.Some? then BlockPages(p.value, o) else {};
    && z'.valid == z.valid && (p.Some? ==> o < MAX_ORDER && Aligned(p.value, o))
    && Pages(z.order) == Pages(z'.order) + dropped + block
    && Pages(z'.order) !! dropped !! block
  }

  lemma DropThenTake(z: Zone, z1: Zone, z': Zone, lost: set<nat>, dropped: set<nat>, p: Option<nat>, o: nat)
    requires Pages(z.order) == Pages(z1.order) + lost && Pages(z1.order) !! lost && z1.valid == z.valid
    requires TakenFrom(z1, z', dropped, p, o)
    ensures TakenFrom(z, z', dropped + lost, p, o)
  {
  }

  lemma {:induction false} GoodTakes(z: Zone, o: nat, bad: nat -> bool)
    requires ZoneOk(z)
    ensures var (z', p, dropped) := RmqueueGood(z, o, bad);
            TakenFrom(z, z', dropped, p, o) && (p.Some? ==> !AnyBad(p.value, o, bad))
    decreases |Pages(z.order)|
  {
    if Rmqueue(z, o).Some? {
      var (z1, p) := Rmqueue(z, o).value;
      TakesPages(z, o);
      if AnyBad(p, o, bad) {
        SmallerSet(Pages(z1.order), Pages(z.order));
        GoodTakes(z1, o, bad);
        var r := RmqueueGood(z1, o, bad);
        DropThenTake(z, z1, r.0, BlockPages(p, o), r.2, r.1, o);
      }
    }
  }

  lemma AllocBlockKeeps(s: Sys, o: nat, bad: nat -> bool, managed: set<nat>)
    requires Inv(s, managed)
    ensures Inv(AllocBlock(s, o, bad).0, managed)
    ensures var (t, p) := AllocBlock(s, o, bad); p.Some? ==> p.value !in s.used && t.used == s.used[p.value := o]
  {
    GoodTakes(s.zone, o, bad);
    var (z, p, dropped) := RmqueueGood(s.zone, o, bad);
    if p.Some? {
      UseBlock(s.used, p.value, o);
    }
  }

  lemma FreeBlockKeeps(s: Sys, p: nat, bad: nat -> bool, managed: set<nat>)
    requires Inv(s, managed) && p in s.used
    ensures Inv(FreeBlock(s, p, s.used[p], bad), managed)
  {
    ReturnBlock(s.used, p);
    if !AnyBad(p, s.used[p], bad) {
      GivesPages(s.zone, p, s.used[p], managed);
    }
  }

  lemma PushList(z: Zone, list: seq<nat>, rest: set<nat>, p: nat, managed: set<nat>)
    requires Split(z, list, rest, managed) && p in rest
    ensures Split(z, [p] + list, rest - {p}, managed)
  {
    assert Elems([p] + list) == {p} + Elems(list);
    assert p !in list by { assert p !in Elems(list); }
  }

  /** Cut the list in two: the tail goes back to the zone. */
  lemma {:induction false} CutList(z: Zone, list: seq<nat>, keep: nat, bad: nat -> bool, rest: set<nat>, managed: set<nat>)
    requires Split(z, list, rest, managed) && keep <= |list|
    ensures var tail := list[keep..];
            && BadOnes(tail, bad) !! rest
            && Split(FreeAll(z, Reversed(tail), bad), list[..keep], rest + BadOnes(tail, bad), managed)
  {
    var front, tail := list[..keep], list[keep..];
    assert list == front + tail;
    assert Elems(list) == Elems(front) + Elems(tail);
    forall x | x in front ensures x !in tail {
      var i :| 0 <= i < keep && list[i] == x;
      assert forall j | keep <= j < |list| :: list[j] != x;
    }
    ReversedSame(tail);
    var rev := Reversed(tail);
    assert Split(z, rev, rest + Elems(front), managed);
    FreeAllSplits(z, rev, bad, rest + Elems(front), managed);
    assert BadOnes(rev, bad) == BadOnes(tail, bad) by {
      assert forall x :: x in rev <==> x in Elems(rev);
      assert forall x :: x in tail <==> x in Elems(tail);
    }
  }

  lemma FreePageKeeps(s: Sys, c: nat, p: nat, bad: nat -> bool, managed: set<nat>)
    requires Inv(s, managed) && c in s.pcps && p in s.used && s.used[p] == 0 && PcpOk(s.pcps[c])
    ensures Inv(FreePage(s, c, p, bad), managed)
  {
    hide Inv, Split, Rest, RestOk, FreeAll, BadOnes, Reversed;
    var q := s.pcps[c];
    Focus(s, c, managed);
    SplitFacts(s.zone, q.list, Rest(s, c), managed);
    PageReturned(s, c, p);
    PushList(s.zone, q.list, Rest(s, c), p, managed);
    var list := [p] + q.list;
    var t := FreePage(s, c, p, bad);
    assert t.pcps - {c} == s.pcps - {c};
    if q.count + 1 < q.high {
      PageGiven(s, t, c, p, {});
      assert Rest(s, c) - {p} + {} == Rest(s, c) - {p};
      SplitFacts(s.zone, list, Rest(s, c) - {p}, managed);
    } else {
      var keep := |list| - q.batch;
      CutList(s.zone, list, keep, bad, Rest(s, c) - {p}, managed);
      PageGiven(s, t, c, p, BadOnes(list[keep..], bad));
      SplitFacts(t.zone, list[..keep], Rest(t, c), managed);
    }
    Unfocus(t, c, managed);
  }

  lemma SplitFacts(z: Zone, list: seq<nat>, rest: set<nat>, managed: set<nat>)
    requires Split(z, list, rest, managed)
    ensures Sized(z) && NoDup(list)
  {
  }

  lemma PageReturned(s: Sys, c: nat, p: nat)
    requires RestOk(s, c) && p in s.used && s.used[p] == 0
    ensures p in Rest(s, c)
  {
    SinglePage(p);
    ReturnBlock(s.used, p);
  }

  lemma PageGiven(s: Sys, t: Sys, c: nat, p: nat, dropped: set<nat>)
    requires RestOk(s, c) && p in s.used && s.used[p] == 0 && dropped !! Rest(s, c) - {p}
    requires t.pcps - {c} == s.pcps - {c} && t.used == s.used - {p} && t.lost == s.lost + dropped
    ensures RestOk(t, c) && Rest(t, c) == Rest(s, c) - {p} + dropped
  {
    SinglePage(p);
    ReturnBlock(s.used, p);
  }

  // ---------- runs

  ghost predicate Enabled(s: Sys, op: Op) {
    match op
    case Alloc(c, _, _) => c in s.pcps
    case Release(c, p, _) => c in s.pcps && p in s.used
  }

  /** alloc_pages() and __free_pages(): single pages through the CPU's list, larger
      blocks straight to the zone, absurd orders refused. */
  ghost function Step(s: Sys, op: Op, managed: set<nat>): Sys
    requires Inv(s, managed) && Enabled(s, op)
  {
    match op
    case Alloc(c, o, bad) =>
      if o >= MAX_ORDER then s else if o == 0 then AllocPage(s, c, bad).0 else AllocBlock(s, o, bad).0
    case Release(c, p, bad) =>
      if s.used[p] == 0 then FreePage(s, c, p, bad) else FreeBlock(s, p, s.used[p], bad)
  }

  lemma StepKeeps(s: Sys, op: Op, managed: set<nat>)
    requires Inv(s, managed) && Enabled(s, op)
    ensures Inv(Step(s, op, managed), managed)
    ensures Step(s, op, managed).pcps.Keys == s.pcps.Keys
  {
    match op
    case Alloc(c, o, bad) =>
      if o == 0 { AllocPageKeeps(s, c, bad, managed); }
      else if o < MAX_ORDER { AllocBlockKeeps(s, o, bad, managed); }
    case Release(c, p, bad) =>
      if s.used[p] == 0 { FreePageKeeps(s, c, p, bad, managed); }
      else { FreeBlockKeeps(s, p, bad, managed); }
  }

  /** t is reached from s by the given operations. */
  ghost predicate Runs(s: Sys, ops: seq<Op>, t: Sys, managed: set<nat>)
    requires Inv(s, managed)
    decreases |ops|
  {
    if ops == [] then t == s
    else
      Enabled(s, ops[0]) &&
      (StepKeeps(s, ops[0], managed); Runs(Step(s, ops[0], managed), ops[1..], t, managed))
  }

  /** Over every run of allocations and frees: free blocks stay aligned, disjoint and
      fully coalesced, counters equal list lengths, and no page is ever lost, shared or
      created. */
  lemma {:induction false} RunKeeps(s: Sys, ops: seq<Op>, t: Sys, managed: set<nat>)
    requires Inv(s, managed) && Runs(s, ops, t, managed)
    ensures Inv(t, managed)
    decreases |ops|
  {
    if ops != [] {
      StepKeeps(s, ops[0], managed);
      RunKeeps(Step(s, ops[0], managed), ops[1..], t, managed);
    }
  }

  /** How a zone comes to be: empty, with all its memory in the hands of the boot code. */
  ghost predicate Boot(s: Sys, managed: set<nat>) {
    && Sized(s.zone) && s.zone.order == map[] && managed <= s.zone.valid
    && (forall o | 0 <= o < MAX_ORDER :: s.zone.freeList[o] == [] && s.zone.nrFree[o] == 0)
    && (forall c | c in s.pcps :: s.pcps[c].list == [] && PcpOk(s.pcps[c]))
    && Shaped(s.used) && Apart(s.used) && Pages(s.used) == managed && s.lost == {}
  }

  lemma BootOk(s: Sys, managed: set<nat>)
    requires Boot(s, managed)
    ensures Inv(s, managed)
  {
    assert Pages(s.zone.order) == {};
    assert PcpPages(s.pcps) == {};
  }

  /** Two runs that leave the same pages free leave the same free blocks: the layout
      depends on nothing else, not on the order of operations or the CPUs used. */
  lemma LayoutIsHistoryFree(a: Sys, b: Sys, managed: set<nat>)
    requires Inv(a, managed) && Inv(b, managed) && Pages(a.zone.order) == Pages(b.zone.order)
    ensures a.zone.order == b.zone.order
  {
    PagesAreFree(a.zone.order);
    PagesAreFree(b.zone.order);
    forall x: nat ensures Free(a.zone.order, x) <==> Free(b.zone.order, x) { }
    Canonical(a.zone.order, b.zone.order);
  }
}
