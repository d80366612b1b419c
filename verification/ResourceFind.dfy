/** Finding room for a resource among the children of another, and moving one there. */
module ResourceFind {
  import opened Numbers
  import opened Options
  import opened Alignment
  import opened ResourceTree

  /** size, alignment 2^order, and the window the result must lie in */
  datatype Want = Want(size: nat, order: nat, min: nat, max: nat)

  // ---------- one gap

  function MaxOf(a: nat, b: nat): nat { if a >= b then a else b }

  function MinOf(a: nat, b: nat): nat { if a <= b then a else b }

  /** The lowest aligned start in the gap [gs, ge] clipped to the window, if the size fits there. */
  function TryGap(gs: nat, ge: nat, w: Want): Option<nat> {
    var s := AlignUp(MaxOf(gs, w.min), w.order);
    if w.size > 0 && s + w.size - 1 <= MinOf(ge, w.max) then Some(s) else None
  }

  /** A request in 64-bit numbers. */
  predicate In64(w: Want) {
    w.size < U64 && w.order < 64 && w.min < U64 && w.max < U64
  }

  function Wrap(x: int): nat
    requires -1 <= x < 2 * U64
  {
    if x < 0 then x + U64 else if x < U64 then x else x - U64
  }

  /** Where a place of the wanted size that starts at s ends, in 64 bits. */
  function LastOf(s: nat, w: Want): nat
    requires In64(w) && s < U64
  {
    Wrap(s + w.size - 1)
  }

  /** The same as the code computes it, in 64 bits: overflow of the alignment or of the end is caught. */
  function TryGap64(gs: nat, ge: nat, w: Want): (s: Option<nat>)
    requires In64(w) && gs < U64
    ensures s.Some? ==> s.value < U64
  {
    var start, end := MaxOf(gs, w.min), MinOf(ge, w.max);
    AlignUpFits(start, w.order);
    var a := Wrap(AlignUp(start, w.order));
    if a >= start && a <= LastOf(a, w) && LastOf(a, w) <= end then Some(a) else None
  }

  /** Nothing asked for, anywhere. */
  predicate AnyOfNothing(gs: nat, ge: nat, w: Want) {
    w.size == 0 && MaxOf(gs, w.min) == 0 && MinOf(ge, w.max) == U64 - 1
  }

  /** The checks catch every wrap but one: a size of 0 in the gap that is the whole space. */
  lemma WrapsAreCaught(gs: nat, ge: nat, w: Want)
    requires In64(w) && gs < U64 && ge < U64
    ensures TryGap64(gs, ge, w) == TryGap(gs, ge, w) <==> !AnyOfNothing(gs, ge, w)
    ensures AnyOfNothing(gs, ge, w) ==> TryGap64(gs, ge, w) == Some(0)
  {
    AlignUpFits(MaxOf(gs, w.min), w.order);
    AlignUpLeast(MaxOf(gs, w.min), w.order);
    AlignedZero(w.order);
    hide AlignUp, Aligned;
  }

  /** A place for the wanted size, aligned and in the window. */
  ghost predicate Suits(w: Want, s: nat) {
    w.size > 0 && Aligned(s, w.order) && w.min <= s && s + w.size - 1 <= w.max
  }

  lemma TryGapIs(gs: nat, ge: nat, w: Want)
    ensures match TryGap(gs, ge, w)
            case Some(s) => Suits(w, s) && gs <= s && s + w.size - 1 <= ge && forall t: nat | Suits(w, t) && gs <= t :: s <= t
            case None => forall t: nat | Suits(w, t) && gs <= t :: t + w.size - 1 > ge
  {
    AlignUpLeast(MaxOf(gs, w.min), w.order);
  }

  // ---------- __find_resource()

  /** [s, s + size - 1] is in r and meets no child, the one being moved apart. */
  ghost predicate Free(r: Res, moving: int, w: Want, s: nat) {
    && Suits(w, s) && r.start <= s && s + w.size - 1 <= r.end
    && forall k | 0 <= k < |r.kids| && k != moving :: r.kids[k].end < s || s + w.size - 1 < r.kids[k].start
  }

  /** No child before the i-th, the one being moved apart, reaches gs; nothing below gs is free. */
  ghost predicate Passed(r: Res, moving: int, w: Want, i: nat, gs: nat) {
    && i <= |r.kids| && r.start <= gs
    && (forall k | 0 <= k < i && k != moving :: r.kids[k].end < gs)
    && forall s: nat | Free(r, moving, w, s) :: gs <= s
  }

  /** s is the lowest place for the request. */
  ghost predicate Lowest(r: Res, moving: int, w: Want, s: nat) {
    Free(r, moving, w, s) && forall t: nat | Free(r, moving, w, t) :: s <= t
  }

  /** Where the gap before child i ends; the child being moved belongs to its gap. */
  function GapEnd(r: Res, moving: int, i: nat): nat
    requires i <= |r.kids| && (i < |r.kids| ==> r.kids[i].start < U64)
  {
    if i == |r.kids| then r.end else if i == moving then r.kids[i].end else Wrap(r.kids[i].start - 1)
  }

  /** All addresses are 64-bit numbers. */
  predicate Small(r: Res) {
    r.end < U64 && forall i | 0 <= i < |r.kids| :: r.kids[i].start < U64 && r.kids[i].end < U64
  }

  lemma {:induction false} ValidSmall(r: Res)
    requires Valid(r) && r.end < U64
    ensures Small(r)
  {
    forall i | 0 <= i < |r.kids| ensures r.kids[i].start < U64 && r.kids[i].end < U64 { KidValid(r, i); }
  }

  /** The gap start after child i. Clipping to the window moves the start of a gap for good. */
  function NextStart(r: Res, moving: int, w: Want, i: nat, start: nat): (next: nat)
    requires Small(r) && In64(w) && i < |r.kids| && start < U64
    ensures next < U64
  {
    if i != moving then Wrap(r.kids[i].end + 1)
    else if GapEnd(r, moving, i) >= start then MaxOf(start, w.min) else start
  }

  function FindFrom(r: Res, moving: int, w: Want, i: nat, start: nat): (s: Option<nat>)
    requires Small(r) && In64(w) && i <= |r.kids| && start < U64
    ensures s.Some? ==> s.value < U64
    decreases |r.kids| - i
  {
    var end := GapEnd(r, moving, i);
    var s := if end >= start then TryGap64(start, end, w) else None;
    if s.Some? then s
    else if i == |r.kids| || r.kids[i].end == r.end then None
    else FindFrom(r, moving, w, i + 1, NextStart(r, moving, w, i, start))
  }

  /** A first child that starts with its parent is skipped beforehand. */
  predicate SkipsFirst(r: Res) {
    r.kids != [] && r.kids[0].start == r.start
  }

  function FirstStart(r: Res, moving: int): (start: nat)
    requires Small(r) && r.start < U64
    ensures start < U64
  {
    if !SkipsFirst(r) then r.start else if moving == 0 then r.kids[0].start else Wrap(r.kids[0].end + 1)
  }

  /** __find_resource() in 64 bits; moving is the child to be moved, or -1. */
  function Find(r: Res, moving: int, w: Want): (s: Option<nat>)
    requires Small(r) && r.start < U64 && In64(w)
    ensures s.Some? ==> s.value < U64
  {
    FindFrom(r, moving, w, if SkipsFirst(r) then 1 else 0, FirstStart(r, moving))
  }

  /** __find_resource() as it runs. */
  method FindResource(r: Res, moving: int, w: Want) returns (s: Option<nat>)
    requires Small(r) && r.start < U64 && In64(w)
    ensures s == Find(r, moving, w)
  {
    hide TryGap64;
    var i: nat, start: nat := 0, r.start;
    if r.kids != [] && r.kids[0].start == r.start {
      start := if moving == 0 then r.kids[0].start else Wrap(r.kids[0].end + 1);
      i := 1;
    }
    while true
      invariant i <= |r.kids| && start < U64 && Find(r, moving, w) == FindFrom(r, moving, w, i, start)
      decreases |r.kids| - i
    {
      var end := if i == |r.kids| then r.end else if i == moving then r.kids[i].end else Wrap(r.kids[i].start - 1);
      var next := start;
      if end >= start {
        next := MaxOf(start, w.min);
        s := TryGap64(start, end, w);
        if s.Some? { return; }
      }
      if i == |r.kids| || r.kids[i].end == r.end { return None; }
      start := if i != moving then Wrap(r.kids[i].end + 1) else next;
      i := i + 1;
    }
  }

  /** A root up to the last address with one child that covers it: the end of that child plus 1 is 0. */
  predicate CoveredToTop(r: Res, moving: int) {
    r.end == U64 - 1 && |r.kids| == 1 && moving != 0 && r.kids[0].start == r.start && r.kids[0].end == r.end
  }

  /** Size 0 asked of the whole 64-bit space with nothing in it but the child being moved. */
  predicate WholeOfNothing(r: Res, moving: int, w: Want) {
    && r.start == 0 && r.end == U64 - 1 && AnyOfNothing(0, U64 - 1, w)
    && (r.kids == [] || (|r.kids| == 1 && moving == 0))
  }

  /** The requests that __find_resource() answers with a place that is not free. */
  predicate Misled(r: Res, moving: int, w: Want)
    requires In64(w)
  {
    WholeOfNothing(r, moving, w) || (CoveredToTop(r, moving) && TryGap64(0, U64 - 1, w).Some?)
  }

  /** The lowest suitable place, treating the child being moved as free; none exactly when there is none. */
  ghost predicate Right(r: Res, moving: int, w: Want, s: Option<nat>) {
    if s.Some? then Lowest(r, moving, w, s.value) else forall t: nat :: !Free(r, moving, w, t)
  }

  /** The answer is right except for the two families of requests above, and what it is for those. */
  lemma {:induction false} FindExact(r: Res, moving: int, w: Want)
    requires Valid(r) && r.end < U64 && In64(w) && -1 <= moving < |r.kids|
    ensures Small(r) && (Right(r, moving, w, Find(r, moving, w)) <==> !Misled(r, moving, w))
    ensures Misled(r, moving, w) ==> Find(r, moving, w) == TryGap64(0, U64 - 1, w) && forall t: nat :: !Free(r, moving, w, t)
  {
    ValidSmall(r);
    if CoveredToTop(r, moving) {
      CoveredFinds(r, moving, w);
    } else if WholeOfNothing(r, moving, w) {
      WholeFinds(r, moving, w);
    } else {
      FindStarts(r, moving, w);
      FindFromRight(r, moving, w, if SkipsFirst(r) then 1 else 0, FirstStart(r, moving));
    }
  }

  lemma {:induction false} CoveredFinds(r: Res, moving: int, w: Want)
    requires Valid(r) && Small(r) && In64(w) && CoveredToTop(r, moving)
    ensures Find(r, moving, w) == TryGap64(0, U64 - 1, w) && !WholeOfNothing(r, moving, w)
    ensures forall t: nat :: !Free(r, moving, w, t)
  {
    hide TryGap64, Valid;
    forall t: nat ensures !Free(r, moving, w, t) {
      if Suits(w, t) && r.start <= t && t + w.size - 1 <= r.end {
        assert r.kids[0].end >= t && t + w.size - 1 >= r.kids[0].start;
      }
    }
  }

  lemma {:induction false} WholeFinds(r: Res, moving: int, w: Want)
    requires Valid(r) && Small(r) && In64(w) && WholeOfNothing(r, moving, w)
    ensures Find(r, moving, w) == TryGap64(0, U64 - 1, w) == Some(0)
    ensures forall t: nat :: !Free(r, moving, w, t)
  {
    hide TryGap64, Valid;
    WrapsAreCaught(0, U64 - 1, w);
    if r.kids != [] {
      WrapsAreCaught(0, r.kids[0].end, w);
      assert FindFrom(r, moving, w, 1, 0) == Some(0);
    }
  }

  /** Where the search starts nothing has been missed. */
  lemma {:induction false} FindStarts(r: Res, moving: int, w: Want)
    requires Valid(r) && Small(r) && In64(w) && -1 <= moving < |r.kids| && !CoveredToTop(r, moving)
    ensures var i := if SkipsFirst(r) then 1 else 0;
            Passed(r, moving, w, i, FirstStart(r, moving)) && (i < |r.kids| ==> r.kids[i].start > r.start)
  {
    StartPassed(r, moving, w);
    if r.kids != [] {
      KidValid(r, 0);
      if r.kids[0].start == r.start {
        LaterStart(r, 0);
        if moving != 0 {
          EmptyGap(r, moving, w, r.start);
          PassChild(r, moving, w, 0, r.start);
          if r.kids[0].end == r.end { LastIs(r, 0); }
        } else {
          PassMoving(r, moving, w, 0, r.start, r.start);
        }
      }
    }
  }

  lemma {:induction false} FindFromRight(r: Res, moving: int, w: Want, i: nat, start: nat)
    requires Valid(r) && Small(r) && In64(w) && -1 <= moving < |r.kids| && start < U64 && !WholeOfNothing(r, moving, w)
    requires i <= |r.kids| && Passed(r, moving, w, i, start) && (i < |r.kids| ==> r.kids[i].start > r.start)
    ensures Right(r, moving, w, FindFrom(r, moving, w, i, start))
    decreases |r.kids| - i
  {
    hide Valid, Suits, TryGap, TryGap64, Passed, WholeOfNothing, Lowest, Free;
    var end := GapEnd(r, moving, i);
    BoundOf(r, moving, i);
    GapIsExact(r, moving, w, i, start);
    TryGapIs(start, end, w);
    if end >= start && TryGap64(start, end, w).Some? {
      GapFree(r, moving, w, i, start, end, TryGap64(start, end, w).value);
    } else {
      GapDone(r, moving, w, i, start, end);
      if i == |r.kids| || r.kids[i].end == r.end {
        NoneLeft(r, moving, w, i, start, end);
      } else {
        GoesOn(r, moving, w, i, start);
        LaterStart(r, i);
        FindFromRight(r, moving, w, i + 1, NextStart(r, moving, w, i, start));
      }
    }
  }

  lemma {:induction false} BoundOf(r: Res, moving: int, i: nat)
    requires Valid(r) && Small(r) && i <= |r.kids| && (i < |r.kids| ==> r.kids[i].start > r.start)
    ensures GapEnd(r, moving, i) == (if i < |r.kids| then (if i == moving then r.kids[i].end else r.kids[i].start - 1) else r.end)
    ensures GapEnd(r, moving, i) <= r.end < U64
  {
    if i < |r.kids| { KidValid(r, i); }
  }

  /** Only in the request for nothing does a gap look different in 64 bits. */
  lemma {:induction false} GapIsExact(r: Res, moving: int, w: Want, i: nat, start: nat)
    requires Valid(r) && Small(r) && In64(w) && -1 <= moving < |r.kids| && start < U64 && !WholeOfNothing(r, moving, w)
    requires Passed(r, moving, w, i, start) && (i < |r.kids| ==> r.kids[i].start > r.start)
    ensures TryGap64(start, GapEnd(r, moving, i), w) == TryGap(start, GapEnd(r, moving, i), w)
  {
    hide TryGap64, TryGap;
    BoundOf(r, moving, i);
    WrapsAreCaught(start, GapEnd(r, moving, i), w);
    if AnyOfNothing(start, GapEnd(r, moving, i), w) {
      if i > 0 && moving != 0 { PastOthers(r, moving, w, i, start, 0); }
      if i > 1 && moving == 0 { PastOthers(r, moving, w, i, start, 1); }
      if i < |r.kids| { LastIs(r, i); }
    }
  }

  lemma PastOthers(r: Res, moving: int, w: Want, i: nat, start: nat, k: nat)
    requires Passed(r, moving, w, i, start) && k < i && k != moving
    ensures start > 0
  {
    assert r.kids[k].end < start;
  }

  lemma {:induction false} LastIs(r: Res, i: nat)
    requires Valid(r) && i < |r.kids|
    ensures r.kids[i].end == r.end ==> i == |r.kids| - 1
  {
    if i + 1 < |r.kids| {
      KidValid(r, i + 1);
      assert r.kids[i].end < r.kids[i + 1].start;
    }
  }

  lemma {:induction false} GoesOn(r: Res, moving: int, w: Want, i: nat, start: nat)
    requires Valid(r) && Small(r) && In64(w) && i < |r.kids| && r.kids[i].end != r.end && start < U64 && r.kids[i].start > r.start
    requires Passed(r, moving, w, i, start) && NoneInGap(r, moving, w, start, GapEnd(r, moving, i))
    ensures Passed(r, moving, w, i + 1, NextStart(r, moving, w, i, start))
  {
    KidValid(r, i);
    BoundOf(r, moving, i);
    hide Valid;
    if i != moving {
      PassChild(r, moving, w, i, start);
    } else {
      PassMoving(r, moving, w, i, start, NextStart(r, moving, w, i, start));
    }
  }

  lemma {:induction false} StartPassed(r: Res, moving: int, w: Want)
    requires Valid(r)
    ensures Passed(r, moving, w, 0, r.start)
  {
  }

  lemma {:induction false} LaterStart(r: Res, i: nat)
    requires Valid(r) && i < |r.kids|
    ensures i + 1 < |r.kids| ==> r.kids[i + 1].start > r.start
  {
    KidValid(r, i);
  }

  /** Nothing free starts between the gap tried and the end of the child after it. */
  ghost predicate NoneInGap(r: Res, moving: int, w: Want, start: nat, end: int) {
    forall t: nat | Free(r, moving, w, t) && start <= t :: t + w.size - 1 > end
  }

  lemma GapDone(r: Res, moving: int, w: Want, i: nat, start: nat, end: int)
    requires end >= start ==> forall t: nat | Suits(w, t) && start <= t :: t + w.size - 1 > end
    ensures NoneInGap(r, moving, w, start, end)
  {
  }

  /** What was found in the gap before child i is free. */
  lemma {:induction false} GapFree(r: Res, moving: int, w: Want, i: nat, start: nat, end: nat, s: nat)
    requires Valid(r) && Passed(r, moving, w, i, start) && -1 <= moving < |r.kids|
    requires end == if i < |r.kids| then (if i == moving then r.kids[i].end else r.kids[i].start - 1) else r.end
    requires Suits(w, s) && start <= s && s + w.size - 1 <= end && forall t: nat | Suits(w, t) && start <= t :: s <= t
    ensures Lowest(r, moving, w, s)
  {
    forall k | 0 <= k < |r.kids| && k != moving ensures r.kids[k].end < s || s + w.size - 1 < r.kids[k].start {
      KidValid(r, k);
      if i < |r.kids| && k >= i {
        KidValid(r, i);
        assert k == i || r.kids[i].end < r.kids[k].start;
      }
    }
    if i < |r.kids| { KidValid(r, i); }
  }

  lemma EmptyGap(r: Res, moving: int, w: Want, start: nat)
    ensures NoneInGap(r, moving, w, start, start - 1)
  {
  }

  /** Past a child that stays: what is free beyond the gap before it is beyond the child. */
  lemma {:induction false} PassChild(r: Res, moving: int, w: Want, i: nat, start: nat)
    requires Valid(r) && i < |r.kids| && i != moving && Passed(r, moving, w, i, start) && NoneInGap(r, moving, w, start, r.kids[i].start - 1)
    ensures Passed(r, moving, w, i + 1, r.kids[i].end + 1)
  {
    KidValid(r, i);
    forall k | 0 <= k < i + 1 && k != moving ensures r.kids[k].end < r.kids[i].end + 1 {
      if k < i { assert r.kids[k].end < r.kids[i].start; }
    }
  }

  /** Past the child being moved: its range counts as free. */
  lemma PassMoving(r: Res, moving: int, w: Want, i: nat, start: nat, next: nat)
    requires i < |r.kids| && i == moving && Passed(r, moving, w, i, start) && (next == start || next == MaxOf(start, w.min))
    ensures Passed(r, moving, w, i + 1, next)
  {
  }

  lemma {:induction false} NoneLeft(r: Res, moving: int, w: Want, i: nat, start: nat, end: int)
    requires Valid(r) && Passed(r, moving, w, i, start) && NoneInGap(r, moving, w, start, end)
    requires end == if i < |r.kids| then (if i == moving then r.kids[i].end else r.kids[i].start - 1) else r.end
    requires i == |r.kids| || r.kids[i].end == r.end
    ensures forall t: nat :: !Free(r, moving, w, t)
  {
  }

  // ---------- allocate_resource()

  /** What was found can be requested: allocation fails only when there is no room. */
  lemma FoundCanBeRequested(r: Res, w: Want, s: nat, id: int)
    requires Valid(r) && Free(r, -1, w, s)
    ensures var x := Res(id, s, s + w.size - 1, []); Request(r, x).Done? && Valid(Request(r, x).tree)
  {
    var x := Res(id, s, s + w.size - 1, []);
    LeafValid(x);
    RequestIs(r, x);
  }

  /** t is r with the child x added. */
  ghost predicate OneMore(r: Res, t: Res, x: Res) {
    exists at :: 0 <= at <= |r.kids| && t == r.(kids := InsertAt(r.kids, at, x))
  }

  /** allocate_resource() for a resource that is not in the tree yet. */
  function Allocate(r: Res, id: int, w: Want): Option<Res>
    requires Small(r) && r.start < U64 && In64(w)
  {
    match Find(r, -1, w)
    case None => None
    case Some(s) =>
      match Request(r, Res(id, s, LastOf(s, w), []))
      case Done(t) => Some(t)
      case Busy(_, _) => None
  }

  method AllocateResource(r: Res, id: int, w: Want) returns (t: Option<Res>)
    requires Small(r) && r.start < U64 && In64(w)
    ensures t == Allocate(r, id, w)
  {
    hide Find, Small;
    var s := FindResource(r, -1, w);
    if s.None? { return None; }
    var x := Res(id, s.value, LastOf(s.value, w), []);
    if x.end < x.start || x.start < r.start || x.end > r.end { return None; }
    var p := FindPlace(r.kids, x.start, x.end);
    if p.Conflict? { return None; }
    t := Some(r.(kids := InsertAt(r.kids, p.at, x)));
  }

  /** Allocation succeeds exactly when there is room, and then at the lowest place, if and only if the request is
      not for nothing in an empty tree over all addresses; that one is granted everything. A taken place that the
      search came up with is refused by the request. */
  lemma {:induction false} AllocateExact(r: Res, id: int, w: Want)
    requires Valid(r) && r.end < U64 && In64(w)
    ensures Small(r) && r.start < U64
    ensures (Allocate(r, id, w).Some? <==> exists s: nat :: Free(r, -1, w, s)) <==> !WholeOfNothing(r, -1, w)
    ensures WholeOfNothing(r, -1, w) ==> Allocate(r, id, w) == Some(r.(kids := [Res(id, 0, U64 - 1, [])]))
    ensures Allocate(r, id, w).Some? ==> Valid(Allocate(r, id, w).value)
    ensures Allocate(r, id, w).Some? && !WholeOfNothing(r, -1, w) ==>
              exists s: nat :: Lowest(r, -1, w, s) && OneMore(r, Allocate(r, id, w).value, Res(id, s, s + w.size - 1, []))
  {
    hide Valid, Find, Request, TryGap64, Small, Free, CoveredToTop, OneMore;
    FindExact(r, -1, w);
    StartSmall(r);
    if Find(r, -1, w).Some? {
      if WholeOfNothing(r, -1, w) {
        WrapsAreCaught(0, U64 - 1, w);
        WholeGranted(r, id);
      } else if CoveredToTop(r, -1) {
        CoveredFinds(r, -1, w);
        CoveredRefuses(r, Res(id, Find(r, -1, w).value, LastOf(Find(r, -1, w).value, w), []));
      } else {
        RoomGranted(r, id, w, Find(r, -1, w).value);
      }
    }
  }

  lemma {:induction false} StartSmall(r: Res)
    requires Valid(r) && r.end < U64
    ensures r.start < U64
  {
  }

  lemma {:induction false} RoomGranted(r: Res, id: int, w: Want, s: nat)
    requires Valid(r) && r.end < U64 && In64(w) && Lowest(r, -1, w, s)
    ensures s < U64
    ensures var x := Res(id, s, LastOf(s, w), []);
            x.end == s + w.size - 1 && Request(r, x).Done? && Valid(Request(r, x).tree) && OneMore(r, Request(r, x).tree, x)
  {
    hide Valid, Request, Fits;
    FreeEnds(r, -1, w, s);
    FoundCanBeRequested(r, w, s, id);
    var x := Res(id, s, LastOf(s, w), []);
    LeafValid(x);
    RequestIs(r, x);
  }

  lemma WholeGranted(r: Res, id: int)
    requires r.start == 0 && r.end == U64 - 1 && r.kids == []
    ensures Request(r, Res(id, 0, U64 - 1, [])) == Done(r.(kids := [Res(id, 0, U64 - 1, [])]))
    ensures Valid(r.(kids := [Res(id, 0, U64 - 1, [])]))
  {
    LeafValid(Res(id, 0, U64 - 1, []));
  }

  lemma {:induction false} CoveredRefuses(r: Res, x: Res)
    requires Valid(r) && CoveredToTop(r, -1) && x.kids == []
    ensures Request(r, x).Busy?
  {
    hide Valid;
    if x.start <= x.end { LeafValid(x); }
    RequestIs(r, x);
    assert Contains(r, x) && x.start <= x.end ==> Overlaps(r.kids[0], x);
  }

  /** A free place does not wrap. */
  lemma FreeEnds(r: Res, moving: int, w: Want, s: nat)
    requires Free(r, moving, w, s) && r.end < U64 && In64(w)
    ensures s < U64 && LastOf(s, w) == s + w.size - 1
  {
  }

  /** The two inputs at their simplest. Nothing is asked for, and all addresses are handed out. */
  lemma NothingIsEverything(id: int)
    ensures var r, w := Res(0, 0, U64 - 1, []), Want(0, 0, 0, U64 - 1);
            Allocate(r, id, w) == Some(r.(kids := [Res(id, 0, U64 - 1, [])])) && forall t: nat :: !Free(r, -1, w, t)
  {
    var r := Res(0, 0, U64 - 1, []);
    assert Valid(r);
    AllocateExact(r, id, Want(0, 0, 0, U64 - 1));
  }

  /** One byte is asked of a full tree: the search answers address 0, the request refuses it. */
  lemma FullAnswersZero(id: int)
    ensures var r, w := Res(0, 0, U64 - 1, [Res(1, 0, U64 - 1, [])]), Want(1, 0, 0, U64 - 1);
            Find(r, -1, w) == Some(0) && Allocate(r, id, w) == None && forall t: nat :: !Free(r, -1, w, t)
  {
    var c := Res(1, 0, U64 - 1, []);
    var r, w := Res(0, 0, U64 - 1, [c]), Want(1, 0, 0, U64 - 1);
    assert Valid(c);
    assert Valid(r);
    assert TryGap64(0, U64 - 1, w) == Some(0);
    FindExact(r, -1, w);
    AllocateExact(r, id, w);
  }

  // ---------- reallocate_resource()

  datatype Moved = InPlace(tree: Res) | Elsewhere(tree: Res) | NoRoom | HasChildren

  /** Child i gets the range [s, e]: grown or shrunk where it is, or taken out and requested again. */
  function Relocate(r: Res, i: nat, s: nat, e: nat): Moved
    requires i < |r.kids|
  {
    var x := r.kids[i];
    if s <= x.start && x.end <= e then InPlace(r.(kids := r.kids[i := x.(start := s, end := e)]))
    else if x.kids != [] then HasChildren
    else if x.start <= s && e <= x.end then InPlace(r.(kids := r.kids[i := x.(start := s, end := e)]))
    else match Request(Release(r, i, true), x.(start := s, end := e))
      case Done(t) => Elsewhere(t)
      case Busy(_, _) => NoRoom
  }

  /** Child i of r, now at [s, e]: where it was among its siblings with its own children, or as a new child. */
  ghost predicate MovedTo(r: Res, i: nat, s: nat, e: nat, m: Moved)
    requires i < |r.kids|
  {
    var x := r.kids[i];
    match m
    case InPlace(t) => t == r.(kids := r.kids[i := x.(start := s, end := e)])
    case Elsewhere(t) => x.kids == [] && OneMore(Release(r, i, true), t, x.(start := s, end := e))
    case HasChildren => x.kids != [] && (x.start < s || e < x.end)
    case NoRoom => false
  }

  /** The place found for a child is free of the others, so the tree stays well formed and the second
      request never runs into anything. */
  lemma RelocateKeeps(r: Res, i: nat, w: Want, s: nat)
    requires Valid(r) && i < |r.kids| && Free(r, i, w, s)
    ensures var m := Relocate(r, i, s, s + w.size - 1);
            MovedTo(r, i, s, s + w.size - 1, m) && (m.InPlace? || m.Elsewhere? ==> Valid(m.tree))
  {
    var x := r.kids[i];
    var e := s + w.size - 1;
    KidValid(r, i);
    ReleaseValid(r, i, true);
    ReleasedFits(r, i, w, s);
    hide Valid, Request, Fits;
    if s <= x.start && x.end <= e {
      Widened(r, i, s, e);
    } else if x.kids == [] {
      if x.start <= s && e <= x.end {
        Widened(r, i, s, e);
      } else {
        LeafValid(x.(start := s, end := e));
        RequestIs(Release(r, i, true), x.(start := s, end := e));
      }
    }
  }

  lemma {:induction false} ReleasedFits(r: Res, i: nat, w: Want, s: nat)
    requires Valid(r) && i < |r.kids| && Free(r, i, w, s)
    ensures Fits(Release(r, i, true), r.kids[i].(start := s, end := s + w.size - 1))
  {
    var q := Release(r, i, true);
    var x := r.kids[i].(start := s, end := s + w.size - 1);
    assert q.kids == r.kids[..i] + r.kids[i + 1..];
    forall k | 0 <= k < |q.kids| ensures !Overlaps(q.kids[k], x) {
      var j := if k < i then k else k + 1;
      assert q.kids[k] == r.kids[j];
    }
  }

  /** A child given a range that the others leave free and that its own children fit. */
  lemma Widened(r: Res, i: nat, s: nat, e: nat)
    requires Valid(r) && i < |r.kids| && r.start <= s <= e <= r.end
    requires forall k | 0 <= k < |r.kids| && k != i :: r.kids[k].end < s || e < r.kids[k].start
    requires (s <= r.kids[i].start && r.kids[i].end <= e) || (r.kids[i].kids == [] && r.kids[i].start <= s && e <= r.kids[i].end)
    ensures Valid(r.(kids := r.kids[i := r.kids[i].(start := s, end := e)]))
  {
    var x := r.kids[i].(start := s, end := e);
    var q := r.(kids := r.kids[i := x]);
    KidValid(r, i);
    ValidKids(r.kids[i]);
    ValidKids(x);
    forall k | 0 <= k < |r.kids| && k != i ensures if k < i then r.kids[k].end < s else e < r.kids[k].start {
      KidValid(r, k);
      assert if k < i then r.kids[k].end < r.kids[i].start else r.kids[i].end < r.kids[k].start;
    }
    forall k, j | 0 <= k < j < |q.kids| ensures q.kids[k].end < q.kids[j].start {
      assert r.kids[k].end < r.kids[j].start;
    }
  }

  /** reallocate_resource() */
  function Reallocate(r: Res, i: nat, w: Want): Moved
    requires Small(r) && r.start < U64 && In64(w) && i < |r.kids|
  {
    match Find(r, i, w)
    case None => NoRoom
    case Some(s) => Relocate(r, i, s, LastOf(s, w))
  }

  method ReallocateResource(r: Res, i: nat, w: Want) returns (m: Moved)
    requires Small(r) && r.start < U64 && In64(w) && i < |r.kids|
    ensures m == Reallocate(r, i, w)
  {
    hide Find, Small, Relocate;
    var s := FindResource(r, i, w);
    if s.None? { return NoRoom; }
    m := Relocate(r, i, s.value, LastOf(s.value, w));
  }

  /** Child i moves to the lowest place the others leave free, unless it has children and the place does not cover
      them, and there is no room exactly when there is no such place: if and only if the request is not for nothing
      in a tree over all addresses with no other child. Then the child grows over everything. */
  lemma {:induction false} ReallocateExact(r: Res, i: nat, w: Want)
    requires Valid(r) && r.end < U64 && In64(w) && i < |r.kids|
    ensures Small(r) && r.start < U64
    ensures (Reallocate(r, i, w).NoRoom? <==> forall s: nat :: !Free(r, i, w, s)) <==> !WholeOfNothing(r, i, w)
    ensures WholeOfNothing(r, i, w) ==> Reallocate(r, i, w) == InPlace(r.(kids := [r.kids[i].(start := 0, end := U64 - 1)]))
    ensures var m := Reallocate(r, i, w); m.InPlace? || m.Elsewhere? ==> Valid(m.tree)
    ensures var m := Reallocate(r, i, w); !m.NoRoom? && !WholeOfNothing(r, i, w) ==>
              exists s: nat :: Lowest(r, i, w, s) && MovedTo(r, i, s, s + w.size - 1, m)
  {
    hide Valid, Find, TryGap64, Small, Free, MovedTo, Relocate, CoveredToTop;
    FindExact(r, i, w);
    NotCovered(r, i);
    StartSmall(r);
    if Find(r, i, w).Some? {
      var s := Find(r, i, w).value;
      if WholeOfNothing(r, i, w) {
        WrapsAreCaught(0, U64 - 1, w);
        GrowsOverAll(r);
      } else {
        FreeEnds(r, i, w, s);
        RelocateKeeps(r, i, w, s);
        MovedSomewhere(r, i, s, s + w.size - 1, Reallocate(r, i, w));
      }
    }
  }

  lemma NotCovered(r: Res, i: nat)
    requires i < |r.kids|
    ensures !CoveredToTop(r, i)
  {
  }

  lemma GrowsOverAll(r: Res)
    requires Valid(r) && |r.kids| == 1 && r.start == 0 && r.end == U64 - 1
    ensures var m := Relocate(r, 0, 0, U64 - 1); m == InPlace(r.(kids := [r.kids[0].(start := 0, end := U64 - 1)])) && Valid(m.tree)
  {
    KidValid(r, 0);
    Widened(r, 0, 0, U64 - 1);
    var x := r.kids[0].(start := 0, end := U64 - 1);
    assert r.kids[0 := x] == [x];
  }

  lemma MovedSomewhere(r: Res, i: nat, s: nat, e: nat, m: Moved)
    requires i < |r.kids| && MovedTo(r, i, s, e, m)
    ensures !m.NoRoom?
  {
  }
}
