/** reserve_region_with_split(): reserve whatever of a range is not taken yet. */
module ResourceSplit {
  import opened Options
  import opened ResourceTree

  predicate CoveredBy(kids: seq<Res>, a: nat) {
    exists k | 0 <= k < |kids| :: kids[k].start <= a <= kids[k].end
  }

  /** kids has every old child, and besides only new ones inside [s, e]. */
  ghost predicate Grew(old_: seq<Res>, kids: seq<Res>, s: nat, e: nat, id: int) {
    && (forall x | x in old_ :: x in kids)
    && forall x | x in kids :: x in old_ || (x.id == id && x.kids == [] && s <= x.start <= x.end <= e)
  }

  /** Everything from s up to (not including) b is covered. */
  ghost predicate CoveredUpTo(kids: seq<Res>, s: nat, b: nat) {
    forall a: nat | s <= a < b :: CoveredBy(kids, a)
  }

  lemma InsertCovers(kids: seq<Res>, at: nat, x: Res)
    requires at <= |kids|
    ensures var new_ := InsertAt(kids, at, x);
            && (forall a: nat | CoveredBy(kids, a) :: CoveredBy(new_, a)) && (forall a: nat | x.start <= a <= x.end :: CoveredBy(new_, a))
            && (forall y :: y in new_ <==> y in kids || y == x)
  {
    var new_ := InsertAt(kids, at, x);
    assert new_[at] == x;
    forall a: nat | CoveredBy(kids, a) ensures CoveredBy(new_, a) {
      var k :| 0 <= k < |kids| && kids[k].start <= a <= kids[k].end;
      assert new_[if k < at then k else k + 1] == kids[k];
    }
    forall y | y in kids ensures y in new_ {
      var k :| 0 <= k < |kids| && kids[k] == y;
      assert new_[if k < at then k else k + 1] == y;
    }
  }

  /** What is still to be reserved: [lo, hi] now, and the part from next on afterwards. */
  datatype Pending = Pending(lo: nat, hi: nat, next: Option<nat>)

  function Rest(p: Pending, e: nat): nat {
    if p.next.Some? then p.next.value else e + 1
  }

  /** Below the part now asked for, and between it and the rest, everything is covered; when a rest waits,
      the part now asked for meets no child. */
  ghost predicate Splitting(r: Res, s: nat, e: nat, p: Pending) {
    && r.start <= s <= p.lo <= p.hi < Rest(p, e) <= e + 1 && e <= r.end
    && CoveredUpTo(r.kids, s, p.lo) && (forall a: nat | p.hi < a < Rest(p, e) :: CoveredBy(r.kids, a))
    && (p.next.Some? ==> p.next.value <= e && forall k | 0 <= k < |r.kids| :: !Overlaps(r.kids[k], Res(0, p.lo, p.hi, [])))
  }

  lemma AfterRequest(r: Res, t: Res, s: nat, e: nat, p: Pending, at: nat, x: Res)
    requires Splitting(r, s, e, p) && at <= |r.kids| && x.start == p.lo && x.end == p.hi && t == r.(kids := InsertAt(r.kids, at, x))
    ensures p.next.None? ==> CoveredUpTo(t.kids, s, e + 1)
    ensures p.next.Some? ==> Splitting(t, s, e, Pending(p.next.value, e, None))
  {
    InsertCovers(r.kids, at, x);
    hide CoveredBy;
    forall a: nat | s <= a < Rest(p, e) ensures CoveredBy(t.kids, a) {
      if a < p.lo || a > p.hi { assert CoveredBy(r.kids, a); }
    }
  }

  lemma GrewMore(old_: seq<Res>, kids: seq<Res>, s: nat, e: nat, id: int, at: nat, x: Res)
    requires Grew(old_, kids, s, e, id) && at <= |kids| && x.id == id && x.kids == [] && s <= x.start <= x.end <= e
    ensures Grew(old_, InsertAt(kids, at, x), s, e, id)
  {
    InsertCovers(kids, at, x);
  }

  /** The first child in the way, with the part below it free. */
  lemma {:induction false} FirstInWay(r: Res, x: Res)
    requires Valid(r) && x.start <= x.end && Contains(r, x) && Request(r, x).Busy?
    ensures Request(r, x).with.Conflict? && Request(r, x).with.at < |r.kids|
    ensures var c := r.kids[Request(r, x).with.at];
            && c.start <= x.end && x.start <= c.end && r.start <= c.start <= c.end <= r.end
            && (c.start > x.start ==> forall k | 0 <= k < |r.kids| :: !Overlaps(r.kids[k], Res(0, x.start, c.start - 1, [])))
  {
    forall k | 0 <= k < |r.kids| ensures r.kids[k].start <= r.kids[k].end { KidValid(r, k); }
    ScanIs(r.kids, x.start, x.end, 0);
    var at := Request(r, x).with.at;
    KidValid(r, at);
    var c := r.kids[at];
    if c.start > x.start {
      forall k | 0 <= k < |r.kids| ensures !Overlaps(r.kids[k], Res(0, x.start, c.start - 1, [])) {
        if k > at { assert c.end < r.kids[k].start; }
      }
    }
  }

  /** One of the pieces in its way covers its addresses. */
  lemma InWayCovers(r: Res, at: nat)
    requires at < |r.kids|
    ensures forall a: nat | r.kids[at].start <= a <= r.kids[at].end :: CoveredBy(r.kids, a)
  {
  }

  /** The part below the child c, and the rest above it; or only what is above it. */
  function Split(p: Pending, c: Res): Pending
    requires c.start > 0 || c.start <= p.lo
  {
    if c.start > p.lo then
      if c.end < p.hi then Pending(p.lo, c.start - 1, Some(c.end + 1)) else p.(hi := c.start - 1)
    else p.(lo := c.end + 1)
  }

  lemma AfterConflict(r: Res, s: nat, e: nat, p: Pending, at: nat)
    requires Splitting(r, s, e, p) && p.next.None? && at < |r.kids|
    requires var c := r.kids[at];
             && c.start <= p.hi && p.lo <= c.end && c.start <= c.end
             && (c.start > p.lo ==> forall k | 0 <= k < |r.kids| :: !Overlaps(r.kids[k], Res(0, p.lo, c.start - 1, [])))
    ensures var c := r.kids[at];
            if c.start <= p.lo && c.end >= p.hi then CoveredUpTo(r.kids, s, e + 1) else Splitting(r, s, e, Split(p, c))
  {
    InWayCovers(r, at);
    hide CoveredBy;
    var c := r.kids[at];
    if c.start <= p.lo && c.end >= p.hi {
      forall a: nat | s <= a < e + 1 ensures CoveredBy(r.kids, a) {
      }
    }
  }

  /** A range with a rest waiting cannot run into a child: the pending upper part is never dropped. */
  lemma {:induction false} RestIsNext(r: Res, s: nat, e: nat, p: Pending, id: int)
    requires Valid(r) && Splitting(r, s, e, p) && p.next.Some?
    ensures Request(r, Res(id, p.lo, p.hi, [])).Done?
  {
    var x := Res(id, p.lo, p.hi, []);
    LeafValid(x);
    RequestIs(r, x);
    forall k | 0 <= k < |r.kids| ensures !Overlaps(r.kids[k], x) {
      assert !Overlaps(r.kids[k], Res(0, p.lo, p.hi, []));
    }
  }

  /** __reserve_region_with_split(): afterwards every address of [s, e] belongs to a child; the children
      that were there are untouched. */
  method ReserveWithSplit(r0: Res, s: nat, e: nat, id: int) returns (r: Res)
    requires Valid(r0) && r0.start <= s && e <= r0.end
    ensures Valid(r) && r == r0.(kids := r.kids) && Grew(r0.kids, r.kids, s, e, id) && CoveredUpTo(r.kids, s, e + 1)
  {
    r := r0;
    GrewNone(r0.kids, s, e, id);
    if s > e {
      return;
    }
    var p := Pending(s, e, None);
    while true
      invariant Valid(r) && r == r0.(kids := r.kids) && Grew(r0.kids, r.kids, s, e, id) && Splitting(r, s, e, p)
      decreases e + 1 - p.lo, if p.next.None? then 1 else 0, p.hi
    {
      hide Valid, CoveredUpTo, CoveredBy, Request, Grew, Scan, InsertAt;
      var res := Res(id, p.lo, p.hi, []);
      LeafValid(res);
      RequestIs(r, res);
      RequestShape(r, res);
      match Request(r, res)
      case Done(t) =>
        ghost var at := Scan(r.kids, res.start, res.end, 0).at;
        AfterRequest(r, t, s, e, p, at, res);
        GrewMore(r0.kids, r.kids, s, e, id, at, res);
        r := t;
        if p.next.None? {
          return;
        }
        p := Pending(p.next.value, e, None);
      case Busy(_, with) =>
        FirstInWay(r, res);
        var c := r.kids[with.at];
        if p.next.Some? { RestIsNext(r, s, e, p, id); }
        AfterConflict(r, s, e, p, with.at);
        if c.start <= p.lo && c.end >= p.hi {
          return;
        }
        p := Split(p, c);
    }
  }

  /** reserve_region_with_split(): a range that sticks out is clipped, one outside altogether is refused. */
  method ReserveRegion(r0: Res, start: nat, end: nat, id: int) returns (r: Res)
    requires Valid(r0)
    ensures Valid(r) && r == r0.(kids := r.kids)
    ensures (r0.start > start || r0.end < end) && (start > r0.end || end < r0.start) ==> r == r0
    ensures forall a: nat | start <= a <= end && r0.start <= a <= r0.end :: CoveredBy(r.kids, a)
    ensures forall x | x in r0.kids :: x in r.kids
    ensures forall y | y in r.kids :: y in r0.kids || (y.id == id && y.kids == [] && start <= y.start <= y.end <= end)
  {
    var s, e := start, end;
    if r0.start > start || r0.end < end {
      if start > r0.end || end < r0.start {
        return r0;
      }
      if end > r0.end { e := r0.end; }
      if start < r0.start { s := r0.start; }
    }
    r := ReserveWithSplit(r0, s, e, id);
  }

  lemma GrewNone(kids: seq<Res>, s: nat, e: nat, id: int)
    ensures Grew(kids, kids, s, e, id)
  {
  }

  lemma RequestShape(r: Res, x: Res)
    requires x.start <= x.end && Contains(r, x)
    ensures Request(r, x).Done? ==> Request(r, x).tree == r.(kids := InsertAt(r.kids, Scan(r.kids, x.start, x.end, 0).at, x))
  {
  }
}
