/** __insert_resource(), __adjust_resource() and removal. */
module ResourceInsert {
  import opened Options
  import opened ResourceTree

  // ---------- the run of children a new resource covers

  /** The first child past at that starts above end. */
  function RunTo(kids: seq<Res>, at: nat, end: nat): (j: nat)
    requires at < |kids|
    ensures at < j <= |kids| && (j < |kids| ==> kids[j].start > end) && forall k | at < k < j :: kids[k].start <= end
    decreases |kids| - at
  {
    if at + 1 == |kids| || kids[at + 1].start > end then at + 1 else RunTo(kids, at + 1, end)
  }

  /** Nothing of the run sticks out. */
  predicate Covers(kids: seq<Res>, from: nat, to: nat, x: Res)
    requires from <= to <= |kids|
  {
    forall k | from <= k < to :: x.start <= kids[k].start && kids[k].end <= x.end
  }

  /** The second loop of __insert_resource(): walk the run, stopping at a partial overlap. */
  method FindRun(kids: seq<Res>, at: nat, x: Res) returns (ok: bool, to: nat)
    requires at < |kids|
    ensures ok <==> Covers(kids, at, RunTo(kids, at, x.end), x)
    ensures ok ==> to == RunTo(kids, at, x.end)
  {
    var next := at;
    while true
      invariant at <= next < RunTo(kids, at, x.end) == RunTo(kids, next, x.end) && Covers(kids, at, next, x)
      decreases |kids| - next
    {
      if kids[next].start < x.start || kids[next].end > x.end {
        return false, 0;
      }
      if next + 1 == |kids| || kids[next + 1].start > x.end {
        return true, next + 1;
      }
      next := next + 1;
    }
  }

  predicate StrictlyInside(x: Res, f: Res) {
    Contains(f, x) && !(f.start == x.start && f.end == x.end)
  }

  /** __insert_resource(): go down while a child contains the range, then request it or adopt a run. */
  function Insert(r: Res, x: Res): Option<Res>
    decreases r
  {
    match Request(r, x)
    case Done(t) => Some(t)
    case Busy(_, Slot(_)) => None
    case Busy(_, Conflict(at)) =>
      if at >= |r.kids| then None
      else if StrictlyInside(x, r.kids[at]) then
        match Insert(r.kids[at], x)
        case None => None
        case Some(f) => Some(r.(kids := r.kids[at := f]))
      else
        var to := RunTo(r.kids, at, x.end);
        if Covers(r.kids, at, to, x) then Some(r.(kids := r.kids[..at] + [x.(kids := r.kids[at..to])] + r.kids[to..]))
        else None
  }

  /** What a conflict says about the children around it. */
  lemma {:induction false} ConflictAt(r: Res, x: Res)
    requires Valid(r) && x.start <= x.end && Request(r, x).Busy? && Request(r, x).with.Conflict?
    ensures var at := Request(r, x).with.at;
            && at < |r.kids| && Contains(r, x) && Overlaps(r.kids[at], x)
            && (forall k | 0 <= k < at :: r.kids[k].end < x.start)
            && (forall k | RunTo(r.kids, at, x.end) <= k < |r.kids| :: x.end < r.kids[k].start)
  {
    forall k | 0 <= k < |r.kids| ensures r.kids[k].start <= r.kids[k].end { KidValid(r, k); }
    ScanIs(r.kids, x.start, x.end, 0);
  }

  lemma {:induction false} InsertValid(r: Res, x: Res)
    requires Valid(r) && Leaf(x) && Insert(r, x).Some?
    ensures var t := Insert(r, x).value; Valid(t) && t.start == r.start && t.end == r.end && t.id == r.id
    decreases r
  {
    LeafValid(x);
    RequestIs(r, x);
    if Request(r, x).Busy? {
      ConflictAt(r, x);
      var at := Request(r, x).with.at;
      ValidKids(r);
      if StrictlyInside(x, r.kids[at]) {
        InsertValid(r.kids[at], x);
        ReplaceKid(r, at, Insert(r.kids[at], x).value);
      } else {
        AdoptValid(r, at, RunTo(r.kids, at, x.end), x);
      }
    }
  }

  lemma ReplaceKid(r: Res, i: nat, f: Res)
    requires Valid(r) && i < |r.kids| && Valid(f) && f.start == r.kids[i].start && f.end == r.kids[i].end
    ensures Valid(r.(kids := r.kids[i := f]))
  {
  }

  lemma {:induction false} AdoptValid(r: Res, at: nat, to: nat, x: Res)
    requires Valid(r) && Leaf(x) && Contains(r, x) && at <= to <= |r.kids| && Covers(r.kids, at, to, x)
    requires (forall k | 0 <= k < at :: r.kids[k].end < x.start) && forall k | to <= k < |r.kids| :: x.end < r.kids[k].start
    ensures Valid(r.(kids := r.kids[..at] + [x.(kids := r.kids[at..to])] + r.kids[to..]))
  {
    var y := x.(kids := r.kids[at..to]);
    assert forall k | 0 <= k < to - at :: y.kids[k] == r.kids[at + k];
    ValidKids(r);
    ValidKids(y);
    SpliceOk(r.kids, at, to, [y], r.start, r.end, x.start, x.end);
    ValidKids(r.(kids := r.kids[..at] + [y] + r.kids[to..]));
  }

  // ---------- when it succeeds

  /** d and x are apart or one is inside the other. */
  predicate Nested(d: Res, x: Res) {
    !Overlaps(d, x) || Contains(d, x) || Contains(x, d)
  }

  /** x overlaps no resource below r only in part. */
  ghost predicate NoPartial(r: Res, x: Res)
    decreases r
  {
    forall i | 0 <= i < |r.kids| :: Nested(r.kids[i], x) && NoPartial(r.kids[i], x)
  }

  lemma {:induction false} ApartBelow(r: Res, x: Res)
    requires Valid(r) && (!Overlaps(r, x) || Contains(x, r))
    ensures NoPartial(r, x)
    decreases r
  {
    forall i | 0 <= i < |r.kids| ensures Nested(r.kids[i], x) && NoPartial(r.kids[i], x) {
      KidValid(r, i);
      ApartBelow(r.kids[i], x);
    }
  }

  /** A resource can be inserted exactly when it lies in the tree's range and cuts no resource anywhere in the tree. */
  lemma {:induction false} InsertExact(r: Res, x: Res)
    requires Valid(r) && Leaf(x)
    ensures Insert(r, x).Some? <==> Contains(r, x) && NoPartial(r, x)
    decreases r
  {
    LeafValid(x);
    RequestIs(r, x);
    if Request(r, x).Done? {
      forall i | 0 <= i < |r.kids| ensures Nested(r.kids[i], x) && NoPartial(r.kids[i], x) {
        KidValid(r, i);
        ApartBelow(r.kids[i], x);
      }
    } else if Request(r, x).with.Conflict? {
      ConflictAt(r, x);
      var at := Request(r, x).with.at;
      KidValid(r, at);
      if StrictlyInside(x, r.kids[at]) {
        InsertExact(r.kids[at], x);
        OthersApart(r, at, x);
      } else {
        RunExact(r, at, RunTo(r.kids, at, x.end), x);
      }
    }
  }

  lemma {:induction false} OthersApart(r: Res, at: nat, x: Res)
    requires Valid(r) && Leaf(x) && at < |r.kids| && Contains(r.kids[at], x)
    ensures NoPartial(r, x) <==> NoPartial(r.kids[at], x)
  {
    forall i | 0 <= i < |r.kids| && i != at ensures Nested(r.kids[i], x) && NoPartial(r.kids[i], x) {
      KidValid(r, i);
      KidValid(r, at);
      assert if i < at then r.kids[i].end < r.kids[at].start else r.kids[at].end < r.kids[i].start;
      ApartBelow(r.kids[i], x);
    }
  }

  lemma {:induction false} RunExact(r: Res, at: nat, to: nat, x: Res)
    requires Valid(r) && Leaf(x) && at < to <= |r.kids| && Overlaps(r.kids[at], x) && !StrictlyInside(x, r.kids[at])
    requires (forall k | 0 <= k < at :: r.kids[k].end < x.start) && forall k | to <= k < |r.kids| :: x.end < r.kids[k].start
    requires forall k | at < k < to :: r.kids[k].start <= x.end
    ensures Covers(r.kids, at, to, x) <==> NoPartial(r, x)
  {
    forall i | 0 <= i < |r.kids| ensures Contains(x, r.kids[i]) || i < at || i >= to ==> Nested(r.kids[i], x) && NoPartial(r.kids[i], x) {
      KidValid(r, i);
      if Contains(x, r.kids[i]) || i < at || i >= to { ApartBelow(r.kids[i], x); }
    }
    forall i | at <= i < to && !Contains(x, r.kids[i]) ensures !Nested(r.kids[i], x) {
      KidValid(r, i);
      if i > at {
        KidValid(r, at);
        assert r.kids[at].end < r.kids[i].start;
      }
    }
  }

  // ---------- removal undoes insertion

  /** Where x is put: child numbers from the root down. */
  function PathOf(r: Res, x: Res): seq<nat>
    decreases r
  {
    match Request(r, x)
    case Done(_) => [Scan(r.kids, x.start, x.end, 0).at]
    case Busy(_, Slot(_)) => []
    case Busy(_, Conflict(at)) =>
      if at < |r.kids| && StrictlyInside(x, r.kids[at]) then [at] + PathOf(r.kids[at], x) else [at]
  }

  /** remove_resource() on the resource at the end of the path: its children move up to its place. */
  function Remove(r: Res, path: seq<nat>): Option<Res>
    decreases path
  {
    if path == [] || path[0] >= |r.kids| then None
    else if |path| == 1 then Some(Release(r, path[0], false))
    else match Remove(r.kids[path[0]], path[1..])
      case None => None
      case Some(f) => Some(r.(kids := r.kids[path[0] := f]))
  }

  /** Inserting a resource and removing it leaves the tree as it was, whatever it had adopted. */
  lemma {:induction false} RemoveUndoesInsert(r: Res, x: Res)
    requires Valid(r) && Leaf(x) && Insert(r, x).Some?
    ensures Remove(Insert(r, x).value, PathOf(r, x)) == Some(r)
    decreases r
  {
    if Request(r, x).Done? {
      UndoAt(r, Scan(r.kids, x.start, x.end, 0).at, Scan(r.kids, x.start, x.end, 0).at, x);
    } else {
      ConflictAt(r, x);
      var at := Request(r, x).with.at;
      KidValid(r, at);
      if StrictlyInside(x, r.kids[at]) {
        hide Valid, Request;
        RemoveUndoesInsert(r.kids[at], x);
        PathNonEmpty(r.kids[at], x);
        var path := PathOf(r, x);
        assert path[0] == at && path[1..] == PathOf(r.kids[at], x);
        assert r.kids[at := Insert(r.kids[at], x).value][at := r.kids[at]] == r.kids;
      } else {
        UndoAt(r, at, RunTo(r.kids, at, x.end), x);
      }
    }
  }

  lemma UndoAt(r: Res, at: nat, to: nat, x: Res)
    requires at <= to <= |r.kids| && x.kids == []
    ensures var y := x.(kids := r.kids[at..to]); var t := r.(kids := r.kids[..at] + [y] + r.kids[to..]);
            at < |t.kids| && Release(t, at, false) == r
    ensures at == to ==> x.(kids := r.kids[at..to]) == x && r.kids[..at] + [x] + r.kids[to..] == InsertAt(r.kids, at, x)
  {
    var y := x.(kids := r.kids[at..to]);
    var kids := r.kids[..at] + [y] + r.kids[to..];
    assert kids[at] == y && kids[..at] == r.kids[..at] && kids[at + 1..] == r.kids[to..];
    assert r.kids[..at] + r.kids[at..to] + r.kids[to..] == r.kids;
  }

  lemma {:induction false} PathNonEmpty(r: Res, x: Res)
    requires Insert(r, x).Some?
    ensures PathOf(r, x) != []
  {
  }

  lemma {:induction false} RemoveValid(r: Res, path: seq<nat>)
    requires Valid(r) && Remove(r, path).Some?
    ensures var t := Remove(r, path).value; Valid(t) && t.start == r.start && t.end == r.end
    decreases path
  {
    if |path| == 1 {
      ReleaseValid(r, path[0], false);
    } else {
      KidValid(r, path[0]);
      RemoveValid(r.kids[path[0]], path[1..]);
      ReplaceKid(r, path[0], Remove(r.kids[path[0]], path[1..]).value);
    }
  }

  // ---------- __adjust_resource()

  /** Only the two neighbours and the resource's own children are looked at. */
  function Adjust(r: Res, i: nat, start: nat, end: nat): Option<Res>
    requires i < |r.kids|
  {
    var x := r.kids[i];
    if start < r.start || end > r.end then None
    else if i + 1 < |r.kids| && r.kids[i + 1].start <= end then None
    else if i > 0 && start <= r.kids[i - 1].end then None
    else if exists k | 0 <= k < |x.kids| :: x.kids[k].start < start || x.kids[k].end > end then None
    else Some(r.(kids := r.kids[i := x.(start := start, end := end)]))
  }

  /** That is enough: the new range is accepted exactly when it stays within the parent, between all the
      children before and all those after, and around its own. Whether it is a range at all is not looked at: the
      tree stays well formed exactly when it does not end before it starts. */
  lemma {:induction false} AdjustExact(r: Res, i: nat, start: nat, end: nat)
    requires Valid(r) && i < |r.kids|
    ensures Adjust(r, i, start, end).Some? <==>
              && r.start <= start && end <= r.end
              && (forall k | 0 <= k < i :: r.kids[k].end < start) && (forall k | i < k < |r.kids| :: end < r.kids[k].start)
              && forall k | 0 <= k < |r.kids[i].kids| :: start <= r.kids[i].kids[k].start && r.kids[i].kids[k].end <= end
    ensures Adjust(r, i, start, end).Some? ==> (Valid(Adjust(r, i, start, end).value) <==> start <= end)
  {
    forall k | 0 <= k < |r.kids| ensures r.kids[k].start <= r.kids[k].end { KidValid(r, k); }
    KidValid(r, i);
    if Adjust(r, i, start, end).Some? {
      var t := Adjust(r, i, start, end).value;
      assert t.kids[i].start == start && t.kids[i].end == end;
      if start <= end {
        AdjustedValid(r, i, start, end);
      } else {
        Inverted(t, i);
      }
    }
  }

  /** Size 0 is accepted, and leaves a resource that ends before it starts. */
  lemma AdjustToNothing()
    ensures var r := Res(0, 0, 9, [Res(1, 3, 5, [])]);
            Valid(r) && Adjust(r, 0, 4, 3).Some? && !Valid(Adjust(r, 0, 4, 3).value)
  {
    var x := Res(1, 3, 5, []);
    assert Valid(x);
    AdjustExact(Res(0, 0, 9, [x]), 0, 4, 3);
  }

  lemma {:induction false} Inverted(t: Res, i: nat)
    requires i < |t.kids| && t.kids[i].start > t.kids[i].end
    ensures !Valid(t)
  {
    if Valid(t) { KidValid(t, i); }
  }

  lemma {:induction false} AdjustedValid(r: Res, i: nat, start: nat, end: nat)
    requires Valid(r) && i < |r.kids| && start <= end && Adjust(r, i, start, end).Some?
    ensures Valid(Adjust(r, i, start, end).value)
  {
    forall k | 0 <= k < |r.kids| ensures r.kids[k].start <= r.kids[k].end { KidValid(r, k); }
    KidValid(r, i);
  }

  /** A resource without a parent has only its children to respect. */
  function AdjustRoot(r: Res, start: nat, end: nat): Option<Res> {
    if exists k | 0 <= k < |r.kids| :: r.kids[k].start < start || r.kids[k].end > end then None
    else Some(r.(start := start, end := end))
  }

  lemma {:induction false} AdjustRootExact(r: Res, start: nat, end: nat)
    requires Valid(r)
    ensures AdjustRoot(r, start, end).Some? <==> forall k | 0 <= k < |r.kids| :: start <= r.kids[k].start && r.kids[k].end <= end
    ensures AdjustRoot(r, start, end).Some? ==> (Valid(AdjustRoot(r, start, end).value) <==> start <= end)
  {
    ValidKids(r);
    if AdjustRoot(r, start, end).Some? { ValidKids(AdjustRoot(r, start, end).value); }
  }
}
