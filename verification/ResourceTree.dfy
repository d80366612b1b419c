/** kernel/resource.c: nested address ranges. A resource's child and sibling links are the sequence of its children. */
module ResourceTree {

  /** struct resource: an inclusive range and the resources inside it. */
  datatype Res = Res(id: int, start: nat, end: nat, kids: seq<Res>)

  ghost predicate Ordered(kids: seq<Res>) {
    forall i, j | 0 <= i < j < |kids| :: kids[i].end < kids[j].start
  }

  /** Children lie inside, in order, apart, and are well formed themselves. */
  ghost predicate Valid(r: Res)
    decreases r
  {
    r.start <= r.end && Ordered(r.kids) &&
    forall i | 0 <= i < |r.kids| :: r.start <= r.kids[i].start && r.kids[i].end <= r.end && Valid(r.kids[i])
  }

  /** Children that would be well formed in [lo, hi]. */
  ghost predicate KidsOk(kids: seq<Res>, lo: nat, hi: nat) {
    Ordered(kids) && forall i | 0 <= i < |kids| :: lo <= kids[i].start && kids[i].end <= hi && Valid(kids[i])
  }

  /** A resource without children. */
  ghost predicate Leaf(x: Res) {
    x.start <= x.end && x.kids == []
  }

  lemma {:induction false} LeafValid(x: Res)
    requires Leaf(x)
    ensures Valid(x)
  {
  }

  lemma {:induction false} ValidKids(r: Res)
    ensures Valid(r) <==> r.start <= r.end && KidsOk(r.kids, r.start, r.end)
  {
  }

  lemma {:induction false} KidValid(r: Res, i: nat)
    requires Valid(r) && i < |r.kids|
    ensures Valid(r.kids[i]) && r.start <= r.kids[i].start <= r.kids[i].end <= r.end
  {
  }

  predicate Overlaps(a: Res, b: Res) {
    a.start <= b.end && b.start <= a.end
  }

  predicate Contains(a: Res, b: Res) {
    a.start <= b.start && b.end <= a.end
  }

  // ---------- __request_resource()

  datatype Place = Slot(at: nat) | Conflict(at: nat)

  /** Where [start, end] goes among the children, or the child it runs into. */
  function Scan(kids: seq<Res>, start: nat, end: nat, i: nat): (p: Place)
    requires i <= |kids|
    ensures i <= p.at <= |kids| && (p.Conflict? ==> p.at < |kids|)
    decreases |kids| - i
  {
    if i == |kids| || kids[i].start > end then Slot(i)
    else if kids[i].end < start then Scan(kids, start, end, i + 1)
    else Conflict(i)
  }

  /** A slot has everything below before it and everything above after it; a conflict is the first overlap. */
  lemma {:induction false} ScanIs(kids: seq<Res>, start: nat, end: nat, i: nat)
    requires i <= |kids| && Ordered(kids) && forall k | 0 <= k < i :: kids[k].end < start
    requires forall k | 0 <= k < |kids| :: kids[k].start <= kids[k].end
    ensures var p := Scan(kids, start, end, i);
            && (forall k | 0 <= k < p.at :: kids[k].end < start)
            && (p.Slot? ==> forall k | p.at <= k < |kids| :: kids[k].start > end)
            && (p.Conflict? ==> kids[p.at].start <= end && start <= kids[p.at].end)
    decreases |kids| - i
  {
    if i < |kids| && kids[i].start <= end && kids[i].end < start {
      ScanIs(kids, start, end, i + 1);
    }
  }

  method FindPlace(kids: seq<Res>, start: nat, end: nat) returns (p: Place)
    ensures p == Scan(kids, start, end, 0)
  {
    var i := 0;
    while true
      invariant i <= |kids| && Scan(kids, start, end, i) == Scan(kids, start, end, 0)
      decreases |kids| - i
    {
      if i == |kids| || kids[i].start > end {
        return Slot(i);
      }
      if kids[i].end < start {
        i := i + 1;
        continue;
      }
      return Conflict(i);
    }
  }

  function InsertAt(kids: seq<Res>, at: nat, x: Res): seq<Res>
    requires at <= |kids|
  {
    kids[..at] + [x] + kids[at..]
  }

  /** The conflicting resource: the parent itself for a bad range, or a child. */
  datatype Outcome = Done(tree: Res) | Busy(conflict: int, with: Place)

  function Request(r: Res, x: Res): Outcome {
    if x.end < x.start || x.start < r.start || x.end > r.end then Busy(r.id, Slot(0))
    else match Scan(r.kids, x.start, x.end, 0)
      case Slot(at) => Done(r.(kids := InsertAt(r.kids, at, x)))
      case Conflict(at) => Busy(r.kids[at].id, Conflict(at))
  }

  lemma {:induction false} InsertOk(kids: seq<Res>, at: nat, x: Res, lo: nat, hi: nat)
    requires KidsOk(kids, lo, hi) && Valid(x) && lo <= x.start && x.end <= hi && at <= |kids|
    requires (forall k | 0 <= k < at :: kids[k].end < x.start) && forall k | at <= k < |kids| :: kids[k].start > x.end
    ensures KidsOk(InsertAt(kids, at, x), lo, hi)
  {
    ValidKids(x);
    SpliceOk(kids, at, at, [x], lo, hi, x.start, x.end);
  }

  ghost predicate Fits(r: Res, x: Res) {
    x.start <= x.end && Contains(r, x) && forall k | 0 <= k < |r.kids| :: !Overlaps(r.kids[k], x)
  }

  /** A request succeeds exactly when the range is a proper one inside the parent that meets no child,
      and then the tree has that one child more. */
  lemma {:induction false} RequestIs(r: Res, x: Res)
    requires Valid(r) && (x.start <= x.end ==> Valid(x))
    ensures Request(r, x).Done? <==> Fits(r, x)
    ensures Request(r, x).Done? ==>
              Valid(Request(r, x).tree) && exists at :: 0 <= at <= |r.kids| && Request(r, x).tree == r.(kids := InsertAt(r.kids, at, x))
  {
    if !(x.end < x.start || x.start < r.start || x.end > r.end) {
      forall k | 0 <= k < |r.kids| ensures r.kids[k].start <= r.kids[k].end { KidValid(r, k); }
      ScanIs(r.kids, x.start, x.end, 0);
      ValidKids(r);
      if Scan(r.kids, x.start, x.end, 0).Slot? {
        InsertOk(r.kids, Scan(r.kids, x.start, x.end, 0).at, x, r.start, r.end);
        ValidKids(Request(r, x).tree);
      }
    }
  }

  // ---------- __release_resource()

  /** Drop child i with what is in it, or let its children take its place. */
  function Release(r: Res, i: nat, withKids: bool): Res
    requires i < |r.kids|
  {
    r.(kids := r.kids[..i] + (if withKids then [] else r.kids[i].kids) + r.kids[i + 1..])
  }

  lemma {:induction false} ReleaseValid(r: Res, i: nat, withKids: bool)
    requires Valid(r) && i < |r.kids|
    ensures Valid(Release(r, i, withKids))
  {
    var x := r.kids[i];
    KidValid(r, i);
    ValidKids(r);
    ValidKids(x);
    var mid := if withKids then [] else x.kids;
    SpliceOk(r.kids, i, i + 1, mid, r.start, r.end, x.start, x.end);
    ValidKids(Release(r, i, withKids));
  }

  /** Replacing children from..to by others that stay within the range those held. */
  lemma SpliceOk(kids: seq<Res>, from: nat, to: nat, mid: seq<Res>, lo: nat, hi: nat, s: nat, e: nat)
    requires KidsOk(kids, lo, hi) && from <= to <= |kids| && KidsOk(mid, s, e) && lo <= s && e <= hi
    requires (forall k | 0 <= k < from :: kids[k].end < s) && forall k | to <= k < |kids| :: e < kids[k].start
    ensures KidsOk(kids[..from] + mid + kids[to..], lo, hi)
  {
    var new_ := kids[..from] + mid + kids[to..];
    forall i | 0 <= i < |new_| ensures new_[i] == Part(kids, from, to, mid, i) {
    }
    SpliceParts(kids, from, to, mid, new_, lo, hi, s, e);
  }

  /** The i-th child after the replacement. */
  function Part(kids: seq<Res>, from: nat, to: nat, mid: seq<Res>, i: nat): Res
    requires from <= to <= |kids| && i < from + |mid| + |kids| - to
  {
    if i < from then kids[i] else if i < from + |mid| then mid[i - from] else kids[i - from - |mid| + to]
  }

  lemma PartInside(kids: seq<Res>, from: nat, to: nat, mid: seq<Res>, i: nat, lo: nat, hi: nat, s: nat, e: nat)
    requires KidsOk(kids, lo, hi) && from <= to <= |kids| && KidsOk(mid, s, e) && lo <= s && e <= hi
    requires i < from + |mid| + |kids| - to
    ensures var p := Part(kids, from, to, mid, i); lo <= p.start && p.end <= hi && Valid(p)
  {
    hide Valid;
  }

  lemma PartsOrdered(kids: seq<Res>, from: nat, to: nat, mid: seq<Res>, i: nat, j: nat, lo: nat, hi: nat, s: nat, e: nat)
    requires KidsOk(kids, lo, hi) && from <= to <= |kids| && KidsOk(mid, s, e)
    requires (forall k | 0 <= k < from :: kids[k].end < s) && forall k | to <= k < |kids| :: e < kids[k].start
    requires i < j < from + |mid| + |kids| - to
    ensures Part(kids, from, to, mid, i).end < Part(kids, from, to, mid, j).start
  {
    hide Valid;
    var m := |mid|;
    if i < from {
      assert kids[i].end < s;
      if from <= j < from + m { assert s <= mid[j - from].start; }
    } else if i < from + m {
      assert mid[i - from].end <= e;
      if j >= from + m { assert e < kids[j - from - m + to].start; }
    }
  }

  lemma SpliceParts(kids: seq<Res>, from: nat, to: nat, mid: seq<Res>, new_: seq<Res>, lo: nat, hi: nat, s: nat, e: nat)
    requires KidsOk(kids, lo, hi) && from <= to <= |kids| && KidsOk(mid, s, e) && lo <= s && e <= hi
    requires (forall k | 0 <= k < from :: kids[k].end < s) && forall k | to <= k < |kids| :: e < kids[k].start
    requires |new_| == from + |mid| + |kids| - to && forall i | 0 <= i < |new_| :: new_[i] == Part(kids, from, to, mid, i)
    ensures KidsOk(new_, lo, hi)
  {
    hide Valid, Part;
    forall i | 0 <= i < |new_| ensures lo <= new_[i].start && new_[i].end <= hi && Valid(new_[i]) {
      PartInside(kids, from, to, mid, i, lo, hi, s, e);
    }
    forall i, j | 0 <= i < j < |new_| ensures new_[i].end < new_[j].start {
      PartsOrdered(kids, from, to, mid, i, j, lo, hi, s, e);
    }
  }
}
