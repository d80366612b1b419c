/** Runs of resource calls anywhere in a tree: what every one of them keeps. */
module ResourceRuns {
  import I = ResourceInsert
  import F = ResourceFind
  import opened Numbers
  import opened Options
  import opened ResourceTree

  /** A call on a resource: on the children i of it, or adding a child. */
  datatype Op =
    | Request(x: Res)
    | Insert(x: Res)
    | Adjust(i: nat, start: nat, size: nat)
    | Release(i: nat, withKids: bool)
    | Allocate(id: int, w: F.Want)
    | Reallocate(i: nat, w: F.Want)

  /** A call on the resource at the end of a path, or the adjustment of the root. */
  datatype Call = At(path: seq<nat>, op: Op) | AdjustRoot(start: nat, size: nat)

  /** start + size - 1 */
  function EndOf(start: nat, size: nat): nat
    requires start < U64 && size < U64
  {
    F.Wrap(start + size - 1)
  }

  /** A new range that is one: not empty and not past the last address. */
  predicate ProperRange(start: nat, size: nat) {
    start < U64 && size < U64 && start <= EndOf(start, size)
  }

  /** What the caller sees to: 64-bit numbers, a well formed resource to request, an empty one to insert, and a
      proper range to adjust to. */
  ghost predicate Callable(op: Op) {
    match op
    case Request(x) => x.end < U64 && x.start < U64 && (x.start <= x.end ==> Valid(x))
    case Insert(x) => x.end < U64 && x.start < U64 && x.kids == []
    case Adjust(_, start, size) => ProperRange(start, size)
    case Release(_, _) => true
    case Allocate(_, w) => F.In64(w)
    case Reallocate(_, w) => F.In64(w)
  }

  /** A tree of 64-bit ranges. */
  ghost predicate Good(r: Res) {
    Valid(r) && r.end < U64
  }

  lemma GoodSmall(r: Res)
    requires Good(r)
    ensures F.Small(r) && r.start < U64
  {
    F.ValidSmall(r);
  }

  /** The tree after the call; a call that fails changes nothing. */
  ghost function Do(r: Res, op: Op): Res
    requires Good(r) && Callable(op)
  {
    GoodSmall(r);
    match op
    case Request(x) => (match ResourceTree.Request(r, x) case Done(t) => t case Busy(_, _) => r)
    case Insert(x) => (match I.Insert(r, x) case Some(t) => t case None => r)
    case Adjust(i, start, size) =>
      if i >= |r.kids| then r
      else (match I.Adjust(r, i, start, EndOf(start, size)) case Some(t) => t case None => r)
    case Release(i, withKids) => if i >= |r.kids| then r else ResourceTree.Release(r, i, withKids)
    case Allocate(id, w) => (match F.Allocate(r, id, w) case Some(t) => t case None => r)
    case Reallocate(i, w) =>
      if i >= |r.kids| then r
      else (match F.Reallocate(r, i, w)
            case InPlace(t) => t case Elsewhere(t) => t case NoRoom => r case HasChildren => r)
  }

  // ---------- one call

  /** Well formed, and the same resource with the same range. */
  ghost predicate Keeps(r: Res, t: Res) {
    Good(t) && t.start == r.start && t.end == r.end && t.id == r.id
  }

  lemma RequestKeeps(r: Res, x: Res)
    requires Good(r) && Callable(Request(x))
    ensures Keeps(r, Do(r, Request(x)))
  {
    hide Valid;
    RequestIs(r, x);
  }

  lemma InsertKeeps(r: Res, x: Res)
    requires Good(r) && Callable(Insert(x))
    ensures Keeps(r, Do(r, Insert(x)))
  {
    hide Valid;
    if I.Insert(r, x).Some? {
      InsertIsProper(r, x);
      I.InsertValid(r, x);
    }
  }

  /** A range that ends before it starts is never inserted. */
  lemma {:induction false} InsertIsProper(r: Res, x: Res)
    requires I.Insert(r, x).Some?
    ensures x.start <= x.end
  {
  }

  lemma AdjustKeeps(r: Res, i: nat, start: nat, size: nat)
    requires Good(r) && Callable(Adjust(i, start, size))
    ensures Keeps(r, Do(r, Adjust(i, start, size)))
  {
    hide Valid;
    if i < |r.kids| { I.AdjustExact(r, i, start, EndOf(start, size)); }
  }

  lemma ReleaseKeeps(r: Res, i: nat, withKids: bool)
    requires Good(r)
    ensures Keeps(r, Do(r, Release(i, withKids)))
  {
    hide Valid;
    if i < |r.kids| { ReleaseValid(r, i, withKids); }
  }

  lemma AllocateKeeps(r: Res, id: int, w: F.Want)
    requires Good(r) && F.In64(w)
    ensures Keeps(r, Do(r, Allocate(id, w)))
  {
    hide Valid, F.Find;
    GoodSmall(r);
    F.AllocateExact(r, id, w);
  }

  lemma ReallocateKeeps(r: Res, i: nat, w: F.Want)
    requires Good(r) && F.In64(w)
    ensures Keeps(r, Do(r, Reallocate(i, w)))
  {
    hide Valid, F.Find;
    GoodSmall(r);
    if i < |r.kids| { F.ReallocateExact(r, i, w); }
  }

  lemma DoKeeps(r: Res, op: Op)
    requires Good(r) && Callable(op)
    ensures Keeps(r, Do(r, op))
  {
    hide Do, Keeps, Good;
    match op
    case Request(x) => RequestKeeps(r, x);
    case Insert(x) => InsertKeeps(r, x);
    case Adjust(i, start, size) => AdjustKeeps(r, i, start, size);
    case Release(i, withKids) => ReleaseKeeps(r, i, withKids);
    case Allocate(id, w) => AllocateKeeps(r, id, w);
    case Reallocate(i, w) => ReallocateKeeps(r, i, w);
  }

  // ---------- anywhere in the tree

  lemma GoodKid(r: Res, i: nat)
    requires Good(r) && i < |r.kids|
    ensures Good(r.kids[i])
  {
    KidValid(r, i);
  }

  ghost function DoAt(r: Res, path: seq<nat>, op: Op): Res
    requires Good(r) && Callable(op)
    decreases path
  {
    if path == [] then Do(r, op)
    else if path[0] >= |r.kids| then r
    else
      GoodKid(r, path[0]);
      r.(kids := r.kids[path[0] := DoAt(r.kids[path[0]], path[1..], op)])
  }

  lemma {:induction false} DoAtKeeps(r: Res, path: seq<nat>, op: Op)
    requires Good(r) && Callable(op)
    ensures Keeps(r, DoAt(r, path, op))
    decreases path
  {
    hide Valid, Do;
    if path == [] {
      DoKeeps(r, op);
    } else if path[0] < |r.kids| {
      GoodKid(r, path[0]);
      DoAtKeeps(r.kids[path[0]], path[1..], op);
      I.ReplaceKid(r, path[0], DoAt(r.kids[path[0]], path[1..], op));
    }
  }

  ghost predicate CallOk(c: Call) {
    match c
    case At(_, op) => Callable(op)
    case AdjustRoot(start, size) => ProperRange(start, size)
  }

  ghost function Step(r: Res, c: Call): Res
    requires Good(r) && CallOk(c)
  {
    match c
    case At(path, op) => DoAt(r, path, op)
    case AdjustRoot(start, size) => (match I.AdjustRoot(r, start, EndOf(start, size)) case Some(t) => t case None => r)
  }

  lemma StepKeeps(r: Res, c: Call)
    requires Good(r) && CallOk(c)
    ensures Good(Step(r, c)) && (c.At? ==> Keeps(r, Step(r, c)))
  {
    hide Valid, DoAt;
    match c
    case At(path, op) => DoAtKeeps(r, path, op);
    case AdjustRoot(start, size) => I.AdjustRootExact(r, start, EndOf(start, size));
  }

  // ---------- runs

  /** states[k + 1] is what call k makes of states[k]. */
  ghost predicate IsRun(states: seq<Res>, calls: seq<Call>) {
    && |states| == |calls| + 1
    && forall k | 0 <= k < |calls| :: Good(states[k]) ==> CallOk(calls[k]) && After(states, k) == Step(states[k], calls[k])
  }

  ghost function After(states: seq<Res>, k: nat): Res
    requires k + 1 < |states|
  {
    states[k + 1]
  }

  /** In every state of every run of requests, insertions, adjustments, releases, removals, allocations and moves,
      at any depth, the tree is ordered and nested. */
  lemma {:induction false} RunValid(states: seq<Res>, calls: seq<Call>, k: nat)
    requires IsRun(states, calls) && Good(states[0]) && k < |states|
    ensures Good(states[k])
    ensures (forall j | 0 <= j < k :: calls[j].At?) ==> Keeps(states[0], states[k])
    decreases k
  {
    hide Valid, Step, CallOk;
    if k > 0 {
      RunValid(states, calls, k - 1);
      assert After(states, k - 1) == states[k];
      StepKeeps(states[k - 1], calls[k - 1]);
    }
  }

  // ---------- which resources there are

  /** The ids of a resource and of everything in it. */
  ghost function Ids(r: Res): multiset<int>
    decreases r
  {
    multiset{r.id} + ListIds(r.kids)
  }

  ghost function ListIds(kids: seq<Res>): multiset<int>
    decreases kids
  {
    if kids == [] then multiset{} else Ids(kids[0]) + ListIds(kids[1..])
  }

  lemma {:induction false} ListJoin(a: seq<Res>, b: seq<Res>)
    ensures ListIds(a + b) == ListIds(a) + ListIds(b)
  {
    if a == [] {
      assert a + b == b;
    } else {
      assert (a + b)[0] == a[0] && (a + b)[1..] == a[1..] + b;
      ListJoin(a[1..], b);
    }
  }

  lemma {:induction false} ListOne(x: Res)
    ensures ListIds([x]) == Ids(x)
  {
    assert [x][1..] == [];
  }

  lemma {:induction false} ListThree(a: seq<Res>, b: seq<Res>, c: seq<Res>)
    ensures ListIds(a + b + c) == ListIds(a) + ListIds(b) + ListIds(c)
  {
    hide ListIds;
    ListJoin(a + b, c);
    ListJoin(a, b);
  }

  lemma Mixed(a: multiset<int>, b: multiset<int>, c: multiset<int>, m: multiset<int>)
    ensures a + m + c + b == a + b + c + m
  {
  }

  /** Children i to to replaced by other resources. */
  lemma {:induction false} SpliceIds(kids: seq<Res>, i: nat, to: nat, mid: seq<Res>)
    requires i <= to <= |kids|
    ensures ListIds(kids[..i] + mid + kids[to..]) + ListIds(kids[i..to]) == ListIds(kids) + ListIds(mid)
  {
    hide ListIds;
    ListThree(kids[..i], mid, kids[to..]);
    ListThree(kids[..i], kids[i..to], kids[to..]);
    assert kids[..i] + kids[i..to] + kids[to..] == kids;
    Mixed(ListIds(kids[..i]), ListIds(kids[i..to]), ListIds(kids[to..]), ListIds(mid));
  }

  lemma {:induction false} ReplaceIds(kids: seq<Res>, i: nat, x: Res)
    requires i < |kids|
    ensures ListIds(kids[i := x]) + Ids(kids[i]) == ListIds(kids) + Ids(x)
  {
    hide ListIds, Ids;
    SpliceIds(kids, i, i + 1, [x]);
    assert kids[i := x] == kids[..i] + [x] + kids[i + 1..];
    assert kids[i..i + 1] == [kids[i]];
    ListOne(x);
    ListOne(kids[i]);
  }

  lemma Cancelled(l': multiset<int>, kid: multiset<int>, l: multiset<int>, kid': multiset<int>, gain: multiset<int>, loss: multiset<int>)
    requires kid' + loss == kid + gain && l' + kid == l + kid'
    ensures l' + loss == l + gain
  {
    forall e: int ensures l'[e] + loss[e] == l[e] + gain[e] {
      assert (kid' + loss)[e] == (kid + gain)[e] && (l' + kid)[e] == (l + kid')[e];
    }
  }

  lemma Prefixed(i: multiset<int>, l': multiset<int>, l: multiset<int>, gain: multiset<int>, loss: multiset<int>)
    requires l' + loss == l + gain
    ensures i + l' + loss == i + l + gain
  {
    assert i + l' + loss == i + (l' + loss) && i + l + gain == i + (l + gain);
  }

  /** What a call adds to the tree, and what it takes out. */
  ghost function Gain(r: Res, op: Op): multiset<int>
    requires Good(r) && Callable(op)
  {
    GoodSmall(r);
    match op
    case Request(x) => if ResourceTree.Request(r, x).Done? then Ids(x) else multiset{}
    case Insert(x) => if I.Insert(r, x).Some? then multiset{x.id} else multiset{}
    case Allocate(id, w) => if F.Allocate(r, id, w).Some? then multiset{id} else multiset{}
    case _ => multiset{}
  }

  ghost function Loss(r: Res, op: Op): multiset<int> {
    match op
    case Release(i, withKids) =>
      if i >= |r.kids| then multiset{} else if withKids then Ids(r.kids[i]) else multiset{r.kids[i].id}
    case _ => multiset{}
  }

  ghost predicate Balanced(r: Res, t: Res, gain: multiset<int>, loss: multiset<int>) {
    Ids(t) + loss == Ids(r) + gain
  }

  /** It is enough to look at the children. */
  lemma {:induction false} KidsBalanced(r: Res, kids: seq<Res>, gain: multiset<int>, loss: multiset<int>)
    requires ListIds(kids) + loss == ListIds(r.kids) + gain
    ensures Balanced(r, r.(kids := kids), gain, loss)
  {
    hide ListIds;
    Prefixed(multiset{r.id}, ListIds(kids), ListIds(r.kids), gain, loss);
  }

  /** A child that is balanced by itself. */
  lemma KidBalanced(r: Res, i: nat, f: Res, gain: multiset<int>, loss: multiset<int>)
    requires i < |r.kids| && Balanced(r.kids[i], f, gain, loss)
    ensures Balanced(r, r.(kids := r.kids[i := f]), gain, loss)
  {
    hide ListIds, Ids;
    ReplaceIds(r.kids, i, f);
    Cancelled(ListIds(r.kids[i := f]), Ids(r.kids[i]), ListIds(r.kids), Ids(f), gain, loss);
    KidsBalanced(r, r.kids[i := f], gain, loss);
  }

  /** Children i to to replaced by others. */
  lemma {:induction false} SpliceBalanced(r: Res, i: nat, to: nat, mid: seq<Res>)
    requires i <= to <= |r.kids|
    ensures Balanced(r, r.(kids := r.kids[..i] + mid + r.kids[to..]), ListIds(mid), ListIds(r.kids[i..to]))
  {
    hide ListIds, Ids, Balanced;
    SpliceIds(r.kids, i, to, mid);
    KidsBalanced(r, r.kids[..i] + mid + r.kids[to..], ListIds(mid), ListIds(r.kids[i..to]));
  }

  /** What is both added and taken out does not count. */
  lemma Netted(r: Res, t: Res, gain: multiset<int>, loss: multiset<int>, both: multiset<int>)
    requires Balanced(r, t, gain + both, loss + both)
    ensures Balanced(r, t, gain, loss)
  {
    hide Ids;
    forall e: int ensures Ids(t)[e] + loss[e] == Ids(r)[e] + gain[e] {
      assert (Ids(t) + (loss + both))[e] == (Ids(r) + (gain + both))[e];
    }
  }

  lemma NoIds()
    ensures ListIds([]) == multiset{}
  {
  }

  lemma {:induction false} LeafIds(x: Res)
    requires x.kids == []
    ensures Ids(x) == multiset{x.id}
  {
  }

  lemma {:induction false} RequestBalanced(r: Res, x: Res)
    requires ResourceTree.Request(r, x).Done?
    ensures Balanced(r, ResourceTree.Request(r, x).tree, Ids(x), multiset{})
  {
    hide ListIds, Ids, Balanced;
    var at := Scan(r.kids, x.start, x.end, 0).at;
    SpliceBalanced(r, at, at, [x]);
    ListOne(x);
    assert r.kids[at..at] == [];
    NoIds();
    assert InsertAt(r.kids, at, x) == r.kids[..at] + [x] + r.kids[at..];
  }

  lemma {:induction false} InsertBalanced(r: Res, x: Res)
    requires I.Insert(r, x).Some? && x.kids == []
    ensures Balanced(r, I.Insert(r, x).value, multiset{x.id}, multiset{})
    decreases r
  {
    hide ListIds, Ids, Scan, Balanced;
    if ResourceTree.Request(r, x).Done? {
      RequestBalanced(r, x);
      LeafIds(x);
    } else {
      var at := ResourceTree.Request(r, x).with.at;
      if I.StrictlyInside(x, r.kids[at]) {
        InsertBalanced(r.kids[at], x);
        KidBalanced(r, at, I.Insert(r.kids[at], x).value, multiset{x.id}, multiset{});
      } else {
        AdoptBalanced(r, at, I.RunTo(r.kids, at, x.end), x);
      }
    }
  }

  lemma AdoptBalanced(r: Res, at: nat, to: nat, x: Res)
    requires at <= to <= |r.kids|
    ensures Balanced(r, r.(kids := r.kids[..at] + [x.(kids := r.kids[at..to])] + r.kids[to..]), multiset{x.id}, multiset{})
  {
    hide ListIds, Balanced;
    var y := x.(kids := r.kids[at..to]);
    SpliceBalanced(r, at, to, [y]);
    ListOne(y);
    assert multiset{} + ListIds(y.kids) == ListIds(y.kids);
    Netted(r, r.(kids := r.kids[..at] + [y] + r.kids[to..]), multiset{x.id}, multiset{}, ListIds(y.kids));
  }

  lemma ReleaseBalanced(r: Res, i: nat, withKids: bool)
    requires i < |r.kids|
    ensures Balanced(r, ResourceTree.Release(r, i, withKids), multiset{}, Loss(r, Release(i, withKids)))
  {
    hide ListIds, Balanced;
    var x := r.kids[i];
    var mid := if withKids then [] else x.kids;
    SpliceBalanced(r, i, i + 1, mid);
    assert r.kids[i..i + 1] == [x];
    ListOne(x);
    NoIds();
    if !withKids {
      assert multiset{} + ListIds(x.kids) == ListIds(x.kids);
      Netted(r, ResourceTree.Release(r, i, false), multiset{}, multiset{x.id}, ListIds(x.kids));
    }
  }

  lemma RangedBalanced(r: Res, i: nat, s: nat, e: nat)
    requires i < |r.kids|
    ensures Balanced(r, r.(kids := r.kids[i := r.kids[i].(start := s, end := e)]), multiset{}, multiset{})
  {
    hide ListIds;
    KidBalanced(r, i, r.kids[i].(start := s, end := e), multiset{}, multiset{});
  }

  lemma RelocateBalanced(r: Res, i: nat, s: nat, e: nat)
    requires i < |r.kids|
    ensures var m := F.Relocate(r, i, s, e); m.InPlace? || m.Elsewhere? ==> Balanced(r, m.tree, multiset{}, multiset{})
  {
    hide ListIds, Scan, Ids, ResourceTree.Request, ResourceTree.Release;
    RangedBalanced(r, i, s, e);
    if F.Relocate(r, i, s, e).Elsewhere? {
      var x := r.kids[i].(start := s, end := e);
      RequestBalanced(ResourceTree.Release(r, i, true), x);
      ReleaseBalanced(r, i, true);
      LeafIds(x);
      LeafIds(r.kids[i]);
    }
  }

  /** No call loses, duplicates or invents a resource. */
  lemma DoBalanced(r: Res, op: Op)
    requires Good(r) && Callable(op)
    ensures Balanced(r, Do(r, op), Gain(r, op), Loss(r, op))
  {
    hide Ids, Valid, ResourceTree.Request, I.Insert, I.Adjust, F.Find, F.Relocate, ResourceTree.Release;
    GoodSmall(r);
    match op
    case Request(x) => if ResourceTree.Request(r, x).Done? { RequestBalanced(r, x); }
    case Insert(x) => if I.Insert(r, x).Some? { InsertBalanced(r, x); }
    case Adjust(i, start, size) =>
      if i < |r.kids| {
        RangedBalanced(r, i, start, EndOf(start, size));
        AdjustIs(r, i, start, EndOf(start, size));
      }
    case Release(i, withKids) => if i < |r.kids| { ReleaseBalanced(r, i, withKids); }
    case Allocate(id, w) => if F.Allocate(r, id, w).Some? { AllocateBalanced(r, id, w); }
    case Reallocate(i, w) =>
      if i < |r.kids| && F.Find(r, i, w).Some? {
        RelocateBalanced(r, i, F.Find(r, i, w).value, F.LastOf(F.Find(r, i, w).value, w));
      }
  }

  lemma AllocateBalanced(r: Res, id: int, w: F.Want)
    requires F.Small(r) && r.start < U64 && F.In64(w) && F.Allocate(r, id, w).Some?
    ensures Balanced(r, F.Allocate(r, id, w).value, multiset{id}, multiset{})
  {
    hide F.Find;
    var s := F.Find(r, -1, w).value;
    var x := Res(id, s, F.LastOf(s, w), []);
    hide Ids, ResourceTree.Request;
    RequestBalanced(r, x);
    LeafIds(x);
  }

  lemma AdjustIs(r: Res, i: nat, start: nat, end: nat)
    requires i < |r.kids|
    ensures I.Adjust(r, i, start, end) == None || I.Adjust(r, i, start, end) == Some(r.(kids := r.kids[i := r.kids[i].(start := start, end := end)]))
  {
  }

  /** The resource a path leads to, if there is one. */
  ghost function Target(r: Res, path: seq<nat>): Option<Res>
    decreases path
  {
    if path == [] then Some(r) else if path[0] >= |r.kids| then None else Target(r.kids[path[0]], path[1..])
  }

  lemma {:induction false} TargetGood(r: Res, path: seq<nat>)
    requires Good(r) && Target(r, path).Some?
    ensures Good(Target(r, path).value)
    decreases path
  {
    if path != [] {
      GoodKid(r, path[0]);
      TargetGood(r.kids[path[0]], path[1..]);
    }
  }

  ghost function CallGain(r: Res, c: Call): multiset<int>
    requires Good(r) && CallOk(c)
  {
    if c.At? && Target(r, c.path).Some? then TargetGood(r, c.path); Gain(Target(r, c.path).value, c.op) else multiset{}
  }

  ghost function CallLoss(r: Res, c: Call): multiset<int> {
    if c.At? && Target(r, c.path).Some? then Loss(Target(r, c.path).value, c.op) else multiset{}
  }

  lemma {:induction false} DoAtBalanced(r: Res, path: seq<nat>, op: Op)
    requires Good(r) && Callable(op)
    ensures Balanced(r, DoAt(r, path, op), CallGain(r, At(path, op)), CallLoss(r, At(path, op)))
    decreases path
  {
    hide Ids, Valid, Do, Gain, Loss;
    if path == [] {
      DoBalanced(r, op);
    } else if path[0] < |r.kids| {
      GoodKid(r, path[0]);
      var t := DoAt(r.kids[path[0]], path[1..], op);
      DoAtBalanced(r.kids[path[0]], path[1..], op);
      KidBalanced(r, path[0], t, CallGain(r.kids[path[0]], At(path[1..], op)), CallLoss(r.kids[path[0]], At(path[1..], op)));
    }
  }

  lemma StepBalanced(r: Res, c: Call)
    requires Good(r) && CallOk(c)
    ensures Balanced(r, Step(r, c), CallGain(r, c), CallLoss(r, c))
  {
    match c
    case At(path, op) => DoAtBalanced(r, path, op);
    case AdjustRoot(start, size) =>
  }

  /** Everything the first k calls of a run have added, and everything they have taken out. */
  ghost function Gained(states: seq<Res>, calls: seq<Call>, k: nat): multiset<int>
    requires IsRun(states, calls) && Good(states[0]) && k < |states|
  {
    if k == 0 then multiset{}
    else RunValid(states, calls, k - 1); Gained(states, calls, k - 1) + CallGain(states[k - 1], calls[k - 1])
  }

  ghost function Lost(states: seq<Res>, calls: seq<Call>, k: nat): multiset<int>
    requires IsRun(states, calls) && k < |states|
  {
    if k == 0 then multiset{} else Lost(states, calls, k - 1) + CallLoss(states[k - 1], calls[k - 1])
  }

  lemma Chained(now: multiset<int>, lost: multiset<int>, loss: multiset<int>, before: multiset<int>,
                first: multiset<int>, gained: multiset<int>, gain: multiset<int>)
    requires now + loss == before + gain && before + lost == first + gained
    ensures now + (lost + loss) == first + (gained + gain)
  {
    forall e: int ensures now[e] + (lost[e] + loss[e]) == first[e] + (gained[e] + gain[e]) {
      assert (now + loss)[e] == (before + gain)[e] && (before + lost)[e] == (first + gained)[e];
    }
  }

  /** At any time the tree holds exactly what it held at first and what was added, less what was taken out. */
  lemma {:induction false} RunBalanced(states: seq<Res>, calls: seq<Call>, k: nat)
    requires IsRun(states, calls) && Good(states[0]) && k < |states|
    ensures Ids(states[k]) + Lost(states, calls, k) == Ids(states[0]) + Gained(states, calls, k)
    decreases k
  {
    hide Ids, Valid, Step, CallOk, CallGain, CallLoss;
    if k > 0 {
      RunBalanced(states, calls, k - 1);
      RunValid(states, calls, k - 1);
      assert After(states, k - 1) == states[k];
      StepBalanced(states[k - 1], calls[k - 1]);
      Chained(Ids(states[k]), Lost(states, calls, k - 1), CallLoss(states[k - 1], calls[k - 1]), Ids(states[k - 1]),
              Ids(states[0]), Gained(states, calls, k - 1), CallGain(states[k - 1], calls[k - 1]));
    }
  }
}
