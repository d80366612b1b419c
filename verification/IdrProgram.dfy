/** idr_get_free() as the loop it is: one walk down, climbing back through the parents of full nodes. */
module IdrProgram {
  import opened Options
  import opened IdrTree
  import opened IdrSearch
  import opened IdrRoot

  /** The nodes from the head (level top) to the one being searched, each the child on the way to start. */
  ghost predicate PathOk(path: seq<Node>, top: nat, start: nat) {
    && |path| <= top + 1
    && (forall k | 0 <= k < |path| :: NodeOk(path[k], top - k))
    && (forall k | 0 < k < |path| :: path[k - 1].slots[Digit(start, top - k + 1)] == Inner(path[k]))
  }

  /** Below the last node of the path, the head reads what that node reads. */
  lemma {:induction false} PathReads(path: seq<Node>, top: nat, start: nat, j: nat)
    requires PathOk(path, top, start) && path != [] && Top(start, top + 1) == 0
    requires var h := top - |path| + 1; Top(j, h + 1) == Top(start, h + 1)
    ensures Get(path[0], top, j) == Get(path[|path| - 1], top - |path| + 1, j) && Top(j, top + 1) == 0
    decreases |path|
  {
    hide NodeOk, Top, Get;
    if |path| > 1 {
      var h := top - |path| + 1;
      var up := path[..|path| - 1];
      TopUp(j, h + 1);
      TopUp(start, h + 1);
      assert up[0] == path[0] && up[|up| - 1] == path[|path| - 2];
      PathReads(up, top, start, j);
      GetUnfold(path[|path| - 2], h + 1, j);
    }
  }

  /** The path depends on start only above the last node. */
  lemma {:induction false} PathMoves(path: seq<Node>, top: nat, start: nat, start': nat)
    requires PathOk(path, top, start) && path != []
    requires var h := top - |path| + 1; Top(start', h + 1) == Top(start, h + 1)
    ensures PathOk(path, top, start')
  {
    hide Top;
    var h := top - |path| + 1;
    forall k | 0 < k < |path| ensures path[k - 1].slots[Digit(start', top - k + 1)] == Inner(path[k]) {
      TopAbove(start, start', h + 1, top - k + 1);
    }
  }

  lemma {:induction false} TopAbove(x: nat, y: nat, h: nat, g: nat)
    requires Top(x, h) == Top(y, h) && h <= g
    ensures Top(x, g) == Top(y, g)
    decreases g
  {
    if h < g {
      TopAbove(x, y, h, g - 1);
      TopUp(x, g - 1);
      TopUp(y, g - 1);
    }
  }

  lemma LeastUnique(r: Root, start: nat, max: nat, a: Option<nat>, b: Option<nat>)
    requires IsLeast(r, start, max, a) && IsLeast(r, start, max, b)
    ensures a == b
  {
    hide RootGet;
  }

  /** Everything from start to the next tagged slot of the last node is used. */
  lemma {:induction false} PathSkips(path: seq<Node>, top: nat, start: nat, d2: nat)
    requires PathOk(path, top, start) && path != [] && Top(start, top + 1) == 0
    requires var h := top - |path| + 1; var n := path[|path| - 1];
             Digit(start, h) < d2 <= MAP_SIZE && |n.tags| == MAP_SIZE && forall k | Digit(start, h) <= k < d2 :: !n.tags[k]
    ensures var h := top - |path| + 1;
            RootUsed(Root(Inner(path[0]), true, top), start, NextIndex(start, h, d2)) && start < NextIndex(start, h, d2)
  {
    var h := top - |path| + 1;
    var n := path[|path| - 1];
    var r := Root(Inner(path[0]), true, top);
    SkippedUsed(n, h, start, d2);
    NextInside(start, h, d2);
    hide NodeOk, Top, Get, First;
    forall j: nat | start <= j < NextIndex(start, h, d2) ensures RootGet(r, j).Some? {
      TopMonotone(start, j, h + 1);
      TopBlock(j, Top(start, h + 1) + 1, h + 1);
      PathReads(path, top, start, j);
    }
  }

  /** Coming up from a full node: the end of its block is the start of the parent's next slot. */
  lemma ClimbIndex(start: nat, g: nat)
    ensures NextIndex(start, g, MAP_SIZE) == NextIndex(start, g + 1, Digit(start, g + 1) + 1)
  {
    TopUp(start, g + 1);
  }

  /** What is at start, when the walk stands at its slot in the last node of the path. */
  lemma {:induction false} AtSlot(path: seq<Node>, top: nat, start: nat)
    requires PathOk(path, top, start) && path != [] && Top(start, top + 1) == 0
    ensures var h := top - |path| + 1; var n := path[|path| - 1];
            && |n.slots| == |n.tags| == MAP_SIZE
            && (h > 0 && n.slots[Digit(start, h)].Null? ==> Get(path[0], top, start).None?)
            && (h == 0 && n.tags[Digit(start, h)] ==> Get(path[0], top, start).None?)
            && (h > 0 && !n.slots[Digit(start, h)].Null? ==> n.slots[Digit(start, h)].Inner? && NodeOk(n.slots[Digit(start, h)].n, h - 1))
  {
    var h := top - |path| + 1;
    var n := path[|path| - 1];
    PathReads(path, top, start, start);
    if h > 0 {
      SlotAt(n, h, Digit(start, h));
    }
    hide Top;
  }

  lemma {:induction false} PathDown(path: seq<Node>, top: nat, start: nat, c: Node)
    requires PathOk(path, top, start) && |path| <= top && NodeOk(c, top - |path|)
    requires path != [] ==> |path[|path| - 1].slots| == MAP_SIZE && path[|path| - 1].slots[Digit(start, top - |path| + 1)] == Inner(c)
    ensures PathOk(path + [c], top, start)
  {
    hide NodeOk, Top;
  }

  lemma PathUp(path: seq<Node>, top: nat, start: nat)
    requires PathOk(path, top, start) && path != []
    ensures PathOk(path[..|path| - 1], top, start)
  {
    hide NodeOk, Top;
  }

  /** After a jump to slot d2 of the last node. */
  lemma Jumped(path: seq<Node>, top: nat, was: nat, d2: nat)
    requires PathOk(path, top, was) && path != [] && Top(was, top + 1) == 0
    requires var h := top - |path| + 1; Digit(was, h) < d2 < MAP_SIZE
    ensures var h := top - |path| + 1; var start := NextIndex(was, h, d2);
            PathOk(path, top, start) && Digit(start, h) == d2 && Top(start, top + 1) == 0
  {
    var h := top - |path| + 1;
    var start := NextIndex(was, h, d2);
    NextInside(was, h, d2);
    TopUp(start, h);
    hide Top, NodeOk, NextIndex;
    PathMoves(path, top, was, start);
    TopAbove(was, start, h + 1, top + 1);
  }

  method Walk(r: Root, start0: nat, max: nat) returns (out: Outcome)
    requires r.head.Inner? && NodeOk(r.head.n, r.level) && Covers(r.level, start0) && start0 <= max
    ensures match out
            case Found(i) => start0 <= i <= max && RootGet(r, i).None? && RootUsed(r, start0, i)
            case Full(next) => start0 < next <= max && next == First(1, r.level + 1) && RootUsed(r, start0, next)
            case NoSpace => RootUsed(r, start0, max + 1)
  {
    hide NodeOk, Top, First, Get, RootGet, RootUsed, PathOk, Digit, NextIndex;
    var top := r.level;
    var path: seq<Node> := [];
    var child := r.head;
    var h := top + 1;
    var start := start0;
    StartPath(top, start, r);
    while h > 0
      invariant |path| + h == top + 1 && PathOk(path, top, start)
      invariant start0 <= start <= max && Covers(top, start) && RootUsed(r, start0, start)
      invariant path == [] ==> child == r.head
      invariant path != [] ==> path[0] == r.head.n && |path[|path| - 1].slots| == MAP_SIZE && child == path[|path| - 1].slots[Digit(start, h)]
      invariant h == 0 ==> |path[top].tags| == MAP_SIZE && path[top].tags[Digit(start, 0)]
      decreases First(1, top + 1) - start, h
    {
      h := h - 1;
      CoveredBlock(top, start);
      if path != [] {
        AtSlot(path, top, start);
        HeadReads(r, start);
      }
      if child.Null? {
        return Found(start);
      }
      PathDown(path, top, start, child.n);
      path := path + [child.n];
      AtSlot(path, top, start);
      var d := Digit(start, h);
      if path[|path| - 1].tags[d] {
        child := path[|path| - 1].slots[d];
      } else {
        var d2: nat := NextTag(path[|path| - 1].tags, d + 1);
        var was := start;
        PathSkips(path, top, was, d2);
        start := NextIndex(was, h, d2);
        SkipReads(r, start0, was, start, max);
        if start > max {
          return NoSpace;
        }
        while d2 == MAP_SIZE
          invariant path != [] && path[0] == r.head.n && |path| + h == top + 1 && PathOk(path, top, was)
          invariant start == NextIndex(was, h, d2) && Digit(was, h) < d2 <= MAP_SIZE
          invariant h == 0 && d2 < MAP_SIZE ==> |path[top].tags| == MAP_SIZE && path[top].tags[d2]
          decreases |path|
        {
          PathUp(path, top, was);
          path := path[..|path| - 1];
          if path == [] {
            EndOfTree(top, was);
            return Full(start);
          }
          ClimbIndex(was, h);
          h := h + 1;
          d2 := Digit(was, h) + 1;
        }
        Jumped(path, top, was, d2);
        AtSlot(path, top, start);
        child := path[|path| - 1].slots[d2];
      }
    }
    AtSlot(path, top, start);
    HeadReads(r, start);
    return Found(start);
  }

  lemma StartPath(top: nat, start: nat, r: Root)
    ensures PathOk([], top, start) && RootUsed(r, start, start)
  {
  }

  lemma {:induction false} HeadReads(r: Root, start: nat)
    requires r.head.Inner? && Covers(r.level, start)
    ensures RootGet(r, start) == Get(r.head.n, r.level, start)
  {
  }

  lemma {:induction false} EndOfTree(top: nat, was: nat)
    requires Covers(top, was)
    ensures NextIndex(was, top, MAP_SIZE) == First(1, top + 1)
  {
    assert 64 * Top(was, top + 1) + MAP_SIZE == 64 * 1;
  }

  /** Used up to was and from was to start. */
  lemma SkipReads(r: Root, start0: nat, was: nat, start: nat, max: nat)
    requires r.head.Inner? && start0 <= was <= start && was <= max
    requires RootUsed(r, start0, was) && RootUsed(Root(Inner(r.head.n), true, r.level), was, start)
    ensures RootUsed(r, start0, start)
    ensures start > max ==> RootUsed(r, start0, max + 1)
  {
    hide Get, Top;
    assert Root(Inner(r.head.n), true, r.level) == r.(free := true);
    forall j: nat | was <= j < start ensures RootGet(r, j).Some? {
      assert RootGet(Root(Inner(r.head.n), true, r.level), j).Some?;
    }
  }

  /** idr_get_free(), from the choice of where to start to the restart past a full tree. */
  method FindFree(r: Root, start0: nat, max: nat) returns (o: Option<nat>)
    requires RootOk(r)
    ensures IsLeast(r, start0, max, o) && o == GetFree(r, start0, max)
  {
    hide NodeOk, Top, First, Get, RootGet, GetFree, Prepared, RootOk, IsLeast;
    var start := start0;
    GetFreeIsLeast(r, start0, max);
    StartPath(0, start, r);
    while true
      invariant start0 <= start && RootUsed(r, start0, start)
      decreases max - start
    {
      SkippedByRoot(r, start);
      UsedJoin(r, start0, start, From(r, start), max);
      start := From(r, start);
      if start > max {
        o := None;
        LeastIs(r, start0, max, o);
        return;
      }
      var r1 := Prepared(r, start);
      PreparedOk(r, start);
      var out := Walk(r1, start, max);
      match out
      case Found(i) =>
        UsedSame(r, r1, start, i);
        UsedJoin(r, start0, start, i, max);
        o := Some(i);
        LeastIs(r, start0, max, o);
        return;
      case NoSpace =>
        UsedSame(r, r1, start, max + 1);
        UsedJoin(r, start0, start, max + 1, max);
        o := None;
        LeastIs(r, start0, max, o);
        return;
      case Full(next) =>
        UsedSame(r, r1, start, next);
        UsedJoin(r, start0, start, next, max);
        start := next;
    }
  }

  lemma UsedJoin(r: Root, a: nat, b: nat, c: nat, max: nat)
    requires a <= b <= c && RootUsed(r, a, b) && RootUsed(r, b, c)
    ensures RootUsed(r, a, c) && (c > max ==> RootUsed(r, a, max + 1))
  {
    hide RootGet;
  }

  lemma UsedSame(r: Root, r1: Root, a: nat, b: nat)
    requires SameReads(r, r1) && RootUsed(r1, a, b)
    ensures RootUsed(r, a, b) && RootGet(r, b) == RootGet(r1, b)
  {
    hide RootGet;
  }

  lemma {:induction false} LeastIs(r: Root, start: nat, max: nat, o: Option<nat>)
    requires RootOk(r)
    requires if o.Some? then start <= o.value <= max && RootGet(r, o.value).None? && RootUsed(r, start, o.value)
             else RootUsed(r, start, max + 1)
    ensures IsLeast(r, start, max, o) && o == GetFree(r, start, max)
  {
    GetFreeIsLeast(r, start, max);
    LeastUnique(r, start, max, o, GetFree(r, start, max));
  }
}
