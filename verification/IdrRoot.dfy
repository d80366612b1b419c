/** The tree's root: growing, shrinking, and the operations of an IDR on indices. */
module IdrRoot {
  import opened Options
  import opened IdrTree
  import opened IdrSearch

  /** xa_head, the root's own free tag, and the height (shift / 6) of the head node. */
  datatype Root = Root(head: Entry, free: bool, level: nat)

  const EMPTY: Root := Root(Null, true, 0)

  /** Every index the head node reaches. */
  predicate Covers(level: nat, i: nat) {
    Top(i, level + 1) == 0
  }

  /** radix_tree_shrink() would stop at once. */
  predicate Minimal(n: Node, level: nat) {
    level > 0 ==> !(n.count == 1 && |n.slots| > 0 && n.slots[0].Inner?)
  }

  /** Well formed, but for the height. */
  ghost predicate RootShape(r: Root) {
    match r.head
    case Null => r.free
    case Ptr(_) => false
    case Inner(n) => NodeOk(n, r.level) && n.count > 0 && r.free == AnyTag(n.tags)
  }

  ghost predicate RootOk(r: Root) {
    RootShape(r) && (r.head.Inner? ==> Minimal(r.head.n, r.level))
  }

  /** The pointer stored for index i, if i is in use. */
  function RootGet(r: Root, i: nat): Option<nat> {
    if r.head.Inner? && Covers(r.level, i) then Get(r.head.n, r.level, i) else None
  }

  ghost predicate SameReads(a: Root, b: Root) {
    forall i: nat :: RootGet(a, i) == RootGet(b, i)
  }

  // ---------- growing

  /** The height of a new head node over i. */
  function LevelFor(i: nat, h: nat): (level: nat)
    ensures level >= h && Covers(level, i)
    ensures level > h ==> !Covers(level - 1, i)
    decreases i - First(1, h)
  {
    TopBlock(i, 1, h + 1); FirstGrows(h);
    if Covers(h, i) then h else LevelFor(i, h + 1)
  }

  lemma {:induction false} FirstGrows(h: nat)
    ensures First(1, h) < First(1, h + 1)
  {
    TopFirst(64, h);
    TopBlock(First(64, h), 1, h);
    TopFirst(1, h);
    assert First(1, h + 1) == First(64, h);
    TopBlock(First(1, h), 64, h);
  }

  /** A node over the old head. */
  function Wrap(r: Root): Node {
    Node(Repeat(Null, MAP_SIZE)[0 := r.head], Repeat(true, MAP_SIZE)[0 := r.free], 1)
  }

  /** radix_tree_extend() on a tree with a head node. */
  function Extend(r: Root, i: nat): Root
    decreases i - First(1, r.level)
  {
    TopBlock(i, 1, r.level + 1); FirstGrows(r.level);
    if Covers(r.level, i) then r
    else Extend(Root(Inner(Wrap(r)), true, r.level + 1), i)
  }

  lemma WrapShape(r: Root)
    requires RootShape(r) && r.head.Inner?
    ensures RootShape(Root(Inner(Wrap(r)), true, r.level + 1)) && NodeOk(Wrap(r), r.level + 1)
  {
    hide Get, Top;
    FreshOk(r.level + 1);
    ReplaceSlot(Fresh(), r.level + 1, 0, r.head, r.free);
    assert Wrap(r).tags[1];
  }

  lemma WrapOk(r: Root)
    requires RootShape(r) && r.head.Inner?
    ensures RootShape(Root(Inner(Wrap(r)), true, r.level + 1))
    ensures SameReads(r, Root(Inner(Wrap(r)), true, r.level + 1))
  {
    hide Get, NodeOk, Wrap, Top, AnyTag, RootGet;
    WrapShape(r);
    forall i: nat ensures RootGet(r, i) == RootGet(Root(Inner(Wrap(r)), true, r.level + 1), i) {
      WrapReads(r, i);
    }
  }

  lemma WrapReads(r: Root, i: nat)
    requires RootShape(r) && r.head.Inner? && NodeOk(Wrap(r), r.level + 1)
    ensures RootGet(r, i) == RootGet(Root(Inner(Wrap(r)), true, r.level + 1), i)
  {
    var h := r.level + 1;
    assert Wrap(r).slots[0] == r.head;
    assert forall k | 1 <= k < MAP_SIZE :: Wrap(r).slots[k] == Null;
    hide NodeOk, Wrap, Top, Get, Repeat;
    GetUnfold(Wrap(r), h, i);
    TopUp(i, h);
  }

  /** The head node is new, or was already there, or i belongs to a slot of it other than the first. */
  ghost predicate RoomFor(n: Node, level: nat, i: nat) {
    level > 0 && (n.count == 0 || !Minimal(n, level)) ==> Digit(i, level) != 0
  }

  lemma {:induction false} ExtendOk(r: Root, i: nat)
    requires RootShape(r) && r.head.Inner? && (Covers(r.level, i) ==> RoomFor(r.head.n, r.level, i))
    ensures var r' := Extend(r, i);
            RootShape(r') && r'.head.Inner? && Covers(r'.level, i) && SameReads(r, r') && RoomFor(r'.head.n, r'.level, i)
    decreases i - First(1, r.level)
  {
    hide Get, NodeOk, Wrap, AnyTag, Top, First, RootGet, Digit;
    TopBlock(i, 1, r.level + 1);
    FirstGrows(r.level);
    if !Covers(r.level, i) {
      var r1 := Root(Inner(Wrap(r)), true, r.level + 1);
      WrapOk(r);
      TopUp(i, r.level + 1);
      ExtendOk(r1, i);
    }
  }

  // ---------- shrinking

  /** radix_tree_shrink() */
  function Shrink(r: Root): Root
    requires RootShape(r)
    decreases r.level
  {
    if r.head.Inner? && r.level > 0 && r.head.n.count == 1 && r.head.n.slots[0].Inner? then
      ShrinkStep(r);
      Shrink(Down(r))
    else r
  }

  /** The head's first child becomes the head; the root's tag is that child's. */
  function Down(r: Root): Root
    requires r.head.Inner? && r.level > 0 && |r.head.n.slots| == |r.head.n.tags| == MAP_SIZE
  {
    Root(r.head.n.slots[0], if !r.head.n.tags[0] then false else r.free, r.level - 1)
  }

  /** One entry in the first slot leaves the others empty. */
  lemma {:induction false} OnlyFirst(n: Node, h: nat, d: nat)
    requires h > 0 && NodeOk(n, h) && n.count == 1 && n.slots[0].Inner? && 0 < d < MAP_SIZE
    ensures n.slots[d] == Null && n.tags[d]
  {
    CountInnerUpdate(n.slots, 0, Null);
    CountsZero([], n.slots[0 := Null]);
    SlotAt(n, h, d);
    assert n.slots[0 := Null][d] == n.slots[d];
  }

  lemma ShrinkStep(r: Root)
    requires RootShape(r) && r.head.Inner? && r.level > 0 && r.head.n.count == 1 && r.head.n.slots[0].Inner?
    ensures RootShape(Down(r)) && SameReads(r, Down(r))
  {
    var n := r.head.n;
    SlotAt(n, r.level, 0);
    OnlyFirst(n, r.level, 1);
    hide Get, NodeOk, SlotOk, Top, AnyTag;
    forall i: nat ensures RootGet(r, i) == RootGet(Down(r), i) {
      DownReads(r, i);
    }
  }

  lemma DownReads(r: Root, i: nat)
    requires RootShape(r) && r.head.Inner? && r.level > 0 && r.head.n.count == 1 && r.head.n.slots[0].Inner?
    ensures RootGet(r, i) == RootGet(Down(r), i)
  {
    hide NodeOk, Top, Get;
    GetUnfold(r.head.n, r.level, i);
    TopUp(i, r.level);
    if Digit(i, r.level) > 0 {
      OnlyFirst(r.head.n, r.level, Digit(i, r.level));
    }
    assert r.level - 1 + 1 == r.level;
  }

  lemma {:induction false} ShrinkOk(r: Root)
    requires RootShape(r)
    ensures RootOk(Shrink(r)) && SameReads(r, Shrink(r))
    decreases r.level
  {
    assert r.head.Inner? ==> |r.head.n.slots| == |r.head.n.tags| == MAP_SIZE;
    hide NodeOk, Top, Get, AnyTag, RootGet;
    if r.head.Inner? && r.level > 0 && r.head.n.count == 1 && r.head.n.slots[0].Inner? {
      ShrinkStep(r);
      ShrinkOk(Down(r));
    }
  }

  // ---------- storing and deleting an index

  /** Build the path to an unused index, store p, clear the free tags that became wrong. */
  function Store(r: Root, i: nat, p: nat): Root
    requires RootOk(r) && RootGet(r, i).None?
  {
    var r1 := Prepared(r, i);
    PreparedOk(r, i);
    var n' := Put(r1.head.n, r1.level, i, p);
    Root(Inner(n'), AnyTag(n'.tags), r1.level)
  }

  function Prepared(r: Root, i: nat): Root {
    if r.head.Null? then Root(Inner(Fresh()), true, LevelFor(i, 0)) else Extend(r, i)
  }

  lemma PreparedOk(r: Root, i: nat)
    requires RootOk(r)
    ensures var r1 := Prepared(r, i);
            r1.head.Inner? && NodeOk(r1.head.n, r1.level) && Covers(r1.level, i) && SameReads(r, r1) &&
            RoomFor(r1.head.n, r1.level, i)
  {
    hide NodeOk, Top, Get, AnyTag, Extend, LevelFor, Fresh, Digit;
    if r.head.Null? {
      var level := LevelFor(i, 0);
      FreshOk(level);
      if level > 0 { TopUp(i, level); }
    } else {
      ExtendOk(r, i);
    }
  }

  lemma {:induction false} PutMinimal(n: Node, h: nat, i: nat, p: nat)
    requires NodeOk(n, h) && Get(n, h, i).None? && RoomFor(n, h, i)
    ensures Minimal(Put(n, h, i, p), h)
  {
    if h > 0 {
      PutShape(n, h, i, p);
      var d := Digit(i, h);
      if n.slots[d].Inner? && d > 0 && n.count == 1 && n.slots[0].Inner? {
        OnlyFirst(n, h, d);
      }
      if n.count == 0 {
        CountsZero([], n.slots);
      }
    }
  }

  /** Storing adds exactly one index. */
  lemma StoreAdds(r: Root, i: nat, p: nat)
    requires RootOk(r) && RootGet(r, i).None?
    ensures RootOk(Store(r, i, p))
    ensures RootGet(Store(r, i, p), i) == Some(p)
    ensures forall j: nat | j != i :: RootGet(Store(r, i, p), j) == RootGet(r, j)
  {
    var r1 := Prepared(r, i);
    PreparedOk(r, i);
    assert RootGet(r1, i) == RootGet(r, i);
    hide NodeOk, Top, Get, AnyTag, Fresh, Digit, Put, Prepared;
    PutStores(r1.head.n, r1.level, i, p);
    PutMinimal(r1.head.n, r1.level, i, p);
    var r' := Store(r, i, p);
    forall j: nat | j != i ensures RootGet(r', j) == RootGet(r, j) {
      assert RootGet(r1, j) == RootGet(r, j);
    }
  }

  /** __radix_tree_delete(): drop the entry; an empty head goes, a head that lost a child may shrink. */
  function Delete(r: Root, i: nat): Root
    requires RootOk(r) && RootGet(r, i).Some?
  {
    var n' := DelNode(r.head.n, r.level, i);
    DeleteShape(r, i);
    if n'.count == 0 then EMPTY
    else if n'.count < r.head.n.count then Shrink(Root(Inner(n'), true, r.level))
    else Root(Inner(n'), true, r.level)
  }

  lemma {:induction false} DeleteShape(r: Root, i: nat)
    requires RootOk(r) && RootGet(r, i).Some?
    ensures var n' := DelNode(r.head.n, r.level, i);
            NodeOk(n', r.level) && AnyTag(n'.tags) && (n'.count >= r.head.n.count ==> Minimal(n', r.level))
  {
    var n := r.head.n;
    DelRemoves(n, r.level, i);
    FreeMeansTag(DelNode(n, r.level, i), r.level, i);
    hide Get, AnyTag, Top, SameElsewhere;
    if r.level > 0 {
      DelShape(n, r.level, i);
    }
  }

  /** Deleting drops exactly one index. */
  lemma DeleteDrops(r: Root, i: nat)
    requires RootOk(r) && RootGet(r, i).Some?
    ensures RootOk(Delete(r, i))
    ensures RootGet(Delete(r, i), i).None?
    ensures forall j: nat | j != i :: RootGet(Delete(r, i), j) == RootGet(r, j)
  {
    var n := r.head.n;
    var n' := DelNode(n, r.level, i);
    DelRemoves(n, r.level, i);
    DeleteShape(r, i);
    hide NodeOk, Top, Get, AnyTag, Digit, DelNode, Shrink;
    var r1 := Root(Inner(n'), true, r.level);
    assert RootGet(r1, i).None?;
    assert forall j: nat | j != i :: RootGet(r1, j) == RootGet(r, j);
    if n'.count == 0 {
      EmptyReads(n', r.level);
    } else if n'.count < n.count {
      ShrinkOk(r1);
    }
  }

  // ---------- finding an unused index

  /** The largest index under the head, as radix_tree_load_root() reports it. */
  function MaxIndex(r: Root): nat {
    if r.head.Inner? then FirstGrows(r.level); First(1, r.level + 1) - 1 else 0
  }

  /** Where the search starts: past the tree when the root's tag says it is full. */
  function From(r: Root, start: nat): nat {
    if !r.free && start < MaxIndex(r) + 1 then MaxIndex(r) + 1 else start
  }

  /** idr_get_free(): the index it settles on, or -ENOSPC. A search that runs off the end of the
      tree starts again past it, where the tree grows. */
  function GetFree(r: Root, start: nat, max: nat): Option<nat>
    requires RootOk(r)
    decreases if start <= max then max - start + 1 else 0
  {
    var s := From(r, start);
    if s > max then None
    else
      var r1 := Prepared(r, s);
      PreparedOk(r, s); SearchedRoot(r1, s, max);
      match SearchNode(r1.head.n, r1.level, s, max)
      case Found(i) => Some(i)
      case NoSpace => None
      case Full(next) => GetFree(r, next, max)
  }

  ghost predicate RootUsed(r: Root, from: nat, to: nat) {
    forall j: nat | from <= j < to :: RootGet(r, j).Some?
  }

  ghost predicate IsLeast(r: Root, start: nat, max: nat, o: Option<nat>) {
    match o
    case Some(i) => start <= i <= max && RootGet(r, i).None? && RootUsed(r, start, i)
    case None => RootUsed(r, start, max + 1)
  }

  lemma {:induction false} CoveredBlock(level: nat, i: nat)
    ensures Covers(level, i) <==> i < First(1, level + 1)
  {
    TopBlock(i, 1, level + 1);
  }

  lemma {:induction false} SearchedRoot(r1: Root, s: nat, max: nat)
    requires r1.head.Inner? && NodeOk(r1.head.n, r1.level) && Covers(r1.level, s) && s <= max
    ensures match SearchNode(r1.head.n, r1.level, s, max)
            case Found(i) => s <= i <= max && RootGet(r1, i).None? && RootUsed(r1, s, i)
            case Full(next) => s < next <= max && RootUsed(r1, s, next)
            case NoSpace => RootUsed(r1, s, max + 1)
  {
    NodeSearched(r1.head.n, r1.level, s, max);
    hide NodeOk, Get, SearchNode, Top, First;
    CoveredBlock(r1.level, s);
    forall j: nat ensures Covers(r1.level, j) <==> j < First(1, r1.level + 1) {
      CoveredBlock(r1.level, j);
    }
  }

  /** A root without its free tag has no unused index below its head. */
  lemma SkippedByRoot(r: Root, start: nat)
    requires RootOk(r)
    ensures start <= From(r, start) && RootUsed(r, start, From(r, start))
  {
    if !r.free {
      var n := r.head.n;
      forall j: nat | j < MaxIndex(r) + 1 ensures RootGet(r, j).Some? {
        CoveredBlock(r.level, j);
        UntaggedUsed(n, r.level, j);
      }
    }
  }

  /** idr_get_free() settles on the smallest unused index from start to max, and fails exactly
      when there is none. */
  lemma {:induction false} GetFreeIsLeast(r: Root, start: nat, max: nat)
    requires RootOk(r)
    ensures IsLeast(r, start, max, GetFree(r, start, max))
    decreases if start <= max then max - start + 1 else 0
  {
    SkippedByRoot(r, start);
    var s := From(r, start);
    hide NodeOk, Get, SearchNode, Top, First, From, Prepared;
    if s <= max {
      var r1 := Prepared(r, s);
      PreparedOk(r, s);
      SearchedRoot(r1, s, max);
      assert SameReads(r, r1);
      hide RootGet;
      match SearchNode(r1.head.n, r1.level, s, max)
      case Found(i) =>
      case NoSpace =>
      case Full(next) => GetFreeIsLeast(r, next, max);
    }
  }
}
