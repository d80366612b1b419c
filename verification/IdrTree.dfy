/** The radix tree of lib/radix-tree.c as the IDR uses it: 64-way nodes, one "free" tag
    per slot saying that some id below it is unused. */
module IdrTree {
  import opened Options

  const MAP_SIZE: nat := 64

  /** A slot: nothing, a user pointer (NULL is 0), or a node one level down. */
  datatype Entry = Null | Ptr(p: nat) | Inner(n: Node)

  datatype Node = Node(slots: seq<Entry>, tags: seq<bool>, count: nat)

  // ---------- indices

  /** index >> (6 * h) */
  function Top(x: nat, h: nat): nat {
    if h == 0 then x else Top(x / 64, h - 1)
  }

  /** k << (6 * h): the first index of block k of level h */
  function First(k: nat, h: nat): nat
    decreases h
  {
    if h == 0 then k else First(64 * k, h - 1)
  }

  /** (index >> shift) & RADIX_TREE_MAP_MASK */
  function Digit(x: nat, h: nat): (d: nat)
    ensures d < MAP_SIZE
  {
    Top(x, h) % 64
  }

  lemma {:induction false} TopUp(x: nat, h: nat)
    ensures Top(x, h + 1) == Top(x, h) / 64
    ensures Top(x, h) == 64 * Top(x, h + 1) + Digit(x, h)
  {
    if h > 0 {
      TopUp(x / 64, h - 1);
    }
  }

  lemma {:induction false} TopFirst(k: nat, h: nat)
    ensures Top(First(k, h), h) == k
    decreases h
  {
    if h > 0 {
      TopFirst(64 * k, h - 1);
      TopUp(First(64 * k, h - 1), h - 1);
    }
  }

  /** Block k of level h is the indices from its first to the next block's first. */
  lemma {:induction false} TopBlock(x: nat, k: nat, h: nat)
    ensures Top(x, h) >= k <==> x >= First(k, h)
    decreases h
  {
    if h > 0 {
      TopBlock(x, 64 * k, h - 1);
      TopUp(x, h - 1);
    }
  }

  lemma {:induction false} TopMonotone(x: nat, y: nat, h: nat)
    requires x <= y
    ensures Top(x, h) <= Top(y, h)
  {
    TopBlock(x, Top(x, h), h);
    TopBlock(y, Top(x, h), h);
  }

  lemma SameDigits(x: nat, y: nat, h: nat)
    requires Top(x, h + 1) == Top(y, h + 1) && Digit(x, h) == Digit(y, h)
    ensures Top(x, h) == Top(y, h)
  {
    TopUp(x, h);
    TopUp(y, h);
  }

  // ---------- well-formed nodes

  predicate AnyTag(tags: seq<bool>) {
    exists d :: 0 <= d < |tags| && tags[d]
  }

  function CountUsed(tags: seq<bool>): nat {
    if tags == [] then 0 else CountUsed(tags[..|tags| - 1]) + if tags[|tags| - 1] then 0 else 1
  }

  function CountInner(slots: seq<Entry>): nat {
    if slots == [] then 0 else CountInner(slots[..|slots| - 1]) + if slots[|slots| - 1].Inner? then 1 else 0
  }

  /** A slot of a node at level h > 0. */
  ghost predicate SlotOk(e: Entry, tag: bool, h: nat)
    decreases e, 0
  {
    match e
    case Null => tag
    case Ptr(_) => false
    case Inner(c) => h > 0 && NodeOk(c, h - 1) && c.count > 0 && tag == AnyTag(c.tags)
  }

  ghost predicate NodeOk(n: Node, h: nat)
    decreases n, 1
  {
    && |n.slots| == MAP_SIZE && |n.tags| == MAP_SIZE
    && if h == 0 then
         && (forall d | 0 <= d < MAP_SIZE :: !n.slots[d].Inner? && (n.tags[d] ==> n.slots[d].Null?))
         && n.count == CountUsed(n.tags)
       else
         && (forall d | 0 <= d < MAP_SIZE :: SlotOk(n.slots[d], n.tags[d], h))
         && n.count == CountInner(n.slots)
  }

  /** What is stored at index i below a node of level h. */
  function Get(n: Node, h: nat, i: nat): Option<nat>
    decreases h
  {
    var d := Digit(i, h);
    if d >= |n.slots| || d >= |n.tags| then None
    else if h == 0 then
      if n.tags[d] then None else Some(if n.slots[d].Ptr? then n.slots[d].p else 0)
    else match n.slots[d]
      case Inner(c) => Get(c, h - 1, i)
      case _ => None
  }

  // ---------- counting

  lemma {:induction false} CountUsedUpdate(tags: seq<bool>, d: nat, b: bool)
    requires d < |tags|
    ensures CountUsed(tags[d := b]) == CountUsed(tags) + (if tags[d] then 1 else 0) - (if b then 1 else 0)
    decreases |tags|
  {
    var last := |tags| - 1;
    if d == last {
      assert tags[d := b][..last] == tags[..last];
    } else {
      assert tags[d := b][..last] == tags[..last][d := b];
      CountUsedUpdate(tags[..last], d, b);
    }
  }

  lemma {:induction false} CountInnerUpdate(slots: seq<Entry>, d: nat, e: Entry)
    requires d < |slots|
    ensures CountInner(slots[d := e]) == CountInner(slots) - (if slots[d].Inner? then 1 else 0) + (if e.Inner? then 1 else 0)
    decreases |slots|
  {
    var last := |slots| - 1;
    if d == last {
      assert slots[d := e][..last] == slots[..last];
    } else {
      assert slots[d := e][..last] == slots[..last][d := e];
      CountInnerUpdate(slots[..last], d, e);
    }
  }

  lemma {:induction false} CountsZero(tags: seq<bool>, slots: seq<Entry>)
    ensures CountUsed(tags) == 0 <==> forall d | 0 <= d < |tags| :: tags[d]
    ensures CountInner(slots) == 0 <==> forall d | 0 <= d < |slots| :: !slots[d].Inner?
    decreases |tags| + |slots|
  {
    if tags != [] {
      CountsZero(tags[..|tags| - 1], []);
      assert forall d | 0 <= d < |tags| - 1 :: tags[..|tags| - 1][d] == tags[d];
    }
    if slots != [] {
      if tags != [] { CountsZero([], slots); } else {
        CountsZero([], slots[..|slots| - 1]);
        assert forall d | 0 <= d < |slots| - 1 :: slots[..|slots| - 1][d] == slots[d];
      }
    }
  }

  function Repeat<T>(x: T, k: nat): (s: seq<T>)
    ensures |s| == k && forall i | 0 <= i < k :: s[i] == x
  {
    if k == 0 then [] else Repeat(x, k - 1) + [x]
  }

  /** radix_tree_node_alloc() followed by all_tag_set() */
  function Fresh(): Node {
    Node(Repeat(Null, MAP_SIZE), Repeat(true, MAP_SIZE), 0)
  }

  lemma {:induction false} FreshOk(h: nat)
    ensures NodeOk(Fresh(), h) && AnyTag(Fresh().tags)
    ensures forall i: nat :: Get(Fresh(), h, i).None?
  {
    CountsZero(Fresh().tags, Fresh().slots);
    assert Fresh().tags[0];
  }

  // ---------- one slot

  lemma {:induction false} SlotAt(n: Node, h: nat, d: nat)
    requires NodeOk(n, h) && h > 0 && d < MAP_SIZE
    ensures |n.slots| == MAP_SIZE && |n.tags| == MAP_SIZE && SlotOk(n.slots[d], n.tags[d], h)
  {
  }

  function SlotCount(n: Node, d: nat, e: Entry): int
    requires d < |n.slots|
  {
    n.count - (if n.slots[d].Inner? then 1 else 0) + (if e.Inner? then 1 else 0)
  }

  /** A node stays well formed when one slot takes a well-formed entry and its tag. */
  lemma ReplaceSlot(n: Node, h: nat, d: nat, e: Entry, tag: bool)
    requires NodeOk(n, h) && h > 0 && d < MAP_SIZE && SlotOk(e, tag, h)
    ensures SlotCount(n, d, e) >= 0
    ensures NodeOk(Node(n.slots[d := e], n.tags[d := tag], SlotCount(n, d, e)), h)
  {
    CountInnerUpdate(n.slots, d, e);
    var n' := Node(n.slots[d := e], n.tags[d := tag], SlotCount(n, d, e));
    forall k | 0 <= k < MAP_SIZE ensures SlotOk(n'.slots[k], n'.tags[k], h) {
      SlotAt(n, h, k);
    }
  }

  /** What is below slot d, seen from the node: the child's view when there is a child. */
  function GetSlot(e: Entry, h: nat, i: nat): Option<nat>
    requires h > 0
  {
    if e.Inner? then Get(e.n, h - 1, i) else None
  }

  lemma {:induction false} GetUnfold(n: Node, h: nat, i: nat)
    requires NodeOk(n, h) && h > 0
    ensures Get(n, h, i) == GetSlot(n.slots[Digit(i, h)], h, i)
  {
  }

  ghost predicate SameElsewhere(a: Node, b: Node, h: nat, i: nat) {
    forall j: nat | Top(j, h + 1) == Top(i, h + 1) && j != i :: Get(b, h, j) == Get(a, h, j)
  }

  /** Changing slot d changes what is stored there and nothing else in the node's block. */
  lemma {:induction false} ReplaceReads(n: Node, n': Node, h: nat, i: nat)
    requires h > 0 && NodeOk(n, h) && NodeOk(n', h)
    requires var d := Digit(i, h); n'.slots == n.slots[d := n'.slots[d]]
    requires var d := Digit(i, h);
             forall j: nat | Top(j, h) == Top(i, h) && j != i :: GetSlot(n'.slots[d], h, j) == GetSlot(n.slots[d], h, j)
    ensures SameElsewhere(n, n', h, i)
  {
    assert |n.slots| == |n'.slots| == MAP_SIZE;
    hide NodeOk, SlotOk, Top, Get, GetSlot, Digit;
    forall j: nat | Top(j, h + 1) == Top(i, h + 1) && j != i ensures Get(n', h, j) == Get(n, h, j) {
      GetUnfold(n, h, j);
      GetUnfold(n', h, j);
      if Digit(j, h) == Digit(i, h) {
        SameDigits(i, j, h);
      }
    }
  }

  // ---------- storing

  /** Walk down to index i, creating nodes on the way, store p and clear the free tag;
      a parent's tag goes when its child has none left. */
  function Put(n: Node, h: nat, i: nat, p: nat): Node
    requires NodeOk(n, h)
    decreases h
  {
    var d := Digit(i, h);
    if h == 0 then Node(n.slots[d := if p == 0 then Null else Ptr(p)], n.tags[d := false], n.count + 1)
    else
      var c' := Put(ChildOr(n, h, i), h - 1, i, p);
      Node(n.slots[d := Inner(c')],
           if AnyTag(c'.tags) then n.tags else n.tags[d := false],
           if n.slots[d].Inner? then n.count else n.count + 1)
  }

  lemma {:induction false} PutStores(n: Node, h: nat, i: nat, p: nat)
    requires NodeOk(n, h) && Get(n, h, i).None?
    ensures NodeOk(Put(n, h, i, p), h) && Put(n, h, i, p).count > 0
    ensures Get(Put(n, h, i, p), h, i) == Some(p) && SameElsewhere(n, Put(n, h, i, p), h, i)
    decreases h
  {
    hide Get, AnyTag, SameElsewhere, Top, Fresh, NodeOk, SlotOk, CountInner, Digit, Put;
    if h == 0 {
      PutLeaf(n, i, p);
    } else {
      var c := ChildOr(n, h, i);
      ChildReads(n, h, i);
      PutStores(c, h - 1, i, p);
      PutInner(n, h, i, p, c, Put(c, h - 1, i, p));
    }
  }

  /** The child on the way to i, new if there is none. */
  function ChildOr(n: Node, h: nat, i: nat): (c: Node)
    requires h > 0 && NodeOk(n, h)
    ensures NodeOk(c, h - 1)
  {
    var d := Digit(i, h);
    SlotAt(n, h, d); FreshOk(h - 1);
    if n.slots[d].Inner? then n.slots[d].n else Fresh()
  }

  lemma ChildReads(n: Node, h: nat, i: nat)
    requires h > 0 && NodeOk(n, h)
    ensures Get(n, h, i) == Get(ChildOr(n, h, i), h - 1, i)
  {
    hide Fresh, NodeOk, SlotOk, Top, Digit, Get;
    GetUnfold(n, h, i);
    FreshOk(h - 1);
  }

  lemma PutInner(n: Node, h: nat, i: nat, p: nat, c: Node, c': Node)
    requires h > 0 && NodeOk(n, h) && Get(n, h, i).None?
    requires c == ChildOr(n, h, i) && c' == Put(c, h - 1, i, p) && NodeOk(c', h - 1) && c'.count > 0
    requires Get(c', h - 1, i) == Some(p) && SameElsewhere(c, c', h - 1, i)
    ensures NodeOk(Put(n, h, i, p), h) && Put(n, h, i, p).count > 0
    ensures Get(Put(n, h, i, p), h, i) == Some(p) && SameElsewhere(n, Put(n, h, i, p), h, i)
  {
    var d := Digit(i, h);
    var n' := Put(n, h, i, p);
    assert h - 1 + 1 == h;
    SlotAt(n, h, d);
    PutShape(n, h, i, p);
    hide Get, AnyTag, SameElsewhere, Top, Fresh, NodeOk, CountInner, Digit, Put, ChildOr;
    ReplaceSlot(n, h, d, Inner(c'), AnyTag(c'.tags));
    GetUnfold(n', h, i);
    BelowSame(n, n', h, i, c, c');
    ReplaceReads(n, n', h, i);
    CountPositive(n', h, d);
  }

  lemma PutShape(n: Node, h: nat, i: nat, p: nat)
    requires h > 0 && NodeOk(n, h) && Get(n, h, i).None?
    ensures var d := Digit(i, h); var c' := Put(ChildOr(n, h, i), h - 1, i, p); var n' := Put(n, h, i, p);
            |n.slots| == |n.tags| == MAP_SIZE &&
            n' == Node(n.slots[d := Inner(c')], n.tags[d := AnyTag(c'.tags)], if n.slots[d].Inner? then n.count else n.count + 1)
  {
    FreeMeansTag(n, h, i);
    hide Get, AnyTag, Top, Fresh, CountInner, SlotOk;
    var d := Digit(i, h);
    var c' := Put(ChildOr(n, h, i), h - 1, i, p);
    assert n.tags == n.tags[d := true];
  }

  lemma {:induction false} CountPositive(n: Node, h: nat, d: nat)
    requires h > 0 && NodeOk(n, h) && d < MAP_SIZE && n.slots[d].Inner?
    ensures n.count > 0
  {
    CountsZero([], n.slots);
  }

  lemma {:induction false} BelowSame(n: Node, n': Node, h: nat, i: nat, c: Node, c': Node)
    requires h > 0 && NodeOk(n, h) && NodeOk(n', h)
    requires var d := Digit(i, h); n'.slots[d] == Inner(c') && SameElsewhere(c, c', h - 1, i)
    requires c == ChildOr(n, h, i)
    ensures var d := Digit(i, h);
            forall j: nat | Top(j, h) == Top(i, h) && j != i :: GetSlot(n'.slots[d], h, j) == GetSlot(n.slots[d], h, j)
  {
    hide NodeOk, SlotOk, Get, Fresh, Top;
    FreshOk(h - 1);
    assert h - 1 + 1 == h;
  }

  lemma {:induction false} PutLeaf(n: Node, i: nat, p: nat)
    requires NodeOk(n, 0) && Get(n, 0, i).None?
    ensures NodeOk(Put(n, 0, i, p), 0) && Put(n, 0, i, p).count > 0
    ensures Get(Put(n, 0, i, p), 0, i) == Some(p) && SameElsewhere(n, Put(n, 0, i, p), 0, i)
  {
    var d := Digit(i, 0);
    var n' := Put(n, 0, i, p);
    CountUsedUpdate(n.tags, d, false);
    forall j: nat | Top(j, 1) == Top(i, 1) && j != i ensures Get(n', 0, j) == Get(n, 0, j) {
      if Digit(j, 0) == d { SameDigits(i, j, 0); }
    }
  }

  /** An unused index shows in the tags. */
  lemma {:induction false} FreeMeansTag(n: Node, h: nat, i: nat)
    requires NodeOk(n, h) && Get(n, h, i).None?
    ensures n.tags[Digit(i, h)] && AnyTag(n.tags)
    decreases h
  {
    var d := Digit(i, h);
    if h > 0 {
      SlotAt(n, h, d);
      if n.slots[d].Inner? {
        FreeMeansTag(n.slots[d].n, h - 1, i);
      }
    }
  }

  lemma {:induction false} EmptyReads(n: Node, h: nat)
    requires NodeOk(n, h) && n.count == 0
    ensures forall i: nat :: Get(n, h, i).None?
    ensures AnyTag(n.tags)
  {
    CountsZero(n.tags, n.slots);
    if h > 0 {
      SlotAt(n, h, 0);
    }
    assert n.tags[0];
  }

  // ---------- deleting

  lemma {:induction false} UsedCounts(n: Node, h: nat, i: nat)
    requires NodeOk(n, h) && Get(n, h, i).Some?
    ensures n.count > 0
  {
    if n.count == 0 {
      EmptyReads(n, h);
    }
  }

  /** Set the free tag at i and on the way up, empty the slot, and unlink children left without entries. */
  function DelNode(n: Node, h: nat, i: nat): Node
    requires NodeOk(n, h) && Get(n, h, i).Some?
    decreases h
  {
    var d := Digit(i, h);
    UsedCounts(n, h, i);
    if h == 0 then Node(n.slots[d := Null], n.tags[d := true], n.count - 1)
    else
      SlotAt(n, h, d);
      var c' := DelNode(n.slots[d].n, h - 1, i);
      if c'.count == 0 then Node(n.slots[d := Null], n.tags[d := true], n.count - 1)
      else Node(n.slots[d := Inner(c')], n.tags[d := true], n.count)
  }

  lemma {:induction false} DelRemoves(n: Node, h: nat, i: nat)
    requires NodeOk(n, h) && Get(n, h, i).Some?
    ensures NodeOk(DelNode(n, h, i), h)
    ensures Get(DelNode(n, h, i), h, i).None? && SameElsewhere(n, DelNode(n, h, i), h, i)
    decreases h
  {
    hide AnyTag, SameElsewhere, Top, CountInner, Digit, DelNode, Get;
    if h == 0 {
      DelLeaf(n, i);
    } else {
      var d := Digit(i, h);
      SlotAt(n, h, d);
      GetUnfold(n, h, i);
      hide NodeOk, SlotOk;
      DelRemoves(n.slots[d].n, h - 1, i);
      DelInner(n, h, i, DelNode(n.slots[d].n, h - 1, i));
    }
  }

  lemma {:induction false} DelLeaf(n: Node, i: nat)
    requires NodeOk(n, 0) && Get(n, 0, i).Some?
    ensures NodeOk(DelNode(n, 0, i), 0)
    ensures Get(DelNode(n, 0, i), 0, i).None? && SameElsewhere(n, DelNode(n, 0, i), 0, i)
  {
    var d := Digit(i, 0);
    var n' := DelNode(n, 0, i);
    CountUsedUpdate(n.tags, d, true);
    forall j: nat | Top(j, 1) == Top(i, 1) && j != i ensures Get(n', 0, j) == Get(n, 0, j) {
      if Digit(j, 0) == d { SameDigits(i, j, 0); }
    }
  }

  /** What goes into the slot above a child that lost an entry. */
  function SlotOf(c: Node): Entry {
    if c.count == 0 then Null else Inner(c)
  }

  lemma DelShape(n: Node, h: nat, i: nat)
    requires h > 0 && NodeOk(n, h) && Get(n, h, i).Some?
    ensures |n.slots| == |n.tags| == MAP_SIZE && n.slots[Digit(i, h)].Inner?
    ensures NodeOk(n.slots[Digit(i, h)].n, h - 1) && Get(n.slots[Digit(i, h)].n, h - 1, i).Some?
    ensures var d := Digit(i, h); var e := SlotOf(DelNode(n.slots[d].n, h - 1, i));
            SlotCount(n, d, e) >= 0 &&
            DelNode(n, h, i) == Node(n.slots[d := e], n.tags[d := true], SlotCount(n, d, e))
  {
    SlotAt(n, h, Digit(i, h));
    UsedCounts(n, h, i);
    hide AnyTag, Top, CountInner;
  }

  lemma DelInner(n: Node, h: nat, i: nat, c': Node)
    requires h > 0 && NodeOk(n, h) && Get(n, h, i).Some? && n.slots[Digit(i, h)].Inner?
    requires NodeOk(n.slots[Digit(i, h)].n, h - 1) && Get(n.slots[Digit(i, h)].n, h - 1, i).Some?
    requires c' == DelNode(n.slots[Digit(i, h)].n, h - 1, i) && NodeOk(c', h - 1)
    requires Get(c', h - 1, i).None? && SameElsewhere(n.slots[Digit(i, h)].n, c', h - 1, i)
    ensures NodeOk(DelNode(n, h, i), h)
    ensures Get(DelNode(n, h, i), h, i).None? && SameElsewhere(n, DelNode(n, h, i), h, i)
  {
    var d := Digit(i, h);
    var n' := DelNode(n, h, i);
    var e := SlotOf(c');
    DelShape(n, h, i);
    FreeMeansTag(c', h - 1, i);
    assert SlotOk(e, true, h);
    hide AnyTag, Top, CountInner, DelNode, NodeOk, SlotOk, Get, Digit;
    ReplaceSlot(n, h, d, e, true);
    GetUnfold(n', h, i);
    assert h - 1 + 1 == h;
    if c'.count == 0 {
      EmptyReads(c', h - 1);
    }
    assert forall j: nat :: GetSlot(e, h, j) == Get(c', h - 1, j);
    ReplaceReads(n, n', h, i);
  }
}
