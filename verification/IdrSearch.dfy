/** idr_get_free(): the tag-guided search for the first unused index. */
module IdrSearch {
  import opened Options
  import opened IdrTree

  /** Found an index, ran off the end of the node (next is the first index after it), or passed max. */
  datatype Outcome = Found(index: nat) | Full(next: nat) | NoSpace

  /** radix_tree_find_next_bit() on the free tags; MAP_SIZE if there is none. */
  function NextTag(tags: seq<bool>, from: nat): (d: nat)
    requires |tags| == MAP_SIZE && from <= MAP_SIZE
    ensures from <= d <= MAP_SIZE && (d < MAP_SIZE ==> tags[d])
    ensures forall k | from <= k < d :: !tags[k]
    decreases MAP_SIZE - from
  {
    if from == MAP_SIZE || tags[from] then from else NextTag(tags, from + 1)
  }

  /** next_index(): the first index of slot offset of the node that start is in. */
  function NextIndex(start: nat, h: nat, offset: nat): nat {
    First(64 * Top(start, h + 1) + offset, h)
  }

  /** Enter the node at start's slot; skip to the next tagged slot if that one is full. */
  function SearchNode(n: Node, h: nat, start: nat, max: nat): Outcome
    requires NodeOk(n, h)
    decreases h, MAP_SIZE + 1
  {
    var d := Digit(start, h);
    if n.tags[d] then SearchSlot(n, h, d, start, max)
    else
      var d2 := NextTag(n.tags, d + 1);
      var next := NextIndex(start, h, d2);
      if next > max then NoSpace
      else if d2 == MAP_SIZE then Full(next)
      else SearchSlot(n, h, d2, next, max)
  }

  /** Go down slot d. Coming back up from a full child, the next slot is entered without
      looking at its tag. */
  function SearchSlot(n: Node, h: nat, d: nat, start: nat, max: nat): Outcome
    requires NodeOk(n, h) && d < MAP_SIZE
    decreases h, MAP_SIZE - d
  {
    if h == 0 then Found(start)
    else
      SlotAt(n, h, d);
      if n.slots[d].Null? then Found(start)
      else
        var r := SearchNode(n.slots[d].n, h - 1, start, max);
        if !r.Full? then r
        else if d + 1 == MAP_SIZE then r
        else SearchSlot(n, h, d + 1, r.next, max)
  }

  ghost predicate AllUsed(n: Node, h: nat, from: nat, to: nat) {
    forall j: nat | from <= j < to :: Get(n, h, j).Some?
  }

  /** What a search of the block around start has established. */
  ghost predicate Searched(n: Node, h: nat, start: nat, max: nat, r: Outcome) {
    var end := First(Top(start, h + 1) + 1, h + 1);
    match r
    case Found(i) => start <= i <= max && i < end && Get(n, h, i).None? && AllUsed(n, h, start, i)
    case Full(next) => next == end && next <= max && AllUsed(n, h, start, end)
    case NoSpace => max < end && AllUsed(n, h, start, max + 1)
  }

  lemma {:induction false} UntaggedUsed(n: Node, h: nat, j: nat)
    requires NodeOk(n, h) && !n.tags[Digit(j, h)]
    ensures Get(n, h, j).Some?
  {
    if Get(n, h, j).None? {
      FreeMeansTag(n, h, j);
    }
  }

  lemma BlockEnd(start: nat, h: nat, d: nat)
    requires Top(start, h) == 64 * Top(start, h + 1) + d && d < MAP_SIZE
    ensures start < First(Top(start, h) + 1, h) <= First(Top(start, h + 1) + 1, h + 1)
    ensures d + 1 == MAP_SIZE ==> First(Top(start, h) + 1, h) == First(Top(start, h + 1) + 1, h + 1)
    ensures d + 1 < MAP_SIZE ==> var s := First(Top(start, h) + 1, h);
              Top(s, h) == Top(start, h) + 1 && Top(s, h + 1) == Top(start, h + 1) && Top(s, h) == 64 * Top(s, h + 1) + d + 1
  {
    var b := Top(start, h + 1);
    var s := First(Top(start, h) + 1, h);
    assert First(b + 1, h + 1) == First(64 * (b + 1), h);
    TopBlock(start, Top(start, h) + 1, h);
    TopFirst(Top(start, h) + 1, h);
    TopUp(s, h);
    TopFirst(64 * (b + 1), h);
    TopBlock(First(64 * (b + 1), h), Top(start, h) + 1, h);
  }

  /** Slots between start's and d2 without a tag hold only used indices. */
  lemma {:induction false} SkippedUsed(n: Node, h: nat, start: nat, d2: nat)
    requires NodeOk(n, h) && Digit(start, h) < d2 <= MAP_SIZE
    requires forall k | Digit(start, h) <= k < d2 :: !n.tags[k]
    ensures AllUsed(n, h, start, NextIndex(start, h, d2))
  {
    hide NodeOk, First, Top, Get;
    var b := Top(start, h + 1);
    forall j: nat | start <= j < NextIndex(start, h, d2) ensures Get(n, h, j).Some? {
      TopMonotone(start, j, h);
      TopBlock(j, 64 * b + d2, h);
      TopUp(start, h);
      TopUp(j, h);
      UntaggedUsed(n, h, j);
    }
  }

  lemma {:induction false} Chain(n: Node, h: nat, start: nat, mid: nat, max: nat, r: Outcome)
    requires start <= mid <= max && Top(mid, h + 1) == Top(start, h + 1)
    requires AllUsed(n, h, start, mid) && Searched(n, h, mid, max, r)
    ensures Searched(n, h, start, max, r)
  {
    hide Top, First, Get;
  }

  /** From start to the end of its slot, the node reads what the child reads. */
  lemma ReadsChild(n: Node, h: nat, d: nat, start: nat, j: nat)
    requires h > 0 && NodeOk(n, h) && d < MAP_SIZE && n.slots[d].Inner?
    requires Top(start, h) == 64 * Top(start, h + 1) + d
    requires start <= j < First(Top(start, h) + 1, h)
    ensures Get(n, h, j) == Get(n.slots[d].n, h - 1, j)
  {
    GetUnfold(n, h, j);
    hide NodeOk, First, Top, Get;
    TopMonotone(start, j, h);
    TopBlock(j, Top(start, h) + 1, h);
    TopUp(j, h);
  }

  lemma ChildSearched(n: Node, h: nat, d: nat, start: nat, max: nat, r: Outcome)
    requires h > 0 && NodeOk(n, h) && d < MAP_SIZE && n.slots[d].Inner?
    requires Top(start, h) == 64 * Top(start, h + 1) + d
    requires Searched(n.slots[d].n, h - 1, start, max, r)
    ensures !r.Full? ==> Searched(n, h, start, max, r)
    ensures r.Full? ==> r.next == First(Top(start, h) + 1, h) && r.next <= max && AllUsed(n, h, start, r.next)
  {
    assert h - 1 + 1 == h;
    hide NodeOk, First, Top, Get;
    forall j: nat | start <= j < First(Top(start, h) + 1, h) ensures Get(n, h, j) == Get(n.slots[d].n, h - 1, j) {
      ReadsChild(n, h, d, start, j);
    }
    BlockEnd(start, h, d);
  }

  /** The search finds the first unused index of the block, or knows that there is none. */
  lemma {:induction false} NodeSearched(n: Node, h: nat, start: nat, max: nat)
    requires NodeOk(n, h) && start <= max
    ensures Searched(n, h, start, max, SearchNode(n, h, start, max))
    decreases h, MAP_SIZE + 1
  {
    var d := Digit(start, h);
    TopUp(start, h);
    assert |n.tags| == MAP_SIZE;
    hide NodeOk, First, Top, Get, Searched, AllUsed, SearchSlot;
    if n.tags[d] {
      SlotSearched(n, h, d, start, max);
    } else {
      var d2 := NextTag(n.tags, d + 1);
      SkippedUsed(n, h, start, d2);
      NextInside(start, h, d2);
      var next := NextIndex(start, h, d2);
      if next <= max && d2 < MAP_SIZE {
        SlotSearched(n, h, d2, next, max);
        Chain(n, h, start, next, max, SearchSlot(n, h, d2, next, max));
      } else {
        RanOff(n, h, start, max, d2);
      }
    }
  }

  lemma {:induction false} NextInside(start: nat, h: nat, d2: nat)
    requires Digit(start, h) < d2 <= MAP_SIZE
    ensures var next := NextIndex(start, h, d2);
            start < next <= First(Top(start, h + 1) + 1, h + 1) &&
            (d2 == MAP_SIZE ==> next == First(Top(start, h + 1) + 1, h + 1)) &&
            (d2 < MAP_SIZE ==> Top(next, h + 1) == Top(start, h + 1) && Top(next, h) == 64 * Top(next, h + 1) + d2)
  {
    var b := Top(start, h + 1);
    var next := NextIndex(start, h, d2);
    assert First(b + 1, h + 1) == First(64 * (b + 1), h);
    TopUp(start, h);
    TopUp(next, h);
    hide First, Top;
    TopFirst(64 * b + d2, h);
    TopBlock(start, 64 * b + d2, h);
    TopFirst(64 * (b + 1), h);
    TopBlock(First(64 * (b + 1), h), 64 * b + d2, h);
  }

  lemma RanOff(n: Node, h: nat, start: nat, max: nat, d2: nat)
    requires Digit(start, h) < d2 <= MAP_SIZE && start <= max
    requires AllUsed(n, h, start, NextIndex(start, h, d2))
    requires NextIndex(start, h, d2) > max || d2 == MAP_SIZE
    ensures var next := NextIndex(start, h, d2);
            Searched(n, h, start, max, if next > max then NoSpace else Full(next))
  {
    NextInside(start, h, d2);
    hide First, Top, Get, NextIndex, Digit;
  }

  lemma {:induction false} SlotSearched(n: Node, h: nat, d: nat, start: nat, max: nat)
    requires NodeOk(n, h) && d < MAP_SIZE && start <= max
    requires Top(start, h) == 64 * Top(start, h + 1) + d
    requires h == 0 ==> n.tags[d]
    ensures Searched(n, h, start, max, SearchSlot(n, h, d, start, max))
    decreases h, MAP_SIZE - d
  {
    hide First, Top, Get, Searched, AllUsed, SearchNode, NodeOk, Digit;
    if h > 0 { SlotAt(n, h, d); }
    if h == 0 || n.slots[d].Null? {
      EmptySlotFound(n, h, d, start, max);
    } else {
      var c := n.slots[d].n;
      NodeSearched(c, h - 1, start, max);
      var r := SearchNode(c, h - 1, start, max);
      ChildSearched(n, h, d, start, max, r);
      if r.Full? {
        SlotDone(n, h, d, start, max, r.next);
        if d + 1 < MAP_SIZE {
          SlotSearched(n, h, d + 1, r.next, max);
          Chain(n, h, start, r.next, max, SearchSlot(n, h, d + 1, r.next, max));
        }
      }
    }
  }

  lemma EmptySlotFound(n: Node, h: nat, d: nat, start: nat, max: nat)
    requires NodeOk(n, h) && d < MAP_SIZE && start <= max
    requires Top(start, h) == 64 * Top(start, h + 1) + d
    requires if h == 0 then n.tags[d] else n.slots[d].Null?
    ensures Searched(n, h, start, max, Found(start))
  {
    BlockEnd(start, h, d);
    assert Digit(start, h) == d;
  }

  lemma SlotDone(n: Node, h: nat, d: nat, start: nat, max: nat, next: nat)
    requires d < MAP_SIZE && Top(start, h) == 64 * Top(start, h + 1) + d
    requires next == First(Top(start, h) + 1, h) && next <= max && AllUsed(n, h, start, next)
    ensures start <= next
    ensures d + 1 == MAP_SIZE ==> Searched(n, h, start, max, Full(next))
    ensures d + 1 < MAP_SIZE ==> Top(next, h + 1) == Top(start, h + 1) && Top(next, h) == 64 * Top(next, h + 1) + d + 1
  {
    BlockEnd(start, h, d);
    hide First, Top, Get;
  }
}
