/** list_sort() itself. */
module ListSortProgram {
  import opened ListSortSpec
  import opened ListSort
  import opened ListSortBins

  ghost function RankOf(s: seq<Node>): Rank {
    if s == [] then map[] else RankOf(s[..|s| - 1])[s[|s| - 1] := |s| - 1]
  }

  lemma {:induction false} RankOfRanks(s: seq<Node>, size: nat)
    requires Nodes(s, size)
    ensures Ranks(RankOf(s), s)
  {
    if s != [] {
      var t := s[..|s| - 1];
      RankOfRanks(t, size);
      forall i | 0 <= i < |s| ensures s[i] in RankOf(s) && RankOf(s)[s[i]] == i {
        if i < |t| { assert t[i] == s[i] && s[i] != s[|s| - 1]; }
      }
    }
  }

  /** Everything the main loop knows: the bins, the node list being carried, and the rest of the input. */
  ghost predicate State(mem: seq<Node>, cmp: Compare, rank: Rank, bins: Bins, cur: seq<Node>, rest: seq<Node>) {
    && BinsOk(mem, cmp, rank, bins) && Sorted(mem, cmp, rank, cur) && Chain(mem, rest)
    && AllPrecede(rank, bins, cur) && AllPrecede(rank, bins, rest) && Precedes(rank, cur, rest)
  }

  /** The bins' heads in part[]. */
  ghost predicate Heads(part: seq<Node>, bins: Bins) {
    |part| == |bins| == BINS + 1 && forall k | 0 <= k < |bins| :: part[k] == FirstOf(bins[k])
  }

  /** Before each bin is looked at: all below lev are empty. */
  lemma {:induction false} CarryStep(mem: seq<Node>, mem': seq<Node>, cmp: Compare, rank: Rank, bins: Bins, lev: nat, cur: seq<Node>, rest: seq<Node>)
    requires Preorder(cmp) && State(mem, cmp, rank, bins, cur, rest) && lev < |bins| && EmptyBelow(bins, lev)
    requires OnlyIn(mem, mem', bins[lev] + cur) && Chain(mem', Merged(cmp, bins[lev], cur))
    ensures State(mem', cmp, rank, bins[lev := []], Merged(cmp, bins[lev], cur), rest)
    ensures EmptyBelow(bins[lev := []], lev + 1)
  {
    assert Precedes(rank, bins[lev], cur) && Sorted(mem, cmp, rank, bins[lev]) && Precedes(rank, bins[lev], rest);
    BinsAfterMerge(mem, mem', cmp, rank, bins, lev, cur);
    PrecedeAfterMerge(cmp, rank, bins, lev, cur, mem);
    MergedSorted(cmp, rank, bins[lev], cur);
    MergedPrecedes(cmp, rank, bins[lev], cur, rest);
    RestKept(mem, mem', rank, bins[lev], cur, rest);
    NoneBefore(rank, rest);
    hide Preorder, BinsOk, Sorted, Precedes, Merged, Chain;
  }

  lemma RestKept(mem: seq<Node>, mem': seq<Node>, rank: Rank, a: seq<Node>, cur: seq<Node>, rest: seq<Node>)
    requires Chain(mem, rest) && OnlyIn(mem, mem', a + cur) && Precedes(rank, a, rest) && Precedes(rank, cur, rest)
    ensures Chain(mem', rest) && Ranked(rank, rest)
  {
    ApartBack(a, rest);
    ApartBack(cur, rest);
    ApartFrom(rest, a, cur);
    ChainFramed(mem, mem', rest, a + cur);
  }

  lemma HeadIsNode(mem: seq<Node>, cmp: Compare, rank: Rank, bins: Bins, cur: seq<Node>, rest: seq<Node>, lev: nat)
    requires State(mem, cmp, rank, bins, cur, rest) && lev < |bins|
    ensures Chain(mem, bins[lev]) && Chain(mem, cur) && Apart(bins[lev], cur)
    ensures FirstOf(bins[lev]) == 0 <==> bins[lev] == []
  {
    assert Sorted(mem, cmp, rank, bins[lev]) && Precedes(rank, bins[lev], cur);
  }

  /** In the middle of a carry: the bins below lev are empty and list is what they became. */
  ghost predicate Carrying(mem: seq<Node>, part: seq<Node>, cmp: Compare, rank: Rank, bins: Bins, lev: nat, list: seq<Node>, rest: seq<Node>) {
    State(mem, cmp, rank, bins, list, rest) && Heads(part, bins) && lev <= BINS && EmptyBelow(bins, lev) && list != []
  }

  lemma CarryingHead(mem: seq<Node>, part: seq<Node>, cmp: Compare, rank: Rank, bins: Bins, lev: nat, list: seq<Node>, rest: seq<Node>)
    requires Carrying(mem, part, cmp, rank, bins, lev, list, rest)
    ensures |bins| == |part| == BINS + 1 && lev <= BINS && part[lev] == FirstOf(bins[lev])
    ensures Chain(mem, bins[lev]) && Chain(mem, list) && Apart(bins[lev], list)
    ensures part[lev] == 0 <==> bins[lev] == []
  {
    HeadIsNode(mem, cmp, rank, bins, list, rest, lev);
  }

  lemma {:induction false} CarryingOn(mem: seq<Node>, mem': seq<Node>, part: seq<Node>, cmp: Compare, rank: Rank, bins: Bins, lev: nat, list: seq<Node>, rest: seq<Node>)
    requires Preorder(cmp) && Carrying(mem, part, cmp, rank, bins, lev, list, rest) && |part| == |bins| == BINS + 1 && lev < BINS
    requires OnlyIn(mem, mem', bins[lev] + list) && Chain(mem', Merged(cmp, bins[lev], list))
    ensures Carrying(mem', part[lev := 0], cmp, rank, bins[lev := []], lev + 1, Merged(cmp, bins[lev], list), rest)
  {
    CarryStep(mem, mem', cmp, rank, bins, lev, list, rest);
    CarryTotal(cmp, bins, lev, list);
  }

  /** The binary counter's carry: merge with full bins from the bottom up, until an empty one. */
  method Carry(next: array<Node>, part: array<Node>, cmp: Compare, cur0: Node,
               ghost rank: Rank, ghost bins0: Bins, ghost list0: seq<Node>, ghost rest: seq<Node>)
    returns (cur: Node, lev: nat, ghost bins: Bins, ghost list: seq<Node>)
    requires next != part && Preorder(cmp) && Carrying(next[..], part[..], cmp, rank, bins0, 0, list0, rest)
    requires cur0 == FirstOf(list0) && |bins0| == BINS + 1 && bins0[BINS] == []
    modifies next, part
    ensures Carrying(next[..], part[..], cmp, rank, bins, lev, list, rest) && cur == FirstOf(list)
    ensures lev <= BINS && |bins| == BINS + 1 && bins[lev] == [] && forall k | lev <= k <= BINS :: bins[k] == bins0[k]
    ensures Total(bins) + multiset(list) == Total(bins0) + multiset(list0)
  {
    hide Carrying, Preorder, Merged, Total, Chain, Apart, FirstOf, OnlyIn;
    cur, lev, bins, list := cur0, 0, bins0, list0;
    CarryingHead(next[..], part[..], cmp, rank, bins, lev, list, rest);
    while part[lev] != 0
      invariant lev <= BINS && |bins| == part.Length == BINS + 1 && Carrying(next[..], part[..], cmp, rank, bins, lev, list, rest)
      invariant cur == FirstOf(list) && forall k | lev <= k <= BINS :: bins[k] == bins0[k]
      invariant Total(bins) + multiset(list) == Total(bins0) + multiset(list0)
      decreases BINS - lev
    {
      ghost var mem, heads := next[..], part[..];
      CarryingHead(mem, heads, cmp, rank, bins, lev, list, rest);
      CarryTotal(cmp, bins, lev, list);
      cur := Merge(next, cmp, part[lev], cur, bins[lev], list);
      CarryingOn(mem, next[..], heads, cmp, rank, bins, lev, list, rest);
      part[lev] := 0;
      assert part[..] == heads[lev := 0];
      bins, list := bins[lev := []], Merged(cmp, bins[lev], list);
      lev := lev + 1;
    }
    CarryingHead(next[..], part[..], cmp, rank, bins, lev, list, rest);
  }

  lemma CarryTotal(cmp: Compare, bins: Bins, lev: nat, list: seq<Node>)
    requires lev < |bins|
    ensures Total(bins[lev := []]) + multiset(Merged(cmp, bins[lev], list)) == Total(bins) + multiset(list)
    ensures list != [] ==> Merged(cmp, bins[lev], list) != []
  {
    MergedSame(cmp, bins[lev], list);
    TotalUpdate(bins, lev, []);
    assert Total(bins[lev := []]) + (multiset(bins[lev]) + multiset(list)) == (Total(bins[lev := []]) + multiset(bins[lev])) + multiset(list);
  }

  /** The next input node is cut off and becomes a list of its own. */
  lemma Detach(mem: seq<Node>, cmp: Compare, rank: Rank, bins: Bins, s: seq<Node>, j: nat)
    requires j < |s| && State(mem, cmp, rank, bins, [], s[j..]) && Ranks(rank, s) && Nodes(s, |mem|)
    ensures s[j] < |mem| && mem[s[j]] == FirstOf(s[j + 1..])
    ensures State(mem[s[j] := 0], cmp, rank, bins, [s[j]], s[j + 1..])
  {
    var x := s[j];
    var rest := s[j + 1..];
    assert s[j..][1..] == rest && s[j..][0] == x;
    ChainTail(mem, s[j..]);
    ChainKept(mem, rest, x, 0);
    forall k | 0 <= k < |bins| ensures Sorted(mem[x := 0], cmp, rank, bins[k]) && Precedes(rank, bins[k], [x]) && Precedes(rank, bins[k], rest) {
      assert Sorted(mem, cmp, rank, bins[k]) && Precedes(rank, bins[k], s[j..]);
      SplitPrecedes(rank, bins[k], s[j..]);
      ChainKept(mem, bins[k], x, 0);
    }
    SuffixLater(rank, s, j);
    assert Sorted(mem[x := 0], cmp, rank, [x]) by { assert x in rank; }
    assert BinsOk(mem[x := 0], cmp, rank, bins);
  }

  lemma SplitPrecedes(rank: Rank, a: seq<Node>, s: seq<Node>)
    requires Precedes(rank, a, s) && s != []
    ensures Precedes(rank, a, [s[0]]) && Precedes(rank, a, s[1..]) && s[0] !in a
  {
    assert s[0] in s && forall x | x in s[1..] :: x in s;
  }

  lemma SuffixLater(rank: Rank, s: seq<Node>, j: nat)
    requires Ranks(rank, s) && j < |s|
    ensures Precedes(rank, [s[j]], s[j + 1..])
  {
    forall y | y in s[j + 1..] ensures y in rank && rank[s[j]] < rank[y] {
      var i :| 0 <= i < |s| - j - 1 && s[j + 1..][i] == y;
      assert s[i + j + 1] == y;
    }
  }

  /** The carried list is put away. */
  lemma PutAway(mem: seq<Node>, cmp: Compare, rank: Rank, bins: Bins, lev: nat, cur: seq<Node>, rest: seq<Node>)
    requires State(mem, cmp, rank, bins, cur, rest) && lev < |bins| && EmptyBelow(bins, lev) && bins[lev] == []
    ensures State(mem, cmp, rank, bins[lev := cur], [], rest)
    ensures Total(bins[lev := cur]) == Total(bins) + multiset(cur)
  {
    PutInBin(mem, cmp, rank, bins, lev, cur);
    TotalUpdate(bins, lev, cur);
    var bins' := bins[lev := cur];
    RankedOf(rank, cur, rest);
    NoneBefore(rank, rest);
    forall k | 0 <= k < |bins'| ensures Precedes(rank, bins'[k], []) {
      assert Sorted(mem, cmp, rank, bins'[k]);
    }
  }

  // ---------- the main loop

  /** After j nodes of s: the bins hold them, and the highest bin ever used is not empty. */
  ghost predicate Sorting(mem: seq<Node>, part: seq<Node>, cmp: Compare, rank: Rank, bins: Bins, s: seq<Node>, j: nat, maxLev: nat) {
    && j <= |s| && State(mem, cmp, rank, bins, [], s[j..]) && Heads(part, bins) && Total(bins) == multiset(s[..j])
    && TopBin(bins, maxLev) && (bins[maxLev] != [] || (j == 0 && maxLev == 0))
  }

  /** Nothing above bin maxLev, which is a real bin. */
  ghost predicate TopBin(bins: Bins, maxLev: nat) {
    maxLev < BINS < |bins| && forall k | maxLev < k < |bins| :: bins[k] == []
  }

  lemma {:induction false} StartCarry(mem: seq<Node>, part: seq<Node>, cmp: Compare, rank: Rank, bins: Bins, s: seq<Node>, j: nat, maxLev: nat)
    requires Sorting(mem, part, cmp, rank, bins, s, j, maxLev) && j < |s| && Ranks(rank, s) && Nodes(s, |mem|)
    ensures s[j] < |mem| && mem[s[j]] == FirstOf(s[j + 1..]) && FirstOf(s[j..]) == s[j]
    ensures Carrying(mem[s[j] := 0], part, cmp, rank, bins, 0, [s[j]], s[j + 1..])
    ensures |bins| == BINS + 1 && bins[BINS] == [] && maxLev < BINS && TopBin(bins, maxLev)
    ensures Total(bins) == multiset(s[..j]) && (bins[maxLev] != [] || (j == 0 && maxLev == 0))
  {
    Detach(mem, cmp, rank, bins, s, j);
    hide State, Nodes;
  }

  /** Which bin the carried list goes to: the empty one found, or the last real one. */
  function Slot(lev: nat): nat {
    if lev >= BINS then BINS - 1 else lev
  }

  lemma {:induction false} EndCarry(mem: seq<Node>, part: seq<Node>, cmp: Compare, rank: Rank, bins0: Bins, bins: Bins, lev: nat, list: seq<Node>,
                 s: seq<Node>, j: nat, maxLev: nat)
    requires j < |s| && Carrying(mem, part, cmp, rank, bins, lev, list, s[j + 1..]) && |bins0| == |bins| == BINS + 1
    requires bins[lev] == [] && (forall k | lev <= k <= BINS :: bins[k] == bins0[k]) && TopBin(bins0, maxLev)
    requires bins0[maxLev] != [] || (j == 0 && maxLev == 0)
    requires Total(bins) + multiset(list) == multiset(s[..j]) + multiset{s[j]}
    ensures Slot(lev) < |part|
    ensures Sorting(mem, part[Slot(lev) := FirstOf(list)], cmp, rank, bins[Slot(lev) := list], s, j + 1,
                    if lev > maxLev then Slot(lev) else maxLev)
  {
    hide State, Total;
    var at := Slot(lev);
    assert EmptyBelow(bins, at) && bins[at] == [];
    PutAway(mem, cmp, rank, bins, at, list, s[j + 1..]);
    assert s[..j + 1] == s[..j] + [s[j]];
  }

  /** The list to be sorted, cut off from its head. */
  lemma CutRing(next: seq<Node>, prev: seq<Node>, head: Node, s: seq<Node>)
    requires Ring(next, prev, head, s) && s != []
    ensures head < |prev| && prev[head] < |next| && Chain(next[prev[head] := 0], s) && Nodes(s, |next|)
    ensures head < |next| && next[prev[head] := 0][head] == FirstOf(s) && 0 < head && head !in s
  {
    var c := [head] + s;
    var last := c[|s|];
    assert c[0] == head;
    assert prev[c[0]] == Prior(c, 0) == last;
    assert next[c[0]] == After(c, 0, head) && head != last;
    assert forall i | 0 <= i < |s| :: c[i + 1] == s[i];
    forall i | 0 <= i < |s| ensures next[last := 0][s[i]] == After(s, i, 0) {
      assert next[c[i + 1]] == After(c, i + 1, head);
      if i + 1 < |s| { assert c[i + 1] != last; }
    }
    forall i, k | 0 <= i < k < |s| ensures s[i] != s[k] {
      assert c[i + 1] != c[k + 1];
    }
    assert head !in s by {
      forall i | 0 <= i < |s| ensures s[i] != head { assert c[0] != c[i + 1]; }
    }
  }

  lemma RingEmpty(next: seq<Node>, prev: seq<Node>, head: Node, s: seq<Node>)
    requires Ring(next, prev, head, s)
    ensures head < |next| == |prev| && (next[head] == head <==> s == [])
  {
    var c := [head] + s;
    assert c[0] == head && next[c[0]] == After(c, 0, head);
    if s != [] { assert c[0] != c[1]; }
  }

  lemma StartSorting(mem: seq<Node>, part: seq<Node>, cmp: Compare, rank: Rank, bins: Bins, s: seq<Node>)
    requires Chain(mem, s) && Ranks(rank, s) && |part| == |bins| == BINS + 1
    requires forall k | 0 <= k <= BINS :: part[k] == 0 && bins[k] == []
    ensures Sorting(mem, part, cmp, rank, bins, s, 0, 0)
  {
    assert s[0..] == s && s[..0] == [];
    TotalEmpty(bins);
    assert Ranked(rank, s);
  }

  /** list_sort(): the ring is relinked into its one stable sorted arrangement. */
  method SortList(next: array<Node>, prev: array<Node>, head: Node, cmp: Compare, ghost s: seq<Node>) returns (ghost r: seq<Node>)
    requires next != prev && Ring(next[..], prev[..], head, s) && Preorder(cmp)
    modifies next, prev
    ensures Ring(next[..], prev[..], head, r) && multiset(r) == multiset(s) && StablySorted(cmp, RankOf(s), r)
  {
    hide Ring, Chain, Preorder, Sorting, Carrying, StablySorted, Nodes, Total, FirstOf, RankOf, TopBin;
    RingEmpty(next[..], prev[..], head, s);
    if next[head] == head {
      NothingSorted(cmp, RankOf(s));
      return s;
    }
    CutRing(next[..], prev[..], head, s);
    RankOfRanks(s, next.Length);
    ghost var rank := RankOf(s);
    var part := new Node[BINS + 1](_ => 0);
    ghost var mem: seq<Node> := next[..];
    next[prev[head]] := 0;
    assert next[..] == mem[prev[head] := 0];
    var list := next[head];
    var maxLev: nat := 0;
    ghost var bins: Bins := seq(BINS + 1, _ => []);
    ghost var j := 0;
    assert s[0..] == s;
    StartSorting(next[..], part[..], cmp, rank, bins, s);
    while list != 0
      invariant fresh(part) && part.Length == BINS + 1 && j <= |s| && list == FirstOf(s[j..])
      invariant Sorting(next[..], part[..], cmp, rank, bins, s, j, maxLev)
      decreases |s| - j
    {
      NotDone(s, j, next.Length);
      StartCarry(next[..], part[..], cmp, rank, bins, s, j, maxLev);
      var cur := list;
      mem := next[..];
      list := next[list];
      next[cur] := 0;
      assert next[..] == mem[s[j] := 0];
      maxLev, bins := PutNode(next, part, cmp, cur, maxLev, rank, bins, s, j);
      j := j + 1;
    }
    NotDone(s, j, next.Length);
    r := Finish(next, prev, part, cmp, head, maxLev, rank, bins, s);
  }

  /** One node into the bins. */
  method PutNode(next: array<Node>, part: array<Node>, cmp: Compare, cur0: Node, maxLev0: nat,
                 ghost rank: Rank, ghost bins0: Bins, ghost s: seq<Node>, ghost j: nat) returns (maxLev: nat, ghost bins: Bins)
    requires next != part && Preorder(cmp) && j < |s| && cur0 == s[j]
    requires Carrying(next[..], part[..], cmp, rank, bins0, 0, [s[j]], s[j + 1..])
    requires |bins0| == BINS + 1 && bins0[BINS] == [] && maxLev0 < BINS && TopBin(bins0, maxLev0) && Total(bins0) == multiset(s[..j])
    requires bins0[maxLev0] != [] || (j == 0 && maxLev0 == 0)
    modifies next, part
    ensures Sorting(next[..], part[..], cmp, rank, bins, s, j + 1, maxLev)
  {
    hide Carrying, Preorder, Sorting, Total, TopBin;
    var cur, lev;
    ghost var list;
    cur, lev, bins, list := Carry(next, part, cmp, cur0, rank, bins0, [s[j]], s[j + 1..]);
    EndCarry(next[..], part[..], cmp, rank, bins0, bins, lev, list, s, j, maxLev0);
    ghost var heads := part[..];
    maxLev := maxLev0;
    if lev > maxLev {
      if lev >= BINS {
        lev := lev - 1;
      }
      maxLev := lev;
    }
    part[lev] := cur;
    assert part[..] == heads[lev := FirstOf(list)];
    bins := bins[lev := list];
  }

  lemma NothingSorted(cmp: Compare, rank: Rank)
    ensures StablySorted(cmp, rank, [])
  {
  }

  lemma NotDone(s: seq<Node>, j: nat, size: nat)
    requires j <= |s| && Nodes(s, size)
    ensures FirstOf(s[j..]) != 0 <==> j < |s|
  {
  }

  // ---------- the final merges

  /** Bins below lev have been merged into list. */
  ghost predicate Finishing(mem: seq<Node>, part: seq<Node>, cmp: Compare, rank: Rank, bins: Bins, lev: nat, list: seq<Node>,
                            s: seq<Node>, maxLev: nat) {
    && State(mem, cmp, rank, bins, list, []) && TopBin(bins, maxLev) && bins[maxLev] != [] && lev <= maxLev && EmptyBelow(bins, lev)
    && |part| == |bins| == BINS + 1 && (forall k | lev <= k <= BINS :: part[k] == FirstOf(bins[k]))
    && Total(bins) + multiset(list) == multiset(s)
  }

  lemma StartFinish(mem: seq<Node>, part: seq<Node>, cmp: Compare, rank: Rank, bins: Bins, s: seq<Node>, maxLev: nat)
    requires Sorting(mem, part, cmp, rank, bins, s, |s|, maxLev) && s != []
    ensures Finishing(mem, part, cmp, rank, bins, 0, [], s, maxLev)
  {
    assert s[|s|..] == [] && s[..|s|] == s;
    hide State;
  }

  lemma FinishingHead(mem: seq<Node>, part: seq<Node>, cmp: Compare, rank: Rank, bins: Bins, lev: nat, list: seq<Node>, s: seq<Node>, maxLev: nat)
    requires Finishing(mem, part, cmp, rank, bins, lev, list, s, maxLev)
    ensures |part| == |bins| == BINS + 1 && lev <= maxLev < BINS && part[lev] == FirstOf(bins[lev])
    ensures Chain(mem, bins[lev]) && Chain(mem, list) && Apart(bins[lev], list)
    ensures part[lev] == 0 <==> bins[lev] == []
  {
    HeadIsNode(mem, cmp, rank, bins, list, [], lev);
  }

  lemma {:induction false} FinishStep(mem: seq<Node>, mem': seq<Node>, part: seq<Node>, cmp: Compare, rank: Rank, bins: Bins, lev: nat, list: seq<Node>,
                   s: seq<Node>, maxLev: nat)
    requires Preorder(cmp) && Finishing(mem, part, cmp, rank, bins, lev, list, s, maxLev) && lev < maxLev && |bins| == BINS + 1
    requires OnlyIn(mem, mem', bins[lev] + list) && Chain(mem', Merged(cmp, bins[lev], list))
    ensures Finishing(mem', part, cmp, rank, bins[lev := []], lev + 1, Merged(cmp, bins[lev], list), s, maxLev)
  {
    hide State, Total, Merged, Chain, OnlyIn;
    CarryStep(mem, mem', cmp, rank, bins, lev, list, []);
    CarryTotal(cmp, bins, lev, list);
  }

  lemma SkipBin(mem: seq<Node>, part: seq<Node>, cmp: Compare, rank: Rank, bins: Bins, lev: nat, list: seq<Node>, s: seq<Node>, maxLev: nat)
    requires Finishing(mem, part, cmp, rank, bins, lev, list, s, maxLev) && lev < maxLev && |bins| == BINS + 1 && bins[lev] == []
    ensures Finishing(mem, part, cmp, rank, bins, lev + 1, list, s, maxLev)
  {
    hide State, Total;
  }

  lemma {:induction false} TotalOne(bins: Bins, k: nat)
    requires k < |bins| && forall i | 0 <= i < |bins| && i != k :: bins[i] == []
    ensures Total(bins) == multiset(bins[k])
  {
    var last := |bins| - 1;
    if k == last {
      TotalEmpty(bins[..last]);
    } else {
      TotalOne(bins[..last], k);
    }
  }

  /** With one bin left, merging it with the list gives the answer. */
  lemma {:induction false} FinishLast(mem: seq<Node>, part: seq<Node>, cmp: Compare, rank: Rank, bins: Bins, list: seq<Node>, s: seq<Node>, maxLev: nat)
    requires Preorder(cmp) && Finishing(mem, part, cmp, rank, bins, maxLev, list, s, maxLev) && |bins| == BINS + 1
    ensures bins[maxLev] != []
    ensures var r := Merged(cmp, bins[maxLev], list); StablySorted(cmp, rank, r) && multiset(r) == multiset(s)
    ensures forall x | x in bins[maxLev] || x in list :: x in s
  {
    assert Sorted(mem, cmp, rank, bins[maxLev]) && Precedes(rank, bins[maxLev], list);
    MergedSorted(cmp, rank, bins[maxLev], list);
    MergedSame(cmp, bins[maxLev], list);
    TotalOne(bins, maxLev);
    hide State, Preorder, BinsOk, Sorted, Precedes, StablySorted, Merged, Total;
    forall x | x in bins[maxLev] || x in list ensures x in s {
      assert x in multiset(bins[maxLev]) || x in multiset(list);
      assert x in multiset(s);
    }
  }

  method Finish(next: array<Node>, prev: array<Node>, part: array<Node>, cmp: Compare, head: Node, maxLev: nat,
                ghost rank: Rank, ghost bins0: Bins, ghost s: seq<Node>) returns (ghost r: seq<Node>)
    requires next != prev && next != part && prev != part && next.Length == prev.Length && 0 < head < next.Length && head !in s
    requires Preorder(cmp) && Sorting(next[..], part[..], cmp, rank, bins0, s, |s|, maxLev) && s != []
    modifies next, prev
    ensures Ring(next[..], prev[..], head, r) && multiset(r) == multiset(s) && StablySorted(cmp, rank, r)
  {
    hide Ring, Chain, Preorder, Sorting, Finishing, StablySorted, Merged, Apart, FirstOf, OnlyIn;
    var list := 0;
    ghost var bins, acc := bins0, [];
    StartFinish(next[..], part[..], cmp, rank, bins, s, maxLev);
    FinishingHead(next[..], part[..], cmp, rank, bins, 0, acc, s, maxLev);
    NoneFirst();
    for lev := 0 to maxLev
      invariant Finishing(next[..], part[..], cmp, rank, bins, lev, acc, s, maxLev) && list == FirstOf(acc)
      invariant maxLev < BINS && |bins| == part.Length == BINS + 1
    {
      FinishingHead(next[..], part[..], cmp, rank, bins, lev, acc, s, maxLev);
      if part[lev] != 0 {
        ghost var mem := next[..];
        list := Merge(next, cmp, part[lev], list, bins[lev], acc);
        FinishStep(mem, next[..], part[..], cmp, rank, bins, lev, acc, s, maxLev);
        bins, acc := bins[lev := []], Merged(cmp, bins[lev], acc);
      } else {
        SkipBin(next[..], part[..], cmp, rank, bins, lev, acc, s, maxLev);
      }
    }
    FinishingHead(next[..], part[..], cmp, rank, bins, maxLev, acc, s, maxLev);
    FinishLast(next[..], part[..], cmp, rank, bins, acc, s, maxLev);
    r := Merged(cmp, bins[maxLev], acc);
    MergeAndRestore(next, prev, cmp, head, part[maxLev], list, bins[maxLev], acc);
  }

  lemma NoneFirst()
    ensures FirstOf([]) == 0
  {
  }
}
