/** lib/list_sort.c: merge sort by relinking, with a binary counter of partial lists. */
module ListSort {
  import opened ListSortSpec

  /** MAX_LIST_LENGTH_BITS; part[] has one more slot, always empty. */
  const BINS: nat := 20

  // ---------- lists in memory

  ghost predicate Nodes(s: seq<Node>, size: nat) {
    (forall i | 0 <= i < |s| :: 0 < s[i] < size) && forall i, j | 0 <= i < j < |s| :: s[i] != s[j]
  }

  function FirstOf(s: seq<Node>): Node {
    if |s| == 0 then 0 else s[0]
  }

  /** The node after the i-th, or the one that ends the list. */
  function After(s: seq<Node>, i: nat, end: Node): Node {
    if i + 1 < |s| then s[i + 1] else end
  }

  /** The node before the i-th; before the first, the last. */
  function Prior(s: seq<Node>, i: nat): Node
    requires i < |s|
  {
    if i > 0 then s[i - 1] else s[|s| - 1]
  }

  /** NULL-terminated list s, linked through next. */
  ghost predicate Chain(next: seq<Node>, s: seq<Node>) {
    Nodes(s, |next|) && forall i | 0 <= i < |s| :: next[s[i]] == After(s, i, 0)
  }

  /** The nodes of s are linked one to the next, the last to anything. */
  ghost predicate Path(next: seq<Node>, s: seq<Node>) {
    Nodes(s, |next|) && forall i | 0 <= i < |s| - 1 :: next[s[i]] == After(s, i, 0)
  }

  ghost predicate Apart(a: seq<Node>, b: seq<Node>) {
    forall x | x in a :: x !in b
  }

  /** Circular doubly linked list with sentinel head. */
  ghost predicate Ring(next: seq<Node>, prev: seq<Node>, head: Node, s: seq<Node>) {
    var c := [head] + s;
    && |prev| == |next| && Nodes(c, |next|)
    && (forall i | 0 <= i < |c| :: next[c[i]] == After(c, i, head))
    && (forall i | 0 <= i < |c| :: prev[c[i]] == Prior(c, i))
  }

  /** Memory outside the nodes of s is the same. */
  ghost predicate OnlyIn(a: seq<Node>, b: seq<Node>, s: seq<Node>) {
    |a| == |b| && forall x: Node | x < |a| && x !in s :: a[x] == b[x]
  }

  lemma ChainTail(next: seq<Node>, s: seq<Node>)
    requires Chain(next, s) && s != []
    ensures Chain(next, s[1..]) && next[s[0]] == FirstOf(s[1..]) && s[0] !in s[1..]
  {
    assert forall i | 0 <= i < |s| - 1 :: s[1..][i] == s[i + 1];
    assert next[s[0]] == FirstOf(s[1..]);
  }

  /** Writing outside a list leaves it. */
  lemma ChainKept(next: seq<Node>, s: seq<Node>, x: Node, v: Node)
    requires Chain(next, s) && x < |next| && x !in s
    ensures Chain(next[x := v], s)
  {
  }

  lemma PathGrows(next: seq<Node>, s: seq<Node>, y: Node)
    requires Path(next, s) && s != [] && 0 < y < |next| && y !in s
    ensures Path(next[s[|s| - 1] := y], s + [y])
  {
    var t := s + [y];
    var n := next[s[|s| - 1] := y];
    forall i | 0 <= i < |t| - 1 ensures n[t[i]] == After(t, i, 0) {
      if i < |s| - 1 { assert t[i] == s[i] && s[i] != s[|s| - 1]; }
    }
  }

  lemma NodesAppend(s: seq<Node>, t: seq<Node>, size: nat)
    requires Nodes(s, size) && Nodes(t, size) && Apart(s, t)
    ensures Nodes(s + t, size)
  {
    var u := s + t;
    forall i, j | 0 <= i < j < |u| ensures u[i] != u[j] {
      if i < |s| <= j { assert s[i] in s && t[j - |s|] in t; }
    }
  }

  /** A path closed by a list is a list. */
  lemma PathCloses(next: seq<Node>, s: seq<Node>, t: seq<Node>)
    requires Path(next, s) && s != [] && Chain(next, t) && Apart(s, t)
    ensures Chain(next[s[|s| - 1] := FirstOf(t)], s + t)
  {
    NodesAppend(s, t, |next|);
    forall i | 0 <= i < |s + t|
      ensures next[s[|s| - 1] := FirstOf(t)][(s + t)[i]] == After(s + t, i, 0)
    {
      ClosedAt(next, s, t, i);
    }
  }

  lemma ClosedAt(next: seq<Node>, s: seq<Node>, t: seq<Node>, i: nat)
    requires Path(next, s) && s != [] && Chain(next, t) && Apart(s, t) && i < |s + t|
    ensures (s + t)[i] < |next| && next[s[|s| - 1] := FirstOf(t)][(s + t)[i]] == After(s + t, i, 0)
  {
    var last := s[|s| - 1];
    if i < |s| - 1 {
      assert s[i] != last && next[s[i]] == After(s, i, 0);
    } else if i >= |s| {
      var k := i - |s|;
      assert t[k] in t && last in s;
      assert next[t[k]] == After(t, k, 0);
    }
  }

  // ---------- merge()

  /** The merged part so far and the two lists still to be merged. */
  ghost predicate Merging(mem: seq<Node>, done: seq<Node>, a: seq<Node>, b: seq<Node>) {
    Path(mem, done) && Chain(mem, a) && Chain(mem, b) && Apart(done, a) && Apart(done, b) && Apart(a, b)
  }

  /** Memory after tail->next = v; the tail of an empty part is the dummy head. */
  ghost function Linked(mem: seq<Node>, done: seq<Node>, v: Node): seq<Node>
    requires done != [] ==> done[|done| - 1] < |mem|
  {
    if done == [] then mem else mem[done[|done| - 1] := v]
  }

  lemma Takes(mem: seq<Node>, done: seq<Node>, a: seq<Node>, b: seq<Node>)
    requires Merging(mem, done, a, b) && a != []
    ensures 0 < a[0] < |mem| && (done != [] ==> 0 < done[|done| - 1] < |mem|)
    ensures Merging(Linked(mem, done, a[0]), done + [a[0]], a[1..], b)
    ensures mem[a[0]] == Linked(mem, done, a[0])[a[0]] == FirstOf(a[1..])
  {
    var x := a[0];
    assert x in a;
    ChainTail(mem, a);
    assert Apart(done + [x], a[1..]) && Apart(done + [x], b) && Apart(a[1..], b) by { TakesApart(done, a, b); }
    if done != [] {
      var last := done[|done| - 1];
      assert last in done;
      assert last !in a && forall y | y in a[1..] :: y in a;
      ChainKept(mem, a[1..], last, x);
      ChainKept(mem, b, last, x);
      PathGrows(mem, done, x);
    }
  }

  lemma TakesApart(done: seq<Node>, a: seq<Node>, b: seq<Node>)
    requires Apart(done, a) && Apart(done, b) && Apart(a, b) && a != [] && a[0] !in a[1..]
    ensures Apart(done + [a[0]], a[1..]) && Apart(done + [a[0]], b) && Apart(a[1..], b)
  {
    assert forall y | y in a[1..] :: y in a;
    assert a[0] in a;
  }

  lemma Swap(mem: seq<Node>, done: seq<Node>, a: seq<Node>, b: seq<Node>)
    requires Merging(mem, done, a, b)
    ensures Merging(mem, done, b, a)
  {
    assert forall y | y in b :: y !in a;
  }

  /** Which list the next node comes from. */
  lemma {:induction false} MergedStep(cmp: Compare, done: seq<Node>, a: seq<Node>, b: seq<Node>)
    requires a != [] && b != []
    ensures done + Merged(cmp, a, b) ==
            if cmp(a[0], b[0]) <= 0 then done + [a[0]] + Merged(cmp, a[1..], b) else done + [b[0]] + Merged(cmp, a, b[1..])
  {
    if cmp(a[0], b[0]) <= 0 {
      assert Merged(cmp, a, b) == [a[0]] + Merged(cmp, a[1..], b);
    } else {
      assert Merged(cmp, a, b) == [b[0]] + Merged(cmp, a, b[1..]);
    }
  }

  ghost predicate Within(done: seq<Node>, all: seq<Node>) {
    forall x | x in done :: x in all
  }

  method Merge(next: array<Node>, cmp: Compare, a0: Node, b0: Node, ghost la: seq<Node>, ghost lb: seq<Node>) returns (r: Node)
    requires Chain(next[..], la) && Chain(next[..], lb) && Apart(la, lb) && a0 == FirstOf(la) && b0 == FirstOf(lb)
    modifies next
    ensures Chain(next[..], Merged(cmp, la, lb)) && r == FirstOf(Merged(cmp, la, lb))
    ensures OnlyIn(old(next[..]), next[..], la + lb)
  {
    hide Chain, Path, Merging, Merged, Apart, Within, OnlyIn;
    var a, b, tail := a0, b0, 0;
    r := 0;
    ghost var done: seq<Node>, ra, rb := [], la, lb;
    ghost var all := la + lb;
    StartMerge(next[..], la, lb);
    StartIn(next[..], la, lb);
    while a != 0 && b != 0
      invariant Merging(next[..], done, ra, rb) && a == FirstOf(ra) && b == FirstOf(rb)
      invariant (done == [] ==> tail == 0) && (done != [] ==> tail == done[|done| - 1] > 0) && r == FirstOf(done)
      invariant done + Merged(cmp, ra, rb) == Merged(cmp, la, lb)
      invariant Within(done, all) && Within(ra, all) && Within(rb, all) && OnlyIn(old(next[..]), next[..], all)
      decreases |ra| + |rb|
    {
      MergedStep(cmp, done, ra, rb);
      ghost var mem := next[..];
      if cmp(a, b) <= 0 {
        Takes(mem, done, ra, rb);
        StillIn(done, ra, all);
        LinkedIn(old(next[..]), mem, done, a, all);
        if tail == 0 { r := a; } else { next[tail] := a; }
        assert next[..] == Linked(mem, done, a);
        tail := a;
        a := next[a];
        done, ra := done + [ra[0]], ra[1..];
      } else {
        Swap(mem, done, ra, rb);
        Takes(mem, done, rb, ra);
        StillIn(done, rb, all);
        LinkedIn(old(next[..]), mem, done, b, all);
        if tail == 0 { r := b; } else { next[tail] := b; }
        assert next[..] == Linked(mem, done, b);
        tail := b;
        b := next[b];
        done, rb := done + [rb[0]], rb[1..];
        Swap(next[..], done, rb, ra);
      }
    }
    ghost var mem := next[..];
    EndMerge(mem, cmp, done, ra, rb);
    var rest := if a != 0 then a else b;
    LinkedIn(old(next[..]), mem, done, rest, all);
    if tail == 0 { r := rest; } else { next[tail] := rest; }
    assert next[..] == Linked(mem, done, rest);
  }

  lemma StartIn(mem: seq<Node>, a: seq<Node>, b: seq<Node>)
    ensures Within([], a + b) && Within(a, a + b) && Within(b, a + b) && OnlyIn(mem, mem, a + b)
  {
  }

  lemma StillIn(done: seq<Node>, a: seq<Node>, all: seq<Node>)
    requires Within(done, all) && Within(a, all) && a != []
    ensures Within(done + [a[0]], all) && Within(a[1..], all)
  {
    assert a[0] in a && forall y | y in a[1..] :: y in a;
  }

  lemma LinkedIn(mem0: seq<Node>, mem: seq<Node>, done: seq<Node>, v: Node, all: seq<Node>)
    requires OnlyIn(mem0, mem, all) && Within(done, all) && (done != [] ==> done[|done| - 1] < |mem|)
    ensures OnlyIn(mem0, Linked(mem, done, v), all)
  {
    assert done != [] ==> done[|done| - 1] in done;
  }

  lemma StartMerge(mem: seq<Node>, a: seq<Node>, b: seq<Node>)
    requires Chain(mem, a) && Chain(mem, b) && Apart(a, b)
    ensures Merging(mem, [], a, b)
  {
  }

  /** When one list has run out, linking the other in ends the merge. */
  lemma EndMerge(mem: seq<Node>, cmp: Compare, done: seq<Node>, a: seq<Node>, b: seq<Node>)
    requires Merging(mem, done, a, b) && (FirstOf(a) == 0 || FirstOf(b) == 0)
    ensures done != [] ==> 0 < done[|done| - 1] < |mem|
    ensures a == [] || b == []
    ensures var rest := if FirstOf(a) != 0 then a else b;
            && rest == Merged(cmp, a, b) && FirstOf(rest) == (if FirstOf(a) != 0 then FirstOf(a) else FirstOf(b))
            && Chain(Linked(mem, done, FirstOf(rest)), done + rest) && (a != [] || b != [] ==> rest != [])
  {
    assert a != [] ==> a[0] > 0;
    assert b != [] ==> b[0] > 0;
    var rest := if FirstOf(a) != 0 then a else b;
    if done != [] {
      PathCloses(mem, done, rest);
    } else {
      assert done + rest == rest;
    }
  }

  // ---------- merge_and_restore_back_links()

  /** The back links of s are right up to the k-th node. */
  ghost predicate BackTo(prev: seq<Node>, s: seq<Node>, k: int) {
    Nodes(s, |prev|) && forall i | 0 < i < |s| && i <= k :: prev[s[i]] == Prior(s, i)
  }

  lemma BackGrows(prev: seq<Node>, s: seq<Node>, x: Node)
    requires s != [] && BackTo(prev, s, |s| - 1) && Nodes(s + [x], |prev|) && x < |prev|
    ensures s[|s| - 1] < |prev| && BackTo(prev[x := s[|s| - 1]], s + [x], |s|)
  {
    var t := s + [x];
    assert t[|s|] == x;
    forall i | 0 < i < |t| && i <= |s| ensures prev[x := s[|s| - 1]][t[i]] == Prior(t, i) {
      if i < |s| { assert t[i] == s[i] && t[i] != x && prev[s[i]] == Prior(s, i); }
    }
  }

  lemma BackStep(prev: seq<Node>, s: seq<Node>, k: nat)
    requires k + 1 < |s| && BackTo(prev, s, k)
    ensures s[k + 1] < |prev| && BackTo(prev[s[k + 1] := s[k]], s, k + 1)
  {
    forall i | 0 < i < |s| && i <= k + 1 ensures prev[s[k + 1] := s[k]][s[i]] == Prior(s, i) {
      if i <= k { assert s[i] != s[k + 1] && prev[s[i]] == Prior(s, i); }
    }
  }

  lemma BackStart(prev: seq<Node>, s: seq<Node>, t: seq<Node>)
    requires s != [] && BackTo(prev, s, |s| - 1) && Nodes(s + t, |prev|)
    ensures BackTo(prev, s + t, |s| - 1)
  {
    forall i | 0 < i < |s| ensures prev[(s + t)[i]] == Prior(s + t, i) {
      assert prev[s[i]] == Prior(s, i);
    }
  }

  /** Closing the ring. */
  lemma RingCloses(next: seq<Node>, prev: seq<Node>, head: Node, s: seq<Node>)
    requires |prev| == |next| && Chain(next, [head] + s) && BackTo(prev, [head] + s, |s|)
    ensures var last := ([head] + s)[|s|]; last < |next| && head < |next| && Ring(next[last := head], prev[head := last], head, s)
  {
    var c := [head] + s;
    var last := c[|s|];
    assert c[0] == head;
    forall i | 0 <= i < |c| ensures next[last := head][c[i]] == After(c, i, head) {
      assert next[c[i]] == After(c, i, 0);
      if i < |s| { assert c[i] != last; }
    }
    forall i | 0 <= i < |c| ensures prev[head := last][c[i]] == Prior(c, i) {
      if i > 0 { assert c[i] != head && prev[c[i]] == Prior(c, i); }
    }
  }

  method MergeAndRestore(next: array<Node>, prev: array<Node>, cmp: Compare, head: Node, a0: Node, b0: Node,
                         ghost la: seq<Node>, ghost lb: seq<Node>)
    requires next != prev && next.Length == prev.Length && 0 < head < next.Length && head !in la && head !in lb
    requires Chain(next[..], la) && Chain(next[..], lb) && Apart(la, lb) && a0 == FirstOf(la) && b0 == FirstOf(lb)
    requires la != [] || lb != []
    modifies next, prev
    ensures Ring(next[..], prev[..], head, Merged(cmp, la, lb))
  {
    hide Chain, Path, Merging, Merged, Apart, BackTo, Ring, Nodes;
    var a: Node, b: Node, tail: Node := a0, b0, head;
    ghost var done: seq<Node>, ra: seq<Node>, rb: seq<Node> := [head], la, lb;
    StartRestore(next[..], prev[..], head, la, lb);
    while a != 0 && b != 0
      invariant Merging(next[..], done, ra, rb) && a == FirstOf(ra) && b == FirstOf(rb) && (ra != [] || rb != [])
      invariant done != [] && done[0] == head && tail == done[|done| - 1] && BackTo(prev[..], done, |done| - 1)
      invariant done + Merged(cmp, ra, rb) == [head] + Merged(cmp, la, lb)
      decreases |ra| + |rb|
    {
      MergedStep(cmp, done, ra, rb);
      ghost var mem: seq<Node>, back: seq<Node> := next[..], prev[..];
      if cmp(a, b) <= 0 {
        Takes(mem, done, ra, rb);
        MergingNodes(Linked(mem, done, ra[0]), done + [ra[0]], ra[1..], rb);
        BackGrows(back, done, ra[0]);
        next[tail] := a;
        assert next[..] == Linked(mem, done, a);
        prev[a] := tail;
        assert prev[..] == back[a := tail];
        tail := a;
        a := next[a];
        done, ra := done + [ra[0]], ra[1..];
      } else {
        Swap(mem, done, ra, rb);
        Takes(mem, done, rb, ra);
        MergingNodes(Linked(mem, done, rb[0]), done + [rb[0]], rb[1..], ra);
        BackGrows(back, done, rb[0]);
        next[tail] := b;
        assert next[..] == Linked(mem, done, b);
        prev[b] := tail;
        assert prev[..] == back[b := tail];
        tail := b;
        b := next[b];
        done, rb := done + [rb[0]], rb[1..];
        Swap(next[..], done, rb, ra);
      }
    }
    EndMerge(next[..], cmp, done, ra, rb);
    ghost var rest := if a != 0 then ra else rb;
    ghost var mem := next[..];
    next[tail] := if a != 0 then a else b;
    assert next[..] == Linked(mem, done, FirstOf(rest));
    ghost var s := done + rest;
    ChainFacts(next[..], s, |done| - 1);
    BackStart(prev[..], done, rest);
    assert s == [head] + s[1..];
    RestoreLinks(next, prev, head, tail, s, |done| - 1);
  }

  /** The rest of the back links, and the ring closed. */
  method RestoreLinks(next: array<Node>, prev: array<Node>, head: Node, tail0: Node, ghost s: seq<Node>, ghost k0: nat)
    requires next != prev && next.Length == prev.Length && k0 + 1 < |s| && s == [head] + s[1..] && tail0 == s[k0]
    requires Chain(next[..], s) && BackTo(prev[..], s, k0)
    modifies next, prev
    ensures Ring(next[..], prev[..], head, s[1..])
  {
    hide Chain, BackTo, Ring, Nodes, After;
    ghost var k := k0;
    var tail: Node := tail0;
    while true
      invariant k < |s| - 1 && next[..] == old(next[..]) && tail == s[k] && BackTo(prev[..], s, k)
      decreases |s| - k
    {
      ChainFacts(next[..], s, k);
      BackStep(prev[..], s, k);
      ghost var back: seq<Node> := prev[..];
      prev[next[tail]] := tail;
      assert prev[..] == back[s[k + 1] := s[k]];
      tail := next[tail];
      k := k + 1;
      ChainFacts(next[..], s, k);
      if next[tail] == 0 {
        break;
      }
    }
    RingCloses(next[..], prev[..], head, s[1..]);
    CloseRing(next, prev, head, tail);
  }

  method CloseRing(next: array<Node>, prev: array<Node>, head: Node, tail: Node)
    requires next != prev && head < prev.Length && tail < next.Length
    modifies next, prev
    ensures next[..] == old(next[..])[tail := head] && prev[..] == old(prev[..])[head := tail]
  {
    next[tail] := head;
    prev[head] := tail;
  }

  lemma ChainFacts(next: seq<Node>, s: seq<Node>, k: nat)
    requires Chain(next, s) && k < |s|
    ensures Nodes(s, |next|) && 0 < s[k] < |next| && (k + 1 < |s| ==> next[s[k]] == s[k + 1] && 0 < s[k + 1] < |next|)
    ensures next[s[k]] == 0 <==> k + 1 == |s|
  {
    assert next[s[k]] == After(s, k, 0);
  }

  lemma StartRestore(next: seq<Node>, prev: seq<Node>, head: Node, a: seq<Node>, b: seq<Node>)
    requires |prev| == |next| && 0 < head < |next| && head !in a && head !in b
    requires Chain(next, a) && Chain(next, b) && Apart(a, b)
    ensures Merging(next, [head], a, b) && BackTo(prev, [head], 0)
  {
  }

  lemma MergingNodes(mem: seq<Node>, done: seq<Node>, a: seq<Node>, b: seq<Node>)
    requires Merging(mem, done, a, b)
    ensures Nodes(done, |mem|)
  {
  }
}
