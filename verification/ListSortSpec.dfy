/** Stable sorting of a list of nodes, and what merging two sorted lists gives. */
module ListSortSpec {

  /** Nodes are numbered from 1; 0 is NULL. */
  type Node = nat

  type Compare = (Node, Node) -> int

  predicate Le(cmp: Compare, x: Node, y: Node) {
    cmp(x, y) <= 0
  }

  /** What list_sort() asks of its comparison: any two nodes compare, and consistently. */
  ghost predicate Preorder(cmp: Compare) {
    && (forall x: Node, y: Node :: Le(cmp, x, y) || Le(cmp, y, x))
    && forall x: Node, y: Node, z: Node :: Le(cmp, x, y) && Le(cmp, y, z) ==> Le(cmp, x, z)
  }

  /** Where each node stood in the list to be sorted. */
  type Rank = map<Node, nat>

  ghost predicate Ranks(rank: Rank, s: seq<Node>) {
    forall i | 0 <= i < |s| :: s[i] in rank && rank[s[i]] == i
  }

  ghost predicate Ranked(rank: Rank, s: seq<Node>) {
    forall x | x in s :: x in rank
  }

  /** x belongs before y: it is less, or equivalent and was earlier. */
  ghost predicate Before(cmp: Compare, rank: Rank, x: Node, y: Node)
    requires x in rank && y in rank
  {
    Le(cmp, x, y) && (Le(cmp, y, x) ==> rank[x] < rank[y])
  }

  /** Sorted, with equivalent nodes in their old order. */
  ghost predicate StablySorted(cmp: Compare, rank: Rank, s: seq<Node>) {
    Ranked(rank, s) && forall i, j | 0 <= i < j < |s| :: Before(cmp, rank, s[i], s[j])
  }

  ghost predicate AllEarlier(rank: Rank, a: seq<Node>, b: seq<Node>) {
    Ranked(rank, a) && Ranked(rank, b) && forall x, y | x in a && y in b :: rank[x] < rank[y]
  }

  // ---------- merging

  /** The order in which merge() links two lists: the first list wins ties. */
  function Merged(cmp: Compare, a: seq<Node>, b: seq<Node>): seq<Node> {
    if a == [] then b
    else if b == [] then a
    else if cmp(a[0], b[0]) <= 0 then [a[0]] + Merged(cmp, a[1..], b)
    else [b[0]] + Merged(cmp, a, b[1..])
  }

  lemma {:induction false} MergedSame(cmp: Compare, a: seq<Node>, b: seq<Node>)
    ensures multiset(Merged(cmp, a, b)) == multiset(a) + multiset(b)
    ensures |Merged(cmp, a, b)| == |a| + |b|
  {
    if a != [] && b != [] {
      TailNodes(a);
      TailNodes(b);
      if cmp(a[0], b[0]) <= 0 {
        MergedSame(cmp, a[1..], b);
        ConsNodes(a[0], Merged(cmp, a[1..], b));
      } else {
        MergedSame(cmp, a, b[1..]);
        ConsNodes(b[0], Merged(cmp, a, b[1..]));
      }
    }
  }

  lemma {:induction false} MergedIn(cmp: Compare, a: seq<Node>, b: seq<Node>, x: Node)
    ensures x in Merged(cmp, a, b) <==> x in a || x in b
  {
    MergedSame(cmp, a, b);
    assert x in Merged(cmp, a, b) <==> x in multiset(Merged(cmp, a, b));
    assert x in a <==> x in multiset(a);
    assert x in b <==> x in multiset(b);
  }

  /** x comes before everything in s. */
  ghost predicate First(cmp: Compare, rank: Rank, x: Node, s: seq<Node>) {
    x in rank && Ranked(rank, s) && forall y | y in s :: Before(cmp, rank, x, y)
  }

  lemma SortedCons(cmp: Compare, rank: Rank, x: Node, s: seq<Node>)
    requires StablySorted(cmp, rank, s) && First(cmp, rank, x, s)
    ensures StablySorted(cmp, rank, [x] + s)
  {
    var t := [x] + s;
    forall i, j | 0 <= i < j < |t| ensures t[i] in rank && t[j] in rank && Before(cmp, rank, t[i], t[j]) {
      assert t[j] == s[j - 1];
      if i > 0 { assert t[i] == s[i - 1]; }
    }
  }

  lemma BeforeTrans(cmp: Compare, rank: Rank, x: Node, y: Node, z: Node)
    requires Preorder(cmp) && x in rank && y in rank && z in rank
    requires Before(cmp, rank, x, y) && Before(cmp, rank, y, z)
    ensures Before(cmp, rank, x, z)
  {
  }

  /** The head of a sorted list comes before its tail, and before whatever comes after it. */
  lemma HeadFirst(cmp: Compare, rank: Rank, x: Node, s: seq<Node>)
    requires Preorder(cmp) && StablySorted(cmp, rank, s) && s != [] && x in rank && Before(cmp, rank, x, s[0])
    ensures First(cmp, rank, x, s)
  {
    forall y | y in s ensures Before(cmp, rank, x, y) {
      var i :| 0 <= i < |s| && s[i] == y;
      if i > 0 {
        BeforeTrans(cmp, rank, x, s[0], y);
      }
    }
  }

  lemma TailSorted(cmp: Compare, rank: Rank, s: seq<Node>)
    requires StablySorted(cmp, rank, s) && s != []
    ensures StablySorted(cmp, rank, s[1..]) && First(cmp, rank, s[0], s[1..])
  {
    forall y | y in s[1..] ensures y in s && Before(cmp, rank, s[0], y) {
      var i :| 0 <= i < |s| - 1 && s[1..][i] == y;
      assert s[i + 1] == y;
    }
  }

  /** Merging sorted lists, the first of them earlier, gives a sorted list. */
  lemma {:induction false} MergedSorted(cmp: Compare, rank: Rank, a: seq<Node>, b: seq<Node>)
    requires Preorder(cmp) && StablySorted(cmp, rank, a) && StablySorted(cmp, rank, b) && AllEarlier(rank, a, b)
    ensures StablySorted(cmp, rank, Merged(cmp, a, b))
    decreases |a| + |b|
  {
    if a != [] && b != [] {
      var x, y := a[0], b[0];
      hide Preorder, StablySorted, Before, First;
      TailSorted(cmp, rank, a);
      TailSorted(cmp, rank, b);
      HeadsOrder(cmp, rank, a, b);
      if cmp(x, y) <= 0 {
        MergedSorted(cmp, rank, a[1..], b);
        HeadFirst(cmp, rank, x, b);
        FirstOfMerged(cmp, rank, x, a[1..], b);
        SortedCons(cmp, rank, x, Merged(cmp, a[1..], b));
      } else {
        MergedSorted(cmp, rank, a, b[1..]);
        HeadFirst(cmp, rank, y, a);
        FirstOfMerged(cmp, rank, y, a, b[1..]);
        SortedCons(cmp, rank, y, Merged(cmp, a, b[1..]));
      }
    }
  }

  lemma HeadsOrder(cmp: Compare, rank: Rank, a: seq<Node>, b: seq<Node>)
    requires Preorder(cmp) && AllEarlier(rank, a, b) && a != [] && b != []
    ensures a[0] in rank && b[0] in rank
    ensures if cmp(a[0], b[0]) <= 0 then Before(cmp, rank, a[0], b[0]) else Before(cmp, rank, b[0], a[0])
    ensures AllEarlier(rank, a[1..], b) && AllEarlier(rank, a, b[1..])
  {
    assert a[0] in a && b[0] in b;
    assert Le(cmp, a[0], b[0]) || Le(cmp, b[0], a[0]);
  }

  lemma {:induction false} FirstOfMerged(cmp: Compare, rank: Rank, x: Node, a: seq<Node>, b: seq<Node>)
    requires First(cmp, rank, x, a) && First(cmp, rank, x, b)
    ensures First(cmp, rank, x, Merged(cmp, a, b))
  {
    forall y ensures y in Merged(cmp, a, b) <==> y in a || y in b {
      MergedIn(cmp, a, b, y);
    }
  }

  // ---------- there is only one answer

  /** Two stable arrangements of the same nodes are the same. */
  lemma {:induction false} StableUnique(cmp: Compare, rank: Rank, r: seq<Node>, s: seq<Node>)
    requires StablySorted(cmp, rank, r) && StablySorted(cmp, rank, s) && multiset(r) == multiset(s)
    ensures r == s
    decreases |r|
  {
    if r == [] || s == [] {
      assert |multiset(r)| == |multiset(s)|;
    } else {
      SameHead(cmp, rank, r, s);
      TailSorted(cmp, rank, r);
      TailSorted(cmp, rank, s);
      TailNodes(r);
      TailNodes(s);
      hide StablySorted;
      StableUnique(cmp, rank, r[1..], s[1..]);
    }
  }

  lemma TailNodes(s: seq<Node>)
    requires s != []
    ensures s == [s[0]] + s[1..] && multiset(s) == multiset{s[0]} + multiset(s[1..])
    ensures multiset(s[1..]) == multiset(s) - multiset{s[0]}
  {
    assert s == [s[0]] + s[1..];
  }

  lemma ConsNodes(x: Node, s: seq<Node>)
    ensures multiset([x] + s) == multiset{x} + multiset(s)
  {
  }

  lemma SameHead(cmp: Compare, rank: Rank, r: seq<Node>, s: seq<Node>)
    requires StablySorted(cmp, rank, r) && StablySorted(cmp, rank, s) && multiset(r) == multiset(s) && r != [] && s != []
    ensures r[0] == s[0]
  {
    assert r[0] in multiset(s) && s[0] in multiset(r);
    HeadOrSame(cmp, rank, s, r[0]);
    HeadOrSame(cmp, rank, r, s[0]);
  }

  lemma HeadOrSame(cmp: Compare, rank: Rank, s: seq<Node>, x: Node)
    requires StablySorted(cmp, rank, s) && x in s
    ensures x in rank && s[0] in rank && (x == s[0] || Before(cmp, rank, s[0], x))
  {
    var i :| 0 <= i < |s| && s[i] == x;
  }
}
