/** The partial lists of list_sort(): each sorted, higher bins earlier in the input than lower ones. */
module ListSortBins {
  import opened ListSortSpec
  import opened ListSort

  type Bins = seq<seq<Node>>

  ghost predicate Sorted(mem: seq<Node>, cmp: Compare, rank: Rank, s: seq<Node>) {
    Chain(mem, s) && StablySorted(cmp, rank, s)
  }

  /** a stands wholly before b: no node in common, all of a earlier. */
  ghost predicate Precedes(rank: Rank, a: seq<Node>, b: seq<Node>) {
    Apart(a, b) && AllEarlier(rank, a, b)
  }

  ghost predicate BinsOk(mem: seq<Node>, cmp: Compare, rank: Rank, bins: Bins) {
    && (forall k | 0 <= k < |bins| :: Sorted(mem, cmp, rank, bins[k]))
    && forall k, m | 0 <= k < m < |bins| :: Precedes(rank, bins[m], bins[k])
  }

  /** Every bin stands before c. */
  ghost predicate AllPrecede(rank: Rank, bins: Bins, c: seq<Node>) {
    forall k | 0 <= k < |bins| :: Precedes(rank, bins[k], c)
  }

  ghost predicate EmptyBelow(bins: Bins, lev: nat) {
    lev <= |bins| && forall k | 0 <= k < lev :: bins[k] == []
  }

  /** The nodes of all bins. */
  ghost function Total(bins: Bins): multiset<Node> {
    if bins == [] then multiset{} else Total(bins[..|bins| - 1]) + multiset(bins[|bins| - 1])
  }

  lemma {:induction false} TotalUpdate(bins: Bins, k: nat, s: seq<Node>)
    requires k < |bins|
    ensures Total(bins[k := s]) + multiset(bins[k]) == Total(bins) + multiset(s)
    decreases |bins|
  {
    var last := |bins| - 1;
    if k == last {
      assert bins[k := s][..last] == bins[..last];
    } else {
      assert bins[k := s][..last] == bins[..last][k := s];
      TotalUpdate(bins[..last], k, s);
      Shuffle(Total(bins[..last][k := s]), Total(bins[..last]), multiset(bins[last]), multiset(bins[k]), multiset(s));
    }
  }

  lemma Shuffle(x: multiset<Node>, y: multiset<Node>, l: multiset<Node>, a: multiset<Node>, b: multiset<Node>)
    requires x + a == y + b
    ensures (x + l) + a == (y + l) + b
  {
    assert (x + l) + a == (x + a) + l;
  }

  lemma {:induction false} TotalEmpty(bins: Bins)
    requires EmptyBelow(bins, |bins|)
    ensures Total(bins) == multiset{}
  {
    if bins != [] {
      TotalEmpty(bins[..|bins| - 1]);
    }
  }

  // ---------- one merge

  lemma ChainFramed(mem: seq<Node>, mem': seq<Node>, s: seq<Node>, touched: seq<Node>)
    requires Chain(mem, s) && OnlyIn(mem, mem', touched) && Apart(s, touched)
    ensures Chain(mem', s)
  {
    forall i | 0 <= i < |s| ensures mem'[s[i]] == After(s, i, 0) {
      assert s[i] in s;
    }
  }

  lemma ApartFrom(s: seq<Node>, a: seq<Node>, b: seq<Node>)
    requires Apart(s, a) && Apart(s, b)
    ensures Apart(s, a + b)
  {
  }

  /** Merging two lists keeps what stands before both of them before the result. */
  lemma {:induction false} PrecedesMerged(cmp: Compare, rank: Rank, s: seq<Node>, a: seq<Node>, b: seq<Node>)
    requires Precedes(rank, s, a) && Precedes(rank, s, b)
    ensures Precedes(rank, s, Merged(cmp, a, b))
  {
    forall x ensures x in Merged(cmp, a, b) <==> x in a || x in b {
      MergedIn(cmp, a, b, x);
    }
  }

  /** Merging two lists keeps what stands after both of them after the result. */
  lemma {:induction false} MergedPrecedes(cmp: Compare, rank: Rank, a: seq<Node>, b: seq<Node>, s: seq<Node>)
    requires Precedes(rank, a, s) && Precedes(rank, b, s)
    ensures Precedes(rank, Merged(cmp, a, b), s)
  {
    forall x ensures x in Merged(cmp, a, b) <==> x in a || x in b {
      MergedIn(cmp, a, b, x);
    }
  }

  lemma NoneBefore(rank: Rank, s: seq<Node>)
    requires Ranked(rank, s)
    ensures Precedes(rank, [], s) && Precedes(rank, s, [])
  {
  }

  /** The rest of the bins after bin lev was merged into c. */
  lemma BinsAfterMerge(mem: seq<Node>, mem': seq<Node>, cmp: Compare, rank: Rank, bins: Bins, lev: nat, c: seq<Node>)
    requires BinsOk(mem, cmp, rank, bins) && AllPrecede(rank, bins, c) && lev < |bins|
    requires OnlyIn(mem, mem', bins[lev] + c)
    ensures BinsOk(mem', cmp, rank, bins[lev := []])
  {
    var bins' := bins[lev := []];
    forall k | 0 <= k < |bins'| ensures Sorted(mem', cmp, rank, bins'[k]) {
      assert Sorted(mem, cmp, rank, bins[k]) && Precedes(rank, bins[k], c);
      if k < lev {
        assert Precedes(rank, bins[lev], bins[k]);
        ApartBack(bins[lev], bins[k]);
      } else if k > lev {
        assert Precedes(rank, bins[k], bins[lev]);
      }
      if k != lev {
        ApartFrom(bins[k], bins[lev], c);
        ChainFramed(mem, mem', bins[k], bins[lev] + c);
      }
    }
    forall k, m | 0 <= k < m < |bins'| ensures Precedes(rank, bins'[m], bins'[k]) {
      assert Precedes(rank, bins[m], bins[k]);
      hide Sorted;
    }
  }

  lemma ApartBack(a: seq<Node>, b: seq<Node>)
    requires Apart(a, b)
    ensures Apart(b, a)
  {
    assert forall x | x in b :: x !in a;
  }

  lemma {:induction false} PrecedeAfterMerge(cmp: Compare, rank: Rank, bins: Bins, lev: nat, c: seq<Node>, mem: seq<Node>)
    requires BinsOk(mem, cmp, rank, bins) && AllPrecede(rank, bins, c) && lev < |bins| && EmptyBelow(bins, lev)
    ensures AllPrecede(rank, bins[lev := []], Merged(cmp, bins[lev], c))
  {
    var bins' := bins[lev := []];
    assert Precedes(rank, bins[lev], c);
    PrecedesNone(cmp, rank, bins[lev], c);
    forall k | 0 <= k < |bins'| ensures Precedes(rank, bins'[k], Merged(cmp, bins[lev], c)) {
      if k > lev {
        assert Precedes(rank, bins[k], bins[lev]) && Precedes(rank, bins[k], c);
        PrecedesMerged(cmp, rank, bins[k], bins[lev], c);
      }
    }
  }

  lemma {:induction false} PrecedesNone(cmp: Compare, rank: Rank, a: seq<Node>, b: seq<Node>)
    requires Precedes(rank, a, b)
    ensures Precedes(rank, [], Merged(cmp, a, b))
  {
    forall x ensures x in Merged(cmp, a, b) <==> x in a || x in b {
      MergedIn(cmp, a, b, x);
    }
  }

  /** c goes into the empty bin lev, below which everything is empty. */
  lemma PutInBin(mem: seq<Node>, cmp: Compare, rank: Rank, bins: Bins, lev: nat, c: seq<Node>)
    requires BinsOk(mem, cmp, rank, bins) && AllPrecede(rank, bins, c) && Sorted(mem, cmp, rank, c)
    requires lev < |bins| && EmptyBelow(bins, lev)
    ensures BinsOk(mem, cmp, rank, bins[lev := c])
  {
    var bins' := bins[lev := c];
    hide Sorted;
    forall k, m | 0 <= k < m < |bins'| ensures Precedes(rank, bins'[m], bins'[k]) {
      assert Precedes(rank, bins[m], bins[k]) && Precedes(rank, bins[m], c);
      if m == lev {
        assert bins'[k] == [];
        assert Precedes(rank, bins[m], c);
        RankedOf(rank, bins[m], c);
        NoneBefore(rank, c);
      }
    }
  }

  lemma RankedOf(rank: Rank, a: seq<Node>, b: seq<Node>)
    requires Precedes(rank, a, b)
    ensures Ranked(rank, b)
  {
  }
}
