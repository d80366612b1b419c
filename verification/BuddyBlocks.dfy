/** Sets of free blocks, kept as the map from each block's first page to its order
    (the pages marked PageBuddy and their page_order). */
module BuddyBlocks {
  import opened Numbers
  import opened Alignment
  import opened BuddyMath

  const MAX_ORDER: nat := 11

  type Blocks = map<nat, nat>

  ghost predicate Free(b: Blocks, x: nat) {
    exists p :: p in b && In(p, b[p], x)
  }

  /** Natural alignment. */
  ghost predicate Shaped(b: Blocks) {
    forall p | p in b :: b[p] < MAX_ORDER && Aligned(p, b[p])
  }

  /** No page in two blocks. */
  ghost predicate Apart(b: Blocks) {
    forall p, q, x | p in b && q in b && In(p, b[p], x) && In(q, b[q], x) :: p == q
  }

  /** No two buddies below the top order both free. */
  ghost predicate Coalesced(b: Blocks) {
    forall p | p in b && b[p] < MAX_ORDER - 1 :: !BuddyFree(b, p, b[p])
  }

  predicate BuddyFree(b: Blocks, p: nat, o: nat) {
    FindBuddy(p, o) in b && b[FindBuddy(p, o)] == o
  }

  ghost predicate WellFormed(b: Blocks) {
    Shaped(b) && Apart(b) && Coalesced(b)
  }

  /** A block in the allocator's hands, being split or merged: apart from all free ones. */
  ghost predicate InHand(b: Blocks, p: nat, o: nat) {
    && WellFormed(b) && o < MAX_ORDER && Aligned(p, o)
    && forall x | In(p, o, x) :: !Free(b, x)
  }

  // ---------- a block set is determined by its free pages

  /** An aligned run of free pages lies inside a single free block. */
  lemma {:induction false} Covered(b: Blocks, p: nat, o: nat) returns (q: nat)
    requires WellFormed(b) && o < MAX_ORDER && Aligned(p, o)
    requires forall x | In(p, o, x) :: Free(b, x)
    ensures q in b && o <= b[q] && In(q, b[q], p)
    decreases o
  {
    if o == 0 {
      assert In(p, 0, p);
      assert Free(b, p);
      q :| q in b && In(q, b[q], p);
    } else {
      var h := p + Pow2(o - 1);
      Halves(p, o);
      assert forall x | In(p, o - 1, x) :: In(p, o, x);
      assert forall x | In(h, o - 1, x) :: In(p, o, x);
      q := Covered(b, p, o - 1);
      var r := Covered(b, h, o - 1);
      if b[q] == o - 1 {
        SameBlock(b, q, p, o - 1);
        if b[r] == o - 1 {
          SameBlock(b, r, h, o - 1);
          assert false;
        } else {
          HoldsHalf(b, r, p, o);
          assert false;
        }
      }
    }
  }

  lemma {:induction false} SameBlock(b: Blocks, q: nat, p: nat, o: nat)
    requires Shaped(b) && q in b && b[q] == o && Aligned(p, o) && In(q, o, p)
    ensures q == p
  {
    InIsTop(q, o, p);
    AlignedTopUnique(q, p, o);
  }

  /** A block at least as large as (p, o) that holds its upper half holds p. */
  lemma {:induction false} HoldsHalf(b: Blocks, r: nat, p: nat, o: nat)
    requires Shaped(b) && r in b && b[r] >= o > 0 && Aligned(p, o) && In(r, b[r], p + Pow2(o - 1))
    ensures In(r, b[r], p)
  {
    var h := p + Pow2(o - 1);
    assert In(p, o, h) && In(p, o, p);
    NestedOrApart(r, b[r], p, o, h, p);
  }

  ghost predicate SameFree(a: Blocks, b: Blocks) {
    forall x: nat :: Free(a, x) <==> Free(b, x)
  }

  lemma BlockIsFree(b: Blocks, p: nat)
    requires p in b
    ensures forall x | In(p, b[p], x) :: Free(b, x)
  {
  }

  lemma SameBlocks(a: Blocks, b: Blocks, p: nat)
    requires WellFormed(a) && WellFormed(b) && SameFree(a, b) && p in a
    ensures p in b && b[p] == a[p]
  {
    BlockIsFree(a, p);
    var q := Covered(b, p, a[p]);
    BlockIsFree(b, q);
    var r := Covered(a, q, b[q]);
    assert In(q, b[q], q);
    NestedOrApart(r, a[r], q, b[q], q, p);
    assert In(p, a[p], p);
    assert r == p;
    SameBlock(b, q, p, b[q]);
  }

  /** The canonical form: which pages are free decides the whole block set. */
  lemma Canonical(a: Blocks, b: Blocks)
    requires WellFormed(a) && WellFormed(b) && SameFree(a, b)
    ensures a == b
  {
    forall p | p in a ensures p in b && b[p] == a[p] { SameBlocks(a, b, p); }
    forall p | p in b ensures p in a && a[p] == b[p] { SameBlocks(b, a, p); }
  }

  // ---------- splitting and merging

  lemma FreeWith(b: Blocks, p: nat, o: nat, x: nat)
    requires p !in b
    ensures Free(b[p := o], x) <==> Free(b, x) || In(p, o, x)
  {
    var b' := b[p := o];
    if Free(b, x) {
      var q :| q in b && In(q, b[q], x);
      assert q in b' && b'[q] == b[q];
    }
    if In(p, o, x) {
      assert p in b' && b'[p] == o;
    }
  }

  lemma FreeWithout(b: Blocks, p: nat, x: nat)
    requires Apart(b) && p in b
    ensures Free(b - {p}, x) <==> Free(b, x) && !In(p, b[p], x)
  {
    var b' := b - {p};
    if Free(b, x) && !In(p, b[p], x) {
      var q :| q in b && In(q, b[q], x);
      assert q in b' && b'[q] == b[q];
    }
  }

  /** A block with none of its pages free can be added without overlap. */
  lemma ApartWith(b: Blocks, p: nat, o: nat)
    requires Apart(b) && forall x | In(p, o, x) :: !Free(b, x)
    ensures p !in b && Apart(b[p := o])
    ensures forall x: nat :: Free(b[p := o], x) <==> Free(b, x) || In(p, o, x)
  {
    var b' := b[p := o];
    forall q, x | q in b && In(q, b[q], x) ensures Free(b, x) && !In(p, o, x) { }
    assert In(p, o, p);
    forall q | q in b ensures q != p { assert In(q, b[q], q); }
    forall x: nat ensures Free(b', x) <==> Free(b, x) || In(p, o, x) { FreeWith(b, p, o, x); }
    forall q, r, x | q in b' && r in b' && In(q, b'[q], x) && In(r, b'[r], x) ensures q == r { }
  }

  lemma TakeOut(b: Blocks, p: nat)
    requires WellFormed(b) && p in b
    ensures InHand(b - {p}, p, b[p])
    ensures forall x: nat :: Free(b, x) <==> Free(b - {p}, x) || In(p, b[p], x)
  {
    forall x: nat ensures Free(b - {p}, x) <==> Free(b, x) && !In(p, b[p], x) { FreeWithout(b, p, x); }
    assert In(p, b[p], p);
    BlockIsFree(b, p);
  }

  /** Free the upper half of the block in hand, keep the lower half. */
  lemma {:induction false} SplitOff(b: Blocks, p: nat, o: nat)
    requires InHand(b, p, o) && o > 0
    ensures var h := p + Pow2(o - 1); h !in b && InHand(b[h := o - 1], p, o - 1)
    ensures forall x: nat :: Free(b[p + Pow2(o - 1) := o - 1], x) <==> Free(b, x) || In(p + Pow2(o - 1), o - 1, x)
  {
    var h := p + Pow2(o - 1);
    var b' := b[h := o - 1];
    Halves(p, o);
    assert forall x | In(h, o - 1, x) :: In(p, o, x);
    ApartWith(b, h, o - 1);
    ApartWith(b, p, o);
    assert forall x | In(p, o - 1, x) :: In(p, o, x) && !In(h, o - 1, x);
    forall q | q in b' && b'[q] < MAX_ORDER - 1 ensures !BuddyFree(b', q, b'[q]) {
      if q != h && BuddyFree(b', q, b'[q]) && FindBuddy(q, b'[q]) == h {
        BuddyOfBuddy(q, o - 1);
        assert false;
      }
    }
  }

  /** Merge the block in hand with its free buddy. */
  lemma {:induction false} MergeIn(b: Blocks, p: nat, o: nat)
    requires InHand(b, p, o) && o < MAX_ORDER - 1 && BuddyFree(b, p, o)
    ensures var f, c := FindBuddy(p, o), BitAnd(FindBuddy(p, o), p);
            && InHand(b - {f}, c, o + 1)
            && forall x: nat :: (Free(b, x) || In(p, o, x)) <==> (Free(b - {f}, x) || In(c, o + 1, x))
  {
    var f, c := FindBuddy(p, o), BitAnd(FindBuddy(p, o), p);
    TakeOut(b, f);
    CombinedIsParent(p, o);
    forall x: nat ensures In(c, o + 1, x) <==> In(p, o, x) || In(f, o, x) { MergedPages(p, o, x); }
  }

  /** Make the block in hand free once it cannot be merged further. */
  lemma PutIn(b: Blocks, p: nat, o: nat)
    requires InHand(b, p, o) && (o < MAX_ORDER - 1 ==> !BuddyFree(b, p, o))
    ensures p !in b && WellFormed(b[p := o])
    ensures forall x: nat :: Free(b[p := o], x) <==> Free(b, x) || In(p, o, x)
  {
    var b' := b[p := o];
    ApartWith(b, p, o);
    forall q | q in b' && b'[q] < MAX_ORDER - 1 ensures !BuddyFree(b', q, b'[q]) {
      BuddyIsSibling(q, b'[q]);
      if q != p && BuddyFree(b', q, b'[q]) && FindBuddy(q, b'[q]) == p {
        BuddyOfBuddy(q, o);
        assert false;
      }
    }
  }
}
