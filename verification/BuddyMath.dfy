/** Page frame numbers, natural alignment and the bit tricks of mm/internal.h. */
module BuddyMath {
  import opened Numbers
  import opened Alignment

  /** Number of the order-o block a page lies in. */
  function Top(x: nat, o: nat): nat {
    if o == 0 then x else Top(x / 2, o - 1)
  }

  /** Page x belongs to the order-o block that starts at p. */
  predicate In(p: nat, o: nat, x: nat) {
    p <= x < p + Pow2(o)
  }

  function BitXor(a: nat, b: nat): nat
    decreases a + b
  {
    if a == 0 && b == 0 then 0
    else 2 * BitXor(a / 2, b / 2) + (if a % 2 == b % 2 then 0 else 1)
  }

  function BitAnd(a: nat, b: nat): nat
    decreases a + b
  {
    if a == 0 || b == 0 then 0
    else 2 * BitAnd(a / 2, b / 2) + (if a % 2 == 1 && b % 2 == 1 then 1 else 0)
  }

  /** __find_buddy_pfn() */
  function FindBuddy(p: nat, o: nat): nat {
    BitXor(p, Pow2(o))
  }

  function Sibling(k: nat): nat {
    if k % 2 == 0 then k + 1 else k - 1
  }

  lemma {:induction false} InIsTop(p: nat, o: nat, x: nat)
    requires Aligned(p, o)
    ensures In(p, o, x) <==> Top(x, o) == Top(p, o)
  {
    if o > 0 {
      InIsTop(p / 2, o - 1, x / 2);
    }
  }

  lemma {:induction false} AlignedTopUnique(p: nat, q: nat, o: nat)
    requires Aligned(p, o) && Aligned(q, o) && Top(p, o) == Top(q, o)
    ensures p == q
  {
    if o > 0 {
      AlignedTopUnique(p / 2, q / 2, o - 1);
    }
  }

  lemma {:induction false} TopTop(x: nat, a: nat, b: nat)
    ensures Top(x, a + b) == Top(Top(x, a), b)
  {
    if a > 0 {
      TopTop(x / 2, a - 1, b);
    }
  }

  lemma {:induction false} AlignedLess(p: nat, o: nat, l: nat)
    requires Aligned(p, o) && l <= o
    ensures Aligned(p, l)
  {
    if l > 0 {
      AlignedLess(p / 2, o - 1, l - 1);
    }
  }

  lemma {:induction false} BitXorZero(a: nat)
    ensures BitXor(a, 0) == a
  {
    if a > 0 {
      BitXorZero(a / 2);
    }
  }

  lemma {:induction false} BitAndSelf(a: nat)
    ensures BitAnd(a, a) == a
  {
    if a > 0 {
      BitAndSelf(a / 2);
    }
  }

  lemma {:induction false} BitXorHalves(a: nat, b: nat)
    ensures BitXor(2 * a, 2 * b) == 2 * BitXor(a, b)
  {
    if a + b > 0 {
      assert (2 * a) / 2 == a && (2 * b) / 2 == b;
    }
  }

  lemma {:induction false} BitAndHalves(a: nat, b: nat)
    ensures BitAnd(2 * a, 2 * b) == 2 * BitAnd(a, b)
  {
    if a > 0 && b > 0 {
      assert (2 * a) / 2 == a && (2 * b) / 2 == b;
    }
  }

  lemma {:induction false} BuddyIsSibling(p: nat, o: nat)
    requires Aligned(p, o)
    ensures var b := FindBuddy(p, o);
            && Aligned(b, o) && Top(b, o) == Sibling(Top(p, o)) && b != p
            && b == (if Top(p, o) % 2 == 0 then p + Pow2(o) else p - Pow2(o))
  {
    if o == 0 {
      BitXorZero(p / 2);
      assert FindBuddy(p, 0) == 2 * BitXor(p / 2, 0) + (if p % 2 == 1 then 0 else 1);
    } else {
      BuddyIsSibling(p / 2, o - 1);
      assert p == 2 * (p / 2);
      BitXorHalves(p / 2, Pow2(o - 1));
    }
  }

  /** Flipping the bit twice. */
  lemma {:induction false} BuddyOfBuddy(p: nat, o: nat)
    requires Aligned(p, o)
    ensures FindBuddy(FindBuddy(p, o), o) == p
  {
    BuddyIsSibling(p, o);
    BuddyIsSibling(FindBuddy(p, o), o);
  }

  lemma {:induction false} CombinedIsParent(p: nat, o: nat)
    requires Aligned(p, o)
    ensures var c := BitAnd(FindBuddy(p, o), p);
            && Aligned(c, o + 1) && Top(c, o + 1) == Top(p, o) / 2
            && c == (if Top(p, o) % 2 == 0 then p else p - Pow2(o))
  {
    BuddyIsSibling(p, o);
    if o == 0 {
      BitAndSelf(p / 2);
      assert FindBuddy(p, 0) / 2 == p / 2;
      assert BitAnd(FindBuddy(p, 0), p) == 2 * (p / 2);
    } else {
      hide BitAnd, BitXor;
      CombinedIsParent(p / 2, o - 1);
      assert p == 2 * (p / 2);
      BitXorHalves(p / 2, Pow2(o - 1));
      BitAndHalves(FindBuddy(p / 2, o - 1), p / 2);
    }
  }

  /** The pages of the merged block are the pages of the two buddies. */
  lemma MergedPages(p: nat, o: nat, x: nat)
    requires Aligned(p, o)
    ensures In(BitAnd(FindBuddy(p, o), p), o + 1, x) <==> In(p, o, x) || In(FindBuddy(p, o), o, x)
  {
    BuddyIsSibling(p, o);
    CombinedIsParent(p, o);
  }

  /** Of two aligned blocks, either the smaller lies in the larger or they are apart. */
  lemma {:induction false} NestedOrApart(p: nat, o: nat, q: nat, l: nat, x: nat, y: nat)
    requires Aligned(p, o) && Aligned(q, l) && l <= o
    requires In(p, o, x) && In(q, l, x) && In(q, l, y)
    ensures In(p, o, y)
  {
    InIsTop(p, o, x);
    InIsTop(p, o, y);
    InIsTop(q, l, x);
    InIsTop(q, l, y);
    TopTop(x, l, o - l);
    TopTop(y, l, o - l);
  }

  /** The two halves of a block. */
  lemma Halves(p: nat, o: nat)
    requires Aligned(p, o) && o > 0
    ensures Aligned(p, o - 1) && Aligned(p + Pow2(o - 1), o - 1)
    ensures FindBuddy(p, o - 1) == p + Pow2(o - 1) && FindBuddy(p + Pow2(o - 1), o - 1) == p
  {
    AlignedLess(p, o, o - 1);
    HalfIsEven(p, o);
    BuddyIsSibling(p, o - 1);
    BuddyOfBuddy(p, o - 1);
  }

  lemma {:induction false} HalfIsEven(p: nat, o: nat)
    requires Aligned(p, o) && o > 0
    ensures Top(p, o - 1) % 2 == 0
  {
    if o > 1 {
      HalfIsEven(p / 2, o - 1);
    }
  }
}
