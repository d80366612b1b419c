/** Alignment to 2^order units. */
module Alignment {
  import opened Numbers

  predicate Aligned(x: nat, order: nat) {
    order == 0 || (x % 2 == 0 && Aligned(x / 2, order - 1))
  }

  /** __ALIGN_MASK(): up to the next multiple of 2^order */
  function AlignUp(x: nat, order: nat): nat {
    if order == 0 then x else 2 * AlignUp((x + 1) / 2, order - 1)
  }

  lemma {:induction false} AlignUpLeast(x: nat, order: nat)
    ensures x <= AlignUp(x, order) && Aligned(AlignUp(x, order), order)
    ensures forall y: nat | x <= y && Aligned(y, order) :: AlignUp(x, order) <= y
    decreases order
  {
    if order > 0 {
      var h := (x + 1) / 2;
      AlignUpLeast(h, order - 1);
      forall y: nat | x <= y && Aligned(y, order) ensures AlignUp(x, order) <= y {
        assert Aligned(y / 2, order - 1) && h <= y / 2 && 2 * (y / 2) == y;
      }
    }
  }

  lemma {:induction false} AlignedZero(order: nat)
    ensures Aligned(0, order)
  {
    if order > 0 { AlignedZero(order - 1); }
  }

  lemma {:induction false} PowAligned(k: nat, order: nat)
    requires order <= k
    ensures Aligned(Pow2(k), order)
  {
    if order > 0 {
      PowAligned(k - 1, order - 1);
      assert Pow2(k) % 2 == 0 && Pow2(k) / 2 == Pow2(k - 1);
    }
  }

  /** Aligning a 64-bit number leads to the end of the words at the most. */
  lemma {:induction false} AlignUpFits(x: nat, order: nat)
    requires x <= U64 && order <= 64
    ensures AlignUp(x, order) <= U64
  {
    AlignUpLeast(x, order);
    PowAligned(64, order);
    WordSize();
  }
}
