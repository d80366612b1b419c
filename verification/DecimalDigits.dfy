/** Decimal digits of a number, least significant first, and division by ten by multiplication. */
module DecimalDigits {

  type Digits = seq<nat>

  /** The digits of n without leading zeros; zero has one digit. */
  function DigitsOf(n: nat): Digits {
    if n < 10 then [n] else [n % 10] + DigitsOf(n / 10)
  }

  /** The k low digits of n. */
  function Padded(n: nat, k: nat): (d: Digits)
    ensures |d| == k
    decreases k
  {
    if k == 0 then [] else [n % 10] + Padded(n / 10, k - 1)
  }

  function Pow10(k: nat): nat {
    if k == 0 then 1 else 10 * Pow10(k - 1)
  }

  /** What a run of digits is worth. */
  function ValueOf(d: Digits): nat {
    if d == [] then 0 else d[0] + 10 * ValueOf(d[1..])
  }

  lemma {:induction false} DigitsValue(n: nat)
    ensures ValueOf(DigitsOf(n)) == n && (forall i | 0 <= i < |DigitsOf(n)| :: DigitsOf(n)[i] < 10)
    ensures |DigitsOf(n)| > 0 && (n > 0 ==> DigitsOf(n)[|DigitsOf(n)| - 1] > 0)
  {
    if n < 10 {
      assert DigitsOf(n)[1..] == [];
    } else {
      DigitsValue(n / 10);
      assert DigitsOf(n)[1..] == DigitsOf(n / 10);
    }
  }

  lemma MulTen(hi: nat, p: nat)
    ensures hi * (10 * p) == 10 * (hi * p)
  {
  }

  lemma Shift(hi: nat, p: nat, lo: nat)
    requires lo < 10 * p
    ensures (hi * (10 * p) + lo) % 10 == lo % 10
    ensures (hi * (10 * p) + lo) / 10 == hi * p + lo / 10 && lo / 10 < p
  {
    MulTen(hi, p);
    var t := hi * p;
    assert (10 * t + lo) / 10 == t + lo / 10;
  }

  /** The digits of a number are the low ones, padded, and those of the rest. */
  lemma {:induction false} DigitsJoin(hi: nat, lo: nat, k: nat)
    requires hi > 0 && lo < Pow10(k)
    ensures DigitsOf(hi * Pow10(k) + lo) == Padded(lo, k) + DigitsOf(hi)
    decreases k
  {
    if k == 0 {
      assert hi * Pow10(k) + lo == hi;
    } else {
      var p := Pow10(k - 1);
      Shift(hi, p, lo);
      DigitsJoin(hi, lo / 10, k - 1);
      PowerPositive(k - 1);
      AtLeast(hi, 10 * p);
      assert Padded(lo, k) == [lo % 10] + Padded(lo / 10, k - 1);
    }
  }

  lemma AtLeast(hi: nat, p: nat)
    requires hi > 0
    ensures hi * p >= p
  {
  }

  lemma {:induction false} PowerPositive(k: nat)
    ensures Pow10(k) >= 1
  {
    if k > 0 { PowerPositive(k - 1); }
  }

  lemma {:induction false} PaddedJoin(hi: nat, lo: nat, k: nat, m: nat)
    requires lo < Pow10(k)
    ensures Padded(hi * Pow10(k) + lo, k + m) == Padded(lo, k) + Padded(hi, m)
    decreases k
  {
    if k == 0 {
      assert hi * Pow10(k) + lo == hi;
    } else {
      Shift(hi, Pow10(k - 1), lo);
      PaddedJoin(hi, lo / 10, k - 1, m);
    }
  }

  // ---------- x / 10 without dividing

  /** (x * 0x1999999a) >> 32 */
  function Tenth32(x: nat): nat { x * 0x1999999a / 0x1_0000_0000 }

  /** (x * 0x199a) >> 16 */
  function Tenth16(x: nat): nat { x * 0x199a / 0x1_0000 }

  /** (x * 0xccd) >> 15 */
  function Tenth15(x: nat): nat { x * 0xccd / 0x8000 }

  /** (x * 0xcd) >> 11 */
  function Tenth11(x: nat): nat { x * 0xcd / 0x800 }

  /** (x * 0x346DC5D7) >> 43 */
  function TenThousandth43(x: nat): nat { x * 0x346DC5D7 / 0x800_0000_0000 }

  lemma Tenth32Exact(x: nat)
    ensures x < 1073741829 ==> Tenth32(x) == x / 10
    ensures Tenth32(1073741829) != 1073741829 / 10
  {
    var q, r := x / 10, x % 10;
    assert x == 10 * q + r;
    assert x * 0x1999999a == q * 0x1_0000_0004 + r * 0x1999999a;
  }

  lemma Tenth16Exact(x: nat)
    ensures x < 16389 ==> Tenth16(x) == x / 10
    ensures Tenth16(16389) != 16389 / 10
  {
    var q, r := x / 10, x % 10;
    assert x == 10 * q + r;
    assert x * 0x199a == q * 0x1_0004 + r * 0x199a;
  }

  lemma Tenth15Exact(x: nat)
    ensures x < 16389 ==> Tenth15(x) == x / 10
    ensures Tenth15(16389) != 16389 / 10
  {
    var q, r := x / 10, x % 10;
    assert x == 10 * q + r;
    assert x * 0xccd == q * 0x8002 + r * 0xccd;
  }

  lemma Tenth11Exact(x: nat)
    ensures x < 1029 ==> Tenth11(x) == x / 10
    ensures Tenth11(1029) != 1029 / 10
  {
    var q, r := x / 10, x % 10;
    assert x == 10 * q + r;
    assert x * 0xcd == q * 0x802 + r * 0xcd;
  }

  lemma TenThousandthExact(x: nat)
    ensures x < 1128869999 ==> TenThousandth43(x) == x / 10000
    ensures TenThousandth43(1128869999) != 1128869999 / 10000
  {
    var q, r := x / 10000, x % 10000;
    assert x == 10000 * q + r;
    assert x * 0x346DC5D7 == q * 8796093022000 + q * (10000 * 0x346DC5D7 - 8796093022000) + r * 0x346DC5D7;
  }
}
