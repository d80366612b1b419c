/** lib/vsprintf.c: the two ways to print a 64-bit number in decimal. The buffer holds the digits
    least significant first. */
module DecimalPrint {
  import opened Numbers
  import opened DecimalDigits


  /** d + '0' */
  function Char(d: nat): char
    requires d < 10
  {
    '0' + d as char
  }

  function Text(d: Digits): (s: string)
    requires IsDigits(d)
    ensures |s| == |d| && forall i | 0 <= i < |d| :: s[i] == Char(d[i])
  {
    if d == [] then "" else [Char(d[0])] + Text(d[1..])
  }

  ghost predicate IsDigits(d: Digits) {
    forall i | 0 <= i < |d| :: d[i] < 10
  }

  lemma {:induction false} PaddedDigits(n: nat, k: nat)
    ensures IsDigits(Padded(n, k))
    decreases k
  {
    if k > 0 { PaddedDigits(n / 10, k - 1); }
  }

  lemma {:induction false} TextJoin(a: Digits, b: Digits)
    requires IsDigits(a) && IsDigits(b)
    ensures IsDigits(a + b) && Text(a + b) == Text(a) + Text(b)
  {
  }

  lemma TextOne(d: nat)
    requires d < 10
    ensures Text([d]) == [Char(d)]
  {
  }

  // ---------- writing digit by digit

  function Drop(n: nat, k: nat): nat
    decreases k
  {
    if k == 0 then n else Drop(n / 10, k - 1)
  }

  lemma {:induction false} PaddedNext(n: nat, k: nat)
    ensures Padded(n, k + 1) == Padded(n, k) + [Drop(n, k) % 10] && Drop(n, k + 1) == Drop(n, k) / 10
    decreases k
  {
    if k > 0 { PaddedNext(n / 10, k - 1); }
  }

  /** k digits of n have been written after buf, and v is what is left of n. */
  ghost predicate Written(buf: string, out: string, n: nat, k: nat, v: nat) {
    v == Drop(n, k) && IsDigits(Padded(n, k)) && out == buf + Text(Padded(n, k))
  }

  lemma WriteStart(buf: string, n: nat)
    ensures Written(buf, buf, n, 0, n)
  {
  }

  lemma WriteNext(buf: string, out: string, n: nat, k: nat, v: nat)
    requires Written(buf, out, n, k, v)
    ensures Written(buf, out + [Char(v % 10)], n, k + 1, v / 10)
  {
    PaddedNext(n, k);
    PaddedDigits(n, k + 1);
    TextJoin(Padded(n, k), [v % 10]);
    TextOne(v % 10);
    assert out + [Char(v % 10)] == buf + (Text(Padded(n, k)) + [Char(v % 10)]);
  }

  /** The last digit is what is left. */
  lemma WriteLast(buf: string, out: string, n: nat, k: nat, v: nat)
    requires Written(buf, out, n, k, v) && v < 10
    ensures Written(buf, out + [Char(v)], n, k + 1, 0)
  {
    WriteNext(buf, out, n, k, v);
  }

  lemma {:induction false} WrittenIs(buf: string, out: string, n: nat, k: nat, v: nat)
    requires Written(buf, out, n, k, v)
    ensures IsDigits(Padded(n, k)) && out == buf + Text(Padded(n, k))
  {
  }

  /** A digit taken off by the approximate tenth. */
  method WriteDigit(out: string, v: nat, tenth: nat, ghost buf: string, ghost n: nat, ghost k: nat) returns (out': string)
    requires Written(buf, out, n, k, v) && tenth == v / 10
    ensures Written(buf, out', n, k + 1, tenth)
  {
    WriteNext(buf, out, n, k, v);
    out' := out + [Char(v - 10 * tenth)];
  }

  /** put_dec_full9(): nine digits of q. */
  method PutDecFull9(buf: string, q0: nat) returns (out: string)
    requires q0 < 1000000000
    ensures IsDigits(Padded(q0, 9)) && out == buf + Text(Padded(q0, 9))
  {
    hide Written, Padded, Text, IsDigits, Tenth32, Tenth16, Tenth11;
    WriteStart(buf, q0);
    var q := q0;
    Tenth32Exact(q);
    var r := Tenth32(q);
    out := WriteDigit(buf, q, r, buf, q0, 0);
    Tenth32Exact(r);
    q := Tenth32(r);
    out := WriteDigit(out, r, q, buf, q0, 1);
    Tenth32Exact(q);
    r := Tenth32(q);
    out := WriteDigit(out, q, r, buf, q0, 2);
    Tenth32Exact(r);
    q := Tenth32(r);
    out := WriteDigit(out, r, q, buf, q0, 3);
    Tenth32Exact(q);
    r := Tenth32(q);
    out := WriteDigit(out, q, r, buf, q0, 4);
    Tenth16Exact(r);
    q := Tenth16(r);
    out := WriteDigit(out, r, q, buf, q0, 5);
    Tenth11Exact(q);
    r := Tenth11(q);
    out := WriteDigit(out, q, r, buf, q0, 6);
    Tenth11Exact(r);
    q := Tenth11(r);
    out := WriteDigit(out, r, q, buf, q0, 7);
    WriteLast(buf, out, q0, 8, q);
    out := out + [Char(q)];
    WrittenIs(buf, out, q0, 9, 0);
  }

  /** What has been written, once the rest is below ten, is the whole number. */
  lemma {:induction false} AllWritten(n: nat, k: nat)
    requires Drop(n, k) < 10 && (k == 0 || Drop(n, k) > 0)
    ensures Padded(n, k) + [Drop(n, k)] == DigitsOf(n)
    decreases k
  {
    if k > 0 {
      DropDown(n, k);
      AllWritten(n / 10, k - 1);
    }
  }

  lemma {:induction false} DropDown(n: nat, k: nat)
    requires Drop(n, k) > 0
    ensures n >= Drop(n, k) && (k > 0 ==> n >= 10)
    decreases k
  {
    if k > 0 {
      DropDown(n / 10, k - 1);
    }
  }

  /** The last digit written ends the number. */
  lemma {:induction false} WriteEnd(buf: string, out: string, n: nat, k: nat, v: nat)
    requires Written(buf, out, n, k, v) && v < 10 && (k == 0 || v > 0)
    ensures IsDigits(DigitsOf(n)) && out + [Char(v)] == buf + Text(DigitsOf(n))
  {
    WriteLast(buf, out, n, k, v);
    AllWritten(n, k);
    PaddedNext(n, k);
    WrittenIs(buf, out + [Char(v)], n, k + 1, 0);
  }

  /** put_dec_trunc8(): the digits of r without padding. */
  method PutDecTrunc8(buf: string, r0: nat) returns (out: string)
    requires r0 < 1073741829
    ensures IsDigits(DigitsOf(r0)) && out == buf + Text(DigitsOf(r0))
  {
    hide Written, Padded, Text, IsDigits, Tenth32, Tenth16, Tenth11, DigitsOf;
    WriteStart(buf, r0);
    var r: nat := r0;
    var q: nat;
    out := buf;
    ghost var k := 0;
    while r >= 10000
      invariant Written(buf, out, r0, k, r) && r <= r0 && (k > 0 ==> r > 0)
    {
      Tenth32Exact(r);
      q := Tenth32(r);
      out := WriteDigit(out, r, q, buf, r0, k);
      r := q;
      k := k + 1;
    }
    Tenth16Exact(r);
    q := Tenth16(r);
    if q == 0 {
      WriteEnd(buf, out, r0, k, r);
      return out + [Char(r - 10 * q)];
    }
    out := WriteDigit(out, r, q, buf, r0, k);
    Tenth11Exact(q);
    r := Tenth11(q);
    if r == 0 {
      WriteEnd(buf, out, r0, k + 1, q);
      return out + [Char(q - 10 * r)];
    }
    out := WriteDigit(out, q, r, buf, r0, k + 1);
    Tenth11Exact(r);
    q := Tenth11(r);
    if q == 0 {
      WriteEnd(buf, out, r0, k + 2, r);
      return out + [Char(r - 10 * q)];
    }
    out := WriteDigit(out, r, q, buf, r0, k + 2);
    WriteEnd(buf, out, r0, k + 3, q);
    out := out + [Char(q)];
  }

  // ---------- put_dec(), nine digits at a time

  lemma Pow10Nine()
    ensures Pow10(9) == 1000000000 && Pow10(4) == 10000 && Pow10(8) == 100000000 && Pow10(12) == 1000000000000
  {
  }

  lemma {:induction false} NineThenRest(n: nat)
    requires n >= 1000000000
    ensures DigitsOf(n) == Padded(n % 1000000000, 9) + DigitsOf(n / 1000000000)
  {
    hide DigitsOf, Padded, Pow10;
    Pow10Nine();
    DigitsJoin(n / 1000000000, n % 1000000000, 9);
  }

  lemma {:induction false} NineExactly(n: nat)
    requires 100000000 <= n < 1000000000
    ensures DigitsOf(n) == Padded(n, 9)
  {
    hide DigitsOf, Padded, Pow10;
    Pow10Nine();
    DigitsJoin(n / 100000000, n % 100000000, 8);
    PaddedJoin(n / 100000000, n % 100000000, 8, 1);
    OneDigit(n / 100000000);
  }

  lemma {:induction false} OneDigit(d: nat)
    requires 0 < d < 10
    ensures DigitsOf(d) == Padded(d, 1)
  {
    assert Padded(d, 1) == [d] + Padded(0, 0);
  }

  /** The digits d have been written after buf. */
  ghost predicate Grown(buf: string, out: string, d: Digits) {
    IsDigits(d) && out == buf + Text(d)
  }

  lemma {:induction false} GrowsBy(buf: string, out: string, d: Digits, more: string, e: Digits)
    requires Grown(buf, out, d) && IsDigits(e) && more == out + Text(e)
    ensures Grown(buf, more, d + e)
  {
    hide Text, IsDigits;
    TextJoin(d, e);
    assert more == buf + (Text(d) + Text(e));
  }

  method PutDec9(buf: string, n0: nat) returns (out: string)
    ensures IsDigits(DigitsOf(n0)) && out == buf + Text(DigitsOf(n0))
  {
    hide Text, IsDigits, DigitsOf, Padded;
    var n := n0;
    out := buf;
    ghost var done: Digits := [];
    NoText();
    DigitsAre(n0);
    if n >= 100000000 {
      while n >= 1000000000
        invariant Grown(buf, out, done) && done + DigitsOf(n) == DigitsOf(n0)
      {
        NineThenRest(n);
        var q := n % 1000000000;
        n := n / 1000000000;
        var more := PutDecFull9(out, q);
        GrowsBy(buf, out, done, more, Padded(q, 9));
        assert (done + Padded(q, 9)) + DigitsOf(n) == done + (Padded(q, 9) + DigitsOf(n));
        out, done := more, done + Padded(q, 9);
      }
      if n >= 100000000 {
        NineExactly(n);
        var more := PutDecFull9(out, n);
        GrowsBy(buf, out, done, more, Padded(n, 9));
        return more;
      }
    }
    var more := PutDecTrunc8(out, n);
    GrowsBy(buf, out, done, more, DigitsOf(n));
    return more;
  }

  lemma NoText()
    ensures IsDigits([]) && Text([]) == ""
  {
  }

  lemma {:induction false} DigitsAre(n: nat)
    ensures IsDigits(DigitsOf(n)) && [] + DigitsOf(n) == DigitsOf(n)
  {
    DigitsValue(n);
  }

  // ---------- put_dec(), four digits at a time, without 64-bit division

  /** put_dec_full4() */
  method PutDecFull4(buf: string, q0: nat) returns (out: string)
    requires q0 < 10000
    ensures IsDigits(Padded(q0, 4)) && out == buf + Text(Padded(q0, 4))
  {
    hide Written, Padded, Text, IsDigits, Tenth15, Tenth11;
    WriteStart(buf, q0);
    Tenth15Exact(q0);
    var r := Tenth15(q0);
    out := WriteDigit(buf, q0, r, buf, q0, 0);
    Tenth11Exact(r);
    var q := Tenth11(r);
    out := WriteDigit(out, r, q, buf, q0, 1);
    Tenth11Exact(q);
    r := Tenth11(q);
    out := WriteDigit(out, q, r, buf, q0, 2);
    WriteLast(buf, out, q0, 3, r);
    out := out + [Char(r)];
    WrittenIs(buf, out, q0, 4, 0);
  }

  /** put_dec_helper4(): four digits of x, and the rest. */
  method PutDecHelper4(buf: string, x: nat) returns (out: string, q: nat)
    requires x < 1128869999
    ensures q == x / 10000 && Grown(buf, out, Padded(x % 10000, 4))
  {
    TenThousandthExact(x);
    hide TenThousandth43;
    q := TenThousandth43(x);
    out := PutDecFull4(buf, x - q * 10000);
  }

  function Zeros(k: nat): (z: Digits)
    ensures |z| == k && forall i | 0 <= i < k :: z[i] == 0
  {
    if k == 0 then [] else Zeros(k - 1) + [0]
  }

  /** Padding only adds zeros. */
  lemma {:induction false} PaddedZeros(n: nat, k: nat)
    requires 0 < n < Pow10(k)
    ensures |DigitsOf(n)| <= k && Padded(n, k) == DigitsOf(n) + Zeros(k - |DigitsOf(n)|)
    decreases k
  {
    PaddedStep(n, k);
    DigitsStep(n);
    OnlyZeros(k - 1);
    hide Padded, DigitsOf, Pow10;
    if n >= 10 {
      PaddedZeros(n / 10, k - 1);
      assert [n % 10] + (DigitsOf(n / 10) + Zeros(k - 1 - |DigitsOf(n / 10)|)) == DigitsOf(n) + Zeros(k - |DigitsOf(n)|);
    }
  }

  lemma {:induction false} PaddedStep(n: nat, k: nat)
    requires 0 < n < Pow10(k)
    ensures k > 0 && n / 10 < Pow10(k - 1) && Padded(n, k) == [n % 10] + Padded(n / 10, k - 1)
  {
  }

  lemma {:induction false} DigitsStep(n: nat)
    requires n > 0
    ensures DigitsOf(n) == if n < 10 then [n] else [n % 10] + DigitsOf(n / 10)
  {
  }

  lemma {:induction false} OnlyZeros(k: nat)
    ensures Padded(0, k) == Zeros(k)
  {
    if k > 0 {
      OnlyZeros(k - 1);
      assert Padded(0, k) == [0] + Zeros(k - 1);
    }
  }

  /** The values of put_dec(), from the four 16-bit parts of the number: what each group of four
      digits is taken from. */
  function Group0(d3: nat, d2: nat, d1: nat, d0: nat): nat {
    656 * d3 + 7296 * d2 + 5536 * d1 + d0
  }

  function Group1(d3: nat, d2: nat, d1: nat, d0: nat): nat {
    Group0(d3, d2, d1, d0) / 10000 + (7671 * d3 + 9496 * d2 + 6 * d1)
  }

  function Group2(d3: nat, d2: nat, d1: nat, d0: nat): nat {
    Group1(d3, d2, d1, d0) / 10000 + (4749 * d3 + 42 * d2)
  }

  function Group3(d3: nat, d2: nat, d1: nat, d0: nat): nat {
    Group2(d3, d2, d1, d0) / 10000 + 281 * d3
  }

  /** Three groups of four digits and the rest. */
  function Join(w0: nat, w1: nat, w2: nat, q3: nat): nat {
    w0 + 10000 * (w1 + 10000 * (w2 + 10000 * q3))
  }

  /** The four 16-bit parts of a 64-bit number, regrouped in units of 10000. */
  lemma Regroup(n: nat, d3: nat, d2: nat, d1: nat, d0: nat)
    requires n == d0 + 0x1_0000 * d1 + 0x1_0000_0000 * d2 + 0x1_0000_0000_0000 * d3
    ensures n == Join(Group0(d3, d2, d1, d0) % 10000, Group1(d3, d2, d1, d0) % 10000,
                      Group2(d3, d2, d1, d0) % 10000, Group3(d3, d2, d1, d0))
  {
  }

  /** The largest number put_dec_helper4() is asked to convert, reached by the all-ones number. */
  lemma LargestAsked(d3: nat, d2: nat, d1: nat, d0: nat)
    requires d3 <= 0xffff && d2 <= 0xffff && d1 <= 0xffff && d0 <= 0xffff
    ensures Group0(d3, d2, d1, d0) <= 1125520955 && Group1(d3, d2, d1, d0) <= 1125520955 && Group2(d3, d2, d1, d0) <= 1125520955
    ensures d3 == d2 == d1 == d0 == 0xffff ==> Group1(d3, d2, d1, d0) == 1125520955
    ensures Group3(d3, d2, d1, d0) < 1073741829
  {
    assert Group0(d3, d2, d1, d0) <= 884001615;
  }

  lemma {:induction false} ThreeGroups(w0: nat, w1: nat, w2: nat, q3: nat)
    requires w0 < 10000 && w1 < 10000 && w2 < 10000
    ensures var n := Join(w0, w1, w2, q3);
            && (q3 > 0 ==> DigitsOf(n) == Padded(w0, 4) + Padded(w1, 4) + Padded(w2, 4) + DigitsOf(q3))
            && Padded(n, 12) == Padded(w0, 4) + Padded(w1, 4) + Padded(w2, 4) + Padded(q3, 0)
  {
    hide DigitsOf, Padded, Pow10;
    Pow10Nine();
    var m2 := w2 + 10000 * q3;
    var m1 := w1 + 10000 * m2;
    if q3 > 0 {
      DigitsJoin(q3, w2, 4);
      DigitsJoin(m2, w1, 4);
      DigitsJoin(m1, w0, 4);
      GroupSeqs(Padded(w0, 4), Padded(w1, 4), Padded(w2, 4), DigitsOf(q3));
    }
    PaddedJoin(q3, w2, 4, 0);
    PaddedJoin(m2, w1, 4, 4);
    PaddedJoin(m1, w0, 4, 8);
    GroupSeqs(Padded(w0, 4), Padded(w1, 4), Padded(w2, 4), Padded(q3, 0));
  }

  lemma GroupSeqs(a: Digits, b: Digits, c: Digits, d: Digits)
    ensures a + (b + (c + d)) == a + b + c + d
  {
  }

  lemma SixteenBits(n: nat)
    requires n < U64
    ensures var d0, d1 := n % 0x1_0000, n / 0x1_0000 % 0x1_0000;
            var d2, d3 := n / 0x1_0000_0000 % 0x1_0000, n / 0x1_0000_0000 / 0x1_0000;
            n == d0 + 0x1_0000 * d1 + 0x1_0000_0000 * d2 + 0x1_0000_0000_0000 * d3 && d3 < 0x1_0000
  {
  }

  method PutDec4(buf: string, n: nat) returns (out: string)
    requires n < U64
    ensures IsDigits(DigitsOf(n)) && out == buf + Text(DigitsOf(n))
  {
    hide Text, IsDigits, DigitsOf, Padded, Grown;
    if n < 100000000 {
      out := PutDecTrunc8(buf, n);
      return;
    }
    SixteenBits(n);
    var d1 := n / 0x1_0000 % 0x1_0000;
    var h := n / 0x1_0000_0000;
    Regroup(n, h / 0x1_0000, h % 0x1_0000, d1, n % 0x1_0000);
    out := PutGroups(buf, n, h / 0x1_0000, h % 0x1_0000, d1, n % 0x1_0000);
  }

  method PutGroups(buf: string, ghost n: nat, d3: nat, d2: nat, d1: nat, d0: nat) returns (out: string)
    requires d3 <= 0xffff && d2 <= 0xffff && d1 <= 0xffff && d0 <= 0xffff && n > 0
    requires n == Join(Group0(d3, d2, d1, d0) % 10000, Group1(d3, d2, d1, d0) % 10000,
                      Group2(d3, d2, d1, d0) % 10000, Group3(d3, d2, d1, d0))
    ensures IsDigits(DigitsOf(n)) && out == buf + Text(DigitsOf(n))
  {
    hide Text, IsDigits, DigitsOf, Padded, Grown, Group0, Group1, Group2, Group3, Join;
    LargestAsked(d3, d2, d1, d0);
    GroupSteps(d3, d2, d1, d0);
    ghost var g0, g1, g2 := Group0(d3, d2, d1, d0), Group1(d3, d2, d1, d0), Group2(d3, d2, d1, d0);
    ghost var w0, w1, w2 := g0 % 10000, g1 % 10000, g2 % 10000;
    NoneGrown(buf);
    var x0: nat := 656 * d3 + 7296 * d2 + 5536 * d1 + d0;
    var q: nat;
    out, q := NextGroup(buf, x0, buf, []);
    assert [] + Padded(w0, 4) == Padded(w0, 4);
    var x1: nat := q + (7671 * d3 + 9496 * d2 + 6 * d1);
    assert x1 == g1;
    out, q := NextGroup(out, x1, buf, Padded(w0, 4));
    var x2: nat := q + (4749 * d3 + 42 * d2);
    assert x2 == g2;
    out, q := NextGroup(out, x2, buf, Padded(w0, 4) + Padded(w1, 4));
    out := FinishDec4(buf, out, q + 281 * d3, w0, w1, w2, n);
  }

  lemma GroupSteps(d3: nat, d2: nat, d1: nat, d0: nat)
    ensures Group0(d3, d2, d1, d0) == 656 * d3 + 7296 * d2 + 5536 * d1 + d0
    ensures Group1(d3, d2, d1, d0) == Group0(d3, d2, d1, d0) / 10000 + (7671 * d3 + 9496 * d2 + 6 * d1)
    ensures Group2(d3, d2, d1, d0) == Group1(d3, d2, d1, d0) / 10000 + (4749 * d3 + 42 * d2)
    ensures Group3(d3, d2, d1, d0) == Group2(d3, d2, d1, d0) / 10000 + 281 * d3
  {
  }

  lemma NoneGrown(buf: string)
    ensures Grown(buf, buf, [])
  {
  }

  method NextGroup(out: string, x: nat, ghost buf: string, ghost d: Digits) returns (out': string, q: nat)
    requires x < 1128869999 && Grown(buf, out, d)
    ensures q == x / 10000 && Grown(buf, out', d + Padded(x % 10000, 4))
  {
    hide Grown, Padded;
    out', q := PutDecHelper4(out, x);
    GrownAgain(buf, out, d, out', Padded(x % 10000, 4));
  }

  /** The digits above the twelfth, or no leading zeros. */
  method FinishDec4(ghost buf: string, out0: string, q: nat, ghost w0: nat, ghost w1: nat, ghost w2: nat, ghost n: nat)
    returns (out: string)
    requires w0 < 10000 && w1 < 10000 && w2 < 10000 && n == Join(w0, w1, w2, q) && n > 0 && q < 1073741829
    requires Grown(buf, out0, Padded(w0, 4) + Padded(w1, 4) + Padded(w2, 4))
    ensures IsDigits(DigitsOf(n)) && out == buf + Text(DigitsOf(n))
  {
    hide Text, IsDigits, DigitsOf, Padded, Grown;
    ThreeGroups(w0, w1, w2, q);
    if q != 0 {
      out := PutDecTrunc8(out0, q);
      GrowsBy(buf, out0, Padded(w0, 4) + Padded(w1, 4) + Padded(w2, 4), out, DigitsOf(q));
      GrownIs(buf, out, DigitsOf(n));
      return;
    }
    Pow10Nine();
    PaddedNone(q);
    PaddedZeros(n, 12);
    DigitsAre(n);
    ghost var k := 12 - |DigitsOf(n)|;
    ghost var groups := Padded(w0, 4) + Padded(w1, 4) + Padded(w2, 4);
    assert groups == groups + [] == DigitsOf(n) + Zeros(k);
    ZerosEnd(buf, out0, n, k);
    out := out0;
    while out[|out| - 1] == '0'
      invariant k >= 0 && out != [] && Grown(buf, out, DigitsOf(n) + Zeros(k))
      invariant out[|out| - 1] == '0' <==> k > 0
      decreases k
    {
      DropZero(buf, out, n, k);
      out := out[..|out| - 1];
      k := k - 1;
    }
    assert DigitsOf(n) + Zeros(0) == DigitsOf(n);
    GrownIs(buf, out, DigitsOf(n));
  }

  lemma {:induction false} GrownIs(buf: string, out: string, d: Digits)
    requires Grown(buf, out, d)
    ensures IsDigits(d) && out == buf + Text(d)
  {
  }

  lemma GrownAgain(buf: string, out: string, d: Digits, more: string, e: Digits)
    requires Grown(buf, out, d) && Grown(out, more, e)
    ensures Grown(buf, more, d + e)
  {
    hide Text, IsDigits;
    GrowsBy(buf, out, d, more, e);
  }

  lemma {:induction false} PaddedNone(q: nat)
    ensures Padded(q, 0) == []
  {
  }

  /** After the digits of n and k zeros the last character is '0' exactly when k > 0. */
  lemma {:induction false} ZerosEnd(buf: string, out: string, n: nat, k: nat)
    requires n > 0 && Grown(buf, out, DigitsOf(n) + Zeros(k))
    ensures out != [] && (out[|out| - 1] == '0' <==> k > 0)
  {
    DigitsValue(n);
    hide DigitsOf;
    var d := DigitsOf(n) + Zeros(k);
    assert out[|out| - 1] == Text(d)[|d| - 1] == Char(d[|d| - 1]);
  }

  lemma DropZero(buf: string, out: string, n: nat, k: nat)
    requires n > 0 && k > 0 && out != [] && Grown(buf, out, DigitsOf(n) + Zeros(k))
    ensures Grown(buf, out[..|out| - 1], DigitsOf(n) + Zeros(k - 1)) && |out| > 1
    ensures out[..|out| - 1][|out| - 2] == '0' <==> k - 1 > 0
  {
    DigitsValue(n);
    hide DigitsOf;
    var d := DigitsOf(n) + Zeros(k);
    var e := DigitsOf(n) + Zeros(k - 1);
    assert d == e + [0];
    assert IsDigits(e);
    TextJoin(e, [0]);
    assert out[..|out| - 1] == buf + Text(e);
    ZerosEnd(buf, out[..|out| - 1], n, k - 1);
  }

  /** The two ways print every 64-bit number alike, and any number of fewer digits the same as its
      digits say: nothing but the digits, and all of them. */
  method PrintBoth(n: nat) returns (a: string, b: string)
    requires n < U64
    ensures a == b && IsDigits(DigitsOf(n)) && a == Text(DigitsOf(n))
  {
    a := PutDec9("", n);
    b := PutDec4("", n);
    assert "" + Text(DigitsOf(n)) == Text(DigitsOf(n));
  }
}
