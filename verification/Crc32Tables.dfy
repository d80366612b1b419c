/** The lookup tables of lib/gen_crc32table.c and the slicing-by-8 loop of
    lib/crc32.c, against the bit-at-a-time register. */
module Crc32Tables {
  import opened Numbers
  import opened Crc32
  import opened Crc32Shift

  // ---------- a byte at a time

  function LowByte(x: bv32): bv32 { x & 0xff }

  function DropByte(x: bv32): bv32 { x >> 8 }

  function HighPart(x: bv32): bv32 { x & 0xffff_ff00 }

  lemma SplitByte(x: bv32)
    ensures Xor(LowByte(x), HighPart(x)) == x
  {
  }

  predicate Even(y: bv32) { y & 1 == 0 }

  lemma CleanStep(poly: bv32, y: bv32)
    requires Even(y)
    ensures Step(poly, y) == Half(y)
  {
    hide Half;
    XorZero(Half(y));
  }

  lemma CleanLow(x: bv32, h: bv32)
    requires h == HighPart(x)
    ensures Even(h) && Even(Half(h)) && Even(Half(Half(h))) && Even(Half(Half(Half(h))))
    ensures var g := Half(Half(Half(Half(h))));
            Even(g) && Even(Half(g)) && Even(Half(Half(g))) && Even(Half(Half(Half(g))))
  {
  }

  function Shr2(y: bv32): bv32 { y >> 2 }

  function Shr4(y: bv32): bv32 { y >> 4 }

  lemma HalfTwice(y: bv32)
    ensures Half(Half(y)) == Shr2(y)
  {
  }

  lemma Shr2Twice(y: bv32)
    ensures Shr2(Shr2(y)) == Shr4(y)
  {
  }

  lemma Shr4Twice(y: bv32)
    ensures Shr4(Shr4(y)) == DropByte(y)
  {
  }

  lemma HighDrops(x: bv32)
    ensures DropByte(HighPart(x)) == DropByte(x)
  {
  }

  lemma HalfEight(x: bv32, h: bv32)
    requires h == HighPart(x)
    ensures Half(Half(Half(Half(Half(Half(Half(Half(h)))))))) == DropByte(x)
  {
    hide Half, Shr2, Shr4, DropByte, HighPart;
    HalfTwice(h);
    HalfTwice(Shr2(h));
    Shr2Twice(h);
    HalfTwice(Shr4(h));
    HalfTwice(Shr2(Shr4(h)));
    Shr2Twice(Shr4(h));
    Shr4Twice(h);
    HighDrops(x);
  }

  /** Eight steps only shift when the low byte is clear. */
  lemma {:induction false} HighSteps(poly: bv32, x: bv32)
    ensures Steps(poly, HighPart(x), 8) == DropByte(x)
  {
    hide Step, Steps, Half, Even, HighPart, DropByte;
    var h0 := HighPart(x);
    CleanLow(x, h0);
    HalfEight(x, h0);
    var h1 := Half(h0);
    var h2 := Half(h1);
    var h3 := Half(h2);
    var h4 := Half(h3);
    var h5 := Half(h4);
    var h6 := Half(h5);
    var h7 := Half(h6);
    StepsNone(poly, h0);
    CleanStep(poly, h0); StepsMore(poly, h0, 0);
    CleanStep(poly, h1); StepsMore(poly, h0, 1);
    CleanStep(poly, h2); StepsMore(poly, h0, 2);
    CleanStep(poly, h3); StepsMore(poly, h0, 3);
    CleanStep(poly, h4); StepsMore(poly, h0, 4);
    CleanStep(poly, h5); StepsMore(poly, h0, 5);
    CleanStep(poly, h6); StepsMore(poly, h0, 6);
    CleanStep(poly, h7); StepsMore(poly, h0, 7);
  }

  /** Eight steps are one table lookup and a shift. */
  lemma {:induction false} Sarwate(poly: bv32, x: bv32)
    ensures Steps(poly, x, 8) == Xor(Steps(poly, LowByte(x), 8), DropByte(x))
  {
    hide Step, Steps, Xor, LowByte, HighPart, DropByte;
    SplitByte(x);
    StepsLinear(poly, LowByte(x), HighPart(x), 8);
    HighSteps(poly, x);
  }

  // ---------- table indices

  function Push(w: bv32, low: bool): bv32 { (w << 1) ^ (if low then 1 else 0) }

  /** The 32-bit word whose value is k. */
  function WordOf(k: nat): bv32 {
    if k == 0 then 0 else Push(WordOf(k / 2), k % 2 == 1)
  }

  lemma ByteHalves(x: bv32)
    requires x < 256
    ensures x as int == 2 * ((x >> 1) as int) + (if x & 1 == 1 then 1 else 0)
  {
  }

  lemma PushBack(x: bv32)
    requires x < 256
    ensures Push(x >> 1, x & 1 == 1) == x
  {
  }

  lemma {:induction false} WordOfIndex(x: bv32)
    requires x < 256
    ensures WordOf(x as int) == x
    decreases x as int
  {
    hide Push;
    if x as int > 0 {
      ByteHalves(x);
      PushBack(x);
      assert x >> 1 < 256;
      WordOfIndex(x >> 1);
    } else {
      assert x == 0;
    }
  }

  lemma LowByteSmall(x: bv32)
    ensures LowByte(x) < 256 && 0 <= LowByte(x) as int < 256
  {
  }

  lemma PushLow(w: bv32)
    ensures Xor(Push(0, true), Push(w, false)) == Push(w, true)
  {
  }

  lemma PushXor(v: bv32, w: bv32)
    ensures Push(Xor(v, w), false) == Xor(Push(v, false), Push(w, false))
  {
  }

  lemma PushNone()
    ensures Push(0, false) == 0
  {
  }

  predicate PowerOfTwo(i: nat) {
    i in {1, 2, 4, 8, 16, 32, 64, 128}
  }

  lemma {:induction false} WordDouble(k: nat)
    ensures WordOf(2 * k) == Push(WordOf(k), false)
  {
    hide Push;
    PushNone();
  }

  lemma WordOdd(k: nat)
    ensures WordOf(2 * k + 1) == Push(WordOf(k), true)
  {
    hide Push;
  }

  lemma DoubledSum(h: nat, j: nat)
    requires WordOf(h + j) == Xor(WordOf(h), WordOf(j))
    ensures WordOf(2 * h + 2 * j) == Xor(WordOf(2 * h), WordOf(2 * j))
  {
    hide Push, Xor;
    WordDouble(h);
    WordDouble(j);
    WordDouble(h + j);
    PushXor(WordOf(h), WordOf(j));
  }

  /** i and a multiple of 2i have no common bits, so adding them is xor. */
  lemma {:induction false} WordOfSum(m: nat, q: nat)
    ensures WordOf(Pow2(m) + q * Pow2(m + 1)) == Xor(WordOf(Pow2(m)), WordOf(q * Pow2(m + 1)))
    decreases m
  {
    hide Push, Xor, WordOf;
    if m == 0 {
      assert Pow2(0) == 1 && Pow2(1) == 2;
      WordOfOdd(q);
    } else {
      var h, j := Pow2(m - 1), q * Pow2(m);
      WordOfSum(m - 1, q);
      assert Pow2(m) == 2 * h && Pow2(m + 1) == 2 * Pow2(m);
      assert q * Pow2(m + 1) == 2 * j;
      DoubledSum(h, j);
    }
  }

  lemma {:induction false} WordOfOdd(q: nat)
    ensures WordOf(1 + q * 2) == Xor(WordOf(1), WordOf(q * 2))
  {
    hide Push, Xor;
    WordDouble(q);
    WordOdd(q);
    WordOdd(0);
    PushLow(WordOf(q));
    assert WordOf(0) == 0;
  }

  // ---------- filling the tables

  lemma {:induction false} PowerSteps(poly: bv32, i: nat, m: nat)
    requires PowerOfTwo(i) && i == Pow2(m)
    ensures Steps(poly, WordOf(i), m) == 1
    decreases m
  {
    hide Step, Push;
    if m == 0 {
      PushLow(0);
      XorZero(Push(0, true));
      assert WordOf(1) == Push(WordOf(0), true);
      PushOne();
    } else {
      assert PowerOfTwo(i / 2) && i == 2 * (i / 2);
      WordDouble(i / 2);
      PowerSteps(poly, i / 2, m - 1);
      PowerWords();
      StepPush(poly, WordOf(i / 2));
      StepsNone(poly, WordOf(i));
      StepsMore(poly, WordOf(i), 0);
      StepsAdd(poly, WordOf(i), 1, m - 1);
    }
  }

  lemma PushOne()
    ensures Push(0, true) == 1
  {
  }

  lemma StepPush(poly: bv32, w: bv32)
    requires w < 0x8000_0000
    ensures Step(poly, Push(w, false)) == w
  {
    assert Even(Push(w, false));
    CleanStep(poly, Push(w, false));
  }

  lemma PowerWords()
    ensures && WordOf(1) == 1 && WordOf(2) == 2 && WordOf(4) == 4 && WordOf(8) == 8
            && WordOf(16) == 16 && WordOf(32) == 32 && WordOf(64) == 64 && WordOf(128) == 128
  {
    hide Push;
    PushValues();
    assert WordOf(1) == Push(WordOf(0), true);
    WordDouble(1); WordDouble(2); WordDouble(4); WordDouble(8); WordDouble(16); WordDouble(32); WordDouble(64);
  }

  lemma PushValues()
    ensures && Push(0, true) == 1 && Push(1, false) == 2 && Push(2, false) == 4 && Push(4, false) == 8 && Push(8, false) == 16
            && Push(16, false) == 32 && Push(32, false) == 64 && Push(64, false) == 128
  {
  }

  /** Byte k followed by no, or by further zero bytes. */
  function Entry(poly: bv32, row: nat, k: nat): bv32 {
    Steps(poly, WordOf(k), 8 * (row + 1))
  }

  function Idx(q: nat, stride: nat): nat { q * stride }

  lemma MulOrder(a: nat, b: nat, i: nat)
    requires a < b
    ensures Idx(a, i) + i <= Idx(b, i)
  {
    assert (b - a - 1) * i >= 0;
    assert b * i == a * i + i + (b - a - 1) * i;
  }

  lemma IdxSplit(q: nat, i: nat)
    ensures Idx(q, 2 * i) == Idx(2 * q, i) && Idx(2 * q + 1, i) == i + Idx(q, 2 * i)
  {
  }

  ghost predicate StrideDone(tab: array2<bv32>, poly: bv32, stride: nat)
    reads tab
  {
    && tab.Length0 == 8 && tab.Length1 == 256
    && forall q: nat | Idx(q, stride) < 256 :: tab[0, Idx(q, stride)] == Entry(poly, 0, Idx(q, stride))
  }

  lemma {:induction false} EntrySum(poly: bv32, e: nat, q: nat)
    ensures var i := Pow2(e);
            Entry(poly, 0, i + Idx(q, 2 * i)) == Xor(Entry(poly, 0, i), Entry(poly, 0, Idx(q, 2 * i)))
  {
    hide Steps, Xor, WordOf;
    WordOfSum(e, q);
    StepsLinear(poly, WordOf(Pow2(e)), WordOf(q * Pow2(e + 1)), 8);
  }

  /** The entry written at j is no other multiple of i. */
  lemma StrideApart(i: nat, q: nat)
    requires i > 0
    ensures forall p: nat | p != 2 * q + 1 :: Idx(p, i) != i + Idx(q, 2 * i)
    ensures forall p: nat :: Idx(p, 2 * i) != i + Idx(q, 2 * i)
  {
    IdxSplit(q, i);
    forall p: nat | p != 2 * q + 1 ensures Idx(p, i) != i + Idx(q, 2 * i) {
      if p < 2 * q + 1 { MulOrder(p, 2 * q + 1, i); } else { MulOrder(2 * q + 1, p, i); }
    }
    forall p: nat ensures Idx(p, 2 * i) != i + Idx(q, 2 * i) {
      IdxSplit(p, i);
    }
  }

  /** One pass of the outer loop: from the multiples of 2i to the multiples of i. */
  method FillStride(tab: array2<bv32>, poly: bv32, i: nat, ghost e: nat, ghost m: nat, crc: bv32)
    requires i == Pow2(e) > 0 && Idx(m, 2 * i) == 256
    requires crc == Entry(poly, 0, i)
    requires StrideDone(tab, poly, 2 * i)
    modifies tab
    ensures StrideDone(tab, poly, i)
  {
    hide Xor, Entry, Idx;
    var j := 0;
    ghost var q: nat := 0;
    IdxZero(2 * i);
    while j < 256
      invariant j == Idx(q, 2 * i) && q <= m
      invariant StrideDone(tab, poly, 2 * i)
      invariant forall p: nat | p < 2 * q && Idx(p, i) < 256 :: tab[0, Idx(p, i)] == Entry(poly, 0, Idx(p, i))
      decreases m - q
    {
      assert q != m;
      MulOrder(q, m, 2 * i);
      IdxSplit(q, i);
      EntrySum(poly, e, q);
      StrideApart(i, q);
      tab[0, i + j] := Xor(crc, tab[0, j]);
      IdxNext(q, 2 * i);
      j := j + 2 * i;
      q := q + 1;
    }
    forall p: nat | Idx(p, i) < 256 ensures p < 2 * q {
      IdxSplit(q, i);
      if p > 2 * q { MulOrder(2 * q, p, i); }
    }
  }

  lemma IdxZero(s: nat)
    ensures Idx(0, s) == 0
  {
  }

  lemma IdxNext(q: nat, s: nat)
    ensures Idx(q + 1, s) == Idx(q, s) + s
  {
  }

  /** The first column stride holds before anything but entry 0 is filled in. */
  lemma Stride256(tab: array2<bv32>, poly: bv32)
    requires tab.Length0 == 8 && tab.Length1 == 256 && tab[0, 0] == 0
    ensures StrideDone(tab, poly, 256)
  {
    hide Step;
    forall q: nat | Idx(q, 256) < 256 ensures tab[0, Idx(q, 256)] == Entry(poly, 0, Idx(q, 256)) {
      assert q == 0;
      StepsOfZero(poly, 8);
    }
  }

  lemma {:induction false} StepsOfZero(poly: bv32, n: nat)
    ensures Steps(poly, 0, n) == 0
  {
    hide Step;
    if n > 0 {
      StepsOfZero(poly, n - 1);
      StepZero(poly);
    }
  }

  lemma {:induction false} PowerEntry(poly: bv32, i: nat, m: nat)
    requires PowerOfTwo(i) && i == Pow2(m) && m < 8
    ensures Entry(poly, 0, i) == Steps(poly, 1, 8 - m)
  {
    hide Steps, WordOf;
    PowerSteps(poly, i, m);
    StepsAdd(poly, WordOf(i), m, 8 - m);
  }

  lemma PowerExponent(m: nat)
    requires m < 8
    ensures PowerOfTwo(Pow2(m)) && Pow2(m + 1) == 2 * Pow2(m) && Idx(Pow2(7 - m), 2 * Pow2(m)) == 256
    ensures m > 0 ==> Pow2(m) / 2 == Pow2(m - 1)
  {
    assert Pow2(0) == 1 && Pow2(1) == 2 && Pow2(2) == 4 && Pow2(3) == 8;
    assert Pow2(4) == 16 && Pow2(5) == 32 && Pow2(6) == 64 && Pow2(7) == 128;
  }

  ghost predicate RowDone(tab: array2<bv32>, poly: bv32, row: nat, upto: nat)
    reads tab
    requires tab.Length0 == 8 && tab.Length1 == 256 && row < 8 && upto <= 256
  {
    forall k: nat | k < upto :: tab[row, k] == Entry(poly, row, k)
  }

  /** crc32init_le_generic(): row 0, by doubling. */
  method FillFirstRow(tab: array2<bv32>, poly: bv32)
    requires tab.Length0 == 8 && tab.Length1 == 256
    modifies tab
    ensures RowDone(tab, poly, 0, 256)
  {
    hide Steps, Step, Xor, WordOf;
    var crc: bv32 := 1;
    tab[0, 0] := 0;
    Stride256(tab, poly);
    var i := 128;
    ghost var m: nat := 8;  // i is 2^(m-1), or 0
    StepsNone(poly, 1);
    assert Pow2(8) == 256 && Pow2(7) == 128;
    while i > 0
      invariant m <= 8 && i == (if m == 0 then 0 else Pow2(m - 1))
      invariant StrideDone(tab, poly, Pow2(m))
      invariant crc == Steps(poly, 1, 8 - m)
      decreases m
    {
      assert m > 0;
      StepsMore(poly, 1, 8 - m);
      crc := Step(poly, crc);
      PowerExponent(m - 1);
      PowerEntry(poly, i, m - 1);
      FillStride(tab, poly, i, m - 1, Pow2(8 - m), crc);
      i := i / 2;
      m := m - 1;
    }
    forall k: nat | k < 256 ensures tab[0, k] == Entry(poly, 0, k) {
      assert Idx(k, 1) == k;
    }
  }

  lemma {:induction false} TableLookup(tab: array2<bv32>, poly: bv32, row: nat, x: bv32)
    requires tab.Length0 == 8 && tab.Length1 == 256 && row < 8 && RowDone(tab, poly, row, 256)
    ensures LowByte(x) as int < 256 && tab[row, LowByte(x) as int] == Steps(poly, LowByte(x), 8 * (row + 1))
  {
    hide Steps, LowByte;
    LowByteSmall(x);
    WordOfIndex(LowByte(x));
  }

  lemma {:induction false} NextRow(poly: bv32, row: nat, k: nat)
    requires row > 0
    ensures Entry(poly, row, k) ==
            Xor(Steps(poly, LowByte(Entry(poly, row - 1, k)), 8), DropByte(Entry(poly, row - 1, k)))
  {
    hide Steps, WordOf, Xor, LowByte, DropByte;
    StepsAdd(poly, WordOf(k), 8 * row, 8);
    Sarwate(poly, Entry(poly, row - 1, k));
  }

  /** Row j, entry i is the register after byte i and j zero bytes. */
  method InitTables(poly: bv32) returns (tab: array2<bv32>)
    ensures fresh(tab) && tab.Length0 == 8 && tab.Length1 == 256
    ensures forall row: nat | row < 8 :: RowDone(tab, poly, row, 256)
  {
    hide Steps, Xor, WordOf, LowByte, DropByte, Entry;
    tab := new bv32[8, 256];
    FillFirstRow(tab, poly);
    var i := 0;
    while i < 256
      invariant 0 <= i <= 256
      invariant forall k: nat | k < 256 :: tab[0, k] == Entry(poly, 0, k)
      invariant forall row: nat, k: nat | row < 8 && k < i :: tab[row, k] == Entry(poly, row, k)
    {
      var crc := tab[0, i];
      var j := 1;
      while j < 8
        invariant 1 <= j <= 8
        invariant crc == Entry(poly, j - 1, i)
        invariant forall k: nat | k < 256 :: tab[0, k] == Entry(poly, 0, k)
        invariant forall row: nat, k: nat | row < 8 && k < i :: tab[row, k] == Entry(poly, row, k)
        invariant forall row: nat | row < j :: tab[row, i] == Entry(poly, row, i)
      {
        TableLookup(tab, poly, 0, crc);
        NextRow(poly, j, i);
        crc := Xor(tab[0, LowByte(crc) as int], DropByte(crc));
        tab[j, i] := crc;
        j := j + 1;
      }
      i := i + 1;
    }
  }
}
