/** gf2_multiply() and crc32_generic_shift() of lib/crc32.c. */
module Crc32Shift {
  import opened Crc32

  /** The loop of gf2_multiply, n turns before its end. */
  function MulFrom(poly: bv32, product: bv32, x: bv32, y: bv32, n: nat): bv32
    decreases n
  {
    if n == 0 then product
    else MulFrom(poly, Xor(Step(poly, product), Gate(y, Half(x))), Half(x), y, n - 1)
  }

  /** The product of two polynomials modulo poly. */
  function Multiply(poly: bv32, x: bv32, y: bv32): bv32 {
    MulFrom(poly, Gate(y, x), x, y, 31)
  }

  /** The polynomial 1 in this bit order. */
  const ONE: bv32 := 0x8000_0000

  lemma GateXor(y: bv32, z: bv32, x: bv32)
    ensures Gate(Xor(y, z), x) == Xor(Gate(y, x), Gate(z, x))
  {
  }

  /** Any additive map that commutes with the register can be pulled through the
      multiplication loop. */
  ghost predicate Polynomial(poly: bv32, f: bv32 -> bv32) {
    && (forall a, b :: f(Xor(a, b)) == Xor(f(a), f(b)))
    && (forall a :: f(Step(poly, a)) == Step(poly, f(a)))
    && f(0) == 0
  }

  lemma {:induction false} PullThrough(poly: bv32, f: bv32 -> bv32, p: bv32, x: bv32, y: bv32, n: nat)
    requires Polynomial(poly, f)
    ensures f(MulFrom(poly, p, x, y, n)) == MulFrom(poly, f(p), x, f(y), n)
    decreases n
  {
    hide Step, Xor, Half, Gate;
    if n > 0 {
      var p' := Xor(Step(poly, p), Gate(y, Half(x)));
      GateMap(poly, f, y, Half(x));
      assert f(p') == Xor(Step(poly, f(p)), Gate(f(y), Half(x)));
      PullThrough(poly, f, p', Half(x), y, n - 1);
    }
  }

  lemma GateMap(poly: bv32, f: bv32 -> bv32, y: bv32, x: bv32)
    requires Polynomial(poly, f)
    ensures f(Gate(y, x)) == Gate(f(y), x)
  {
    hide Step, Xor;
  }

  lemma MultiplyPulls(poly: bv32, f: bv32 -> bv32, x: bv32, y: bv32)
    requires Polynomial(poly, f)
    ensures f(Multiply(poly, x, y)) == Multiply(poly, x, f(y))
  {
    hide Step, Xor, Half, Gate;
    PullThrough(poly, f, Gate(y, x), x, y, 31);
    GateMap(poly, f, y, x);
  }

  lemma StepIsPolynomial(poly: bv32)
    ensures Polynomial(poly, a => Step(poly, a))
  {
    hide Step, Xor;
    forall a, b ensures Step(poly, Xor(a, b)) == Xor(Step(poly, a), Step(poly, b)) { StepLinear(poly, a, b); }
    StepZero(poly);
  }

  lemma {:induction false} MulFromLinear(poly: bv32, p: bv32, q: bv32, x: bv32, y: bv32, z: bv32, n: nat)
    ensures MulFrom(poly, Xor(p, q), x, Xor(y, z), n) == Xor(MulFrom(poly, p, x, y, n), MulFrom(poly, q, x, z, n))
    decreases n
  {
    hide Step, Xor, Half, Gate;
    if n > 0 {
      var h := Half(x);
      var p', q' := Xor(Step(poly, p), Gate(y, h)), Xor(Step(poly, q), Gate(z, h));
      StepLinear(poly, p, q);
      GateXor(y, z, h);
      XorSwap(Step(poly, p), Step(poly, q), Gate(y, h), Gate(z, h));
      MulFromLinear(poly, p', q', h, y, z, n - 1);
    }
  }

  /** Multiplication distributes over xor. */
  lemma MultiplyLinear(poly: bv32, x: bv32, y: bv32, z: bv32)
    ensures Multiply(poly, x, Xor(y, z)) == Xor(Multiply(poly, x, y), Multiply(poly, x, z))
  {
    hide Step, Xor, Half, Gate;
    GateXor(y, z, x);
    MulFromLinear(poly, Gate(y, x), Gate(z, x), x, y, z, 31);
  }

  /** Multiplying commutes with one step of the register. */
  lemma MultiplyStep(poly: bv32, x: bv32, y: bv32)
    ensures Multiply(poly, x, Step(poly, y)) == Step(poly, Multiply(poly, x, y))
  {
    hide Step, Xor, Half, Gate, Multiply;
    StepIsPolynomial(poly);
    MultiplyPulls(poly, a => Step(poly, a), x, y);
  }

  lemma {:induction false} MultiplySteps(poly: bv32, x: bv32, y: bv32, k: nat)
    ensures Multiply(poly, x, Steps(poly, y, k)) == Steps(poly, Multiply(poly, x, y), k)
  {
    hide Step, Multiply;
    if k > 0 {
      MultiplySteps(poly, x, y, k - 1);
      MultiplyStep(poly, x, Steps(poly, y, k - 1));
    }
  }

  // ---------- 1 is neutral

  function Shl(o: bv32, c: bv32): bv32
    requires c <= 31
  {
    o << (31 - c)
  }

  function Shr(o: bv32, c: bv32): bv32
    requires c <= 31
  {
    o >> c
  }

  lemma ShlLow(o: bv32, c: bv32)
    requires c < 31
    ensures (o << (31 - c)) & 1 == 0
  {
  }

  lemma NoGate(poly: bv32, o: bv32, c: bv32)
    requires c < 31
    ensures Gate(poly, Shl(o, c)) == 0
  {
    ShlLow(o, c);
  }

  function Double(q: bv32): bv32 { q << 1 }

  function Lead(q: bv32): bv32 { if q >> 31 == 1 then ONE else 0 }

  lemma ShlDouble(o: bv32, c: bv32)
    requires c < 31
    ensures Shl(o, c) == Double(Shl(o, c + 1))
  {
  }

  lemma ShrLow(o: bv32, c: bv32, q: bv32)
    requires c < 31 && q == o << (31 - (c + 1))
    ensures ((o >> c) >> 1) & 1 == q >> 31
  {
  }

  lemma ShlLead(o: bv32, c: bv32)
    requires c < 31
    ensures Gate(ONE, Half(Shr(o, c))) == Lead(Shl(o, c + 1))
  {
    ShrLow(o, c, Shl(o, c + 1));
  }

  lemma ClearTop(q: bv32)
    ensures Half(Double(q)) == q & 0x7fff_ffff
  {
  }

  lemma LeadBit(q: bv32)
    ensures Lead(q) == q & 0x8000_0000
  {
    assert q >> 31 == 1 ==> q & 0x8000_0000 == 0x8000_0000;
    assert q >> 31 != 1 ==> q & 0x8000_0000 == 0;
  }

  lemma HalfDouble(q: bv32)
    ensures Xor(Half(Double(q)), Lead(q)) == q
  {
    hide Half, Double, Lead;
    ClearTop(q);
    LeadBit(q);
    assert q == (q & 0x7fff_ffff) ^ (q & 0x8000_0000);
  }

  lemma HalfShl(o: bv32, c: bv32)
    requires c < 31
    ensures Xor(Half(Shl(o, c)), Gate(ONE, Half(Shr(o, c)))) == Shl(o, c + 1)
  {
    hide Xor, Half, Gate, Shl, Shr, Double, Lead;
    ShlDouble(o, c);
    ShlLead(o, c);
    HalfDouble(Shl(o, c + 1));
  }

  lemma HalfShr(o: bv32, c: bv32)
    requires c < 31
    ensures Half(Shr(o, c)) == Shr(o, c + 1)
  {
  }

  lemma NeutralTurn(poly: bv32, o: bv32, c: bv32)
    requires c < 31
    ensures Xor(Step(poly, Shl(o, c)), Gate(ONE, Half(Shr(o, c)))) == Shl(o, c + 1)
  {
    hide Xor, Half, Gate, Shl, Shr;
    NoGate(poly, o, c);
    XorZero(Half(Shl(o, c)));
    HalfShl(o, c);
  }

  lemma {:induction false} NeutralFrom(poly: bv32, o: bv32, c: bv32, n: nat)
    requires c <= 31 && c as int + n == 31
    ensures MulFrom(poly, Shl(o, c), Shr(o, c), ONE, n) == Shl(o, 31)
    decreases n
  {
    hide Xor, Half, Gate, Shl, Shr, Step;
    if n > 0 {
      assert c < 31;
      NeutralTurn(poly, o, c);
      HalfShr(o, c);
      assert (c + 1) as int == c as int + 1;
      NeutralFrom(poly, o, c + 1, n - 1);
    }
  }

  lemma NeutralEnds(o: bv32)
    ensures Shl(o, 31) == o && Shr(o, 0) == o && Gate(ONE, o) == Shl(o, 0)
  {
  }

  lemma MultiplyOne(poly: bv32, x: bv32)
    ensures Multiply(poly, x, ONE) == x
  {
    hide Xor, Half, Gate, Shl, Shr, Step;
    NeutralEnds(x);
    NeutralFrom(poly, x, 0, 31);
  }

  // ---------- the ring laws

  lemma MultiplyIsPolynomial(poly: bv32, x: bv32)
    ensures Polynomial(poly, a => Multiply(poly, x, a))
  {
    hide Xor, Half, Gate, Step, Multiply;
    forall a, b ensures Multiply(poly, x, Xor(a, b)) == Xor(Multiply(poly, x, a), Multiply(poly, x, b)) {
      MultiplyLinear(poly, x, a, b);
    }
    forall a ensures Multiply(poly, x, Step(poly, a)) == Step(poly, Multiply(poly, x, a)) {
      MultiplyStep(poly, x, a);
    }
    MultiplyZero(poly, x);
  }

  lemma MultiplyZero(poly: bv32, x: bv32)
    ensures Multiply(poly, x, 0) == 0
  {
    hide Xor, Half, Gate, Step, Multiply;
    MultiplyLinear(poly, x, 0, 0);
    XorSelf(Multiply(poly, x, 0));
    XorSelf(0);
  }

  lemma XorSelf(a: bv32)
    ensures Xor(a, a) == 0
  {
  }

  /** gf2_multiply is commutative, */
  lemma MultiplyCommutes(poly: bv32, x: bv32, y: bv32)
    ensures Multiply(poly, x, y) == Multiply(poly, y, x)
  {
    hide Xor, Half, Gate, Step, Multiply;
    MultiplyIsPolynomial(poly, x);
    MultiplyPulls(poly, a => Multiply(poly, x, a), y, ONE);
    MultiplyOne(poly, y);
    MultiplyOne(poly, x);
  }

  /** associative, */
  lemma MultiplyAssociates(poly: bv32, x: bv32, y: bv32, z: bv32)
    ensures Multiply(poly, Multiply(poly, x, y), z) == Multiply(poly, x, Multiply(poly, y, z))
  {
    hide Xor, Half, Gate, Step, Multiply;
    MultiplyIsPolynomial(poly, z);
    MultiplyPulls(poly, a => Multiply(poly, z, a), x, y);
    MultiplyCommutes(poly, Multiply(poly, x, y), z);
    MultiplyCommutes(poly, z, y);
  }

  /** and by x^k it is k steps of the register. */
  lemma {:induction false} MultiplyPower(poly: bv32, x: bv32, k: nat)
    ensures Multiply(poly, x, Steps(poly, ONE, k)) == Steps(poly, x, k)
  {
    hide Multiply, Step;
    MultiplySteps(poly, x, ONE, k);
    MultiplyOne(poly, x);
  }

  method RunMultiply(x: bv32, y: bv32, modulus: bv32) returns (product: bv32)
    ensures product == Multiply(modulus, x, y)
  {
    hide Xor, Half, Gate, Step;
    product := Gate(y, x);
    var rest, i := x, 0;
    while i < 31
      invariant 0 <= i <= 31
      invariant MulFrom(modulus, product, rest, y, 31 - i) == Multiply(modulus, x, y)
    {
      product := Step(modulus, product);
      rest := Half(rest);
      product := Xor(product, Gate(y, rest));
      i := i + 1;
    }
  }

  lemma OneStep(poly: bv32, c: bv32)
    requires c < 31
    ensures Step(poly, Shr(ONE, c)) == Shr(ONE, c + 1)
  {
    assert (0x8000_0000 as bv32 >> c) & 1 == 0;
  }

  lemma {:induction false} OneSteps(poly: bv32, c: bv32, n: nat)
    requires c <= 31 && c as int == n
    ensures Steps(poly, ONE, n) == Shr(ONE, c)
    decreases n
  {
    hide Step, Shr;
    if n == 0 {
      NeutralEnds(ONE);
    } else {
      assert c > 0;
      assert (c - 1) as int == c as int - 1;
      OneSteps(poly, c - 1, n - 1);
      OneStep(poly, c - 1);
      assert c - 1 + 1 == c;
    }
  }

  lemma LastStep(poly: bv32)
    ensures Step(poly, Shr(ONE, 31)) == poly
  {
  }

  /** The polynomial is x^32. */
  lemma {:induction false} PolyIsPower(poly: bv32)
    ensures Steps(poly, ONE, 32) == poly
  {
    hide Step, Shr;
    OneSteps(poly, 31, 31);
    LastStep(poly);
  }

  /** Squaring x^k gives x^2k. */
  lemma {:induction false} SquarePower(poly: bv32, k: nat)
    ensures Multiply(poly, Steps(poly, ONE, k), Steps(poly, ONE, k)) == Steps(poly, ONE, 2 * k)
  {
    hide Multiply, Step;
    MultiplyPower(poly, Steps(poly, ONE, k), k);
    StepsAdd(poly, ONE, k, k);
  }

  /** crc32_generic_shift() takes a logarithmic number of multiplications and still
      does what feeding len zero bytes to the bit-at-a-time register does. */
  method RunShift(crc: bv32, len: nat, poly: bv32) returns (r: bv32)
    ensures r == Steps(poly, crc, 8 * len)
  {
    hide Multiply, Step, Steps;
    r := crc;
    var i := 0;
    assert Steps(poly, crc, 0) == crc by { StepsNone(poly, crc); }
    while i < 8 * (len % 4)
      invariant 0 <= i <= 8 * (len % 4)
      invariant r == Steps(poly, crc, i)
    {
      StepsMore(poly, crc, i);
      r := Step(poly, r);
      i := i + 1;
    }
    var rest := len / 4;
    if rest == 0 { return; }
    var power := poly;
    ghost var done: nat := 8 * (len % 4);  // bits shifted in so far
    ghost var unit: nat := 32;             // power is x^unit
    PolyIsPower(poly);
    while true
      invariant rest > 0 && r == Steps(poly, crc, done)
      invariant power == Steps(poly, ONE, unit)
      invariant done + rest * unit == 8 * len
      decreases rest
    {
      if rest % 2 == 1 {
        r := RunMultiply(r, power, poly);
        MultiplyPower(poly, Steps(poly, crc, done), unit);
        StepsAdd(poly, crc, done, unit);
        done := done + unit;
      }
      assert rest * unit == (rest % 2) * unit + (rest / 2) * (2 * unit);
      rest := rest / 2;
      if rest == 0 { break; }
      power := RunMultiply(power, power, poly);
      SquarePower(poly, unit);
      unit := 2 * unit;
    }
  }

  lemma {:induction false} StepsNone(poly: bv32, crc: bv32)
    ensures Steps(poly, crc, 0) == crc
  {
  }

  lemma StepsMore(poly: bv32, crc: bv32, n: nat)
    ensures Steps(poly, crc, n + 1) == Step(poly, Steps(poly, crc, n))
  {
    hide Step;
  }

  function Zeros(n: nat): (z: seq<bv8>)
    ensures |z| == n && forall i | 0 <= i < n :: z[i] == 0
  {
    if n == 0 then [] else Zeros(n - 1) + [0]
  }

  /** Feeding zero bytes is stepping the register. */
  lemma {:induction false} ZerosAreSteps(poly: bv32, seed: bv32, n: nat)
    ensures Crc(poly, seed, Zeros(n)) == Steps(poly, seed, 8 * n)
  {
    hide Step, Xor, Widen;
    if n > 0 {
      assert Zeros(n)[..n - 1] == Zeros(n - 1);
      ZerosAreSteps(poly, seed, n - 1);
      WidenZero();
      XorZero(Steps(poly, seed, 8 * (n - 1)));
      StepsAdd(poly, seed, 8 * (n - 1), 8);
    }
  }

  lemma WidenZero()
    ensures Widen(0) == 0
  {
  }

  /** The law that lets a CRC be computed in pieces: the CRC of A followed by B is
      the CRC of A shifted over B's length, plus the CRC of B from zero. */
  lemma {:induction false} CombineLaw(poly: bv32, seed: bv32, a: seq<bv8>, b: seq<bv8>)
    ensures Crc(poly, seed, a + b) == Xor(Steps(poly, Crc(poly, seed, a), 8 * |b|), Crc(poly, 0, b))
  {
    hide Step, Xor, Crc, Steps;
    var c := Crc(poly, seed, a);
    CrcConcat(poly, seed, a, b);
    XorZero(c);
    CrcAffine(poly, 0, c, b);
    XorComm(Crc(poly, 0, b), Steps(poly, c, 8 * |b|));
  }

  /** The same with the code that does it. */
  method CombineCrc(crcA: bv32, crcB: bv32, ghost seed: bv32, ghost a: seq<bv8>, ghost b: seq<bv8>,
                    lenB: nat, poly: bv32) returns (r: bv32)
    requires crcA == Crc(poly, seed, a) && crcB == Crc(poly, 0, b) && lenB == |b|
    ensures r == Crc(poly, seed, a + b)
  {
    hide Step, Xor, Crc, Steps;
    var s := RunShift(crcA, lenB, poly);
    r := Xor(s, crcB);
    CombineLaw(poly, seed, a, b);
  }
}
