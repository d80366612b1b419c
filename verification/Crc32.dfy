/** CRC-32 of lib/crc32.c: the bit-at-a-time definition and its algebra. Any 32-bit
    polynomial will do; lsbit is the highest power, as in the source. */
module Crc32 {

  function Xor(a: bv32, b: bv32): bv32 { a ^ b }

  /** w if the low bit of x is set: what comes back when that bit leaves the register. */
  function Gate(w: bv32, x: bv32): bv32 {
    if x & 1 == 1 then w else 0
  }

  function Half(crc: bv32): bv32 { crc >> 1 }

  /** One zero bit through the register. */
  function Step(poly: bv32, crc: bv32): bv32 {
    Xor(Half(crc), Gate(poly, crc))
  }

  function Steps(poly: bv32, crc: bv32, n: nat): bv32 {
    if n == 0 then crc else Step(poly, Steps(poly, crc, n - 1))
  }

  function Widen(b: bv8): bv32 { b as bv32 }

  /** The reference: xor a byte in, eight steps. */
  function Byte(poly: bv32, crc: bv32, b: bv8): bv32 {
    Steps(poly, Xor(crc, Widen(b)), 8)
  }

  function Crc(poly: bv32, seed: bv32, buf: seq<bv8>): bv32 {
    if buf == [] then seed else Byte(poly, Crc(poly, seed, buf[..|buf| - 1]), buf[|buf| - 1])
  }

  // ---------- xor

  lemma XorAssoc(a: bv32, b: bv32, c: bv32)
    ensures Xor(Xor(a, b), c) == Xor(a, Xor(b, c))
  {
  }

  lemma XorComm(a: bv32, b: bv32)
    ensures Xor(a, b) == Xor(b, a)
  {
  }

  lemma XorZero(a: bv32)
    ensures Xor(a, 0) == a && Xor(0, a) == a
  {
  }

  lemma XorSwap(a: bv32, b: bv32, c: bv32, d: bv32)
    ensures Xor(Xor(a, b), Xor(c, d)) == Xor(Xor(a, c), Xor(b, d))
  {
    hide Xor;
    XorAssoc(a, b, Xor(c, d));
    XorAssoc(b, c, d);
    XorComm(b, c);
    XorAssoc(c, b, d);
    XorAssoc(a, c, Xor(b, d));
  }

  // ---------- the register is linear

  lemma HalfLinear(a: bv32, b: bv32)
    ensures Half(Xor(a, b)) == Xor(Half(a), Half(b))
  {
  }

  lemma GateLinear(poly: bv32, a: bv32, b: bv32)
    ensures Gate(poly, Xor(a, b)) == Xor(Gate(poly, a), Gate(poly, b))
  {
  }

  lemma StepLinear(poly: bv32, a: bv32, b: bv32)
    ensures Step(poly, Xor(a, b)) == Xor(Step(poly, a), Step(poly, b))
  {
    hide Xor, Half, Gate;
    HalfLinear(a, b);
    GateLinear(poly, a, b);
    XorSwap(Half(a), Half(b), Gate(poly, a), Gate(poly, b));
  }

  lemma StepZero(poly: bv32)
    ensures Step(poly, 0) == 0
  {
  }

  lemma {:induction false} StepsLinear(poly: bv32, a: bv32, b: bv32, n: nat)
    ensures Steps(poly, Xor(a, b), n) == Xor(Steps(poly, a, n), Steps(poly, b, n))
  {
    hide Step, Xor;
    if n > 0 {
      StepsLinear(poly, a, b, n - 1);
      StepLinear(poly, Steps(poly, a, n - 1), Steps(poly, b, n - 1));
    }
  }

  lemma {:induction false} StepsAdd(poly: bv32, a: bv32, m: nat, n: nat)
    ensures Steps(poly, Steps(poly, a, m), n) == Steps(poly, a, m + n)
  {
    hide Step;
    if n > 0 {
      StepsAdd(poly, a, m, n - 1);
    }
  }

  /** Feeding a buffer is affine in the seed: crc(s xor t, A) = crc(s, A) xor (|A| zero bytes after t). */
  lemma {:induction false} CrcAffine(poly: bv32, s: bv32, t: bv32, buf: seq<bv8>)
    ensures Crc(poly, Xor(s, t), buf) == Xor(Crc(poly, s, buf), Steps(poly, t, 8 * |buf|))
  {
    hide Step, Xor;
    if buf != [] {
      var front, b := buf[..|buf| - 1], Widen(buf[|buf| - 1]);
      var x, z := Crc(poly, s, front), Steps(poly, t, 8 * |front|);
      CrcAffine(poly, s, t, front);
      assert Xor(Xor(x, z), b) == Xor(Xor(x, b), z) by {
        XorAssoc(x, z, b);
        XorComm(z, b);
        XorAssoc(x, b, z);
      }
      StepsLinear(poly, Xor(x, b), z, 8);
      StepsAdd(poly, t, 8 * |front|, 8);
    }
  }

  lemma {:induction false} CrcConcat(poly: bv32, seed: bv32, a: seq<bv8>, b: seq<bv8>)
    ensures Crc(poly, seed, a + b) == Crc(poly, Crc(poly, seed, a), b)
    decreases |b|
  {
    hide Byte;
    if b == [] {
      assert a + b == a;
    } else {
      assert (a + b)[..|a + b| - 1] == a + b[..|b| - 1];
      CrcConcat(poly, seed, a, b[..|b| - 1]);
    }
  }
}
