/** crc32_body() of lib/crc32.c on a little-endian machine: eight bytes per turn
    through eight tables, with unaligned head and short tail byte by byte. */
module Crc32Body {
  import opened Crc32
  import opened Crc32Shift
  import opened Crc32Tables

  function Lift(w: bv32): bv32 { w << 8 }

  /** A byte below a word: the little-endian digit shift. */
  function Below(b: bv8, w: bv32): bv32 { Xor(Widen(b), Lift(w)) }

  /** The 32-bit load of four bytes. */
  function LoadLE(b0: bv8, b1: bv8, b2: bv8, b3: bv8): bv32 {
    Below(b0, Below(b1, Below(b2, Below(b3, 0))))
  }

  predicate Short(w: bv32) { w < 0x100_0000 }

  lemma BelowShort(b1: bv8, b2: bv8, b3: bv8)
    ensures Short(0) && Short(Below(b3, 0)) && Short(Below(b2, Below(b3, 0))) && Short(Below(b1, Below(b2, Below(b3, 0))))
  {
  }

  lemma LiftParts(w: bv32)
    requires Short(w)
    ensures LowByte(Lift(w)) == 0 && DropByte(Lift(w)) == w
  {
  }

  /** A word's low byte leaves the register in eight steps, its rest moves down. */
  lemma {:induction false} LiftSteps(poly: bv32, w: bv32)
    requires Short(w)
    ensures Steps(poly, Lift(w), 8) == w
  {
    hide Steps, Step, Xor, Lift, LowByte, DropByte, Short;
    LiftParts(w);
    Sarwate(poly, Lift(w));
    StepsOfZero(poly, 8);
    XorZero(w);
  }

  lemma {:induction false} Absorb(poly: bv32, c: bv32, b: bv8, w: bv32)
    requires Short(w)
    ensures Steps(poly, Xor(c, Below(b, w)), 8) == Xor(Byte(poly, c, b), w)
  {
    hide Steps, Step, Xor, Lift, Widen, Short;
    XorAssoc(c, Widen(b), Lift(w));
    StepsLinear(poly, Xor(c, Widen(b)), Lift(w), 8);
    LiftSteps(poly, w);
  }

  /** Four bytes at once: xor the loaded word in, 32 steps. */
  lemma {:induction false} FourBytes(poly: bv32, c: bv32, b0: bv8, b1: bv8, b2: bv8, b3: bv8)
    ensures Byte(poly, Byte(poly, Byte(poly, Byte(poly, c, b0), b1), b2), b3) ==
            Steps(poly, Xor(c, LoadLE(b0, b1, b2, b3)), 32)
  {
    hide Steps, Step, Xor, Below, Byte, Short;
    BelowShort(b1, b2, b3);
    var w3 := Below(b3, 0);
    var w2 := Below(b2, w3);
    var w1 := Below(b1, w2);
    var c0, c1 := Xor(c, LoadLE(b0, b1, b2, b3)), Byte(poly, c, b0);
    var c2 := Byte(poly, c1, b1);
    var c3 := Byte(poly, c2, b2);
    Absorb(poly, c, b0, w1);
    Absorb(poly, c1, b1, w2);
    Absorb(poly, c2, b2, w3);
    Absorb(poly, c3, b3, 0);
    XorZero(Byte(poly, c3, b3));
    StepsAdd(poly, c0, 8, 24);
    StepsAdd(poly, Xor(c1, w1), 8, 16);
    StepsAdd(poly, Xor(c2, w2), 8, 8);
  }

  lemma {:induction false} Peel(poly: bv32, q: bv32, n: nat)
    ensures Steps(poly, q, 8 + n) == Xor(Steps(poly, LowByte(q), 8 + n), Steps(poly, DropByte(q), n))
  {
    hide Steps, Step, Xor, LowByte, DropByte;
    Sarwate(poly, q);
    StepsAdd(poly, q, 8, n);
    StepsLinear(poly, Steps(poly, LowByte(q), 8), DropByte(q), n);
    StepsAdd(poly, LowByte(q), 8, n);
  }

  lemma DropAll(q: bv32)
    ensures DropByte(DropByte(DropByte(DropByte(q)))) == 0
  {
  }

  ghost predicate TablesDone(tab: array2<bv32>, poly: bv32)
    reads tab
  {
    tab.Length0 == 8 && tab.Length1 == 256 && forall row: nat | row < 8 :: RowDone(tab, poly, row, 256)
  }

  /** DO_CRC8 and DO_CRC4: four lookups, in rows r down to r-3. */
  function Slice(tab: array2<bv32>, r: nat, q: bv32): bv32
    requires tab.Length0 == 8 && tab.Length1 == 256 && 3 <= r < 8
    reads tab
  {
    var q1 := DropByte(q);
    var q2 := DropByte(q1);
    var q3 := DropByte(q2);
    LowByteSmall(q); LowByteSmall(q1); LowByteSmall(q2); LowByteSmall(q3);
    Xor(Xor(Xor(tab[r, LowByte(q) as int], tab[r - 1, LowByte(q1) as int]),
            tab[r - 2, LowByte(q2) as int]), tab[r - 3, LowByte(q3) as int])
  }

  /** The four lookups are 8(r+1) steps of the register. */
  lemma {:induction false} SliceIsSteps(tab: array2<bv32>, poly: bv32, r: nat, q: bv32)
    requires TablesDone(tab, poly) && 3 <= r < 8
    ensures Slice(tab, r, q) == Steps(poly, q, 8 * (r + 1))
  {
    hide Steps, Step, Xor, LowByte, DropByte;
    var q1 := DropByte(q);
    var q2 := DropByte(q1);
    var q3 := DropByte(q2);
    DropAll(q);
    var t0, t1 := Steps(poly, LowByte(q), 8 * (r + 1)), Steps(poly, LowByte(q1), 8 * r);
    var t2, t3 := Steps(poly, LowByte(q2), 8 * (r - 1)), Steps(poly, LowByte(q3), 8 * (r - 2));
    TableLookup(tab, poly, r, q);
    TableLookup(tab, poly, r - 1, q1);
    TableLookup(tab, poly, r - 2, q2);
    TableLookup(tab, poly, r - 3, q3);
    Peel(poly, q, 8 * r);
    Peel(poly, q1, 8 * (r - 1));
    Peel(poly, q2, 8 * (r - 2));
    Peel(poly, q3, 8 * (r - 3));
    StepsOfZero(poly, 8 * (r - 3));
    XorZero(t3);
    XorAssoc(t0, t1, Xor(t2, t3));
    XorAssoc(Xor(t0, t1), t2, t3);
  }

  /** Eight bytes at once, as the main loop does them. */
  lemma {:induction false} EightBytes(poly: bv32, c: bv32, w0: bv32, w1: bv32)
    ensures Steps(poly, Xor(Steps(poly, Xor(c, w0), 32), w1), 32) ==
            Xor(Steps(poly, Xor(c, w0), 64), Steps(poly, w1, 32))
  {
    hide Steps, Step, Xor;
    StepsLinear(poly, Steps(poly, Xor(c, w0), 32), w1, 32);
    StepsAdd(poly, Xor(c, w0), 32, 32);
  }

  lemma {:induction false} CrcMore(poly: bv32, seed: bv32, buf: seq<bv8>, p: nat)
    requires p < |buf|
    ensures Crc(poly, seed, buf[..p + 1]) == Byte(poly, Crc(poly, seed, buf[..p]), buf[p])
  {
    hide Byte;
    assert buf[..p + 1][..p] == buf[..p];
  }

  lemma {:induction false} CrcFour(poly: bv32, seed: bv32, buf: seq<bv8>, p: nat)
    requires p + 4 <= |buf|
    ensures Crc(poly, seed, buf[..p + 4]) ==
            Steps(poly, Xor(Crc(poly, seed, buf[..p]), LoadLE(buf[p], buf[p + 1], buf[p + 2], buf[p + 3])), 32)
  {
    hide Byte, Crc, Steps, LoadLE, Xor;
    CrcMore(poly, seed, buf, p);
    CrcMore(poly, seed, buf, p + 1);
    CrcMore(poly, seed, buf, p + 2);
    CrcMore(poly, seed, buf, p + 3);
    FourBytes(poly, Crc(poly, seed, buf[..p]), buf[p], buf[p + 1], buf[p + 2], buf[p + 3]);
  }

  lemma DropKeepsHigh(c: bv32, b: bv8)
    ensures DropByte(Xor(c, Widen(b))) == DropByte(c)
  {
  }

  /** DO_CRC: one byte through table 0. */
  method OneByte(crc: bv32, b: bv8, tab: array2<bv32>, ghost poly: bv32) returns (r: bv32)
    requires TablesDone(tab, poly)
    ensures r == Byte(poly, crc, b)
  {
    hide Steps, Xor, LowByte, DropByte, Widen;
    var x := Xor(crc, Widen(b));
    TableLookup(tab, poly, 0, x);
    Sarwate(poly, x);
    DropKeepsHigh(crc, b);
    r := Xor(tab[0, LowByte(x) as int], DropByte(crc));
  }

  /** For every buffer, every address it may start at and every seed, slicing-by-8
      computes the bit-at-a-time CRC. */
  method RunBody(crc: bv32, buf: seq<bv8>, addr: nat, tab: array2<bv32>, ghost poly: bv32) returns (r: bv32)
    requires TablesDone(tab, poly)
    ensures r == Crc(poly, crc, buf)
  {
    hide Steps, Xor, Crc, Byte, LoadLE, Slice, TablesDone;
    r := crc;
    var p, len := 0, |buf|;
    CrcNone(poly, crc, buf);
    while len != 0 && (addr + p) % 4 != 0
      invariant 0 <= p && 0 <= len && p + len == |buf| && r == Crc(poly, crc, buf[..p])
    {
      CrcMore(poly, crc, buf, p);
      r := OneByte(r, buf[p], tab, poly);
      p, len := p + 1, len - 1;
    }
    var rem := len % 8;
    len := len / 8;
    assert TablesShape(tab) by { assert TablesDone(tab, poly); TablesHaveShape(tab, poly); }
    while len != 0
      invariant 0 <= p && 0 <= len && p + 8 * len + rem == |buf| && r == Crc(poly, crc, buf[..p])
    {
      var w0 := LoadLE(buf[p], buf[p + 1], buf[p + 2], buf[p + 3]);
      var w1 := LoadLE(buf[p + 4], buf[p + 5], buf[p + 6], buf[p + 7]);
      CrcFour(poly, crc, buf, p);
      CrcFour(poly, crc, buf, p + 4);
      EightBytes(poly, r, w0, w1);
      SliceIsSteps(tab, poly, 7, Xor(r, w0));
      SliceIsSteps(tab, poly, 3, w1);
      r := Slice(tab, 7, Xor(r, w0));
      r := Xor(r, Slice(tab, 3, w1));
      p, len := p + 8, len - 1;
    }
    while rem != 0
      invariant 0 <= p && 0 <= rem && p + rem == |buf| && r == Crc(poly, crc, buf[..p])
    {
      CrcMore(poly, crc, buf, p);
      r := OneByte(r, buf[p], tab, poly);
      p, rem := p + 1, rem - 1;
    }
    assert buf[..p] == buf;
  }

  predicate TablesShape(tab: array2<bv32>) {
    tab.Length0 == 8 && tab.Length1 == 256
  }

  lemma TablesHaveShape(tab: array2<bv32>, poly: bv32)
    requires TablesDone(tab, poly)
    ensures TablesShape(tab)
  {
  }

  lemma {:induction false} CrcNone(poly: bv32, seed: bv32, buf: seq<bv8>)
    ensures Crc(poly, seed, buf[..0]) == seed
  {
  }

  /** crc32_le_generic() built for single bits. */
  method RunBits(crc: bv32, buf: seq<bv8>, poly: bv32) returns (r: bv32)
    ensures r == Crc(poly, crc, buf)
  {
    hide Steps, Step, Xor, Widen;
    r := crc;
    var p := 0;
    CrcNone(poly, crc, buf);
    while p < |buf|
      invariant 0 <= p <= |buf| && r == Crc(poly, crc, buf[..p])
    {
      CrcMore(poly, crc, buf, p);
      var x := Xor(r, Widen(buf[p]));
      r := x;
      var i := 0;
      StepsNone(poly, x);
      while i < 8
        invariant 0 <= i <= 8 && r == Steps(poly, x, i)
      {
        StepsMore(poly, x, i);
        r := Step(poly, r);
        i := i + 1;
      }
      p := p + 1;
    }
    assert buf[..p] == buf;
  }

  /** crc32_le_generic() built for slicing-by-8, tables included. */
  method RunSlicing(crc: bv32, buf: seq<bv8>, addr: nat, poly: bv32) returns (r: bv32)
    ensures r == Crc(poly, crc, buf)
  {
    hide Steps, Xor, Crc, RowDone;
    var tab := InitTables(poly);
    r := RunBody(crc, buf, addr, tab, poly);
  }
}
