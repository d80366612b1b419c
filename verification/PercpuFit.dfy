/** mm/percpu.c: where in a chunk an area may be had, read off the block hints alone. */
module PercpuFit {
  import opened Numbers
  import opened Alignment
  import opened PercpuBits
  import opened PercpuBlock
  import opened PercpuChunk

  /** The largest alignment, a page, in units: 2^10. */
  const MAX_ORDER: nat := 10

  // ---------- alignment within a block

  lemma {:induction false} AlignedAdd(x: nat, y: nat, order: nat)
    requires Aligned(x, order)
    ensures Aligned(x + y, order) <==> Aligned(y, order)
  {
    if order > 0 {
      AlignedAdd(x / 2, y / 2, order - 1);
      assert y % 2 == 0 ==> (x + y) / 2 == x / 2 + y / 2;
    }
  }

  lemma {:induction false} AlignedTimes(i: nat, k: nat, order: nat)
    requires order <= k
    ensures Aligned(i * Pow2(k), order)
  {
    if order > 0 {
      AlignedTimes(i, k - 1, order - 1);
      assert i * Pow2(k) == 2 * (i * Pow2(k - 1));
    }
  }

  lemma {:induction false} AlignUpNone(x: nat)
    ensures AlignUp(x, 0) == x
  {
  }

  lemma BlockSize()
    ensures Pow2(MAX_ORDER) == BLOCK_BITS
  {
    assert Pow2(5) == 32;
    PowAdd(5, 5);
  }

  /** A block starts aligned, so alignment in the block is alignment in the map. */
  lemma AlignedInBlock(i: nat, x: nat, order: nat)
    requires order <= MAX_ORDER
    ensures Aligned(i * BLOCK_BITS + x, order) <==> Aligned(x, order)
  {
    hide Aligned, Pow2;
    BlockSize();
    AlignedTimes(i, MAX_ORDER, order);
    AlignedAdd(i * BLOCK_BITS, x, order);
  }

  lemma AlignUpInBlock(i: nat, x: nat, order: nat)
    requires order <= MAX_ORDER && x <= BLOCK_BITS
    ensures x <= AlignUp(x, order) <= BLOCK_BITS && Aligned(i * BLOCK_BITS + AlignUp(x, order), order)
  {
    hide Aligned, AlignUp;
    AlignUpLeast(x, order);
    AlignedInBlock(i, AlignUp(x, order), order);
    AlignedInBlock(1, 0, order);
    AlignedZero(order);
  }

  // ---------- runs of the map, block by block

  lemma HintBounds(m: seq<bool>, mds: seq<Md>, i: nat)
    requires BlocksExact(m, mds) && i < |mds|
    ensures 0 <= mds[i].contig <= BLOCK_BITS && 0 <= mds[i].start && 0 <= mds[i].first <= BLOCK_BITS
    ensures 0 <= mds[i].left <= BLOCK_BITS && 0 <= mds[i].right <= BLOCK_BITS
    ensures mds[i].contig > 0 ==> mds[i].first <= mds[i].start && mds[i].start + mds[i].contig <= BLOCK_BITS
  {
    hide Block;
    assert Exact(Block(m, i), mds[i]);
    if mds[i].contig > 0 { assert !Block(m, i)[mds[i].start]; }
  }

  lemma BlockRun(m: seq<bool>, i: nat, s: nat, e: nat)
    requires (i + 1) * BLOCK_BITS <= |m| && s <= e <= BLOCK_BITS
    ensures FreeRun(Block(m, i), s, e) <==> FreeRun(m, i * BLOCK_BITS + s, i * BLOCK_BITS + e)
  {
    var b := Block(m, i);
    assert forall k | s <= k < e :: b[k] == m[i * BLOCK_BITS + k];
    if FreeRun(b, s, e) {
      forall k | i * BLOCK_BITS + s <= k < i * BLOCK_BITS + e ensures !m[k] {
        assert !b[k - i * BLOCK_BITS];
      }
    }
  }

  /** [at, at + len) is free up to the end of block i - 1 and starts aligned. */
  ghost predicate Tail(m: seq<bool>, at: nat, len: int, order: nat, i: nat) {
    0 <= len && at + len == i * BLOCK_BITS && Aligned(at, order) && FreeRun(m, at, at + len)
  }

  /** There is a fit in [at, at + len), in reach of a search from at. */
  ghost predicate Region(m: seq<bool>, bits: nat, order: nat, at: nat, len: int) {
    at + len <= |m| && exists p: nat :: at <= p <= at + BLOCK_BITS && p + bits <= at + len && Fits(m, |m|, bits, order, p)
  }

  /** The free run before a block goes on for its left edge. */
  lemma TailGoesOn(m: seq<bool>, mds: seq<Md>, at: nat, len: int, bits: nat, order: nat, i: nat)
    requires BlocksExact(m, mds) && i < |mds| && Tail(m, at, len, order, i)
    ensures 0 <= mds[i].left <= BLOCK_BITS
    ensures len + mds[i].left >= bits ==> Region(m, bits, order, at, len + mds[i].left)
    ensures mds[i].left == BLOCK_BITS ==> Tail(m, at, len + mds[i].left, order, i + 1)
  {
    hide Aligned, Block;
    var l := mds[i].left;
    assert Exact(Block(m, i), mds[i]);
    BlockRun(m, i, 0, l);
    assert FreeRun(m, at, at + len + l);
    if len + l >= bits {
      assert FreeRun(m, at, at + bits);
      assert Fits(m, |m|, bits, order, at);
    }
  }

  /** The longest run of a block is long enough after its start is aligned. */
  lemma {:induction false} ContigFits(m: seq<bool>, mds: seq<Md>, bits: nat, order: nat, i: nat)
    requires BlocksExact(m, mds) && i < |mds| && order <= MAX_ORDER && bits > 0
    requires mds[i].start >= 0 && mds[i].contig != 0 && mds[i].contig >= AlignUp(mds[i].start, order) - mds[i].start + bits
    ensures 0 <= mds[i].first
    ensures Region(m, bits, order, i * BLOCK_BITS + mds[i].first,
                   AlignUp(mds[i].start, order) - mds[i].start + bits + mds[i].start - mds[i].first)
  {
    hide Aligned, Block, AlignUp;
    var md := mds[i];
    assert Exact(Block(m, i), md);
    var p := AlignUp(md.start, order);
    AlignUpInBlock(i, md.start, order);
    assert !Block(m, i)[md.start];
    BlockRun(m, i, p, p + bits);
    assert Fits(m, |m|, bits, order, i * BLOCK_BITS + p);
  }

  /** The right edge of a block, its start aligned. */
  lemma RightTail(m: seq<bool>, mds: seq<Md>, order: nat, i: nat)
    requires BlocksExact(m, mds) && i < |mds| && order <= MAX_ORDER
    ensures 0 <= mds[i].right <= BLOCK_BITS
    ensures var x := AlignUp(BLOCK_BITS - mds[i].right, order);
            BLOCK_BITS - mds[i].right <= x <= BLOCK_BITS && Tail(m, i * BLOCK_BITS + x, BLOCK_BITS - x, order, i + 1)
  {
    hide Aligned, Block, AlignUp;
    assert Exact(Block(m, i), mds[i]);
    var x := AlignUp(BLOCK_BITS - mds[i].right, order);
    AlignUpInBlock(i, BLOCK_BITS - mds[i].right, order);
    BlockRun(m, i, x, BLOCK_BITS);
  }

  lemma TailFits(m: seq<bool>, at: nat, len: int, bits: nat, order: nat, i: nat)
    requires Tail(m, at, len, order, i) && len >= bits
    ensures Region(m, bits, order, at, len)
  {
    assert Fits(m, |m|, bits, order, at);
  }

  // ---------- what the hints promise

  /** What is left of the right edge of a block after its start is aligned. */
  function TailLen(md: Md, order: nat): int {
    if 0 <= md.right <= BLOCK_BITS then BLOCK_BITS - AlignUp(BLOCK_BITS - md.right, order) else 0
  }

  /** The longest run of a block, if it is not before off, is long enough after its start is aligned. */
  predicate ContigReaches(md: Md, bits: nat, order: nat, off: nat) {
    md.start >= off && md.contig != 0 && md.contig >= AlignUp(md.start, order) - md.start + bits
  }

  /** The aligned right edge of block j, the whole blocks between, and the left edge of block k are long enough. */
  predicate TailReaches(mds: seq<Md>, bits: nat, order: nat, j: nat, k: nat)
    requires j <= k < |mds|
  {
    && TailLen(mds[j], order) > 0 && (forall t | j < t < k :: mds[t].left == BLOCK_BITS)
    && TailLen(mds[j], order) + (if k == j then 0 else (k - j - 1) * BLOCK_BITS + mds[k].left) >= bits
  }

  function OffIn(from: nat, j: nat): nat {
    if j == from / BLOCK_BITS then from % BLOCK_BITS else 0
  }

  predicate Reaches(mds: seq<Md>, bits: nat, order: nat, from: nat, j: nat, k: nat) {
    && from / BLOCK_BITS <= j <= k < |mds|
    && ((j == k && ContigReaches(mds[j], bits, order, OffIn(from, j))) || TailReaches(mds, bits, order, j, k))
  }

  /** The hints of the blocks from that of from on show a place for the request. */
  ghost predicate HintFit(mds: seq<Md>, bits: nat, order: nat, from: nat) {
    exists j: nat, k: nat :: Reaches(mds, bits, order, from, j, k)
  }

  // ---------- unaligned requests: nothing is passed over

  /** No free run is long enough. */
  ghost predicate NoRun(m: seq<bool>, bits: nat) {
    forall s, e :: FreeRun(m, s, e) ==> e - s < bits
  }

  lemma RunsAfter(m: seq<bool>, from: nat, s: int, e: int)
    requires FirstOk(m, from) && FreeRun(m, s, e) && s < e
    ensures from <= s
  {
    assert !m[s];
  }

  /** A run that ends in block i: within it, or over its left edge. */
  lemma RunInto(m: seq<bool>, mds: seq<Md>, i: nat, s: int, e: int)
    requires BlocksExact(m, mds) && i < |mds| && FreeRun(m, s, e) && s < e && i * BLOCK_BITS < e <= (i + 1) * BLOCK_BITS
    ensures s >= i * BLOCK_BITS ==> e - s <= mds[i].contig
    ensures s <= i * BLOCK_BITS ==> e - i * BLOCK_BITS <= mds[i].left && FreeRun(m, s, i * BLOCK_BITS)
    ensures s >= i * BLOCK_BITS && e == (i + 1) * BLOCK_BITS ==> e - s <= mds[i].right
  {
    hide Block;
    var b := Block(m, i);
    assert Exact(b, mds[i]);
    var base := i * BLOCK_BITS;
    if s >= base {
      BlockRun(m, i, s - base, e - base);
      if e - base == BLOCK_BITS && mds[i].right < BLOCK_BITS {
        RunSkips(b, s - base, e - base, BLOCK_BITS - mds[i].right - 1);
      }
    }
    if s <= base {
      BlockRun(m, i, 0, e - base);
      if mds[i].left < BLOCK_BITS { RunSkips(b, 0, e - base, mds[i].left); }
    }
  }

  lemma MapSize(m: seq<bool>, mds: seq<Md>)
    requires BlocksExact(m, mds)
    ensures |m| == |mds| * BLOCK_BITS
  {
  }

  /** In the block a search starts in, the longest run is not before the search. */
  lemma StartsAfter(m: seq<bool>, mds: seq<Md>, from: nat)
    requires BlocksExact(m, mds) && from / BLOCK_BITS < |mds| && FirstOk(m, from)
    ensures mds[from / BLOCK_BITS].contig > 0 ==> mds[from / BLOCK_BITS].start >= from % BLOCK_BITS
  {
    hide Block;
    var i := from / BLOCK_BITS;
    var md := mds[i];
    assert Exact(Block(m, i), md);
    if md.contig > 0 {
      BlockRun(m, i, md.start, md.start + 1);
      assert !m[i * BLOCK_BITS + md.start];
    }
  }

  lemma LeftWhole(m: seq<bool>, mds: seq<Md>, i: nat, s: int, e: int)
    requires BlocksExact(m, mds) && i < |mds| && FreeRun(m, s, e) && s <= i * BLOCK_BITS && (i + 1) * BLOCK_BITS <= e
    ensures mds[i].left == BLOCK_BITS
  {
    HintBounds(m, mds, i);
    hide BlocksExact;
    assert FreeRun(m, s, (i + 1) * BLOCK_BITS);
    RunInto(m, mds, i, s, (i + 1) * BLOCK_BITS);
  }

  /** A free run over several blocks shows in their edges. */
  lemma RunAcross(m: seq<bool>, mds: seq<Md>, s: int, e: int, j: nat, k: nat)
    requires BlocksExact(m, mds) && FreeRun(m, s, e) && j < k < |mds|
    requires j * BLOCK_BITS <= s < (j + 1) * BLOCK_BITS && k * BLOCK_BITS < e <= (k + 1) * BLOCK_BITS
    ensures TailReaches(mds, e - s, 0, j, k)
  {
    hide BlocksExact;
    assert FreeRun(m, s, (j + 1) * BLOCK_BITS);
    RunInto(m, mds, j, s, (j + 1) * BLOCK_BITS);
    RunInto(m, mds, k, s, e);
    HintBounds(m, mds, j);
    AlignUpNone(BLOCK_BITS - mds[j].right);
    forall t | j < t < k ensures mds[t].left == BLOCK_BITS {
      LeftWhole(m, mds, t, s, e);
    }
  }

  /** From the first free unit on, a run long enough for an unaligned request shows in the hints of its blocks. */
  lemma UnalignedShows(m: seq<bool>, mds: seq<Md>, bits: nat, from: nat, s: int, e: int)
    requires BlocksExact(m, mds) && bits > 0 && FirstOk(m, from) && FreeRun(m, s, e) && e - s >= bits
    ensures Reaches(mds, bits, 0, from, s / BLOCK_BITS, (e - 1) / BLOCK_BITS)
  {
    RunsAfter(m, from, s, e);
    MapSize(m, mds);
    var j, k := s / BLOCK_BITS, (e - 1) / BLOCK_BITS;
    if j == k {
      RunInto(m, mds, j, s, e);
      HintBounds(m, mds, j);
      AlignUpNone(mds[j].start);
      if j == from / BLOCK_BITS { StartsAfter(m, mds, from); }
    } else {
      RunAcross(m, mds, s, e, j, k);
    }
  }

  // ---------- the search

  /** The blocks before i show no place, and what reaches from them to block i is at most len long. */
  ghost predicate NoneBefore(mds: seq<Md>, bits: nat, order: nat, from: nat, len: int, i: nat) {
    && (forall j: nat, k: nat | k < i :: !Reaches(mds, bits, order, from, j, k))
    && (forall j: nat | from / BLOCK_BITS <= j < i <= |mds| && Unbroken(mds, order, j, i) ::
          len >= TailLen(mds[j], order) + (i - j - 1) * BLOCK_BITS)
  }

  /** The aligned right edge of block j goes on up to block i. */
  predicate Unbroken(mds: seq<Md>, order: nat, j: nat, i: nat)
    requires j < i <= |mds|
  {
    TailLen(mds[j], order) > 0 && forall t | j < t < i :: mds[t].left == BLOCK_BITS
  }

  lemma TailReachesIs(mds: seq<Md>, bits: nat, order: nat, j: nat, k: nat)
    requires j < k < |mds|
    ensures TailReaches(mds, bits, order, j, k) <==>
            Unbroken(mds, order, j, k) && TailLen(mds[j], order) + (k - j - 1) * BLOCK_BITS + mds[k].left >= bits
  {
    hide TailLen;
  }

  lemma NoneBeforeNext(mds: seq<Md>, bits: nat, order: nat, from: nat, len: int, i: nat, len': int)
    requires NoneBefore(mds, bits, order, from, len, i) && from / BLOCK_BITS <= i < |mds| && len >= 0
    requires !ContigReaches(mds[i], bits, order, OffIn(from, i)) && TailLen(mds[i], order) < bits && mds[i].left <= BLOCK_BITS
    requires len > 0 ==> len + mds[i].left < bits
    requires TailLen(mds[i], order) <= len' && (len > 0 && mds[i].left == BLOCK_BITS ==> len' == len + BLOCK_BITS)
    ensures NoneBefore(mds, bits, order, from, len', i + 1)
  {
    hide TailLen, ContigReaches;
    forall j: nat, k: nat | k < i + 1 ensures !Reaches(mds, bits, order, from, j, k) {
      if k == i && from / BLOCK_BITS <= j < i { TailReachesIs(mds, bits, order, j, k); }
    }
    forall j: nat | from / BLOCK_BITS <= j < i + 1 <= |mds| && Unbroken(mds, order, j, i + 1)
      ensures len' >= TailLen(mds[j], order) + (i - j) * BLOCK_BITS
    {
      if j < i {
        assert mds[i].left == BLOCK_BITS && Unbroken(mds, order, j, i);
      }
    }
  }

  /** Blocks j to k show a place, and no blocks that end before k do. */
  ghost predicate FirstReach(mds: seq<Md>, bits: nat, order: nat, from: nat, j: nat, k: nat) {
    Reaches(mds, bits, order, from, j, k) && forall j': nat, k': nat | k' < k :: !Reaches(mds, bits, order, from, j', k')
  }

  /** pcpu_next_fit_region(): a region with a fit in it, or the size of the map, exactly as the hints show. An
      unaligned request from the first free unit on is met whenever the map can meet it. */
  method NextFitRegion(ghost m: seq<bool>, mds: seq<Md>, bits: nat, order: nat, from: nat)
    returns (bitOff: nat, len: int, ghost j: nat, ghost k: nat)
    requires BlocksExact(m, mds) && bits > 0 && order <= MAX_ORDER
    ensures bitOff == |m| || Region(m, bits, order, bitOff, len)
    ensures bitOff <= |m| && (bitOff == |m| <==> !HintFit(mds, bits, order, from))
    ensures bitOff < |m| ==> FirstReach(mds, bits, order, from, j, k) && Spans(bitOff, len, j, k)
    ensures order == 0 && FirstOk(m, from) && bitOff == |m| ==> NoRun(m, bits)
  {
    hide BlocksExact, Tail, FirstOk, AlignUp, Aligned, NoneBefore, TailReaches, ContigReaches, TailLen, Unbroken, FirstReach, Spans;
    hide Reaches, HintFit;
    var i, blockOff := from / BLOCK_BITS, from % BLOCK_BITS;
    bitOff, len, j, k := from, 0, from / BLOCK_BITS, 0;
    NoneBeforeFirst(mds, bits, order, from);
    while i < |mds|
      invariant from / BLOCK_BITS <= i && len >= 0 && (i == from / BLOCK_BITS ==> len == 0)
      invariant len > 0 ==> Tail(m, bitOff, len, order, i) && bitOff + len == i * BLOCK_BITS
      invariant len > 0 ==> from / BLOCK_BITS <= j < i <= |mds| && Unbroken(mds, order, j, i) && len < bits
      invariant len > 0 ==> j * BLOCK_BITS <= bitOff < (j + 1) * BLOCK_BITS
      invariant len > 0 ==> len == TailLen(mds[j], order) + (i - j - 1) * BLOCK_BITS
      invariant blockOff == OffIn(from, i) && NoneBefore(mds, bits, order, from, len, i)
      decreases |mds| - i
    {
      HintBounds(m, mds, i);
      RightTail(m, mds, order, i);
      TailIs(mds[i], order);
      k := i;
      ghost var before := len;
      if len != 0 {
        TailGoesOn(m, mds, bitOff, len, bits, order, i);
        len := len + mds[i].left;
        if len >= bits {
          TailShows(mds, bits, order, from, j, i);
          Found(m, mds, bits, order, from, before, bitOff, len, j, i);
          return;
        }
        if mds[i].left == BLOCK_BITS {
          ContigShort(mds[i], bits, order, OffIn(from, i));
          NoneBeforeNext(mds, bits, order, from, before, i, len);
          UnbrokenOn(mds, order, j, i);
          TailEnds(m, bitOff, len, order, i + 1);
          i := i + 1;
          blockOff := 0;
          continue;
        }
      }
      len := AlignUp(mds[i].start, order) - mds[i].start;
      ContigIs(mds[i], bits, order, blockOff);
      if mds[i].contig != 0 && mds[i].start >= blockOff && mds[i].contig >= len + bits {
        ContigFits(m, mds, bits, order, i);
        len := len + bits + mds[i].start - mds[i].first;
        bitOff := i * BLOCK_BITS + mds[i].first;
        ContigShows(mds, bits, order, from, i);
        Found(m, mds, bits, order, from, before, bitOff, len, i, i);
        j := i;
        return;
      }
      blockOff := 0;
      bitOff := AlignUp(BLOCK_BITS - mds[i].right, order);
      len := BLOCK_BITS - bitOff;
      bitOff := i * BLOCK_BITS + bitOff;
      j := i;
      if len >= bits {
        TailFits(m, bitOff, len, bits, order, i + 1);
        TailHere(mds, bits, order, from, i);
        Found(m, mds, bits, order, from, before, bitOff, len, i, i);
        return;
      }
      NoneBeforeNext(mds, bits, order, from, before, i, len);
      if len > 0 { UnbrokenFrom(mds, order, i); }
      i := i + 1;
    }
    bitOff := |mds| * BLOCK_BITS;
    MapSize(m, mds);
    NoneAtAll(mds, bits, order, from, len, i);
    if order == 0 && FirstOk(m, from) {
      forall s, e | FreeRun(m, s, e) ensures e - s < bits {
        if e - s >= bits {
          UnalignedShows(m, mds, bits, from, s, e);
          Shows(mds, bits, order, from, s / BLOCK_BITS, (e - 1) / BLOCK_BITS);
        }
      }
    }
  }

  lemma Shows(mds: seq<Md>, bits: nat, order: nat, from: nat, j: nat, k: nat)
    requires Reaches(mds, bits, order, from, j, k)
    ensures HintFit(mds, bits, order, from)
  {
  }

  /** The first and the last block of a region. */
  predicate Spans(at: nat, len: int, j: nat, k: nat) {
    at / BLOCK_BITS == j && (at + len - 1) / BLOCK_BITS == k
  }

  lemma Found(m: seq<bool>, mds: seq<Md>, bits: nat, order: nat, from: nat, before: int, at: nat, len: int, j: nat, k: nat)
    requires Region(m, bits, order, at, len) && bits > 0
    requires Reaches(mds, bits, order, from, j, k) && NoneBefore(mds, bits, order, from, before, k)
    requires j * BLOCK_BITS <= at < (j + 1) * BLOCK_BITS && k * BLOCK_BITS < at + len <= (k + 1) * BLOCK_BITS
    ensures Spans(at, len, j, k) && at < |m| && FirstReach(mds, bits, order, from, j, k) && HintFit(mds, bits, order, from)
  {
    hide Reaches;
  }

  lemma TailEnds(m: seq<bool>, at: nat, len: int, order: nat, i: nat)
    requires Tail(m, at, len, order, i)
    ensures at + len == i * BLOCK_BITS
  {
  }

  lemma ContigShows(mds: seq<Md>, bits: nat, order: nat, from: nat, i: nat)
    requires from / BLOCK_BITS <= i < |mds| && ContigReaches(mds[i], bits, order, OffIn(from, i))
    ensures Reaches(mds, bits, order, from, i, i)
  {
  }

  lemma NoneBeforeFirst(mds: seq<Md>, bits: nat, order: nat, from: nat)
    ensures NoneBefore(mds, bits, order, from, 0, from / BLOCK_BITS)
  {
  }

  lemma {:induction false} TailIs(md: Md, order: nat)
    requires 0 <= md.right <= BLOCK_BITS
    ensures TailLen(md, order) == BLOCK_BITS - AlignUp(BLOCK_BITS - md.right, order)
  {
  }

  lemma {:induction false} ContigIs(md: Md, bits: nat, order: nat, off: nat)
    requires 0 <= md.start
    ensures ContigReaches(md, bits, order, off) <==>
            md.start >= off && md.contig != 0 && md.contig >= AlignUp(md.start, order) - md.start + bits
  {
  }

  /** A whole block and what led up to it are not enough, so the block is not. */
  lemma ContigShort(md: Md, bits: nat, order: nat, off: nat)
    requires md.contig <= BLOCK_BITS < bits
    ensures !ContigReaches(md, bits, order, off)
  {
    hide AlignUp;
    if md.start >= off { AlignUpLeast(md.start, order); }
  }

  lemma TailShows(mds: seq<Md>, bits: nat, order: nat, from: nat, o: nat, i: nat)
    requires from / BLOCK_BITS <= o < i < |mds| && Unbroken(mds, order, o, i)
    requires TailLen(mds[o], order) + (i - o - 1) * BLOCK_BITS + mds[i].left >= bits
    ensures Reaches(mds, bits, order, from, o, i)
  {
  }

  lemma TailHere(mds: seq<Md>, bits: nat, order: nat, from: nat, i: nat)
    requires from / BLOCK_BITS <= i < |mds| && TailLen(mds[i], order) >= bits > 0
    ensures Reaches(mds, bits, order, from, i, i)
  {
  }

  lemma UnbrokenOn(mds: seq<Md>, order: nat, o: nat, i: nat)
    requires o < i < |mds| && Unbroken(mds, order, o, i) && mds[i].left == BLOCK_BITS
    ensures Unbroken(mds, order, o, i + 1)
  {
  }

  lemma UnbrokenFrom(mds: seq<Md>, order: nat, i: nat)
    requires i < |mds| && TailLen(mds[i], order) > 0
    ensures Unbroken(mds, order, i, i + 1)
  {
  }

  lemma NoneAtAll(mds: seq<Md>, bits: nat, order: nat, from: nat, len: int, i: nat)
    requires NoneBefore(mds, bits, order, from, len, i) && i >= |mds|
    ensures !HintFit(mds, bits, order, from)
  {
  }

  // ---------- an aligned request that is passed over

  /** Free are unit 0 and units 2 and 3. */
  function Narrow(): seq<bool> {
    seq(BLOCK_BITS, k => k != 0 && k != 2 && k != 3)
  }

  const NarrowHints := [Md(2, 2, 1, 0, 0)]

  /** One unit aligned to four fits at 0. The longest run starts at 2 and does not hold one, and nothing else is
      looked at. */
  lemma {:induction false} PassedOverHappens()
    ensures BlocksExact(Narrow(), NarrowHints) && FirstOk(Narrow(), 0) && Fits(Narrow(), |Narrow()|, 1, 2, 0)
    ensures !HintFit(NarrowHints, 1, 2, 0)
  {
    NarrowExact();
    assert Aligned(0, 2) && AlignUp(2, 2) == 4 && AlignUp(BLOCK_BITS, 2) == BLOCK_BITS;
    assert forall j: nat, k: nat :: !Reaches(NarrowHints, 1, 2, 0, j, k);
  }

  lemma NarrowExact()
    ensures BlocksExact(Narrow(), NarrowHints) && FirstOk(Narrow(), 0)
  {
    var b := Narrow();
    assert Block(b, 0) == b;
    forall s, e | FreeRun(b, s, e) ensures e - s <= 2 {
      if e - s > 2 { NarrowRuns(s); }
    }
    assert FreeRun(b, 2, 4) && FreeRun(b, 0, 1) && b[1] && b[BLOCK_BITS - 1];
  }

  lemma NarrowRuns(s: int)
    requires 0 <= s && s + 3 <= BLOCK_BITS
    ensures Narrow()[s] || Narrow()[s + 1] || Narrow()[s + 2]
  {
  }

  /** Every page that [s, e) touches is populated. */
  ghost predicate Populated(populated: seq<bool>, s: nat, e: nat) {
    forall k | s / BLOCK_BITS <= k < (e + BLOCK_BITS - 1) / BLOCK_BITS :: k < |populated| && populated[k]
  }

  /** pcpu_is_populated(): if not, the end of the first pages that are missing. */
  method IsPopulated(populated: seq<bool>, bitOff: nat, len: nat) returns (ok: bool, nextOff: nat)
    requires bitOff + len <= |populated| * BLOCK_BITS && len > 0
    ensures ok <==> Populated(populated, bitOff, bitOff + len)
    ensures !ok ==> nextOff % BLOCK_BITS == 0
    ensures !ok ==> var next := nextOff / BLOCK_BITS;
                    bitOff / BLOCK_BITS < next <= (bitOff + len - 1) / BLOCK_BITS + 1 && !populated[next - 1]
  {
    var pageStart, pageEnd := bitOff / BLOCK_BITS, (bitOff + len + BLOCK_BITS - 1) / BLOCK_BITS;
    var rs := NextZero(populated[..pageEnd], pageStart);
    if rs >= pageEnd {
      return true, 0;
    }
    assert !populated[rs];
    var re := NextOne(populated[..pageEnd], rs + 1);
    assert !populated[..pageEnd][re - 1];
    return false, re * BLOCK_BITS;
  }

  lemma PopulatedInside(populated: seq<bool>, s: nat, e: nat, s': nat, e': nat)
    requires Populated(populated, s, e) && s <= s' && e' <= e
    ensures Populated(populated, s', e')
  {
    assert s / BLOCK_BITS <= s' / BLOCK_BITS && (e' + BLOCK_BITS - 1) / BLOCK_BITS <= (e + BLOCK_BITS - 1) / BLOCK_BITS;
  }

  /** A region with a fit, its pages populated where that is asked for. */
  ghost predicate Usable(m: seq<bool>, bits: nat, order: nat, populated: seq<bool>, popOnly: bool, at: nat, len: int) {
    Region(m, bits, order, at, len) && (popOnly ==> Populated(populated, at, at + len))
  }

  /** The summary of the chunk's longest run has room for the request. */
  predicate SummaryFits(bits: nat, order: nat, contig: int, contigStart: nat) {
    AlignUp(contigStart, order) - contigStart + bits <= contig
  }

  /** Blocks j to k show a place, their pages populated where that is asked for. */
  ghost predicate PlaceAt(mds: seq<Md>, bits: nat, order: nat, from: nat, populated: seq<bool>, popOnly: bool, j: nat, k: nat) {
    Reaches(mds, bits, order, from, j, k) && (popOnly ==> forall t | j <= t <= k :: t < |populated| && populated[t])
  }

  ghost predicate PlaceShown(mds: seq<Md>, bits: nat, order: nat, from: nat, populated: seq<bool>, popOnly: bool) {
    exists j: nat, k: nat :: PlaceAt(mds, bits, order, from, populated, popOnly, j, k)
  }

  /** No free run is long enough, its pages populated where that is asked for. */
  ghost predicate NoUsableRun(m: seq<bool>, bits: nat, populated: seq<bool>, popOnly: bool) {
    forall s: nat, e: nat | FreeRun(m, s, e) && (popOnly ==> Populated(populated, s, e)) :: e - s < bits
  }

  /** The places from first on, if any, are among those from next on. */
  ghost predicate OnlyFrom(mds: seq<Md>, bits: nat, order: nat, first: nat, next: nat, populated: seq<bool>, popOnly: bool) {
    forall j: nat, k: nat | PlaceAt(mds, bits, order, first, populated, popOnly, j, k) :: Reaches(mds, bits, order, next, j, k)
  }

  /** A place with missing pages: whatever place is left lies behind them. */
  lemma GoesOnBehind(mds: seq<Md>, bits: nat, order: nat, first: nat, from: nat, populated: seq<bool>, next: nat, j: nat, k: nat)
    requires OnlyFrom(mds, bits, order, first, from, populated, true) && FirstReach(mds, bits, order, from, j, k)
    requires next % BLOCK_BITS == 0 && next / BLOCK_BITS <= k + 1 && j < next / BLOCK_BITS
    requires next / BLOCK_BITS <= |populated| && !populated[next / BLOCK_BITS - 1]
    ensures OnlyFrom(mds, bits, order, first, next, populated, true)
  {
    hide TailReaches, ContigReaches;
    var gone := next / BLOCK_BITS - 1;
    forall j': nat, k': nat | PlaceAt(mds, bits, order, first, populated, true, j', k') ensures Reaches(mds, bits, order, next, j', k') {
      assert Reaches(mds, bits, order, from, j', k') && k' >= k;
      assert gone <= k && !(j' <= gone <= k');
      EarlierIsEnough(mds, bits, order, from, next, j', k');
    }
  }

  lemma EarlierIsEnough(mds: seq<Md>, bits: nat, order: nat, from: nat, next: nat, j: nat, k: nat)
    requires Reaches(mds, bits, order, from, j, k) && next % BLOCK_BITS == 0 && next / BLOCK_BITS <= j
    ensures Reaches(mds, bits, order, next, j, k)
  {
    hide TailReaches, AlignUp;
  }

  /** A place found behind where the search started is one for that search too. */
  lemma LaterIsToo(mds: seq<Md>, bits: nat, order: nat, first: nat, from: nat, j: nat, k: nat)
    requires Reaches(mds, bits, order, from, j, k)
    requires from == first || first / BLOCK_BITS < from / BLOCK_BITS
    ensures Reaches(mds, bits, order, first, j, k)
  {
    hide TailReaches, AlignUp;
  }

  /** pcpu_find_block_fit(): where to search, exactly when the hints show a place. contig and contigStart are the
      chunk's summary of its longest run, which may turn the request away. */
  method FindBlockFit(chunk: Chunk, bits: nat, order: nat, contig: int, contigStart: nat, populated: seq<bool>,
                      popOnly: bool) returns (off: int, ghost len: int)
    requires chunk.Valid() && bits > 0 && order <= MAX_ORDER && |populated| == chunk.blocks.Length
    ensures off == -1 || (off >= 0 && Usable(chunk.alloc, bits, order, populated, popOnly, off, len))
    ensures off == -1 <==> !SummaryFits(bits, order, contig, contigStart) ||
                           !PlaceShown(chunk.blocks[..], bits, order, chunk.firstBit, populated, popOnly)
    ensures order == 0 && off == -1 ==> contig < bits || NoUsableRun(chunk.alloc, bits, populated, popOnly)
  {
    hide BlocksExact, LiveOk, Region, Populated, CountFree, HintFit, NoRun, NoUsableRun, PlaceShown, PlaceAt, FirstReach, OnlyFrom, FirstOk;
    AlignUpNone(contigStart);
    len := 0;
    if AlignUp(contigStart, order) - contigStart + bits > contig {
      return -1, 0;
    }
    ghost var m, mds, first := chunk.alloc, chunk.blocks[..], chunk.firstBit;
    var size := chunk.blocks.Length * BLOCK_BITS;
    MapSize(m, mds);
    FirstBitIs(m, first);
    AllFromFirst(mds, bits, order, first, populated, popOnly);
    var bitOff, bitLen;
    ghost var j: nat, k: nat, from: nat := 0, 0, first;
    bitOff, bitLen, j, k := NextFitRegion(m, chunk.blocks[..], bits, order, chunk.firstBit);
    while bitOff < size
      invariant bitOff <= size && (bitOff == size <==> !HintFit(mds, bits, order, from))
      invariant from == first || (popOnly && first / BLOCK_BITS < from / BLOCK_BITS)
      invariant OnlyFrom(mds, bits, order, first, from, populated, popOnly)
      invariant bitOff < size ==> Region(m, bits, order, bitOff, bitLen) && FirstReach(mds, bits, order, from, j, k)
      invariant bitOff < size ==> Spans(bitOff, bitLen, j, k)
      decreases size - bitOff / BLOCK_BITS
    {
      if !popOnly {
        break;
      }
      RegionLength(m, bits, order, bitOff, bitLen);
      var ok, nextOff := IsPopulated(populated, bitOff, bitLen);
      if ok {
        break;
      }
      GoesOnBehind(mds, bits, order, first, from, populated, nextOff, j, k);
      ReachStarts(mds, bits, order, from, j, k);
      from := nextOff;
      bitOff, bitLen, j, k := NextFitRegion(m, chunk.blocks[..], bits, order, nextOff);
      if bitOff < size { ReachStarts(mds, bits, order, from, j, k); }
    }
    if bitOff == size {
      NonePlaced(mds, bits, order, first, from, populated, popOnly);
      if order == 0 { NoneUsable(m, mds, bits, first, populated, popOnly); }
      return -1, 0;
    }
    RegionLength(m, bits, order, bitOff, bitLen);
    OnePlaced(mds, bits, order, first, from, populated, popOnly, bitOff, bitLen, j, k);
    return bitOff, bitLen;
  }

  lemma FirstBitIs(m: seq<bool>, first: int)
    requires FirstOk(m, first)
    ensures 0 <= first <= |m|
  {
  }

  lemma AllFromFirst(mds: seq<Md>, bits: nat, order: nat, first: nat, populated: seq<bool>, popOnly: bool)
    ensures OnlyFrom(mds, bits, order, first, first, populated, popOnly)
  {
  }

  lemma ReachStarts(mds: seq<Md>, bits: nat, order: nat, from: nat, j: nat, k: nat)
    requires FirstReach(mds, bits, order, from, j, k)
    ensures from / BLOCK_BITS <= j
  {
  }

  lemma NonePlaced(mds: seq<Md>, bits: nat, order: nat, first: nat, from: nat, populated: seq<bool>, popOnly: bool)
    requires OnlyFrom(mds, bits, order, first, from, populated, popOnly) && !HintFit(mds, bits, order, from)
    ensures !PlaceShown(mds, bits, order, first, populated, popOnly)
  {
    hide Reaches, PlaceAt;
  }

  lemma OnePlaced(mds: seq<Md>, bits: nat, order: nat, first: nat, from: nat, populated: seq<bool>, popOnly: bool,
                  at: nat, len: nat, j: nat, k: nat)
    requires FirstReach(mds, bits, order, from, j, k) && (from == first || first / BLOCK_BITS < from / BLOCK_BITS)
    requires len > 0 && Spans(at, len, j, k) && (popOnly ==> Populated(populated, at, at + len))
    ensures PlaceShown(mds, bits, order, first, populated, popOnly)
  {
    LaterIsToo(mds, bits, order, first, from, j, k);
    hide Reaches;
    assert (at + len + BLOCK_BITS - 1) / BLOCK_BITS == k + 1;
    assert PlaceAt(mds, bits, order, first, populated, popOnly, j, k);
  }

  lemma NoneUsable(m: seq<bool>, mds: seq<Md>, bits: nat, first: nat, populated: seq<bool>, popOnly: bool)
    requires BlocksExact(m, mds) && bits > 0 && FirstOk(m, first) && !PlaceShown(mds, bits, 0, first, populated, popOnly)
    ensures NoUsableRun(m, bits, populated, popOnly)
  {
    hide BlocksExact, FirstOk, Reaches, PlaceShown;
    forall s: nat, e: nat | FreeRun(m, s, e) && (popOnly ==> Populated(populated, s, e)) ensures e - s < bits {
      if e - s >= bits {
        UnalignedShows(m, mds, bits, first, s, e);
        RunPlaced(mds, bits, first, populated, popOnly, s, e);
      }
    }
  }

  lemma RunPlaced(mds: seq<Md>, bits: nat, first: nat, populated: seq<bool>, popOnly: bool, s: nat, e: nat)
    requires s < e && Reaches(mds, bits, 0, first, s / BLOCK_BITS, (e - 1) / BLOCK_BITS) && (popOnly ==> Populated(populated, s, e))
    ensures PlaceShown(mds, bits, 0, first, populated, popOnly)
  {
    hide Reaches;
    assert (e + BLOCK_BITS - 1) / BLOCK_BITS == (e - 1) / BLOCK_BITS + 1;
    assert PlaceAt(mds, bits, 0, first, populated, popOnly, s / BLOCK_BITS, (e - 1) / BLOCK_BITS);
  }

  lemma RegionLength(m: seq<bool>, bits: nat, order: nat, at: nat, len: int)
    requires Region(m, bits, order, at, len) && bits > 0
    ensures 0 < len && at + len <= |m|
  {
  }

  /** pcpu_alloc(), one chunk. Where the hints show a place the search stays in the map and succeeds; the area is
      the first fit from where the search starts, and its pages are populated where that is asked for. */
  method AllocFrom(chunk: Chunk, bits: nat, order: nat, contig: int, contigStart: nat, populated: seq<bool>,
                   popOnly: bool, beyond: seq<bool>) returns (off: int, ghost start: int, ghost len: int)
    requires chunk.Valid() && bits > 0 && order <= MAX_ORDER && |populated| == chunk.blocks.Length
    requires |beyond| >= bits + BLOCK_BITS
    modifies chunk, chunk.blocks
    ensures chunk.Valid()
    ensures off == -1 <==> start == -1
    ensures start == -1 || (start >= 0 && Usable(old(chunk.alloc), bits, order, populated, popOnly, start, len))
    ensures start == -1 <==> !SummaryFits(bits, order, contig, contigStart) ||
                             !PlaceShown(old(chunk.blocks[..]), bits, order, old(chunk.firstBit), populated, popOnly)
    ensures off == -1 && order == 0 ==> contig < bits || NoUsableRun(old(chunk.alloc), bits, populated, popOnly)
    ensures off == -1 ==> chunk.alloc == old(chunk.alloc) && chunk.live == old(chunk.live)
    ensures off != -1 ==> exists p: nat ::
              && off == p * UNIT && p !in old(chunk.live) && Fits(old(chunk.alloc), |old(chunk.alloc)|, bits, order, p)
              && start <= p && (forall q: nat | start <= q < p :: !Fits(old(chunk.alloc), |old(chunk.alloc)|, bits, order, q))
              && chunk.alloc == Fill(old(chunk.alloc), p, p + bits, true) && chunk.live == old(chunk.live)[p := bits]
              && (popOnly ==> Populated(populated, p, p + bits))
  {
    hide Chunk.Valid, Populated, Fill, Aligned, PlaceShown, NoUsableRun, SummaryFits;
    off, len := FindBlockFit(chunk, bits, order, contig, contigStart, populated, popOnly);
    start := off;
    if off < 0 {
      return;
    }
    ghost var m := chunk.alloc;
    ghost var fit: nat :| off <= fit <= off + BLOCK_BITS && fit + bits <= off + len && Fits(m, |m|, bits, order, fit);
    assert FitAhead(m, off, bits, order);
    off := chunk.AllocArea(bits, order, off, beyond);
    ghost var p: nat :|
      off == p * UNIT && start <= p && (forall q: nat | start <= q < p :: !Fits(m, |m|, bits, order, q)) &&
      Fits(m, |m|, bits, order, p) && chunk.live == old(chunk.live)[p := bits];
    assert p <= fit;
    if popOnly {
      PopulatedInside(populated, start, start + len, p, p + bits);
    }
  }
}
