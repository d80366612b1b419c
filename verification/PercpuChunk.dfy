/** A percpu chunk: allocation and boundary maps, block hints, and the two operations on areas. */
module PercpuChunk {
  import opened Alignment
  import opened PercpuBits
  import opened PercpuBlock

  /** PCPU_MIN_ALLOC_SIZE */
  const UNIT: nat := 4

  // ---------- blocks of a map

  function Block(m: seq<bool>, i: nat): (b: seq<bool>)
    requires (i + 1) * BLOCK_BITS <= |m|
    ensures |b| == BLOCK_BITS
  {
    m[i * BLOCK_BITS..(i + 1) * BLOCK_BITS]
  }

  /** The part of [s, e) in block i, as offsets into it. */
  function Low(s: nat, i: nat): nat {
    if s <= i * BLOCK_BITS then 0 else s - i * BLOCK_BITS
  }

  function High(e: nat, i: nat): nat {
    if e >= (i + 1) * BLOCK_BITS then BLOCK_BITS else if e <= i * BLOCK_BITS then 0 else e - i * BLOCK_BITS
  }

  lemma {:induction false} BlockTakes(m: seq<bool>, s: nat, e: nat, i: nat)
    requires s < e <= |m| && FreeRun(m, s, e) && (i + 1) * BLOCK_BITS <= |m|
    ensures Low(s, i) < High(e, i) ==> Takes(Block(m, i), Block(Fill(m, s, e, true), i), Low(s, i), High(e, i))
    ensures Low(s, i) >= High(e, i) ==> Block(m, i) == Block(Fill(m, s, e, true), i)
  {
  }

  lemma {:induction false} BlockFrees(m: seq<bool>, s: nat, e: nat, i: nat)
    requires s < e <= |m| && FullRun(m, s, e) && (i + 1) * BLOCK_BITS <= |m|
    ensures var b := Block(m, i); var b' := Block(Fill(m, s, e, false), i);
            Low(s, i) < High(e, i) ==>
              FullRun(b, Low(s, i), High(e, i)) &&
              forall k | 0 <= k < |b| :: b'[k] == (b[k] && !(Low(s, i) <= k < High(e, i)))
    ensures Low(s, i) >= High(e, i) ==> Block(m, i) == Block(Fill(m, s, e, false), i)
  {
  }

  // ---------- the hints of one block

  /** pcpu_block_update_hint_alloc(), the block the area starts in. */
  method StartBlock(ghost b: seq<bool>, b': seq<bool>, md: Md, off: nat, bits: nat, same: bool, end: nat) returns (md': Md)
    requires Exact(b, md) && bits > 0 && (same ==> end == off + bits) && (!same ==> off + bits > BLOCK_BITS)
    requires Takes(b, b', off, if same then end else BLOCK_BITS)
    ensures Exact(b', md')
  {
    ghost var e := if same then end else BLOCK_BITS;
    md' := md;
    TakeKeepsFirst(b, b', md.first, off, e);
    if off == md'.first {
      md' := md'.(first := NextZero(b', off + bits));
    }
    assert md'.first == FirstAfter(b', md.first, off, e);
    if md'.start <= off < md'.start + md'.contig {
      md' := RefreshHint(b', md');
    } else {
      TakeKeepsExact(b, b', md, off, e);
      md' := md'.(left := Min(md'.left, off), right := if same then Min(md'.right, BLOCK_BITS - end) else 0);
    }
  }

  /** The block a longer area ends in. One that it fills is left for the clearing of the filled blocks. */
  method EndBlock(ghost b: seq<bool>, b': seq<bool>, md: Md, end: nat) returns (md': Md)
    requires Exact(b, md) && Takes(b, b', 0, end)
    ensures Exact(b', if end < BLOCK_BITS then md' else md'.(contig := 0, left := 0, right := 0))
    ensures end == BLOCK_BITS ==> md' == md.(first := BLOCK_BITS)
  {
    md' := md.(first := NextZero(b', end));
    assert !b[0];
    TakeKeepsFirst(b, b', md.first, 0, end);
    if end < BLOCK_BITS {
      if end > md'.start {
        md' := RefreshHint(b', md');
      } else {
        TakeKeepsExact(b, b', md, 0, end);
        md' := md'.(left := 0, right := Min(md'.right, BLOCK_BITS - end));
      }
    } else {
      FullExact(b', md'.start, md'.first);
    }
  }

  // ---------- live areas and the boundary map

  /** Area [s, s + n): its units are set and the boundary map brackets exactly it. */
  ghost predicate AreaOk(alloc: seq<bool>, bound: seq<bool>, s: nat, n: nat) {
    && n > 0 && s + n <= |alloc| && |bound| == |alloc| + 1 && FullRun(alloc, s, s + n)
    && bound[s] && bound[s + n] && forall k | s < k < s + n :: !bound[k]
  }

  ghost predicate Apart(live: map<nat, nat>) {
    forall s, t | s in live && t in live && s < t :: s + live[s] <= t
  }

  ghost predicate LiveOk(alloc: seq<bool>, bound: seq<bool>, live: map<nat, nat>) {
    |bound| == |alloc| + 1 && Apart(live) && forall s | s in live :: AreaOk(alloc, bound, s, live[s])
  }

  /** The boundary map after an allocation. */
  function Bounded(bound: seq<bool>, s: nat, e: nat): seq<bool>
    requires s < e < |bound|
  {
    Fill(bound[s := true], s + 1, e, false)[e := true]
  }

  /** Free units meet no live area. */
  lemma FreeIsApart(alloc: seq<bool>, bound: seq<bool>, live: map<nat, nat>, s: nat, e: nat, t: nat)
    requires LiveOk(alloc, bound, live) && FreeRun(alloc, s, e) && s < e && t in live
    ensures t + live[t] <= s || e <= t
  {
    assert AreaOk(alloc, bound, t, live[t]);
    assert !alloc[s];
    RunSkips(alloc, s, e, t);
  }

  lemma {:induction false} LiveAdd(alloc: seq<bool>, bound: seq<bool>, live: map<nat, nat>, s: nat, e: nat)
    requires LiveOk(alloc, bound, live) && FreeRun(alloc, s, e) && s < e
    ensures s !in live && LiveOk(Fill(alloc, s, e, true), Bounded(bound, s, e), live[s := e - s])
  {
    var live' := live[s := e - s];
    forall t | t in live ensures t + live[t] <= s || e <= t {
      FreeIsApart(alloc, bound, live, s, e, t);
    }
    forall t | t in live' ensures AreaOk(Fill(alloc, s, e, true), Bounded(bound, s, e), t, live'[t]) {
      if t in live {
        assert AreaOk(alloc, bound, t, live[t]);
      }
    }
  }

  lemma {:induction false} LiveDrop(alloc: seq<bool>, bound: seq<bool>, live: map<nat, nat>, s: nat)
    requires LiveOk(alloc, bound, live) && s in live
    ensures s + live[s] <= |alloc| && LiveOk(Fill(alloc, s, s + live[s], false), bound, live - {s})
  {
    assert AreaOk(alloc, bound, s, live[s]);
    var live' := live - {s};
    forall t | t in live' ensures AreaOk(Fill(alloc, s, s + live[s], false), bound, t, live'[t]) {
      assert AreaOk(alloc, bound, t, live[t]);
    }
  }

  /** The next boundary after the start of a live area is its end. */
  lemma {:induction false} BoundEnds(alloc: seq<bool>, bound: seq<bool>, live: map<nat, nat>, s: nat)
    requires LiveOk(alloc, bound, live) && s in live
    ensures NextOne(bound[..|alloc|], s + 1) == s + live[s]
  {
    assert AreaOk(alloc, bound, s, live[s]);
    NextOneIs(bound[..|alloc|], s + 1, s + live[s]);
  }

  lemma {:induction false} NextOneIs(b: seq<bool>, from: nat, k: nat)
    requires from <= k <= |b| && (k < |b| ==> b[k]) && forall j | from <= j < k :: !b[j]
    ensures NextOne(b, from) == k
    decreases k - from
  {
    if from < k {
      NextOneIs(b, from + 1, k);
    }
  }

  // ---------- the chunk

  ghost predicate BlocksExact(m: seq<bool>, mds: seq<Md>) {
    |m| == |mds| * BLOCK_BITS && forall i | 0 <= i < |mds| :: Exact(Block(m, i), mds[i])
  }

  function Zeros(n: nat): (b: seq<bool>)
    ensures |b| == n && forall k | 0 <= k < n :: !b[k]
  {
    if n == 0 then [] else Zeros(n - 1) + [false]
  }

  lemma {:induction false} ZerosFree(n: nat)
    ensures CountFree(Zeros(n)) == n
  {
    if n > 0 {
      assert Zeros(n)[..n - 1] == Zeros(n - 1);
      ZerosFree(n - 1);
    }
  }

  class Chunk {
    var alloc: seq<bool>
    var bound: seq<bool>
    const blocks: array<Md>
    var freeBytes: int
    var firstBit: int
    /** The areas handed out and not freed: start and length in units. */
    ghost var live: map<nat, nat>

    ghost predicate Valid()
      reads this, blocks
    {
      && BlocksExact(alloc, blocks[..]) && LiveOk(alloc, bound, live)
      && FirstOk(alloc, firstBit) && freeBytes == UNIT * CountFree(alloc)
    }

    /** A chunk of n pages, all free: pcpu_init_md_blocks() and the counters of pcpu_alloc_chunk(). */
    constructor (n: nat)
      ensures Valid() && fresh(blocks) && blocks.Length == n && live == map[]
      ensures alloc == Zeros(n * BLOCK_BITS)
    {
      alloc := Zeros(n * BLOCK_BITS);
      bound := Zeros(n * BLOCK_BITS + 1);
      blocks := new Md[n](_ => Md(BLOCK_BITS, 0, BLOCK_BITS, BLOCK_BITS, 0));
      freeBytes := UNIT * (n * BLOCK_BITS);
      firstBit := 0;
      live := map[];
      new;
      forall i | 0 <= i < n ensures Exact(Block(alloc, i), blocks[..][i]) {
        EmptyExact(Block(alloc, i));
      }
      ZerosFree(n * BLOCK_BITS);
    }

    /** pcpu_block_update_hint_alloc(): the blocks after units [bitOff, bitOff + bits) of m were set. */
    method UpdateHintAlloc(bitOff: nat, bits: nat, ghost m: seq<bool>)
      requires bits > 0 && bitOff + bits <= |m| && FreeRun(m, bitOff, bitOff + bits)
      requires alloc == Fill(m, bitOff, bitOff + bits, true) && BlocksExact(m, blocks[..])
      modifies blocks
      ensures BlocksExact(alloc, blocks[..])
    {
      hide Block, Exact, Takes, Fill, FullRun, FreeRun, BlocksExact;
      var si, ei := bitOff / BLOCK_BITS, (bitOff + bits - 1) / BLOCK_BITS;
      var so, eo := bitOff % BLOCK_BITS, (bitOff + bits - 1) % BLOCK_BITS + 1;
      ghost var mds := blocks[..];
      SpanBounds(m, mds, bitOff, bits);
      TakenAt(m, mds, bitOff, bits, si);
      var md := StartBlock(Block(m, si), Block(alloc, si), blocks[si], so, bits, si == ei, eo);
      blocks[si] := md;
      if si != ei {
        TakenAt(m, mds, bitOff, bits, ei);
        md := EndBlock(Block(m, ei), Block(alloc, ei), blocks[ei], eo);
        blocks[ei] := md;
        ClearHints(si + 1, if eo == BLOCK_BITS then ei + 1 else ei);
      }
      forall i | 0 <= i < blocks.Length ensures Exact(Block(alloc, i), blocks[i]) {
        TakenAt(m, mds, bitOff, bits, i);
        if si < i < ei || (si < i == ei && eo == BLOCK_BITS) {
          FullExact(Block(alloc, i), blocks[i].start, blocks[i].first);
        }
      }
      AllExact(alloc, blocks[..]);
    }

    /** pcpu_block_update_hint_free(), the blocks: after units [bitOff, bitOff + bits) of m were cleared. */
    method UpdateHintFree(bitOff: nat, bits: nat, ghost m: seq<bool>)
      requires bits > 0 && bitOff + bits <= |m| && FullRun(m, bitOff, bitOff + bits)
      requires alloc == Fill(m, bitOff, bitOff + bits, false) && BlocksExact(m, blocks[..])
      modifies blocks
      ensures BlocksExact(alloc, blocks[..])
    {
      hide Block, Exact, Frees, Fill, FullRun, FreeRun, BlocksExact, RunStart, RunEnd, Update;
      var si, ei := bitOff / BLOCK_BITS, (bitOff + bits - 1) / BLOCK_BITS;
      var so, eo := bitOff % BLOCK_BITS, (bitOff + bits - 1) % BLOCK_BITS + 1;
      ghost var mds := blocks[..];
      SpanBounds(m, mds, bitOff, bits);
      FreedAt(m, mds, bitOff, bits, si);
      FreedAt(m, mds, bitOff, bits, ei);
      var start := RunStart(Block(alloc, si), blocks[si], so);
      var end := RunEnd(Block(alloc, ei), blocks[ei], eo);
      blocks[si] := Update(blocks[si], start, if si == ei then end else BLOCK_BITS);
      if si != ei {
        blocks[ei] := Update(blocks[ei], 0, end);
        ResetHints(si + 1, ei);
      }
      forall i | 0 <= i < blocks.Length ensures Exact(Block(alloc, i), blocks[i]) {
        FreedAt(m, mds, bitOff, bits, i);
        if si < i < ei {
          EmptyExact(Block(alloc, i));
        }
      }
      AllExact(alloc, blocks[..]);
    }

    /** The blocks wholly freed. */
    method ResetHints(lo: nat, hi: nat)
      requires lo <= hi <= blocks.Length
      modifies blocks
      ensures forall k | 0 <= k < blocks.Length ::
                blocks[k] == if lo <= k < hi then Md(BLOCK_BITS, 0, BLOCK_BITS, BLOCK_BITS, 0) else old(blocks[k])
    {
      for i := lo to hi
        invariant forall k | 0 <= k < blocks.Length ::
                    blocks[k] == if lo <= k < i then Md(BLOCK_BITS, 0, BLOCK_BITS, BLOCK_BITS, 0) else old(blocks[k])
      {
        blocks[i] := Md(BLOCK_BITS, 0, BLOCK_BITS, BLOCK_BITS, 0);
      }
    }

    /** pcpu_alloc_area(): the first aligned fit of the search window. beyond stands for the bits that
        follow the map in memory, which the search may reach; it may not end there. */
    method AllocArea(bits: nat, order: nat, start: nat, beyond: seq<bool>) returns (off: int)
      requires Valid() && bits > 0 && start + bits + BLOCK_BITS <= |alloc| + |beyond|
      requires Stays(alloc, beyond, start, bits, order)
      modifies this, blocks
      ensures Valid()
      ensures off == -1 ==> alloc == old(alloc) && bound == old(bound) && live == old(live) && blocks[..] == old(blocks[..])
      ensures off == -1 ==> forall p: nat | start <= p && p + bits <= start + bits + BLOCK_BITS ::
                              !Fits(old(alloc), |old(alloc)|, bits, order, p)
      ensures off != -1 ==> exists p: nat ::
                && off == p * UNIT && start <= p && p !in old(live) && Fits(old(alloc), |old(alloc)|, bits, order, p)
                && (forall q: nat | start <= q < p :: !Fits(old(alloc), |old(alloc)|, bits, order, q))
                && alloc == Fill(old(alloc), p, p + bits, true) && live == old(live)[p := bits]
                && bound == Bounded(old(bound), p, p + bits)
    {
      hide BlocksExact, FirstOk, LiveOk, Fill, CountFree, Aligned, Bounded, FreeRun;
      var end := start + bits + BLOCK_BITS;
      var bitOff := FindZeroArea(alloc + beyond, end, start, bits, order);
      FitsThere(alloc, beyond, start, end, bits, order, bitOff);
      if bitOff >= end {
        return -1;
      }
      ghost var m := alloc;
      AllocFacts(alloc, bound, live, firstBit, bitOff, bits);
      alloc := Fill(alloc, bitOff, bitOff + bits, true);
      bound := Bounded(bound, bitOff, bitOff + bits);
      freeBytes := freeBytes - bits * UNIT;
      if bitOff == firstBit {
        firstBit := NextZero(alloc, bitOff + bits);
      }
      live := live[bitOff := bits];
      UpdateHintAlloc(bitOff, bits, m);
      return bitOff * UNIT;
    }

    /** pcpu_free_area(): the length comes from the boundary map. */
    method FreeArea(off: nat)
      requires Valid() && off / UNIT in live
      modifies this, blocks
      ensures Valid()
      ensures var s := off / UNIT; var n := old(live)[s];
              s + n <= |old(alloc)| && alloc == Fill(old(alloc), s, s + n, false) && live == old(live) - {s}
      ensures bound == old(bound)
    {
      hide BlocksExact, FirstOk, LiveOk, Fill, CountFree, Bounded, FreeRun, FullRun;
      var bitOff := off / UNIT;
      FreeFacts(alloc, bound, live, firstBit, bitOff);
      var end := NextOne(bound[..|alloc|], bitOff + 1);
      var bits := end - bitOff;
      ghost var m := alloc;
      alloc := Fill(alloc, bitOff, bitOff + bits, false);
      freeBytes := freeBytes + bits * UNIT;
      firstBit := Min(firstBit, bitOff);
      live := live - {bitOff};
      UpdateHintFree(bitOff, bits, m);
    }

    /** The blocks wholly taken. */
    method ClearHints(lo: nat, hi: nat)
      requires lo <= hi <= blocks.Length
      modifies blocks
      ensures forall k | 0 <= k < blocks.Length ::
                blocks[k] == if lo <= k < hi then old(blocks[k]).(contig := 0, left := 0, right := 0) else old(blocks[k])
    {
      for i := lo to hi
        invariant forall k | 0 <= k < blocks.Length ::
                    blocks[k] == if lo <= k < i then old(blocks[k]).(contig := 0, left := 0, right := 0) else old(blocks[k])
      {
        blocks[i] := blocks[i].(contig := 0, left := 0, right := 0);
      }
    }
  }

  lemma AllExact(m: seq<bool>, mds: seq<Md>)
    requires |m| == |mds| * BLOCK_BITS && forall i | 0 <= i < |mds| :: Exact(Block(m, i), mds[i])
    ensures BlocksExact(m, mds)
  {
  }

  lemma SpanBounds(m: seq<bool>, mds: seq<Md>, bitOff: nat, bits: nat)
    requires bits > 0 && bitOff + bits <= |m| && BlocksExact(m, mds)
    ensures |m| == |mds| * BLOCK_BITS
    ensures var si, ei := bitOff / BLOCK_BITS, (bitOff + bits - 1) / BLOCK_BITS;
            var so, eo := bitOff % BLOCK_BITS, (bitOff + bits - 1) % BLOCK_BITS + 1;
            si <= ei < |mds| && (si == ei ==> eo == so + bits) && (si < ei ==> so + bits > BLOCK_BITS)
  {
    hide Exact;
  }

  /** The part of block i in the span. */
  lemma SpanAt(bitOff: nat, bits: nat, i: nat)
    requires bits > 0
    ensures var si, ei := bitOff / BLOCK_BITS, (bitOff + bits - 1) / BLOCK_BITS;
            var so, eo := bitOff % BLOCK_BITS, (bitOff + bits - 1) % BLOCK_BITS + 1;
            var lo, hi := Low(bitOff, i), High(bitOff + bits, i);
            && (i < si || ei < i ==> lo >= hi)
            && (i == si ==> lo == so < hi == if si == ei then eo else BLOCK_BITS)
            && (si < i < ei ==> lo == 0 && hi == BLOCK_BITS)
            && (si < i == ei ==> lo == 0 && hi == eo)
  {
  }

  /** Which part of block i an allocation takes. */
  lemma TakenAt(m: seq<bool>, mds: seq<Md>, bitOff: nat, bits: nat, i: nat)
    requires BlocksExact(m, mds) && i < |mds|
    requires bits > 0 && bitOff + bits <= |m| && FreeRun(m, bitOff, bitOff + bits)
    ensures var si, ei := bitOff / BLOCK_BITS, (bitOff + bits - 1) / BLOCK_BITS;
            var so, eo := bitOff % BLOCK_BITS, (bitOff + bits - 1) % BLOCK_BITS + 1;
            var b, b' := Block(m, i), Block(Fill(m, bitOff, bitOff + bits, true), i);
            && Exact(b, mds[i]) && mds[i].start >= 0 && 0 <= mds[i].first <= BLOCK_BITS
            && (i < si || ei < i ==> b' == b)
            && (i == si ==> Takes(b, b', so, if si == ei then eo else BLOCK_BITS))
            && (si < i == ei ==> Takes(b, b', 0, eo))
            && (si < i < ei || (si < i == ei && eo == BLOCK_BITS) ==> FullRun(b', 0, BLOCK_BITS))
  {
    SpanAt(bitOff, bits, i);
    BlockTakes(m, bitOff, bitOff + bits, i);
    hide Low, High, Block, Fill;
  }

  /** What bitmap_find_next_zero_area() makes of the window. */
  ghost predicate FirstFit(m: seq<bool>, size: nat, start: nat, bits: nat, order: nat, at: nat) {
    && (at + bits <= size ==> start <= at && Fits(m, size, bits, order, at))
    && (at + bits > size ==> at > size)
    && forall p: nat | start <= p < at :: !Fits(m, size, bits, order, p)
  }

  /** The map has a fit that starts in the window. */
  ghost predicate FitAhead(m: seq<bool>, start: nat, bits: nat, order: nat) {
    exists p: nat :: start <= p <= start + BLOCK_BITS && Fits(m, |m|, bits, order, p)
  }

  ghost predicate NoFit(m: seq<bool>, size: nat, start: nat, bits: nat, order: nat) {
    forall p: nat | start <= p :: !Fits(m, size, bits, order, p)
  }

  /** The map has a fit in the window, or the window has none at all. */
  ghost predicate Stays(alloc: seq<bool>, beyond: seq<bool>, start: nat, bits: nat, order: nat) {
    FitAhead(alloc, start, bits, order) || NoFit(alloc + beyond, start + bits + BLOCK_BITS, start, bits, order)
  }

  /** The area found is one of the map exactly then; a window that ends in the map is enough. */
  lemma StaysExact(alloc: seq<bool>, beyond: seq<bool>, start: nat, bits: nat, order: nat, at: nat)
    requires bits > 0 && start + bits + BLOCK_BITS <= |alloc| + |beyond|
    requires FirstFit(alloc + beyond, start + bits + BLOCK_BITS, start, bits, order, at)
    ensures (at < start + bits + BLOCK_BITS ==> at + bits <= |alloc|) <==> Stays(alloc, beyond, start, bits, order)
    ensures start + bits + BLOCK_BITS <= |alloc| ==> Stays(alloc, beyond, start, bits, order)
  {
    hide Aligned;
    var size := start + bits + BLOCK_BITS;
    if FitAhead(alloc, start, bits, order) {
      var p: nat :| start <= p <= start + BLOCK_BITS && Fits(alloc, |alloc|, bits, order, p);
      FitsWider(alloc, beyond, size, bits, order, p);
    }
    if at < size && at + bits <= |alloc| {
      FitsInside(alloc, beyond, size, bits, order, at);
    }
    if at > size {
      assert NoFit(alloc + beyond, size, start, bits, order);
    }
  }

  /** With every unit taken and free memory behind the map, the search ends behind the map. */
  lemma LeavesTheMap(beyond: seq<bool>, at: nat)
    requires |beyond| == BLOCK_BITS && FreeRun(beyond, 0, BLOCK_BITS)
    requires FirstFit(Full() + beyond, 1 + BLOCK_BITS, 0, 1, 0, at)
    ensures |Full()| == BLOCK_BITS && at == BLOCK_BITS && !Stays(Full(), beyond, 0, 1, 0)
  {
    var m, size := Full() + beyond, 1 + BLOCK_BITS;
    assert FreeRun(m, BLOCK_BITS, BLOCK_BITS + 1);
    assert Fits(m, 1 + BLOCK_BITS, 1, 0, BLOCK_BITS);
    forall p: nat | p < BLOCK_BITS ensures !Fits(m, size, 1, 0, p) {
      assert m[p];
    }
    StaysExact(Full(), beyond, 0, 1, 0, at);
  }

  function Full(): seq<bool> {
    seq(BLOCK_BITS, _ => true)
  }

  /** The first fit of the window over the map and what follows it, read as a fit in the map. */
  lemma FitsThere(alloc: seq<bool>, beyond: seq<bool>, start: nat, size: nat, bits: nat, order: nat, at: nat)
    requires bits > 0 && size == start + bits + BLOCK_BITS <= |alloc| + |beyond|
    requires Stays(alloc, beyond, start, bits, order) && FirstFit(alloc + beyond, size, start, bits, order, at)
    ensures at < size ==> start <= at && Fits(alloc, |alloc|, bits, order, at)
    ensures forall p: nat | start <= p < at && p + bits <= size :: !Fits(alloc, |alloc|, bits, order, p)
  {
    StaysExact(alloc, beyond, start, bits, order, at);
    hide Aligned, Stays;
    forall p: nat | start <= p && p + bits <= size
      ensures Fits(alloc, |alloc|, bits, order, p) ==> at <= p
    {
      FitsWider(alloc, beyond, size, bits, order, p);
    }
    if at < size {
      FitsInside(alloc, beyond, size, bits, order, at);
    }
  }

  lemma FitsInside(alloc: seq<bool>, beyond: seq<bool>, size: nat, bits: nat, order: nat, at: nat)
    requires Fits(alloc + beyond, size, bits, order, at) && at + bits <= |alloc|
    ensures Fits(alloc, |alloc|, bits, order, at)
  {
    forall k | at <= k < at + bits ensures !alloc[k] {
      assert (alloc + beyond)[k] == alloc[k];
    }
  }

  lemma FitsWider(alloc: seq<bool>, beyond: seq<bool>, size: nat, bits: nat, order: nat, p: nat)
    requires p + bits <= size <= |alloc| + |beyond|
    ensures Fits(alloc, |alloc|, bits, order, p) ==> Fits(alloc + beyond, size, bits, order, p)
  {
  }

  lemma AllocFacts(alloc: seq<bool>, bound: seq<bool>, live: map<nat, nat>, firstBit: int, s: nat, n: nat)
    requires n > 0 && LiveOk(alloc, bound, live) && FirstOk(alloc, firstBit) && s + n <= |alloc| && FreeRun(alloc, s, s + n)
    ensures |bound| == |alloc| + 1 && s !in live
    ensures LiveOk(Fill(alloc, s, s + n, true), Bounded(bound, s, s + n), live[s := n])
    ensures CountFree(Fill(alloc, s, s + n, true)) == CountFree(alloc) - n
    ensures FirstOk(Fill(alloc, s, s + n, true),
                    if s == firstBit then NextZero(Fill(alloc, s, s + n, true), s + n) else firstBit)
  {
    LiveAdd(alloc, bound, live, s, s + n);
    FillCounts(alloc, s, s + n, true);
    hide LiveOk, CountFree, Bounded;
    assert s + n - s == n;
  }

  lemma FreeFacts(alloc: seq<bool>, bound: seq<bool>, live: map<nat, nat>, firstBit: int, s: nat)
    requires LiveOk(alloc, bound, live) && FirstOk(alloc, firstBit) && s in live
    ensures var n := live[s];
            && n > 0 && s + n <= |alloc| && |bound| == |alloc| + 1 && FullRun(alloc, s, s + n)
            && NextOne(bound[..|alloc|], s + 1) == s + n
            && LiveOk(Fill(alloc, s, s + n, false), bound, live - {s})
            && CountFree(Fill(alloc, s, s + n, false)) == CountFree(alloc) + n
            && FirstOk(Fill(alloc, s, s + n, false), Min(firstBit, s))
  {
    assert AreaOk(alloc, bound, s, live[s]);
    LiveDrop(alloc, bound, live, s);
    BoundEnds(alloc, bound, live, s);
    FillCounts(alloc, s, s + live[s], false);
    hide LiveOk, CountFree;
  }

  /** Which part of block i a free clears, and what the hint update makes of it. */
  lemma FreedAt(m: seq<bool>, mds: seq<Md>, bitOff: nat, bits: nat, i: nat)
    requires BlocksExact(m, mds) && i < |mds|
    requires bits > 0 && bitOff + bits <= |m| && FullRun(m, bitOff, bitOff + bits)
    ensures var si, ei := bitOff / BLOCK_BITS, (bitOff + bits - 1) / BLOCK_BITS;
            var so, eo := bitOff % BLOCK_BITS, (bitOff + bits - 1) % BLOCK_BITS + 1;
            var b' := Block(Fill(m, bitOff, bitOff + bits, false), i);
            && mds[i].start >= 0
            && (i < si || ei < i ==> Exact(b', mds[i]))
            && (i == si ==> RunStart(b', mds[i], so) >= 0)
            && (i == si == ei ==> Exact(b', Update(mds[i], RunStart(b', mds[i], so), RunEnd(b', mds[i], eo))))
            && (i == si < ei ==> Exact(b', Update(mds[i], RunStart(b', mds[i], so), BLOCK_BITS)))
            && (si < i == ei ==> Exact(b', Update(mds[i], 0, RunEnd(b', mds[i], eo))))
            && (si < i < ei ==> FreeRun(b', 0, BLOCK_BITS))
  {
    var si, ei := bitOff / BLOCK_BITS, (bitOff + bits - 1) / BLOCK_BITS;
    SpanAt(bitOff, bits, i);
    BlockFrees(m, bitOff, bitOff + bits, i);
    hide Block, Fill, RunStart, RunEnd, Update, FullRun, FreeRun;
    var lo, hi := Low(bitOff, i), High(bitOff + bits, i);
    var b, b' := Block(m, i), Block(Fill(m, bitOff, bitOff + bits, false), i);
    assert Exact(b, mds[i]);
    hide Low, High, BlocksExact;
    assert mds[i].start >= 0;
    if lo < hi {
      FreedBlock(b, b', mds[i], lo, hi);
    }
  }

  lemma FreedBlock(b: seq<bool>, b': seq<bool>, md: Md, lo: nat, hi: nat)
    requires |b| == |b'| == BLOCK_BITS && lo < hi <= |b| && FullRun(b, lo, hi) && Exact(b, md)
    requires forall k | 0 <= k < |b| :: b'[k] == (b[k] && !(lo <= k < hi))
    ensures RunStart(b', md, lo) >= 0
    ensures Exact(b', Update(md, RunStart(b', md, lo), RunEnd(b', md, hi)))
    ensures hi == BLOCK_BITS ==> Exact(b', Update(md, RunStart(b', md, lo), BLOCK_BITS))
    ensures lo == 0 ==> Exact(b', Update(md, 0, RunEnd(b', md, hi)))
    ensures lo == 0 && hi == BLOCK_BITS ==> FreeRun(b', 0, BLOCK_BITS)
  {
    RunFound(b, b', md, lo, hi);
    FreeKeepsExact(b, b', md, lo, hi, RunStart(b', md, lo), RunEnd(b', md, hi));
    if hi == BLOCK_BITS {
      FreeKeepsExact(b, b', md, lo, hi, RunStart(b', md, lo), BLOCK_BITS);
    }
    if lo == 0 {
      FreeKeepsExact(b, b', md, lo, hi, 0, RunEnd(b', md, hi));
    }
  }
}
