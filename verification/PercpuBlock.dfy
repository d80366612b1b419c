/** struct pcpu_block_md: hints about the free runs of one block of the allocation map. */
module PercpuBlock {
  import opened PercpuBits

  /** PCPU_BITMAP_BLOCK_BITS: a page in units of PCPU_MIN_ALLOC_SIZE */
  const BLOCK_BITS: nat := 1024

  datatype Md = Md(contig: int, start: int, left: int, right: int, first: int)

  function Min(a: int, b: int): int {
    if a <= b then a else b
  }

  // ---------- what the hints mean

  /** No free run is longer than n. */
  ghost predicate Longest(b: seq<bool>, n: int) {
    forall s, e :: FreeRun(b, s, e) ==> e - s <= n
  }

  ghost predicate LeftExact(b: seq<bool>, left: int) {
    FreeRun(b, 0, left) && (left < |b| ==> b[left])
  }

  ghost predicate RightExact(b: seq<bool>, right: int) {
    FreeRun(b, |b| - right, |b|) && (right < |b| ==> b[|b| - right - 1])
  }

  /** first is not above a free bit. */
  ghost predicate FirstOk(b: seq<bool>, first: int) {
    0 <= first <= |b| && forall k | 0 <= k < |b| && !b[k] :: first <= k
  }

  ghost predicate ContigExact(b: seq<bool>, md: Md) {
    && 0 <= md.contig && 0 <= md.start
    && (md.contig > 0 ==> FreeRun(b, md.start, md.start + md.contig))
    && Longest(b, md.contig)
  }

  /** The hints are exactly the longest, leftmost and rightmost free runs. */
  ghost predicate Exact(b: seq<bool>, md: Md) {
    |b| == BLOCK_BITS && LeftExact(b, md.left) && RightExact(b, md.right) && FirstOk(b, md.first) && ContigExact(b, md)
  }

  // ---------- pcpu_block_update()

  /** __ffs(): the lowest set bit of a non-zero number */
  function LowBit(x: nat): nat
    requires x > 0
  {
    if x % 2 == 1 then 0 else 1 + LowBit(x / 2)
  }

  function Update(md: Md, start: int, end: int): Md
    requires 0 <= start && 0 <= md.start
  {
    var contig := end - start;
    var better := md.start != 0 && contig == md.contig && (start == 0 || LowBit(start) > LowBit(md.start));
    Md(if contig > md.contig then contig else md.contig,
       if contig > md.contig || better then start else md.start,
       if start == 0 then contig else md.left,
       if end == BLOCK_BITS then contig else md.right,
       Min(md.first, start))
  }

  /** [s, e) is a whole free run: it cannot be made longer on either side. */
  ghost predicate WholeRun(b: seq<bool>, s: int, e: int) {
    FreeRun(b, s, e) && s < e && (s > 0 ==> b[s - 1]) && (e < |b| ==> b[e])
  }

  /** A free run that meets a whole run lies inside it. */
  lemma RunInside(b: seq<bool>, s: int, e: int, x: int, y: int)
    requires WholeRun(b, s, e) && FreeRun(b, x, y) && x < y && x < e && s < y
    ensures s <= x && y <= e
  {
    if s > 0 { RunSkips(b, x, y, s - 1); }
    if e < |b| { RunSkips(b, x, y, e); }
  }

  /** A set bit is outside every free run. */
  lemma RunSkips(b: seq<bool>, x: int, y: int, k: int)
    requires FreeRun(b, x, y) && 0 <= k < |b| && b[k]
    ensures k < x || y <= k
  {
  }

  /** A free run that starts past s starts past the full run from s. */
  lemma FullSkips(b: seq<bool>, s: int, e: int, x: int, y: int)
    requires FullRun(b, s, e) && FreeRun(b, x, y) && x < y && s <= x
    ensures e <= x
  {
    assert b[x] || !b[x];
  }

  // ---------- freeing within a block

  /** Units [s, e) of the block are freed, and [start, end) is the whole free run around them. */
  ghost predicate Frees(b: seq<bool>, b': seq<bool>, s: int, e: int, start: int, end: int) {
    && |b| == |b'| == BLOCK_BITS && 0 <= start <= s < e <= end <= |b| && FullRun(b, s, e) && WholeRun(b', start, end)
    && forall k | 0 <= k < |b| :: b'[k] == (b[k] && !(s <= k < e))
  }

  /** A free run of the new map away from the freed units was free before. */
  lemma OldRun(b: seq<bool>, b': seq<bool>, s: int, e: int, start: int, end: int, x: int, y: int)
    requires Frees(b, b', s, e, start, end) && FreeRun(b', x, y) && x < y
    ensures (start <= x && y <= end) || FreeRun(b, x, y)
  {
    if x < end && start < y {
      RunInside(b', start, end, x, y);
    }
  }

  lemma FreeKeepsContig(b: seq<bool>, b': seq<bool>, md: Md, s: int, e: int, start: int, end: int)
    requires Frees(b, b', s, e, start, end) && ContigExact(b, md)
    ensures ContigExact(b', Update(md, start, end))
  {
    var md' := Update(md, start, end);
    forall x, y | FreeRun(b', x, y) ensures y - x <= md'.contig {
      if x < y { OldRun(b, b', s, e, start, end, x, y); }
    }
    if md.contig > 0 {
      assert FreeRun(b', md.start, md.start + md.contig);
    }
  }

  lemma FreeKeepsEdges(b: seq<bool>, b': seq<bool>, md: Md, s: int, e: int, start: int, end: int)
    requires Frees(b, b', s, e, start, end) && Exact(b, md)
    ensures var md' := Update(md, start, end); LeftExact(b', md'.left) && RightExact(b', md'.right) && FirstOk(b', md'.first)
  {
    if start > 0 {
      assert b'[start - 1] && b[start - 1];
      assert md.left <= start - 1;
      assert FreeRun(b', 0, md.left);
    }
    if end < BLOCK_BITS {
      assert b'[end] && b[end];
      assert |b| - md.right > end;
      assert FreeRun(b', |b| - md.right, |b|);
    }
  }

  /** pcpu_block_update() on the free path keeps the hints exact. */
  lemma FreeKeepsExact(b: seq<bool>, b': seq<bool>, md: Md, s: int, e: int, start: int, end: int)
    requires Frees(b, b', s, e, start, end) && Exact(b, md)
    ensures Exact(b', Update(md, start, end))
  {
    FreeKeepsContig(b, b', md, s, e, start, end);
    FreeKeepsEdges(b, b', md, s, e, start, end);
  }

  /** The free run before s, from the hint when it ends there and by scanning otherwise. */
  function RunStart(b': seq<bool>, md: Md, s: nat): int
    requires s <= |b'|
  {
    if s == md.contig + md.start then md.start
    else var l := LastOne(b', s); if l == s then 0 else l + 1
  }

  /** The end of the free run after e. */
  function RunEnd(b': seq<bool>, md: Md, e: nat): int
    requires e <= |b'|
  {
    if e == md.start then md.start + md.contig else NextOne(b', e)
  }

  /** Either way it is the end of the run. */
  lemma RunFound(b: seq<bool>, b': seq<bool>, md: Md, s: nat, e: nat)
    requires |b| == |b'| == BLOCK_BITS && s < e <= |b| && FullRun(b, s, e) && ContigExact(b, md)
    requires forall k | 0 <= k < |b| :: b'[k] == (b[k] && !(s <= k < e))
    ensures Frees(b, b', s, e, RunStart(b', md, s), RunEnd(b', md, e))
  {
    StartFound(b, b', md, s, e);
    EndFound(b, b', md, s, e);
  }

  lemma StartFound(b: seq<bool>, b': seq<bool>, md: Md, s: nat, e: nat)
    requires |b| == |b'| == BLOCK_BITS && s < e <= |b| && FullRun(b, s, e) && ContigExact(b, md)
    requires forall k | 0 <= k < |b| :: b'[k] == (b[k] && !(s <= k < e))
    ensures var start := RunStart(b', md, s); 0 <= start <= s && FreeRun(b', start, s) && (start > 0 ==> b'[start - 1])
  {
    var start := RunStart(b', md, s);
    if s == md.contig + md.start && start > 0 && !b'[start - 1] {
      assert FreeRun(b, start - 1, s);
      assert false;
    }
  }

  lemma EndFound(b: seq<bool>, b': seq<bool>, md: Md, s: nat, e: nat)
    requires |b| == |b'| == BLOCK_BITS && s < e <= |b| && FullRun(b, s, e) && ContigExact(b, md)
    requires forall k | 0 <= k < |b| :: b'[k] == (b[k] && !(s <= k < e))
    ensures var end := RunEnd(b', md, e); e <= end <= |b| && FreeRun(b', e, end) && (end < |b| ==> b'[end])
  {
    var end := RunEnd(b', md, e);
    if e == md.start && end < |b| && !b'[end] {
      assert FreeRun(b, e, end + 1);
      assert false;
    }
  }

  // ---------- allocating within a block

  /** Units [s, e), free before, are taken. */
  ghost predicate Takes(b: seq<bool>, b': seq<bool>, s: int, e: int) {
    && |b| == |b'| == BLOCK_BITS && s < e && FreeRun(b, s, e)
    && forall k | 0 <= k < |b| :: b'[k] == (b[k] || s <= k < e)
  }

  /** first_free after the allocation */
  function FirstAfter(b': seq<bool>, first: int, s: int, e: nat): int {
    if s == first then NextZero(b', e) else first
  }

  lemma TakeKeepsFirst(b: seq<bool>, b': seq<bool>, first: int, s: int, e: nat)
    requires Takes(b, b', s, e) && FirstOk(b, first)
    ensures FirstOk(b', FirstAfter(b', first, s, e))
  {
    assert !b[s];
  }

  /** The longest run is not the one allocated from: every hint is put right without a scan. */
  lemma TakeKeepsExact(b: seq<bool>, b': seq<bool>, md: Md, s: int, e: nat)
    requires Takes(b, b', s, e) && Exact(b, md) && !(md.start <= s < md.start + md.contig)
    ensures Exact(b', Md(md.contig, md.start, Min(md.left, s), Min(md.right, BLOCK_BITS - e), FirstAfter(b', md.first, s, e)))
  {
    TakeKeepsFirst(b, b', md.first, s, e);
    TakeKeepsContig(b, b', md, s, e);
    TakeKeepsEdges(b, b', md, s, e);
  }

  lemma TakeKeepsContig(b: seq<bool>, b': seq<bool>, md: Md, s: int, e: nat)
    requires Takes(b, b', s, e) && ContigExact(b, md) && !(md.start <= s < md.start + md.contig)
    ensures ContigExact(b', md)
  {
    forall x, y | FreeRun(b', x, y) ensures y - x <= md.contig {
      assert FreeRun(b, x, y);
    }
    assert FreeRun(b, s, s + 1);
    if md.start < e && s < md.start {
      // the hint would start inside the allocated run, which would then be longer
      assert FreeRun(b, s, md.start + md.contig);
      assert false;
    }
    assert FreeRun(b', md.start, md.start + md.contig);
  }

  lemma TakeKeepsEdges(b: seq<bool>, b': seq<bool>, md: Md, s: int, e: nat)
    requires Takes(b, b', s, e) && LeftExact(b, md.left) && RightExact(b, md.right)
    ensures LeftExact(b', Min(md.left, s)) && RightExact(b', Min(md.right, BLOCK_BITS - e))
  {
    if s < md.left { assert b'[s]; }
    if BLOCK_BITS - e < md.right { assert b'[e - 1]; }
  }

  lemma FullExact(b: seq<bool>, start: int, first: int)
    requires FullRun(b, 0, BLOCK_BITS) && |b| == BLOCK_BITS && 0 <= start && 0 <= first <= BLOCK_BITS
    ensures Exact(b, Md(0, start, 0, 0, first))
  {
    forall x, y | FreeRun(b, x, y) ensures y - x <= 0 {
      if x < y { FullSkips(b, 0, BLOCK_BITS, x, y); }
    }
  }

  lemma EmptyExact(b: seq<bool>)
    requires FreeRun(b, 0, BLOCK_BITS) && |b| == BLOCK_BITS
    ensures Exact(b, Md(BLOCK_BITS, 0, BLOCK_BITS, BLOCK_BITS, 0))
  {
  }

  // ---------- pcpu_block_refresh_hint()

  /** The hints are right for the runs that end before pos, and the scan stands between runs. */
  ghost predicate Scanned(b: seq<bool>, md: Md, pos: int) {
    && 0 <= pos <= |b| + 1 && (0 < pos <= |b| ==> b[pos - 1])
    && 0 <= md.contig && 0 <= md.start && (md.contig > 0 ==> FreeRun(b, md.start, md.start + md.contig))
    && (forall x, y :: FreeRun(b, x, y) && y < pos ==> y - x <= md.contig)
    && (if pos == 0 then md.left == 0 else LeftExact(b, md.left))
    && (if pos <= |b| then md.right == 0 else RightExact(b, md.right))
  }

  lemma ScanStart(b: seq<bool>, md: Md)
    requires |b| == BLOCK_BITS && FirstOk(b, md.first) && 0 <= md.start && md.contig == md.left == md.right == 0
    ensures Scanned(b, md, md.first)
  {
    forall x, y | FreeRun(b, x, y) && y < md.first ensures y - x <= md.contig {
      if x < md.first { assert b[x]; }
    }
    if md.first > 0 {
      assert b[md.first - 1];
      assert b[0];
    }
  }

  lemma ScanStep(b: seq<bool>, md: Md, pos: int, rs: int, re: int)
    requires |b| == BLOCK_BITS && Scanned(b, md, pos) && pos <= rs && FullRun(b, pos, rs) && WholeRun(b, rs, re)
    ensures Scanned(b, Update(md, rs, re), re + 1)
  {
    var md' := Update(md, rs, re);
    forall x, y | FreeRun(b, x, y) && y < re + 1 ensures y - x <= md'.contig {
      if x < y && y >= pos {
        ScanMeets(b, pos, rs, re, x, y);
      }
    }
    if pos == 0 && rs > 0 { assert b[0]; }
  }

  lemma ScanMeets(b: seq<bool>, pos: int, rs: int, re: int, x: int, y: int)
    requires 0 <= pos <= rs && FullRun(b, pos, rs) && WholeRun(b, rs, re) && (pos > 0 ==> b[pos - 1])
    requires FreeRun(b, x, y) && x < y && pos <= y <= re
    ensures rs <= x
  {
    if pos > 0 { RunSkips(b, x, y, pos - 1); }
    FullSkips(b, pos, rs, x, y);
  }

  lemma ScanEnd(b: seq<bool>, md: Md, pos: int)
    requires |b| == BLOCK_BITS && Scanned(b, md, pos) && (pos <= |b| ==> FullRun(b, pos, |b|))
    ensures ContigExact(b, md) && LeftExact(b, md.left) && RightExact(b, md.right)
  {
    forall x, y | FreeRun(b, x, y) ensures y - x <= md.contig {
      if 0 < pos <= |b| && x < y { RunSkips(b, x, y, pos - 1); }
      if pos <= x < y { FullSkips(b, pos, |b|, x, y); }
    }
  }

  /** Scan the block from first_free and rebuild the hints. */
  method RefreshHint(b: seq<bool>, md: Md) returns (md': Md)
    requires |b| == BLOCK_BITS && FirstOk(b, md.first) && 0 <= md.start
    ensures Exact(b, md')
  {
    hide ContigExact, LeftExact, RightExact, Scanned, WholeRun, FreeRun, FullRun;
    md' := md.(contig := 0, left := 0, right := 0);
    var rs := md.first;
    ScanStart(b, md');
    ScanBounds(b, md', rs);
    var pos := rs;
    rs := NextZero(b, pos);
    var re := NextOne(b, rs + 1);
    while rs < re
      invariant 0 <= pos <= |b| + 1 && Scanned(b, md', pos) && FirstOk(b, md'.first) && 0 <= md'.start
      invariant rs == NextZero(b, pos) && re == NextOne(b, rs + 1)
      decreases |b| + 1 - pos
    {
      RunAhead(b, md', pos, rs, re);
      ScanStep(b, md', pos, rs, re);
      FirstKept(b, md', rs, re);
      md' := Update(md', rs, re);
      pos := re + 1;
      ScanBounds(b, md', pos);
      rs := NextZero(b, pos);
      re := NextOne(b, rs + 1);
    }
    NoneAhead(b, pos, rs);
    ScanEnd(b, md', pos);
  }

  lemma ScanBounds(b: seq<bool>, md: Md, pos: int)
    requires Scanned(b, md, pos)
    ensures 0 <= pos <= |b| + 1 && 0 <= md.start
  {
  }

  lemma {:induction false} RunAhead(b: seq<bool>, md: Md, pos: nat, rs: nat, re: nat)
    requires Scanned(b, md, pos) && rs == NextZero(b, pos) && re == NextOne(b, rs + 1) && rs < re
    ensures pos <= rs && FullRun(b, pos, rs) && WholeRun(b, rs, re)
  {
  }

  lemma NoneAhead(b: seq<bool>, pos: nat, rs: nat)
    requires rs == NextZero(b, pos) && NextOne(b, rs + 1) <= rs
    ensures pos <= |b| ==> FullRun(b, pos, |b|)
  {
  }

  lemma FirstKept(b: seq<bool>, md: Md, rs: int, re: int)
    requires FirstOk(b, md.first) && WholeRun(b, rs, re) && 0 <= md.start
    ensures FirstOk(b, Update(md, rs, re).first) && Update(md, rs, re).start >= 0
  {
    assert !b[rs];
  }
}
