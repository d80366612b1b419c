/** Bitmaps as the percpu allocator uses them: a set bit is an allocated unit. */
module PercpuBits {
  import opened Alignment

  /** find_next_zero_bit() over the whole map; its size when there is none. */
  function NextZero(b: seq<bool>, from: nat): (k: nat)
    ensures k <= |b| && (from <= |b| ==> from <= k) && (k < |b| ==> from <= k && !b[k])
    ensures forall j | from <= j < k :: b[j]
    decreases |b| - from
  {
    if from >= |b| then |b| else if !b[from] then from else NextZero(b, from + 1)
  }

  /** find_next_bit() over the whole map; its size when there is none. */
  function NextOne(b: seq<bool>, from: nat): (k: nat)
    ensures k <= |b| && (from <= |b| ==> from <= k) && (k < |b| ==> from <= k && b[k])
    ensures forall j | from <= j < k :: !b[j]
    decreases |b| - from
  {
    if from >= |b| then |b| else if b[from] then from else NextOne(b, from + 1)
  }

  /** find_last_bit() in the first size bits; size when there is none. */
  function LastOne(b: seq<bool>, size: nat): (k: nat)
    requires size <= |b|
    ensures k <= size && (k < size ==> b[k])
    ensures forall j | 0 <= j < size && (k == size || j > k) :: !b[j]
  {
    if size == 0 then 0
    else if b[size - 1] then size - 1
    else
      var k := LastOne(b, size - 1);
      if k == size - 1 then size else k
  }

  ghost predicate FreeRun(b: seq<bool>, s: int, e: int) {
    0 <= s <= e <= |b| && forall k | s <= k < e :: !b[k]
  }

  ghost predicate FullRun(b: seq<bool>, s: int, e: int) {
    0 <= s <= e <= |b| && forall k | s <= k < e :: b[k]
  }

  /** bitmap_set() and bitmap_clear() */
  function Fill(b: seq<bool>, s: nat, e: nat, v: bool): (r: seq<bool>)
    requires s <= e <= |b|
    ensures |r| == |b| && forall k | 0 <= k < |b| :: r[k] == if s <= k < e then v else b[k]
    decreases e - s
  {
    if s == e then b else Fill(b[e - 1 := v], s, e - 1, v)
  }

  function CountFree(b: seq<bool>): nat {
    if b == [] then 0 else CountFree(b[..|b| - 1]) + if b[|b| - 1] then 0 else 1
  }

  lemma {:induction false} CountUpdate(b: seq<bool>, k: nat, v: bool)
    requires k < |b|
    ensures CountFree(b[k := v]) == CountFree(b) - (if b[k] then 0 else 1) + (if v then 0 else 1)
    decreases |b|
  {
    var last := |b| - 1;
    if k == last {
      assert b[k := v][..last] == b[..last];
    } else {
      assert b[k := v][..last] == b[..last][k := v];
      CountUpdate(b[..last], k, v);
    }
  }

  lemma {:induction false} FillCounts(b: seq<bool>, s: nat, e: nat, v: bool)
    requires s <= e <= |b| && (if v then FreeRun(b, s, e) else FullRun(b, s, e))
    ensures CountFree(Fill(b, s, e, v)) == if v then CountFree(b) - (e - s) else CountFree(b) + (e - s)
    decreases e - s
  {
    if s < e {
      CountUpdate(b, e - 1, v);
      FillCounts(b[e - 1 := v], s, e - 1, v);
    }
  }

  /** Clearing what was set gives the map back. */
  lemma {:induction false} FillBack(b: seq<bool>, s: nat, e: nat)
    requires FreeRun(b, s, e)
    ensures Fill(Fill(b, s, e, true), s, e, false) == b
  {
  }

  // ---------- bitmap_find_next_zero_area()

  ghost predicate Fits(b: seq<bool>, size: nat, nr: nat, order: nat, p: nat) {
    p + nr <= size <= |b| && Aligned(p, order) && FreeRun(b, p, p + nr)
  }

  /** The first aligned run of nr free bits from start within size bits, or a number above size. */
  method FindZeroArea(b: seq<bool>, size: nat, start: nat, nr: nat, order: nat) returns (index: nat)
    requires size <= |b| && nr > 0
    ensures index + nr <= size ==> start <= index && Fits(b, size, nr, order, index)
    ensures index + nr > size ==> index > size
    ensures forall p: nat | start <= p < index :: !Fits(b, size, nr, order, p)
  {
    hide Aligned, AlignUp;
    var from := start;
    while true
      invariant from >= start
      invariant forall p: nat | start <= p < from :: !Fits(b, size, nr, order, p)
      decreases size - from
    {
      var at := NextZero(b[..size], from);
      AlignUpLeast(at, order);
      index := AlignUp(at, order);
      SkipToAligned(b, size, nr, order, start, from, at, index);
      var end := index + nr;
      if end > size {
        assert forall p: nat | index <= p :: !Fits(b, size, nr, order, p);
        return end;
      }
      var i := NextOne(b[..end], index);
      if i >= end {
        assert forall k | index <= k < end :: b[..end][k] == b[k];
        return index;
      }
      assert b[i];
      from := i + 1;
    }
  }

  /** Nothing fits between where the search stood and the next aligned index after a zero bit. */
  lemma SkipToAligned(b: seq<bool>, size: nat, nr: nat, order: nat, start: nat, from: nat, at: nat, index: nat)
    requires size <= |b| && nr > 0 && start <= from
    requires from < size ==> from <= at <= size && forall j | from <= j < at :: b[j]
    requires from >= size ==> at == size
    requires at <= index && forall y: nat | at <= y && Aligned(y, order) :: index <= y
    requires forall p: nat | start <= p < from :: !Fits(b, size, nr, order, p)
    ensures forall p: nat | start <= p < index :: !Fits(b, size, nr, order, p)
  {
    hide Aligned;
    forall p: nat | start <= p < index ensures !Fits(b, size, nr, order, p) {
      if from <= p < at && p < size { assert b[p]; }
    }
  }
}
