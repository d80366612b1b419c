/** Whole runs of an IDR against a plain table of ids searched one by one. */
module IdrRuns {
  import opened Numbers
  import opened Options
  import opened IdrRoot
  import opened IdrApi

  datatype Table = Table(ids: map<nat, nat>, base: nat, next: nat)

  datatype Op =
    | OpAlloc(ptr: nat, start: int, end: int)
    | OpCyclic(ptr: nat, min: int, end: int)
    | OpRemove(id: nat)

  datatype Output = Id(res: Result) | Pointer(p: nat)

  /** What the callers owe: arguments of the C types, and a range that does not end below the base. */
  predicate Callable(base: nat, op: Op) {
    match op
    case OpAlloc(_, start, end) => start <= INT_MAX && end <= INT_MAX && base <= Limit(end)
    case OpCyclic(_, start, end) => INT_MIN <= start <= INT_MAX && end <= INT_MAX && base <= Limit(end)
    case OpRemove(id) => id < U64
  }

  // ---------- the table

  function LeastUnused(ids: map<nat, nat>, from: nat, max: nat): Option<nat>
    decreases max - from
  {
    if from > max then None
    else if from !in ids then Some(from)
    else LeastUnused(ids, from + 1, max)
  }

  function TableAlloc(t: Table, ptr: nat, from: nat, max: nat): (Table, Result) {
    match LeastUnused(t.ids, if from < t.base then t.base else from, max)
    case None => (t, Enospc)
    case Some(id) => (t.(ids := t.ids[id := ptr]), Ok(id))
  }

  /** Start where the last allocation left off, then, unless the start is negative, from the start of the range. */
  function TableCyclic(t: Table, ptr: nat, start: int, max: nat): (Table, Result) {
    var first := if start < 0 || start <= t.next <= INT_MAX then t.next else start;
    var r := TableAlloc(t, ptr, first, max);
    var r' := if r.1.Enospc? && start >= 0 then TableAlloc(t, ptr, start, max) else r;
    if r'.1.Ok? then (r'.0.(next := r'.1.id + 1), r'.1) else (t, r'.1)
  }

  function TableStep(t: Table, op: Op): (Table, Output) {
    match op
    case OpAlloc(ptr, start, end) =>
      if start < 0 then (t, Id(Einval))
      else var r := TableAlloc(t, ptr, start, Limit(end)); (r.0, Id(r.1))
    case OpCyclic(ptr, start, end) =>
      var r := TableCyclic(t, ptr, start, Limit(end)); (r.0, Id(r.1))
    case OpRemove(id) =>
      (t.(ids := t.ids - {id}), Pointer(if id in t.ids then t.ids[id] else 0))
  }

  function TableRun(t: Table, ops: seq<Op>): (Table, seq<Output>) {
    if ops == [] then (t, [])
    else
      var (t', outs) := TableRun(t, ops[..|ops| - 1]);
      var (t2, out) := TableStep(t', ops[|ops| - 1]);
      (t2, outs + [out])
  }

  // ---------- the IDR

  function IdrStep(idr: Idr, op: Op): (Idr, Output)
    requires IdrOk(idr) && Callable(idr.base, op)
  {
    match op
    case OpAlloc(ptr, start, end) => var r := Alloc(idr, ptr, start, end); (r.0, Id(r.1))
    case OpCyclic(ptr, start, end) => var r := AllocCyclic(idr, ptr, start, end); (r.0, Id(r.1))
    case OpRemove(id) => var r := Remove(idr, id); (r.0, Pointer(r.1))
  }

  function At(ids: map<nat, nat>, id: nat): Option<nat> {
    if id in ids then Some(ids[id]) else None
  }

  ghost predicate Agree(idr: Idr, t: Table) {
    && IdrOk(idr) && idr.base == t.base && idr.next == t.next && idr.next <= INT_MAX + 1
    && forall id: nat :: Stored(idr, id) == At(t.ids, id)
  }

  // ---------- agreement

  lemma {:induction false} ScanFinds(ids: map<nat, nat>, from: nat, max: nat)
    ensures match LeastUnused(ids, from, max)
            case Some(id) => from <= id <= max && id !in ids && forall j: nat | from <= j < id :: j in ids
            case None => forall j: nat | from <= j <= max :: j in ids
    decreases max - from
  {
    if from <= max && from in ids {
      ScanFinds(ids, from + 1, max);
    }
  }

  /** Taking the least unused id is what the scan does. */
  lemma TakenIsScanned(idr: Idr, t: Table, ptr: nat, from: nat, max: nat, idr': Idr, res: Result)
    requires Agree(idr, t) && TakesLeast(idr, ptr, from, max, idr', res)
    requires IdrOk(idr') && idr'.base == idr.base && idr'.next == idr.next
    ensures var (t', res') := TableAlloc(t, ptr, from, max); res == res' && Agree(idr', t')
  {
    var first := if from < t.base then t.base else from;
    ScanFinds(t.ids, first, max);
    hide IdrOk, Stored;
    assert forall id: nat :: InRange(idr, from, max, id) <==> first <= id <= max;
    match LeastUnused(t.ids, first, max)
    case None =>
    case Some(id) =>
      assert At(t.ids, id).None?;
      if res.Ok? {
        assert At(t.ids, res.id).None?;
        assert id == res.id;
      }
  }

  lemma AllocAgrees(idr: Idr, t: Table, ptr: nat, from: nat, max: nat)
    requires Agree(idr, t) && idr.base <= max < U32
    ensures var (idr', res) := AllocU32(idr, ptr, from, max); var (t', res') := TableAlloc(t, ptr, from, max);
            res == res' && Agree(idr', t')
  {
    AllocTakesLeast(idr, ptr, from, max);
    hide IdrOk, Stored, TakesLeast, TableAlloc, AllocU32;
    var (idr', res) := AllocU32(idr, ptr, from, max);
    TakenIsScanned(idr, t, ptr, from, max, idr', res);
  }

  /** The two-step search of the cyclic form, on both sides. */
  lemma CyclicAgrees(idr: Idr, t: Table, ptr: nat, start: int, end: int)
    requires Agree(idr, t) && INT_MIN <= start <= INT_MAX && end <= INT_MAX && idr.base <= Limit(end)
    ensures var (idr', res) := AllocCyclic(idr, ptr, start, end); var (t', res') := TableCyclic(t, ptr, start, Limit(end));
            res == res' && Agree(idr', t')
  {
    hide Agree, TableAlloc, AllocU32, IdrOk, ToU32;
    AgreeParts(idr, t);
    var first := if AsInt(idr.next) < start then IntToU32(start) else idr.next;
    if start >= 0 {
      RetryAgrees(idr, t, ptr, first, start, Limit(end));
    } else {
      OnceAgrees(idr, t, ptr, first, Limit(end));
      OnceAgrees(idr, t, ptr, IntToU32(start), Limit(end));
      NothingAbove(t, ptr, IntToU32(start), Limit(end));
      if first != idr.next {
        NothingAbove(t, ptr, idr.next, Limit(end));
      }
    }
  }

  /** One search, on both sides. */
  lemma OnceAgrees(idr: Idr, t: Table, ptr: nat, first: nat, max: nat)
    requires IdrOk(idr) && Agree(idr, t) && idr.base <= max <= INT_MAX
    ensures var r := AllocU32(idr, ptr, first, max); var s := TableAlloc(t, ptr, first, max);
            && r.1 == s.1
            && if s.1.Ok? then Agree(r.0.(next := ToU32(r.1.id + 1)), s.0.(next := s.1.id + 1)) else Agree(idr, t)
  {
    hide Agree, TableAlloc, AllocU32, IdrOk, ToU32;
    AllocAgrees(idr, t, ptr, first, max);
    AllocWithin(t, ptr, first, max);
    if TableAlloc(t, ptr, first, max).1.Ok? {
      NextMoves(AllocU32(idr, ptr, first, max).0, TableAlloc(t, ptr, first, max).0, TableAlloc(t, ptr, first, max).1.id);
    }
  }

  lemma NothingAbove(t: Table, ptr: nat, from: nat, max: nat)
    requires from > max
    ensures TableAlloc(t, ptr, from, max) == (t, Enospc)
  {
  }

  lemma AgreeParts(idr: Idr, t: Table)
    requires Agree(idr, t)
    ensures IdrOk(idr) && idr.base == t.base && idr.next == t.next <= INT_MAX + 1
  {
  }

  lemma RetryAgrees(idr: Idr, t: Table, ptr: nat, first: nat, start: nat, max: nat)
    requires IdrOk(idr) && Agree(idr, t) && idr.base <= max <= INT_MAX && start <= first
    ensures var r := AllocU32(idr, ptr, first, max);
            var r' := if r.1.Enospc? && first > start then AllocU32(idr, ptr, start, max) else r;
            var s := TableAlloc(t, ptr, first, max);
            var s' := if s.1.Enospc? then TableAlloc(t, ptr, start, max) else s;
            && r'.1 == s'.1
            && if s'.1.Ok? then Agree(r'.0.(next := ToU32(r'.1.id + 1)), s'.0.(next := s'.1.id + 1)) else Agree(idr, t)
  {
    hide Agree, TableAlloc, AllocU32, IdrOk, ToU32;
    OnceAgrees(idr, t, ptr, first, max);
    OnceAgrees(idr, t, ptr, start, max);
  }

  lemma AllocWithin(t: Table, ptr: nat, from: nat, max: nat)
    ensures var res := TableAlloc(t, ptr, from, max).1; !res.Einval? && (res.Ok? ==> res.id <= max)
  {
    ScanFinds(t.ids, if from < t.base then t.base else from, max);
  }

  lemma NextMoves(idr: Idr, t: Table, id: nat)
    requires Agree(idr, t) && id <= INT_MAX
    ensures Agree(idr.(next := ToU32(id + 1)), t.(next := id + 1))
  {
    hide RootOk, RootGet, ToU32, At;
    var idr' := idr.(next := ToU32(id + 1));
    assert forall j: nat :: Stored(idr', j) == Stored(idr, j);
  }

  /** The promise of the cyclic form is to go round: to the ids from the start, or from 0 where that is negative.
      The code keeps it if and only if the start is not negative, or an id is left in front, or none is left. */
  lemma CyclicGoesRound(idr: Idr, t: Table, ptr: nat, start: int, end: int)
    requires Agree(idr, t) && INT_MIN <= start <= INT_MAX && end <= INT_MAX && idr.base <= Limit(end)
    ensures AllocCyclic(idr, ptr, start, end).1 == TableCyclic(t, ptr, if start < 0 then 0 else start, Limit(end)).1
       <==> start >= 0 || AnyUnused(idr, idr.next, Limit(end)) || !AnyUnused(idr, 0, Limit(end))
  {
    CyclicAgrees(idr, t, ptr, start, end);
    hide Agree, TableAlloc, AllocU32, IdrOk, AllocCyclic, AnyUnused;
    AgreeParts(idr, t);
    UnusedIsScanned(idr, t, ptr, idr.next, Limit(end));
    UnusedIsScanned(idr, t, ptr, 0, Limit(end));
    if idr.next > INT_MAX {
      NothingAbove(t, ptr, idr.next, Limit(end));
    }
  }

  lemma UnusedIsScanned(idr: Idr, t: Table, ptr: nat, from: nat, max: nat)
    requires Agree(idr, t) && idr.base <= max < U32
    ensures TableAlloc(t, ptr, from, max).1 == Enospc || TableAlloc(t, ptr, from, max).1.Ok?
    ensures TableAlloc(t, ptr, from, max).1.Ok? <==> AnyUnused(idr, from, max)
  {
    AllocAgrees(idr, t, ptr, from, max);
    AllocTakesLeast(idr, ptr, from, max);
    hide Agree, IdrOk, Stored, TableAlloc, AllocU32;
  }

  /** With the ids 0 and 1 free and the search left off behind them, a negative start finds nothing. */
  lemma NegativeStartStops(ptr: nat)
    ensures var idr := Idr(EMPTY, 0, 2);
            && IdrOk(idr) && Stored(idr, 0).None?
            && AllocCyclic(idr, ptr, -1, 2).1 == Enospc && AllocCyclic(idr, ptr, 0, 2).1 == Ok(0)
  {
    var idr := Idr(EMPTY, 0, 2);
    var t := Table(map[], 0, 2);
    assert Agree(idr, t);
    CyclicAgrees(idr, t, ptr, -1, 2);
    CyclicAgrees(idr, t, ptr, 0, 2);
  }

  lemma RemoveAgrees(idr: Idr, t: Table, id: nat)
    requires Agree(idr, t) && id < U64
    ensures var (idr', p) := Remove(idr, id);
            Agree(idr', t.(ids := t.ids - {id})) && p == (if id in t.ids then t.ids[id] else 0)
  {
    RemoveForgets(idr, id);
    FindReads(idr, id);
    hide IdrOk, Stored, Find, Remove;
    assert Stored(idr, id) == At(t.ids, id);
  }

  lemma StepAgrees(idr: Idr, t: Table, op: Op)
    requires Agree(idr, t) && Callable(idr.base, op)
    ensures var (idr', out) := IdrStep(idr, op); var (t', out') := TableStep(t, op);
            out == out' && Agree(idr', t')
  {
    match op
    case OpAlloc(ptr, start, end) =>
      if start >= 0 {
        AllocAgrees(idr, t, ptr, start, Limit(end));
      }
    case OpCyclic(ptr, start, end) => CyclicAgrees(idr, t, ptr, start, end);
    case OpRemove(id) => RemoveAgrees(idr, t, id);
  }

  /** A run of the IDR: every call meets its caller's duty, and the outputs are those of the steps. */
  ghost predicate IsRun(from: Idr, ops: seq<Op>, to: Idr, outs: seq<Output>) {
    |outs| == |ops| &&
    if ops == [] then to == from
    else
      var last := |ops| - 1;
      exists mid: Idr :: IsRun(from, ops[..last], mid, outs[..last]) && IdrOk(mid) && Callable(mid.base, ops[last]) &&
        IdrStep(mid, ops[last]) == (to, outs[last])
  }

  /** Any run from an empty IDR answers every call as the table does: the smallest unused id of the
      range, -ENOSPC exactly when there is none, and the pointer last stored. */
  lemma {:induction false} RunIsTable(base: nat, ops: seq<Op>, to: Idr, outs: seq<Output>)
    requires base < U32 && IsRun(Idr(EMPTY, base, 0), ops, to, outs)
    ensures var (t, outs') := TableRun(Table(map[], base, 0), ops); outs == outs' && Agree(to, t)
  {
    var from := Idr(EMPTY, base, 0);
    if ops == [] {
      EmptyAgrees(base);
    } else {
      var last := |ops| - 1;
      var mid: Idr :| IsRun(from, ops[..last], mid, outs[..last]) && IdrOk(mid) && Callable(mid.base, ops[last]) &&
        IdrStep(mid, ops[last]) == (to, outs[last]);
      RunIsTable(base, ops[..last], mid, outs[..last]);
      hide IdrOk, Agree, IdrStep, TableStep;
      StepAgrees(mid, TableRun(Table(map[], base, 0), ops[..last]).0, ops[last]);
      assert outs == outs[..last] + [outs[last]];
    }
  }

  lemma EmptyAgrees(base: nat)
    requires base < U32
    ensures Agree(Idr(EMPTY, base, 0), Table(map[], base, 0))
  {
  }
}
