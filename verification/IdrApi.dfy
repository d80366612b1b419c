/** lib/idr.c: ids for pointers, over the radix tree. */
module IdrApi {
  import opened Numbers
  import opened Options
  import opened IdrRoot

  const U32: nat := 0x1_0000_0000
  const INT_MAX: nat := 0x7fff_ffff

  datatype Idr = Idr(root: Root, base: nat, next: nat)

  datatype Result = Ok(id: nat) | Enospc | Einval

  /** unsigned long subtraction */
  function Sub64(a: nat, b: nat): nat
    requires a < U64 && b < U64
  {
    if a >= b then a - b else U64 + a - b
  }

  /** Storing into a u32 */
  function ToU32(x: nat): (r: nat)
    ensures r < U32 && (x < U32 ==> r == x)
  {
    x % U32
  }

  /** (int)x for a u32 */
  function AsInt(x: nat): int {
    if x <= INT_MAX then x else x - U32
  }

  const INT_MIN: int := -0x8000_0000

  /** Storing an int into a u32 */
  function IntToU32(x: int): nat
    requires INT_MIN <= x <= INT_MAX
  {
    if x < 0 then x + U32 else x
  }

  function Limit(end: int): nat {
    if end > 0 then end - 1 else INT_MAX
  }

  /** The tree is well formed and every index it holds is a u32 id once the base is added. */
  ghost predicate IdrOk(idr: Idr) {
    && RootOk(idr.root) && idr.base < U32 && idr.next < U32
    && forall i: nat | RootGet(idr.root, i).Some? :: i + idr.base < U32
  }

  /** The pointer stored for an id. */
  function Stored(idr: Idr, id: nat): Option<nat> {
    if id < idr.base then None else RootGet(idr.root, id - idr.base)
  }

  // ---------- the operations

  /** idr_alloc_u32() */
  function AllocU32(idr: Idr, ptr: nat, nextid: nat, max: nat): (Idr, Result)
    requires IdrOk(idr) && max < U64
  {
    var first := FirstIndex(idr, nextid);
    GetFreeIsLeast(idr.root, first, Sub64(max, idr.base));
    match GetFree(idr.root, first, Sub64(max, idr.base))
    case None => (idr, Enospc)
    case Some(i) => (idr.(root := Store(idr.root, i, ptr)), Ok(ToU32(i + idr.base)))
  }

  /** idr_alloc() */
  function Alloc(idr: Idr, ptr: nat, start: int, end: int): (Idr, Result)
    requires IdrOk(idr) && start <= INT_MAX && end <= INT_MAX
  {
    if start < 0 then (idr, Einval) else AllocU32(idr, ptr, start, Limit(end))
  }

  /** idr_alloc_cyclic(); id > start is an unsigned comparison */
  function AllocCyclic(idr: Idr, ptr: nat, start: int, end: int): (Idr, Result)
    requires IdrOk(idr) && INT_MIN <= start <= INT_MAX && end <= INT_MAX
  {
    var id := if AsInt(idr.next) < start then IntToU32(start) else idr.next;
    var r := AllocU32(idr, ptr, id, Limit(end));
    var r' := if r.1.Enospc? && id > IntToU32(start) then AllocU32(idr, ptr, IntToU32(start), Limit(end)) else r;
    if r'.1.Ok? then (r'.0.(next := ToU32(r'.1.id + 1)), r'.1) else (idr, r'.1)
  }

  /** idr_find(): NULL when nothing is stored */
  function Find(idr: Idr, id: nat): nat
    requires id < U64 && idr.base < U64
  {
    match RootGet(idr.root, Sub64(id, idr.base)) case Some(p) => p case None => 0
  }

  /** idr_remove(): the pointer that was stored, NULL if none */
  function Remove(idr: Idr, id: nat): (Idr, nat)
    requires IdrOk(idr) && id < U64
  {
    var i := Sub64(id, idr.base);
    match RootGet(idr.root, i)
    case None => (idr, 0)
    case Some(p) => (idr.(root := Delete(idr.root, i)), p)
  }

  // ---------- what they promise

  ghost predicate InRange(idr: Idr, nextid: nat, max: nat, id: nat) {
    nextid <= id <= max && idr.base <= id
  }

  /** The smallest unused id of the range is taken, and no other id changes; without one, nothing changes. */
  ghost predicate TakesLeast(idr: Idr, ptr: nat, nextid: nat, max: nat, idr': Idr, res: Result) {
    match res
    case Ok(id) =>
      && InRange(idr, nextid, max, id) && Stored(idr, id).None? && Stored(idr', id) == Some(ptr)
      && (forall j: nat | InRange(idr, nextid, max, j) && j < id :: Stored(idr, j).Some?)
      && (forall j: nat | j != id :: Stored(idr', j) == Stored(idr, j))
    case Enospc => idr' == idr && forall j: nat | InRange(idr, nextid, max, j) :: Stored(idr, j).Some?
    case Einval => false
  }

  function FirstIndex(idr: Idr, nextid: nat): nat {
    if nextid < idr.base then 0 else nextid - idr.base
  }

  lemma AllocTakesLeast(idr: Idr, ptr: nat, nextid: nat, max: nat)
    requires IdrOk(idr) && idr.base <= max < U32
    ensures var (idr', res) := AllocU32(idr, ptr, nextid, max);
            IdrOk(idr') && idr'.base == idr.base && idr'.next == idr.next && TakesLeast(idr, ptr, nextid, max, idr', res)
  {
    hide RootOk, RootGet, GetFree, Store, TakesLeast, IsLeast, RootUsed, Stored, IdsUsed, OnlyAdded;
    var o := GetFree(idr.root, FirstIndex(idr, nextid), max - idr.base);
    GetFreeIsLeast(idr.root, FirstIndex(idr, nextid), max - idr.base);
    IdIsLeast(idr, nextid, max, o);
    if o.Some? {
      StoreReads(idr, ptr, o.value);
      TookLeast(idr, ptr, nextid, max, idr.(root := Store(idr.root, o.value, ptr)), o.value + idr.base);
    } else {
      FoundNone(idr, ptr, nextid, max);
    }
  }

  ghost predicate IdsUsed(idr: Idr, nextid: nat, max: nat, to: nat) {
    forall j: nat | InRange(idr, nextid, max, j) && j < to :: Stored(idr, j).Some?
  }

  ghost predicate OnlyAdded(idr: Idr, idr': Idr, id: nat) {
    forall j: nat | j != id :: Stored(idr', j) == Stored(idr, j)
  }

  /** The least unused index is the least unused id. */
  lemma IdIsLeast(idr: Idr, nextid: nat, max: nat, o: Option<nat>)
    requires idr.base <= max
    requires IsLeast(idr.root, FirstIndex(idr, nextid), max - idr.base, o)
    ensures o.Some? ==> RootGet(idr.root, o.value).None? && InRange(idr, nextid, max, o.value + idr.base)
    ensures IdsUsed(idr, nextid, max, if o.Some? then o.value + idr.base else max + 1)
  {
    hide RootGet;
    var to := if o.Some? then o.value + idr.base else max + 1;
    forall j: nat | InRange(idr, nextid, max, j) && j < to ensures Stored(idr, j).Some? {
      assert 0 <= j - idr.base < to - idr.base;
    }
  }

  lemma StoreReads(idr: Idr, ptr: nat, i: nat)
    requires IdrOk(idr) && i + idr.base < U32 && RootGet(idr.root, i).None?
    ensures var idr' := idr.(root := Store(idr.root, i, ptr));
            && IdrOk(idr') && Stored(idr, i + idr.base).None? && Stored(idr', i + idr.base) == Some(ptr)
            && OnlyAdded(idr, idr', i + idr.base)
  {
    hide RootOk, RootGet, Store;
    StoreAdds(idr.root, i, ptr);
    var idr' := idr.(root := Store(idr.root, i, ptr));
    forall j: nat | j != i + idr.base ensures Stored(idr', j) == Stored(idr, j) {
      if j >= idr.base {
        var k: nat := j - idr.base;
        assert RootGet(idr'.root, k) == RootGet(idr.root, k);
      }
    }
  }

  lemma TookLeast(idr: Idr, ptr: nat, nextid: nat, max: nat, idr': Idr, id: nat)
    requires InRange(idr, nextid, max, id) && IdsUsed(idr, nextid, max, id) && Stored(idr, id).None?
    requires Stored(idr', id) == Some(ptr) && OnlyAdded(idr, idr', id)
    ensures TakesLeast(idr, ptr, nextid, max, idr', Ok(id))
  {
    hide Stored;
  }

  lemma FoundNone(idr: Idr, ptr: nat, nextid: nat, max: nat)
    requires IdsUsed(idr, nextid, max, max + 1)
    ensures TakesLeast(idr, ptr, nextid, max, idr, Enospc)
  {
    hide Stored;
  }

  ghost predicate AnyUnused(idr: Idr, nextid: nat, max: nat) {
    exists id: nat :: InRange(idr, nextid, max, id) && Stored(idr, id).None?
  }

  /** An id is handed out exactly when the range has an unused one: true of the code if and only
      if max is not below the base. Below it, max - base wraps and an id above max is handed out. */
  lemma AllocInRange(idr: Idr, ptr: nat, nextid: nat, max: nat)
    requires IdrOk(idr) && nextid < U32 && max < U32
    ensures (AllocU32(idr, ptr, nextid, max).1.Ok? <==> AnyUnused(idr, nextid, max)) <==> idr.base <= max
  {
    hide RootOk, RootGet, GetFree, Store, ToU32;
    if idr.base <= max {
      AllocTakesLeast(idr, ptr, nextid, max);
    } else {
      var first := FirstIndex(idr, nextid);
      var last := Sub64(max, idr.base);
      GetFreeIsLeast(idr.root, first, last);
      assert RootGet(idr.root, U32).None?;
      assert first <= U32 < last + 1;
    }
  }

  lemma WrapHandsOutAboveMax(ptr: nat)
    ensures IdrOk(Idr(EMPTY, 8, 0)) && AllocU32(Idr(EMPTY, 8, 0), ptr, 2, 5).1 == Ok(8)
  {
    var idr := Idr(EMPTY, 8, 0);
    GetFreeIsLeast(EMPTY, 0, Sub64(5, 8));
    assert RootGet(EMPTY, 0).None?;
  }

  lemma FindReads(idr: Idr, id: nat)
    requires IdrOk(idr) && id < U64
    ensures Find(idr, id) == match Stored(idr, id) case Some(p) => p case None => 0
  {
  }

  /** Removing forgets one id; the tree shrinks without any other id changing. */
  lemma RemoveForgets(idr: Idr, id: nat)
    requires IdrOk(idr) && id < U64
    ensures var (idr', p) := Remove(idr, id);
            && IdrOk(idr') && idr'.base == idr.base && idr'.next == idr.next && p == Find(idr, id)
            && Stored(idr', id).None? && forall j: nat | j != id :: Stored(idr', j) == Stored(idr, j)
  {
    var i := Sub64(id, idr.base);
    if RootGet(idr.root, i).Some? {
      DeleteDrops(idr.root, i);
      hide RootOk, RootGet, Delete;
      assert id >= idr.base;
    }
  }
}
