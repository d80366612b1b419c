/** One zone of mm/page_alloc.c: the free lists of every order, their counters, and
    the pages marked PageBuddy. */
module BuddyZone {
  import opened Numbers
  import opened Options
  import opened BuddyMath
  import opened BuddyBlocks

  /** valid: the page frames that exist in this zone (pfn_valid_within). */
  datatype Zone = Zone(valid: set<nat>, freeList: seq<seq<nat>>, nrFree: seq<nat>, order: Blocks)

  predicate Sized(z: Zone) {
    |z.freeList| == MAX_ORDER && |z.nrFree| == MAX_ORDER
  }

  ghost predicate NoDup(s: seq<nat>) {
    forall i, j | 0 <= i < j < |s| :: s[i] != s[j]
  }

  /** The lists hold exactly the marked pages, once each, and the counters agree. */
  ghost predicate ListsAgree(z: Zone) {
    && Sized(z)
    && (forall o | 0 <= o < MAX_ORDER :: NoDup(z.freeList[o]) && z.nrFree[o] == |z.freeList[o]|)
    && (forall o, p | 0 <= o < MAX_ORDER :: p in z.freeList[o] <==> p in z.order && z.order[p] == o)
  }

  function Without(s: seq<nat>, x: nat): seq<nat> {
    if s == [] then [] else if s[0] == x then s[1..] else [s[0]] + Without(s[1..], x)
  }

  function Dec(n: nat): nat { if n == 0 then 0 else n - 1 }

  /** list_add(), nr_free++, set_page_order() */
  function AddHead(z: Zone, p: nat, o: nat): (r: Zone)
    requires Sized(z) && o < MAX_ORDER
    ensures Sized(r) && r.order == z.order[p := o] && r.valid == z.valid
  {
    z.(freeList := z.freeList[o := [p] + z.freeList[o]], nrFree := z.nrFree[o := z.nrFree[o] + 1], order := z.order[p := o])
  }

  function AddTail(z: Zone, p: nat, o: nat): (r: Zone)
    requires Sized(z) && o < MAX_ORDER
    ensures Sized(r) && r.order == z.order[p := o] && r.valid == z.valid
  {
    z.(freeList := z.freeList[o := z.freeList[o] + [p]], nrFree := z.nrFree[o := z.nrFree[o] + 1], order := z.order[p := o])
  }

  /** list_del(), nr_free--, rmv_page_order() */
  function Delete(z: Zone, p: nat, o: nat): (r: Zone)
    requires Sized(z) && o < MAX_ORDER
    ensures Sized(r) && r.order == z.order - {p} && r.valid == z.valid
  {
    z.(freeList := z.freeList[o := Without(z.freeList[o], p)], nrFree := z.nrFree[o := Dec(z.nrFree[o])], order := z.order - {p})
  }

  /** expand() */
  function Expand(z: Zone, p: nat, low: nat, high: nat): (r: Zone)
    requires Sized(z) && low <= high < MAX_ORDER
    ensures Sized(r) && r.valid == z.valid
    decreases high
  {
    if high == low then z
    else Expand(AddHead(z, p + Pow2(high - 1), high - 1), p, low, high - 1)
  }

  /** __rmqueue_smallest(), from the given order upwards */
  function RmqueueFrom(z: Zone, order: nat, current: nat): (r: Option<(Zone, nat)>)
    requires Sized(z) && order <= current <= MAX_ORDER
    ensures r.Some? ==> Sized(r.value.0) && r.value.0.valid == z.valid
    decreases MAX_ORDER - current
  {
    if current == MAX_ORDER then None
    else if z.freeList[current] == [] then RmqueueFrom(z, order, current + 1)
    else
      var p := z.freeList[current][0];
      Some((Expand(Delete(z, p, current), p, order, current), p))
  }

  function Rmqueue(z: Zone, order: nat): (r: Option<(Zone, nat)>)
    requires Sized(z)
    ensures r.Some? ==> Sized(r.value.0) && r.value.0.valid == z.valid
  {
    if order >= MAX_ORDER then None else RmqueueFrom(z, order, order)
  }

  /** page_is_buddy() behind pfn_valid_within() */
  predicate IsBuddy(z: Zone, b: nat, o: nat) {
    b in z.valid && b in z.order && z.order[b] == o
  }

  /** The merging loop of __free_one_page(). */
  function Merge(z: Zone, p: nat, o: nat): (r: (Zone, nat, nat))
    requires Sized(z) && o < MAX_ORDER
    ensures Sized(r.0) && r.0.valid == z.valid && o <= r.2 < MAX_ORDER
    decreases MAX_ORDER - o
  {
    var b := FindBuddy(p, o);
    if o < MAX_ORDER - 1 && IsBuddy(z, b, o) then Merge(Delete(z, b, o), BitAnd(b, p), o + 1)
    else (z, p, o)
  }

  /** Is the next larger block likely to become free soon? */
  predicate NearlyWhole(z: Zone, p: nat, o: nat) {
    var b := FindBuddy(p, o);
    o < MAX_ORDER - 2 && b in z.valid && IsBuddy(z, FindBuddy(BitAnd(b, p), o + 1), o + 1)
  }

  function FreeOne(z: Zone, p: nat, o: nat): (r: Zone)
    requires Sized(z) && o < MAX_ORDER
    ensures Sized(r) && r.valid == z.valid
  {
    var (z', p', o') := Merge(z, p, o);
    if NearlyWhole(z', p', o') then AddTail(z', p', o') else AddHead(z', p', o')
  }

  // ---------- lists

  lemma {:induction false} WithoutMember(s: seq<nat>, x: nat)
    requires NoDup(s) && x in s
    ensures NoDup(Without(s, x)) && |Without(s, x)| == |s| - 1
    ensures forall y :: y in Without(s, x) <==> y in s && y != x
  {
    assert s == [s[0]] + s[1..];
    if s[0] != x {
      WithoutMember(s[1..], x);
      var w := Without(s[1..], x);
      assert s[0] !in w;
    }
  }

  lemma AddedAgree(z: Zone, z': Zone, p: nat, o: nat)
    requires ListsAgree(z) && o < MAX_ORDER && p !in z.order
    requires z' == AddHead(z, p, o) || z' == AddTail(z, p, o)
    ensures ListsAgree(z')
  {
    forall l, q | 0 <= l < MAX_ORDER ensures q in z'.freeList[l] <==> q in z'.order && z'.order[q] == l {
      assert p !in z.freeList[l];
    }
  }

  lemma DeletedAgree(z: Zone, p: nat, o: nat)
    requires ListsAgree(z) && o < MAX_ORDER && p in z.order && z.order[p] == o
    ensures ListsAgree(Delete(z, p, o))
  {
    WithoutMember(z.freeList[o], p);
    var z' := Delete(z, p, o);
    forall l, q | 0 <= l < MAX_ORDER ensures q in z'.freeList[l] <==> q in z'.order && z'.order[q] == l {
      assert q in z.freeList[l] <==> q in z.order && z.order[q] == l;
    }
  }

  ghost predicate ZoneOk(z: Zone) {
    WellFormed(z.order) && ListsAgree(z)
  }

  ghost predicate Handed(z: Zone, p: nat, o: nat) {
    InHand(z.order, p, o) && ListsAgree(z)
  }

  /** The free pages of a, and of the block (p, o), are the free pages of z. */
  ghost predicate Parts(z: Zone, a: Zone, p: nat, o: nat) {
    forall x: nat :: Free(z.order, x) <==> Free(a.order, x) || In(p, o, x)
  }

  lemma {:induction false} ExpandSplits(z: Zone, p: nat, low: nat, high: nat)
    requires Handed(z, p, high) && low <= high
    ensures Handed(Expand(z, p, low, high), p, low)
    ensures forall x: nat :: (Free(z.order, x) || In(p, high, x)) <==>
                             (Free(Expand(z, p, low, high).order, x) || In(p, low, x))
    decreases high
  {
    if high > low {
      var h := p + Pow2(high - 1);
      SplitOff(z.order, p, high);
      var z1 := AddHead(z, h, high - 1);
      AddedAgree(z, z1, h, high - 1);
      assert forall x :: In(p, high, x) <==> In(p, high - 1, x) || In(h, high - 1, x);
      ExpandSplits(z1, p, low, high - 1);
    }
  }

  lemma {:induction false} RmqueueFromTakes(z: Zone, order: nat, current: nat)
    requires ZoneOk(z) && order <= current <= MAX_ORDER
    ensures var r := RmqueueFrom(z, order, current);
            && (r.None? <==> forall p | p in z.order :: z.order[p] < current || z.order[p] >= MAX_ORDER)
            && (r.Some? ==> Handed(r.value.0, r.value.1, order) && Parts(z, r.value.0, r.value.1, order))
    decreases MAX_ORDER - current
  {
    if current < MAX_ORDER {
      if z.freeList[current] == [] {
        RmqueueFromTakes(z, order, current + 1);
      } else {
        var p := z.freeList[current][0];
        assert p in z.freeList[current];
        TakeOut(z.order, p);
        DeletedAgree(z, p, current);
        ExpandSplits(Delete(z, p, current), p, order, current);
      }
    }
  }

  /** __rmqueue_smallest(): what it returns was entirely free and is not any more, all
      other free pages stay free, the zone stays in canonical form, and it fails
      exactly when no free block is large enough. */
  lemma RmqueueTakes(z: Zone, order: nat)
    requires ZoneOk(z)
    ensures var r := Rmqueue(z, order);
            && (r.None? <==> forall p | p in z.order :: z.order[p] < order)
            && (r.Some? ==> ZoneOk(r.value.0) && Handed(r.value.0, r.value.1, order) && Parts(z, r.value.0, r.value.1, order))
  {
    if order < MAX_ORDER {
      RmqueueFromTakes(z, order, order);
    }
  }

  lemma {:induction false} MergeAbsorbs(z: Zone, p: nat, o: nat)
    requires Handed(z, p, o) && (forall q | q in z.order :: q in z.valid)
    ensures var (z', p', o') := Merge(z, p, o);
            && Handed(z', p', o') && (o' < MAX_ORDER - 1 ==> !BuddyFree(z'.order, p', o'))
            && forall x: nat :: (Free(z.order, x) || In(p, o, x)) <==> (Free(z'.order, x) || In(p', o', x))
    decreases MAX_ORDER - o
  {
    var b := FindBuddy(p, o);
    if o < MAX_ORDER - 1 && IsBuddy(z, b, o) {
      MergeIn(z.order, p, o);
      DeletedAgree(z, b, o);
      MergeAbsorbs(Delete(z, b, o), BitAnd(b, p), o + 1);
    }
  }

  /** __free_one_page(): exactly the given block becomes free, in canonical form. */
  lemma FreeOneGives(z: Zone, p: nat, o: nat)
    requires Handed(z, p, o) && (forall q | q in z.order :: q in z.valid)
    ensures ZoneOk(FreeOne(z, p, o)) && Parts(FreeOne(z, p, o), z, p, o)
  {
    var (z', p', o') := Merge(z, p, o);
    MergeAbsorbs(z, p, o);
    PutIn(z'.order, p', o');
    AddedAgree(z', FreeOne(z, p, o), p', o');
  }

  /** Freeing what was just allocated restores the very same set of free blocks, however
      much splitting the allocation caused. */
  lemma FreeUndoesAlloc(z: Zone, order: nat)
    requires ZoneOk(z) && (forall x | Free(z.order, x) :: x in z.valid)
    requires Rmqueue(z, order).Some?
    ensures var (z1, p) := Rmqueue(z, order).value;
            order < MAX_ORDER && FreeOne(z1, p, order).order == z.order
  {
    RmqueueTakes(z, order);
    var (z1, p) := Rmqueue(z, order).value;
    forall q | q in z1.order ensures q in z1.valid {
      assert In(q, z1.order[q], q);
      assert Free(z1.order, q);
    }
    FreeOneGives(z1, p, order);
    Canonical(FreeOne(z1, p, order).order, z.order);
  }
}
