/** The zone as mm/page_alloc.c runs it: lists, counters and page flags changed in
    place by the splitting and merging loops. */
module BuddyProgram {
  import Z = BuddyZone
  import S = BuddySystem
  import opened Numbers
  import opened Options
  import opened BuddyMath
  import opened BuddyBlocks

  class Zone {
    const valid: set<nat>
    var freeList: seq<seq<nat>>
    var nrFree: seq<nat>
    var order: map<nat, nat>  // PageBuddy pages and their page_private

    ghost predicate Valid()
      reads this
    {
      |freeList| == MAX_ORDER && |nrFree| == MAX_ORDER
    }

    ghost function Value(): Z.Zone
      reads this
    {
      Z.Zone(valid, freeList, nrFree, order)
    }

    /** free_area_init(): every list empty. */
    constructor (valid: set<nat>)
      ensures Valid() && this.valid == valid && order == map[]
      ensures Z.ZoneOk(Value())
    {
      this.valid := valid;
      freeList := seq(MAX_ORDER, _ => []);
      nrFree := seq(MAX_ORDER, _ => 0);
      order := map[];
    }

    method ListAdd(p: nat, o: nat)
      requires Valid() && o < MAX_ORDER
      modifies this
      ensures Valid() && Value() == Z.AddHead(old(Value()), p, o)
    {
      freeList := freeList[o := [p] + freeList[o]];
      nrFree := nrFree[o := nrFree[o] + 1];
      order := order[p := o];
    }

    method ListAddTail(p: nat, o: nat)
      requires Valid() && o < MAX_ORDER
      modifies this
      ensures Valid() && Value() == Z.AddTail(old(Value()), p, o)
    {
      freeList := freeList[o := freeList[o] + [p]];
      nrFree := nrFree[o := nrFree[o] + 1];
      order := order[p := o];
    }

    method ListDel(p: nat, o: nat)
      requires Valid() && o < MAX_ORDER
      modifies this
      ensures Valid() && Value() == Z.Delete(old(Value()), p, o)
    {
      freeList := freeList[o := Z.Without(freeList[o], p)];
      nrFree := nrFree[o := Z.Dec(nrFree[o])];
      order := order - {p};
    }

    method Expand(p: nat, low: nat, high: nat)
      requires Valid() && low <= high < MAX_ORDER
      modifies this
      ensures Valid() && Value() == Z.Expand(old(Value()), p, low, high)
    {
      var h, size := high, Pow2(high);
      while h > low
        invariant low <= h <= high && size == Pow2(h) && Valid()
        invariant Z.Expand(Value(), p, low, h) == Z.Expand(old(Value()), p, low, high)
      {
        h := h - 1;
        size := size / 2;
        ListAdd(p + size, h);
      }
    }

    /** __rmqueue_smallest() */
    method RmqueueSmallest(order: nat) returns (page: Option<nat>)
      requires Valid() && order < MAX_ORDER
      modifies this
      ensures Valid()
      ensures var r := Z.Rmqueue(old(Value()), order);
              if r.None? then page.None? && Value() == old(Value())
              else page == Some(r.value.1) && Value() == r.value.0
    {
      var current := order;
      while current < MAX_ORDER
        invariant order <= current <= MAX_ORDER && Valid() && Value() == old(Value())
        invariant Z.RmqueueFrom(Value(), order, current) == Z.Rmqueue(old(Value()), order)
      {
        if freeList[current] != [] {
          var p := freeList[current][0];
          ListDel(p, current);
          Expand(p, order, current);
          return Some(p);
        }
        current := current + 1;
      }
      page := None;
    }

    /** __free_one_page() */
    method FreeOnePage(pfn: nat, o: nat)
      requires Valid() && o < MAX_ORDER
      modifies this
      ensures Valid() && Value() == Z.FreeOne(old(Value()), pfn, o)
    {
      hide BitAnd, FindBuddy, Z.Delete, Z.AddHead, Z.AddTail;
      var p, l := pfn, o;
      var buddy := FindBuddy(p, l);
      while l < MAX_ORDER - 1
        invariant o <= l < MAX_ORDER && Valid() && buddy == FindBuddy(p, l)
        invariant Z.Merge(Value(), p, l) == Z.Merge(old(Value()), pfn, o)
      {
        if buddy !in valid || buddy !in order || order[buddy] != l { break; }
        ListDel(buddy, l);
        p := BitAnd(buddy, p);
        l := l + 1;
        buddy := FindBuddy(p, l);
      }
      assert Z.Merge(Value(), p, l) == (Value(), p, l);
      if l < MAX_ORDER - 2 && buddy in valid {
        var combined := BitAnd(buddy, p);
        var higher := FindBuddy(combined, l + 1);
        if higher in valid && higher in order && order[higher] == l + 1 {
          ListAddTail(p, l);
          return;
        }
      }
      ListAdd(p, l);
    }

    /** rmqueue_bulk() for single pages */
    method RmqueueBulk(n: nat, list: seq<nat>, bad: nat -> bool) returns (out: seq<nat>, dropped: set<nat>)
      requires Valid()
      modifies this
      ensures Valid() && (Value(), out, dropped) == S.RmqueueBulk(old(Value()), n, list, bad)
    {
      out, dropped := list, {};
      var i := 0;
      assert S.RmqueueBulk(Value(), n, list, bad).2 + {} == S.RmqueueBulk(Value(), n, list, bad).2;
      while i < n
        invariant 0 <= i <= n && Valid()
        invariant var r := S.RmqueueBulk(Value(), n - i, out, bad);
                  S.RmqueueBulk(old(Value()), n, list, bad) == (r.0, r.1, r.2 + dropped)
      {
        var page := RmqueueSmallest(0);
        if page.None? {
          assert {} + dropped == dropped;
          return;
        }
        if bad(page.value) {
          ghost var r := S.RmqueueBulk(Value(), n - i - 1, out, bad);
          assert r.2 + {page.value} + dropped == r.2 + (dropped + {page.value});
          dropped := dropped + {page.value};
        } else {
          out := out + [page.value];
        }
        i := i + 1;
      }
      assert {} + dropped == dropped;
    }

    /** free_pcppages_bulk(): bad pages are dropped, the others freed in the order they
        left the list. */
    method FreePcppagesBulk(list: seq<nat>, count: nat, bad: nat -> bool) returns (rest: seq<nat>)
      requires Valid() && count <= |list|
      modifies this
      ensures Valid() && rest == list[..|list| - count]
      ensures Value() == S.FreeAll(old(Value()), S.Reversed(list[|list| - count..]), bad)
    {
      var head;
      rest, head := DrainTail(list, count);
      var k := 0;
      assert head[0..] == head;
      while k < |head|
        invariant 0 <= k <= |head| && Valid()
        invariant S.FreeAll(Value(), head[k..], bad) == S.FreeAll(old(Value()), head, bad)
      {
        if !bad(head[k]) {
          FreeOnePage(head[k], 0);
        }
        assert head[k..][1..] == head[k + 1..];
        k := k + 1;
      }
    }
  }

  /** Pages leave a CPU's list at its tail, batchFree of them per round. The outer loop
      ends because the list holds at least count pages. */
  method DrainTail(list: seq<nat>, count: nat) returns (rest: seq<nat>, head: seq<nat>)
    requires count <= |list|
    ensures rest == list[..|list| - count] && head == S.Reversed(list[|list| - count..])
  {
    var todo, batchFree := count, 0;
    rest, head := list, [];
    while todo > 0
      invariant 0 <= todo <= count && 0 <= batchFree && |rest| == |list| - count + todo && rest == list[..|rest|]
      invariant head == S.Reversed(list[|rest|..])
    {
      batchFree := batchFree + 1;
      while true
        invariant 0 < todo <= count && 0 < batchFree && |rest| == |list| - count + todo && rest == list[..|rest|]
        invariant head == S.Reversed(list[|rest|..])
        decreases todo
      {
        var p := rest[|rest| - 1];
        S.ReversedCons(list[|rest|..], p);
        assert list[|rest| - 1..] == [p] + list[|rest|..];
        head := head + [p];
        rest := rest[..|rest| - 1];
        todo := todo - 1;
        if todo == 0 { break; }
        batchFree := batchFree - 1;
        if batchFree == 0 || rest == [] { break; }
      }
    }
  }

  // ---------- when that loop ends

  /** The loop between two looks at the list: pages still to take, pages on the list, and whether it is taking. */
  datatype Drain = Drain(todo: nat, batchFree: int, left: nat, taking: bool)

  function DrainStep(s: Drain): Drain {
    if s.todo == 0 then s
    else if !s.taking || s.left == 0 then s.(batchFree := s.batchFree + 1, taking := s.left > 0)
    else
      var todo, left := s.todo - 1, s.left - 1;
      var batchFree := if todo == 0 then s.batchFree else s.batchFree - 1;
      Drain(todo, batchFree, left, todo > 0 && batchFree != 0 && left > 0)
  }

  function After(s: Drain, k: nat): Drain
    decreases k
  {
    if k == 0 then s else After(DrainStep(s), k - 1)
  }

  lemma {:induction false} DrainKeeps(s: Drain, k: nat)
    ensures After(s, k).todo - After(s, k).left == s.todo - s.left
    decreases k
  {
    if k > 0 { DrainKeeps(DrainStep(s), k - 1); }
  }

  lemma {:induction false} DrainGetsThere(s: Drain) returns (k: nat)
    requires s.todo <= s.left
    ensures After(s, k).todo == 0
    decreases s.todo, !s.taking
  {
    if s.todo == 0 {
      k := 0;
    } else {
      var rest := DrainGetsThere(DrainStep(s));
      k := rest + 1;
    }
  }

  /** It ends if and only if the list holds as many pages as are asked for; else it waits for ever. */
  lemma {:induction false} DrainEnds(count: nat, left: nat)
    ensures (exists k: nat :: After(Drain(count, 0, left, false), k).todo == 0) <==> count <= left
  {
    var s := Drain(count, 0, left, false);
    if count <= left {
      var k := DrainGetsThere(s);
    } else {
      forall k: nat ensures After(s, k).todo > 0 {
        DrainKeeps(s, k);
      }
    }
  }
}
