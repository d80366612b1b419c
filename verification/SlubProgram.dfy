/** mm/slub.c: the slow and fast paths of allocation and freeing on one cache. */
module SlubProgram {
  import opened Options
  import opened SlubState
  import opened SlubOps
  import opened SlubSteps

  /** What the page allocator will give if asked: a page, its objects in address order, its node. */
  datatype NewPages = NoMemory | Slab(p: int, objs: seq<int>, n: nat)

  ghost predicate Supplied(s: State, supply: NewPages) {
    supply.Slab? ==> FreshSlab(s, supply.p, supply.objs, supply.n)
  }

  /** s' has no page s had not, and each keeps its objects and node. */
  ghost predicate NoNewPages(s: State, s': State) {
    && |s'.partial| == |s.partial| && |s'.cpus| == |s.cpus|
    && forall q | q in s'.pages :: q in s.pages && s'.pages[q].objs == s.pages[q].objs
  }

  lemma StillFresh(s: State, s': State, supply: NewPages)
    requires Supplied(s, supply) && NoNewPages(s, s')
    ensures Supplied(s', supply)
  {
  }

  function SearchNode(node: Option<nat>, here: nat): nat {
    if node.Some? then node.value else here
  }

  /** An object can be had without a new slab: on the cpu's slab, if it is of the right node, or on a listed slab of
      the node. */
  predicate AtHand(s: State, c: nat, node: Option<nat>, here: nat)
    requires c < |s.cpus|
  {
    || (&& s.cpus[c].page.Some? && s.cpus[c].page.value in s.pages
        && (node.Some? ==> s.pages[s.cpus[c].page.value].node == node.value)
        && (s.cpus[c].free != [] || s.pages[s.cpus[c].page.value].free != []))
    || NodeList(s, SearchNode(node, here)) != []
  }

  class Cache {
    var pages: map<int, Page>
    var cpus: seq<Cpu>
    var partial: seq<seq<int>>
    /** The objects handed out. */
    ghost var live: set<int>
    const minPartial: nat

    ghost function S(): State
      reads this
    {
      State(pages, cpus, partial, live)
    }

    constructor (nCpus: nat, nNodes: nat, min: nat)
      ensures Inv(S()) && |cpus| == nCpus && |partial| == nNodes && live == {} && pages == map[] && minPartial == min
    {
      pages, live, minPartial := map[], {}, min;
      cpus := seq(nCpus, _ => Cpu(None, []));
      partial := seq(nNodes, _ => []);
    }

    /** deactivate_slab(), stage one: the cpu's free objects go back to the frozen page one at a time,
        all but the last. */
    method DrainFreelist(p: int, freelist: seq<int>) returns (rest: seq<int>)
      requires p in pages
      modifies this`pages
      ensures |rest| <= 1 && (freelist != [] ==> rest != [])
      ensures p in pages && pages == old(pages)[p := pages[p]]
      ensures pages[p] == old(pages)[p].(free := pages[p].free, inuse := pages[p].inuse)
      ensures Reversed(rest) + pages[p].free == Reversed(freelist) + old(pages)[p].free
      ensures pages[p].inuse - |rest| == old(pages)[p].inuse - |freelist|
    {
      rest := freelist;
      while |rest| > 1
        invariant freelist != [] ==> rest != []
        invariant p in pages && pages == old(pages)[p := pages[p]]
        invariant pages[p] == old(pages)[p].(free := pages[p].free, inuse := pages[p].inuse)
        invariant Reversed(rest) + pages[p].free == Reversed(freelist) + old(pages)[p].free
        invariant pages[p].inuse - |rest| == old(pages)[p].inuse - |freelist|
      {
        pages := pages[p := pages[p].(free := [rest[0]] + pages[p].free, inuse := pages[p].inuse - 1)];
        rest := rest[1..];
      }
    }

    /** deactivate_slab() with nobody else on the page: stage two puts the last object back, unfreezes
        the page and settles which list it is on. */
    method DeactivateSlab(c: nat)
      requires Inv(S()) && c < |cpus| && cpus[c].page.Some?
      modifies this`pages, this`cpus, this`partial
      ensures cpus == old(cpus)[c := Cpu(None, [])]
      ensures old(cpus)[c].page.value in old(pages) && S() == Deactivate(old(S()), c, minPartial) && Inv(S())
      ensures NoNewPages(old(S()), S())
    {
      DeactivateKeeps(S(), c, minPartial);
      DeactivatePages(S(), c, minPartial);
      OnOwnSlab(S(), c);
      NodeInRange(S(), cpus[c].page.value);
      hide Inv, Reversed, PageOk, CpuOk, Alone, NoNewPages, Returned;
      var p := cpus[c].page.value;
      var node := pages[p].node;
      var toTail := pages[p].free != [];
      assert pages[p].frozen;
      var freelist := DrainFreelist(p, cpus[c].free);
      var new_ := pages[p].(frozen := false);
      if freelist != [] {
        OneReversed(freelist);
        new_ := new_.(inuse := new_.inuse - 1, free := [freelist[0]] + new_.free);
      } else {
        NoneReversed();
      }
      assert new_.free == Reversed(cpus[c].free) + old(pages)[p].free;
      UpdateTwice(old(pages), p, pages[p], new_);
      ReturnedIs(old(S()), c, new_);
      if new_.inuse == 0 && |partial[node]| >= minPartial {
        pages := pages - {p};
      } else {
        if new_.free != [] {
          partial := partial[node := if toTail then partial[node] + [p] else [p] + partial[node]];
        }
        pages := pages[p := new_];
      }
      cpus := cpus[c := Cpu(None, [])];
    }

    /** get_partial_node(): the first listed page of the node, frozen and taken off the list. */
    method GetPartialNode(c: nat, n: nat) returns (found: bool)
      requires Inv(S()) && c < |cpus| && cpus[c].page.None?
      modifies this`pages, this`cpus, this`partial
      ensures found <==> NodeList(old(S()), n) != []
      ensures !found ==> S() == old(S())
      ensures found ==> Inv(S()) && |cpus| == |old(cpus)| && |partial| == |old(partial)| && cpus[c].page.Some? && cpus[c].free != []
      ensures found ==> NodeList(old(S()), n)[0] in old(pages) && S() == Acquire(old(S()), c, n)
    {
      if n >= |partial| || partial[n] == [] {
        return false;
      }
      AcquireKeeps(S(), c, n);
      var p := partial[n][0];
      assert !pages[p].frozen;
      var freelist := pages[p].free;
      pages := pages[p := pages[p].(free := [], inuse := |pages[p].objs|, frozen := true)];
      partial := partial[n := Without(partial[n], p)];
      cpus := cpus[c := Cpu(Some(p), freelist)];
      assert S() == Acquire(old(S()), c, n);
      found := true;
    }

    /** ___slab_alloc(): the cpu's freelist, the page's freelist, a partial slab, a new slab. */
    method SlabAlloc(c: nat, node: Option<nat>, here: nat, supply: NewPages) returns (obj: Option<int>)
      requires Inv(S()) && c < |cpus| && Supplied(S(), supply)
      modifies this
      ensures Inv(S()) && |cpus| == |old(cpus)| && |partial| == |old(partial)|
      ensures obj.Some? ==> obj.value !in old(live) && live == old(live) + {obj.value}
      ensures obj.None? <==> supply.NoMemory? && !AtHand(old(S()), c, node, here)
      ensures obj.None? ==> live == old(live)
      ensures AtHand(old(S()), c, node, here) ==> NoNewPages(old(S()), S())
    {
      hide Inv, Supplied, NoNewPages;
      if cpus[c].page.Some? {
        OnOwnSlab(S(), c);
        var p := cpus[c].page.value;
        if node.Some? && pages[p].node != node.value {
          DeactivateElsewhere(S(), c, minPartial, node.value);
          DeactivateSlab(c);
          StillFresh(old(S()), S(), supply);
        } else {
          SamePages(S(), S());
          if cpus[c].free == [] {
            RefillKeeps(S(), c);
            var freelist := pages[p].free;
            assert pages[p].frozen;
            pages := pages[p := pages[p].(free := [], inuse := |pages[p].objs|, frozen := freelist != [])];
            cpus := cpus[c := if freelist != [] then Cpu(Some(p), freelist) else Cpu(None, [])];
            assert S() == Refill(old(S()), c);
            RefillPages(old(S()), c);
            StillFresh(old(S()), S(), supply);
          }
          if cpus[c].free != [] {
            ghost var refilled := S();
            obj := LoadFreelist(c);
            SamePages(refilled, S());
            StillNoNew(old(S()), refilled, S());
            return;
          }
        }
      }
      ghost var mid := S();
      obj := NewSlabObjects(c, SearchNode(node, here), supply);
      StillNoNew(old(S()), mid, S());
    }

    /** new_slab_objects() and the object it leads to. */
    method NewSlabObjects(c: nat, searchNode: nat, supply: NewPages) returns (obj: Option<int>)
      requires Inv(S()) && c < |cpus| && Supplied(S(), supply) && cpus[c].page.None?
      modifies this
      ensures Inv(S()) && |cpus| == |old(cpus)| && |partial| == |old(partial)|
      ensures obj.Some? ==> obj.value !in old(live) && live == old(live) + {obj.value}
      ensures obj.None? <==> supply.NoMemory? && NodeList(old(S()), searchNode) == []
      ensures obj.None? ==> live == old(live)
      ensures NodeList(old(S()), searchNode) != [] ==> NoNewPages(old(S()), S())
    {
      hide Inv;
      var found := GetPartialNode(c, searchNode);
      if !found {
        match supply
        case NoMemory =>
          return None;
        case Slab(p, objs, n) =>
          NewSlabKeeps(S(), c, p, objs, n);
          pages := pages[p := Page(set o | o in objs, [], |objs|, true, n)];
          cpus := cpus[c := Cpu(Some(p), objs)];
          assert S() == NewSlab(old(S()), c, p, objs, n);
      }
      obj := LoadFreelist(c);
    }

    method LoadFreelist(c: nat) returns (obj: Option<int>)
      requires Inv(S()) && c < |cpus| && cpus[c].free != []
      modifies this`cpus, this`live
      ensures Inv(S()) && |cpus| == |old(cpus)|
      ensures obj == Some(old(cpus)[c].free[0]) && obj.value !in old(live) && live == old(live) + {obj.value}
    {
      PopKeeps(S(), c);
      obj := Some(cpus[c].free[0]);
      live := live + {cpus[c].free[0]};
      cpus := cpus[c := Cpu(cpus[c].page, cpus[c].free[1..])];
      assert S() == Pop(old(S()), c);
    }

    /** slab_alloc_node(): hands out an object that nobody has; fails exactly when none is at hand and
        there is no memory for a new slab. */
    method Alloc(c: nat, node: Option<nat>, here: nat, supply: NewPages) returns (obj: Option<int>)
      requires Inv(S()) && c < |cpus| && Supplied(S(), supply)
      modifies this
      ensures Inv(S()) && |cpus| == |old(cpus)| && |partial| == |old(partial)|
      ensures obj.Some? ==> obj.value !in old(live) && live == old(live) + {obj.value}
      ensures obj.None? <==> supply.NoMemory? && !AtHand(old(S()), c, node, here)
      ensures obj.None? ==> live == old(live)
      ensures AtHand(old(S()), c, node, here) ==> NoNewPages(old(S()), S())
    {
      hide Inv, Supplied;
      if cpus[c].free != [] {
        OwnPage(S(), c);
      }
      if cpus[c].free == [] || (node.Some? && pages[cpus[c].page.value].node != node.value) {
        obj := SlabAlloc(c, node, here, supply);
      } else {
        obj := LoadFreelist(c);
      }
    }

    /** do_slab_free(): objs, all of page p, are given back. */
    method Free(c: nat, p: int, objs: seq<int>)
      requires Inv(S()) && c < |cpus| && Returns(S(), p, objs)
      modifies this
      ensures Inv(S()) && |cpus| == |old(cpus)| && |partial| == |old(partial)|
      ensures live == old(live) - (set o | o in objs) && NoNewPages(old(S()), S())
    {
      hide Inv;
      if cpus[c].page == Some(p) {
        PushCpuKeeps(S(), c, objs);
        cpus := cpus[c := Cpu(cpus[c].page, objs + cpus[c].free)];
        live := live - set o | o in objs;
        assert S() == PushCpu(old(S()), c, objs);
      } else {
        SlabFree(p, objs);
      }
    }

    /** __slab_free() */
    method SlabFree(p: int, objs: seq<int>)
      requires Inv(S()) && Returns(S(), p, objs)
      modifies this`pages, this`partial, this`live
      ensures S() == PushPage(old(S()), p, objs, minPartial) && Inv(S()) && NoNewPages(old(S()), S())
    {
      PushPages(S(), p, objs, minPartial);
      PushPageKeeps(S(), p, objs, minPartial);
      NodeInRange(S(), p);
      hide Inv;
      var prior := pages[p].free;
      var node := pages[p].node;
      var new_ := pages[p].(free := objs + prior, inuse := pages[p].inuse - |objs|);
      pages := pages[p := new_];
      live := live - set o | o in objs;
      if (new_.inuse == 0 || prior == []) && !new_.frozen {
        if new_.inuse == 0 && |partial[node]| >= minPartial {
          if prior != [] {
            partial := partial[node := Without(partial[node], p)];
          }
          pages := pages - {p};
          assert pages == old(pages) - {p};
        } else if prior == [] {
          partial := partial[node := partial[node] + [p]];
        }
      }
    }

    /** __flush_cpu_slab() */
    method FlushCpuSlab(c: nat)
      requires Inv(S()) && c < |cpus|
      modifies this`pages, this`cpus, this`partial
      ensures Inv(S()) && cpus[..] == old(cpus)[c := Cpu(None, [])]
      ensures old(cpus)[c].page.None? ==> S() == old(S())
      ensures old(cpus)[c].page.Some? ==> old(cpus)[c].page.value in old(pages) && S() == Deactivate(old(S()), c, minPartial)
    {
      if cpus[c].page.Some? {
        DeactivateSlab(c);
      } else {
        assert CpuOk(S(), c);
        assert cpus == cpus[c := Cpu(None, [])];
      }
    }
  }

  lemma StillNoNew(s: State, mid: State, s': State)
    requires NoNewPages(s, mid)
    ensures NoNewPages(mid, s') ==> NoNewPages(s, s')
  {
  }

  lemma DeactivateElsewhere(s: State, c: nat, minPartial: nat, n: nat)
    requires c < |s.cpus| && s.cpus[c].page.Some? && s.cpus[c].page.value in s.pages
    requires s.pages[s.cpus[c].page.value].node != n
    ensures NodeList(Deactivate(s, c, minPartial), n) == NodeList(s, n)
  {
    hide Reversed;
  }

  lemma SamePages(s: State, s': State)
    requires s'.pages == s.pages && s'.partial == s.partial && |s'.cpus| == |s.cpus|
    ensures NoNewPages(s, s')
  {
  }

  lemma RefillPages(s: State, c: nat)
    requires c < |s.cpus| && s.cpus[c].page.Some? && s.cpus[c].page.value in s.pages
    ensures NoNewPages(s, Refill(s, c))
  {
  }

  lemma OwnPage(s: State, c: nat)
    requires Inv(s) && c < |s.cpus| && s.cpus[c].free != []
    ensures s.cpus[c].page.Some? && s.cpus[c].page.value in s.pages
  {
    assert CpuOk(s, c);
  }

  lemma NodeInRange(s: State, p: int)
    requires Inv(s) && p in s.pages
    ensures s.pages[p].node < |s.partial|
  {
    assert PageOk(s, p);
  }

  lemma DeactivatePages(s: State, c: nat, minPartial: nat)
    requires c < |s.cpus| && s.cpus[c].page.Some? && s.cpus[c].page.value in s.pages
    ensures NoNewPages(s, Deactivate(s, c, minPartial))
  {
    hide Reversed;
  }

  lemma {:induction false} OneReversed(l: seq<int>)
    requires |l| == 1
    ensures Reversed(l) == [l[0]]
  {
  }

  lemma NoneReversed()
    ensures Reversed([]) == []
  {
  }

  lemma UpdateTwice(m: map<int, Page>, p: int, x: Page, y: Page)
    ensures m[p := x][p := y] == m[p := y] && m[p := x] - {p} == m - {p}
  {
  }

  lemma ReturnedIs(s: State, c: nat, g: Page)
    requires c < |s.cpus| && s.cpus[c].page.Some? && s.cpus[c].page.value in s.pages
    requires g == s.pages[s.cpus[c].page.value].(free := g.free, inuse := g.inuse, frozen := false)
    requires g.free == Reversed(s.cpus[c].free) + s.pages[s.cpus[c].page.value].free
    requires g.inuse == s.pages[s.cpus[c].page.value].inuse - |s.cpus[c].free|
    ensures g == Returned(s, c)
  {
    hide Reversed;
  }

  lemma PushPages(s: State, p: int, objs: seq<int>, minPartial: nat)
    requires p in s.pages
    ensures NoNewPages(s, PushPage(s, p, objs, minPartial))
  {
    hide Without;
  }
}
