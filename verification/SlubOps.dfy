/** The slab operations as steps of the whole cache, each keeping every object in exactly one place. */
module SlubOps {
  import opened Options
  import opened SlubState

  // ---------- one step, on one page and at most one cpu

  /** The cpu that may be on page p: cpu c, or none when c is not a cpu. */
  ghost predicate Alone(s: State, p: int, c: nat) {
    && (forall d: nat | d != c :: !Holds(s.cpus, d, p))
    && (c < |s.cpus| ==> s.cpus[c].page == None || s.cpus[c].page == Some(p))
  }

  /** The partial lists change in where they name p only. */
  ghost predicate ListMove(s: State, s': State, p: int) {
    && |s'.partial| == |s.partial|
    && (forall n: nat | n < |s.partial| :: Distinct(s'.partial[n]))
    && forall n: nat, q | n < |s.partial| && q != p :: q in s'.partial[n] <==> q in s.partial[n]
  }

  /** Page p and cpu c in the new state, by themselves. */
  ghost predicate NewPart(s': State, p: int, c: nat) {
    && (c < |s'.cpus| ==> match s'.cpus[c].page
        case None => s'.cpus[c].free == []
        case Some(q) => && q == p && p in s'.pages && Distinct(s'.cpus[c].free) && Disjoint(s'.cpus[c].free, s'.pages[p].free)
                        && forall o | o in s'.cpus[c].free :: o in s'.pages[p].objs)
    && (p in s'.pages ==>
          && RecordOk(s'.pages[p]) && ListedOk(s', p) && (s'.pages[p].frozen <==> c < |s'.cpus| && s'.cpus[c].page == Some(p))
          && forall o | o in s'.pages[p].objs ::
               o in s'.live <==> o !in s'.pages[p].free && !(c < |s'.cpus| && s'.cpus[c].page == Some(p) && o in s'.cpus[c].free))
    && (p !in s'.pages ==> forall n: nat | n < |s'.partial| :: p !in s'.partial[n])
  }

  /** The objects of page p, before or after. */
  ghost predicate IsObj(s: State, s': State, p: int, o: int) {
    (p in s.pages && o in s.pages[p].objs) || (p in s'.pages && o in s'.pages[p].objs)
  }

  /** Everything else stays: the other pages, the other cpus, the objects of other pages. */
  ghost predicate RestSame(s: State, s': State, p: int, c: nat) {
    && |s'.cpus| == |s.cpus| && (forall d: nat | d < |s.cpus| && d != c :: s'.cpus[d] == s.cpus[d])
    && (forall q | q != p :: q in s'.pages <==> q in s.pages)
    && (forall q | q in s.pages && q != p :: s'.pages[q] == s.pages[q])
    && (forall o | !IsObj(s, s', p, o) :: o in s'.live <==> o in s.live)
    && (p !in s'.pages && p in s.pages ==> forall o | o in s.pages[p].objs :: o !in s'.live)
    && (p in s.pages && p in s'.pages ==> s'.pages[p].objs == s.pages[p].objs)
    && (p !in s.pages && p in s'.pages ==> forall q | q in s.pages :: s.pages[q].objs !! s'.pages[p].objs)
  }

  lemma RestTouches(s: State, s': State, p: int, c: nat)
    requires Inv(s) && Alone(s, p, c) && ListMove(s, s', p) && RestSame(s, s', p, c) && NewPart(s', p, c)
    ensures Touches(s, s', p, c)
  {
    forall q | q in s.pages && q != p ensures SamePage(s, s', q) {
      forall o | o in s.pages[q].objs ensures o in s'.live <==> o in s.live {
        assert !IsObj(s, s', p, o);
      }
    }
    forall d: nat | d < |s.cpus| && d != c ensures s.cpus[d].page != Some(p) {
      assert !Holds(s.cpus, d, p);
    }
  }

  lemma RestLists(s: State, s': State, p: int, c: nat)
    requires Inv(s) && ListMove(s, s', p) && RestSame(s, s', p, c) && NewPart(s', p, c)
    ensures PagesApart(s') && ListsOk(s')
  {
    forall o | o in s'.live ensures exists q :: q in s'.pages && o in s'.pages[q].objs {
      if !IsObj(s, s', p, o) {
        var q :| q in s.pages && o in s.pages[q].objs;
        assert q in s'.pages;
      } else {
        assert p in s'.pages;
      }
    }
    forall n: nat, q | n < |s'.partial| && q in s'.partial[n] ensures q in s'.pages {
      if q != p { assert q in s.partial[n]; }
    }
  }

  lemma NewPage(s: State, s': State, p: int, c: nat)
    requires Alone(s, p, c) && RestSame(s, s', p, c) && NewPart(s', p, c)
    ensures p in s'.pages ==> PageOk(s', p)
    ensures c < |s'.cpus| ==> CpuOk(s', c)
  {
    hide RecordOk, ListedOk;
    forall d: nat | d != c ensures !Holds(s'.cpus, d, p) {
      assert !Holds(s.cpus, d, p);
    }
    if p in s'.pages {
      forall o ensures InCpu(s'.cpus, p, o) <==> c < |s'.cpus| && s'.cpus[c].page == Some(p) && o in s'.cpus[c].free {
        if c < |s'.cpus| && s'.cpus[c].page == Some(p) && o in s'.cpus[c].free {
          assert Holds(s'.cpus, c, p);
        }
      }
      assert s'.pages[p].frozen ==> Holds(s'.cpus, c, p);
    }
  }

  /** A step on page p and cpu c that leaves them in order leaves the cache in order. */
  lemma StepKeeps(s: State, s': State, p: int, c: nat)
    requires Inv(s) && Alone(s, p, c) && ListMove(s, s', p) && RestSame(s, s', p, c) && NewPart(s', p, c)
    ensures Inv(s')
  {
    RestTouches(s, s', p, c);
    RestLists(s, s', p, c);
    NewPage(s, s', p, c);
    hide Alone, ListMove, RestSame, NewPart, PageOk, CpuOk;
    InvKept(s, s', p, c);
  }

  /** The cpu's slab: its page is frozen, and the cpu is alone on it. */
  lemma OnOwnSlab(s: State, c: nat)
    requires Inv(s) && c < |s.cpus| && s.cpus[c].page.Some?
    ensures var p := s.cpus[c].page.value;
            && p in s.pages && s.pages[p].frozen && Alone(s, p, c) && CpuOk(s, c) && PageOk(s, p)
            && (forall o | o in s.pages[p].objs :: o in s.live <==> o !in s.pages[p].free && o !in s.cpus[c].free)
            && (forall n: nat | n < |s.partial| :: p !in s.partial[n])
  {
    var p := s.cpus[c].page.value;
    assert CpuOk(s, c);
    assert Holds(s.cpus, c, p);
    assert PageOk(s, p);
  }
}
