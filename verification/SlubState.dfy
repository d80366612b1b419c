/** The state of one slab cache: its slab pages, the cpus' slabs and the nodes' partial lists. */
module SlubState {
  import opened Options

  /** A slab page: its objects, the page freelist, and the counters word. */
  datatype Page = Page(objs: set<int>, free: seq<int>, inuse: int, frozen: bool, node: nat)

  /** struct kmem_cache_cpu: the slab the cpu allocates from and its lockless freelist. */
  datatype Cpu = Cpu(page: Option<int>, free: seq<int>)

  /** live is the set of objects handed out and not freed yet. */
  datatype State = State(pages: map<int, Page>, cpus: seq<Cpu>, partial: seq<seq<int>>, live: set<int>)

  // ---------- lists of objects

  ghost predicate Distinct(s: seq<int>) {
    forall i, j | 0 <= i < j < |s| :: s[i] != s[j]
  }

  ghost function Elems(s: seq<int>): set<int> {
    set x | x in s
  }

  ghost predicate Disjoint(a: seq<int>, b: seq<int>) {
    forall x | x in a :: x !in b
  }

  lemma {:induction false} DistinctSize(s: seq<int>)
    requires Distinct(s)
    ensures |Elems(s)| == |s|
  {
    if s != [] {
      var last := s[|s| - 1];
      var rest := s[..|s| - 1];
      DistinctSize(rest);
      assert Elems(s) == Elems(rest) + {last};
      assert last !in rest;
    }
  }

  lemma SubsetSize(a: set<int>, b: set<int>)
    requires a <= b
    ensures |a| <= |b| && (|a| == |b| ==> a == b)
  {
    assert b == a + (b - a) && a * (b - a) == {};
    assert |b| == |a| + |b - a|;
  }

  lemma DistinctAppend(a: seq<int>, b: seq<int>)
    requires Distinct(a) && Distinct(b) && Disjoint(a, b)
    ensures Distinct(a + b) && forall x :: x in a + b <==> x in a || x in b
  {
    var s := a + b;
    forall i, j | 0 <= i < j < |s| ensures s[i] != s[j] {
      if i < |a| <= j {
        assert a[i] in a && b[j - |a|] in b;
      }
    }
  }

  /** The objects of a freelist pushed one by one onto another. */
  function Reversed(s: seq<int>): (r: seq<int>)
    ensures |r| == |s|
  {
    if s == [] then [] else Reversed(s[1..]) + [s[0]]
  }

  lemma {:induction false} ReversedSame(s: seq<int>)
    ensures (forall x :: x in Reversed(s) <==> x in s) && (Distinct(s) ==> Distinct(Reversed(s)))
  {
    if s != [] {
      ReversedSame(s[1..]);
      assert s == [s[0]] + s[1..];
      if Distinct(s) {
        assert Distinct(s[1..]);
        assert s[0] !in s[1..];
        DistinctAppend(Reversed(s[1..]), [s[0]]);
      }
    }
  }

  // ---------- the invariant

  predicate Holds(cpus: seq<Cpu>, c: nat, p: int) {
    c < |cpus| && cpus[c].page == Some(p)
  }

  /** Object o is on the freelist of a cpu that allocates from page p. */
  ghost predicate InCpu(cpus: seq<Cpu>, p: int, o: int) {
    exists c: nat :: Holds(cpus, c, p) && o in cpus[c].free
  }

  /** The page's own record: inuse counts what is not on the page freelist. */
  ghost predicate RecordOk(g: Page) {
    Distinct(g.free) && (forall o | o in g.free :: o in g.objs) && g.inuse == |g.objs| - |g.free|
  }

  /** Each object is on the page freelist, on a cpu freelist, or allocated; which of the last two
      excludes the first is said by CpuOk. */
  ghost predicate ObjectsOk(s: State, p: int)
    requires p in s.pages
  {
    forall o | o in s.pages[p].objs :: o in s.live <==> o !in s.pages[p].free && !InCpu(s.cpus, p, o)
  }

  /** On the partial list of its node exactly when unfrozen with free objects. */
  ghost predicate ListedOk(s: State, p: int)
    requires p in s.pages
  {
    var g := s.pages[p];
    g.node < |s.partial| &&
    forall n: nat | n < |s.partial| :: p in s.partial[n] <==> n == g.node && !g.frozen && g.free != []
  }

  /** Frozen exactly when some cpu allocates from it. */
  ghost predicate FrozenOk(s: State, p: int)
    requires p in s.pages
  {
    s.pages[p].frozen <==> exists c: nat :: Holds(s.cpus, c, p)
  }

  ghost predicate PageOk(s: State, p: int)
    requires p in s.pages
  {
    RecordOk(s.pages[p]) && ObjectsOk(s, p) && ListedOk(s, p) && FrozenOk(s, p)
  }

  ghost predicate CpuOk(s: State, c: nat)
    requires c < |s.cpus|
  {
    match s.cpus[c].page
    case None => s.cpus[c].free == []
    case Some(p) =>
      && p in s.pages && Distinct(s.cpus[c].free) && (forall o | o in s.cpus[c].free :: o in s.pages[p].objs)
      && Disjoint(s.cpus[c].free, s.pages[p].free)
      && forall d: nat | d != c :: !Holds(s.cpus, d, p)
  }

  /** No two pages share an object. */
  ghost predicate PagesApart(s: State) {
    forall p, q | p in s.pages && q in s.pages && p != q :: s.pages[p].objs !! s.pages[q].objs
  }

  /** Partial lists name pages once; allocated objects belong to pages that still exist. */
  ghost predicate ListsOk(s: State) {
    && (forall n: nat | n < |s.partial| :: Distinct(s.partial[n]) && forall p | p in s.partial[n] :: p in s.pages)
    && forall o | o in s.live :: exists p :: p in s.pages && o in s.pages[p].objs
  }

  ghost predicate Inv(s: State) {
    && PagesApart(s) && ListsOk(s)
    && (forall p | p in s.pages :: PageOk(s, p))
    && (forall c: nat | c < |s.cpus| :: CpuOk(s, c))
  }

  /** The three places an object can be are exclusive, and there is no fourth. */
  lemma ExactlyOnePlace(s: State, p: int, o: int)
    requires Inv(s) && p in s.pages && o in s.pages[p].objs
    ensures var a, b, c := o in s.live, o in s.pages[p].free, InCpu(s.cpus, p, o);
            (a && !b && !c) || (!a && b && !c) || (!a && !b && c)
  {
    assert PageOk(s, p);
    if InCpu(s.cpus, p, o) {
      var c: nat :| Holds(s.cpus, c, p) && o in s.cpus[c].free;
      assert CpuOk(s, c);
    }
  }

  // ---------- frames

  /** Page q is as it was: same record, same cpus on it, same lists, same allocated objects. */
  ghost predicate SamePage(s: State, s': State, q: int)
    requires q in s.pages
  {
    && q in s'.pages && s'.pages[q] == s.pages[q] && |s'.partial| == |s.partial| && |s'.cpus| == |s.cpus|
    && (forall o | o in s.pages[q].objs :: o in s'.live <==> o in s.live)
    && (forall n: nat | n < |s.partial| :: q in s'.partial[n] <==> q in s.partial[n])
    && (forall c: nat | c < |s.cpus| :: (Holds(s.cpus, c, q) || Holds(s'.cpus, c, q)) ==> s'.cpus[c] == s.cpus[c])
  }

  lemma PageKept(s: State, s': State, q: int)
    requires q in s.pages && PageOk(s, q) && SamePage(s, s', q)
    ensures PageOk(s', q)
  {
    hide RecordOk;
    forall o ensures InCpu(s'.cpus, q, o) <==> InCpu(s.cpus, q, o) {
      if InCpu(s.cpus, q, o) {
        var c: nat :| Holds(s.cpus, c, q) && o in s.cpus[c].free;
        assert Holds(s'.cpus, c, q);
      }
      if InCpu(s'.cpus, q, o) {
        var c: nat :| Holds(s'.cpus, c, q) && o in s'.cpus[c].free;
        assert Holds(s.cpus, c, q);
      }
    }
    if exists c: nat :: Holds(s.cpus, c, q) {
      var c: nat :| Holds(s.cpus, c, q);
      assert Holds(s'.cpus, c, q);
    }
    if exists c: nat :: Holds(s'.cpus, c, q) {
      var c: nat :| Holds(s'.cpus, c, q);
      assert Holds(s.cpus, c, q);
    }
  }

  /** Only page p and cpu c were touched. */
  ghost predicate Touches(s: State, s': State, p: int, c: nat) {
    && |s'.cpus| == |s.cpus| && (forall q | q in s'.pages :: q in s.pages || q == p)
    && (forall q | q in s.pages && q != p :: SamePage(s, s', q))
    && (forall d: nat | d < |s.cpus| && d != c :: s'.cpus[d] == s.cpus[d] && s.cpus[d].page != Some(p))
    && (c < |s.cpus| ==> s'.cpus[c].page == None || s'.cpus[c].page == Some(p))
  }

  lemma CpuKept(s: State, s': State, p: int, c: nat, d: nat)
    requires Inv(s) && Touches(s, s', p, c) && d < |s.cpus| && d != c
    ensures CpuOk(s', d)
  {
    assert CpuOk(s, d);
    if s.cpus[d].page.Some? {
      var q := s.cpus[d].page.value;
      assert SamePage(s, s', q);
      forall e: nat | e != d ensures !Holds(s'.cpus, e, q) {
        assert !Holds(s.cpus, e, q);
      }
    }
  }

  /** An operation that keeps page p and cpu c in order keeps everything in order. */
  lemma InvKept(s: State, s': State, p: int, c: nat)
    requires Inv(s) && Touches(s, s', p, c) && PagesApart(s') && ListsOk(s')
    requires p in s'.pages ==> PageOk(s', p)
    requires c < |s.cpus| ==> CpuOk(s', c)
    ensures Inv(s')
  {
    forall q | q in s'.pages ensures PageOk(s', q) {
      if q != p { PageKept(s, s', q); }
    }
    forall d: nat | d < |s'.cpus| ensures CpuOk(s', d) {
      if d != c { CpuKept(s, s', p, c, d); }
    }
  }
}
