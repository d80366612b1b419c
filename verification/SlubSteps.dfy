/** What each slab operation does to the cache. */
module SlubSteps {
  import opened Options
  import opened SlubState
  import opened SlubOps

  /** list_del() */
  function Without(l: seq<int>, p: int): seq<int> {
    if l == [] then [] else if l[0] == p then l[1..] else [l[0]] + Without(l[1..], p)
  }

  lemma {:induction false} WithoutRemoves(l: seq<int>, p: int)
    requires Distinct(l)
    ensures Distinct(Without(l, p)) && forall q :: q in Without(l, p) <==> q in l && q != p
  {
    if l != [] {
      assert l == [l[0]] + l[1..];
      assert l[0] !in l[1..];
      if l[0] != p {
        WithoutRemoves(l[1..], p);
        DistinctAppend([l[0]], Without(l[1..], p));
      }
    }
  }

  function NodeList(s: State, n: nat): seq<int> {
    if n < |s.partial| then s.partial[n] else []
  }

  function SetList(s: State, n: nat, l: seq<int>): seq<seq<int>> {
    if n < |s.partial| then s.partial[n := l] else s.partial
  }

  // ---------- allocating from the cpu's slab

  /** load_freelist: take the first object of the cpu freelist. */
  function Pop(s: State, c: nat): State
    requires c < |s.cpus| && s.cpus[c].free != []
  {
    s.(cpus := s.cpus[c := Cpu(s.cpus[c].page, s.cpus[c].free[1..])], live := s.live + {s.cpus[c].free[0]})
  }

  lemma PopKeeps(s: State, c: nat)
    requires Inv(s) && c < |s.cpus| && s.cpus[c].free != []
    ensures s.cpus[c].free[0] !in s.live && Inv(Pop(s, c))
  {
    assert CpuOk(s, c);
    OnOwnSlab(s, c);
    var p := s.cpus[c].page.value;
    var f := s.cpus[c].free;
    assert f == [f[0]] + f[1..];
    assert f[0] !in f[1..] && f[0] in f;
    hide Inv;
    StepKeeps(s, Pop(s, c), p, c);
  }

  /** get_freelist(): the page freelist becomes the cpu's; with none, the page is let go. */
  function Refill(s: State, c: nat): State
    requires c < |s.cpus| && s.cpus[c].page.Some? && s.cpus[c].page.value in s.pages
  {
    var p := s.cpus[c].page.value;
    var g := s.pages[p];
    var g' := g.(free := [], inuse := |g.objs|, frozen := g.free != []);
    s.(pages := s.pages[p := g'], cpus := s.cpus[c := if g.free != [] then Cpu(Some(p), g.free) else Cpu(None, [])])
  }

  lemma RefillKeeps(s: State, c: nat)
    requires Inv(s) && c < |s.cpus| && s.cpus[c].page.Some? && s.cpus[c].free == []
    ensures s.cpus[c].page.value in s.pages && Inv(Refill(s, c))
  {
    OnOwnSlab(s, c);
    var p := s.cpus[c].page.value;
    hide Inv;
    StepKeeps(s, Refill(s, c), p, c);
  }

  // ---------- giving the cpu's slab back

  /** The page of cpu c with the cpu's free objects back on it, unfrozen. */
  function Returned(s: State, c: nat): Page
    requires c < |s.cpus| && s.cpus[c].page.Some? && s.cpus[c].page.value in s.pages
  {
    var g := s.pages[s.cpus[c].page.value];
    g.(free := Reversed(s.cpus[c].free) + g.free, inuse := g.inuse - |s.cpus[c].free|, frozen := false)
  }

  /** deactivate_slab(): the cpu's free objects go back to the page, which is then dropped when empty
      and enough partial slabs are left, listed when it has free objects, and left alone when full. */
  function Deactivate(s: State, c: nat, minPartial: nat): State
    requires c < |s.cpus| && s.cpus[c].page.Some? && s.cpus[c].page.value in s.pages
  {
    var p := s.cpus[c].page.value;
    var g := s.pages[p];
    var g' := Returned(s, c);
    var l := NodeList(s, g.node);
    var cpus := s.cpus[c := Cpu(None, [])];
    if g'.inuse == 0 && |l| >= minPartial then s.(pages := s.pages - {p}, cpus := cpus)
    else s.(pages := s.pages[p := g'], cpus := cpus,
            partial := if g'.free != [] then SetList(s, g.node, if g.free != [] then l + [p] else [p] + l) else s.partial)
  }

  /** A page with nothing in use has every object on its freelist. */
  lemma UnusedIsFree(g: Page)
    requires RecordOk(g) && g.inuse == 0
    ensures forall o | o in g.objs :: o in g.free
  {
    DistinctSize(g.free);
    SubsetSize(Elems(g.free), g.objs);
  }

  lemma ReturnedRecord(s: State, c: nat)
    requires Inv(s) && c < |s.cpus| && s.cpus[c].page.Some?
    ensures s.cpus[c].page.value in s.pages
    ensures var g := s.pages[s.cpus[c].page.value]; var f := s.cpus[c].free; var g' := Returned(s, c);
            RecordOk(g') && forall o :: o in g'.free <==> o in f || o in g.free
  {
    OnOwnSlab(s, c);
    var g := s.pages[s.cpus[c].page.value];
    var f := s.cpus[c].free;
    ReversedSame(f);
    DistinctAppend(Reversed(f), g.free);
  }

  lemma DeactivateKeeps(s: State, c: nat, minPartial: nat)
    requires Inv(s) && c < |s.cpus| && s.cpus[c].page.Some?
    ensures s.cpus[c].page.value in s.pages && Inv(Deactivate(s, c, minPartial))
    ensures Deactivate(s, c, minPartial).cpus == s.cpus[c := Cpu(None, [])]
  {
    OnOwnSlab(s, c);
    ReturnedRecord(s, c);
    var p := s.cpus[c].page.value;
    var g := s.pages[p];
    var g' := Returned(s, c);
    if g'.inuse == 0 {
      UnusedIsFree(g');
    }
    assert ListsOk(s);
    var l := NodeList(s, g.node);
    DistinctAppend(l, [p]);
    DistinctAppend([p], l);
    hide Inv, Reversed, RecordOk;
    var s' := Deactivate(s, c, minPartial);
    assert ListMove(s, s', p);
    StepKeeps(s, s', p, c);
  }

  // ---------- taking a slab

  /** acquire_slab() on the first page of node n's partial list. */
  function Acquire(s: State, c: nat, n: nat): State
    requires c < |s.cpus| && NodeList(s, n) != [] && NodeList(s, n)[0] in s.pages
  {
    var p := NodeList(s, n)[0];
    var g := s.pages[p];
    State(s.pages[p := g.(free := [], inuse := |g.objs|, frozen := true)], s.cpus[c := Cpu(Some(p), g.free)],
          SetList(s, n, Without(NodeList(s, n), p)), s.live)
  }

  lemma AcquireKeeps(s: State, c: nat, n: nat)
    requires Inv(s) && c < |s.cpus| && s.cpus[c].page.None? && NodeList(s, n) != []
    ensures var p := NodeList(s, n)[0];
            && p in s.pages && s.pages[p].node == n && !s.pages[p].frozen && s.pages[p].free != []
            && Inv(Acquire(s, c, n))
  {
    var p := NodeList(s, n)[0];
    assert p in s.partial[n];
    assert PageOk(s, p);
    WithoutRemoves(s.partial[n], p);
    forall d: nat ensures !Holds(s.cpus, d, p) { }
    var s' := Acquire(s, c, n);
    assert ListsOk(s);
    hide Inv, Without;
    assert forall o :: !InCpu(s.cpus, p, o);
    assert ListMove(s, s', p);
    StepKeeps(s, s', p, c);
  }

  /** new_slab_objects(): a new page, all its objects on the cpu freelist. */
  function NewSlab(s: State, c: nat, p: int, objs: seq<int>, n: nat): State
    requires c < |s.cpus|
  {
    s.(pages := s.pages[p := Page(set o | o in objs, [], |objs|, true, n)], cpus := s.cpus[c := Cpu(Some(p), objs)])
  }

  /** What the page allocator gives: a page not in use, and objects no other slab has. */
  ghost predicate FreshSlab(s: State, p: int, objs: seq<int>, n: nat) {
    && p !in s.pages && Distinct(objs) && objs != [] && n < |s.partial|
    && forall q, o | q in s.pages && o in objs :: o !in s.pages[q].objs
  }

  lemma NewSlabKeeps(s: State, c: nat, p: int, objs: seq<int>, n: nat)
    requires Inv(s) && c < |s.cpus| && s.cpus[c].page.None? && FreshSlab(s, p, objs, n)
    ensures Inv(NewSlab(s, c, p, objs, n))
  {
    var s' := NewSlab(s, c, p, objs, n);
    DistinctSize(objs);
    assert Elems(objs) == set o | o in objs;
    assert ListsOk(s);
    forall d: nat | d < |s.cpus| ensures !Holds(s.cpus, d, p) {
      assert CpuOk(s, d);
    }
    forall o | o in objs ensures o !in s.live {
    }
    hide Inv;
    assert forall m: nat | m < |s.partial| :: p !in s.partial[m];
    StepKeeps(s, s', p, c);
  }

  // ---------- freeing

  /** do_slab_free() on the cpu's own slab. */
  function PushCpu(s: State, c: nat, objs: seq<int>): State
    requires c < |s.cpus|
  {
    s.(cpus := s.cpus[c := Cpu(s.cpus[c].page, objs + s.cpus[c].free)], live := s.live - set o | o in objs)
  }

  /** What the caller gives back: live objects of page p, each once. */
  ghost predicate Returns(s: State, p: int, objs: seq<int>) {
    p in s.pages && objs != [] && Distinct(objs) && forall o | o in objs :: o in s.live && o in s.pages[p].objs
  }

  lemma PushCpuKeeps(s: State, c: nat, objs: seq<int>)
    requires Inv(s) && c < |s.cpus| && s.cpus[c].page.Some? && Returns(s, s.cpus[c].page.value, objs)
    ensures Inv(PushCpu(s, c, objs))
  {
    OnOwnSlab(s, c);
    var p := s.cpus[c].page.value;
    DistinctAppend(objs, s.cpus[c].free);
    hide Inv;
    StepKeeps(s, PushCpu(s, c, objs), p, c);
  }

  /** __slab_free(): onto the page freelist; a slab that was full is listed, one that became empty
      is dropped when enough partial slabs are left. */
  function PushPage(s: State, p: int, objs: seq<int>, minPartial: nat): State
    requires p in s.pages
  {
    var g := s.pages[p];
    var g' := g.(free := objs + g.free, inuse := g.inuse - |objs|);
    var l := NodeList(s, g.node);
    var live := s.live - set o | o in objs;
    if g.frozen || (g'.inuse != 0 && g.free != []) then s.(pages := s.pages[p := g'], live := live)
    else if g'.inuse == 0 && |l| >= minPartial then
      s.(pages := s.pages - {p}, live := live, partial := if g.free != [] then SetList(s, g.node, Without(l, p)) else s.partial)
    else s.(pages := s.pages[p := g'], live := live, partial := if g.free == [] then SetList(s, g.node, l + [p]) else s.partial)
  }

  lemma PushRecord(g: Page, objs: seq<int>)
    requires RecordOk(g) && Distinct(objs) && forall o | o in objs :: o in g.objs && o !in g.free
    ensures RecordOk(g.(free := objs + g.free, inuse := g.inuse - |objs|))
    ensures forall o :: o in objs + g.free <==> o in objs || o in g.free
  {
    DistinctAppend(objs, g.free);
  }

  /** The cpu on page p, or a number that is no cpu's. */
  lemma HolderOf(s: State, p: int) returns (c: nat)
    requires Inv(s) && p in s.pages
    ensures Alone(s, p, c) && (s.pages[p].frozen <==> c < |s.cpus|) && (c < |s.cpus| ==> s.cpus[c].page == Some(p))
  {
    assert PageOk(s, p);
    if s.pages[p].frozen {
      c :| Holds(s.cpus, c, p);
      assert CpuOk(s, c);
    } else {
      c := |s.cpus|;
    }
  }

  lemma PushPageKeeps(s: State, p: int, objs: seq<int>, minPartial: nat)
    requires Inv(s) && Returns(s, p, objs)
    ensures Inv(PushPage(s, p, objs, minPartial))
  {
    assert PageOk(s, p);
    var g := s.pages[p];
    var c := HolderOf(s, p);
    if c < |s.cpus| {
      OnOwnSlab(s, c);
    } else {
      assert forall o :: !InCpu(s.cpus, p, o);
    }
    PushRecord(g, objs);
    var g' := g.(free := objs + g.free, inuse := g.inuse - |objs|);
    if g'.inuse == 0 {
      UnusedIsFree(g');
    }
    assert ListsOk(s);
    var l := NodeList(s, g.node);
    WithoutRemoves(l, p);
    if p !in l {
      DistinctAppend(l, [p]);
    }
    hide Inv, RecordOk, Without;
    var s' := PushPage(s, p, objs, minPartial);
    assert ListMove(s, s', p);
    StepKeeps(s, s', p, c);
  }

  // ---------- runs

  datatype Act =
    | TakeObject(c: nat)
    | TakeFreelist(c: nat)
    | LetGo(c: nat)
    | TakePartial(c: nat, n: nat)
    | TakeNew(c: nat, p: int, objs: seq<int>, n: nat)
    | GiveToCpu(c: nat, objs: seq<int>)
    | GiveToPage(p: int, objs: seq<int>)

  /** A cpu goes from s to t by one act; the operations on a cache are sequences of these. */
  ghost predicate Acts(s: State, t: State, a: Act, minPartial: nat) {
    match a
    case TakeObject(c) => c < |s.cpus| && s.cpus[c].free != [] && t == Pop(s, c)
    case TakeFreelist(c) =>
      c < |s.cpus| && s.cpus[c].page.Some? && s.cpus[c].free == [] && s.cpus[c].page.value in s.pages && t == Refill(s, c)
    case LetGo(c) =>
      c < |s.cpus| && s.cpus[c].page.Some? && s.cpus[c].page.value in s.pages && t == Deactivate(s, c, minPartial)
    case TakePartial(c, n) =>
      c < |s.cpus| && s.cpus[c].page.None? && NodeList(s, n) != [] && NodeList(s, n)[0] in s.pages && t == Acquire(s, c, n)
    case TakeNew(c, p, objs, n) =>
      c < |s.cpus| && s.cpus[c].page.None? && FreshSlab(s, p, objs, n) && t == NewSlab(s, c, p, objs, n)
    case GiveToCpu(c, objs) =>
      c < |s.cpus| && s.cpus[c].page.Some? && Returns(s, s.cpus[c].page.value, objs) && t == PushCpu(s, c, objs)
    case GiveToPage(p, objs) => Returns(s, p, objs) && t == PushPage(s, p, objs, minPartial)
  }

  lemma ActKeeps(s: State, t: State, a: Act, minPartial: nat)
    requires Inv(s) && Acts(s, t, a, minPartial)
    ensures Inv(t)
  {
    hide Inv, FreshSlab, Returns, Pop, Refill, Deactivate, Acquire, NewSlab, PushCpu, PushPage;
    match a
    case TakeObject(c) => PopKeeps(s, c);
    case TakeFreelist(c) => RefillKeeps(s, c);
    case LetGo(c) => DeactivateKeeps(s, c, minPartial);
    case TakePartial(c, n) => AcquireKeeps(s, c, n);
    case TakeNew(c, p, objs, n) => NewSlabKeeps(s, c, p, objs, n);
    case GiveToCpu(c, objs) => PushCpuKeeps(s, c, objs);
    case GiveToPage(p, objs) => PushPageKeeps(s, p, objs, minPartial);
  }

  /** A run: states joined by acts of any cpus in any order, from a cache without slabs. */
  ghost predicate IsRun(run: seq<State>, acts: seq<Act>, minPartial: nat) {
    && |run| == |acts| + 1 && run[0].pages == map[] && run[0].live == {}
    && (forall c: nat | c < |run[0].cpus| :: run[0].cpus[c] == Cpu(None, []))
    && (forall n: nat | n < |run[0].partial| :: run[0].partial[n] == [])
    && forall i | 0 <= i < |acts| :: Acts(run[i], run[i + 1], acts[i], minPartial)
  }

  /** In every state of every run each object of each slab is in exactly one of the three places, and
      an object handed out belongs to a slab that has not been dropped. */
  lemma {:induction false} RunKeeps(run: seq<State>, acts: seq<Act>, minPartial: nat, k: nat)
    requires IsRun(run, acts, minPartial) && k < |run|
    ensures Inv(run[k])
    ensures forall p, o | p in run[k].pages && o in run[k].pages[p].objs ::
              var a, b, c := o in run[k].live, o in run[k].pages[p].free, InCpu(run[k].cpus, p, o);
              (a && !b && !c) || (!a && b && !c) || (!a && !b && c)
    ensures forall o | o in run[k].live :: exists p :: p in run[k].pages && o in run[k].pages[p].objs
  {
    if k > 0 {
      RunKeeps(run, acts, minPartial, k - 1);
      hide Inv;
      assert Acts(run[k - 1], run[k], acts[k - 1], minPartial);
      ActKeeps(run[k - 1], run[k], acts[k - 1], minPartial);
    }
    Places(run[k]);
  }

  lemma Places(s: State)
    requires Inv(s)
    ensures forall p, o | p in s.pages && o in s.pages[p].objs ::
              var a, b, c := o in s.live, o in s.pages[p].free, InCpu(s.cpus, p, o);
              (a && !b && !c) || (!a && b && !c) || (!a && !b && c)
    ensures forall o | o in s.live :: exists p :: p in s.pages && o in s.pages[p].objs
  {
    forall p, o | p in s.pages && o in s.pages[p].objs
      ensures var a, b, c := o in s.live, o in s.pages[p].free, InCpu(s.cpus, p, o);
              (a && !b && !c) || (!a && b && !c) || (!a && !b && c)
    {
      ExactlyOnePlace(s, p, o);
    }
  }
}
