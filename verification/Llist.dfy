/** The lock-less list of lib/llist.c as a step protocol: any number of threads in
    llist_add_batch() and one in llist_del_first(), interleaved at every single
    read, write and cmpxchg. */
module Llist {
  import opened Options

  type Ptr = nat
  type Node = n: nat | n > 0 witness 1
  type Tid = nat
  type Batch = b: seq<Node> | b != [] witness [1]

  const NULL: Ptr := 0

  /** Where a thread stands in llist_add_batch(). stamp counts the changes of the list
      up to the moment it read the head. */
  datatype AddPc =
    | Read(batch: Batch)
    | Write(batch: Batch, first: Ptr, stamp: nat)
    | Swap(batch: Batch, first: Ptr, stamp: nat)

  datatype DelPc = Away | Start | Load(entry: Node, stamp: nat) | Unlink(entry: Node, next: Ptr, stamp: nat)

  /** What a call did, in the order the calls took effect. */
  datatype Event =
    | Added(tid: Tid, batch: seq<Node>, wasEmpty: bool)
    | Removed(node: Node)
    | FoundEmpty

  datatype State = State(head: Ptr, next: map<Node, Ptr>, adders: map<Tid, AddPc>, del: DelPc, log: seq<Event>)

  // ---------- the abstract stack

  /** An atomic stack executing the log; None if some recorded result is wrong. */
  function Replay(log: seq<Event>): Option<seq<Node>> {
    if log == [] then Some([])
    else
      match Replay(log[..|log| - 1])
      case None => None
      case Some(s) =>
        match log[|log| - 1]
        case Added(_, batch, wasEmpty) => if wasEmpty == (s == []) then Some(batch + s) else None
        case Removed(n) => if s != [] && s[0] == n then Some(s[1..]) else None
        case FoundEmpty => if s == [] then Some(s) else None
  }

  lemma {:induction false} ReplaySnoc(log: seq<Event>, e: Event)
    ensures Replay(log + [e]) ==
            match Replay(log)
            case None => None
            case Some(s) =>
              match e
              case Added(_, batch, wasEmpty) => if wasEmpty == (s == []) then Some(batch + s) else None
              case Removed(n) => if s != [] && s[0] == n then Some(s[1..]) else None
              case FoundEmpty => if s == [] then Some(s) else None
  {
    assert (log + [e])[..|log|] == log;
  }

  function Changes(log: seq<Event>): nat {
    if log == [] then 0
    else Changes(log[..|log| - 1]) + if log[|log| - 1].FoundEmpty? then 0 else 1
  }

  lemma {:induction false} ChangesSnoc(log: seq<Event>, e: Event)
    ensures Changes(log + [e]) == Changes(log) + if e.FoundEmpty? then 0 else 1
  {
    assert (log + [e])[..|log|] == log;
  }

  // ---------- the steps

  datatype Action =
    | BeginAdd(tid: Tid, batch: Batch)  // the caller hands over a linked batch of its own nodes
    | ReadHead(tid: Tid)
    | WriteNext(tid: Tid)
    | CmpxchgAdd(tid: Tid)
    | BeginDel
    | DelReadHead
    | DelReadNext
    | CmpxchgDel

  ghost predicate NoDup<T>(s: seq<T>) {
    forall i, j | 0 <= i < j < |s| :: s[i] != s[j]
  }

  /** Nodes nobody else can reach: not in a batch under way, not in the list. */
  ghost predicate Private(st: State, s: seq<Node>) {
    && (forall t | t in st.adders :: forall n | n in s :: n !in st.adders[t].batch)
    && (Replay(st.log).Some? ==> forall n | n in s :: n !in Replay(st.log).value)
  }

  ghost predicate Enabled(st: State, a: Action) {
    match a
    case BeginAdd(t, batch) => t !in st.adders && NoDup(batch) && Private(st, batch)
    case ReadHead(t) => t in st.adders && st.adders[t].Read?
    case WriteNext(t) => t in st.adders && st.adders[t].Write?
    case CmpxchgAdd(t) => t in st.adders && st.adders[t].Swap?
    case BeginDel => st.del.Away?
    case DelReadHead => st.del.Start?
    case DelReadNext => st.del.Load?
    case CmpxchgDel => st.del.Unlink?
  }

  function Linked(next: map<Node, Ptr>, batch: seq<Node>): map<Node, Ptr>
    decreases |batch|
  {
    if |batch| <= 1 then next else Linked(next[batch[0] := batch[1]], batch[1..])
  }

  function LastOf(s: seq<Node>): Node
    requires s != []
  {
    s[|s| - 1]
  }

  function NextOf(next: map<Node, Ptr>, n: Node): Ptr {
    if n in next then next[n] else NULL
  }

  ghost function Apply(st: State, a: Action): State
    requires Enabled(st, a)
  {
    match a
    case BeginAdd(t, batch) => st.(adders := st.adders[t := Read(batch)], next := Linked(st.next, batch))
    case ReadHead(t) =>
      st.(adders := st.adders[t := Write(st.adders[t].batch, st.head, Changes(st.log))])
    case WriteNext(t) =>
      var pc := st.adders[t];
      st.(next := st.next[LastOf(pc.batch) := pc.first], adders := st.adders[t := Swap(pc.batch, pc.first, pc.stamp)])
    case CmpxchgAdd(t) =>
      var pc := st.adders[t];
      if st.head == pc.first then
        st.(head := pc.batch[0], adders := st.adders - {t}, log := st.log + [Added(t, pc.batch, pc.first == NULL)])
      else st.(adders := st.adders[t := Read(pc.batch)])
    case BeginDel => st.(del := Start)
    case DelReadHead =>
      if st.head == NULL then st.(del := Away, log := st.log + [FoundEmpty]) else st.(del := Load(st.head, Changes(st.log)))
    case DelReadNext => st.(del := Unlink(st.del.entry, NextOf(st.next, st.del.entry), st.del.stamp))
    case CmpxchgDel =>
      if st.head == st.del.entry then st.(head := st.del.next, del := Away, log := st.log + [Removed(st.del.entry)])
      else if st.head == NULL then st.(del := Away, log := st.log + [FoundEmpty])
      else st.(del := Load(st.head, Changes(st.log)))
  }

  const Initial := State(NULL, map[], map[], Away, [])

  // ---------- the invariant

  ghost predicate Chain(next: map<Node, Ptr>, p: Ptr, s: seq<Node>)
    decreases |s|
  {
    if s == [] then p == NULL
    else p == s[0] && s[0] in next && Chain(next, next[s[0]], s[1..])
  }

  /** The batch is linked up to, but not including, its last node. */
  ghost predicate BatchLinked(next: map<Node, Ptr>, b: seq<Node>) {
    forall i | 0 <= i < |b| - 1 :: b[i] in next && next[b[i]] == b[i + 1]
  }

  function Successor(s: seq<Node>, i: nat): Ptr
    requires i < |s|
  {
    if i + 1 < |s| then s[i + 1] else NULL
  }

  /** Unless the list has changed since, the head is still what was read. */
  predicate Fresh(st: State, p: Ptr, stamp: nat) {
    stamp <= Changes(st.log) && (stamp == Changes(st.log) ==> st.head == p)
  }

  ghost predicate AdderOk(st: State, pc: AddPc) {
    && NoDup(pc.batch) && BatchLinked(st.next, pc.batch)
    && (pc.Swap? ==> LastOf(pc.batch) in st.next && st.next[LastOf(pc.batch)] == pc.first)
    && (pc.Write? || pc.Swap? ==> Fresh(st, pc.first, pc.stamp))
  }

  ghost predicate DeleterOk(st: State, stack: seq<Node>) {
    match st.del
    case Load(e, stamp) => e in stack && Fresh(st, e, stamp)
    case Unlink(e, n, stamp) => Fresh(st, e, stamp) && exists i: nat | i < |stack| :: stack[i] == e && n == Successor(stack, i)
    case _ => true
  }

  ghost predicate Apart(st: State, stack: seq<Node>) {
    && NoDup(stack)
    && (forall t | t in st.adders :: forall n | n in stack :: n !in st.adders[t].batch)
    && (forall t, u | t in st.adders && u in st.adders && t != u ::
          forall n | n in st.adders[t].batch :: n !in st.adders[u].batch)
  }

  ghost predicate Inv(st: State) {
    && Replay(st.log).Some?
    && var stack := Replay(st.log).value;
       && Chain(st.next, st.head, stack)
       && Apart(st, stack)
       && (forall t | t in st.adders :: AdderOk(st, st.adders[t]))
       && DeleterOk(st, stack)
  }

  // ---------- chains

  lemma {:induction false} ChainFrame(next: map<Node, Ptr>, next': map<Node, Ptr>, p: Ptr, s: seq<Node>)
    requires Chain(next, p, s)
    requires forall n | n in s :: n in next ==> n in next' && next'[n] == next[n]
    ensures Chain(next', p, s)
    decreases |s|
  {
    if s != [] {
      ChainFrame(next, next', next[s[0]], s[1..]);
    }
  }

  lemma {:induction false} ChainPush(next: map<Node, Ptr>, b: seq<Node>, p: Ptr, s: seq<Node>)
    requires b != [] && BatchLinked(next, b) && LastOf(b) in next && next[LastOf(b)] == p && Chain(next, p, s)
    ensures Chain(next, b[0], b + s)
    decreases |b|
  {
    assert (b + s)[1..] == b[1..] + s;
    if |b| == 1 {
      assert b[1..] + s == s;
    } else {
      ChainPush(next, b[1..], p, s);
      assert next[b[0]] == b[1];
    }
  }

  lemma {:induction false} ChainAt(next: map<Node, Ptr>, p: Ptr, s: seq<Node>, i: nat)
    requires Chain(next, p, s) && i < |s|
    ensures s[i] in next && next[s[i]] == Successor(s, i)
    decreases |s|
  {
    if i > 0 {
      ChainAt(next, next[s[0]], s[1..], i - 1);
      assert s[1..][i - 1] == s[i];
    } else if |s| > 1 {
      assert s[1..][0] == s[1];
    }
  }

  lemma {:induction false} LinkedBatch(next: map<Node, Ptr>, b: seq<Node>)
    requires NoDup(b)
    ensures BatchLinked(Linked(next, b), b)
    ensures forall n | n !in b :: (n in Linked(next, b) <==> n in next) && (n in next ==> Linked(next, b)[n] == next[n])
    decreases |b|
  {
    if |b| > 1 {
      var next1 := next[b[0] := b[1]];
      LinkedBatch(next1, b[1..]);
      var after := Linked(next1, b[1..]);
      assert b[0] !in b[1..];
      assert after[b[0]] == b[1];
      forall i | 0 <= i < |b| - 1 ensures b[i] in after && after[b[i]] == b[i + 1] {
        if i > 0 {
          assert b[1..][i - 1] == b[i] && b[1..][i] == b[i + 1];
        }
      }
    }
  }

  // ---------- every step keeps the invariant

  lemma ChainHead(st: State)
    requires Inv(st)
    ensures st.head == NULL <==> Replay(st.log).value == []
  {
  }

  lemma BeginAddKeeps(st: State, t: Tid, batch: Batch)
    requires Inv(st) && Enabled(st, BeginAdd(t, batch))
    ensures Inv(Apply(st, BeginAdd(t, batch)))
  {
    var st' := Apply(st, BeginAdd(t, batch));
    var stack := Replay(st.log).value;
    LinkedBatch(st.next, batch);
    ChainFrame(st.next, st'.next, st.head, stack);
    forall u | u in st'.adders ensures AdderOk(st', st'.adders[u]) {
      if u != t {
        assert AdderOk(st, st.adders[u]);
        assert forall n | n in st.adders[u].batch :: n !in batch;
      }
    }
  }

  lemma ReadHeadKeeps(st: State, t: Tid)
    requires Inv(st) && Enabled(st, ReadHead(t))
    ensures Inv(Apply(st, ReadHead(t)))
  {
    var st' := Apply(st, ReadHead(t));
    forall u | u in st'.adders ensures AdderOk(st', st'.adders[u]) {
      assert AdderOk(st, st.adders[u]);
    }
  }

  lemma WriteNextKeeps(st: State, t: Tid)
    requires Inv(st) && Enabled(st, WriteNext(t))
    ensures Inv(Apply(st, WriteNext(t)))
  {
    var st' := Apply(st, WriteNext(t));
    var stack := Replay(st.log).value;
    var last := LastOf(st.adders[t].batch);
    assert last in st.adders[t].batch;
    ChainFrame(st.next, st'.next, st.head, stack);
    forall u | u in st'.adders ensures AdderOk(st', st'.adders[u]) {
      assert AdderOk(st, st.adders[u]);
      if u != t {
        assert last !in st.adders[u].batch;
      }
    }
  }

  lemma CmpxchgAddKeeps(st: State, t: Tid)
    requires Inv(st) && Enabled(st, CmpxchgAdd(t))
    ensures Inv(Apply(st, CmpxchgAdd(t)))
  {
    if st.head == st.adders[t].first {
      AddSucceeds(st, t);
    } else {
      AddFails(st, t);
    }
  }

  lemma AddFails(st: State, t: Tid)
    requires Inv(st) && Enabled(st, CmpxchgAdd(t)) && st.head != st.adders[t].first
    ensures Inv(Apply(st, CmpxchgAdd(t)))
  {
    var st' := Apply(st, CmpxchgAdd(t));
    assert AdderOk(st, st.adders[t]);
    forall u | u in st'.adders ensures AdderOk(st', st'.adders[u]) {
      assert AdderOk(st, st.adders[u]);
    }
  }

  lemma AddSucceeds(st: State, t: Tid)
    requires Inv(st) && Enabled(st, CmpxchgAdd(t)) && st.head == st.adders[t].first
    ensures Inv(Apply(st, CmpxchgAdd(t)))
  {
    var st' := Apply(st, CmpxchgAdd(t));
    var stack := Replay(st.log).value;
    var pc := st.adders[t];
    assert AdderOk(st, pc);
    ChainHead(st);
    ReplaySnoc(st.log, Added(t, pc.batch, pc.first == NULL));
    ChangesSnoc(st.log, Added(t, pc.batch, pc.first == NULL));
    ChainPush(st.next, pc.batch, st.head, stack);
    var stack' := pc.batch + stack;
    forall u | u in st'.adders ensures AdderOk(st', st'.adders[u]) {
      assert AdderOk(st, st.adders[u]);
    }
    PushedNoDup(pc.batch, stack);
    if st.del.Unlink? {
      var i: nat :| i < |stack| && stack[i] == st.del.entry && st.del.next == Successor(stack, i);
      assert stack'[i + |pc.batch|] == stack[i];
      assert Successor(stack', i + |pc.batch|) == Successor(stack, i);
    }
  }

  lemma PushedNoDup(b: seq<Node>, s: seq<Node>)
    requires NoDup(b) && NoDup(s) && forall n | n in s :: n !in b
    ensures NoDup(b + s)
  {
    forall i, j | 0 <= i < j < |b + s| ensures (b + s)[i] != (b + s)[j] {
      if i < |b| <= j {
        assert (b + s)[j] in s && (b + s)[i] in b;
      }
    }
  }

  lemma DelReadKeeps(st: State, a: Action)
    requires Inv(st) && (a.BeginDel? || a.DelReadHead?) && Enabled(st, a)
    ensures Inv(Apply(st, a))
  {
    var st' := Apply(st, a);
    ChainHead(st);
    if a.DelReadHead? && st.head == NULL {
      ReplaySnoc(st.log, FoundEmpty);
      ChangesSnoc(st.log, FoundEmpty);
    }
    forall u | u in st'.adders ensures AdderOk(st', st'.adders[u]) {
      assert AdderOk(st, st.adders[u]);
    }
  }

  lemma DelReadNextKeeps(st: State)
    requires Inv(st) && Enabled(st, DelReadNext)
    ensures Inv(Apply(st, DelReadNext))
  {
    var st' := Apply(st, DelReadNext);
    var stack := Replay(st.log).value;
    var i: nat :| i < |stack| && stack[i] == st.del.entry;
    ChainAt(st.next, st.head, stack, i);
    forall u | u in st'.adders ensures AdderOk(st', st'.adders[u]) {
      assert AdderOk(st, st.adders[u]);
    }
  }

  /** Only this thread removes, so an entry it has seen is still in the list: a
      successful cmpxchg installs the right successor, and a failed one never sees
      an empty list. */
  lemma CmpxchgDelKeeps(st: State)
    requires Inv(st) && Enabled(st, CmpxchgDel)
    ensures Inv(Apply(st, CmpxchgDel))
    ensures st.head != NULL
  {
    var st' := Apply(st, CmpxchgDel);
    var stack := Replay(st.log).value;
    ChainHead(st);
    var e := st.del.entry;
    var i: nat :| i < |stack| && stack[i] == e && st.del.next == Successor(stack, i);
    if st.head == e {
      assert i == 0;
      ChainAt(st.next, st.head, stack, 0);
      ReplaySnoc(st.log, Removed(e));
      ChangesSnoc(st.log, Removed(e));
      assert forall n | n in stack[1..] :: n in stack;
    }
    forall u | u in st'.adders ensures AdderOk(st', st'.adders[u]) {
      assert AdderOk(st, st.adders[u]);
    }
  }

  lemma StepKeeps(st: State, a: Action)
    requires Inv(st) && Enabled(st, a)
    ensures Inv(Apply(st, a))
  {
    match a
    case BeginAdd(t, batch) => BeginAddKeeps(st, t, batch);
    case ReadHead(t) => ReadHeadKeeps(st, t);
    case WriteNext(t) => WriteNextKeeps(st, t);
    case CmpxchgAdd(t) => CmpxchgAddKeeps(st, t);
    case BeginDel => DelReadKeeps(st, a);
    case DelReadHead => DelReadKeeps(st, a);
    case DelReadNext => DelReadNextKeeps(st);
    case CmpxchgDel => CmpxchgDelKeeps(st);
  }

  // ---------- whole runs

  /** The state after the given steps; None if one of them was not possible. */
  ghost function Exec(acts: seq<Action>): Option<State> {
    if acts == [] then Some(Initial)
    else
      match Exec(acts[..|acts| - 1])
      case None => None
      case Some(st) => if Enabled(st, acts[|acts| - 1]) then Some(Apply(st, acts[|acts| - 1])) else None
  }

  lemma {:induction false} ExecKeeps(acts: seq<Action>)
    requires Exec(acts).Some?
    ensures Inv(Exec(acts).value)
  {
    if acts != [] {
      ExecKeeps(acts[..|acts| - 1]);
      StepKeeps(Exec(acts[..|acts| - 1]).value, acts[|acts| - 1]);
    }
  }

  /** Nodes handed in and nodes handed out, with repetitions. */
  function AddedNodes(log: seq<Event>): multiset<Node> {
    if log == [] then multiset{}
    else
      var e := log[|log| - 1];
      AddedNodes(log[..|log| - 1]) + if e.Added? then multiset(e.batch) else multiset{}
  }

  function RemovedNodes(log: seq<Event>): multiset<Node> {
    if log == [] then multiset{}
    else
      var e := log[|log| - 1];
      RemovedNodes(log[..|log| - 1]) + if e.Removed? then multiset{e.node} else multiset{}
  }

  lemma {:induction false} NothingLost(log: seq<Event>)
    requires Replay(log).Some?
    ensures AddedNodes(log) == RemovedNodes(log) + multiset(Replay(log).value)
  {
    if log != [] {
      var before, e := log[..|log| - 1], log[|log| - 1];
      NothingLost(before);
      var s := Replay(before).value;
      if e.Removed? {
        assert s == [s[0]] + s[1..];
      }
    }
  }

  /** Every interleaving behaves like an atomic stack: the log of results, each entry
      appended by the call itself at its successful cmpxchg (or at the read that saw
      an empty list), replays without error; the memory holds exactly the stack it
      leads to; no node is lost, duplicated or returned twice for one addition. */
  lemma {:induction false} Linearizable(acts: seq<Action>)
    requires Exec(acts).Some?
    ensures var st := Exec(acts).value;
            && Replay(st.log).Some?
            && Chain(st.next, st.head, Replay(st.log).value)
            && AddedNodes(st.log) == RemovedNodes(st.log) + multiset(Replay(st.log).value)
            && forall n: Node :: RemovedNodes(st.log)[n] <= AddedNodes(st.log)[n] <= RemovedNodes(st.log)[n] + 1
  {
    ExecKeeps(acts);
    var log := Exec(acts).value.log;
    NothingLost(log);
    forall n: Node ensures multiset(Replay(log).value)[n] <= 1 {
      AtMostOnce(Replay(log).value, n);
    }
  }

  lemma {:induction false} AtMostOnce(s: seq<Node>, n: Node)
    requires NoDup(s)
    ensures multiset(s)[n] <= 1
    ensures n !in s ==> multiset(s)[n] == 0
  {
    if s != [] {
      assert s == [s[0]] + s[1..];
      AtMostOnce(s[1..], n);
      assert s[0] == n ==> n !in s[1..];
    }
  }

  /** What the caller of llist_add_batch() is told, and what its cmpxchg does to the stack. */
  lemma AddTakesEffect(st: State, t: Tid)
    requires Inv(st) && Enabled(st, CmpxchgAdd(t)) && st.head == st.adders[t].first
    ensures var stack := Replay(st.log).value;
            && (st.adders[t].first == NULL <==> stack == [])
            && Replay(Apply(st, CmpxchgAdd(t)).log) == Some(st.adders[t].batch + stack)
  {
    ChainHead(st);
    ReplaySnoc(st.log, Added(t, st.adders[t].batch, st.head == NULL));
  }

  /** llist_del_first() returns the newest entry at its successful cmpxchg. */
  lemma DelTakesEffect(st: State)
    requires Inv(st) && Enabled(st, CmpxchgDel) && st.head == st.del.entry
    ensures var stack := Replay(st.log).value;
            stack != [] && stack[0] == st.del.entry && Replay(Apply(st, CmpxchgDel).log) == Some(stack[1..])
  {
    ChainHead(st);
    ReplaySnoc(st.log, Removed(st.del.entry));
  }

  /** Lock freedom: a cmpxchg fails only because some other call has succeeded since
      this one read the head. */
  lemma FailureMeansProgress(st: State)
    requires Inv(st)
    ensures forall t | t in st.adders && st.adders[t].Swap? && st.head != st.adders[t].first ::
              Changes(st.log) > st.adders[t].stamp
    ensures st.del.Unlink? && st.head != st.del.entry ==> Changes(st.log) > st.del.stamp
  {
    forall t | t in st.adders && st.adders[t].Swap? && st.head != st.adders[t].first
      ensures Changes(st.log) > st.adders[t].stamp
    {
      assert AdderOk(st, st.adders[t]);
    }
  }

  // ---------- llist_reverse_order

  function Reversed(s: seq<Node>): seq<Node> {
    if s == [] then [] else Reversed(s[1..]) + [s[0]]
  }

  /** Reversing twice gives the chain back. */
  lemma {:induction false} ReversedTwice(s: seq<Node>)
    ensures Reversed(Reversed(s)) == s
  {
    if s != [] {
      ReversedTwice(s[1..]);
      ReversedSnoc(Reversed(s[1..]), s[0]);
    }
  }

  lemma {:induction false} ReversedSnoc(s: seq<Node>, n: Node)
    ensures Reversed(s + [n]) == [n] + Reversed(s)
  {
    if s != [] {
      assert (s + [n])[1..] == s[1..] + [n];
      ReversedSnoc(s[1..], n);
    } else {
      assert s + [n] == [n];
    }
  }

  /** The links of the chain, reversed in place; no other node is written. */
  class Links {
    var next: map<Node, Ptr>

    method ReverseOrder(head: Ptr, ghost s: seq<Node>) returns (newHead: Ptr)
      requires Chain(next, head, s) && NoDup(s)
      modifies this
      ensures Chain(next, newHead, Reversed(s))
      ensures forall n | n !in s :: (n in next <==> n in old(next)) && (n in next ==> next[n] == old(next)[n])
    {
      newHead := NULL;
      var p := head;
      ghost var done, rest := [], s;
      while p != NULL
        invariant Chain(next, p, rest) && Chain(next, newHead, done)
        invariant NoDup(rest) && (forall n | n in rest :: n !in done) && (forall n | n in rest || n in done :: n in s)
        invariant Reversed(rest) + done == Reversed(s)
        invariant forall n | n !in s :: (n in next <==> n in old(next)) && (n in next ==> next[n] == old(next)[n])
        decreases |rest|
      {
        var tmp: Node := p;
        p := next[p];
        ghost var before := next;
        next := next[tmp := newHead];
        newHead := tmp;
        assert tmp == rest[0] && tmp !in rest[1..];
        ChainFrame(before, next, p, rest[1..]);
        ChainFrame(before, next, if done == [] then NULL else done[0], done);
        assert ([tmp] + done)[1..] == done;
        assert Reversed(rest[1..]) + ([tmp] + done) == Reversed(rest) + done;
        rest, done := rest[1..], [tmp] + done;
      }
      assert rest == [];
      assert Reversed(rest) + done == done;
    }
  }
}
