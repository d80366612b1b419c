/** __rb_erase_augmented(): taking a node out, before the colours are put right. */
module RbUnlink {
  import opened RbTree
  import opened RbMemory
  import opened RbInsert
  import opened RbRotate
  import opened RbErase
  import opened RbFacts

  // ---------- what is left of the rules

  /** The same way up but for the names of the nodes. */
  ghost predicate SameShape(ctx: Ctx, ctx': Ctx) {
    |ctx| == |ctx'| && forall i | 0 <= i < |ctx| :: ctx'[i] == ctx[i].(id := ctx'[i].id)
  }

  lemma {:induction false} FitsShape(ctx: Ctx, ctx': Ctx, h: nat)
    requires SameShape(ctx, ctx') && Fits(ctx, h)
    ensures Fits(ctx', h)
    decreases |ctx|
  {
    if ctx != [] {
      assert ctx'[0] == ctx[0].(id := ctx'[0].id);
      assert ctx[1..] != [] ==> ctx'[1..][0] == ctx[1..][0].(id := ctx'[1..][0].id);
      FitsShape(ctx[1..], ctx'[1..], if ctx[0].black then h + 1 else h);
    }
  }

  /** c is the only child of n, or n has none. */
  predicate OnlyKid(n: Tree, c: Tree) {
    n.Node? && ((n.l.Leaf? && c == n.r) || (n.r.Leaf? && c == n.l))
  }

  /** Putting an only child, turned black, in its parent's place, in a tree of the same shape around: the rules
      hold, unless a black node without children went. Then its place is one black node short. */
  lemma {:induction false} Removed(ctx: Ctx, n: Tree, c: Tree, ctx': Ctx)
    requires RedBlack(Plug(ctx, n)) && OnlyKid(n, c) && SameShape(ctx, ctx')
    ensures c.Node? ==> n.black && !c.black && RedBlack(Plug(ctx', Blacken(c)))
    ensures c.Leaf? && (!n.black || ctx' == []) ==> RedBlack(Plug(ctx', c))
    ensures c.Leaf? && n.black && ctx' != [] ==> Short(ctx', c, 0)
  {
    hide Plug;
    var h := SeenFrom(ctx, n);
    FitsShape(ctx, ctx', h);
    OnlyKidBal(n, c, h);
    if c.Node? {
      BlackenBal(c, 0);
      PlugRedBlack(ctx', Blacken(c), h);
    } else if !n.black {
      PlugRedBlack(ctx', c, h);
    } else if ctx' == [] {
      PlugRedBlack(ctx', c, 0);
    }
  }

  lemma {:induction false} OnlyKidBal(n: Tree, c: Tree, h: nat)
    requires OnlyKid(n, c) && Bal(n, h)
    ensures Bal(c, 0) && (if n.black then h == 1 else h == 0 && c.Leaf?) && (c.Node? ==> !c.black)
  {
  }

  // ---------- a way up in two parts

  /** The frames a, below the node above, around a subtree whose root is hole. */
  ghost predicate RepSeg(mem: Mem, a: Ctx, above: int, hole: int)
    decreases |a|
  {
    a == [] ||
    var f := a[0];
    && f.id in mem && mem[f.id] == Record(f.left, hole, Id(f.sib), Over(a[1..], above), f.black)
    && Rep(mem, f.sib, f.id) && RepSeg(mem, a[1..], above, f.id)
  }

  function Over(a: Ctx, above: int): int {
    if a == [] then above else a[0].id
  }

  /** The root of what the frames a hold. */
  function Top(a: Ctx, hole: int): int {
    if a == [] then hole else a[|a| - 1].id
  }

  lemma {:induction false} SegJoin(mem: Mem, root: int, a: Ctx, b: Ctx, hole: int)
    ensures RepCtx(mem, root, a + b, hole) <==> RepSeg(mem, a, Above(b), hole) && RepCtx(mem, root, b, Top(a, hole))
    decreases |a|
  {
    if a == [] {
      assert a + b == b;
    } else {
      assert (a + b)[0] == a[0] && (a + b)[1..] == a[1..] + b;
      assert Top(a[1..], a[0].id) == Top(a, hole);
      assert Above(a[1..] + b) == Over(a[1..], Above(b));
      SegJoin(mem, root, a[1..], b, a[0].id);
    }
  }

  lemma {:induction false} ProperJoin(a: Ctx, b: Ctx, used: set<int>)
    ensures CtxProper(a + b, used) <==> CtxProper(a, used) && CtxProper(b, used + CtxIds(a))
    decreases |a|
  {
    if a == [] {
      assert a + b == b && used + {} == used;
    } else {
      var f := a[0];
      assert (a + b)[0] == f && (a + b)[1..] == a[1..] + b;
      ProperJoin(a[1..], b, used + {f.id} + Ids(f.sib));
      assert used + {f.id} + Ids(f.sib) + CtxIds(a[1..]) == used + CtxIds(a);
    }
  }

  lemma {:induction false} PlugJoin(a: Ctx, b: Ctx, t: Tree)
    ensures Plug(a + b, t) == Plug(b, Plug(a, t))
    decreases |a|
  {
    if a == [] {
      assert a + b == b;
    } else {
      assert (a + b)[0] == a[0] && (a + b)[1..] == a[1..] + b;
      PlugJoin(a[1..], b, Up(a[0], t));
    }
  }

  lemma {:induction false} SegKept(mem: Mem, mem': Mem, a: Ctx, above: int, hole: int)
    requires RepSeg(mem, a, above, hole) && SameOn(mem, mem', CtxIds(a))
    ensures RepSeg(mem', a, above, hole)
    decreases |a|
  {
    if a != [] {
      RepKept(mem, mem', a[0].sib, a[0].id);
      SegKept(mem, mem', a[1..], above, a[0].id);
    }
  }

  /** Another subtree in the hole. */
  lemma {:induction false} SegHole(mem: Mem, mem': Mem, a: Ctx, used: set<int>, above: int, hole: int, hole': int)
    requires RepSeg(mem, a, above, hole) && CtxProper(a, used) && a != []
    requires a[0].id in mem && a[0].id in mem' && mem'[a[0].id] == WithKid(mem[a[0].id], a[0].left, hole')
    requires SameOn(mem, mem', CtxIds(a) - {a[0].id})
    ensures RepSeg(mem', a, above, hole')
  {
    var f := a[0];
    CtxApart(a[1..], used + {f.id} + Ids(f.sib));
    KidRecord(f.left, hole, Id(f.sib), Over(a[1..], above), f.black, hole');
    RepKept(mem, mem', f.sib, f.id);
    SegKept(mem, mem', a[1..], above, f.id);
  }

  /** Another node above. */
  lemma {:induction false} SegAbove(mem: Mem, mem': Mem, a: Ctx, used: set<int>, above: int, above': int, hole: int)
    requires RepSeg(mem, a, above, hole) && CtxProper(a, used) && a != []
    requires var y := a[|a| - 1].id; y in mem && y in mem' && mem'[y] == mem[y].(parent := above')
    requires SameOn(mem, mem', CtxIds(a) - {a[|a| - 1].id})
    ensures RepSeg(mem', a, above', hole)
    decreases |a|
  {
    var f, rest := a[0], a[1..];
    CtxApart(rest, used + {f.id} + Ids(f.sib));
    LastIn(a);
    if rest == [] {
      KidRecord(f.left, hole, Id(f.sib), above, f.black, hole);
    } else {
      assert rest[|rest| - 1] == a[|a| - 1];
      LastIn(rest);
      SegAbove(mem, mem', rest, used + {f.id} + Ids(f.sib), above, above', f.id);
    }
    RepKept(mem, mem', f.sib, f.id);
  }

  lemma {:induction false} LastIn(a: Ctx)
    requires a != []
    ensures a[|a| - 1].id in CtxIds(a) && a[0].id in CtxIds(a)
    decreases |a|
  {
    if |a| > 1 { LastIn(a[1..]); }
  }

  // ---------- at most one child

  /** __rb_change_child() below a node, or at the root. */
  function RelinkAbove(mem: Mem, above: int, old_: int, new_: int): Mem {
    if above != 0 && above in mem then mem[above := ChangeChild(mem[above], old_, new_)] else mem
  }

  /** The child, if any, takes the node's place, parent and colour. */
  function UnlinkOne(mem: Mem, node: int, child: int): Mem
    requires node in mem && (child != 0 ==> child in mem)
  {
    var r := mem[node];
    var m := RelinkAbove(mem, r.parent, node, child);
    if child != 0 then m[child := m[child].(parent := r.parent, black := r.black)] else m
  }

  /** What the code finds in the records of a node. */
  lemma NodeHere(mem: Mem, root: int, ctx: Ctx, n: Tree)
    requires Whole(mem, root, ctx, n) && n.Node?
    ensures n.id in mem && n.id != 0 && mem[n.id] == Rb(Id(n.l), Id(n.r), Above(ctx), n.black)
    ensures (Id(n.l) == 0 <==> n.l.Leaf?) && (Id(n.r) == 0 <==> n.r.Leaf?)
    ensures n.l.Node? ==> n.l.id in mem && mem[n.l.id] == Rb(Id(n.l.l), Id(n.l.r), n.id, n.l.black)
    ensures n.r.Node? ==> n.r.id in mem && mem[n.r.id] == Rb(Id(n.r.l), Id(n.r.r), n.id, n.r.black)
    ensures ctx != [] ==> Above(ctx) in mem && Above(ctx) != 0
    ensures ctx == [] ==> Above(ctx) == 0
    ensures n.l.Node? ==> n.l.id != n.id && n.l.id != Above(ctx)
    ensures n.r.Node? ==> n.r.id != n.id && n.r.id != Above(ctx)
  {
    NullNot(n);
    IdIn(n.l);
    IdIn(n.r);
    CtxApart(ctx, Ids(n));
    AboveIn(ctx);
    assert Rep(mem, n.l, n.id) && Rep(mem, n.r, n.id);
    assert n.l.Node? ==> n.l.id in Ids(n.l) && n.l.id in Ids(n);
    assert n.r.Node? ==> n.r.id in Ids(n.r) && n.r.id in Ids(n);
  }

  /** The tree without the node, seen from its place. */
  lemma OneUnlinked(mem: Mem, root: int, ctx: Ctx, n: Tree, c: Tree)
    requires Whole(mem, root, ctx, n) && OnlyKid(n, c) && (c.Node? ==> n.black)
    ensures n.id in mem && (c.Node? ==> c.id in mem)
    ensures Whole(UnlinkOne(mem, n.id, Id(c)), if ctx == [] then Id(c) else root, ctx, Blacken(c))
    ensures UnlinkOne(mem, n.id, Id(c)).Keys == mem.Keys
  {
    NodeHere(mem, root, ctx, n);
    NullNot(n);
    IdIn(c);
    CtxApart(ctx, Ids(n));
    AboveIn(ctx);
    var mem' := UnlinkOne(mem, n.id, Id(c));
    assert Ids(c) <= Ids(n) && n.id !in Ids(c) && Proper(c) && Rep(mem, c, n.id);
    hide Rep, RepCtx, CtxProper, Proper, Ids;
    if c.Node? {
      RepMoved(mem, mem', c, n.id, Above(ctx), true);
    }
    BlackenProper(c);
    LeafRep(mem', Blacken(c), Above(ctx));
    RebuiltAt(mem, mem', root, if ctx == [] then Id(c) else root, ctx, Ids(n), n.id, Blacken(c), {Id(c)});
  }

  lemma {:induction false} LeafRep(mem: Mem, t: Tree, p: int)
    ensures t.Leaf? ==> Rep(mem, t, p) && Proper(t) && Ids(t) == {}
  {
  }

  // ---------- two children

  /** The successor s comes from the far end of left links (below p, out of the subtree y) or is the right child itself. */
  function Splice(mem: Mem, n: int, s: int, p: int, y: int, c: int, deep: bool): Mem
    requires n in mem && s in mem && mem[n].left in mem && (deep ==> p in mem && y in mem) && (c != 0 ==> c in mem)
  {
    var m1 := if deep then SetKid(mem, p, true, c) else mem;
    var m2 := if deep then SetKid(m1, s, false, y) else m1;
    var m3 := if deep then m2[y := m2[y].(parent := s)] else m2;
    var x := m3[n].left;
    if x !in m3 then mem else
    var m4 := SetKid(m3, s, true, x);
    var m5 := m4[x := m4[x].(parent := s)];
    var m6 := RelinkAbove(m5, m5[n].parent, n, s);
    var m7 := m6[s := m6[s].(parent := m6[n].parent, black := m6[n].black)];
    if c != 0 then SetParentColor(m7, c, if deep then p else s, true) else m7
  }

  /** The outcome, node by node. */
  lemma SpliceIs(mem: Mem, n: int, s: int, p: int, y: int, c: int, deep: bool, x: int, above: int)
    requires n in mem && s in mem && x in mem && (deep ==> p in mem && y in mem) && (c != 0 ==> c in mem) && (above != 0 ==> above in mem)
    requires mem[n].left == x && mem[n].parent == above && mem[s].right == c
    requires n != s && n != x && n != c && n != above && s != x && s != c && s != above && x != c && x != above && (c != 0 ==> c != above)
    requires deep ==> p != n && p != s && p != x && p != c && p != above && y != n && y != s && y != x && y != c && y != above
    ensures var mem' := Splice(mem, n, s, p, y, c, deep);
            var mem1 := if deep then SetKid(mem, p, true, c) else mem;
            && mem'.Keys == mem.Keys
            && mem'[s] == Rb(x, if deep then y else c, above, mem[n].black)
            && mem'[x] == mem[x].(parent := s)
            && (above != 0 ==> mem'[above] == ChangeChild(mem[above], n, s))
            && (c != 0 ==> mem'[c] == mem[c].(parent := if deep then p else s, black := true))
            && (deep ==> mem'[y] == mem1[y].(parent := s) && (p != y ==> mem'[p] == mem1[p]))
            && forall z | z in mem && z != s && z != x && z != above && z != c && !(deep && (z == p || z == y)) :: mem'[z] == mem[z]
  {
  }

  /** Down into a child. */
  lemma {:induction false} Down(mem: Mem, root: int, ctx: Ctx, t: Tree, left: bool)
    requires Whole(mem, root, ctx, t) && t.Node?
    ensures var f := Frame(left, t.id, t.black, Far(left, t)); var k := Near(left, t);
            Whole(mem, root, [f] + ctx, k) && Plug([f] + ctx, k) == Plug(ctx, t)
  {
    var f := Frame(left, t.id, t.black, Far(left, t));
    var k := Near(left, t);
    MkParts(left, t);
    ProperMk(left, k, t.id, t.black, f.sib);
    RepMk(mem, left, k, t.id, t.black, f.sib, Above(ctx));
    assert ([f] + ctx)[0] == f && ([f] + ctx)[1..] == ctx;
    assert Ids(k) + {f.id} + Ids(f.sib) == Ids(t);
  }

  ghost predicate AllLeft(a: Ctx) {
    forall i | 0 <= i < |a| :: a[i].left
  }

  /** The place of the successor: sub has no left child, and from it left links lead up to the right child of f's node. */
  ghost predicate AtSuccessor(mem: Mem, root: int, a: Ctx, f: Frame, ctx: Ctx, sub: Tree) {
    Whole(mem, root, a + ([f] + ctx), sub) && sub.Node? && sub.l.Leaf? && AllLeft(a) && !f.left && f.sib.Node?
  }

  /** Everything below the node above f. */
  ghost function Used(a: Ctx, f: Frame, sub: Tree): set<int> {
    Ids(sub) + CtxIds(a) + {f.id} + Ids(f.sib)
  }

  lemma {:induction false} SuccessorParts(mem: Mem, root: int, a: Ctx, f: Frame, ctx: Ctx, sub: Tree)
    requires AtSuccessor(mem, root, a, f, ctx, sub)
    ensures RepSeg(mem, a, f.id, sub.id) && CtxProper(a, Ids(sub)) && RepCtx(mem, root, ctx, f.id)
    ensures f.id in mem && mem[f.id] == Rb(Id(f.sib), Top(a, sub.id), Above(ctx), f.black)
    ensures Rep(mem, f.sib, f.id) && Proper(f.sib) && CtxProper(ctx, Used(a, f, sub))
    ensures f.id != 0 && f.id !in Ids(sub) && f.id !in CtxIds(a) && f.id !in Ids(f.sib)
    ensures Ids(f.sib) !! Ids(sub) && Ids(f.sib) !! CtxIds(a) && CtxIds(a) !! Ids(sub)
    ensures sub.id in mem && mem[sub.id] == Rb(0, Id(sub.r), Over(a, f.id), sub.black)
    ensures Rep(mem, sub.r, sub.id) && Proper(sub.r) && sub.id !in Ids(sub.r) && Ids(sub) == {sub.id} + Ids(sub.r)
  {
    var b := [f] + ctx;
    assert b[0] == f && b[1..] == ctx;
    SegJoin(mem, root, a, b, sub.id);
    ProperJoin(a, b, Ids(sub));
    CtxApart(a, Ids(sub));
    assert Above(a + b) == Over(a, f.id);
    hide RepSeg, CtxIds, SameOn;
    RepCtxOpen(mem, root, b, Top(a, sub.id));
    CtxProperOpen(b, Ids(sub) + CtxIds(a));
  }

  lemma {:induction false} SuccessorProper(a: Ctx, f: Frame, ctx: Ctx, sub: Tree)
    requires CtxProper(a, Ids(sub)) && CtxProper(ctx, Used(a, f, sub)) && Proper(f.sib) && sub.Node? && sub.id != 0
    requires Ids(f.sib) !! Ids(sub) && Ids(f.sib) !! CtxIds(a) && CtxIds(a) !! Ids(sub)
    requires sub.id !in Ids(sub.r) && Ids(sub) == {sub.id} + Ids(sub.r)
    ensures CtxProper(a + ([f.(id := sub.id)] + ctx), Ids(sub.r))
  {
    hide CtxIds, Ids, Proper;
    var f' := f.(id := sub.id);
    var b := [f'] + ctx;
    assert b[0] == f' && b[1..] == ctx;
    CtxProperLess(a, Ids(sub), Ids(sub.r));
    CtxProperLess(ctx, Used(a, f, sub), Ids(sub.r) + CtxIds(a) + {sub.id} + Ids(f.sib));
    ProperJoin(a, b, Ids(sub.r));
  }

  function SpliceAt(mem: Mem, a: Ctx, f: Frame, sub: Tree): Mem
    requires sub.Node? && f.id in mem && sub.id in mem && mem[f.id].left in mem && (Id(sub.r) != 0 ==> Id(sub.r) in mem)
    requires a != [] ==> a[0].id in mem && a[|a| - 1].id in mem
  {
    Splice(mem, f.id, sub.id, Over(a, sub.id), Top(a, sub.id), Id(sub.r), a != [])
  }

  lemma SpliceReads(mem: Mem, root: int, a: Ctx, f: Frame, ctx: Ctx, sub: Tree)
    requires AtSuccessor(mem, root, a, f, ctx, sub)
    ensures sub.id != 0 && f.id in mem && sub.id in mem && mem[f.id].left in mem && (Id(sub.r) != 0 ==> Id(sub.r) in mem)
    ensures a != [] ==> a[0].id in mem && a[|a| - 1].id in mem
    ensures (Id(sub.r) == 0 <==> sub.r.Leaf?) && (Above(ctx) != 0 ==> Above(ctx) in mem)
  {
    SuccessorParts(mem, root, a, f, ctx, sub);
    NullNot(sub.r);
    NullNot(sub);
    IdIn(sub.r);
    IdIn(f.sib);
    SegIn(mem, a, f.id, sub.id);
  }

  lemma {:induction false} SegIn(mem: Mem, a: Ctx, above: int, hole: int)
    requires RepSeg(mem, a, above, hole)
    ensures a != [] ==> a[0].id in mem && a[|a| - 1].id in mem
    decreases |a|
  {
    if |a| > 1 { SegIn(mem, a[1..], above, a[0].id); }
  }

  /** The nodes the splice touches are all different. */
  lemma SpliceApart(mem: Mem, root: int, a: Ctx, f: Frame, ctx: Ctx, sub: Tree)
    requires AtSuccessor(mem, root, a, f, ctx, sub)
    ensures var n, s, x, c, above := f.id, sub.id, f.sib.id, Id(sub.r), Above(ctx);
            && n != s && n != x && n != c && n != above && s != x && s != c && s != above && x != c && x != above && (c != 0 ==> c != above)
            && (a != [] ==> var p, y := a[0].id, a[|a| - 1].id;
                            && p != n && p != s && p != x && p != c && p != above && y != n && y != s && y != x && y != c && y != above)
  {
    SuccessorParts(mem, root, a, f, ctx, sub);
    CtxApart(ctx, Used(a, f, sub));
    CtxApart(a, Ids(sub));
    AboveIn(ctx);
    IdIn(sub.r);
    IdIn(f.sib);
    NullNot(sub);
    NullNot(f.sib);
    if a != [] { LastIn(a); }
  }

  /** What the splice leaves outside the way up from the successor to the node. */
  ghost predicate SplicedTo(mem: Mem, mem': Mem, a: Ctx, f: Frame, sub: Tree, above: int)
    requires sub.Node? && f.sib.Node?
  {
    var s, c := sub.id, Id(sub.r);
    && mem'.Keys == mem.Keys && s in mem' && f.sib.id in mem'
    && mem'[s] == Rb(f.sib.id, Top(a, c), above, f.black)
    && mem'[f.sib.id] == mem[f.sib.id].(parent := s)
    && (above != 0 ==> above in mem' && mem'[above] == ChangeChild(mem[above], f.id, s))
    && (c != 0 ==> c in mem' && mem'[c] == mem[c].(parent := Over(a, s), black := true))
    && (a != [] ==> a[0].id in mem && var mem1 := SetKid(mem, a[0].id, true, c); var y := a[|a| - 1].id;
                    y in mem' && y in mem1 && mem'[y] == mem1[y].(parent := s) && (a[0].id != y ==> mem'[a[0].id] == mem1[a[0].id]))
    && forall z | z in mem && z != s && z != f.sib.id && z != above && z != c && !(a != [] && (z == a[0].id || z == a[|a| - 1].id)) :: mem'[z] == mem[z]
  }

  lemma SpliceDone(mem: Mem, root: int, a: Ctx, f: Frame, ctx: Ctx, sub: Tree)
    requires AtSuccessor(mem, root, a, f, ctx, sub)
    ensures f.id in mem && sub.id in mem && mem[f.id].left in mem && (Id(sub.r) != 0 ==> Id(sub.r) in mem)
    ensures a != [] ==> a[0].id in mem && a[|a| - 1].id in mem
    ensures SplicedTo(mem, SpliceAt(mem, a, f, sub), a, f, sub, Above(ctx))
  {
    SpliceReads(mem, root, a, f, ctx, sub);
    SpliceApart(mem, root, a, f, ctx, sub);
    SuccessorParts(mem, root, a, f, ctx, sub);
    hide AtSuccessor, RepSeg, RepCtx, Rep, CtxProper, Proper, Ids, CtxIds, Splice;
    SpliceIs(mem, f.id, sub.id, Over(a, sub.id), Top(a, sub.id), Id(sub.r), a != [], f.sib.id, Above(ctx));
  }

  /** The way up from the successor's old place to its new one. */
  lemma {:induction false} SegSpliced(mem: Mem, mem': Mem, a: Ctx, f: Frame, sub: Tree, above: int)
    requires sub.Node? && f.sib.Node? && RepSeg(mem, a, f.id, sub.id) && CtxProper(a, Ids(sub)) && AllLeft(a)
    requires SplicedTo(mem, mem', a, f, sub, above) && above !in CtxIds(a) && f.sib.id !in CtxIds(a) && CtxIds(a) !! Ids(sub)
    ensures RepSeg(mem', a, sub.id, Id(sub.r))
  {
    if a != [] {
      var c := Id(sub.r);
      var mem1 := SetKid(mem, a[0].id, true, c);
      CtxApart(a, Ids(sub));
      IdIn(sub.r);
      LastIn(a);
      assert c !in CtxIds(a) && sub.id !in CtxIds(a);
      hide RepSeg, CtxProper, Ids, CtxIds;
      SegHole(mem, mem1, a, Ids(sub), f.id, sub.id, c);
      SegAbove(mem1, mem', a, Ids(sub), f.id, sub.id, c);
    }
  }

  /** The successor in the node's place: the tree, seen from where the successor was. */
  lemma Spliced(mem: Mem, root: int, a: Ctx, f: Frame, ctx: Ctx, sub: Tree)
    requires AtSuccessor(mem, root, a, f, ctx, sub)
    requires f.id in mem && sub.id in mem && mem[f.id].left in mem && (Id(sub.r) != 0 ==> Id(sub.r) in mem)
    requires a != [] ==> a[0].id in mem && a[|a| - 1].id in mem
    ensures var mem' := SpliceAt(mem, a, f, sub);
            && Whole(mem', if ctx == [] then sub.id else root, a + ([f.(id := sub.id)] + ctx), Blacken(sub.r))
            && mem'.Keys == mem.Keys
  {
    hide SpliceAt, AtSuccessor, Rep, RepCtx, CtxProper, Proper, Ids, CtxIds, RepSeg, SplicedTo;
    Successor(mem, root, a, f, ctx, sub);
    var mem' := SpliceAt(mem, a, f, sub);
    var root' := if ctx == [] then sub.id else root;
    var f' := f.(id := sub.id);
    SpliceDone(mem, root, a, f, ctx, sub);
    SpliceKeys(mem, mem', a, f, sub, Above(ctx));
    SpliceReads(mem, root, a, f, ctx, sub);
    SuccessorParts(mem, root, a, f, ctx, sub);
    SuccessorProper(a, f, ctx, sub);
    SubIds(a, f, ctx, sub);
    PlaceSpliced(mem, mem', root, a, f, ctx, sub);
    SegSpliced(mem, mem', a, f, sub, Above(ctx));
    ChildSpliced(mem, mem', a, f, sub, Above(ctx));
    assert Above([f'] + ctx) == sub.id && Above(a + ([f'] + ctx)) == Over(a, sub.id);
    SegJoin(mem', root', a, [f'] + ctx, Id(sub.r));
    BlackenProper(sub.r);
  }

  lemma Successor(mem: Mem, root: int, a: Ctx, f: Frame, ctx: Ctx, sub: Tree)
    requires AtSuccessor(mem, root, a, f, ctx, sub)
    ensures sub.Node? && sub.l.Leaf? && AllLeft(a) && !f.left && f.sib.Node?
  {
  }

  lemma SpliceKeys(mem: Mem, mem': Mem, a: Ctx, f: Frame, sub: Tree, above: int)
    requires sub.Node? && f.sib.Node? && SplicedTo(mem, mem', a, f, sub, above)
    ensures mem'.Keys == mem.Keys
  {
  }

  /** Where the names that matter are not. */
  lemma {:induction false} SubIds(a: Ctx, f: Frame, ctx: Ctx, sub: Tree)
    requires CtxProper(ctx, Used(a, f, sub)) && CtxProper(a, Ids(sub)) && sub.Node? && f.sib.Node? && Proper(sub.r)
    requires Ids(f.sib) !! Ids(sub) && Ids(f.sib) !! CtxIds(a) && CtxIds(a) !! Ids(sub)
    ensures sub.id in Ids(sub) && (Id(sub.r) in Ids(sub) || Id(sub.r) == 0)
    ensures Above(ctx) !in CtxIds(a) && Above(ctx) !in Ids(sub.r) && f.sib.id !in CtxIds(a) && f.sib.id !in Ids(sub.r)
    ensures a != [] ==> a[0].id !in Ids(sub.r) && a[|a| - 1].id !in Ids(sub.r)
  {
    AboveApart(a, f, ctx, sub);
    IdIn(sub.r);
    NullNot(sub.r);
    if a != [] { LastIn(a); }
    assert f.sib.id in Ids(f.sib) && Ids(sub.r) <= Ids(sub);
  }

  lemma {:induction false} AboveApart(a: Ctx, f: Frame, ctx: Ctx, sub: Tree)
    requires CtxProper(ctx, Used(a, f, sub)) && CtxProper(a, Ids(sub))
    ensures Above(ctx) !in CtxIds(a) && (Above(ctx) != 0 ==> Above(ctx) !in Ids(sub))
  {
    CtxApart(ctx, Used(a, f, sub));
    CtxApart(a, Ids(sub));
    AboveIn(ctx);
  }

  /** The node's place, its left subtree and what is above. */
  lemma {:induction false} PlaceSpliced(mem: Mem, mem': Mem, root: int, a: Ctx, f: Frame, ctx: Ctx, sub: Tree)
    requires sub.Node? && f.sib.Node? && SplicedTo(mem, mem', a, f, sub, Above(ctx)) && !f.left
    requires Rep(mem, f.sib, f.id) && Proper(f.sib) && RepCtx(mem, root, ctx, f.id) && CtxProper(ctx, Used(a, f, sub)) && CtxProper(a, Ids(sub))
    requires f.id != 0 && sub.id in Ids(sub) && (Id(sub.r) in Ids(sub) || Id(sub.r) == 0)
    requires Ids(f.sib) !! Ids(sub) && Ids(f.sib) !! CtxIds(a)
    ensures RepCtx(mem', if ctx == [] then sub.id else root, [f.(id := sub.id)] + ctx, Top(a, Id(sub.r)))
  {
    var f' := f.(id := sub.id);
    var b := [f'] + ctx;
    assert b[0] == f' && b[1..] == ctx;
    CtxApart(ctx, Used(a, f, sub));
    AboveIn(ctx);
    NullNot(f.sib);
    if a != [] { LastIn(a); }
    CtxIn(mem, root, ctx, f.id);
    hide CtxIds, Ids, CtxProper;
    RepMoved(mem, mem', f.sib, f.id, sub.id, f.sib.black);
    CtxSwapped(mem, mem', root, ctx, Used(a, f, sub), f.id, sub.id);
  }

  lemma {:induction false} CtxIn(mem: Mem, root: int, ctx: Ctx, hole: int)
    requires RepCtx(mem, root, ctx, hole)
    ensures ctx != [] ==> ctx[0].id in mem
  {
  }

  /** The successor's right subtree, in its old place and black. */
  lemma {:induction false} ChildSpliced(mem: Mem, mem': Mem, a: Ctx, f: Frame, sub: Tree, above: int)
    requires sub.Node? && f.sib.Node? && SplicedTo(mem, mem', a, f, sub, above)
    requires Rep(mem, sub.r, sub.id) && Proper(sub.r) && sub.id !in Ids(sub.r) && f.sib.id !in Ids(sub.r) && above !in Ids(sub.r)
    requires a != [] ==> a[0].id !in Ids(sub.r) && a[|a| - 1].id !in Ids(sub.r)
    ensures Rep(mem', Blacken(sub.r), Over(a, sub.id))
  {
    if sub.r.Node? {
      NullNot(sub.r);
      RepMoved(mem, mem', sub.r, sub.id, Over(a, sub.id), true);
    }
  }

  // ---------- finding the successor

  /** On the way from the node's right child down the left links. */
  ghost predicate GoingDown(mem: Mem, root: int, a: Ctx, f: Frame, ctx: Ctx, sub: Tree, right: Tree) {
    Whole(mem, root, a + ([f] + ctx), sub) && sub.Node? && AllLeft(a) && Plug(a, sub) == right
  }

  lemma {:induction false} DownStarts(mem: Mem, root: int, ctx: Ctx, n: Tree)
    requires Whole(mem, root, ctx, n) && n.Node? && n.r.Node?
    ensures var f := Frame(false, n.id, n.black, n.l); GoingDown(mem, root, [], f, ctx, n.r, n.r) && Plug([f] + ctx, n.r) == Plug(ctx, n)
  {
    hide Whole, Plug;
    Down(mem, root, ctx, n, false);
    var f := Frame(false, n.id, n.black, n.l);
    assert [] + ([f] + ctx) == [f] + ctx;
    PlugNone(n.r);
  }

  lemma {:induction false} PlugNone(t: Tree)
    ensures Plug([], t) == t
  {
  }

  lemma DownHere(mem: Mem, root: int, a: Ctx, f: Frame, ctx: Ctx, sub: Tree, right: Tree)
    requires GoingDown(mem, root, a, f, ctx, sub, right)
    ensures sub.Node? && sub.id in mem && mem[sub.id].left == Id(sub.l) && mem[sub.id].right == Id(sub.r) && mem[sub.id].black == sub.black
    ensures Id(sub.l) == 0 <==> sub.l.Leaf?
  {
    hide Whole, Plug;
    NodeHere(mem, root, a + ([f] + ctx), sub);
  }

  lemma {:induction false} DownPlug(mem: Mem, root: int, a: Ctx, f: Frame, ctx: Ctx, sub: Tree, right: Tree)
    requires GoingDown(mem, root, a, f, ctx, sub, right)
    ensures Plug(a, sub) == right
  {
  }

  lemma SuccessorRecord(mem: Mem, root: int, a: Ctx, f: Frame, ctx: Ctx, sub: Tree)
    requires AtSuccessor(mem, root, a, f, ctx, sub)
    ensures f.id in mem && mem[f.id] == Rb(Id(f.sib), Top(a, sub.id), Above(ctx), f.black)
    ensures sub.id in mem && mem[sub.id].right == Id(sub.r) && mem[sub.id].black == sub.black
    ensures a != [] ==> Top(a, sub.id) != sub.id
    ensures (Above(ctx) == 0 <==> ctx == []) && (Above(ctx) != 0 ==> Above(ctx) in mem)
  {
    SuccessorParts(mem, root, a, f, ctx, sub);
    SpliceApart(mem, root, a, f, ctx, sub);
    CtxIn(mem, root, ctx, f.id);
    CtxNull(ctx, Used(a, f, sub));
  }

  lemma DownOn(mem: Mem, root: int, a: Ctx, f: Frame, ctx: Ctx, sub: Tree, right: Tree)
    requires GoingDown(mem, root, a, f, ctx, sub, right) && sub.l.Node?
    ensures var g := Frame(true, sub.id, sub.black, sub.r); GoingDown(mem, root, [g] + a, f, ctx, sub.l, right)
  {
    hide Whole;
    var g := Frame(true, sub.id, sub.black, sub.r);
    Down(mem, root, a + ([f] + ctx), sub, true);
    assert [g] + (a + ([f] + ctx)) == ([g] + a) + ([f] + ctx);
    assert ([g] + a)[0] == g && ([g] + a)[1..] == a;
  }

  lemma {:induction false} DownEnds(mem: Mem, root: int, a: Ctx, f: Frame, ctx: Ctx, sub: Tree, right: Tree)
    requires GoingDown(mem, root, a, f, ctx, sub, right) && sub.l.Leaf? && !f.left && f.sib.Node?
    ensures AtSuccessor(mem, root, a, f, ctx, sub) && Plug(a + ([f] + ctx), sub) == Plug([f] + ctx, right)
    ensures Inorder(right) != [] && sub.id == Inorder(right)[0]
  {
    SuccessorIsNext(a, sub);
    hide Inorder;
    PlugJoin(a, [f] + ctx, sub);
  }

  // ---------- what comes out

  /** Where the erased node's place is taken care of: all is well, or the place is one black node short. */
  ghost predicate Unlinked(mem: Mem, root: int, ctx: Ctx, t: Tree, rebalance: int) {
    && Whole(mem, root, ctx, t)
    && (rebalance == 0 ==> RedBlack(Plug(ctx, t)))
    && (rebalance != 0 ==> t.Leaf? && ctx != [] && rebalance == ctx[0].id && Short(ctx, t, 0))
  }

  /** The parent is the place to rebalance from exactly when a black node without children went. */
  lemma {:induction false} UnlinkedBy(mem: Mem, root: int, ctx: Ctx, n: Tree, c: Tree, ctx': Ctx)
    requires RedBlack(Plug(ctx, n)) && OnlyKid(n, c) && SameShape(ctx, ctx') && Whole(mem, root, ctx', Blacken(c))
    ensures Unlinked(mem, root, ctx', Blacken(c), if c.Leaf? && n.black then Above(ctx') else 0)
  {
    Removed(ctx, n, c, ctx');
    CtxNull(ctx', Ids(Blacken(c)));
  }

  lemma {:induction false} CtxNull(ctx: Ctx, used: set<int>)
    requires CtxProper(ctx, used)
    ensures Above(ctx) == 0 <==> ctx == []
  {
  }

  // ---------- the order

  lemma {:induction false} LeftOrder(a: Ctx, t: Tree)
    requires AllLeft(a)
    ensures Inorder(Plug(a, t)) == Inorder(t) + Post(a)
    decreases |a|
  {
    hide Inorder;
    OrderAround(a, t);
    LeftPre(a);
  }

  lemma {:induction false} LeftPre(a: Ctx)
    requires AllLeft(a)
    ensures Pre(a) == []
    decreases |a|
  {
    if a != [] { LeftPre(a[1..]); }
  }

  /** The order without the node. */
  ghost function OrderWithout(ctx: Ctx, n: Tree): seq<int>
    requires n.Node?
  {
    Pre(ctx) + Inorder(n.l) + (Inorder(n.r) + Post(ctx))
  }

  lemma {:induction false} OneOrder(ctx: Ctx, n: Tree, c: Tree)
    requires OnlyKid(n, c)
    ensures Inorder(Plug(ctx, Blacken(c))) == OrderWithout(ctx, n)
  {
    OrderAround(ctx, Blacken(c));
    OnlyKidOrder(n, c);
    hide Inorder, Pre, Post, Plug, Blacken, OnlyKid;
    Between(Pre(ctx), Inorder(n.l), Inorder(n.r), Post(ctx));
  }

  lemma {:induction false} OnlyKidOrder(n: Tree, c: Tree)
    requires OnlyKid(n, c)
    ensures n.Node? && Inorder(Blacken(c)) == Inorder(n.l) + Inorder(n.r)
  {
    assert Inorder(Blacken(c)) == Inorder(c);
  }

  lemma {:induction false} SplicedOrder(ctx: Ctx, n: Tree, a: Ctx, sub: Tree)
    requires n.Node? && sub.Node? && sub.l.Leaf? && AllLeft(a) && n.r == Plug(a, sub)
    ensures Inorder(Plug(a + ([Frame(false, sub.id, n.black, n.l)] + ctx), Blacken(sub.r))) == OrderWithout(ctx, n)
  {
    hide Inorder, Pre, Post, Plug, AllLeft;
    var f' := Frame(false, sub.id, n.black, n.l);
    var c := Blacken(sub.r);
    var u := Up(f', Plug(a, c));
    PlugJoin(a, [f'] + ctx, c);
    PlugUp(f', ctx, Plug(a, c));
    SpliceOrder(n.l, sub, a);
    InorderMk(false, Plug(a, c), sub.id, n.black, n.l);
    OrderAround(ctx, u);
    Between(Pre(ctx), Inorder(n.l), Inorder(n.r), Post(ctx));
  }

  lemma {:induction false} PlugUp(f: Frame, ctx: Ctx, t: Tree)
    ensures Plug([f] + ctx, t) == Plug(ctx, Up(f, t))
  {
    assert ([f] + ctx)[0] == f && ([f] + ctx)[1..] == ctx;
  }

  lemma Between(a: seq<int>, b: seq<int>, c: seq<int>, d: seq<int>)
    ensures a + (b + c) + d == a + b + (c + d)
  {
  }

  /** The successor comes between the two subtrees, as it did. */
  lemma {:induction false} SpliceOrder(l: Tree, sub: Tree, a: Ctx)
    requires sub.Node? && sub.l.Leaf? && AllLeft(a)
    ensures Inorder(l) + [sub.id] + Inorder(Plug(a, Blacken(sub.r))) == Inorder(l) + Inorder(Plug(a, sub))
  {
    hide Inorder, Plug, AllLeft, Post;
    LeftOrder(a, Blacken(sub.r));
    LeftOrder(a, sub);
    SubOrder(sub);
    assert [sub.id] + (Inorder(Blacken(sub.r)) + Post(a)) == [sub.id] + Inorder(Blacken(sub.r)) + Post(a);
  }

  lemma {:induction false} SubOrder(sub: Tree)
    requires sub.Node? && sub.l.Leaf?
    ensures Inorder(sub) == [sub.id] + Inorder(Blacken(sub.r))
  {
    assert Inorder(Blacken(sub.r)) == Inorder(sub.r);
  }

  /** The place found is that of the node that comes next. */
  lemma {:induction false} SuccessorIsNext(a: Ctx, sub: Tree)
    requires sub.Node? && sub.l.Leaf? && AllLeft(a)
    ensures Inorder(Plug(a, sub)) != [] && Inorder(Plug(a, sub))[0] == sub.id
  {
    LeftOrder(a, sub);
    SubOrder(sub);
    hide Inorder, Plug;
  }

  lemma {:induction false} NodeOrder(ctx: Ctx, n: Tree)
    requires n.Node?
    ensures Inorder(Plug(ctx, n)) == Pre(ctx) + Inorder(n.l) + [n.id] + (Inorder(n.r) + Post(ctx))
  {
    OrderAround(ctx, n);
    assert Inorder(n) == Inorder(n.l) + [n.id] + Inorder(n.r);
    hide Inorder, Pre, Post, Plug;
    assert Pre(ctx) + (Inorder(n.l) + [n.id] + Inorder(n.r)) + Post(ctx) == Pre(ctx) + Inorder(n.l) + [n.id] + (Inorder(n.r) + Post(ctx));
  }

  /** The frames around the successor's place have one name changed. */
  lemma SplicedShape(a: Ctx, f: Frame, ctx: Ctx, s: int)
    ensures SameShape(a + ([f] + ctx), a + ([f.(id := s)] + ctx))
  {
  }
}
