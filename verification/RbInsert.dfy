/** __rb_insert(), case by case: what each does to the records, and that the tree it leaves is the one meant. */
module RbInsert {
  import opened RbTree
  import opened RbMemory

  /** The node, its parent p and grandparent g with what hangs on them: all apart. */
  ghost predicate Pieces(p: Frame, g: Frame, t: Tree) {
    && Proper(t) && Proper(p.sib) && Proper(g.sib) && p.id != 0 && g.id != 0 && p.id != g.id
    && p.id !in Ids(t) && p.id !in Ids(p.sib) && g.id !in Ids(t) && g.id !in Ids(p.sib) && g.id !in Ids(g.sib) && p.id !in Ids(g.sib)
    && Ids(t) !! Ids(p.sib) && Ids(t) !! Ids(g.sib) && Ids(p.sib) !! Ids(g.sib)
  }

  ghost function AllIds(p: Frame, g: Frame, t: Tree): set<int> {
    Ids(t) + {p.id} + Ids(p.sib) + {g.id} + Ids(g.sib)
  }

  /** The records of p and g. */
  ghost predicate Records(mem: Mem, p: Frame, g: Frame, t: Tree, above: int) {
    && p.id in mem && g.id in mem && Rep(mem, t, p.id) && Rep(mem, p.sib, p.id) && Rep(mem, g.sib, g.id)
    && mem[p.id] == Record(p.left, Id(t), Id(p.sib), g.id, p.black)
    && mem[g.id] == Record(g.left, p.id, Id(g.sib), above, g.black)
  }

  lemma {:induction false} TwoFrames(mem: Mem, root: int, ctx: Ctx, t: Tree)
    requires Whole(mem, root, ctx, t) && |ctx| >= 2
    ensures var p, g, rest := ctx[0], ctx[1], ctx[2..];
            && Pieces(p, g, t) && Records(mem, p, g, t, Above(rest)) && RepCtx(mem, root, rest, g.id)
            && CtxProper(rest, AllIds(p, g, t)) && ctx[1..][1..] == rest && ctx[1..][0] == g
  {
    var p, g, rest := ctx[0], ctx[1], ctx[2..];
    assert ctx[1..][0] == g && ctx[1..][1..] == rest;
    hide Ids, Rep, RepCtx, CtxProper, Proper;
    RepCtxOpen(mem, root, ctx, Id(t));
    RepCtxOpen(mem, root, ctx[1..], p.id);
    CtxProperOpen(ctx, Ids(t));
    CtxProperOpen(ctx[1..], Ids(t) + {p.id} + Ids(p.sib));
    assert AllIds(p, g, t) == (Ids(t) + {p.id} + Ids(p.sib)) + {g.id} + Ids(g.sib);
  }

  /** A rebuilt subtree in its old context. */
  lemma {:induction false} Rebuilt(mem: Mem, mem': Mem, root: int, rest: Ctx, used: set<int>, hole: int, t': Tree)
    requires RepCtx(mem, root, rest, hole) && CtxProper(rest, used) && SameOn(mem, mem', CtxIds(rest))
    requires Rep(mem', t', Above(rest)) && Proper(t') && Ids(t') == used && Id(t') == hole
    ensures Whole(mem', root, rest, t')
  {
    CtxKept(mem, mem', root, rest, hole);
  }

  /** Case 1: the records after the colour flips. */
  ghost predicate FlipsTo(mem: Mem, mem': Mem, p: Frame, g: Frame) {
    && g.sib.Node? && p.id in mem && g.id in mem && g.sib.id in mem && p.id in mem' && g.id in mem' && g.sib.id in mem'
    && mem'[g.sib.id] == mem[g.sib.id].(parent := g.id, black := true)
    && mem'[p.id] == mem[p.id].(parent := g.id, black := true)
    && mem'[g.id] == mem[g.id].(black := false)
    && forall x | x in mem && x != p.id && x != g.id && x != g.sib.id :: x in mem' && mem'[x] == mem[x]
  }

  lemma FlipDone(mem: Mem, mem': Mem, root: int, ctx: Ctx, t: Tree)
    requires Whole(mem, root, ctx, t) && |ctx| >= 2 && FlipsTo(mem, mem', ctx[0], ctx[1])
    ensures Whole(mem', root, ctx[2..], Flipped(ctx[0], ctx[1], t))
  {
    hide Ids, Inorder, Whole, CtxProper, RepCtx, Rep, Proper;
    TwoFrames(mem, root, ctx, t);
    var p, g, rest := ctx[0], ctx[1], ctx[2..];
    var u := g.sib;
    FlippedSame(p, g, t);
    CtxApart(rest, AllIds(p, g, t));
    IdIn(u);
    RepKept(mem, mem', t, p.id);
    RepKept(mem, mem', p.sib, p.id);
    RepMoved(mem, mem', u, g.id, g.id, true);
    var np := Mk(p.left, t, p.id, true, p.sib);
    RepMk(mem', p.left, t, p.id, true, p.sib, g.id);
    RepMk(mem', g.left, np, g.id, false, Blacken(u), Above(rest));
    ProperMk(p.left, t, p.id, true, p.sib);
    ProperMk(g.left, np, g.id, false, Blacken(u));
    BlackenProper(u);
    MkId(p.left, t, p.id, true, p.sib);
    MkId(g.left, np, g.id, false, Blacken(u));
    Rebuilt(mem, mem', root, rest, AllIds(p, g, t), g.id, Flipped(p, g, t));
  }

  lemma {:induction false} BlackenProper(t: Tree)
    ensures Ids(Blacken(t)) == Ids(t) && (Proper(Blacken(t)) <==> Proper(t)) && Id(Blacken(t)) == Id(t)
  {
  }

  lemma MkId(left: bool, near: Tree, id: int, black: bool, far: Tree)
    ensures Id(Mk(left, near, id, black, far)) == id
  {
  }

  // ---------- rotations

  /** Outside the listed nodes and the node above, nothing changes. */
  ghost predicate Elsewhere(mem: Mem, mem': Mem, touched: set<int>, above: int) {
    forall x | x in mem && x !in touched && x != above :: x in mem' && mem'[x] == mem[x]
  }

  /** What hung on g's place above now points to new_. */
  ghost predicate Relinked(mem: Mem, mem': Mem, root: int, root': int, rest: Ctx, old_: int, new_: int) {
    if rest == [] then root' == new_
    else root' == root && rest[0].id in mem && rest[0].id in mem' && mem'[rest[0].id] == ChangeChild(mem[rest[0].id], old_, new_)
  }

  lemma {:induction false} RebuiltAt(mem: Mem, mem': Mem, root: int, root': int, rest: Ctx, used: set<int>, old_: int, t': Tree, touched: set<int>)
    requires RepCtx(mem, root, rest, old_) && CtxProper(rest, used) && old_ in used && old_ != 0
    requires Relinked(mem, mem', root, root', rest, old_, Id(t')) && touched <= used + {0} && Elsewhere(mem, mem', touched, Above(rest))
    requires Rep(mem', t', Above(rest)) && Proper(t') && Ids(t') <= used
    ensures Whole(mem', root', rest, t')
  {
    CtxApart(rest, used);
    CtxProperLess(rest, used, Ids(t'));
    CtxSwapped(mem, mem', root, rest, used, old_, Id(t'));
  }

  /** A subtree that nobody wrote to. */
  lemma {:induction false} Untouched(mem: Mem, mem': Mem, t: Tree, p: int, touched: set<int>, above: int)
    requires Rep(mem, t, p) && Elsewhere(mem, mem', touched, above) && Ids(t) !! touched && above !in Ids(t)
    ensures Rep(mem', t, p)
  {
    RepKept(mem, mem', t, p);
  }

  /** A black subtree hung on another node. */
  lemma {:induction false} Rehung(mem: Mem, mem': Mem, t: Tree, p: int, q: int, touched: set<int>, above: int)
    requires Rep(mem, t, p) && Proper(t) && Black(t) && above !in Ids(t) && Ids(t) * touched <= {Id(t)}
    requires Elsewhere(mem, mem', touched, above)
    requires t.Node? ==> t.id in mem && t.id in mem' && mem'[t.id] == mem[t.id].(parent := q, black := true)
    ensures Rep(mem', t, q)
  {
    if t.Node? {
      forall x | x in Ids(t) - {t.id} && x in mem ensures x in mem' && mem'[x] == mem[x] {
        assert x !in touched;
      }
      RepMoved(mem, mem', t, p, q, true);
    }
  }

  /** Case 3: the records after the rotation at the grandparent. */
  ghost predicate RotatesTo(mem: Mem, mem': Mem, p: Frame, g: Frame, t: Tree, above: int) {
    && p.id in mem' && g.id in mem'
    && mem'[p.id] == Record(g.left, Id(t), g.id, above, true)
    && mem'[g.id] == Record(g.left, Id(p.sib), Id(g.sib), p.id, false)
    && (p.sib.Node? ==> p.sib.id in mem && p.sib.id in mem' && mem'[p.sib.id] == mem[p.sib.id].(parent := g.id, black := true))
  }

  lemma RotateDone(mem: Mem, mem': Mem, root: int, root': int, ctx: Ctx, t: Tree)
    requires Whole(mem, root, ctx, t) && |ctx| >= 2 && ctx[0].left == ctx[1].left && Black(ctx[0].sib)
    requires RotatesTo(mem, mem', ctx[0], ctx[1], t, Above(ctx[2..]))
    requires Elsewhere(mem, mem', {ctx[0].id, ctx[1].id, Id(ctx[0].sib)}, Above(ctx[2..]))
    requires Relinked(mem, mem', root, root', ctx[2..], ctx[1].id, ctx[0].id)
    ensures Whole(mem', root', ctx[2..], Rotated(ctx[0], ctx[1], t))
  {
    TwoFrames(mem, root, ctx, t);
    var p, g, rest := ctx[0], ctx[1], ctx[2..];
    var touched := {p.id, g.id, Id(p.sib)};
    var above := Above(rest);
    var all := AllIds(p, g, t);
    RotatedSame(p, g, t);
    AboveApart(rest, p, g, t);
    RotateApart(p, g, t);
    hide Ids, Inorder, Whole, CtxProper, RepCtx, Rep, Proper, Pieces, AllIds;
    Untouched(mem, mem', t, p.id, touched, above);
    Untouched(mem, mem', g.sib, g.id, touched, above);
    Rehung(mem, mem', p.sib, p.id, g.id, touched, above);
    RotateRebuilt(mem', p, g, t, above);
    RebuiltAt(mem, mem', root, root', rest, all, g.id, Rotated(p, g, t), touched);
  }

  lemma {:induction false} RotateApart(p: Frame, g: Frame, t: Tree)
    requires Pieces(p, g, t)
    ensures var touched := {p.id, g.id, Id(p.sib)};
            && Ids(t) !! touched && Ids(g.sib) !! touched && Ids(p.sib) * touched <= {Id(p.sib)}
            && touched <= AllIds(p, g, t) + {0} && g.id in AllIds(p, g, t) && g.id != 0 && Proper(p.sib)
  {
    NullNot(t);
    NullNot(g.sib);
    IdIn(p.sib);
    hide Ids, Proper;
  }

  /** The node above the grandparent is none of theirs. */
  lemma {:induction false} AboveApart(rest: Ctx, p: Frame, g: Frame, t: Tree)
    requires CtxProper(rest, AllIds(p, g, t)) && Pieces(p, g, t)
    ensures var above := Above(rest); above !in Ids(t) && above !in Ids(p.sib) && above !in Ids(g.sib) && above != p.id && above != g.id
  {
    CtxApart(rest, AllIds(p, g, t));
    AboveIn(rest);
    NullNot(t);
    NullNot(p.sib);
    NullNot(g.sib);
    hide Ids, Proper, CtxProper;
  }

  lemma {:induction false} RotateRebuilt(mem': Mem, p: Frame, g: Frame, t: Tree, above: int)
    requires p.id in mem' && g.id in mem' && Pieces(p, g, t)
    requires mem'[p.id] == Record(g.left, Id(t), g.id, above, true) && mem'[g.id] == Record(g.left, Id(p.sib), Id(g.sib), p.id, false)
    requires Rep(mem', t, p.id) && Rep(mem', p.sib, g.id) && Rep(mem', g.sib, g.id)
    ensures var r := Rotated(p, g, t); Rep(mem', r, above) && Proper(r) && Id(r) == p.id
  {
    hide Ids, Rep, Proper;
    var ng := Mk(g.left, p.sib, g.id, false, g.sib);
    RepMk(mem', g.left, p.sib, g.id, false, g.sib, p.id);
    RepMk(mem', g.left, t, p.id, true, ng, above);
    ProperMk(g.left, p.sib, g.id, false, g.sib);
    ProperMk(g.left, t, p.id, true, ng);
    MkId(g.left, p.sib, g.id, false, g.sib);
    MkId(g.left, t, p.id, true, ng);
  }

  lemma {:induction false} IdIn(t: Tree)
    ensures t.Node? ==> Id(t) in Ids(t)
    ensures t.Leaf? ==> Id(t) == 0
  {
  }

  lemma {:induction false} AboveIn(ctx: Ctx)
    ensures ctx != [] ==> Above(ctx) in CtxIds(ctx)
    ensures ctx == [] ==> Above(ctx) == 0
  {
  }

  /** Cases 2 and 3: the records after both rotations. */
  ghost predicate TwiceRotatesTo(mem: Mem, mem': Mem, p: Frame, g: Frame, t: Tree, above: int)
    requires t.Node?
  {
    var a, b := Near(g.left, t), Far(g.left, t);
    && p.id in mem' && g.id in mem' && t.id in mem'
    && mem'[t.id] == Record(g.left, p.id, g.id, above, true)
    && mem'[p.id] == Record(g.left, Id(p.sib), Id(a), t.id, false)
    && mem'[g.id] == Record(g.left, Id(b), Id(g.sib), t.id, false)
    && (a.Node? ==> a.id in mem && a.id in mem' && mem'[a.id] == mem[a.id].(parent := p.id, black := true))
    && (b.Node? ==> b.id in mem && b.id in mem' && mem'[b.id] == mem[b.id].(parent := g.id, black := true))
  }

  /** The node's own pieces. */
  lemma {:induction false} NodePieces(mem: Mem, left: bool, t: Tree, p: int)
    requires Rep(mem, t, p) && Proper(t) && t.Node?
    ensures var a, b := Near(left, t), Far(left, t);
            && t == Mk(left, a, t.id, t.black, b) && Ids(t) == Ids(a) + {t.id} + Ids(b)
            && t.id != 0 && t.id !in Ids(a) && t.id !in Ids(b) && Ids(a) !! Ids(b) && Proper(a) && Proper(b)
            && Rep(mem, a, t.id) && Rep(mem, b, t.id) && t.id in mem && mem[t.id] == Record(left, Id(a), Id(b), p, t.black)
  {
  }

  lemma TwiceRotateDone(mem: Mem, mem': Mem, root: int, root': int, ctx: Ctx, t: Tree)
    requires Whole(mem, root, ctx, t) && |ctx| >= 2 && ctx[0].left != ctx[1].left && t.Node?
    requires Black(Near(ctx[1].left, t)) && Black(Far(ctx[1].left, t))
    requires TwiceRotatesTo(mem, mem', ctx[0], ctx[1], t, Above(ctx[2..]))
    requires Elsewhere(mem, mem', {ctx[0].id, ctx[1].id, t.id, Id(Near(ctx[1].left, t)), Id(Far(ctx[1].left, t))}, Above(ctx[2..]))
    requires Relinked(mem, mem', root, root', ctx[2..], ctx[1].id, t.id)
    ensures Whole(mem', root', ctx[2..], DoubleRotated(ctx[0], ctx[1], t))
  {
    TwoFrames(mem, root, ctx, t);
    var p, g, rest := ctx[0], ctx[1], ctx[2..];
    var a, b := Near(g.left, t), Far(g.left, t);
    var touched := {p.id, g.id, t.id, Id(a), Id(b)};
    var above := Above(rest);
    var all := AllIds(p, g, t);
    NodePieces(mem, g.left, t, p.id);
    DoubleRotatedSame(p, g, t);
    AboveApart(rest, p, g, t);
    TwiceApart(p, g, t);
    hide Ids, Inorder, Whole, CtxProper, RepCtx, Rep, Proper, Near, Far, AllIds, Pieces;
    Untouched(mem, mem', p.sib, p.id, touched, above);
    Untouched(mem, mem', g.sib, g.id, touched, above);
    Rehung(mem, mem', a, t.id, p.id, touched, above);
    Rehung(mem, mem', b, t.id, g.id, touched, above);
    TwiceRebuilt(mem', p, g, t, above);
    RebuiltAt(mem, mem', root, root', rest, all, g.id, DoubleRotated(p, g, t), touched);
  }

  lemma {:induction false} TwiceApart(p: Frame, g: Frame, t: Tree)
    requires Pieces(p, g, t) && t.Node?
    requires var a, b := Near(g.left, t), Far(g.left, t);
             Ids(t) == Ids(a) + {t.id} + Ids(b) && t.id !in Ids(a) && t.id !in Ids(b) && Ids(a) !! Ids(b)
    ensures var a, b := Near(g.left, t), Far(g.left, t); var touched := {p.id, g.id, t.id, Id(a), Id(b)};
            && Ids(p.sib) !! touched && Ids(g.sib) !! touched && Ids(a) * touched <= {Id(a)} && Ids(b) * touched <= {Id(b)}
            && touched <= AllIds(p, g, t) + {0} && g.id in AllIds(p, g, t) && g.id != 0
  {
    var a, b := Near(g.left, t), Far(g.left, t);
    NullNot(t);
    NullNot(p.sib);
    NullNot(g.sib);
    IdIn(a);
    IdIn(b);
    hide Ids, Proper, Near, Far;
  }

  lemma {:induction false} TwiceRebuilt(mem': Mem, p: Frame, g: Frame, t: Tree, above: int)
    requires t.Node? && t.id in mem' && p.id in mem' && g.id in mem'
    requires var a, b := Near(g.left, t), Far(g.left, t);
             && mem'[t.id] == Record(g.left, p.id, g.id, above, true)
             && mem'[p.id] == Record(g.left, Id(p.sib), Id(a), t.id, false)
             && mem'[g.id] == Record(g.left, Id(b), Id(g.sib), t.id, false)
             && Rep(mem', p.sib, p.id) && Rep(mem', a, p.id) && Rep(mem', b, g.id) && Rep(mem', g.sib, g.id)
             && Ids(t) == Ids(a) + {t.id} + Ids(b) && t.id !in Ids(a) && t.id !in Ids(b) && Ids(a) !! Ids(b) && t.id != 0
             && Proper(a) && Proper(b) && Pieces(p, g, t)
    ensures var r := DoubleRotated(p, g, t); Rep(mem', r, above) && Proper(r) && Id(r) == t.id
  {
    var a, b := Near(g.left, t), Far(g.left, t);
    hide Ids, Rep, Proper, Near, Far;
    var near, far := Mk(g.left, p.sib, p.id, false, a), Mk(g.left, b, g.id, false, g.sib);
    RepMk(mem', g.left, p.sib, p.id, false, a, t.id);
    RepMk(mem', g.left, b, g.id, false, g.sib, t.id);
    RepMk(mem', g.left, near, t.id, true, far, above);
    ProperMk(g.left, p.sib, p.id, false, a);
    ProperMk(g.left, b, g.id, false, g.sib);
    ProperMk(g.left, near, t.id, true, far);
    MkId(g.left, p.sib, p.id, false, a);
    MkId(g.left, b, g.id, false, g.sib);
    MkId(g.left, near, t.id, true, far);
  }
}
