/** __rb_insert(): the steps of the loop as whole steps from tree to tree. */
module RbInsertSteps {
  import opened RbTree
  import opened RbMemory
  import opened RbInsert
  import opened RbRotate

  /** A red node whose place in the tree is settled but for the red rule. */
  ghost predicate Inserting(mem: Mem, root: int, ctx: Ctx, t: Tree, h: nat) {
    Whole(mem, root, ctx, t) && t.Node? && !t.black && Bal(t, h) && Fits(ctx, h)
  }

  lemma InsertingHere(mem: Mem, root: int, ctx: Ctx, t: Tree, h: nat)
    requires Inserting(mem, root, ctx, t, h)
    ensures t.Node? && t.id in mem && t.id != 0 && mem[t.id].parent == Above(ctx) && (Above(ctx) == 0 <==> ctx == [])
    ensures ctx != [] ==> ctx[0].id in mem && mem[ctx[0].id].black == ctx[0].black && mem[ctx[0].id].parent == Above(ctx[1..])
  {
    if ctx != [] {
      ParentRecord(mem, root, ctx, t);
    }
    NullNot(t);
    assert t.id in Ids(t);
  }

  lemma {:induction false} RootDone(mem: Mem, root: int, ctx: Ctx, t: Tree, h: nat)
    requires Inserting(mem, root, ctx, t, h) && ctx == [] && t.id in mem
    ensures Whole(SetParentColor(mem, t.id, 0, true), root, [], Blacken(t)) && RedBlack(Blacken(t))
    ensures Inorder(Blacken(t)) == Inorder(Plug(ctx, t))
  {
    BlackenBal(t, h);
    BlackenProper(t);
    RepMoved(mem, SetParentColor(mem, t.id, 0, true), t, 0, 0, true);
  }

  lemma {:induction false} BlackParentDone(mem: Mem, root: int, ctx: Ctx, t: Tree, h: nat)
    requires Inserting(mem, root, ctx, t, h) && ctx != [] && ctx[0].black
    ensures Whole(mem, root, [], Plug(ctx, t)) && RedBlack(Plug(ctx, t))
  {
    WholePlug(mem, root, ctx, t);
    PlugRedBlack(ctx, t, h);
  }

  /** Below a red parent there is a grandparent, black; and how the code tells the sides. */
  lemma {:induction false} RedParent(mem: Mem, root: int, ctx: Ctx, t: Tree, h: nat)
    requires Inserting(mem, root, ctx, t, h) && ctx != [] && !ctx[0].black
    ensures |ctx| >= 2 && ctx[1].black && ctx[0].id in mem && ctx[1].id in mem && mem[ctx[0].id].parent == ctx[1].id
    ensures var p, g := ctx[0], ctx[1];
            && (p.id != mem[g.id].right <==> g.left)
            && Kid(mem[g.id], !g.left) == Id(g.sib) && Kid(mem[p.id], !g.left) == (if p.left == g.left then Id(p.sib) else t.id)
            && (Id(g.sib) != 0 <==> g.sib.Node?) && (g.sib.Node? ==> g.sib.id in mem && mem[g.sib.id].black == g.sib.black)
            && t.id != Id(p.sib) && mem[g.id].parent == Above(ctx[2..]) && Fits(ctx[2..], h + 1)
            && Bal(p.sib, h) && Black(p.sib) && Bal(g.sib, h)
  {
    TwoFrames(mem, root, ctx, t);
    var p, g := ctx[0], ctx[1];
    assert Fits(ctx[1..], h);
    NullNot(g.sib);
    NullNot(p.sib);
    IdIn(g.sib);
    IdIn(p.sib);
    IdIn(t);
    KidRecord(p.left, Id(t), Id(p.sib), g.id, p.black, 0);
    KidRecord(g.left, p.id, Id(g.sib), Above(ctx[2..]), g.black, 0);
    hide Fits, Bal, Whole, RepCtx, CtxProper, Ids, Proper;
  }

  function FlipMem(mem: Mem, u: int, p: int, g: int): Mem
    requires u in mem && p in mem && g in mem
  {
    var m2 := SetParentColor(SetParentColor(mem, u, g, true), p, g, true);
    SetParentColor(m2, g, m2[g].parent, false)
  }

  lemma {:induction false} FlipNext(mem: Mem, root: int, ctx: Ctx, t: Tree, h: nat)
    requires Inserting(mem, root, ctx, t, h) && ctx != [] && !ctx[0].black
    requires |ctx| >= 2 && ctx[1].sib.Node? && !ctx[1].sib.black
    ensures var p, g, rest := ctx[0], ctx[1], ctx[2..]; var f := Flipped(p, g, t);
            && g.sib.id in mem && p.id in mem && g.id in mem
            && Inserting(FlipMem(mem, g.sib.id, p.id, g.id), root, rest, f, h + 1)
            && f.id == g.id && FlipMem(mem, g.sib.id, p.id, g.id).Keys == mem.Keys
            && SetParentColor(SetParentColor(mem, g.sib.id, g.id, true), p.id, g.id, true)[g.id].parent == Above(rest)
            && Inorder(Plug(rest, f)) == Inorder(Plug(ctx, t))
  {
    var p, g, rest := ctx[0], ctx[1], ctx[2..];
    RedParent(mem, root, ctx, t, h);
    TwoFrames(mem, root, ctx, t);
    IdIn(g.sib);
    FlippedBal(p, g, t, h);
    FlippedSame(p, g, t);
    SamePlug(ctx, t, Flipped(p, g, t));
    MkId(g.left, Mk(p.left, t, p.id, true, p.sib), g.id, false, Blacken(g.sib));
    FlippedRed(p, g, t);
    hide Fits, Bal, Whole, RepCtx, CtxProper, Ids, Proper, Inorder, Rep, Plug, Flipped;
    FlipFacts(mem, p, g);
    FlipDone(mem, FlipMem(mem, g.sib.id, p.id, g.id), root, ctx, t);
  }

  lemma FlippedRed(p: Frame, g: Frame, t: Tree)
    ensures Flipped(p, g, t).Node? && !Flipped(p, g, t).black && Flipped(p, g, t).id == g.id
  {
  }

  lemma FlipFacts(mem: Mem, p: Frame, g: Frame)
    requires p.id in mem && g.id in mem && g.sib.Node? && g.sib.id in mem && g.sib.id != p.id && g.sib.id != g.id && p.id != g.id
    requires mem[p.id].parent == g.id
    ensures var mem' := FlipMem(mem, g.sib.id, p.id, g.id); FlipsTo(mem, mem', p, g) && mem'.Keys == mem.Keys
    ensures SetParentColor(SetParentColor(mem, g.sib.id, g.id, true), p.id, g.id, true)[g.id].parent == mem[g.id].parent
  {
  }

  /** The order of the whole follows that of the part. */
  lemma {:induction false} SamePlug(ctx: Ctx, t: Tree, u: Tree)
    requires |ctx| >= 2
    ensures Inorder(u) == Inorder(Up(ctx[1], Up(ctx[0], t))) ==> Inorder(Plug(ctx[2..], u)) == Inorder(Plug(ctx, t))
  {
    assert ctx[1..][0] == ctx[1] && ctx[1..][1..] == ctx[2..];
    assert Plug(ctx, t) == Plug(ctx[1..], Up(ctx[0], t)) == Plug(ctx[2..], Up(ctx[1], Up(ctx[0], t)));
    if Inorder(u) == Inorder(Up(ctx[1], Up(ctx[0], t))) {
      PlugInorder(ctx[2..], u, Up(ctx[1], Up(ctx[0], t)));
    }
  }

  /** What the last step of the fix-up leaves. */
  ghost predicate Settled(mem': Mem, root': int, rest: Ctx, u: Tree, ctx: Ctx, t: Tree) {
    && Whole(mem', root', [], Plug(rest, u)) && RedBlack(Plug(rest, u)) && Inorder(Plug(rest, u)) == Inorder(Plug(ctx, t))
  }

  lemma {:induction false} SettledBy(mem': Mem, root': int, ctx: Ctx, t: Tree, u: Tree, h: nat)
    requires |ctx| >= 2 && Whole(mem', root', ctx[2..], u) && Bal(u, h) && Black(u) && Fits(ctx[2..], h)
    requires Inorder(u) == Inorder(Up(ctx[1], Up(ctx[0], t)))
    ensures Settled(mem', root', ctx[2..], u, ctx, t)
  {
    WholePlug(mem', root', ctx[2..], u);
    PlugRedBlack(ctx[2..], u, h);
    SamePlug(ctx, t, u);
  }

  function NewRoot(mem: Mem, root: int, g: int, p: int): int
    requires g in mem
  {
    if mem[g].parent == 0 then p else root
  }

  /** The node above, as the records and the context know it. */
  lemma {:induction false} AboveRecord(mem: Mem, root: int, ctx: Ctx, t: Tree)
    requires Whole(mem, root, ctx, t) && |ctx| >= 2
    ensures var p, g, rest := ctx[0], ctx[1], ctx[2..]; var above := Above(rest);
            && (above == 0 <==> rest == []) && (rest != [] ==> above in mem)
            && above !in Ids(t) && above !in Ids(p.sib) && above !in Ids(g.sib) && above != p.id && above != g.id
  {
    TwoFrames(mem, root, ctx, t);
    var p, g, rest := ctx[0], ctx[1], ctx[2..];
    AboveApart(rest, p, g, t);
    if rest != [] {
      RepCtxOpen(mem, root, rest, g.id);
      CtxProperOpen(rest, AllIds(p, g, t));
    }
  }

  /** Case 3. */
  lemma RotateNext(mem: Mem, root: int, ctx: Ctx, t: Tree, h: nat)
    requires Inserting(mem, root, ctx, t, h) && |ctx| >= 2 && !ctx[0].black && Black(ctx[1].sib) && ctx[0].left == ctx[1].left
    ensures var p, g, rest := ctx[0], ctx[1], ctx[2..];
            && p.id in mem && g.id in mem && CanRotate(mem, g.left, g.id, p.id)
            && Settled(RotateUp(mem, g.left, g.id, p.id, false, false), NewRoot(mem, root, g.id, p.id), rest, Rotated(p, g, t), ctx, t)
  {
    var p, g, rest := ctx[0], ctx[1], ctx[2..];
    RedParent(mem, root, ctx, t, h);
    TwoFrames(mem, root, ctx, t);
    AboveRecord(mem, root, ctx, t);
    RotateFacts(mem, p, g, t, Above(rest));
    RotatedBal(p, g, t, h);
    RotatedSame(p, g, t);
    hide Fits, Bal, Whole, RepCtx, CtxProper, Ids, Proper, Inorder, RotateUp, Rep;
    var mem' := RotateUp(mem, g.left, g.id, p.id, false, false);
    var root' := NewRoot(mem, root, g.id, p.id);
    assert Relinked(mem, mem', root, root', rest, g.id, p.id);
    RotateDone(mem, mem', root, root', ctx, t);
    SettledBy(mem', root', ctx, t, Rotated(p, g, t), h + 1);
  }

  lemma {:induction false} RotateFacts(mem: Mem, p: Frame, g: Frame, t: Tree, above: int)
    requires Pieces(p, g, t) && Records(mem, p, g, t, above) && p.left == g.left && g.black && (above != 0 ==> above in mem)
    requires above !in Ids(t) && above !in Ids(p.sib) && above != p.id && above != g.id
    ensures CanRotate(mem, g.left, g.id, p.id)
    ensures var mem' := RotateUp(mem, g.left, g.id, p.id, false, false);
            && RotatesTo(mem, mem', p, g, t, above) && Elsewhere(mem, mem', {p.id, g.id, Id(p.sib)}, above)
            && (above != 0 ==> above in mem' && mem'[above] == ChangeChild(mem[above], g.id, p.id))
  {
    IdIn(p.sib);
    KidRecord(g.left, Id(t), Id(p.sib), g.id, p.black, 0);
    KidRecord(g.left, p.id, Id(g.sib), above, g.black, 0);
    NullNot(p.sib);
    assert p.sib.Node? ==> p.sib.id in mem;
    hide Rep, Ids, Proper, RotateUp, Record;
    RotateUpIs(mem, g.left, g.id, p.id, false, false, Id(t), Id(p.sib), g.id, p.black, p.id, Id(g.sib), above, g.black);
  }

  /** Cases 2 and 3. */
  lemma TwiceNext(mem: Mem, root: int, ctx: Ctx, t: Tree, h: nat)
    requires Inserting(mem, root, ctx, t, h) && |ctx| >= 2 && !ctx[0].black && Black(ctx[1].sib) && ctx[0].left != ctx[1].left
    ensures var p, g, rest := ctx[0], ctx[1], ctx[2..];
            && p.id in mem && g.id in mem && t.id in mem && (Kid(mem[t.id], g.left) != 0 ==> Kid(mem[t.id], g.left) in mem)
            && CanRotate(Turn(mem, g.left, p.id, t.id), g.left, g.id, t.id)
            && Turn(mem, g.left, p.id, t.id)[g.id].parent == mem[g.id].parent
            && Settled(RotateUp(Turn(mem, g.left, p.id, t.id), g.left, g.id, t.id, false, false), NewRoot(mem, root, g.id, t.id),
                       rest, DoubleRotated(p, g, t), ctx, t)
  {
    var p, g, rest := ctx[0], ctx[1], ctx[2..];
    RedParent(mem, root, ctx, t, h);
    TwoFrames(mem, root, ctx, t);
    AboveRecord(mem, root, ctx, t);
    TwiceFacts(mem, p, g, t, Above(rest));
    DoubleRotatedBal(p, g, t, h);
    DoubleRotatedSame(p, g, t);
    RedKids(t, g.left, h);
    hide Fits, Bal, Whole, RepCtx, CtxProper, Ids, Proper, Inorder, RotateUp, Turn, Rep, Near, Far;
    var mem' := RotateUp(Turn(mem, g.left, p.id, t.id), g.left, g.id, t.id, false, false);
    var root' := NewRoot(mem, root, g.id, t.id);
    assert Relinked(mem, mem', root, root', rest, g.id, t.id);
    TwiceRotateDone(mem, mem', root, root', ctx, t);
    SettledBy(mem', root', ctx, t, DoubleRotated(p, g, t), h + 1);
  }

  lemma {:induction false} RedKids(t: Tree, left: bool, h: nat)
    requires t.Node? && !t.black && Bal(t, h)
    ensures Black(Near(left, t)) && Black(Far(left, t))
  {
  }

  lemma {:induction false} TwiceFacts(mem: Mem, p: Frame, g: Frame, t: Tree, above: int)
    requires Pieces(p, g, t) && Records(mem, p, g, t, above) && p.left != g.left && g.black && (above != 0 ==> above in mem) && t.Node?
    requires above !in Ids(t) && above !in Ids(p.sib) && above != p.id && above != g.id
    ensures t.id in mem && (Kid(mem[t.id], g.left) != 0 ==> Kid(mem[t.id], g.left) in mem)
    ensures CanRotate(Turn(mem, g.left, p.id, t.id), g.left, g.id, t.id)
    ensures Turn(mem, g.left, p.id, t.id)[g.id].parent == mem[g.id].parent
    ensures var mem' := RotateUp(Turn(mem, g.left, p.id, t.id), g.left, g.id, t.id, false, false);
            && TwiceRotatesTo(mem, mem', p, g, t, above)
            && Elsewhere(mem, mem', {p.id, g.id, t.id, Id(Near(g.left, t)), Id(Far(g.left, t))}, above)
            && (above != 0 ==> above in mem' && mem'[above] == ChangeChild(mem[above], g.id, t.id))
  {
    var a, b := Near(g.left, t), Far(g.left, t);
    NodePieces(mem, g.left, t, p.id);
    IdIn(a);
    IdIn(b);
    NullNot(a);
    NullNot(b);
    assert (a.Node? ==> a.id in mem) && (b.Node? ==> b.id in mem);
    FlipSide(p.left, t.id, Id(p.sib), g.id, p.black);
    hide Rep, Ids, Proper, RotateUp, Turn, Record, Near, Far;
    TurnIs(mem, g.left, p.id, t.id, Id(p.sib), g.id, p.black, Id(a), Id(b), t.black);
    TurnRotateIs(mem, g.left, g.id, p.id, t.id, Id(p.sib), p.black, Id(a), Id(b), t.black, Id(g.sib), above, g.black);
  }

  lemma FlipSide(left: bool, near: int, far: int, p: int, black: bool)
    ensures Record(left, near, far, p, black) == Record(!left, far, near, p, black)
  {
  }

  lemma TurnKeys(mem: Mem, left: bool, p: int, n: int)
    requires p in mem && n in mem && (Kid(mem[n], left) != 0 ==> Kid(mem[n], left) in mem)
    ensures Turn(mem, left, p, n).Keys == mem.Keys
  {
  }

  lemma RotateKeys(mem: Mem, left: bool, g: int, p: int, color: bool, keep: bool)
    requires CanRotate(mem, left, g, p)
    ensures RotateUp(mem, left, g, p, color, keep).Keys == mem.Keys
  {
  }
}
