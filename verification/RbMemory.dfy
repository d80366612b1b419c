/** Red-black trees in memory: nodes with child and parent links. */
module RbMemory {
  import opened RbTree

  /** struct rb_node: 0 is NULL. */
  datatype Rb = Rb(left: int, right: int, parent: int, black: bool)

  type Mem = map<int, Rb>

  function Id(t: Tree): int {
    if t.Leaf? then 0 else t.id
  }

  function Record(left: bool, near: int, far: int, parent: int, black: bool): Rb {
    if left then Rb(near, far, parent, black) else Rb(far, near, parent, black)
  }

  /** The node records spell tree t below parent p: children, parents and colours. */
  ghost predicate Rep(mem: Mem, t: Tree, p: int) {
    t.Node? ==>
      t.id in mem && mem[t.id] == Rb(Id(t.l), Id(t.r), p, t.black) && Rep(mem, t.l, t.id) && Rep(mem, t.r, t.id)
  }

  lemma {:induction false} RepMk(mem: Mem, left: bool, near: Tree, id: int, black: bool, far: Tree, p: int)
    ensures Rep(mem, Mk(left, near, id, black, far), p) <==>
            id in mem && mem[id] == Record(left, Id(near), Id(far), p, black) && Rep(mem, near, id) && Rep(mem, far, id)
  {
  }

  function Above(ctx: Ctx): int {
    if ctx == [] then 0 else ctx[0].id
  }

  /** The records of the frames, around a subtree whose root is hole. */
  ghost predicate RepCtx(mem: Mem, root: int, ctx: Ctx, hole: int)
    decreases |ctx|
  {
    if ctx == [] then root == hole
    else
      var f := ctx[0];
      && f.id in mem && mem[f.id] == Record(f.left, hole, Id(f.sib), Above(ctx[1..]), f.black)
      && Rep(mem, f.sib, f.id) && RepCtx(mem, root, ctx[1..], f.id)
  }

  function CtxIds(ctx: Ctx): set<int>
    decreases |ctx|
  {
    if ctx == [] then {} else {ctx[0].id} + Ids(ctx[0].sib) + CtxIds(ctx[1..])
  }

  lemma {:induction false} CtxApart(ctx: Ctx, used: set<int>)
    requires CtxProper(ctx, used)
    ensures CtxIds(ctx) !! used && 0 !in CtxIds(ctx)
    decreases |ctx|
  {
    if ctx != [] {
      CtxApart(ctx[1..], used + {ctx[0].id} + Ids(ctx[0].sib));
      NullNot(ctx[0].sib);
    }
  }

  /** A context stays proper around fewer nodes. */
  lemma {:induction false} CtxProperLess(ctx: Ctx, used: set<int>, less: set<int>)
    requires CtxProper(ctx, used) && less <= used
    ensures CtxProper(ctx, less)
    decreases |ctx|
  {
    if ctx != [] {
      var f := ctx[0];
      CtxProperLess(ctx[1..], used + {f.id} + Ids(f.sib), less + {f.id} + Ids(f.sib));
    }
  }

  lemma {:induction false} NullNot(t: Tree)
    requires Proper(t)
    ensures 0 !in Ids(t)
  {
    if t.Node? {
      NullNot(t.l);
      NullNot(t.r);
    }
  }

  /** The whole tree, seen from one subtree. */
  ghost predicate Whole(mem: Mem, root: int, ctx: Ctx, t: Tree) {
    Rep(mem, t, Above(ctx)) && RepCtx(mem, root, ctx, Id(t)) && Proper(t) && CtxProper(ctx, Ids(t))
  }

  lemma {:induction false} WholePlug(mem: Mem, root: int, ctx: Ctx, t: Tree)
    requires Whole(mem, root, ctx, t)
    ensures Whole(mem, root, [], Plug(ctx, t))
    decreases |ctx|
  {
    if ctx != [] {
      var f := ctx[0];
      RepMk(mem, f.left, t, f.id, f.black, f.sib, Above(ctx[1..]));
      ProperMk(f.left, t, f.id, f.black, f.sib);
      assert Ids(Up(f, t)) == Ids(t) + {f.id} + Ids(f.sib);
      WholePlug(mem, root, ctx[1..], Up(f, t));
    }
  }

  // ---------- frames

  ghost predicate SameOn(mem: Mem, mem': Mem, ids: set<int>) {
    forall x | x in ids && x in mem :: x in mem' && mem'[x] == mem[x]
  }

  lemma {:induction false} RepKept(mem: Mem, mem': Mem, t: Tree, p: int)
    requires Rep(mem, t, p) && SameOn(mem, mem', Ids(t))
    ensures Rep(mem', t, p)
  {
    if t.Node? {
      RepKept(mem, mem', t.l, t.id);
      RepKept(mem, mem', t.r, t.id);
    }
  }

  /** The same subtree under another parent, its root perhaps in another colour. */
  lemma {:induction false} RepMoved(mem: Mem, mem': Mem, t: Tree, p: int, q: int, black: bool)
    requires Rep(mem, t, p) && Proper(t) && t.Node? && SameOn(mem, mem', Ids(t) - {t.id})
    requires t.id in mem' && mem'[t.id] == mem[t.id].(parent := q, black := black)
    ensures Rep(mem', t.(black := black), q)
  {
    RepKept(mem, mem', t.l, t.id);
    RepKept(mem, mem', t.r, t.id);
  }

  lemma {:induction false} CtxKept(mem: Mem, mem': Mem, root: int, ctx: Ctx, hole: int)
    requires RepCtx(mem, root, ctx, hole) && SameOn(mem, mem', CtxIds(ctx))
    ensures RepCtx(mem', root, ctx, hole)
    decreases |ctx|
  {
    if ctx != [] {
      RepKept(mem, mem', ctx[0].sib, ctx[0].id);
      CtxKept(mem, mem', root, ctx[1..], ctx[0].id);
    }
  }

  /** __rb_change_child(): what pointed to old points to new. */
  function ChangeChild(r: Rb, old_: int, new_: int): Rb {
    if r.left == old_ then r.(left := new_) else r.(right := new_)
  }

  lemma CtxSwapped(mem: Mem, mem': Mem, root: int, ctx: Ctx, used: set<int>, hole: int, new_: int)
    requires RepCtx(mem, root, ctx, hole) && CtxProper(ctx, used) && hole in used && hole != 0
    requires SameOn(mem, mem', CtxIds(ctx) - {Above(ctx)})
    requires ctx != [] ==> ctx[0].id in mem && ctx[0].id in mem' && mem'[ctx[0].id] == ChangeChild(mem[ctx[0].id], hole, new_)
    ensures RepCtx(mem', if ctx == [] then new_ else root, ctx, new_)
  {
    if ctx != [] {
      var f := ctx[0];
      CtxApart(ctx[1..], used + {f.id} + Ids(f.sib));
      NullNot(f.sib);
      assert Id(f.sib) != hole by { assert Id(f.sib) == 0 || Id(f.sib) in Ids(f.sib); }
      RepKept(mem, mem', f.sib, f.id);
      CtxKept(mem, mem', root, ctx[1..], f.id);
    }
  }

  /** What the records of a parent say. */
  lemma {:induction false} ParentRecord(mem: Mem, root: int, ctx: Ctx, t: Tree)
    requires Whole(mem, root, ctx, t) && ctx != [] && t.Node?
    ensures var f := ctx[0];
            && f.id in mem && f.id != 0 && mem[f.id].parent == Above(ctx[1..]) && mem[f.id].black == f.black
            && (f.left <==> mem[f.id].right != t.id) && (!f.left <==> mem[f.id].left != t.id)
            && Id(f.sib) == (if f.left then mem[f.id].right else mem[f.id].left)
            && (if f.left then mem[f.id].left else mem[f.id].right) == t.id
            && t.id in mem && mem[t.id] == Rb(Id(t.l), Id(t.r), f.id, t.black)
            && Rep(mem, f.sib, f.id) && Proper(f.sib)
            && (f.sib.Node? ==> f.sib.id in mem && mem[f.sib.id] == Rb(Id(f.sib.l), Id(f.sib.r), f.id, f.sib.black) && f.sib.id != 0)
  {
    var f := ctx[0];
    NullNot(f.sib);
    NullNot(t);
    assert t.id in Ids(t);
    assert f.sib.Node? ==> f.sib.id in Ids(f.sib);
  }

  lemma {:induction false} RepCtxOpen(mem: Mem, root: int, ctx: Ctx, hole: int)
    requires RepCtx(mem, root, ctx, hole) && ctx != []
    ensures var f := ctx[0];
            && f.id in mem && mem[f.id] == Record(f.left, hole, Id(f.sib), Above(ctx[1..]), f.black)
            && Rep(mem, f.sib, f.id) && RepCtx(mem, root, ctx[1..], f.id)
  {
  }

  lemma {:induction false} CtxProperOpen(ctx: Ctx, used: set<int>)
    requires CtxProper(ctx, used) && ctx != []
    ensures var f := ctx[0];
            && f.id != 0 && f.id !in used && f.id !in Ids(f.sib) && Ids(f.sib) !! used && Proper(f.sib)
            && CtxProper(ctx[1..], used + {f.id} + Ids(f.sib))
  {
  }
}
