/** ____rb_erase_color(), case by case, as values: a subtree is one black node short. */
module RbErase {
  import opened RbTree

  /** The subtree t lacks a black node that its place f (and what is above) counts on. */
  ghost predicate Short(ctx: Ctx, t: Tree, h: nat) {
    ctx != [] && Black(t) && Bal(t, h) && Fits(ctx, h + 1)
  }

  /** There is a sibling, and what the frame promises. */
  lemma ShortSibling(ctx: Ctx, t: Tree, h: nat)
    requires Short(ctx, t, h)
    ensures var f, rest := ctx[0], ctx[1..];
            && f.sib.Node? && Bal(f.sib, h + 1) && Fits(rest, if f.black then h + 2 else h + 1)
            && (!f.black ==> f.sib.black && rest != [] && rest[0].black)
            && (f.sib.black ==> Bal(f.sib.l, h) && Bal(f.sib.r, h))
            && (!f.sib.black ==> f.black && Bal(f.sib.l, h + 1) && Bal(f.sib.r, h + 1) && Black(f.sib.l) && Black(f.sib.r))
  {
  }

  lemma NearFarBal(left: bool, t: Tree, h: nat)
    requires t.Node? && Bal(t, h)
    ensures t.black ==> h > 0 && Bal(Near(left, t), h - 1) && Bal(Far(left, t), h - 1)
    ensures !t.black ==> Bal(Near(left, t), h) && Bal(Far(left, t), h) && Black(Near(left, t)) && Black(Far(left, t))
  {
  }

  // ---------- case 1: a red sibling

  /** The sibling takes the parent's place; the parent turns red and has a black sibling below. */
  function Lifted(f: Frame): (Frame, Frame)
    requires f.sib.Node?
  {
    (Frame(f.left, f.id, false, Near(f.left, f.sib)), Frame(f.left, f.sib.id, true, Far(f.left, f.sib)))
  }

  lemma LiftedShort(ctx: Ctx, t: Tree, h: nat)
    requires Short(ctx, t, h) && ctx[0].sib.Node? && !ctx[0].sib.black
    ensures var (p, s) := Lifted(ctx[0]); Short([p, s] + ctx[1..], t, h)
  {
    var f, rest := ctx[0], ctx[1..];
    ShortSibling(ctx, t, h);
    NearFarBal(f.left, f.sib, h + 1);
    var (p, s) := Lifted(f);
    var ctx' := [p, s] + rest;
    assert ctx'[0] == p && ctx'[1..][0] == s && ctx'[1..][1..] == rest && ctx'[1..] != [];
    assert Fits(ctx'[1..], h + 1);
  }

  lemma LiftedSame(f: Frame, t: Tree)
    requires f.sib.Node?
    ensures var (p, s) := Lifted(f); Inorder(Up(s, Up(p, t))) == Inorder(Up(f, t))
  {
    var a, b := Near(f.left, f.sib), Far(f.left, f.sib);
    MkParts(f.left, f.sib);
    InorderMk(f.left, a, f.sib.id, f.sib.black, b);
    InorderMk(f.left, t, f.id, f.black, f.sib);
    InorderMk(f.left, t, f.id, false, a);
    InorderMk(f.left, Mk(f.left, t, f.id, false, a), f.sib.id, true, b);
    hide Inorder, Mk, Near, Far;
    Regroup5(Inorder(t), f.id, Inorder(a), f.sib.id, Inorder(b));
    Regroup5(Inorder(b), f.sib.id, Inorder(a), f.id, Inorder(t));
  }

  // ---------- case 2: a black sibling with black children

  function Joined(f: Frame, t: Tree): Tree {
    Mk(f.left, t, f.id, true, Redden(f.sib))
  }

  lemma {:induction false} JoinedBal(ctx: Ctx, t: Tree, h: nat)
    requires Short(ctx, t, h) && ctx[0].sib.Node? && ctx[0].sib.black && Black(ctx[0].sib.l) && Black(ctx[0].sib.r)
    ensures Bal(Joined(ctx[0], t), h + 1) && Black(Joined(ctx[0], t)) && Inorder(Joined(ctx[0], t)) == Inorder(Up(ctx[0], t))
    ensures ctx[0].black && ctx[1..] != [] ==> Short(ctx[1..], Joined(ctx[0], t), h + 1)
    ensures !ctx[0].black ==> Fits(ctx[1..], h + 1)
  {
    var f := ctx[0];
    ShortSibling(ctx, t, h);
    ReddenBal(f.sib, h);
    BalMk(f.left, t, f.id, true, Redden(f.sib), h + 1);
    assert Inorder(Redden(f.sib)) == Inorder(f.sib);
  }

  // ---------- case 4: a black sibling with a red far child

  function Shifted(f: Frame, t: Tree): Tree
    requires f.sib.Node?
  {
    Mk(f.left, Mk(f.left, t, f.id, true, Near(f.left, f.sib)), f.sib.id, f.black, Blacken(Far(f.left, f.sib)))
  }

  lemma {:induction false} ShiftedBal(ctx: Ctx, t: Tree, h: nat)
    requires Short(ctx, t, h) && ctx[0].sib.Node? && ctx[0].sib.black && !Black(Far(ctx[0].left, ctx[0].sib))
    ensures Bal(Shifted(ctx[0], t), if ctx[0].black then h + 2 else h + 1)
  {
    var f := ctx[0];
    ShortSibling(ctx, t, h);
    NearFarBal(f.left, f.sib, h + 1);
    BlackenBal(Far(f.left, f.sib), h);
    BalMk(f.left, t, f.id, true, Near(f.left, f.sib), h + 1);
    BalMk(f.left, Mk(f.left, t, f.id, true, Near(f.left, f.sib)), f.sib.id, f.black, Blacken(Far(f.left, f.sib)),
          if f.black then h + 2 else h + 1);
  }

  lemma {:induction false} ShiftedSame(f: Frame, t: Tree)
    requires f.sib.Node?
    ensures Inorder(Shifted(f, t)) == Inorder(Up(f, t))
    ensures Ids(Shifted(f, t)) == Ids(t) + {f.id} + Ids(f.sib)
  {
    var a, b := Near(f.left, f.sib), Far(f.left, f.sib);
    var near := Mk(f.left, t, f.id, true, a);
    MkParts(f.left, f.sib);
    assert Inorder(Blacken(b)) == Inorder(b) && Ids(Blacken(b)) == Ids(b);
    InorderMk(f.left, a, f.sib.id, f.sib.black, b);
    InorderMk(f.left, t, f.id, f.black, f.sib);
    InorderMk(f.left, t, f.id, true, a);
    InorderMk(f.left, near, f.sib.id, f.black, Blacken(b));
    ProperMk(f.left, a, f.sib.id, f.sib.black, b);
    ProperMk(f.left, t, f.id, true, a);
    ProperMk(f.left, near, f.sib.id, f.black, Blacken(b));
    hide Inorder, Ids, Mk, Near, Far;
    Regroup5(Inorder(t), f.id, Inorder(a), f.sib.id, Inorder(b));
    Regroup5(Inorder(b), f.sib.id, Inorder(a), f.id, Inorder(t));
  }

  // ---------- cases 3 and 4: a black sibling whose only red child is the near one

  function TwiceShifted(f: Frame, t: Tree): Tree
    requires f.sib.Node? && Near(f.left, f.sib).Node?
  {
    var s := f.left;
    var l := Near(s, f.sib);
    Mk(s, Mk(s, t, f.id, true, Near(s, l)), l.id, f.black, Mk(s, Far(s, l), f.sib.id, true, Far(s, f.sib)))
  }

  lemma {:induction false} TwiceShiftedBal(ctx: Ctx, t: Tree, h: nat)
    requires Short(ctx, t, h) && ctx[0].sib.Node? && ctx[0].sib.black && !Black(Near(ctx[0].left, ctx[0].sib))
    ensures Bal(TwiceShifted(ctx[0], t), if ctx[0].black then h + 2 else h + 1)
  {
    var f := ctx[0];
    var s := f.left;
    var l := Near(s, f.sib);
    ShortSibling(ctx, t, h);
    NearFarBal(s, f.sib, h + 1);
    NearFarBal(s, l, h);
    BalMk(s, t, f.id, true, Near(s, l), h + 1);
    BalMk(s, Far(s, l), f.sib.id, true, Far(s, f.sib), h + 1);
    BalMk(s, Mk(s, t, f.id, true, Near(s, l)), l.id, f.black, Mk(s, Far(s, l), f.sib.id, true, Far(s, f.sib)),
          if f.black then h + 2 else h + 1);
  }

  lemma {:induction false} TwiceShiftedSame(f: Frame, t: Tree)
    requires f.sib.Node? && Near(f.left, f.sib).Node?
    ensures Inorder(TwiceShifted(f, t)) == Inorder(Up(f, t))
    ensures Ids(TwiceShifted(f, t)) == Ids(t) + {f.id} + Ids(f.sib)
  {
    var s := f.left;
    var l, r := Near(s, f.sib), Far(s, f.sib);
    var a, b := Near(s, l), Far(s, l);
    var near, far := Mk(s, t, f.id, true, a), Mk(s, b, f.sib.id, true, r);
    MkParts(s, f.sib);
    MkParts(s, l);
    InorderMk(s, a, l.id, l.black, b);
    InorderMk(s, l, f.sib.id, f.sib.black, r);
    InorderMk(s, t, f.id, f.black, f.sib);
    InorderMk(s, t, f.id, true, a);
    InorderMk(s, b, f.sib.id, true, r);
    InorderMk(s, near, l.id, f.black, far);
    ProperMk(s, a, l.id, l.black, b);
    ProperMk(s, l, f.sib.id, f.sib.black, r);
    ProperMk(s, t, f.id, true, a);
    ProperMk(s, b, f.sib.id, true, r);
    ProperMk(s, near, l.id, f.black, far);
    hide Inorder, Ids, Mk, Near, Far;
    Regroup(Inorder(t), f.id, Inorder(a), l.id, Inorder(b), f.sib.id, Inorder(r));
    Regroup(Inorder(r), f.sib.id, Inorder(b), l.id, Inorder(a), f.id, Inorder(t));
  }
}
