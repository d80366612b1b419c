/** Red-black trees as values: the rules, and a tree with one subtree singled out. */
module RbTree {

  datatype Tree = Leaf | Node(l: Tree, id: int, black: bool, r: Tree)

  /** A node with a near and a far subtree; near is the left one when left is true. */
  function Mk(left: bool, near: Tree, id: int, black: bool, far: Tree): Tree {
    if left then Node(near, id, black, far) else Node(far, id, black, near)
  }

  function Near(left: bool, t: Tree): Tree
    requires t.Node?
  {
    if left then t.l else t.r
  }

  function Far(left: bool, t: Tree): Tree
    requires t.Node?
  {
    if left then t.r else t.l
  }

  lemma MkParts(left: bool, t: Tree)
    requires t.Node?
    ensures t == Mk(left, Near(left, t), t.id, t.black, Far(left, t))
  {
  }

  predicate Black(t: Tree) {
    t.Leaf? || t.black
  }

  /** Every path to a leaf has h black nodes, and a red node has black children. */
  ghost predicate Bal(t: Tree, h: nat) {
    match t
    case Leaf => h == 0
    case Node(l, _, b, r) =>
      if b then h > 0 && Bal(l, h - 1) && Bal(r, h - 1)
      else Bal(l, h) && Bal(r, h) && Black(l) && Black(r)
  }

  /** The five rules. */
  ghost predicate RedBlack(t: Tree) {
    Black(t) && exists h: nat :: Bal(t, h)
  }

  lemma BalMk(left: bool, near: Tree, id: int, black: bool, far: Tree, h: nat)
    ensures Bal(Mk(left, near, id, black, far), h) <==>
            if black then h > 0 && Bal(near, h - 1) && Bal(far, h - 1)
            else Bal(near, h) && Bal(far, h) && Black(near) && Black(far)
  {
  }

  function Blacken(t: Tree): Tree {
    if t.Node? then t.(black := true) else t
  }

  function Redden(t: Tree): Tree {
    if t.Node? then t.(black := false) else t
  }

  lemma BlackenBal(t: Tree, h: nat)
    requires t.Node? && !t.black && Bal(t, h)
    ensures Bal(Blacken(t), h + 1)
  {
  }

  lemma {:induction false} ReddenBal(t: Tree, h: nat)
    requires t.Node? && t.black && Bal(t, h + 1) && Black(t.l) && Black(t.r)
    ensures Bal(Redden(t), h)
  {
  }

  // ---------- what is stored

  function Inorder(t: Tree): seq<int> {
    if t.Leaf? then [] else Inorder(t.l) + [t.id] + Inorder(t.r)
  }

  function Ids(t: Tree): set<int> {
    if t.Leaf? then {} else Ids(t.l) + {t.id} + Ids(t.r)
  }

  /** No node twice, and 0 (NULL) is no node. */
  ghost predicate Proper(t: Tree) {
    t.Node? ==> t.id != 0 && t.id !in Ids(t.l) && t.id !in Ids(t.r) && Ids(t.l) !! Ids(t.r) && Proper(t.l) && Proper(t.r)
  }

  lemma {:induction false} InorderMk(left: bool, near: Tree, id: int, black: bool, far: Tree)
    ensures Inorder(Mk(left, near, id, black, far)) ==
            if left then Inorder(near) + [id] + Inorder(far) else Inorder(far) + [id] + Inorder(near)
  {
  }

  /** Seven pieces of an order, grouped two ways. */
  lemma Regroup(a: seq<int>, x: int, b: seq<int>, y: int, c: seq<int>, z: int, d: seq<int>)
    ensures (a + [x] + (b + [y] + c)) + [z] + d == (a + [x] + b) + [y] + (c + [z] + d)
    ensures a + [x] + ((b + [y] + c) + [z] + d) == (a + [x] + b) + [y] + (c + [z] + d)
  {
    var all := a + [x] + b + [y] + c + [z] + d;
    assert (a + [x] + (b + [y] + c)) + [z] + d == all;
    assert a + [x] + ((b + [y] + c) + [z] + d) == all;
    assert (a + [x] + b) + [y] + (c + [z] + d) == all;
  }

  lemma Regroup5(a: seq<int>, x: int, b: seq<int>, y: int, c: seq<int>)
    ensures (a + [x] + b) + [y] + c == a + [x] + (b + [y] + c)
  {
  }

  lemma {:induction false} ProperMk(left: bool, near: Tree, id: int, black: bool, far: Tree)
    ensures Ids(Mk(left, near, id, black, far)) == Ids(near) + {id} + Ids(far)
    ensures Proper(Mk(left, near, id, black, far)) <==>
              id != 0 && id !in Ids(near) && id !in Ids(far) && Ids(near) !! Ids(far) && Proper(near) && Proper(far)
  {
  }

  // ---------- the way up from a subtree

  /** The subtree hangs on the left (or right) of node id; sib hangs on the other side. */
  datatype Frame = Frame(left: bool, id: int, black: bool, sib: Tree)

  /** Innermost first. */
  type Ctx = seq<Frame>

  function Up(f: Frame, t: Tree): Tree {
    Mk(f.left, t, f.id, f.black, f.sib)
  }

  function Plug(ctx: Ctx, t: Tree): Tree
    decreases |ctx|
  {
    if ctx == [] then t else Plug(ctx[1..], Up(ctx[0], t))
  }

  /** A subtree with h black nodes on its paths fits; only it may be at fault with the red rule. */
  ghost predicate Fits(ctx: Ctx, h: nat)
    decreases |ctx|
  {
    ctx == [] ||
    var f, rest := ctx[0], ctx[1..];
    Bal(f.sib, h) &&
    if f.black then Fits(rest, h + 1)
    else Black(f.sib) && rest != [] && rest[0].black && Fits(rest, h)
  }

  lemma {:induction false} PlugRedBlack(ctx: Ctx, t: Tree, h: nat)
    requires Fits(ctx, h) && Bal(t, h) && (Black(t) || (ctx != [] && ctx[0].black))
    ensures RedBlack(Plug(ctx, t))
    decreases |ctx|
  {
    if ctx != [] {
      var f := ctx[0];
      BalMk(f.left, t, f.id, f.black, f.sib, if f.black then h + 1 else h);
      PlugRedBlack(ctx[1..], Up(f, t), if f.black then h + 1 else h);
    }
  }

  /** Replacing the subtree by one with the same nodes in the same order changes no order. */
  lemma {:induction false} PlugInorder(ctx: Ctx, t: Tree, u: Tree)
    requires Inorder(t) == Inorder(u)
    ensures Inorder(Plug(ctx, t)) == Inorder(Plug(ctx, u))
    decreases |ctx|
  {
    if ctx != [] {
      PlugInorder(ctx[1..], Up(ctx[0], t), Up(ctx[0], u));
    }
  }

  /** The frames' nodes are apart from used and from each other. */
  ghost predicate CtxProper(ctx: Ctx, used: set<int>)
    decreases |ctx|
  {
    ctx == [] ||
    var f := ctx[0];
    f.id != 0 && f.id !in used && f.id !in Ids(f.sib) && Ids(f.sib) !! used && Proper(f.sib) &&
    CtxProper(ctx[1..], used + {f.id} + Ids(f.sib))
  }

  // ---------- insertion

  /** Case 1: a red uncle. Parent and uncle turn black, the grandparent red. */
  function Flipped(p: Frame, g: Frame, t: Tree): Tree {
    Mk(g.left, Mk(p.left, t, p.id, true, p.sib), g.id, false, Blacken(g.sib))
  }

  lemma FlippedBal(p: Frame, g: Frame, t: Tree, h: nat)
    requires Bal(t, h) && Bal(p.sib, h) && Bal(g.sib, h) && g.sib.Node? && !g.sib.black
    ensures Bal(Flipped(p, g, t), h + 1)
  {
    BlackenBal(g.sib, h);
    BalMk(p.left, t, p.id, true, p.sib, h + 1);
    BalMk(g.left, Mk(p.left, t, p.id, true, p.sib), g.id, false, Blacken(g.sib), h + 1);
  }

  lemma {:induction false} FlippedSame(p: Frame, g: Frame, t: Tree)
    ensures Inorder(Flipped(p, g, t)) == Inorder(Up(g, Up(p, t)))
    ensures Ids(Flipped(p, g, t)) == Ids(t) + {p.id} + Ids(p.sib) + {g.id} + Ids(g.sib)
  {
    assert Inorder(Blacken(g.sib)) == Inorder(g.sib);
  }

  /** Case 3: the parent takes the grandparent's place. */
  function Rotated(p: Frame, g: Frame, t: Tree): Tree {
    Mk(g.left, t, p.id, true, Mk(g.left, p.sib, g.id, false, g.sib))
  }

  lemma RotatedBal(p: Frame, g: Frame, t: Tree, h: nat)
    requires Bal(t, h) && Bal(p.sib, h) && Black(p.sib) && Bal(g.sib, h) && Black(g.sib)
    ensures Bal(Rotated(p, g, t), h + 1)
  {
    BalMk(g.left, p.sib, g.id, false, g.sib, h);
    BalMk(g.left, t, p.id, true, Mk(g.left, p.sib, g.id, false, g.sib), h + 1);
  }

  lemma {:induction false} RotatedSame(p: Frame, g: Frame, t: Tree)
    requires p.left == g.left
    ensures Inorder(Rotated(p, g, t)) == Inorder(Up(g, Up(p, t)))
    ensures Ids(Rotated(p, g, t)) == Ids(t) + {p.id} + Ids(p.sib) + {g.id} + Ids(g.sib)
  {
    var inner := Mk(g.left, p.sib, g.id, false, g.sib);
    ProperMk(g.left, p.sib, g.id, false, g.sib);
    ProperMk(g.left, t, p.id, true, inner);
    InorderMk(g.left, p.sib, g.id, false, g.sib);
    InorderMk(g.left, t, p.id, true, inner);
    InorderMk(p.left, t, p.id, p.black, p.sib);
    InorderMk(g.left, Up(p, t), g.id, g.black, g.sib);
    hide Inorder, Ids, Mk;
    Regroup5(Inorder(t), p.id, Inorder(p.sib), g.id, Inorder(g.sib));
    Regroup5(Inorder(g.sib), g.id, Inorder(p.sib), p.id, Inorder(t));
  }

  /** Cases 2 and 3 together. */
  function DoubleRotated(p: Frame, g: Frame, t: Tree): Tree
    requires t.Node?
  {
    Mk(g.left, Mk(g.left, p.sib, p.id, false, Near(g.left, t)), t.id, true, Mk(g.left, Far(g.left, t), g.id, false, g.sib))
  }

  lemma DoubleRotatedBal(p: Frame, g: Frame, t: Tree, h: nat)
    requires t.Node? && !t.black && Bal(t, h) && Bal(p.sib, h) && Black(p.sib) && Bal(g.sib, h) && Black(g.sib)
    ensures Bal(DoubleRotated(p, g, t), h + 1)
  {
    var a, b := Near(g.left, t), Far(g.left, t);
    BalMk(g.left, p.sib, p.id, false, a, h);
    BalMk(g.left, b, g.id, false, g.sib, h);
    BalMk(g.left, Mk(g.left, p.sib, p.id, false, a), t.id, true, Mk(g.left, b, g.id, false, g.sib), h + 1);
  }

  lemma {:induction false} DoubleRotatedSame(p: Frame, g: Frame, t: Tree)
    requires t.Node? && p.left != g.left
    ensures Inorder(DoubleRotated(p, g, t)) == Inorder(Up(g, Up(p, t)))
    ensures Ids(DoubleRotated(p, g, t)) == Ids(t) + {p.id} + Ids(p.sib) + {g.id} + Ids(g.sib)
  {
    var a, b := Near(g.left, t), Far(g.left, t);
    var near, far := Mk(g.left, p.sib, p.id, false, a), Mk(g.left, b, g.id, false, g.sib);
    MkParts(g.left, t);
    ProperMk(g.left, a, t.id, t.black, b);
    ProperMk(g.left, p.sib, p.id, false, a);
    ProperMk(g.left, b, g.id, false, g.sib);
    ProperMk(g.left, near, t.id, true, far);
    InorderMk(g.left, a, t.id, t.black, b);
    InorderMk(g.left, p.sib, p.id, false, a);
    InorderMk(g.left, b, g.id, false, g.sib);
    InorderMk(g.left, near, t.id, true, far);
    InorderMk(p.left, t, p.id, p.black, p.sib);
    InorderMk(g.left, Up(p, t), g.id, g.black, g.sib);
    hide Inorder, Ids, Mk, Near, Far;
    Regroup(Inorder(p.sib), p.id, Inorder(a), t.id, Inorder(b), g.id, Inorder(g.sib));
    Regroup(Inorder(g.sib), g.id, Inorder(b), t.id, Inorder(a), p.id, Inorder(p.sib));
  }
}
