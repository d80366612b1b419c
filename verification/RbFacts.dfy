/** What the red-black rules give: any place in a tree is fit for a fix-up, and the tree is shallow. */
module RbFacts {
  import opened Numbers
  import opened RbTree
  import opened RbMemory
  import opened RbInsert
  import opened RbRotate
  import opened RbInsertSteps

  /** A red-black tree seen from any of its subtrees. */
  lemma {:induction false} SeenFrom(ctx: Ctx, t: Tree) returns (h: nat)
    requires RedBlack(Plug(ctx, t))
    ensures Bal(t, h) && Fits(ctx, h) && (Black(t) || (ctx != [] && ctx[0].black))
    decreases |ctx|
  {
    if ctx == [] {
      h :| Bal(t, h);
    } else {
      var f, rest := ctx[0], ctx[1..];
      var k := SeenFrom(rest, Up(f, t));
      BalMk(f.left, t, f.id, f.black, f.sib, k);
      h := if f.black then k - 1 else k;
    }
  }

  function Size(t: Tree): nat {
    if t.Leaf? then 0 else Size(t.l) + 1 + Size(t.r)
  }

  function Height(t: Tree): nat {
    if t.Leaf? then 0 else 1 + if Height(t.l) >= Height(t.r) then Height(t.l) else Height(t.r)
  }

  lemma {:induction false} BalSize(t: Tree, h: nat)
    requires Bal(t, h)
    ensures Pow2(h) <= Size(t) + 1 && Height(t) <= 2 * h + (if Black(t) then 0 else 1)
  {
    if t.Node? {
      BalSize(t.l, if t.black then h - 1 else h);
      BalSize(t.r, if t.black then h - 1 else h);
    }
  }

  lemma {:induction false} Pow2Grows(a: nat, b: nat)
    requires a <= b
    ensures Pow2(a) <= Pow2(b)
    decreases b - a
  {
    if a < b { Pow2Grows(a, b - 1); }
  }

  lemma {:induction false} SizeIsOrder(t: Tree)
    ensures |Inorder(t)| == Size(t)
  {
    if t.Node? {
      SizeIsOrder(t.l);
      SizeIsOrder(t.r);
    }
  }

  /** The height is at most twice the logarithm of the number of nodes plus one. */
  lemma {:induction false} HeightBound(t: Tree)
    requires RedBlack(t)
    ensures Pow2((Height(t) + 1) / 2) <= |Inorder(t)| + 1
  {
    SizeIsOrder(t);
    var h: nat :| Bal(t, h);
    BalSize(t, h);
    Pow2Grows((Height(t) + 1) / 2, h);
  }

  // ---------- hanging in a new leaf

  /** rb_link_node() in an empty place: a red node without children. */
  function Linked(mem: Mem, ctx: Ctx, id: int): Mem
    requires ctx != [] ==> ctx[0].id in mem
  {
    var m := mem[id := Rb(0, 0, Above(ctx), false)];
    if ctx == [] then m else m[ctx[0].id := WithKid(mem[ctx[0].id], ctx[0].left, id)]
  }

  /** After that the insertion fix-up can start. */
  lemma {:induction false} LinkReady(mem: Mem, root: int, ctx: Ctx, id: int)
    requires Whole(mem, root, ctx, Leaf) && RedBlack(Plug(ctx, Leaf)) && id != 0 && id !in CtxIds(ctx)
    ensures ctx != [] ==> ctx[0].id in mem
    ensures Inserting(Linked(mem, ctx, id), if ctx == [] then id else root, ctx, Node(Leaf, id, false, Leaf), 0)
  {
    var h := SeenFrom(ctx, Leaf);
    var t := Node(Leaf, id, false, Leaf);
    assert Ids(t) == {id} && {} + {id} == {id} && Ids(Leaf) == {};
    CtxProperWith(ctx, {}, id);
    LinkRep(mem, root, ctx, id);
    assert Bal(t, 0) && h == 0;
  }

  lemma {:induction false} LinkRep(mem: Mem, root: int, ctx: Ctx, id: int)
    requires RepCtx(mem, root, ctx, 0) && CtxProper(ctx, {}) && id !in CtxIds(ctx) && id != 0
    ensures ctx != [] ==> ctx[0].id in mem
    ensures var mem' := Linked(mem, ctx, id);
            RepCtx(mem', if ctx == [] then id else root, ctx, id) && Rep(mem', Node(Leaf, id, false, Leaf), Above(ctx))
  {
    if ctx != [] {
      var f := ctx[0];
      var mem' := Linked(mem, ctx, id);
      RepCtxOpen(mem, root, ctx, 0);
      CtxProperOpen(ctx, {});
      KidRecord(f.left, 0, Id(f.sib), Above(ctx[1..]), f.black, id);
      CtxApart(ctx[1..], {} + {f.id} + Ids(f.sib));
      hide Ids, Record, WithKid, CtxProper;
      RepKept(mem, mem', f.sib, f.id);
      CtxKept(mem, mem', root, ctx[1..], f.id);
    }
  }

  lemma {:induction false} PlaceNull(ctx: Ctx)
    requires CtxProper(ctx, Ids(Leaf))
    ensures Above(ctx) == 0 <==> ctx == []
  {
  }

  /** A context stays proper around one more node. */
  lemma {:induction false} CtxProperWith(ctx: Ctx, used: set<int>, id: int)
    requires CtxProper(ctx, used) && id !in CtxIds(ctx)
    ensures CtxProper(ctx, used + {id})
    decreases |ctx|
  {
    if ctx != [] {
      var f := ctx[0];
      CtxProperWith(ctx[1..], used + {f.id} + Ids(f.sib), id);
      assert used + {f.id} + Ids(f.sib) + {id} == (used + {id}) + {f.id} + Ids(f.sib);
    }
  }

  // ---------- rb_next()

  /** The nodes before and after a place, in order. */
  function Pre(ctx: Ctx): seq<int>
    decreases |ctx|
  {
    if ctx == [] then [] else if ctx[0].left then Pre(ctx[1..]) else Pre(ctx[1..]) + Inorder(ctx[0].sib) + [ctx[0].id]
  }

  function Post(ctx: Ctx): seq<int>
    decreases |ctx|
  {
    if ctx == [] then [] else if ctx[0].left then [ctx[0].id] + Inorder(ctx[0].sib) + Post(ctx[1..]) else Post(ctx[1..])
  }

  lemma {:induction false} OrderAround(ctx: Ctx, t: Tree)
    ensures Inorder(Plug(ctx, t)) == Pre(ctx) + Inorder(t) + Post(ctx)
    decreases |ctx|
  {
    if ctx != [] {
      var f := ctx[0];
      var rest := ctx[1..];
      OrderAround(rest, Up(f, t));
      InorderMk(f.left, t, f.id, f.black, f.sib);
      hide Inorder, Plug;
      if f.left {
        Regroup(Pre(rest), Inorder(t), [f.id] + Inorder(f.sib), Post(rest));
        assert Inorder(t) + [f.id] + Inorder(f.sib) == Inorder(t) + ([f.id] + Inorder(f.sib));
      } else {
        Regroup(Pre(rest), Inorder(f.sib) + [f.id], Inorder(t), Post(rest));
        assert Pre(rest) + Inorder(f.sib) + [f.id] == Pre(rest) + (Inorder(f.sib) + [f.id]);
      }
    }
  }

  lemma Regroup(a: seq<int>, b: seq<int>, c: seq<int>, d: seq<int>)
    ensures a + (b + c) + d == a + b + (c + d) == a + b + c + d
  {
  }

  lemma {:induction false} LinkOrder(ctx: Ctx, id: int)
    ensures Inorder(Plug(ctx, Node(Leaf, id, false, Leaf))) == Pre(ctx) + [id] + Post(ctx)
  {
    OrderAround(ctx, Node(Leaf, id, false, Leaf));
    assert Inorder(Node(Leaf, id, false, Leaf)) == [id];
  }

  function FirstOf(s: seq<int>): int {
    if |s| == 0 then 0 else s[0]
  }

  lemma {:induction false} LeftmostFirst(mem: Mem, t: Tree, p: int)
    requires Rep(mem, t, p) && Proper(t) && t.Node?
    ensures Inorder(t) != [] && FirstOf(Inorder(t)) == if t.l.Leaf? then t.id else FirstOf(Inorder(t.l))
    ensures t.id in mem && mem[t.id].left == Id(t.l) && (t.l.Leaf? <==> mem[t.id].left == 0)
  {
    if t.l.Node? {
      LeftmostFirst(mem, t.l, t.id);
    }
  }

  /** rb_next(): the node that follows in order, NULL after the last. */
  method Next(mem: Mem, ghost root: int, node0: int, ghost ctx0: Ctx, ghost t0: Tree) returns (next: int)
    requires Whole(mem, root, ctx0, t0) && t0.Node? && t0.id == node0
    ensures next == FirstOf(Inorder(t0.r) + Post(ctx0))
    ensures Inorder(Plug(ctx0, t0)) == Pre(ctx0) + Inorder(t0.l) + [node0] + (Inorder(t0.r) + Post(ctx0))
  {
    OrderAround(ctx0, t0);
    assert Pre(ctx0) + Inorder(t0) + Post(ctx0) == Pre(ctx0) + Inorder(t0.l) + [node0] + (Inorder(t0.r) + Post(ctx0));
    hide Inorder, Plug, Pre, Post;
    RightRecord(mem, root, ctx0, t0);
    if mem[node0].right != 0 {
      next := mem[node0].right;
      ghost var t := t0.r;
      ghost var p := t0.id;
      LeftmostFirst(mem, t, p);
      while mem[next].left != 0
        invariant t.Node? && Rep(mem, t, p) && Proper(t) && t.id == next && next in mem && Inorder(t0.r) != []
        invariant (t.l.Leaf? <==> mem[next].left == 0) && mem[next].left == Id(t.l)
        invariant FirstOf(Inorder(t)) == FirstOf(Inorder(t0.r)) && FirstOf(Inorder(t)) == if t.l.Leaf? then t.id else FirstOf(Inorder(t.l))
        decreases t
      {
        next := mem[next].left;
        p, t := t.id, t.l;
        LeftmostFirst(mem, t, p);
      }
      return;
    }
    assert Inorder(t0.r) == [] by { LeafOrder(); }
    assert [] + Post(ctx0) == Post(ctx0);
    var node := node0;
    ghost var ctx, t := ctx0, t0;
    next := mem[node].parent;
    UpRecord(mem, root, ctx, t);
    while next != 0 && node == mem[next].right
      invariant Whole(mem, root, ctx, t) && t.Node? && t.id == node && next == Above(ctx) && Post(ctx) == Post(ctx0)
      invariant (next == 0 <==> ctx == []) && (next != 0 ==> next in mem && (node == mem[next].right <==> !ctx[0].left))
      decreases |ctx|
    {
      PostUp(ctx);
      WholeUp(mem, root, ctx, t);
      node := next;
      next := mem[node].parent;
      t, ctx := Up(ctx[0], t), ctx[1..];
      UpRecord(mem, root, ctx, t);
    }
    PostFirst(ctx);
  }

  lemma LeafOrder()
    ensures Inorder(Leaf) == []
  {
  }

  lemma {:induction false} RightRecord(mem: Mem, root: int, ctx: Ctx, t: Tree)
    requires Whole(mem, root, ctx, t) && t.Node?
    ensures t.id in mem && mem[t.id].right == Id(t.r) && mem[t.id].parent == Above(ctx) && Rep(mem, t.r, t.id) && Proper(t.r)
    ensures t.r.Leaf? <==> mem[t.id].right == 0
  {
    NullNot(t);
    IdIn(t.r);
  }

  lemma UpRecord(mem: Mem, root: int, ctx: Ctx, t: Tree)
    requires Whole(mem, root, ctx, t) && t.Node?
    ensures t.id in mem && mem[t.id].parent == Above(ctx) && (Above(ctx) == 0 <==> ctx == [])
    ensures ctx != [] ==> Above(ctx) in mem && (t.id == mem[Above(ctx)].right <==> !ctx[0].left)
  {
    if ctx != [] {
      ParentRecord(mem, root, ctx, t);
    }
  }

  lemma WholeUp(mem: Mem, root: int, ctx: Ctx, t: Tree)
    requires Whole(mem, root, ctx, t) && ctx != []
    ensures Whole(mem, root, ctx[1..], Up(ctx[0], t)) && Up(ctx[0], t).Node? && Up(ctx[0], t).id == ctx[0].id
  {
    var f := ctx[0];
    RepMk(mem, f.left, t, f.id, f.black, f.sib, Above(ctx[1..]));
    ProperMk(f.left, t, f.id, f.black, f.sib);
    assert Ids(Up(f, t)) == Ids(t) + {f.id} + Ids(f.sib);
  }

  lemma {:induction false} PostUp(ctx: Ctx)
    requires ctx != [] && !ctx[0].left
    ensures Post(ctx[1..]) == Post(ctx)
  {
  }

  lemma {:induction false} PostFirst(ctx: Ctx)
    ensures ctx == [] ==> Post(ctx) == []
    ensures ctx != [] && ctx[0].left ==> FirstOf(Post(ctx)) == ctx[0].id
  {
  }
}
