/** lib/rbtree.c: the fix-up loops after insertion and erasure, on nodes in memory. The code's mirrored
    branches are one here, with the side as a parameter. */
module RbRoot {
  import opened RbTree
  import opened RbMemory
  import opened RbRotate
  import opened RbInsertSteps
  import opened RbErase
  import opened RbEraseSteps
  import opened RbFacts
  import opened RbUnlink

  class Root {
    var nodes: Mem
    var root: int

    /** The tree in memory is t and obeys the rules; every node once. */
    ghost predicate Is(t: Tree)
      reads this
    {
      Whole(nodes, root, [], t) && RedBlack(t)
    }

    /** Cases 2 and 3: the uncle is black, and a rotation or two end the fix-up. */
    method InsertRotate(node: int, parent0: int, gparent: int, left: bool, ghost ctx: Ctx, ghost t: Tree, ghost h: nat)
      returns (ghost result: Tree)
      requires Inserting(nodes, root, ctx, t, h) && |ctx| >= 2 && !ctx[0].black && Black(ctx[1].sib)
      requires t.Node? && node == t.id && parent0 == ctx[0].id && gparent == ctx[1].id && left == ctx[1].left
      modifies this
      ensures Is(result) && Inorder(result) == Inorder(Plug(ctx, t)) && nodes.Keys == old(nodes).Keys
    {
      hide Whole, Bal, Fits, Plug, Inorder, Inserting, Turn, RotateUp, RedBlack;
      RedParent(nodes, root, ctx, t, h);
      ghost var p, g, rest := ctx[0], ctx[1], ctx[2..];
      var parent := parent0;
      var above := nodes[gparent].parent;
      var tmp := Kid(nodes[parent], !left);
      if node == tmp {
        TwiceNext(nodes, root, ctx, t, h);
        TurnKeys(nodes, left, parent, node);
        nodes := Turn(nodes, left, parent, node);
        result := Plug(rest, DoubleRotated(p, g, t));
        parent := node;
      } else {
        RotateNext(nodes, root, ctx, t, h);
        result := Plug(rest, Rotated(p, g, t));
      }
      RotateKeys(nodes, left, gparent, parent, false, false);
      nodes := RotateUp(nodes, left, gparent, parent, false, false);
      if above == 0 {
        root := parent;
      }
    }

    /** __rb_insert(): from a red leaf hung into a red-black tree (seen from that leaf) to a red-black
        tree with the same nodes in the same order. */
    method InsertColor(node0: int, ghost ctx0: Ctx, ghost t0: Tree, ghost h0: nat) returns (ghost result: Tree)
      requires Inserting(nodes, root, ctx0, t0, h0) && t0.id == node0
      modifies this
      ensures Is(result) && Inorder(result) == Inorder(Plug(ctx0, t0)) && nodes.Keys == old(nodes).Keys
    {
      hide Whole, Bal, Fits, Plug, Inorder, Inserting, RedBlack, Flipped;
      ghost var ctx, t, h := ctx0, t0, h0;
      var node := node0;
      InsertingHere(nodes, root, ctx, t, h);
      var parent := nodes[node].parent;
      while true
        invariant Inserting(nodes, root, ctx, t, h) && t.Node? && t.id == node && parent == Above(ctx)
        invariant Inorder(Plug(ctx, t)) == Inorder(Plug(ctx0, t0)) && nodes.Keys == old(nodes).Keys
        decreases |ctx|
      {
        InsertingHere(nodes, root, ctx, t, h);
        if parent == 0 {
          RootDone(nodes, root, ctx, t, h);
          nodes := SetParentColor(nodes, node, 0, true);
          return Blacken(t);
        }
        if nodes[parent].black {
          BlackParentDone(nodes, root, ctx, t, h);
          return Plug(ctx, t);
        }
        RedParent(nodes, root, ctx, t, h);
        var gparent := nodes[parent].parent;
        var left := parent != nodes[gparent].right;
        var tmp := Kid(nodes[gparent], !left);
        if tmp != 0 && !nodes[tmp].black {
          FlipNext(nodes, root, ctx, t, h);
          FlippedRed(ctx[0], ctx[1], t);
          nodes := SetParentColor(nodes, tmp, gparent, true);
          nodes := SetParentColor(nodes, parent, gparent, true);
          node := gparent;
          parent := nodes[node].parent;
          nodes := SetParentColor(nodes, node, parent, false);
          ctx, t, h := ctx[2..], Flipped(ctx[0], ctx[1], t), h + 1;
        } else {
          result := InsertRotate(node, parent, gparent, left, ctx, t, h);
          return;
        }
      }
    }

    /** rb_link_node() at a free place, then rb_insert_color(): the tree with the new node there. */
    method Insert(node: int, parent: int, left: bool, ghost ctx: Ctx) returns (ghost result: Tree)
      requires Whole(nodes, root, ctx, Leaf) && RedBlack(Plug(ctx, Leaf)) && node != 0 && node !in CtxIds(ctx)
      requires parent == Above(ctx) && (ctx != [] ==> left == ctx[0].left)
      modifies this
      ensures Is(result) && Inorder(result) == Pre(ctx) + [node] + Post(ctx) && nodes.Keys == old(nodes).Keys + {node}
    {
      LinkReady(nodes, root, ctx, node);
      PlaceNull(ctx);
      LinkOrder(ctx, node);
      hide Whole, RedBlack, Plug, Inorder, Pre, Post, Inserting;
      ghost var was := nodes;
      var m := nodes[node := Rb(0, 0, parent, false)];
      if parent != 0 {
        m := m[parent := WithKid(nodes[parent], left, node)];
      } else {
        root := node;
      }
      nodes := m;
      assert nodes == Linked(was, ctx, node);
      result := InsertColor(node, ctx, Node(Leaf, node, false, Leaf), 0);
    }

    /** Case 1: afterwards the sibling is black. */
    method EraseLift(parent: int, sibling: int, left: bool, ghost ctx: Ctx, ghost t: Tree, ghost h: nat)
      returns (tmp1: int, ghost ctx': Ctx)
      requires Erasing(nodes, root, ctx, t, h) && ctx != [] && ctx[0].sib.Node? && !ctx[0].sib.black
      requires parent == ctx[0].id && sibling == ctx[0].sib.id && left == ctx[0].left
      modifies this
      ensures Erasing(nodes, root, ctx', t, h) && Inorder(Plug(ctx', t)) == Inorder(Plug(ctx, t)) && nodes.Keys == old(nodes).Keys
      ensures ctx' != [] && ctx'[0].id == parent && ctx'[0].left == left && ctx'[0].sib.Node? && ctx'[0].sib.black
      ensures tmp1 == ctx'[0].sib.id && !ctx'[0].black
    {
      hide Erasing, Plug, Inorder, RotateUp;
      Sibling(nodes, root, ctx, t, h);
      LiftNext(nodes, root, ctx, t, h);
      tmp1 := Kid(nodes[sibling], left);
      RotateKeys(nodes, !left, parent, sibling, false, false);
      var above := nodes[parent].parent;
      nodes := RotateUp(nodes, !left, parent, sibling, false, false);
      if above == 0 {
        root := sibling;
      }
      ghost var (p, s) := Lifted(ctx[0]);
      ctx' := [p, s] + ctx[1..];
      Sibling(nodes, root, ctx', t, h);
      RedParentSibling(nodes, root, ctx', t, h);
    }

    /** Case 2: done if the parent was red or is the root; otherwise the parent's subtree is short. */
    method EraseJoin(parent: int, sibling: int, ghost ctx: Ctx, ghost t: Tree, ghost h: nat) returns (done: bool, up: int, ghost result: Tree)
      requires Erasing(nodes, root, ctx, t, h) && ctx != [] && ctx[0].sib.Node? && ctx[0].sib.black
      requires Black(ctx[0].sib.l) && Black(ctx[0].sib.r) && parent == ctx[0].id && sibling == ctx[0].sib.id
      modifies this`nodes
      ensures nodes.Keys == old(nodes).Keys && (done ==> Ended(nodes, root, result, ctx, t))
      ensures !done ==> Erasing(nodes, root, ctx[1..], Joined(ctx[0], t), h + 1) && ctx[0].black && ctx[1..] != [] && up == ctx[1..][0].id
      ensures !done ==> Inorder(Plug(ctx[1..], Joined(ctx[0], t))) == Inorder(Plug(ctx, t)) && Id(Joined(ctx[0], t)) == parent
    {
      hide Erasing, Plug, Inorder, Ended, Joined;
      Sibling(nodes, root, ctx, t, h);
      JoinNext(nodes, root, ctx, t, h);
      result := Plug(ctx[1..], Joined(ctx[0], t));
      nodes := SetParentColor(nodes, sibling, parent, false);
      if !nodes[parent].black {
        nodes := nodes[parent := nodes[parent].(black := true)];
        return true, 0, result;
      }
      BlackAgain(nodes, parent);
      up := nodes[parent].parent;
      done := up == 0;
    }

    /** Cases 3 and 4: a rotation or two end the fix-up. */
    method EraseRotate(parent: int, sibling0: int, left: bool, ghost ctx: Ctx, ghost t: Tree, ghost h: nat) returns (ghost result: Tree)
      requires Erasing(nodes, root, ctx, t, h) && ctx != [] && ctx[0].sib.Node? && ctx[0].sib.black
      requires parent == ctx[0].id && sibling0 == ctx[0].sib.id && left == ctx[0].left
      requires !Black(Far(left, ctx[0].sib)) || !Black(Near(left, ctx[0].sib))
      modifies this
      ensures Ended(nodes, root, result, ctx, t) && nodes.Keys == old(nodes).Keys
    {
      hide Erasing, Plug, Inorder, RotateUp, Ended, EraseTurn;
      Sibling(nodes, root, ctx, t, h);
      var sibling := sibling0;
      var above := nodes[parent].parent;
      var tmp1 := Kid(nodes[sibling], !left);
      if tmp1 == 0 || nodes[tmp1].black {
        var tmp2 := Kid(nodes[sibling], left);
        TwiceShiftNext(nodes, root, ctx, t, h);
        result := Plug(ctx[1..], TwiceShifted(ctx[0], t));
        EraseTurnKeys(nodes, left, parent, sibling, tmp2);
        nodes := EraseTurn(nodes, left, parent, sibling, tmp2);
        tmp1 := sibling;
        sibling := tmp2;
      } else {
        ShiftNext(nodes, root, ctx, t, h);
        result := Plug(ctx[1..], Shifted(ctx[0], t));
      }
      nodes := SetParentColor(nodes, tmp1, sibling, true);
      RotateKeys(nodes, !left, parent, sibling, true, true);
      nodes := RotateUp(nodes, !left, parent, sibling, true, true);
      if above == 0 {
        root := sibling;
      }
    }

    /** ____rb_erase_color(): from a tree one black node short at a child of parent to a red-black tree
        with the same nodes in the same order. */
    method EraseColor(parent0: int, ghost ctx0: Ctx, ghost t0: Tree, ghost h0: nat) returns (ghost result: Tree)
      requires Erasing(nodes, root, ctx0, t0, h0) && t0.Leaf? && ctx0 != [] && parent0 == ctx0[0].id
      modifies this
      ensures Ended(nodes, root, result, ctx0, t0) && nodes.Keys == old(nodes).Keys
    {
      hide Erasing, Plug, Inorder, Ended, Joined;
      ghost var ctx, t, h := ctx0, t0, h0;
      var node, parent := 0, parent0;
      while true
        invariant Erasing(nodes, root, ctx, t, h) && ctx != [] && parent == ctx[0].id && node == Id(t)
        invariant Inorder(Plug(ctx, t)) == Inorder(Plug(ctx0, t0)) && nodes.Keys == old(nodes).Keys
        decreases |ctx|
      {
        Sibling(nodes, root, ctx, t, h);
        ghost var rest := ctx[1..];
        var sibling := nodes[parent].right;
        var left := node != sibling;
        if !left {
          sibling := nodes[parent].left;
        }
        ghost var was := ctx;
        if !nodes[sibling].black {
          sibling, ctx := EraseLift(parent, sibling, left, ctx, t, h);
          Sibling(nodes, root, ctx, t, h);
        }
        var tmp1, tmp2 := Kid(nodes[sibling], !left), Kid(nodes[sibling], left);
        if (tmp1 == 0 || nodes[tmp1].black) && (tmp2 == 0 || nodes[tmp2].black) {
          KidsBlack(left, ctx[0].sib);
          node := parent;
          var done;
          done, parent, result := EraseJoin(node, sibling, ctx, t, h);
          if done {
            EndedSame(nodes, root, result, ctx, t, ctx0, t0);
            return;
          }
          ctx, t, h := ctx[1..], Joined(ctx[0], t), h + 1;
        } else {
          result := EraseRotate(parent, sibling, left, ctx, t, h);
          EndedSame(nodes, root, result, ctx, t, ctx0, t0);
          return;
        }
      }
    }

    /** Case 1 of __rb_erase_augmented(): no more than one child. */
    method EraseSingle(node: int, ghost ctx: Ctx, ghost n: Tree) returns (rebalance: int, ghost t': Tree)
      requires Whole(nodes, root, ctx, n) && n.Node? && n.id == node && RedBlack(Plug(ctx, n)) && (n.l.Leaf? || n.r.Leaf?)
      modifies this
      ensures Unlinked(nodes, root, ctx, t', rebalance) && Inorder(Plug(ctx, t')) == OrderWithout(ctx, n)
      ensures nodes.Keys == old(nodes).Keys
    {
      hide Whole, RedBlack, Plug, Inorder, Unlinked, OrderWithout;
      NodeHere(nodes, root, ctx, n);
      ghost var c := if n.l.Leaf? then n.r else n.l;
      t' := Blacken(c);
      Removed(ctx, n, c, ctx);
      OneUnlinked(nodes, root, ctx, n, c);
      OneOrder(ctx, n, c);
      ghost var was := nodes;
      var child, tmp := nodes[node].right, nodes[node].left;
      var pc := nodes[node];
      if tmp == 0 {
        nodes := RelinkAbove(nodes, pc.parent, node, child);
        if pc.parent == 0 { root := child; }
        if child != 0 {
          nodes := nodes[child := nodes[child].(parent := pc.parent, black := pc.black)];
          rebalance := 0;
        } else {
          rebalance := if pc.black then pc.parent else 0;
        }
      } else {
        nodes := nodes[tmp := nodes[tmp].(parent := pc.parent, black := pc.black)];
        nodes := RelinkAbove(nodes, pc.parent, node, tmp);
        if pc.parent == 0 { root := tmp; }
        rebalance := 0;
      }
      assert nodes == UnlinkOne(was, node, Id(c));
      UnlinkedBy(nodes, root, ctx, n, c, ctx);
    }

    /** The leftmost node under the right child, and the node above it. */
    method FindSuccessor(node: int, ghost ctx: Ctx, ghost n: Tree) returns (successor: int, parent: int, ghost a: Ctx, ghost sub: Tree)
      requires Whole(nodes, root, ctx, n) && n.Node? && n.id == node && n.l.Node? && n.r.Node?
      ensures var f := Frame(false, n.id, n.black, n.l);
              && AtSuccessor(nodes, root, a, f, ctx, sub) && Plug(a, sub) == n.r && Plug(a + ([f] + ctx), sub) == Plug(ctx, n)
              && successor == sub.id && parent == Over(a, sub.id)
      ensures Inorder(n.r) != [] && successor == Inorder(n.r)[0]
    {
      hide Whole, Plug, GoingDown, AtSuccessor, Inorder;
      NodeHere(nodes, root, ctx, n);
      DownStarts(nodes, root, ctx, n);
      ghost var f := Frame(false, n.id, n.black, n.l);
      a, sub := [], n.r;
      DownHere(nodes, root, a, f, ctx, sub, n.r);
      successor := nodes[node].right;
      parent := successor;
      var tmp := nodes[successor].left;
      while tmp != 0
        invariant GoingDown(nodes, root, a, f, ctx, sub, n.r) && sub.Node? && sub.id == successor && tmp == Id(sub.l)
        invariant Id(sub.l) == 0 <==> sub.l.Leaf?
        invariant parent == Over(a, sub.id)
        decreases sub
      {
        DownOn(nodes, root, a, f, ctx, sub, n.r);
        a, sub := [Frame(true, sub.id, sub.black, sub.r)] + a, sub.l;
        DownHere(nodes, root, a, f, ctx, sub, n.r);
        parent := successor;
        successor := tmp;
        tmp := nodes[tmp].left;
      }
      DownEnds(nodes, root, a, f, ctx, sub, n.r);
      DownPlug(nodes, root, a, f, ctx, sub, n.r);
    }

    /** The writes that put the successor in the node's place; its right child stays where it was, black. */
    method PutSuccessor(node: int, child: int, successor: int, parent: int, child2: int)
      requires node in nodes && successor in nodes && child in nodes && parent in nodes && nodes[node].left in nodes
      requires (child2 != 0 ==> child2 in nodes) && (nodes[node].parent != 0 ==> nodes[node].parent in nodes)
      requires node != successor && node != child && node != parent && node != nodes[node].left && node != nodes[node].parent
      requires child == successor ==> parent == successor
      modifies this
      ensures nodes == Splice(old(nodes), node, successor, parent, child, child2, child != successor)
      ensures root == if old(nodes)[node].parent == 0 then successor else old(root)
    {
      hide ChangeChild;
      if child != successor {
        nodes := SetKid(nodes, parent, true, child2);
        nodes := SetKid(nodes, successor, false, child);
        nodes := nodes[child := nodes[child].(parent := successor)];
      }
      var tmp := nodes[node].left;
      nodes := SetKid(nodes, successor, true, tmp);
      nodes := nodes[tmp := nodes[tmp].(parent := successor)];
      tmp := nodes[node].parent;
      nodes := RelinkAbove(nodes, tmp, node, successor);
      if tmp == 0 { root := successor; }
      nodes := nodes[successor := nodes[successor].(parent := nodes[node].parent, black := nodes[node].black)];
      if child2 != 0 {
        nodes := SetParentColor(nodes, child2, parent, true);
      }
    }

    /** Cases 2 and 3: the successor takes the node's place. */
    method EraseSplice(node: int, ghost ctx: Ctx, ghost n: Tree) returns (rebalance: int, ghost ctx': Ctx, ghost t': Tree)
      requires Whole(nodes, root, ctx, n) && n.Node? && n.id == node && RedBlack(Plug(ctx, n)) && n.l.Node? && n.r.Node?
      modifies this
      ensures Unlinked(nodes, root, ctx', t', rebalance) && Inorder(Plug(ctx', t')) == OrderWithout(ctx, n)
      ensures nodes.Keys == old(nodes).Keys
    {
      hide Whole, RedBlack, Plug, Inorder, Unlinked, OrderWithout, AtSuccessor, ChangeChild;
      NodeHere(nodes, root, ctx, n);
      ghost var f := Frame(false, n.id, n.black, n.l);
      var child := nodes[node].right;
      var successor, parent;
      ghost var a: Ctx, sub: Tree;
      successor, parent, a, sub := FindSuccessor(node, ctx, n);
      Successor(nodes, root, a, f, ctx, sub);
      SpliceReads(nodes, root, a, f, ctx, sub);
      SuccessorRecord(nodes, root, a, f, ctx, sub);
      Spliced(nodes, root, a, f, ctx, sub);
      ghost var was := nodes;
      ctx', t' := a + ([f.(id := sub.id)] + ctx), Blacken(sub.r);
      SplicedOrder(ctx, n, a, sub);
      SplicedShape(a, f, ctx, sub.id);
      SpliceApart(nodes, root, a, f, ctx, sub);
      var child2, black2 := nodes[successor].right, nodes[successor].black;
      PutSuccessor(node, child, successor, parent, child2);
      if child2 != 0 {
        rebalance := 0;
      } else {
        rebalance := if black2 then parent else 0;
      }
      assert nodes == SpliceAt(was, a, f, sub);
      UnlinkedBy(nodes, root, a + ([f] + ctx), sub, sub.r, ctx');
    }

    /** rb_erase(): the tree without the node is a red-black tree again, the others in the same order. */
    method Erase(node: int, ghost ctx: Ctx, ghost n: Tree) returns (ghost result: Tree)
      requires Whole(nodes, root, ctx, n) && n.Node? && n.id == node && RedBlack(Plug(ctx, n))
      modifies this
      ensures Is(result) && nodes.Keys == old(nodes).Keys
      ensures var before, after := Pre(ctx) + Inorder(n.l), Inorder(n.r) + Post(ctx);
              Inorder(Plug(ctx, n)) == before + [node] + after && Inorder(result) == before + after
    {
      NodeHere(nodes, root, ctx, n);
      NodeOrder(ctx, n);
      hide Whole, RedBlack, Plug, Inorder, Pre, Post;
      var rebalance;
      ghost var ctx', t';
      if nodes[node].left == 0 || nodes[node].right == 0 {
        rebalance, t' := EraseSingle(node, ctx, n);
        ctx' := ctx;
      } else {
        rebalance, ctx', t' := EraseSplice(node, ctx, n);
      }
      if rebalance != 0 {
        result := EraseColor(rebalance, ctx', t', 0);
      } else {
        WholePlug(nodes, root, ctx', t');
        result := Plug(ctx', t');
      }
    }
  }
}
