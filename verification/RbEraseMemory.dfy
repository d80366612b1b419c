/** ____rb_erase_color(), case by case, in memory. */
module RbEraseMemory {
  import opened RbTree
  import opened RbMemory
  import opened RbInsert
  import opened RbErase

  ghost predicate SibPieces(f: Frame, t: Tree) {
    && Proper(t) && Proper(f.sib) && f.id != 0 && f.id !in Ids(t) && f.id !in Ids(f.sib) && Ids(t) !! Ids(f.sib)
    && 0 !in Ids(t) && 0 !in Ids(f.sib)
  }

  ghost function SibIds(f: Frame, t: Tree): set<int> {
    Ids(t) + {f.id} + Ids(f.sib)
  }

  lemma {:induction false} OneFrame(mem: Mem, root: int, ctx: Ctx, t: Tree)
    requires Whole(mem, root, ctx, t) && ctx != []
    ensures var f, rest := ctx[0], ctx[1..]; var above := Above(rest);
            && SibPieces(f, t) && f.id in mem && mem[f.id] == Record(f.left, Id(t), Id(f.sib), above, f.black)
            && Rep(mem, t, f.id) && Rep(mem, f.sib, f.id) && RepCtx(mem, root, rest, f.id) && CtxProper(rest, SibIds(f, t))
            && (above == 0 <==> rest == []) && (rest != [] ==> above in mem) && above !in SibIds(f, t)
  {
    var f, rest := ctx[0], ctx[1..];
    RepCtxOpen(mem, root, ctx, Id(t));
    CtxProperOpen(ctx, Ids(t));
    NullNot(t);
    NullNot(f.sib);
    CtxApart(rest, SibIds(f, t));
    AboveIn(rest);
    if rest != [] {
      RepCtxOpen(mem, root, rest, f.id);
      CtxProperOpen(rest, SibIds(f, t));
    }
    hide Rep, Ids, Proper;
  }

  /** The sibling and its two subtrees. */
  lemma {:induction false} SibParts(mem: Mem, f: Frame, t: Tree)
    requires SibPieces(f, t) && Rep(mem, f.sib, f.id) && f.sib.Node?
    ensures var s := f.sib; var a, b := Near(f.left, s), Far(f.left, s);
            && Ids(s) == Ids(a) + {s.id} + Ids(b) && s.id != 0 && s.id !in Ids(a) && s.id !in Ids(b) && Ids(a) !! Ids(b)
            && Proper(a) && Proper(b) && Rep(mem, a, s.id) && Rep(mem, b, s.id)
            && s.id in mem && mem[s.id] == Record(f.left, Id(a), Id(b), f.id, s.black)
            && s.id !in Ids(t) && s.id != f.id
            && (a.Node? ==> a.id in Ids(a) && a.id in mem && a.id != 0) && (b.Node? ==> b.id in Ids(b) && b.id in mem && b.id != 0)
  {
    NodePieces(mem, f.left, f.sib, f.id);
  }

  /** A subtree hung on another node, in its colour or turned black. */
  lemma {:induction false} RehungKeep(mem: Mem, mem': Mem, t: Tree, p: int, q: int, touched: set<int>, above: int)
    requires Rep(mem, t, p) && Proper(t) && above !in Ids(t) && Ids(t) * touched <= {Id(t)} && Elsewhere(mem, mem', touched, above)
    requires t.Node? ==> t.id in mem && t.id in mem' && mem'[t.id] == mem[t.id].(parent := q)
    ensures Rep(mem', t, q)
  {
    if t.Node? {
      forall x | x in Ids(t) - {t.id} && x in mem ensures x in mem' && mem'[x] == mem[x] {
        assert x !in touched;
      }
      assert mem[t.id].black == t.black;
      RepMoved(mem, mem', t, p, q, t.black);
    }
  }

  // ---------- case 1

  lemma LiftDone(mem: Mem, mem': Mem, root: int, root': int, ctx: Ctx, t: Tree)
    requires Whole(mem, root, ctx, t) && ctx != [] && ctx[0].sib.Node? && Black(Near(ctx[0].left, ctx[0].sib))
    requires var f := ctx[0]; var a, b := Near(f.left, f.sib), Far(f.left, f.sib);
             && f.id in mem' && f.sib.id in mem'
             && mem'[f.sib.id] == Record(f.left, f.id, Id(b), Above(ctx[1..]), true)
             && mem'[f.id] == Record(f.left, Id(t), Id(a), f.sib.id, false)
             && (a.Node? ==> a.id in mem && a.id in mem' && mem'[a.id] == mem[a.id].(parent := f.id, black := true))
             && Elsewhere(mem, mem', {f.sib.id, f.id, Id(a)}, Above(ctx[1..]))
    requires Relinked(mem, mem', root, root', ctx[1..], ctx[0].id, ctx[0].sib.id)
    ensures var (p, s) := Lifted(ctx[0]); Whole(mem', root', [p, s] + ctx[1..], t)
  {
    var f, rest := ctx[0], ctx[1..];
    var a, b := Near(f.left, f.sib), Far(f.left, f.sib);
    var above := Above(rest);
    var touched := {f.sib.id, f.id, Id(a)};
    OneFrame(mem, root, ctx, t);
    SibParts(mem, f, t);
    CtxApart(rest, SibIds(f, t));
    hide Ids, Proper, Rep, CtxProper, Near, Far, RepCtx;
    LiftApart(f, t);
    Untouched(mem, mem', t, f.id, touched, above);
    Untouched(mem, mem', b, f.sib.id, touched, above);
    Rehung(mem, mem', a, f.sib.id, f.id, touched, above);
    CtxSwapped(mem, mem', root, rest, SibIds(f, t), f.id, f.sib.id);
    LiftCtx(mem', root', f, rest, t);
  }

  lemma {:induction false} LiftApart(f: Frame, t: Tree)
    requires SibPieces(f, t) && f.sib.Node?
    requires var s := f.sib; var a, b := Near(f.left, s), Far(f.left, s);
             && Ids(s) == Ids(a) + {s.id} + Ids(b) && s.id !in Ids(a) && s.id !in Ids(b) && Ids(a) !! Ids(b)
             && (a.Node? ==> a.id in Ids(a))
    ensures var s := f.sib; var a, b := Near(f.left, s), Far(f.left, s); var touched := {s.id, f.id, Id(a)};
            Ids(t) !! touched && Ids(b) !! touched && Ids(a) * touched <= {Id(a)} && touched <= SibIds(f, t) + {0}
  {
    hide Ids, Proper, Near, Far;
  }

  lemma {:induction false} LiftCtx(mem': Mem, root': int, f: Frame, rest: Ctx, t: Tree)
    requires SibPieces(f, t) && f.sib.Node? && f.id in mem' && f.sib.id in mem' && CtxProper(rest, SibIds(f, t))
    requires var s := f.sib; var a, b := Near(f.left, s), Far(f.left, s);
             && Ids(s) == Ids(a) + {s.id} + Ids(b) && s.id !in Ids(a) && s.id !in Ids(b) && Ids(a) !! Ids(b) && s.id != 0
             && Proper(a) && Proper(b)
             && mem'[s.id] == Record(f.left, f.id, Id(b), Above(rest), true) && mem'[f.id] == Record(f.left, Id(t), Id(a), s.id, false)
             && Rep(mem', t, f.id) && Rep(mem', a, f.id) && Rep(mem', b, s.id) && RepCtx(mem', root', rest, s.id)
    ensures var (p, s) := Lifted(f); Whole(mem', root', [p, s] + rest, t)
  {
    hide Rep, Ids, Proper, Near, Far;
    var (p, s) := Lifted(f);
    var ctx' := [p, s] + rest;
    assert ctx'[0] == p && ctx'[1..] == [s] + rest && ([s] + rest)[0] == s && ([s] + rest)[1..] == rest;
    assert RepCtx(mem', root', [s] + rest, f.id);
    assert SibIds(f, t) == Ids(t) + {f.id} + Ids(p.sib) + {s.id} + Ids(s.sib);
    assert CtxProper([s] + rest, Ids(t) + {f.id} + Ids(p.sib));
    assert CtxProper(ctx', Ids(t));
  }

  // ---------- case 2

  lemma JoinDone(mem: Mem, mem': Mem, root: int, ctx: Ctx, t: Tree)
    requires Whole(mem, root, ctx, t) && ctx != [] && ctx[0].sib.Node?
    requires var f := ctx[0];
             && f.id in mem && f.sib.id in mem && f.id in mem' && f.sib.id in mem'
             && mem'[f.id] == mem[f.id].(black := true) && mem'[f.sib.id] == mem[f.sib.id].(parent := f.id, black := false)
             && Elsewhere(mem, mem', {f.id, f.sib.id}, 0) && (0 in mem ==> 0 in mem' && mem'[0] == mem[0])
    ensures Whole(mem', root, ctx[1..], Joined(ctx[0], t))
  {
    var f, rest := ctx[0], ctx[1..];
    OneFrame(mem, root, ctx, t);
    CtxApart(rest, SibIds(f, t));
    assert f.sib.id in Ids(f.sib);
    assert Ids(Redden(f.sib)) == Ids(f.sib) && Proper(Redden(f.sib)) && Id(Redden(f.sib)) == Id(f.sib);
    hide Ids, Proper, Rep, CtxProper, RepCtx;
    RepKept(mem, mem', t, f.id);
    RepMoved(mem, mem', f.sib, f.id, f.id, false);
    RepMk(mem', f.left, t, f.id, true, Redden(f.sib), Above(rest));
    ProperMk(f.left, t, f.id, true, Redden(f.sib));
    MkId(f.left, t, f.id, true, Redden(f.sib));
    Rebuilt(mem, mem', root, rest, SibIds(f, t), f.id, Joined(f, t));
  }

  // ---------- case 4

  ghost predicate ShiftsTo(mem: Mem, mem': Mem, f: Frame, t: Tree, above: int)
    requires f.sib.Node?
  {
    var s := f.sib;
    var a, b := Near(f.left, s), Far(f.left, s);
    && f.id in mem' && s.id in mem'
    && mem'[s.id] == Record(f.left, f.id, Id(b), above, f.black) && mem'[f.id] == Record(f.left, Id(t), Id(a), s.id, true)
    && (a.Node? ==> a.id in mem && a.id in mem' && mem'[a.id] == mem[a.id].(parent := f.id))
    && (b.Node? ==> b.id in mem && b.id in mem' && mem'[b.id] == mem[b.id].(parent := s.id, black := true))
  }

  lemma ShiftDone(mem: Mem, mem': Mem, root: int, root': int, ctx: Ctx, t: Tree)
    requires Whole(mem, root, ctx, t) && ctx != [] && ctx[0].sib.Node? && Far(ctx[0].left, ctx[0].sib).Node?
    requires ShiftsTo(mem, mem', ctx[0], t, Above(ctx[1..]))
    requires var f := ctx[0];
             Elsewhere(mem, mem', {f.sib.id, f.id, Id(Near(f.left, f.sib)), Id(Far(f.left, f.sib))}, Above(ctx[1..]))
    requires Relinked(mem, mem', root, root', ctx[1..], ctx[0].id, ctx[0].sib.id)
    ensures Whole(mem', root', ctx[1..], Shifted(ctx[0], t))
  {
    var f, rest := ctx[0], ctx[1..];
    var a, b := Near(f.left, f.sib), Far(f.left, f.sib);
    var above := Above(rest);
    var touched := {f.sib.id, f.id, Id(a), Id(b)};
    OneFrame(mem, root, ctx, t);
    SibParts(mem, f, t);
    ShiftedSame(f, t);
    hide Ids, Proper, Rep, CtxProper, Near, Far, RepCtx, Inorder;
    ShiftApart(f, t);
    Untouched(mem, mem', t, f.id, touched, above);
    RehungKeep(mem, mem', a, f.sib.id, f.id, touched, above);
    RepMoved(mem, mem', b, f.sib.id, f.sib.id, true);
    ShiftRebuilt(mem', f, t, above);
    RebuiltAt(mem, mem', root, root', rest, SibIds(f, t), f.id, Shifted(f, t), touched);
  }

  lemma {:induction false} ShiftApart(f: Frame, t: Tree)
    requires SibPieces(f, t) && f.sib.Node?
    requires var s := f.sib; var a, b := Near(f.left, s), Far(f.left, s);
             && Ids(s) == Ids(a) + {s.id} + Ids(b) && s.id !in Ids(a) && s.id !in Ids(b) && Ids(a) !! Ids(b)
             && (a.Node? ==> a.id in Ids(a)) && (b.Node? ==> b.id in Ids(b))
    ensures var s := f.sib; var a, b := Near(f.left, s), Far(f.left, s); var touched := {s.id, f.id, Id(a), Id(b)};
            && Ids(t) !! touched && Ids(a) * touched <= {Id(a)} && Ids(b) * touched <= {Id(b)} && touched <= SibIds(f, t) + {0}
  {
    hide Ids, Proper, Near, Far;
  }

  lemma {:induction false} ShiftRebuilt(mem': Mem, f: Frame, t: Tree, above: int)
    requires SibPieces(f, t) && f.sib.Node? && f.id in mem' && f.sib.id in mem'
    requires var s := f.sib; var a, b := Near(f.left, s), Far(f.left, s);
             && Ids(s) == Ids(a) + {s.id} + Ids(b) && s.id !in Ids(a) && s.id !in Ids(b) && Ids(a) !! Ids(b) && s.id != 0
             && Proper(a) && Proper(b)
             && mem'[s.id] == Record(f.left, f.id, Id(b), above, f.black) && mem'[f.id] == Record(f.left, Id(t), Id(a), s.id, true)
             && Rep(mem', t, f.id) && Rep(mem', a, f.id) && Rep(mem', Blacken(b), s.id)
    ensures var r := Shifted(f, t); Rep(mem', r, above) && Proper(r) && Id(r) == f.sib.id
  {
    var a, b := Near(f.left, f.sib), Far(f.left, f.sib);
    BlackenProper(b);
    hide Rep, Ids, Proper, Near, Far;
    var near := Mk(f.left, t, f.id, true, a);
    RepMk(mem', f.left, t, f.id, true, a, f.sib.id);
    RepMk(mem', f.left, near, f.sib.id, f.black, Blacken(b), above);
    ProperMk(f.left, t, f.id, true, a);
    ProperMk(f.left, near, f.sib.id, f.black, Blacken(b));
    MkId(f.left, t, f.id, true, a);
    MkId(f.left, near, f.sib.id, f.black, Blacken(b));
  }

  // ---------- cases 3 and 4

  ghost predicate TwiceShiftsTo(mem: Mem, mem': Mem, f: Frame, t: Tree, above: int)
    requires f.sib.Node? && Near(f.left, f.sib).Node?
  {
    var s := f.sib;
    var l, r := Near(f.left, s), Far(f.left, s);
    var a, b := Near(f.left, l), Far(f.left, l);
    && f.id in mem' && s.id in mem' && l.id in mem'
    && mem'[l.id] == Record(f.left, f.id, s.id, above, f.black)
    && mem'[f.id] == Record(f.left, Id(t), Id(a), l.id, true) && mem'[s.id] == Record(f.left, Id(b), Id(r), l.id, true)
    && (a.Node? ==> a.id in mem && a.id in mem' && mem'[a.id] == mem[a.id].(parent := f.id))
    && (b.Node? ==> b.id in mem && b.id in mem' && mem'[b.id] == mem[b.id].(parent := s.id, black := true))
  }

  /** The near child of the sibling and its subtrees, apart from everything else. */
  ghost predicate NearPieces(f: Frame, t: Tree)
    requires f.sib.Node? && Near(f.left, f.sib).Node?
  {
    var s := f.sib;
    var l, r := Near(f.left, s), Far(f.left, s);
    var a, b := Near(f.left, l), Far(f.left, l);
    && Ids(s) == Ids(l) + {s.id} + Ids(r) && s.id !in Ids(l) && s.id !in Ids(r) && Ids(l) !! Ids(r) && s.id != 0
    && Ids(l) == Ids(a) + {l.id} + Ids(b) && l.id !in Ids(a) && l.id !in Ids(b) && Ids(a) !! Ids(b) && l.id != 0
    && Proper(r) && Proper(a) && Proper(b) && (a.Node? ==> a.id in Ids(a)) && (b.Node? ==> b.id in Ids(b))
  }

  lemma TwiceShiftDone(mem: Mem, mem': Mem, root: int, root': int, ctx: Ctx, t: Tree)
    requires Whole(mem, root, ctx, t) && ctx != [] && ctx[0].sib.Node? && Near(ctx[0].left, ctx[0].sib).Node?
    requires var f := ctx[0]; Black(Far(f.left, Near(f.left, f.sib)))
    requires TwiceShiftsTo(mem, mem', ctx[0], t, Above(ctx[1..]))
    requires var f := ctx[0]; var l := Near(f.left, f.sib);
             Elsewhere(mem, mem', {l.id, f.id, f.sib.id, Id(Near(f.left, l)), Id(Far(f.left, l))}, Above(ctx[1..]))
    requires Relinked(mem, mem', root, root', ctx[1..], ctx[0].id, Near(ctx[0].left, ctx[0].sib).id)
    ensures Whole(mem', root', ctx[1..], TwiceShifted(ctx[0], t))
  {
    var f, rest := ctx[0], ctx[1..];
    var l, r := Near(f.left, f.sib), Far(f.left, f.sib);
    var a, b := Near(f.left, l), Far(f.left, l);
    var above := Above(rest);
    var touched := {l.id, f.id, f.sib.id, Id(a), Id(b)};
    OneFrame(mem, root, ctx, t);
    SibParts(mem, f, t);
    NodePieces(mem, f.left, l, f.sib.id);
    IdIn(a);
    IdIn(b);
    TwiceShiftedSame(f, t);
    assert NearPieces(f, t);
    hide Ids, Proper, Rep, CtxProper, Near, Far, RepCtx, Inorder;
    TwiceShiftApart(f, t);
    Untouched(mem, mem', t, f.id, touched, above);
    Untouched(mem, mem', r, f.sib.id, touched, above);
    RehungKeep(mem, mem', a, l.id, f.id, touched, above);
    Rehung(mem, mem', b, l.id, f.sib.id, touched, above);
    TwiceShiftRebuilt(mem', f, t, above);
    RebuiltAt(mem, mem', root, root', rest, SibIds(f, t), f.id, TwiceShifted(f, t), touched);
  }

  lemma {:induction false} TwiceShiftApart(f: Frame, t: Tree)
    requires SibPieces(f, t) && f.sib.Node? && Near(f.left, f.sib).Node? && NearPieces(f, t)
    ensures var s := f.sib; var l, r := Near(f.left, s), Far(f.left, s); var a, b := Near(f.left, l), Far(f.left, l);
            var touched := {l.id, f.id, s.id, Id(a), Id(b)};
            && Ids(t) !! touched && Ids(r) !! touched && Ids(a) * touched <= {Id(a)} && Ids(b) * touched <= {Id(b)}
            && touched <= SibIds(f, t) + {0}
  {
    hide Ids, Proper, Near, Far;
  }

  lemma {:induction false} TwiceShiftRebuilt(mem': Mem, f: Frame, t: Tree, above: int)
    requires SibPieces(f, t) && f.sib.Node? && Near(f.left, f.sib).Node? && NearPieces(f, t)
    requires var s := f.sib; var l, r := Near(f.left, s), Far(f.left, s); var a, b := Near(f.left, l), Far(f.left, l);
             && f.id in mem' && s.id in mem' && l.id in mem'
             && mem'[l.id] == Record(f.left, f.id, s.id, above, f.black)
             && mem'[f.id] == Record(f.left, Id(t), Id(a), l.id, true) && mem'[s.id] == Record(f.left, Id(b), Id(r), l.id, true)
             && Rep(mem', t, f.id) && Rep(mem', a, f.id) && Rep(mem', b, s.id) && Rep(mem', r, s.id)
    ensures var q := TwiceShifted(f, t); Rep(mem', q, above) && Proper(q) && Id(q) == Near(f.left, f.sib).id
  {
    var s := f.sib;
    var l, r := Near(f.left, s), Far(f.left, s);
    var a, b := Near(f.left, l), Far(f.left, l);
    hide Rep, Ids, Proper, Near, Far;
    var near, far := Mk(f.left, t, f.id, true, a), Mk(f.left, b, s.id, true, r);
    RepMk(mem', f.left, t, f.id, true, a, l.id);
    RepMk(mem', f.left, b, s.id, true, r, l.id);
    RepMk(mem', f.left, near, l.id, f.black, far, above);
    ProperMk(f.left, t, f.id, true, a);
    ProperMk(f.left, b, s.id, true, r);
    ProperMk(f.left, near, l.id, f.black, far);
    MkId(f.left, t, f.id, true, a);
    MkId(f.left, b, s.id, true, r);
    MkId(f.left, near, l.id, f.black, far);
  }
}
