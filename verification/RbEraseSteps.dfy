/** ____rb_erase_color(): the steps of the loop as whole steps from tree to tree. */
module RbEraseSteps {
  import opened RbTree
  import opened RbMemory
  import opened RbInsert
  import opened RbRotate
  import opened RbErase
  import opened RbEraseMemory
  import opened RbInsertSteps

  ghost predicate Erasing(mem: Mem, root: int, ctx: Ctx, t: Tree, h: nat) {
    Whole(mem, root, ctx, t) && Short(ctx, t, h)
  }

  /** What the records say about the sibling. */
  lemma Sibling(mem: Mem, root: int, ctx: Ctx, t: Tree, h: nat)
    requires Erasing(mem, root, ctx, t, h)
    ensures ctx != [] && ctx[0].sib.Node?
    ensures var f := ctx[0]; var s := f.sib; var a, b := Near(f.left, s), Far(f.left, s);
            && f.id in mem && f.id != 0 && s.id in mem && s.id != 0 && f.id != s.id && mem[f.id].black == f.black && mem[s.id].black == s.black
            && mem[f.id].parent == Above(ctx[1..]) && (Above(ctx[1..]) == 0 <==> ctx[1..] == [])
            && (Id(t) != mem[f.id].right <==> f.left) && Kid(mem[f.id], !f.left) == s.id
            && Kid(mem[s.id], f.left) == Id(a) && Kid(mem[s.id], !f.left) == Id(b)
            && (Id(a) == 0 <==> a.Leaf?) && (Id(b) == 0 <==> b.Leaf?)
            && (a.Node? ==> a.id in mem && mem[a.id].black == a.black) && (b.Node? ==> b.id in mem && mem[b.id].black == b.black)
  {
    var f := ctx[0];
    var s := f.sib;
    var a, b := Near(f.left, s), Far(f.left, s);
    ShortSibling(ctx, t, h);
    OneFrame(mem, root, ctx, t);
    SibParts(mem, f, t);
    IdIn(t);
    KidRecord(f.left, Id(t), s.id, Above(ctx[1..]), f.black, 0);
    KidRecord(f.left, Id(a), Id(b), f.id, s.black, 0);
    assert a.Node? ==> mem[a.id].black == a.black;
    assert b.Node? ==> mem[b.id].black == b.black;
    hide Whole, Short, Rep, Ids, Proper, RepCtx, CtxProper;
  }

  /** Only the frame f is new; the order of the whole follows that of the part. */
  lemma {:induction false} SamePlug1(ctx: Ctx, t: Tree, u: Tree)
    requires ctx != [] && Inorder(u) == Inorder(Up(ctx[0], t))
    ensures Inorder(Plug(ctx[1..], u)) == Inorder(Plug(ctx, t))
  {
    PlugInorder(ctx[1..], u, Up(ctx[0], t));
  }

  /** The tree the fix-up ends with. */
  ghost predicate Ended(mem': Mem, root': int, r: Tree, ctx: Ctx, t: Tree) {
    Whole(mem', root', [], r) && RedBlack(r) && Inorder(r) == Inorder(Plug(ctx, t))
  }

  lemma {:induction false} EndedBy(mem': Mem, root': int, ctx: Ctx, t: Tree, u: Tree, h: nat)
    requires ctx != [] && Whole(mem', root', ctx[1..], u) && Bal(u, h) && Fits(ctx[1..], h)
    requires Black(u) || (ctx[1..] != [] && ctx[1..][0].black)
    requires Inorder(u) == Inorder(Up(ctx[0], t))
    ensures Ended(mem', root', Plug(ctx[1..], u), ctx, t)
  {
    WholePlug(mem', root', ctx[1..], u);
    PlugRedBlack(ctx[1..], u, h);
    SamePlug1(ctx, t, u);
  }

  // ---------- case 1

  lemma {:induction false} LiftNext(mem: Mem, root: int, ctx: Ctx, t: Tree, h: nat)
    requires Erasing(mem, root, ctx, t, h) && ctx[0].sib.Node? && !ctx[0].sib.black
    ensures var f, rest := ctx[0], ctx[1..]; var (p, s) := Lifted(f);
            && f.id in mem && CanRotate(mem, !f.left, f.id, f.sib.id)
            && Erasing(RotateUp(mem, !f.left, f.id, f.sib.id, false, false), NewRoot(mem, root, f.id, f.sib.id), [p, s] + rest, t, h)
            && Inorder(Plug([p, s] + rest, t)) == Inorder(Plug(ctx, t))
  {
    var f, rest := ctx[0], ctx[1..];
    var (p, s) := Lifted(f);
    LiftedShort(ctx, t, h);
    LiftedSame(f, t);
    LiftPlug(ctx, t);
    ShortSibling(ctx, t, h);
    NearFarBal(f.left, f.sib, h + 1);
    OneFrame(mem, root, ctx, t);
    SibParts(mem, f, t);
    IdIn(t);
    hide Short, Bal, Fits, Whole, RepCtx, CtxProper, Ids, Proper, Inorder, Rep, Near, Far, Plug;
    LiftFacts(mem, root, f, rest, t);
    LiftDone(mem, RotateUp(mem, !f.left, f.id, f.sib.id, false, false), root, NewRoot(mem, root, f.id, f.sib.id), ctx, t);
  }

  lemma {:induction false} LiftPlug(ctx: Ctx, t: Tree)
    requires ctx != [] && ctx[0].sib.Node?
    requires var (p, s) := Lifted(ctx[0]); Inorder(Up(s, Up(p, t))) == Inorder(Up(ctx[0], t))
    ensures var (p, s) := Lifted(ctx[0]); Inorder(Plug([p, s] + ctx[1..], t)) == Inorder(Plug(ctx, t))
  {
    var (p, s) := Lifted(ctx[0]);
    var rest := ctx[1..];
    var ctx' := [p, s] + rest;
    assert ctx'[1..] == [s] + rest && ([s] + rest)[1..] == rest;
    assert Plug(ctx', t) == Plug([s] + rest, Up(p, t)) == Plug(rest, Up(s, Up(p, t)));
    PlugInorder(rest, Up(s, Up(p, t)), Up(ctx[0], t));
  }

  lemma LiftFacts(mem: Mem, root: int, f: Frame, rest: Ctx, t: Tree)
    requires f.sib.Node? && f.id in mem && f.sib.id in mem && f.id != 0 && f.sib.id != 0 && f.sib.id != f.id && f.black
    requires var a, b := Near(f.left, f.sib), Far(f.left, f.sib); var above := Above(rest);
             && mem[f.id] == Record(f.left, Id(t), f.sib.id, above, f.black)
             && mem[f.sib.id] == Record(f.left, Id(a), Id(b), f.id, f.sib.black)
             && (a.Node? ==> a.id in mem) && Id(a) != f.id && Id(a) != f.sib.id && above != f.id && above != f.sib.id
             && (above != 0 ==> above in mem && above != Id(a)) && (above == 0 <==> rest == []) && (a.Node? ==> a.id != 0)
    ensures CanRotate(mem, !f.left, f.id, f.sib.id)
    ensures var a, b := Near(f.left, f.sib), Far(f.left, f.sib); var above := Above(rest);
            var mem' := RotateUp(mem, !f.left, f.id, f.sib.id, false, false);
            && f.id in mem' && f.sib.id in mem'
            && mem'[f.sib.id] == Record(f.left, f.id, Id(b), above, true) && mem'[f.id] == Record(f.left, Id(t), Id(a), f.sib.id, false)
            && (a.Node? ==> a.id in mem' && mem'[a.id] == mem[a.id].(parent := f.id, black := true))
            && Elsewhere(mem, mem', {f.sib.id, f.id, Id(a)}, above)
            && Relinked(mem, mem', root, NewRoot(mem, root, f.id, f.sib.id), rest, f.id, f.sib.id)
  {
    var a, b := Near(f.left, f.sib), Far(f.left, f.sib);
    var above := Above(rest);
    FlipSide(f.left, Id(t), f.sib.id, above, f.black);
    FlipSide(f.left, Id(a), Id(b), f.id, f.sib.black);
    KidRecord(!f.left, Id(b), Id(a), f.id, f.sib.black, 0);
    KidRecord(!f.left, f.sib.id, Id(t), above, f.black, 0);
    FlipSide(f.left, f.id, Id(b), above, true);
    FlipSide(f.left, Id(t), Id(a), f.sib.id, false);
    hide RotateUp, Record, Near, Far;
    RotateUpIs(mem, !f.left, f.id, f.sib.id, false, false, Id(b), Id(a), f.id, f.sib.black, f.sib.id, Id(t), above, f.black);
  }

  // ---------- case 2

  /** The sibling turns red; a red parent turns black. */
  function JoinMem(mem: Mem, f: int, s: int): Mem
    requires f in mem && s in mem
  {
    var m1 := SetParentColor(mem, s, f, false);
    m1[f := m1[f].(black := true)]
  }

  lemma {:induction false} JoinNext(mem: Mem, root: int, ctx: Ctx, t: Tree, h: nat)
    requires Erasing(mem, root, ctx, t, h) && ctx[0].sib.Node? && ctx[0].sib.black && Black(ctx[0].sib.l) && Black(ctx[0].sib.r)
    ensures var f, rest := ctx[0], ctx[1..]; var u := Joined(f, t);
            && f.id in mem && f.sib.id in mem && u.Node? && u.id == f.id
            && (f.black && rest != [] ==> Erasing(JoinMem(mem, f.id, f.sib.id), root, rest, u, h + 1))
            && (!f.black || rest == [] ==> Ended(JoinMem(mem, f.id, f.sib.id), root, Plug(rest, u), ctx, t))
            && Inorder(Plug(rest, u)) == Inorder(Plug(ctx, t))
  {
    var f, rest := ctx[0], ctx[1..];
    Sibling(mem, root, ctx, t, h);
    OneFrame(mem, root, ctx, t);
    SibParts(mem, f, t);
    JoinedBal(ctx, t, h);
    SamePlug1(ctx, t, Joined(f, t));
    JoinedId(f, t);
    hide Short, Bal, Fits, Whole, RepCtx, CtxProper, Ids, Proper, Inorder, Rep, Near, Far, Plug;
    JoinDone(mem, JoinMem(mem, f.id, f.sib.id), root, ctx, t);
    if rest == [] || !f.black {
      if rest == [] { NoFrames(h + 1); }
      EndedBy(JoinMem(mem, f.id, f.sib.id), root, ctx, t, Joined(f, t), h + 1);
    }
  }

  lemma JoinedId(f: Frame, t: Tree)
    ensures Joined(f, t).Node? && Joined(f, t).id == f.id
  {
  }

  lemma {:induction false} NoFrames(h: nat)
    ensures Fits([], h)
  {
  }

  // ---------- case 4

  function ShiftMem(mem: Mem, left: bool, f: int, s: int, b: int): Mem
    requires b in mem && CanRotate(SetParentColor(mem, b, s, true), !left, f, s)
  {
    RotateUp(SetParentColor(mem, b, s, true), !left, f, s, true, true)
  }

  lemma ShiftNext(mem: Mem, root: int, ctx: Ctx, t: Tree, h: nat)
    requires Erasing(mem, root, ctx, t, h) && ctx[0].sib.Node? && ctx[0].sib.black && !Black(Far(ctx[0].left, ctx[0].sib))
    ensures var f, rest := ctx[0], ctx[1..]; var b := Far(f.left, f.sib);
            && f.id in mem && b.id in mem && CanRotate(SetParentColor(mem, b.id, f.sib.id, true), !f.left, f.id, f.sib.id)
            && Ended(ShiftMem(mem, f.left, f.id, f.sib.id, b.id), NewRoot(mem, root, f.id, f.sib.id), Plug(rest, Shifted(f, t)), ctx, t)
  {
    var f, rest := ctx[0], ctx[1..];
    ShiftedBal(ctx, t, h);
    ShiftedSame(f, t);
    ShortSibling(ctx, t, h);
    OneFrame(mem, root, ctx, t);
    SibParts(mem, f, t);
    IdIn(t);
    MkColor(f.left, Mk(f.left, t, f.id, true, Near(f.left, f.sib)), f.sib.id, f.black, Blacken(Far(f.left, f.sib)));
    hide Short, Bal, Fits, Whole, RepCtx, CtxProper, Ids, Proper, Inorder, Rep, Near, Far, Plug;
    ShiftFacts(mem, root, f, rest, t);
    var mem' := ShiftMem(mem, f.left, f.id, f.sib.id, Far(f.left, f.sib).id);
    ShiftDone(mem, mem', root, NewRoot(mem, root, f.id, f.sib.id), ctx, t);
    EndedBy(mem', NewRoot(mem, root, f.id, f.sib.id), ctx, t, Shifted(f, t), if f.black then h + 2 else h + 1);
  }

  lemma MkColor(left: bool, near: Tree, id: int, black: bool, far: Tree)
    ensures Black(Mk(left, near, id, black, far)) <==> black
  {
  }

  lemma ShiftFacts(mem: Mem, root: int, f: Frame, rest: Ctx, t: Tree)
    requires f.sib.Node? && f.id in mem && f.sib.id in mem && f.id != 0 && f.sib.id != 0 && f.sib.id != f.id
    requires var a, b := Near(f.left, f.sib), Far(f.left, f.sib); var above := Above(rest);
             && mem[f.id] == Record(f.left, Id(t), f.sib.id, above, f.black)
             && mem[f.sib.id] == Record(f.left, Id(a), Id(b), f.id, f.sib.black)
             && (a.Node? ==> a.id in mem && a.id != 0) && Id(a) != f.id && Id(a) != f.sib.id && above != f.id && above != f.sib.id
             && (above != 0 ==> above in mem && above != Id(a)) && (above == 0 <==> rest == [])
             && b.Node? && b.id in mem && b.id != f.id && b.id != f.sib.id && b.id != Id(a) && b.id != above
    ensures var b := Far(f.left, f.sib); CanRotate(SetParentColor(mem, b.id, f.sib.id, true), !f.left, f.id, f.sib.id)
    ensures var a, b := Near(f.left, f.sib), Far(f.left, f.sib); var above := Above(rest);
            var mem' := ShiftMem(mem, f.left, f.id, f.sib.id, b.id);
            && ShiftsTo(mem, mem', f, t, above) && Elsewhere(mem, mem', {f.sib.id, f.id, Id(a), Id(b)}, above)
            && Relinked(mem, mem', root, NewRoot(mem, root, f.id, f.sib.id), rest, f.id, f.sib.id)
  {
    var a, b := Near(f.left, f.sib), Far(f.left, f.sib);
    var above := Above(rest);
    var m1 := SetParentColor(mem, b.id, f.sib.id, true);
    FlipSide(f.left, Id(t), f.sib.id, above, f.black);
    FlipSide(f.left, Id(a), Id(b), f.id, f.sib.black);
    KidRecord(!f.left, Id(b), Id(a), f.id, f.sib.black, 0);
    KidRecord(!f.left, f.sib.id, Id(t), above, f.black, 0);
    FlipSide(f.left, f.id, Id(b), above, f.black);
    FlipSide(f.left, Id(t), Id(a), f.sib.id, true);
    hide RotateUp, Record, Near, Far;
    RotateUpIs(m1, !f.left, f.id, f.sib.id, true, true, Id(b), Id(a), f.id, f.sib.black, f.sib.id, Id(t), above, f.black);
  }

  // ---------- cases 3 and 4

  /** Case 3: the near child l moves between the parent and the sibling. */
  function EraseTurn(mem: Mem, left: bool, f: int, s: int, l: int): Mem
    requires f in mem && s in mem && l in mem && (Kid(mem[l], !left) != 0 ==> Kid(mem[l], !left) in mem)
  {
    var tmp1 := Kid(mem[l], !left);
    var m1 := SetKid(mem, s, left, tmp1);
    var m2 := SetKid(m1, l, !left, s);
    var m3 := SetKid(m2, f, !left, l);
    if tmp1 != 0 then SetParentColor(m3, tmp1, s, true) else m3
  }

  lemma EraseTurnIs(mem: Mem, left: bool, f: int, s: int, l: int, t: int, above: int, fb: bool, r: int, sb: bool, a: int, b: int, lb: bool)
    requires f in mem && s in mem && l in mem && (b != 0 ==> b in mem)
    requires f != s && s != l && l != f && b != f && b != s && b != l
    requires mem[f] == Record(left, t, s, above, fb) && mem[s] == Record(left, l, r, f, sb) && mem[l] == Record(left, a, b, s, lb)
    ensures Kid(mem[l], !left) == b
    ensures var mem' := EraseTurn(mem, left, f, s, l);
            && f in mem' && s in mem' && l in mem'
            && mem'[f] == Record(left, t, l, above, fb) && mem'[s] == Record(left, b, r, f, sb) && mem'[l] == Record(left, a, s, s, lb)
            && (b != 0 ==> b in mem' && mem'[b] == mem[b].(parent := s, black := true))
            && forall x | x in mem && x != f && x != s && x != l && x != b :: x in mem' && mem'[x] == mem[x]
  {
    KidRecord(left, t, s, above, fb, l);
    KidRecord(left, l, r, f, sb, b);
    KidRecord(left, a, b, s, lb, s);
  }

  function TwiceShiftMem(mem: Mem, left: bool, f: int, s: int, l: int): Mem
    requires f in mem && s in mem && l in mem && (Kid(mem[l], !left) != 0 ==> Kid(mem[l], !left) in mem)
    requires s in EraseTurn(mem, left, f, s, l)
    requires CanRotate(SetParentColor(EraseTurn(mem, left, f, s, l), s, l, true), !left, f, l)
  {
    RotateUp(SetParentColor(EraseTurn(mem, left, f, s, l), s, l, true), !left, f, l, true, true)
  }

  /** The records and the distinctness the two steps of cases 3 and 4 rely on. */
  ghost predicate TwiceReady(mem: Mem, f: Frame, rest: Ctx, t: Tree)
    requires f.sib.Node? && Near(f.left, f.sib).Node?
  {
    var s := f.sib;
    var l, r := Near(f.left, s), Far(f.left, s);
    var a, b := Near(f.left, l), Far(f.left, l);
    var above := Above(rest);
    && f.id in mem && s.id in mem && l.id in mem && f.id != 0 && s.id != 0 && l.id != 0
    && mem[f.id] == Record(f.left, Id(t), s.id, above, f.black) && mem[s.id] == Record(f.left, l.id, Id(r), f.id, s.black)
    && mem[l.id] == Record(f.left, Id(a), Id(b), s.id, l.black)
    && f.id != s.id && s.id != l.id && l.id != f.id
    && (a.Node? ==> a.id in mem && a.id != 0) && (b.Node? ==> b.id in mem && b.id != 0)
    && Id(a) != f.id && Id(a) != s.id && Id(a) != l.id && Id(b) != f.id && Id(b) != s.id && Id(b) != l.id && (a.Node? ==> Id(a) != Id(b))
    && above != f.id && above != s.id && above != l.id && (above != 0 ==> above in mem && above != Id(a) && above != Id(b))
    && (above == 0 <==> rest == [])
  }

  lemma TwiceReadyNow(mem: Mem, root: int, ctx: Ctx, t: Tree)
    requires Whole(mem, root, ctx, t) && ctx != [] && ctx[0].sib.Node? && Near(ctx[0].left, ctx[0].sib).Node?
    ensures TwiceReady(mem, ctx[0], ctx[1..], t)
  {
    var f := ctx[0];
    var s := f.sib;
    var l := Near(f.left, s);
    var a, b := Near(f.left, l), Far(f.left, l);
    OneFrame(mem, root, ctx, t);
    SibParts(mem, f, t);
    NodePieces(mem, f.left, l, s.id);
    IdIn(a);
    IdIn(b);
    KidsIn(mem, l, s.id, f.left);
    hide Whole, RepCtx, CtxProper, Ids, Proper, Rep, Near, Far;
  }

  lemma TwiceShiftFacts(mem: Mem, root: int, f: Frame, rest: Ctx, t: Tree)
    requires f.sib.Node? && Near(f.left, f.sib).Node?
    requires TwiceReady(mem, f, rest, t)
    ensures var s := f.sib; var l := Near(f.left, s);
            && (Kid(mem[l.id], !f.left) != 0 ==> Kid(mem[l.id], !f.left) in mem) && s.id in EraseTurn(mem, f.left, f.id, s.id, l.id)
            && CanRotate(SetParentColor(EraseTurn(mem, f.left, f.id, s.id, l.id), s.id, l.id, true), !f.left, f.id, l.id)
            && EraseTurn(mem, f.left, f.id, s.id, l.id)[f.id].parent == mem[f.id].parent
    ensures var s := f.sib; var l := Near(f.left, s); var a, b := Near(f.left, l), Far(f.left, l); var above := Above(rest);
            var mem' := TwiceShiftMem(mem, f.left, f.id, s.id, l.id);
            && TwiceShiftsTo(mem, mem', f, t, above) && Elsewhere(mem, mem', {l.id, f.id, s.id, Id(a), Id(b)}, above)
            && Relinked(mem, mem', root, NewRoot(mem, root, f.id, l.id), rest, f.id, l.id)
  {
    var s := f.sib;
    var l, r := Near(f.left, s), Far(f.left, s);
    var a, b := Near(f.left, l), Far(f.left, l);
    KidRecord(f.left, Id(t), s.id, Above(rest), f.black, 0);
    hide RotateUp, Record, Near, Far, EraseTurn, Kid, CanRotate, ChangeChild, Elsewhere;
    TwiceShiftIs(mem, f.left, f.id, s.id, l.id, Id(t), Above(rest), f.black, Id(r), s.black, Id(a), Id(b), l.black);
  }

  /** Both steps in a row, node by node. */
  lemma TwiceShiftIs(mem: Mem, left: bool, f: int, s: int, l: int, t: int, above: int, fb: bool, r: int, sb: bool, a: int, b: int, lb: bool)
    requires f in mem && s in mem && l in mem && f != 0 && s != 0 && l != 0 && f != s && s != l && l != f
    requires mem[f] == Record(left, t, s, above, fb) && mem[s] == Record(left, l, r, f, sb) && mem[l] == Record(left, a, b, s, lb)
    requires (a != 0 ==> a in mem && a != b) && (b != 0 ==> b in mem)
    requires a != f && a != s && a != l && b != f && b != s && b != l && above != f && above != s && above != l
    requires above != 0 ==> above in mem && above != a && above != b
    ensures (Kid(mem[l], !left) != 0 ==> Kid(mem[l], !left) in mem) && s in EraseTurn(mem, left, f, s, l)
    ensures f in EraseTurn(mem, left, f, s, l) && EraseTurn(mem, left, f, s, l)[f].parent == mem[f].parent
    ensures CanRotate(SetParentColor(EraseTurn(mem, left, f, s, l), s, l, true), !left, f, l)
    ensures var mem' := TwiceShiftMem(mem, left, f, s, l);
            && f in mem' && s in mem' && l in mem'
            && mem'[l] == Record(left, f, s, above, fb) && mem'[f] == Record(left, t, a, l, true) && mem'[s] == Record(left, b, r, l, true)
            && (a != 0 ==> a in mem' && mem'[a] == mem[a].(parent := f))
            && (b != 0 ==> b in mem' && mem'[b] == mem[b].(parent := s, black := true))
            && (above != 0 ==> above in mem' && mem'[above] == ChangeChild(mem[above], f, l))
            && Elsewhere(mem, mem', {l, f, s, a, b}, above)
  {
    hide RotateUp, Record, EraseTurn, Kid, WithKid, ChangeChild;
    EraseTurnIs(mem, left, f, s, l, t, above, fb, r, sb, a, b, lb);
    var m1 := EraseTurn(mem, left, f, s, l);
    var m2 := SetParentColor(m1, s, l, true);
    KidRecord(left, t, s, above, fb, 0);
    KidRecord(left, t, l, above, fb, 0);
    RecordParent(left, b, r, f, sb, l);
    FlipSide(left, t, l, above, fb);
    FlipSide(left, a, s, s, lb);
    FlipSide(left, f, s, above, fb);
    FlipSide(left, t, a, l, true);
    KidRecord(!left, s, a, s, lb, 0);
    assert CanRotate(m2, !left, f, l);
    RotateUpIs(m2, !left, f, l, true, true, s, a, s, lb, l, t, above, fb);
  }

  lemma RecordParent(left: bool, near: int, far: int, p: int, black: bool, q: int)
    ensures Record(left, near, far, p, black).(parent := q, black := true) == Record(left, near, far, q, true)
  {
  }

  lemma TwiceShiftNext(mem: Mem, root: int, ctx: Ctx, t: Tree, h: nat)
    requires Erasing(mem, root, ctx, t, h) && ctx[0].sib.Node? && ctx[0].sib.black && !Black(Near(ctx[0].left, ctx[0].sib))
    ensures var f, rest := ctx[0], ctx[1..]; var s := f.sib; var l := Near(f.left, s);
            && f.id in mem && s.id in mem && l.id in mem
            && (Kid(mem[l.id], !f.left) != 0 ==> Kid(mem[l.id], !f.left) in mem) && s.id in EraseTurn(mem, f.left, f.id, s.id, l.id)
            && CanRotate(SetParentColor(EraseTurn(mem, f.left, f.id, s.id, l.id), s.id, l.id, true), !f.left, f.id, l.id)
            && Ended(TwiceShiftMem(mem, f.left, f.id, s.id, l.id), NewRoot(mem, root, f.id, l.id), Plug(rest, TwiceShifted(f, t)), ctx, t)
  {
    var f, rest := ctx[0], ctx[1..];
    var s := f.sib;
    var l, r := Near(f.left, s), Far(f.left, s);
    var a, b := Near(f.left, l), Far(f.left, l);
    TwiceShiftedBal(ctx, t, h);
    TwiceShiftedSame(f, t);
    ShortSibling(ctx, t, h);
    NearFarBal(f.left, s, h + 1);
    NearFarBal(f.left, l, h);
    TwiceReadyNow(mem, root, ctx, t);
    TwiceReadyIn(mem, f, rest, t);
    MkColor(f.left, Mk(f.left, t, f.id, true, a), l.id, f.black, Mk(f.left, b, s.id, true, r));
    hide Short, Bal, Fits, Whole, RepCtx, CtxProper, Ids, Proper, Inorder, Rep, Near, Far, Plug, TwiceReady;
    TwiceShiftFacts(mem, root, f, rest, t);
    var mem' := TwiceShiftMem(mem, f.left, f.id, s.id, l.id);
    TwiceShiftDone(mem, mem', root, NewRoot(mem, root, f.id, l.id), ctx, t);
    EndedBy(mem', NewRoot(mem, root, f.id, l.id), ctx, t, TwiceShifted(f, t), if f.black then h + 2 else h + 1);
  }

  lemma TwiceReadyIn(mem: Mem, f: Frame, rest: Ctx, t: Tree)
    requires f.sib.Node? && Near(f.left, f.sib).Node? && TwiceReady(mem, f, rest, t)
    ensures f.id in mem && f.sib.id in mem && Near(f.left, f.sib).id in mem
  {
  }

  lemma {:induction false} KidsIn(mem: Mem, t: Tree, p: int, left: bool)
    requires Rep(mem, t, p) && t.Node? && Proper(t)
    ensures var a, b := Near(left, t), Far(left, t);
            (a.Node? ==> a.id in mem && a.id != 0) && (b.Node? ==> b.id in mem && b.id != 0) && 0 !in Ids(t)
  {
    NullNot(t);
    IdIn(Near(left, t));
    IdIn(Far(left, t));
  }

  lemma RedParentSibling(mem: Mem, root: int, ctx: Ctx, t: Tree, h: nat)
    requires Erasing(mem, root, ctx, t, h) && ctx != [] && !ctx[0].black
    ensures ctx[0].sib.Node? && ctx[0].sib.black
  {
    ShortSibling(ctx, t, h);
  }

  lemma EraseTurnKeys(mem: Mem, left: bool, f: int, s: int, l: int)
    requires f in mem && s in mem && l in mem && (Kid(mem[l], !left) != 0 ==> Kid(mem[l], !left) in mem)
    ensures EraseTurn(mem, left, f, s, l).Keys == mem.Keys
  {
  }

  lemma KidsBlack(left: bool, t: Tree)
    requires t.Node? && Black(Near(left, t)) && Black(Far(left, t))
    ensures Black(t.l) && Black(t.r)
  {
  }

  lemma BlackAgain(mem: Mem, x: int)
    requires x in mem && mem[x].black
    ensures mem[x := mem[x].(black := true)] == mem
  {
  }

  lemma {:induction false} EndedSame(mem: Mem, root: int, r: Tree, ctx: Ctx, t: Tree, ctx0: Ctx, t0: Tree)
    requires Ended(mem, root, r, ctx, t) && Inorder(Plug(ctx, t)) == Inorder(Plug(ctx0, t0))
    ensures Ended(mem, root, r, ctx0, t0)
  {
  }
}
