/** A rotation as the sequence of writes the code makes. */
module RbRotate {
  import opened RbMemory
  import opened RbInsert

  function Kid(r: Rb, left: bool): int {
    if left then r.left else r.right
  }

  function WithKid(r: Rb, left: bool, v: int): Rb {
    if left then r.(left := v) else r.(right := v)
  }

  lemma KidRecord(left: bool, near: int, far: int, parent: int, black: bool, v: int)
    ensures var r := Record(left, near, far, parent, black);
            && Kid(r, left) == near && Kid(r, !left) == far && r.parent == parent && r.black == black
            && WithKid(r, left, v) == Record(left, v, far, parent, black)
            && WithKid(r, !left, v) == Record(left, near, v, parent, black)
  {
  }

  function SetKid(mem: Mem, x: int, left: bool, v: int): Mem
    requires x in mem
  {
    mem[x := WithKid(mem[x], left, v)]
  }

  function SetParentColor(mem: Mem, x: int, p: int, black: bool): Mem
    requires x in mem
  {
    mem[x := mem[x].(parent := p, black := black)]
  }

  /** What a rotation reads exists: the two nodes, the subtree that changes sides, the node above. */
  predicate CanRotate(mem: Mem, left: bool, g: int, p: int) {
    && g in mem && p in mem && g != p
    && (Kid(mem[p], !left) != 0 ==> Kid(mem[p], !left) in mem)
    && (mem[g].parent != 0 ==> mem[g].parent in mem)
  }

  /** p, on the left (or right) of g, takes g's place, parent and colour; g gets the given colour; the
      subtree that changes sides turns black or keeps its colour. */
  function RotateUp(mem: Mem, left: bool, g: int, p: int, color: bool, keep: bool): Mem
    requires CanRotate(mem, left, g, p)
  {
    var tmp := Kid(mem[p], !left);
    var m1 := SetKid(mem, g, left, tmp);
    var m2 := SetKid(m1, p, !left, g);
    var m3 := if tmp != 0 then SetParentColor(m2, tmp, g, if keep then m2[tmp].black else true) else m2;
    var parent := m3[g].parent;
    var m4 := SetParentColor(m3, p, parent, m3[g].black);
    var m5 := SetParentColor(m4, g, p, color);
    if parent != 0 && parent in m5 then m5[parent := ChangeChild(m5[parent], g, p)] else m5
  }

  /** The outcome, node by node. */
  lemma RotateUpIs(mem: Mem, left: bool, g: int, p: int, color: bool, keep: bool,
                   pn: int, s: int, pp: int, pb: bool, gn: int, gs: int, above: int, gb: bool)
    requires CanRotate(mem, left, g, p)
    requires mem[p] == Record(left, pn, s, pp, pb) && mem[g] == Record(left, gn, gs, above, gb)
    requires g != 0 && p != 0 && s != g && s != p && above != g && above != p && (above != 0 ==> above != s)
    ensures var mem' := RotateUp(mem, left, g, p, color, keep);
            && p in mem' && g in mem'
            && mem'[p] == Record(left, pn, g, above, gb) && mem'[g] == Record(left, s, gs, p, color)
            && (s != 0 ==> s in mem && s in mem' && mem'[s] == mem[s].(parent := g, black := if keep then mem[s].black else true))
            && (above != 0 ==> above in mem && above in mem' && mem'[above] == ChangeChild(mem[above], g, p))
            && Elsewhere(mem, mem', {p, g, s}, above)
  {
    KidRecord(left, pn, s, pp, pb, g);
    KidRecord(left, gn, gs, above, gb, s);
  }

  /** Case 2 of insertion: n, on the far side of p, becomes p's parent; n's own links above come later. */
  function Turn(mem: Mem, left: bool, p: int, n: int): Mem
    requires p in mem && n in mem && (Kid(mem[n], left) != 0 ==> Kid(mem[n], left) in mem)
  {
    var tmp := Kid(mem[n], left);
    var m1 := SetKid(mem, p, !left, tmp);
    var m2 := SetKid(m1, n, left, p);
    var m3 := if tmp != 0 then SetParentColor(m2, tmp, p, true) else m2;
    SetParentColor(m3, p, n, false)
  }

  lemma TurnIs(mem: Mem, left: bool, p: int, n: int, ps: int, g: int, pb: bool, a: int, b: int, nb: bool)
    requires p in mem && n in mem && p != n && (a != 0 ==> a in mem) && a != p && a != n
    requires mem[p] == Record(left, ps, n, g, pb) && mem[n] == Record(left, a, b, p, nb)
    ensures Kid(mem[n], left) == a
    ensures var mem' := Turn(mem, left, p, n);
            && p in mem' && n in mem'
            && mem'[p] == Record(left, ps, a, n, false) && mem'[n] == Record(left, p, b, p, nb)
            && (a != 0 ==> a in mem' && mem'[a] == mem[a].(parent := p, black := true))
            && forall x | x in mem && x != p && x != n && x != a :: x in mem' && mem'[x] == mem[x]
  {
    KidRecord(left, ps, n, g, pb, a);
    KidRecord(left, a, b, p, nb, p);
  }

  /** Cases 2 and 3 in a row. */
  lemma TurnRotateIs(mem: Mem, left: bool, g: int, p: int, n: int, ps: int, pb: bool, a: int, b: int, nb: bool, gs: int, above: int, gb: bool)
    requires p in mem && n in mem && g in mem && (a != 0 ==> a in mem) && (b != 0 ==> b in mem) && (above != 0 ==> above in mem)
    requires mem[p] == Record(left, ps, n, g, pb) && mem[n] == Record(left, a, b, p, nb) && mem[g] == Record(left, p, gs, above, gb)
    requires p != n && n != g && g != p && a != p && a != n && a != g && b != p && b != n && b != g && (a != 0 ==> a != b)
    requires above != p && above != n && above != g && (above != 0 ==> above != a && above != b) && g != 0 && n != 0 && p != 0
    ensures Kid(mem[n], left) == a && CanRotate(Turn(mem, left, p, n), left, g, n)
    ensures var mem' := RotateUp(Turn(mem, left, p, n), left, g, n, false, false);
            && p in mem' && n in mem' && g in mem'
            && mem'[n] == Record(left, p, g, above, gb) && mem'[p] == Record(left, ps, a, n, false) && mem'[g] == Record(left, b, gs, n, false)
            && (a != 0 ==> a in mem' && mem'[a] == mem[a].(parent := p, black := true))
            && (b != 0 ==> b in mem' && mem'[b] == mem[b].(parent := g, black := true))
            && (above != 0 ==> above in mem' && mem'[above] == ChangeChild(mem[above], g, n))
            && Elsewhere(mem, mem', {p, g, n, a, b}, above)
  {
    hide Turn, RotateUp, Record, Kid, WithKid, ChangeChild;
    TurnIs(mem, left, p, n, ps, g, pb, a, b, nb);
    var m1 := Turn(mem, left, p, n);
    KidRecord(left, p, b, p, nb, 0);
    KidRecord(left, p, gs, above, gb, 0);
    assert CanRotate(m1, left, g, n);
    RotateUpIs(m1, left, g, n, false, false, p, b, p, nb, p, gs, above, gb);
  }
}
