/** Why unifdef's output means the same as its input. The open groups of the
    input, the machine's stack and the open groups of the output are tied together
    level by level; every step keeps the tie. */
module UnifdefPreservation {
  import opened Preprocessor
  import opened UnifdefMachine

  /** States whose group is also open in the output. */
  predicate Opened(s: Ifstate) {
    s.PassMiddle? || s.FalseMiddle? || s.TrueMiddle? || s.PassElse?
  }

  /** States only reached inside text that is being printed. */
  predicate NeedsPrinting(s: Ifstate) {
    !s.Outside? && !s.FalseElse? && !s.FalseTrailer?
  }

  /** A level whose directives have all been dropped so far (or closed early). */
  predicate HiddenLevel(s: Ifstate, f: Frame) {
    match s
    case FalsePrefix => !f.taken && !f.live && !f.inElse
    case TruePrefix => f.taken && f.live == f.enclosing && !f.inElse
    case TrueElse => f.live == f.enclosing && f.inElse
    case FalseElse => !f.live && f.inElse
    case FalseTrailer => !f.live && !f.inElse && (f.taken || !f.enclosing)
    case _ => false
  }

  /** A level that is open in the output too, as frame g. */
  predicate SharedLevel(s: Ifstate, f: Frame, g: Frame) {
    match s
    case PassMiddle => f == g && !f.inElse
    case FalseMiddle => f.taken == g.taken && !f.live && !f.inElse && !g.inElse
    case TrueMiddle => f.taken && f.live == g.live && !f.inElse && g.inElse
    case PassElse => f.live == g.live && f.inElse && g.inElse
    case _ => false
  }

  ghost predicate Tied(ss: seq<Ifstate>, fi: seq<Frame>, fo: seq<Frame>)
    decreases |ss|
  {
    ss != [] && |fi| == |ss| - 1 &&
    if |ss| == 1 then ss[0] == Outside && fo == []
    else
      var s, f := Last(ss), Last(fi);
      f.enclosing == Live(Front(fi)) &&
      (NeedsPrinting(s) ==> Printing(Last(Front(ss)))) &&
      if Opened(s) then
        fo != [] && Tied(Front(ss), Front(fi), Front(fo)) &&
        Last(fo).enclosing == Live(Front(fo)) && SharedLevel(s, f, Last(fo))
      else
        Tied(Front(ss), Front(fi), fo) && HiddenLevel(s, f)
  }

  /** Where the machine prints, input and output agree on what is kept; where it
      drops, the input is skipped anyway. */
  lemma {:induction false} TiedLive(ss: seq<Ifstate>, fi: seq<Frame>, fo: seq<Frame>)
    requires Tied(ss, fi, fo)
    ensures Printing(Last(ss)) ==> Live(fi) == Live(fo)
    ensures !Printing(Last(ss)) ==> !Live(fi)
    decreases |ss|
  {
    if |ss| > 1 {
      TiedLive(Front(ss), Front(fi), if Opened(Last(ss)) then Front(fo) else fo);
    }
  }

  function Stack(m: Machine): seq<Ifstate>
    requires Valid(m)
  {
    m.ifstate[..m.depth + 1]
  }

  ghost predicate Related(m: Machine, i: Selection, o: Selection) {
    Valid(m) && Tied(Stack(m), i.frames, o.frames) && i.kept == o.kept
  }

  lemma StackTop(m: Machine)
    requires Valid(m)
    ensures Last(Stack(m)) == m.ifstate[m.depth]
    ensures m.depth > 0 ==> Front(Stack(m)) == m.ifstate[..m.depth]
  {
  }

  /** What the two sides must satisfy after one line: the step ran on, the
      reference accepts the input line, and accepts whatever was printed. */
  ghost predicate StepKept(m: Machine, p: Progress, i: Selection, o: Selection, l: Line, truth: Cond -> bool)
    requires p.Running?
  {
    var i' := Advance(i, l, truth);
    i'.Some? && m.output <= p.m.output && |p.m.output| <= |m.output| + 1 &&
    if p.m.output == m.output then Related(p.m, i'.value, o)
    else
      var o' := Advance(o, Last(p.m.output), truth);
      o'.Some? && Related(p.m, i'.value, o'.value)
  }

  lemma FirstKept(m: Machine, x: Input, keep: bool, s: Ifstate, i: Selection, o: Selection, truth: Cond -> bool)
    requires Related(m, i, o)
    requires x.line.IfLine? && m.depth < MAXDEPTH - 1
    requires s.FalseTrailer? || s.PassMiddle? || s.TruePrefix? || s.FalsePrefix?
    requires keep == s.PassMiddle?
    requires s.FalseTrailer? == !Printing(m.ifstate[m.depth])
    requires s.TruePrefix? ==> truth(x.line.c)
    requires s.FalsePrefix? ==> !truth(x.line.c)
    ensures StepKept(m, First(m, x.line, keep, s), i, o, x.line, truth)
  {
    var p := First(m, x.line, keep, s);
    var ss := Stack(m);
    var ss' := Stack(p.m);
    TiedLive(ss, i.frames, o.frames);
    assert ss' == ss + [s];
    assert Front(ss') == ss;
    var i' := Advance(i, x.line, truth).value;
    assert Front(i'.frames) == i.frames;
    if keep {
      var o' := Advance(o, x.line, truth).value;
      assert Front(o'.frames) == o.frames;
    }
  }

  /** State functions that stay on their level. */
  predicate Middle(a: Action) {
    a.Strue? || a.Sfalse? || a.Selse? || a.Pelif? || a.Pelse? || a.Dfalse? || a.Delif? || a.Delse?
    || a.Oelif? || a.Mpass? || a.Mtrue? || a.Melif? || a.Melse?
  }

  function NewState(a: Action): Ifstate
    requires Middle(a)
  {
    match a
    case Strue => TruePrefix
    case Sfalse => FalsePrefix
    case Selse => TrueElse
    case Pelse => PassElse
    case Dfalse => FalseTrailer
    case Delif => FalseMiddle
    case Delse => FalseElse
    case Mtrue => TrueMiddle
    case Melif => FalseTrailer
    case Melse => FalseElse
    case _ => PassMiddle
  }

  function Printed(a: Action, l: Line): seq<Line>
    requires Middle(a)
  {
    match a
    case Pelif => [l]
    case Pelse => [l]
    case Oelif => [l]
    case Mpass => [AsIf(l)]
    case Mtrue => [ElseLine]
    case Melif => [EndifLine]
    case Melse => [EndifLine]
    case _ => []
  }

  lemma MiddleSummary(a: Action, m: Machine, l: Line, iocccok: bool)
    requires Valid(m) && Middle(a) && m.depth > 0
    requires Perform(a, m, l, iocccok).Running?
    ensures var n := Perform(a, m, l, iocccok).m;
            && n.depth == m.depth
            && Stack(n) == Front(Stack(m)) + [NewState(a)]
            && n.output == m.output + Printed(a, l)
  {
  }

  /** One level under an #elif or #else line, when the group is not open in the output. */
  ghost predicate HiddenOutcome(s: Ifstate, f: Frame, s': Ifstate, printed: seq<Line>, l: Line, truth: Cond -> bool)
    requires l.ElifLine? || l.ElseLine?
  {
    var f' := NextBranch(f, l, truth);
    !f.inElse && (NeedsPrinting(s') ==> NeedsPrinting(s)) &&
    if Opened(s') then
      l.ElifLine? && printed == [IfLine(l.c)] &&
      SharedLevel(s', f', Frame(f.enclosing, truth(l.c), f.enclosing && truth(l.c), false))
    else printed == [] && HiddenLevel(s', f')
  }

  lemma HiddenMiddle(s: Ifstate, f: Frame, x: Input, truth: Cond -> bool)
    requires Classified(x) && Respects(x, truth) && (x.line.ElifLine? || x.line.ElseLine?)
    requires HiddenLevel(s, f) && Middle(Transition(s, x.lt))
    ensures var a := Transition(s, x.lt); HiddenOutcome(s, f, NewState(a), Printed(a, x.line), x.line, truth)
  {
  }

  /** The same when the output has the group open as g. */
  ghost predicate SharedOutcome(f: Frame, g: Frame, s': Ifstate, printed: seq<Line>, l: Line, truth: Cond -> bool)
    requires l.ElifLine? || l.ElseLine?
  {
    var f' := NextBranch(f, l, truth);
    !f.inElse &&
    if !Opened(s') then printed == [EndifLine] && HiddenLevel(s', f')
    else if printed == [] then SharedLevel(s', f', g)
    else |printed| == 1 && (printed[0].ElifLine? || printed[0].ElseLine?) && !g.inElse &&
         SharedLevel(s', f', NextBranch(g, printed[0], truth))
  }

  lemma SharedMiddle(s: Ifstate, f: Frame, g: Frame, x: Input, truth: Cond -> bool)
    requires Classified(x) && Respects(x, truth) && (x.line.ElifLine? || x.line.ElseLine?)
    requires SharedLevel(s, f, g) && f.enclosing == g.enclosing && Middle(Transition(s, x.lt))
    ensures var a := Transition(s, x.lt);
            SharedOutcome(f, g, NewState(a), Printed(a, x.line), x.line, truth)
  {
  }

  /** The stack and the output after a middle action, with the reference run on both sides. */
  ghost predicate MiddleTied(ss: seq<Ifstate>, i: Selection, o: Selection, s': Ifstate, printed: seq<Line>, l: Line, truth: Cond -> bool)
    requires ss != []
  {
    var i' := Advance(i, l, truth);
    i'.Some? && i'.value.kept == i.kept &&
    if printed == [] then Tied(Front(ss) + [s'], i'.value.frames, o.frames)
    else
      |printed| == 1 &&
      var o' := Advance(o, printed[0], truth);
      o'.Some? && o'.value.kept == o.kept && Tied(Front(ss) + [s'], i'.value.frames, o'.value.frames)
  }

  lemma {:induction false} TiedPush(ss: seq<Ifstate>, fi: seq<Frame>, fo: seq<Frame>, s: Ifstate, f: Frame)
    requires Tied(ss, fi, fo) && !Opened(s) && HiddenLevel(s, f)
    requires f.enclosing == Live(fi) && (NeedsPrinting(s) ==> Printing(Last(ss)))
    ensures Tied(ss + [s], fi + [f], fo)
  {
    hide SharedLevel, HiddenLevel, Live, NeedsPrinting, Printing, Opened;
    assert Front(ss + [s]) == ss && Front(fi + [f]) == fi;
  }

  lemma {:induction false} TiedPushShared(ss: seq<Ifstate>, fi: seq<Frame>, fo: seq<Frame>, s: Ifstate, f: Frame, g: Frame)
    requires Tied(ss, fi, fo) && Opened(s) && SharedLevel(s, f, g)
    requires f.enclosing == Live(fi) && g.enclosing == Live(fo) && Printing(Last(ss))
    ensures Tied(ss + [s], fi + [f], fo + [g])
  {
    hide SharedLevel, HiddenLevel, Live, NeedsPrinting, Printing, Opened;
    assert Front(ss + [s]) == ss && Front(fi + [f]) == fi && Front(fo + [g]) == fo;
  }

  /** The innermost level popped off all three stacks. */
  lemma {:induction false} TiedPop(ss: seq<Ifstate>, fi: seq<Frame>, fo: seq<Frame>)
    requires Tied(ss, fi, fo) && |ss| > 1 && Opened(Last(ss))
    ensures fi != [] && fo != [] && Tied(Front(ss), Front(fi), Front(fo))
    ensures Last(fi).enclosing == Live(Front(fi)) && Last(fo).enclosing == Live(Front(fo))
    ensures Printing(Last(Front(ss)))
  {
  }

  /** What the tie says about the innermost level. */
  lemma {:induction false} TiedTop(ss: seq<Ifstate>, fi: seq<Frame>, fo: seq<Frame>)
    requires Tied(ss, fi, fo) && |ss| > 1
    ensures fi != [] && Last(fi).enclosing == Live(Front(fi)) && (NeedsPrinting(Last(ss)) ==> Printing(Last(Front(ss))))
    ensures !Opened(Last(ss)) ==> Tied(Front(ss), Front(fi), fo) && HiddenLevel(Last(ss), Last(fi))
    ensures Opened(Last(ss)) ==> fo != [] && SharedLevel(Last(ss), Last(fi), Last(fo))
  {
  }

  lemma MiddleRewritten(ss: seq<Ifstate>, i: Selection, o: Selection, s': Ifstate, printed: seq<Line>, l: Line, truth: Cond -> bool)
    requires Opened(s') && printed != []
    requires ss != [] && Front(ss) != [] && i.frames != [] && o.frames != []
    requires Tied(Front(ss), Front(i.frames), Front(o.frames)) && Printing(Last(Front(ss)))
    requires Last(i.frames).enclosing == Live(Front(i.frames)) && Last(o.frames).enclosing == Live(Front(o.frames))
    requires l.ElifLine? || l.ElseLine?
    requires SharedOutcome(Last(i.frames), Last(o.frames), s', printed, l, truth)
    ensures MiddleTied(ss, i, o, s', printed, l, truth)
  {
    var g', f' := NextBranch(Last(o.frames), printed[0], truth), NextBranch(Last(i.frames), l, truth);
    TiedPushShared(Front(ss), Front(i.frames), Front(o.frames), s', f', g');
  }

  lemma MiddleDropped(ss: seq<Ifstate>, i: Selection, o: Selection, s': Ifstate, printed: seq<Line>, l: Line, truth: Cond -> bool)
    requires Opened(s') && printed == []
    requires ss != [] && Front(ss) != [] && i.frames != [] && o.frames != []
    requires Tied(Front(ss), Front(i.frames), Front(o.frames)) && Printing(Last(Front(ss)))
    requires Last(i.frames).enclosing == Live(Front(i.frames)) && Last(o.frames).enclosing == Live(Front(o.frames))
    requires l.ElifLine? || l.ElseLine?
    requires SharedOutcome(Last(i.frames), Last(o.frames), s', printed, l, truth)
    ensures MiddleTied(ss, i, o, s', printed, l, truth)
  {
    var g, f' := Last(o.frames), NextBranch(Last(i.frames), l, truth);
    TiedPushShared(Front(ss), Front(i.frames), Front(o.frames), s', f', g);
    assert Front(o.frames) + [g] == o.frames;
  }

  lemma MiddleClosed(ss: seq<Ifstate>, i: Selection, o: Selection, s': Ifstate, printed: seq<Line>, l: Line, truth: Cond -> bool)
    requires !Opened(s')
    requires ss != [] && Front(ss) != [] && i.frames != [] && o.frames != []
    requires Tied(Front(ss), Front(i.frames), Front(o.frames)) && Printing(Last(Front(ss)))
    requires Last(i.frames).enclosing == Live(Front(i.frames)) && Last(o.frames).enclosing == Live(Front(o.frames))
    requires l.ElifLine? || l.ElseLine?
    requires SharedOutcome(Last(i.frames), Last(o.frames), s', printed, l, truth)
    ensures MiddleTied(ss, i, o, s', printed, l, truth)
  {
    TiedPush(Front(ss), Front(i.frames), Front(o.frames), s', NextBranch(Last(i.frames), l, truth));
  }

  lemma {:induction false} MiddleHidden(ss: seq<Ifstate>, i: Selection, o: Selection, s': Ifstate, printed: seq<Line>, l: Line, truth: Cond -> bool)
    requires Tied(ss, i.frames, o.frames) && |ss| > 1 && !Opened(Last(ss))
    requires l.ElifLine? || l.ElseLine?
    requires HiddenOutcome(Last(ss), Last(i.frames), s', printed, l, truth)
    ensures MiddleTied(ss, i, o, s', printed, l, truth)
  {
    hide Tied, HiddenLevel, SharedLevel, HiddenOutcome, MiddleTied;
    TiedTop(ss, i.frames, o.frames);
    TiedLive(Front(ss), Front(i.frames), o.frames);
    if Opened(s') {
      HiddenOpens(ss, i, o, s', printed, l, truth);
    } else {
      HiddenStays(ss, i, o, s', printed, l, truth);
    }
  }

  lemma HiddenOpens(ss: seq<Ifstate>, i: Selection, o: Selection, s': Ifstate, printed: seq<Line>, l: Line, truth: Cond -> bool)
    requires |ss| > 1 && i.frames != [] && Opened(s') && (l.ElifLine? || l.ElseLine?)
    requires Tied(Front(ss), Front(i.frames), o.frames) && Last(i.frames).enclosing == Live(Front(i.frames))
    requires NeedsPrinting(Last(ss)) ==> Printing(Last(Front(ss)))
    requires Printing(Last(Front(ss))) ==> Live(Front(i.frames)) == Live(o.frames)
    requires HiddenOutcome(Last(ss), Last(i.frames), s', printed, l, truth)
    ensures MiddleTied(ss, i, o, s', printed, l, truth)
  {
    hide Tied, HiddenLevel, SharedLevel;
    var f := Last(i.frames);
    TiedPushShared(Front(ss), Front(i.frames), o.frames, s', NextBranch(f, l, truth), Frame(f.enclosing, truth(l.c), f.enclosing && truth(l.c), false));
  }

  lemma HiddenStays(ss: seq<Ifstate>, i: Selection, o: Selection, s': Ifstate, printed: seq<Line>, l: Line, truth: Cond -> bool)
    requires |ss| > 1 && i.frames != [] && !Opened(s') && (l.ElifLine? || l.ElseLine?)
    requires Tied(Front(ss), Front(i.frames), o.frames) && Last(i.frames).enclosing == Live(Front(i.frames))
    requires NeedsPrinting(Last(ss)) ==> Printing(Last(Front(ss)))
    requires Printing(Last(Front(ss))) ==> Live(Front(i.frames)) == Live(o.frames)
    requires HiddenOutcome(Last(ss), Last(i.frames), s', printed, l, truth)
    ensures MiddleTied(ss, i, o, s', printed, l, truth)
  {
    hide Tied, HiddenLevel, SharedLevel;
    TiedPush(Front(ss), Front(i.frames), o.frames, s', NextBranch(Last(i.frames), l, truth));
  }

  lemma MiddleActions(m: Machine, x: Input, iocccok: bool)
    requires Valid(m) && Classified(x) && (x.line.ElifLine? || x.line.ElseLine?)
    requires m.depth == 0 ==> m.ifstate[0] == Outside
    requires Step(m, x, iocccok).Running?
    ensures m.depth > 0 && Middle(Transition(m.ifstate[m.depth], x.lt))
  {
  }

  lemma MiddleKept(m: Machine, x: Input, iocccok: bool, i: Selection, o: Selection, truth: Cond -> bool)
    requires Related(m, i, o) && Classified(x) && Respects(x, truth)
    requires x.line.ElifLine? || x.line.ElseLine?
    requires Step(m, x, iocccok).Running?
    ensures StepKept(m, Step(m, x, iocccok), i, o, x.line, truth)
  {
    StackTop(m);
    MiddleActions(m, x, iocccok);
    TiedTop(Stack(m), i.frames, o.frames);
    hide Tied, HiddenLevel, SharedLevel, Transition, Perform, HiddenOutcome, SharedOutcome, Printed, NewState, Classified, Respects;
    var a := Transition(m.ifstate[m.depth], x.lt);
    MiddleSummary(a, m, x.line, iocccok);
    MiddleTie(m, x, i, o, truth);
    MiddleStep(m, x, iocccok, i, o, truth);
  }

  /** The tie after the action of an #elif or #else line. */
  lemma MiddleTie(m: Machine, x: Input, i: Selection, o: Selection, truth: Cond -> bool)
    requires Related(m, i, o) && Classified(x) && Respects(x, truth) && m.depth > 0
    requires (x.line.ElifLine? || x.line.ElseLine?) && Middle(Transition(m.ifstate[m.depth], x.lt))
    ensures var a := Transition(m.ifstate[m.depth], x.lt);
            MiddleTied(Stack(m), i, o, NewState(a), Printed(a, x.line), x.line, truth)
  {
    StackTop(m);
    TiedTop(Stack(m), i.frames, o.frames);
    hide Tied, HiddenLevel, SharedLevel, Transition, HiddenOutcome, SharedOutcome, Printed, NewState, Classified, Respects, MiddleTied;
    var s := m.ifstate[m.depth];
    var a := Transition(s, x.lt);
    if Opened(s) {
      TiedPop(Stack(m), i.frames, o.frames);
      TiedLive(Front(Stack(m)), Front(i.frames), Front(o.frames));
      SharedMiddle(s, Last(i.frames), Last(o.frames), x, truth);
      if !Opened(NewState(a)) {
        MiddleClosed(Stack(m), i, o, NewState(a), Printed(a, x.line), x.line, truth);
      } else if Printed(a, x.line) == [] {
        MiddleDropped(Stack(m), i, o, NewState(a), Printed(a, x.line), x.line, truth);
      } else {
        MiddleRewritten(Stack(m), i, o, NewState(a), Printed(a, x.line), x.line, truth);
      }
    } else {
      HiddenMiddle(s, Last(i.frames), x, truth);
      MiddleHidden(Stack(m), i, o, NewState(a), Printed(a, x.line), x.line, truth);
    }
  }

  lemma MiddleStep(m: Machine, x: Input, iocccok: bool, i: Selection, o: Selection, truth: Cond -> bool)
    requires Related(m, i, o) && m.depth > 0 && Step(m, x, iocccok).Running?
    requires Middle(Transition(m.ifstate[m.depth], x.lt))
    requires var a := Transition(m.ifstate[m.depth], x.lt); var n := Step(m, x, iocccok).m;
             && Valid(n) && Stack(n) == Front(Stack(m)) + [NewState(a)] && n.output == m.output + Printed(a, x.line)
             && MiddleTied(Stack(m), i, o, NewState(a), Printed(a, x.line), x.line, truth)
    ensures StepKept(m, Step(m, x, iocccok), i, o, x.line, truth)
  {
    hide Tied, Transition, Step, Printed, NewState, Advance, Stack;
  }

  lemma EndifKept(m: Machine, x: Input, iocccok: bool, i: Selection, o: Selection, truth: Cond -> bool)
    requires Related(m, i, o) && Classified(x) && Respects(x, truth)
    requires x.line.EndifLine? && Step(m, x, iocccok).Running?
    ensures StepKept(m, Step(m, x, iocccok), i, o, x.line, truth)
  {
    hide Tied, Transition, HiddenLevel, SharedLevel, Classified;
    EndifInside(m, x, iocccok, i, o);
    StackTop(m);
    EndifActions(m.ifstate[m.depth], x);
    TiedTop(Stack(m), i.frames, o.frames);
    if Opened(m.ifstate[m.depth]) {
      TiedPop(Stack(m), i.frames, o.frames);
    }
    var p := Step(m, x, iocccok);
    assert Stack(p.m) == Front(Stack(m));
  }

  lemma EndifInside(m: Machine, x: Input, iocccok: bool, i: Selection, o: Selection)
    requires Related(m, i, o) && Classified(x) && x.line.EndifLine? && Step(m, x, iocccok).Running?
    ensures m.depth > 0
  {
    EndifActions(m.ifstate[m.depth], x);
    StackTop(m);
    hide Transition;
  }

  lemma EndifActions(s: Ifstate, x: Input)
    requires Classified(x) && x.line.EndifLine?
    ensures var a := Transition(s, x.lt); a.Pendif? || a.Dendif? || a.Eendif? || a.Eioccc?
    ensures Transition(s, x.lt).Pendif? ==> Opened(s)
    ensures Transition(s, x.lt).Dendif? ==> !Opened(s) && !s.Outside?
  {
  }

  /** State functions that open a level, and the state it starts in. */
  predicate Opening(a: Action) {
    a.Fdrop? || a.Fpass? || a.Ftrue? || a.Ffalse? || a.Oiffy? || a.Oif? || a.Idrop? || a.Itrue? || a.Ifalse?
  }

  function OpensAs(a: Action): Ifstate
    requires Opening(a)
  {
    match a
    case Fdrop => FalseTrailer
    case Idrop => FalseTrailer
    case Ftrue => TruePrefix
    case Itrue => TruePrefix
    case Ffalse => FalsePrefix
    case Ifalse => FalsePrefix
    case _ => PassMiddle
  }

  lemma OpeningSummary(a: Action, m: Machine, l: Line, iocccok: bool)
    requires Valid(m) && Opening(a) && Perform(a, m, l, iocccok).Running?
    ensures m.depth < MAXDEPTH - 1
    ensures var n := Perform(a, m, l, iocccok).m;
            var k := First(m, l, OpensAs(a).PassMiddle?, OpensAs(a)).m;
            n.ifstate == k.ifstate && n.depth == k.depth && n.output == k.output
  {
  }

  lemma OpeningTable(s: Ifstate, x: Input)
    requires Classified(x) && x.line.IfLine?
    ensures Opening(Transition(s, x.lt))
    ensures var s' := OpensAs(Transition(s, x.lt));
            && s'.FalseTrailer? == !Printing(s)
            && (s'.TruePrefix? ==> x.lt.kind.True? || x.lt.kind.TrueI?)
            && (s'.FalsePrefix? ==> x.lt.kind.False? || x.lt.kind.FalseI?)
  {
  }

  /** Every step that does not stop keeps the tie. */
  lemma StepKeeps(m: Machine, x: Input, iocccok: bool, i: Selection, o: Selection, truth: Cond -> bool)
    requires Related(m, i, o) && Classified(x) && Respects(x, truth)
    requires Step(m, x, iocccok).Running?
    ensures StepKept(m, Step(m, x, iocccok), i, o, x.line, truth)
  {
    hide Related, StepKept, Step, Classified, Respects;
    match x.line
    case TextLine(t) => TextKept(m, x, iocccok, i, o, truth);
    case IfLine(c) => IfKept(m, x, iocccok, i, o, truth);
    case ElifLine(c) => MiddleKept(m, x, iocccok, i, o, truth);
    case ElseLine => MiddleKept(m, x, iocccok, i, o, truth);
    case EndifLine => EndifKept(m, x, iocccok, i, o, truth);
  }

  lemma TextKept(m: Machine, x: Input, iocccok: bool, i: Selection, o: Selection, truth: Cond -> bool)
    requires Related(m, i, o) && Classified(x) && x.line.TextLine? && Step(m, x, iocccok).Running?
    ensures StepKept(m, Step(m, x, iocccok), i, o, x.line, truth)
  {
    StackTop(m);
    TiedLive(Stack(m), i.frames, o.frames);
    hide Tied;
  }

  lemma IfKept(m: Machine, x: Input, iocccok: bool, i: Selection, o: Selection, truth: Cond -> bool)
    requires Related(m, i, o) && Classified(x) && Respects(x, truth) && x.line.IfLine? && Step(m, x, iocccok).Running?
    ensures StepKept(m, Step(m, x, iocccok), i, o, x.line, truth)
  {
    hide Tied, Transition, Perform, Step, First, Printing, Stack;
    var s := OpenStep(m, x, iocccok, truth);
    RelatedValid(m, i, o);
    var n, k := Step(m, x, iocccok).m, First(m, x.line, s.PassMiddle?, s).m;
    FirstKept(m, x, s.PassMiddle?, s, i, o, truth);
    SameStack(n, k);
  }

  lemma RelatedValid(m: Machine, i: Selection, o: Selection)
    requires Related(m, i, o)
    ensures Valid(m)
  {
  }

  lemma SameStack(n: Machine, k: Machine)
    requires Valid(n) && Valid(k) && n.ifstate == k.ifstate && n.depth == k.depth
    ensures Stack(n) == Stack(k)
  {
  }

  /** What an #if does to everything but the ignore stack. */
  lemma OpenStep(m: Machine, x: Input, iocccok: bool, truth: Cond -> bool) returns (s: Ifstate)
    requires Valid(m) && Classified(x) && Respects(x, truth) && x.line.IfLine? && Step(m, x, iocccok).Running?
    ensures m.depth < MAXDEPTH - 1 && (s.FalseTrailer? || s.PassMiddle? || s.TruePrefix? || s.FalsePrefix?)
    ensures s.FalseTrailer? == !Printing(m.ifstate[m.depth])
    ensures (s.TruePrefix? ==> truth(x.line.c)) && (s.FalsePrefix? ==> !truth(x.line.c))
    ensures First(m, x.line, s.PassMiddle?, s).Running?
    ensures var n, k := Step(m, x, iocccok).m, First(m, x.line, s.PassMiddle?, s).m;
            n.ifstate == k.ifstate && n.depth == k.depth && n.output == k.output
  {
    var a := Transition(m.ifstate[m.depth], x.lt);
    OpeningTable(m.ifstate[m.depth], x);
    OpeningSummary(a, m, x.line, iocccok);
    hide Transition, Perform;
    s := OpensAs(a);
  }
}
