/** Directives spread over several lines. */
module UnifdefDodgy {
  import opened Preprocessor
  import opened UnifdefMachine
  import opened UnifdefPreservation
  import opened UnifdefTheorems

  /** The text before the directive, the directive itself and the text after it are
      all printed or all dropped. Otherwise a comment hanging off the directive
      is cut in two. */
  predicate NoSwitch(m: Machine, n: Machine)
    requires Valid(m) && Valid(n)
  {
    && (n.output != m.output) == Printing(m.ifstate[m.depth])
    && Printing(n.ifstate[n.depth]) == Printing(m.ifstate[m.depth])
  }

  /** The one hole in the table's handling of such directives. */
  predicate UnguardedSwitch(s: Ifstate, x: Input) {
    s == FalsePrefix && x.lt == Directive(Elif, true)
  }

  lemma OuterPrints(m: Machine, i: Selection, o: Selection)
    requires Related(m, i, o) && m.depth > 0 && Printing(m.ifstate[m.depth])
    ensures Printing(m.ifstate[m.depth - 1])
  {
    StackTop(m);
    assert Last(Front(Stack(m))) == m.ifstate[m.depth - 1];
  }

  lemma DodgyBranch(m: Machine, x: Input, iocccok: bool)
    requires Valid(m) && Classified(x) && x.lt.Directive? && x.lt.dodgy && (x.line.ElifLine? || x.line.ElseLine?)
    requires (m.depth == 0 ==> m.ifstate[0] == Outside) && Step(m, x, iocccok).Running?
    ensures NoSwitch(m, Step(m, x, iocccok).m) <==> !UnguardedSwitch(m.ifstate[m.depth], x)
  {
    var a := Transition(m.ifstate[m.depth], x.lt);
    MiddleActions(m, x, iocccok);
    MiddleSummary(a, m, x.line, iocccok);
    StackTop(Step(m, x, iocccok).m);
  }

  /** A directive that is not on one line is let through only when printing does not
      change at it, with exactly one exception. */
  lemma DodgyNeverSwitches(m: Machine, x: Input, iocccok: bool, i: Selection, o: Selection)
    requires Related(m, i, o) && Classified(x) && x.lt.Directive? && x.lt.dodgy
    requires Step(m, x, iocccok).Running?
    ensures NoSwitch(m, Step(m, x, iocccok).m) <==> !UnguardedSwitch(m.ifstate[m.depth], x)
  {
    match x.line
    case IfLine(_) => DodgyIf(m, x, iocccok);
    case ElifLine(_) => DepthOutside(m, i, o); DodgyBranch(m, x, iocccok);
    case ElseLine => DepthOutside(m, i, o); DodgyBranch(m, x, iocccok);
    case EndifLine => DodgyEndif(m, x, iocccok, i, o);
    case TextLine(_) =>
  }

  lemma DepthOutside(m: Machine, i: Selection, o: Selection)
    requires Related(m, i, o)
    ensures m.depth == 0 ==> m.ifstate[0] == Outside
  {
    StackTop(m);
  }

  lemma DodgyIf(m: Machine, x: Input, iocccok: bool)
    requires Valid(m) && Classified(x) && x.lt.Directive? && x.lt.dodgy && x.line.IfLine? && Step(m, x, iocccok).Running?
    ensures NoSwitch(m, Step(m, x, iocccok).m) <==> !UnguardedSwitch(m.ifstate[m.depth], x)
  {
    OpeningTable(m.ifstate[m.depth], x);
    OpeningSummary(Transition(m.ifstate[m.depth], x.lt), m, x.line, iocccok);
    DodgyOpens(m.ifstate[m.depth], x);
    hide Transition, Perform;
  }

  lemma DodgyOpens(s: Ifstate, x: Input)
    requires Classified(x) && x.lt.Directive? && x.lt.dodgy && x.line.IfLine?
    ensures Opening(Transition(s, x.lt)) && OpensAs(Transition(s, x.lt)) == if Printing(s) then PassMiddle else FalseTrailer
  {
  }

  lemma DodgyEndif(m: Machine, x: Input, iocccok: bool, i: Selection, o: Selection)
    requires Related(m, i, o) && Classified(x) && x.lt.Directive? && x.lt.dodgy && x.line.EndifLine? && Step(m, x, iocccok).Running?
    ensures NoSwitch(m, Step(m, x, iocccok).m)
  {
    StackTop(m);
    if m.depth > 0 && Printing(m.ifstate[m.depth]) {
      OuterPrints(m, i, o);
    }
    DepthOutside(m, i, o);
    DodgyCloses(m.ifstate[m.depth], x);
    hide Tied, Transition;
  }

  lemma DodgyCloses(s: Ifstate, x: Input)
    requires Classified(x) && x.lt.Directive? && x.lt.dodgy && x.line.EndifLine?
    ensures var a := Transition(s, x.lt); a.Eendif? || a.Eioccc? || a.Pendif? || a.Dendif?
    ensures Transition(s, x.lt).Pendif? ==> Printing(s)
    ensures Transition(s, x.lt).Dendif? ==> !Printing(s)
  {
  }

  const IfFalse := Input(IfLine(0), Directive(False, false))
  const Skipped := Input(TextLine(7), Plain)
  const LateElif := Input(ElifLine(1), Directive(Elif, true))

  /** The exception happens: a false #if, a line of text in it, then an unknown #elif
      whose line starts inside a comment. Without -e too, the text is dropped and
      the directive printed. */
  lemma {:induction false} SwitchHappens(iocccok: bool)
    ensures var p := Consume([IfFalse, Skipped], iocccok);
            var q := Consume([IfFalse, Skipped, LateElif], iocccok);
            p.Running? && q.Running? && p.m.output == [] && q.m.output == [IfLine(1)] && !NoSwitch(p.m, q.m)
  {
    var a, b, c := [IfFalse], [IfFalse, Skipped], [IfFalse, Skipped, LateElif];
    assert Front(a) == [] && Front(b) == a && Front(c) == b;
    assert Last(a) == IfFalse && Last(b) == Skipped && Last(c) == LateElif;
    NothingRead(iocccok);
    SwitchSteps(iocccok);
    hide Step, Consume, NoSwitch, Start;
    ConsumeSnoc(a, iocccok);
    ConsumeSnoc(b, iocccok);
    ConsumeSnoc(c, iocccok);
  }

  lemma SwitchActions()
    ensures Transition(Outside, IfFalse.lt) == Ffalse && Transition(FalsePrefix, Skipped.lt) == Drop
    ensures Transition(FalsePrefix, LateElif.lt) == Mpass
  {
  }

  lemma SwitchSteps(iocccok: bool)
    ensures Step(Start(), IfFalse, iocccok).Running?
    ensures var p := Step(Start(), IfFalse, iocccok); Step(p.m, Skipped, iocccok).Running?
    ensures var p := Step(Start(), IfFalse, iocccok); var q := Step(p.m, Skipped, iocccok); var r := Step(q.m, LateElif, iocccok);
            q.m.output == [] && r.Running? && r.m.output == [IfLine(1)] && !NoSwitch(q.m, r.m)
  {
    SwitchActions();
    hide Transition, Fill;
  }
}
