/** Running unifdef again over its own output changes nothing. */
module UnifdefIdempotence {
  import opened Preprocessor
  import opened UnifdefMachine
  import opened UnifdefPreservation
  import opened UnifdefTheorems

  /** What unifdef makes of a condition: the same in every run with the same symbols. */
  datatype Verdict = Open | Holds | Fails | HoldsIgnored | FailsIgnored

  /** The line type parseline() gives a line. */
  function TypeOf(l: Line, verdict: Cond -> Verdict, dodgy: bool): Linetype {
    match l
    case IfLine(c) =>
      Directive(match verdict(c) case Open => If case Holds => True case Fails => False case HoldsIgnored => TrueI case FailsIgnored => FalseI, dodgy)
    case ElifLine(c) =>
      Directive(match verdict(c) case Open => Elif case Holds => ElTrue case HoldsIgnored => ElTrue case _ => ElFalse, dodgy)
    case ElseLine => Directive(Else, dodgy)
    case EndifLine => Directive(Endif, dodgy)
    case TextLine(_) => Plain
  }

  /** The file as unifdef reads it, whichever directives are not on one line. */
  ghost predicate ReadWith(xs: seq<Input>, verdict: Cond -> Verdict) {
    forall k | 0 <= k < |xs| :: xs[k].lt == TypeOf(xs[k].line, verdict, Dodgy(xs[k]))
  }

  predicate Dodgy(x: Input) {
    x.lt.Directive? && x.lt.dodgy
  }

  predicate Undecided(x: Input) {
    x.lt.Directive? && (x.lt.kind.If? || x.lt.kind.Elif?)
  }

  /** A line that is passed on as it is: no condition, an undecided one, or with -e one that is not on one line. */
  predicate PassedOn(x: Input, iocccok: bool) {
    Classified(x) && (x.line.IfLine? || x.line.ElifLine? ==> Undecided(x) || (Dodgy(x) && iocccok))
  }

  // ---------- passing through

  /** Every open group is being passed through. */
  ghost predicate PassingThrough(m: Machine, fs: seq<Frame>) {
    && Valid(m) && m.depth == |fs| && m.ifstate[0] == Outside
    && forall d | 1 <= d <= m.depth :: m.ifstate[d] == if fs[d - 1].inElse then PassElse else PassMiddle
  }

  /** What the table has for such a line in a group that is being passed through. */
  lemma PassAction(s: Ifstate, x: Input, iocccok: bool)
    requires s.Outside? || s.PassMiddle? || s.PassElse?
    requires PassedOn(x, iocccok)
    requires (x.line.ElifLine? || x.line.ElseLine? ==> s.PassMiddle?) && (x.line.EndifLine? ==> !s.Outside?)
    ensures var a := Transition(s, x.lt);
            match x.line
            case IfLine(_) => a.Fpass? || (iocccok && (a.Oif? || a.Oiffy?))
            case ElifLine(_) => a.Pelif? || (iocccok && a.Oelif?)
            case ElseLine => a.Pelse?
            case EndifLine => a.Pendif?
            case TextLine(_) => a.Print?
  {
  }

  lemma PassesLine(m: Machine, s: Selection, x: Input, iocccok: bool, truth: Cond -> bool)
    requires PassingThrough(m, s.frames) && PassedOn(x, iocccok)
    requires Advance(s, x.line, truth).Some? && |Advance(s, x.line, truth).value.frames| < MAXDEPTH
    ensures var p := Step(m, x, iocccok);
            p.Running? && p.m.output == m.output + [x.line] && PassingThrough(p.m, Advance(s, x.line, truth).value.frames)
  {
    hide Transition, PassedOn;
    PassAction(m.ifstate[m.depth], x, iocccok);
    if x.line.IfLine? {
      OpensGroup(m, s, x, iocccok, truth);
    }
  }

  lemma OpensGroup(m: Machine, s: Selection, x: Input, iocccok: bool, truth: Cond -> bool)
    requires PassingThrough(m, s.frames) && x.line.IfLine? && |s.frames| + 1 < MAXDEPTH
    requires var a := Transition(m.ifstate[m.depth], x.lt); a.Fpass? || (iocccok && (a.Oif? || a.Oiffy?))
    ensures var p := Step(m, x, iocccok);
            p.Running? && p.m.output == m.output + [x.line] && Advance(s, x.line, truth).Some?
            && PassingThrough(p.m, Advance(s, x.line, truth).value.frames)
  {
    hide Transition;
  }

  /** A well-nested file of such lines is reproduced line for line. */
  lemma {:induction false} PassesThrough(ys: seq<Input>, iocccok: bool, truth: Cond -> bool)
    requires forall k | 0 <= k < |ys| :: PassedOn(ys[k], iocccok)
    requires Preprocess(Sources(ys), truth).Some? && Shallow(Sources(ys), truth)
    ensures var p := Consume(ys, iocccok);
            p.Running? && p.m.output == Sources(ys) && PassingThrough(p.m, Preprocess(Sources(ys), truth).value.frames)
    decreases |ys|
  {
    if ys != [] {
      hide Step, PassedOn, Advance;
      var before, y := Front(ys), Last(ys);
      var ls := Sources(ys);
      SourcesSnoc(ys);
      PreprocessSnoc(Sources(before), y.line, truth);
      ShallowFront(Sources(before), y.line, truth);
      PassesThrough(before, iocccok, truth);
      assert ls[..|ls|] == ls;
      var m := Consume(before, iocccok).m;
      PassesLine(m, Preprocess(Sources(before), truth).value, y, iocccok, truth);
      ConsumeSnoc(ys, iocccok);
    }
  }

  // ---------- what is printed

  /** The step printed nothing, or one line; a condition in it came from the input line, undecided, or with -e on a
      directive that is not on one line. */
  ghost predicate AddsUndecided(m: Machine, n: Machine, x: Input, iocccok: bool) {
    n.output == m.output ||
    exists l :: n.output == m.output + [l] && (l.IfLine? || l.ElifLine? ==> From(l, x, iocccok))
  }

  ghost predicate From(l: Line, x: Input, iocccok: bool)
    requires l.IfLine? || l.ElifLine?
  {
    (Undecided(x) || (Dodgy(x) && iocccok)) && x.line in {IfLine(l.c), ElifLine(l.c)}
  }

  lemma PrintsOnlyUndecided(m: Machine, x: Input, iocccok: bool)
    requires Valid(m) && Classified(x) && Step(m, x, iocccok).Running?
    requires m.depth == 0 ==> m.ifstate[0] == Outside
    ensures AddsUndecided(m, Step(m, x, iocccok).m, x, iocccok)
  {
    hide Step, AddsUndecided, Classified;
    match x.line
    case IfLine(_) => IfUndecided(m, x, iocccok);
    case ElifLine(_) => BranchUndecided(m, x, iocccok);
    case ElseLine => BranchUndecided(m, x, iocccok);
    case EndifLine => OtherUndecided(m, x, iocccok);
    case TextLine(_) => OtherUndecided(m, x, iocccok);
  }

  lemma IfUndecided(m: Machine, x: Input, iocccok: bool)
    requires Valid(m) && Classified(x) && x.line.IfLine? && Step(m, x, iocccok).Running?
    ensures AddsUndecided(m, Step(m, x, iocccok).m, x, iocccok)
  {
    hide Transition, Perform;
    var a := Transition(m.ifstate[m.depth], x.lt);
    OpeningTable(m.ifstate[m.depth], x);
    OpeningSummary(a, m, x.line, iocccok);
    OpenedUndecided(m.ifstate[m.depth], x);
    if a.Oif? || a.Oiffy? { NeedsE(a, m, x.line, iocccok); }
  }

  lemma NeedsE(a: Action, m: Machine, l: Line, iocccok: bool)
    requires Valid(m) && (a.Oif? || a.Oiffy? || a.Oelif?) && Perform(a, m, l, iocccok).Running?
    ensures iocccok
  {
  }

  lemma BranchUndecided(m: Machine, x: Input, iocccok: bool)
    requires Valid(m) && Classified(x) && (x.line.ElifLine? || x.line.ElseLine?)
    requires (m.depth == 0 ==> m.ifstate[0] == Outside) && Step(m, x, iocccok).Running?
    ensures AddsUndecided(m, Step(m, x, iocccok).m, x, iocccok)
  {
    var a := Transition(m.ifstate[m.depth], x.lt);
    MiddleActions(m, x, iocccok);
    hide Transition, Perform, Printed, NewState;
    MiddleSummary(a, m, x.line, iocccok);
    if a.Oelif? { NeedsE(a, m, x.line, iocccok); }
    MiddleUndecided(m.ifstate[m.depth], x, iocccok);
    assert Printed(a, x.line) == [] || Printed(a, x.line) == [Printed(a, x.line)[0]];
  }

  lemma OtherUndecided(m: Machine, x: Input, iocccok: bool)
    requires Valid(m) && Classified(x) && (x.line.EndifLine? || x.line.TextLine?) && Step(m, x, iocccok).Running?
    ensures AddsUndecided(m, Step(m, x, iocccok).m, x, iocccok)
  {
    OtherActions(m.ifstate[m.depth], x);
    hide Transition;
  }

  lemma OtherActions(s: Ifstate, x: Input)
    requires Classified(x) && (x.line.EndifLine? || x.line.TextLine?)
    ensures var a := Transition(s, x.lt); a.Print? || a.Drop? || a.Pendif? || a.Dendif? || a.Eendif? || a.Eioccc?
  {
  }

  lemma OpenedUndecided(s: Ifstate, x: Input)
    requires Classified(x) && x.line.IfLine?
    ensures var a := Transition(s, x.lt);
            Opening(a) && (OpensAs(a).PassMiddle? ==> Undecided(x) || (Dodgy(x) && (a.Oif? || a.Oiffy?)))
  {
  }

  lemma MiddleUndecided(s: Ifstate, x: Input, iocccok: bool)
    requires Classified(x) && (x.line.ElifLine? || x.line.ElseLine?) && Middle(Transition(s, x.lt))
    requires Transition(s, x.lt).Oelif? ==> iocccok
    ensures var printed := Printed(Transition(s, x.lt), x.line);
            |printed| <= 1 && forall l | l in printed && (l.IfLine? || l.ElifLine?) :: From(l, x, iocccok)
  {
  }

  /** Where the conditions in the output come from. */
  ghost predicate OnlyUndecided(out: seq<Line>, xs: seq<Input>, iocccok: bool) {
    forall l | l in out && (l.IfLine? || l.ElifLine?) :: exists x :: x in xs && From(l, x, iocccok)
  }

  /** Nothing decided is left behind without -e, and with it only on directives that are not on one line. */
  lemma {:induction false} OutputIsUndecided(xs: seq<Input>, iocccok: bool, truth: Cond -> bool)
    requires GoodInput(xs, truth) && Consume(xs, iocccok).Running?
    ensures OnlyUndecided(Consume(xs, iocccok).m.output, xs, iocccok)
    decreases |xs|
  {
    hide Step, From;
    if xs != [] {
      OutputIsUndecided(Front(xs), iocccok, truth);
      ConsumeKeeps(Front(xs), iocccok, truth);
      var m := Consume(Front(xs), iocccok).m;
      BottomOutside(Front(xs), m, truth);
      PrintsOnlyUndecided(m, Last(xs), iocccok);
      ConsumeSnoc(xs, iocccok);
      assert forall x :: x in Front(xs) ==> x in xs;
      assert Last(xs) in xs;
    }
  }

  lemma {:induction false} BottomOutside(xs: seq<Input>, m: Machine, truth: Cond -> bool)
    requires InStep(Sources(xs), m, truth)
    ensures Valid(m) && (m.depth == 0 ==> m.ifstate[0] == Outside)
  {
    StackTop(m);
  }

  // ---------- the second run

  /** The output ys of a run, read again with the same symbols. With -e a decided condition may have been printed,
      on a directive that was not on one line; it is still not. */
  ghost predicate ReadAgain(ys: seq<Input>, out: seq<Line>, verdict: Cond -> Verdict, iocccok: bool) {
    && Sources(ys) == out && ReadWith(ys, verdict)
    && (iocccok ==> forall k | 0 <= k < |ys| :: (ys[k].line.IfLine? || ys[k].line.ElifLine?) && !Undecided(ys[k]) ==> Dodgy(ys[k]))
  }

  /** A condition printed from a line that was undecided is undecided again. */
  lemma SameVerdict(x: Input, y: Input, verdict: Cond -> Verdict)
    requires x.lt == TypeOf(x.line, verdict, Dodgy(x)) && y.lt == TypeOf(y.line, verdict, Dodgy(y))
    requires (y.line.IfLine? || y.line.ElifLine?) && x.line in {IfLine(y.line.c), ElifLine(y.line.c)} && Undecided(x)
    ensures Undecided(y)
  {
  }

  lemma TypeIsClassified(y: Input, verdict: Cond -> Verdict)
    requires y.lt == TypeOf(y.line, verdict, Dodgy(y))
    ensures Classified(y)
  {
  }

  lemma {:induction false} ReadsPassedOn(xs: seq<Input>, ys: seq<Input>, k: nat, verdict: Cond -> Verdict, iocccok: bool)
    requires ReadWith(xs, verdict) && ReadAgain(ys, Sources(ys), verdict, iocccok) && k < |ys| && OnlyUndecided(Sources(ys), xs, iocccok)
    ensures PassedOn(ys[k], iocccok)
  {
    hide Sources, TypeOf, Classified, Undecided, Dodgy;
    var y := ys[k];
    assert y.lt == TypeOf(y.line, verdict, Dodgy(y));
    TypeIsClassified(y, verdict);
    if y.line.IfLine? || y.line.ElifLine? {
      assert Sources(ys)[k] == y.line;
      assert y.line in Sources(ys);
      var x :| x in xs && From(y.line, x, iocccok);
      var j :| 0 <= j < |xs| && xs[j] == x;
      assert x.lt == TypeOf(x.line, verdict, Dodgy(x));
      if Undecided(x) { SameVerdict(x, y, verdict); }
    }
  }

  /** A second run with the same symbols finishes and reproduces the first run's output line for line. */
  lemma SecondRunIsIdentity(xs: seq<Input>, ys: seq<Input>, verdict: Cond -> Verdict, iocccok: bool, truth: Cond -> bool)
    requires GoodInput(xs, truth) && ReadWith(xs, verdict) && Process(xs, iocccok).Finished?
    requires ReadAgain(ys, Process(xs, iocccok).output, verdict, iocccok)
    ensures Process(ys, iocccok) == Process(xs, iocccok)
  {
    hide Consume, Preprocess, Shallow, PassedOn, ReadAgain, ReadWith, OnlyUndecided;
    MeaningPreserved(xs, iocccok, truth);
    ReadAgainLines(ys, Process(xs, iocccok).output, verdict, iocccok);
    ConsumeNeverFinishes(xs, iocccok);
    OutputIsUndecided(xs, iocccok, truth);
    FinishedOutput(xs, iocccok);
    forall k | 0 <= k < |ys| ensures PassedOn(ys[k], iocccok) {
      ReadsPassedOn(xs, ys, k, verdict, iocccok);
    }
    PassesThrough(ys, iocccok, truth);
    FinishesAtBottom(ys, iocccok, truth);
  }

  lemma {:induction false} ReadAgainLines(ys: seq<Input>, out: seq<Line>, verdict: Cond -> Verdict, iocccok: bool)
    requires ReadAgain(ys, out, verdict, iocccok)
    ensures Sources(ys) == out
  {
  }

  lemma {:induction false} FinishedOutput(xs: seq<Input>, iocccok: bool)
    requires Consume(xs, iocccok).Running? && Process(xs, iocccok).Finished?
    ensures Process(xs, iocccok).output == Consume(xs, iocccok).m.output
  {
    AtEof(Consume(xs, iocccok).m, iocccok);
  }

  lemma {:induction false} FinishesAtBottom(ys: seq<Input>, iocccok: bool, truth: Cond -> bool)
    requires WellNested(Sources(ys), truth) && Consume(ys, iocccok).Running? && Consume(ys, iocccok).m.output == Sources(ys)
    requires PassingThrough(Consume(ys, iocccok).m, Preprocess(Sources(ys), truth).value.frames)
    ensures Process(ys, iocccok) == Finished(Sources(ys))
  {
    AtEof(Consume(ys, iocccok).m, iocccok);
  }

  // ---------- a decided condition left behind

  /** A true #if that is not on one line, a line of text, #endif. */
  function LeftBehind(dodgy: bool): seq<Input> {
    [Input(IfLine(0), Directive(True, dodgy)), Input(TextLine(1), Plain), Input(EndifLine, Directive(Endif, false))]
  }

  /** With -e it is printed as it is; read again on one line, it would go. */
  lemma LeftBehindIsPrinted()
    ensures Process(LeftBehind(true), true) == Finished(Sources(LeftBehind(true)))
    ensures Process(LeftBehind(false), true) == Finished([TextLine(1)])
  {
    LeftBehindRuns(true);
    LeftBehindRuns(false);
  }

  lemma {:induction false} RunsThree(xs: seq<Input>, iocccok: bool)
    requires |xs| == 3
    requires Step(Start(), xs[0], iocccok).Running? && Step(Step(Start(), xs[0], iocccok).m, xs[1], iocccok).Running?
    ensures Consume(xs, iocccok) == Step(Step(Step(Start(), xs[0], iocccok).m, xs[1], iocccok).m, xs[2], iocccok)
    ensures Sources(xs) == [xs[0].line, xs[1].line, xs[2].line]
  {
    hide Step, Consume, Start, Sources;
    var two, one := Front(xs), Front(Front(xs));
    assert Front(one) == [] && Last(one) == xs[0] && Last(two) == xs[1] && Last(xs) == xs[2];
    NothingRead(iocccok);
    ConsumeSnoc(one, iocccok);
    ConsumeSnoc(two, iocccok);
    ConsumeSnoc(xs, iocccok);
  }

  lemma LeftBehindRuns(dodgy: bool)
    ensures Process(LeftBehind(dodgy), true) == Finished(if dodgy then Sources(LeftBehind(dodgy)) else [TextLine(1)])
  {
    LeftBehindSteps(dodgy);
    hide Step, Consume, Start, Sources;
    RunsThree(LeftBehind(dodgy), true);
    AtEof(Consume(LeftBehind(dodgy), true).m, true);
  }

  lemma LeftBehindSteps(dodgy: bool)
    ensures Step(Start(), LeftBehind(dodgy)[0], true).Running?
    ensures var p := Step(Start(), LeftBehind(dodgy)[0], true); Step(p.m, LeftBehind(dodgy)[1], true).Running?
    ensures var p := Step(Start(), LeftBehind(dodgy)[0], true); var q := Step(p.m, LeftBehind(dodgy)[1], true);
            var r := Step(q.m, LeftBehind(dodgy)[2], true);
            r.Running? && r.m.depth == 0 && r.m.ifstate[0] == Outside
            && r.m.output == if dodgy then [IfLine(0), TextLine(1), EndifLine] else [TextLine(1)]
  {
    LeftBehindActions(dodgy);
    hide Transition, Fill;
  }

  lemma LeftBehindActions(dodgy: bool)
    ensures Transition(Outside, Directive(True, dodgy)) == if dodgy then Oif else Ftrue
    ensures var s := if dodgy then PassMiddle else TruePrefix;
            Transition(s, Plain) == Print && Transition(s, Directive(Endif, false)) == if dodgy then Pendif else Dendif
  {
  }
}
