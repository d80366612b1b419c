/** What a whole run of unifdef guarantees. */
module UnifdefTheorems {
  import opened Options
  import opened Preprocessor
  import opened UnifdefMachine
  import opened UnifdefPreservation

  ghost predicate GoodInput(xs: seq<Input>, truth: Cond -> bool) {
    forall i | 0 <= i < |xs| :: Classified(xs[i]) && Respects(xs[i], truth)
  }

  /** No prefix of the file nests as deep as the machine's stack. */
  ghost predicate Shallow(lines: seq<Line>, truth: Cond -> bool) {
    forall k | 0 <= k <= |lines| ::
      Preprocess(lines[..k], truth).Some? ==> |Preprocess(lines[..k], truth).value.frames| < MAXDEPTH
  }

  lemma {:induction false} SourcesSnoc(xs: seq<Input>)
    requires xs != []
    ensures Sources(xs) == Sources(Front(xs)) + [Last(xs).line]
  {
  }

  lemma {:induction false} TiedDepth(ss: seq<Ifstate>, fi: seq<Frame>, fo: seq<Frame>)
    requires Tied(ss, fi, fo)
    ensures |fo| < |ss|
    decreases |ss|
  {
    if |ss| > 1 {
      TiedDepth(Front(ss), Front(fi), if Opened(Last(ss)) then Front(fo) else fo);
    }
  }

  lemma {:induction false} ShallowSnoc(lines: seq<Line>, l: Line, truth: Cond -> bool)
    requires Shallow(lines, truth)
    requires Preprocess(lines + [l], truth).Some? ==> |Preprocess(lines + [l], truth).value.frames| < MAXDEPTH
    ensures Shallow(lines + [l], truth)
  {
    forall k | 0 <= k <= |lines + [l]|
      ensures Preprocess((lines + [l])[..k], truth).Some? ==>
              |Preprocess((lines + [l])[..k], truth).value.frames| < MAXDEPTH
    {
      if k <= |lines| {
        assert (lines + [l])[..k] == lines[..k];
      } else {
        assert (lines + [l])[..k] == lines + [l];
      }
    }
  }

  ghost predicate InStep(lines: seq<Line>, m: Machine, truth: Cond -> bool) {
    var i := Preprocess(lines, truth);
    var o := Preprocess(m.output, truth);
    i.Some? && o.Some? && Related(m, i.value, o.value) && Shallow(m.output, truth)
  }

  lemma {:induction false} OutputStaysShallow(out: seq<Line>, t: Line, n: Machine, i: Selection, o: Selection, truth: Cond -> bool)
    requires Shallow(out, truth) && Preprocess(out + [t], truth) == Some(o) && Related(n, i, o)
    ensures Shallow(out + [t], truth)
  {
    TiedDepth(Stack(n), i.frames, o.frames);
    ShallowSnoc(out, t, truth);
  }

  lemma PrefixSnoc<T>(a: seq<T>, b: seq<T>)
    requires a <= b && |b| <= |a| + 1 && a != b
    ensures b == a + [Last(b)]
  {
  }

  lemma {:induction false} InStepSnoc(lines: seq<Line>, l: Line, m: Machine, n: Machine, truth: Cond -> bool)
    requires InStep(lines, m, truth)
    requires StepKept(m, Running(n), Preprocess(lines, truth).value, Preprocess(m.output, truth).value, l, truth)
    ensures InStep(lines + [l], n, truth)
  {
    PreprocessSnoc(lines, l, truth);
    var i' := Preprocess(lines + [l], truth).value;
    if n.output != m.output {
      var t := Last(n.output);
      PrefixSnoc(m.output, n.output);
      PreprocessSnoc(m.output, t, truth);
      OutputStaysShallow(m.output, t, n, i', Preprocess(n.output, truth).value, truth);
    }
  }

  /** As long as the run goes on, input read and output written stay tied. */
  lemma {:induction false} ConsumeKeeps(xs: seq<Input>, iocccok: bool, truth: Cond -> bool)
    requires GoodInput(xs, truth) && Consume(xs, iocccok).Running?
    ensures InStep(Sources(xs), Consume(xs, iocccok).m, truth)
    decreases |xs|
  {
    if xs == [] {
      assert Stack(Start()) == [Outside];
    } else {
      var before, x := Front(xs), Last(xs);
      ConsumeKeeps(before, iocccok, truth);
      var m := Consume(before, iocccok).m;
      StepKeeps(m, x, iocccok, Preprocess(Sources(before), truth).value, Preprocess(m.output, truth).value, truth);
      InStepSnoc(Sources(before), x.line, m, Consume(xs, iocccok).m, truth);
      SourcesSnoc(xs);
    }
  }

  /** A run that reaches end of file without an error has read a well-nested file,
      and has written a well-nested file that selects exactly the same text. */
  lemma {:induction false} MeaningPreserved(xs: seq<Input>, iocccok: bool, truth: Cond -> bool)
    requires GoodInput(xs, truth) && Process(xs, iocccok).Finished?
    ensures WellNested(Sources(xs), truth)
    ensures WellNested(Process(xs, iocccok).output, truth)
    ensures Preprocess(Process(xs, iocccok).output, truth).value.kept == Preprocess(Sources(xs), truth).value.kept
    ensures Shallow(Process(xs, iocccok).output, truth)
  {
    ConsumeNeverFinishes(xs, iocccok);
    ConsumeKeeps(xs, iocccok, truth);
    var m := Consume(xs, iocccok).m;
    StackTop(m);
    OnlyBottomIsOutside(m, Preprocess(Sources(xs), truth).value, Preprocess(m.output, truth).value);
  }

  /** Only LT_EOF ends a run normally. */
  lemma {:induction false} ConsumeNeverFinishes(xs: seq<Input>, iocccok: bool)
    requires forall i | 0 <= i < |xs| :: Classified(xs[i])
    ensures !Consume(xs, iocccok).Finished?
    decreases |xs|
  {
    if xs != [] {
      ConsumeNeverFinishes(Front(xs), iocccok);
      if Consume(Front(xs), iocccok).Running? {
        LineNeverFinishes(Consume(Front(xs), iocccok).m, Last(xs), iocccok);
      }
    }
  }

  lemma LineNeverFinishes(m: Machine, x: Input, iocccok: bool)
    requires Valid(m) && Classified(x)
    ensures !Step(m, x, iocccok).Finished?
  {
  }

  lemma OnlyBottomIsOutside(m: Machine, i: Selection, o: Selection)
    requires Related(m, i, o) && m.ifstate[m.depth] == Outside
    ensures m.depth == 0 && i.frames == [] && o.frames == []
  {
    StackTop(m);
  }

  /** Why a line may stop the run. */
  ghost predicate Cause(why: Failure, x: Input, i: Selection, truth: Cond -> bool) {
    match why
    case InappropriateElif => x.line.ElifLine? && Advance(i, x.line, truth).None?
    case InappropriateElse => x.line.ElseLine? && Advance(i, x.line, truth).None?
    case InappropriateEndif => x.line.EndifLine? && Advance(i, x.line, truth).None?
    case Obfuscated => x.lt.Directive? && x.lt.dodgy
    case TooDeep => x.line.IfLine? && |i.frames| == MAXDEPTH - 1
    case PrematureEof => false
    case Bug => false
  }

  /** The causes again, read off the innermost state alone. */
  predicate TableCause(why: Failure, x: Input, s: Ifstate, depth: nat) {
    match why
    case InappropriateElif => x.line.ElifLine? && (s.Outside? || s.PassElse? || s.FalseElse? || s.TrueElse?)
    case InappropriateElse => x.line.ElseLine? && (s.Outside? || s.PassElse? || s.FalseElse? || s.TrueElse?)
    case InappropriateEndif => x.line.EndifLine? && s.Outside?
    case Obfuscated => x.lt.Directive? && x.lt.dodgy
    case TooDeep => x.line.IfLine? && depth == MAXDEPTH - 1
    case PrematureEof => false
    case Bug => false
  }

  lemma StopsAtIf(m: Machine, x: Input, iocccok: bool)
    requires Valid(m) && Classified(x) && x.line.IfLine? && Step(m, x, iocccok).Stopped?
    ensures TableCause(Step(m, x, iocccok).why, x, m.ifstate[m.depth], m.depth)
  {
    OpeningTable(m.ifstate[m.depth], x);
  }

  lemma StopsAtBranch(m: Machine, x: Input, iocccok: bool)
    requires Valid(m) && (m.depth == 0 <==> m.ifstate[m.depth] == Outside)
    requires Classified(x) && (x.line.ElifLine? || x.line.ElseLine?) && Step(m, x, iocccok).Stopped?
    ensures TableCause(Step(m, x, iocccok).why, x, m.ifstate[m.depth], m.depth)
  {
  }

  lemma StopsAtOther(m: Machine, x: Input, iocccok: bool)
    requires Valid(m) && (m.depth == 0 <==> m.ifstate[m.depth] == Outside)
    requires Classified(x) && (x.line.EndifLine? || x.line.TextLine?) && Step(m, x, iocccok).Stopped?
    ensures TableCause(Step(m, x, iocccok).why, x, m.ifstate[m.depth], m.depth)
  {
  }

  lemma {:induction false} TableCauseIsCause(ss: seq<Ifstate>, fi: seq<Frame>, fo: seq<Frame>, why: Failure, x: Input, i: Selection, truth: Cond -> bool)
    requires Tied(ss, fi, fo) && i.frames == fi && TableCause(why, x, Last(ss), |ss| - 1)
    ensures Cause(why, x, i, truth)
  {
  }

  /** The run stops for a reason: the reference rejects the line too, the line is a
      directive spread over several lines, or the stack is full. The "bug" exits
      (three calls of abort()) are never taken. */
  lemma StopsForCause(m: Machine, x: Input, iocccok: bool, i: Selection, o: Selection, truth: Cond -> bool)
    requires Related(m, i, o) && Classified(x)
    requires Step(m, x, iocccok).Stopped?
    ensures Cause(Step(m, x, iocccok).why, x, i, truth)
  {
    StackTop(m);
    assert m.depth == 0 <==> m.ifstate[m.depth] == Outside;
    var why := Step(m, x, iocccok).why;
    if x.line.IfLine? {
      StopsAtIf(m, x, iocccok);
    } else if x.line.EndifLine? || x.line.TextLine? {
      StopsAtOther(m, x, iocccok);
    } else {
      StopsAtBranch(m, x, iocccok);
    }
    TableCauseIsCause(Stack(m), i.frames, o.frames, why, x, i, truth);
  }

  ghost predicate Clean(xs: seq<Input>) {
    forall i | 0 <= i < |xs| :: xs[i].lt.Directive? ==> !xs[i].lt.dodgy
  }

  lemma {:induction false} NothingRead(iocccok: bool)
    ensures Consume([], iocccok) == Running(Start())
  {
  }

  lemma {:induction false} ConsumeSnoc(xs: seq<Input>, iocccok: bool)
    requires xs != [] && Consume(Front(xs), iocccok).Running?
    ensures Consume(xs, iocccok) == Step(Consume(Front(xs), iocccok).m, Last(xs), iocccok)
  {
  }

  /** A file the reference accepts, not nested too deep, with directives on single
      lines, is read to its end. */
  lemma {:induction false} ConsumeRuns(xs: seq<Input>, iocccok: bool, truth: Cond -> bool)
    requires GoodInput(xs, truth) && Clean(xs)
    requires Preprocess(Sources(xs), truth).Some? && Shallow(Sources(xs), truth)
    ensures Consume(xs, iocccok).Running?
    decreases |xs|
  {
    if xs != [] {
      var before, x := Front(xs), Last(xs);
      SourcesSnoc(xs);
      var ls := Sources(before);
      PreprocessSnoc(ls, x.line, truth);
      ShallowFront(ls, x.line, truth);
      ConsumeRuns(before, iocccok, truth);
      ConsumeKeeps(before, iocccok, truth);
      var m := Consume(before, iocccok).m;
      var i, o := Preprocess(ls, truth).value, Preprocess(m.output, truth).value;
      LineNeverFinishes(m, x, iocccok);
      ConsumeSnoc(xs, iocccok);
      assert (ls + [x.line])[..|ls| + 1] == ls + [x.line];
      if Step(m, x, iocccok).Stopped? {
        StopsForCause(m, x, iocccok, i, o, truth);
        assert false;
      }
    }
  }

  lemma ShallowFront(lines: seq<Line>, l: Line, truth: Cond -> bool)
    requires Shallow(lines + [l], truth)
    ensures Shallow(lines, truth)
  {
    forall k | 0 <= k <= |lines|
      ensures Preprocess(lines[..k], truth).Some? ==> |Preprocess(lines[..k], truth).value.frames| < MAXDEPTH
    {
      assert (lines + [l])[..k] == lines[..k];
    }
  }

  lemma {:induction false} ReadMeansShallow(xs: seq<Input>, iocccok: bool, truth: Cond -> bool)
    requires GoodInput(xs, truth) && Consume(xs, iocccok).Running?
    ensures Shallow(Sources(xs), truth)
    decreases |xs|
  {
    ConsumeKeeps(xs, iocccok, truth);
    if xs != [] {
      SourcesSnoc(xs);
      ReadMeansShallow(Front(xs), iocccok, truth);
      ShallowSnoc(Sources(Front(xs)), Last(xs).line, truth);
    }
  }

  lemma AtEof(m: Machine, iocccok: bool)
    requires Valid(m)
    ensures Step(m, EndOfFile, iocccok) ==
            if m.ifstate[m.depth] == Outside then Finished(m.output) else Stopped(PrematureEof, m.output)
  {
  }

  lemma {:induction false} InStepAtBottom(lines: seq<Line>, m: Machine, truth: Cond -> bool)
    requires InStep(lines, m, truth)
    ensures m.ifstate[m.depth] == Outside <==> Preprocess(lines, truth).value.frames == []
  {
    StackTop(m);
  }

  /** With every directive on one line, unifdef succeeds exactly on the well-nested
      files of fewer than MAXDEPTH open groups. */
  lemma {:induction false} AcceptsExactlyWellNested(xs: seq<Input>, iocccok: bool, truth: Cond -> bool)
    requires GoodInput(xs, truth) && Clean(xs)
    ensures Process(xs, iocccok).Finished? <==> WellNested(Sources(xs), truth) && Shallow(Sources(xs), truth)
  {
    ConsumeNeverFinishes(xs, iocccok);
    if WellNested(Sources(xs), truth) && Shallow(Sources(xs), truth) {
      ConsumeRuns(xs, iocccok, truth);
    }
    var p := Consume(xs, iocccok);
    if p.Running? {
      ReadMeansShallow(xs, iocccok, truth);
      ConsumeKeeps(xs, iocccok, truth);
      AtEof(p.m, iocccok);
      InStepAtBottom(Sources(xs), p.m, truth);
    }
  }
}
