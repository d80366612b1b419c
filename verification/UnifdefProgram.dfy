/** unifdef as it runs: global arrays changed in place by the state functions. */
module UnifdefProgram {
  import opened Preprocessor
  import M = UnifdefMachine

  class Unifdef {
    const iocccok: bool
    const ifstate: array<M.Ifstate>
    const ignoring: array<bool>
    var depth: nat
    var output: seq<Line>

    ghost predicate Valid()
      reads this
    {
      ifstate.Length == M.MAXDEPTH && ignoring.Length == M.MAXDEPTH && depth < M.MAXDEPTH
    }

    ghost function Snapshot(): M.Machine
      reads this, ifstate, ignoring
    {
      M.Machine(ifstate[..], ignoring[..], depth, output)
    }

    constructor (iocccok: bool)
      ensures Valid() && Snapshot() == M.Start() && this.iocccok == iocccok
      ensures fresh(ifstate) && fresh(ignoring)
    {
      this.iocccok := iocccok;
      ifstate := new M.Ifstate[M.MAXDEPTH](_ => M.Outside);
      ignoring := new bool[M.MAXDEPTH](_ => false);
      depth, output := 0, [];
      new;
      assert ifstate[..] == M.Start().ifstate;
      assert ignoring[..] == M.Start().ignoring;
    }

    method Flush(l: Line, keep: bool)
      modifies this`output
      ensures Snapshot() == M.Flush(old(Snapshot()), l, keep)
    {
      if keep { output := output + [l]; }
    }

    method Nest() returns (ok: bool)
      requires Valid()
      modifies this`depth
      ensures Valid()
      ensures ok == M.Nest(old(Snapshot())).Running?
      ensures Snapshot() == if ok then M.Nest(old(Snapshot())).m else old(Snapshot())
    {
      ok := depth < M.MAXDEPTH - 1;
      if ok { depth := depth + 1; }
    }

    method Unnest() returns (ok: bool)
      requires Valid()
      modifies this`depth
      ensures Valid()
      ensures ok == M.Unnest(old(Snapshot())).Running?
      ensures Snapshot() == if ok then M.Unnest(old(Snapshot())).m else old(Snapshot())
    {
      ok := depth > 0;
      if ok { depth := depth - 1; }
    }

    method SetState(s: M.Ifstate)
      requires Valid()
      modifies ifstate
      ensures Snapshot() == M.SetState(old(Snapshot()), s)
    {
      ifstate[depth] := s;
    }

    method IgnoreOn()
      requires Valid()
      modifies ignoring
      ensures Snapshot() == M.IgnoreOn(old(Snapshot()))
    {
      ignoring[depth] := true;
    }

    method IgnoreOff()
      requires Valid() && depth > 0
      modifies ignoring
      ensures Snapshot() == M.IgnoreOff(old(Snapshot()))
    {
      ignoring[depth] := ignoring[depth - 1];
    }

    /** Flush the line, fall back to the enclosing ignore flag, enter the state. */
    method Branch(l: Line, keep: bool, s: M.Ifstate) returns (p: M.Progress)
      requires Valid()
      modifies this`output, ifstate, ignoring
      ensures Valid() && p == M.Branch(old(Snapshot()), l, keep, s)
      ensures p.Running? ==> p.m == Snapshot()
    {
      Flush(l, keep);
      if depth == 0 { return M.Stopped(M.Bug, output); }
      IgnoreOff();
      SetState(s);
      p := M.Running(M.Machine(ifstate[..], ignoring[..], depth, output));
    }

    method First(l: Line, keep: bool, s: M.Ifstate) returns (p: M.Progress)
      requires Valid()
      modifies this`output, this`depth, ifstate, ignoring
      ensures Valid() && p == M.First(old(Snapshot()), l, keep, s)
      ensures p.Running? ==> p.m == Snapshot()
    {
      var ok := Nest();
      if !ok { return M.Stopped(M.TooDeep, output); }
      p := Branch(l, keep, s);
    }

    method FirstIgnoring(l: Line, keep: bool, s: M.Ifstate) returns (p: M.Progress)
      requires Valid()
      modifies this`output, this`depth, ifstate, ignoring
      ensures Valid() && p == M.WithIgnore(M.First(old(Snapshot()), l, keep, s))
      ensures p.Running? ==> p.m == Snapshot()
    {
      p := First(l, keep, s);
      if p.Running? {
        IgnoreOn();
        p := M.Running(M.Machine(ifstate[..], ignoring[..], depth, output));
      }
    }

    /** Flush, possibly an edited line, and enter the state; the ignore flag stays. */
    method Emit(l: Line, keep: bool, s: M.Ifstate) returns (p: M.Progress)
      requires Valid()
      modifies this`output, ifstate
      ensures Valid() && p == M.Running(M.SetState(M.Flush(old(Snapshot()), l, keep), s))
      ensures p.m == Snapshot()
    {
      Flush(l, keep);
      SetState(s);
      p := M.Running(M.Machine(ifstate[..], ignoring[..], depth, output));
    }

    method Close(l: Line, keep: bool) returns (p: M.Progress)
      requires Valid()
      modifies this`output, this`depth
      ensures Valid() && p == M.Unnest(M.Flush(old(Snapshot()), l, keep))
      ensures p.Running? ==> p.m == Snapshot()
    {
      Flush(l, keep);
      var ok := Unnest();
      p := if ok then M.Running(M.Machine(ifstate[..], ignoring[..], depth, output)) else M.Stopped(M.Bug, output);
    }

    method Perform(a: M.Action, l: Line) returns (p: M.Progress)
      requires Valid()
      modifies this`output, this`depth, ifstate, ignoring
      ensures Valid() && p == M.Perform(a, old(Snapshot()), l, iocccok)
      ensures p.Running? ==> p.m == Snapshot()
    {
      match a
      case Eelif => p := M.Stopped(M.InappropriateElif, output);
      case Eelse => p := M.Stopped(M.InappropriateElse, output);
      case Eendif => p := M.Stopped(M.InappropriateEndif, output);
      case Eeof => p := M.Stopped(M.PrematureEof, output);
      case Eioccc => p := M.Stopped(M.Obfuscated, output);
      case Done => p := M.Finished(output);
      case Abort => p := M.Stopped(M.Bug, output);
      case Print =>
        Flush(l, true);
        p := M.Running(M.Machine(ifstate[..], ignoring[..], depth, output));
      case Drop =>
        Flush(l, false);
        p := M.Running(M.Machine(ifstate[..], ignoring[..], depth, output));
      case Strue => p := Branch(l, false, M.TruePrefix);
      case Sfalse => p := Branch(l, false, M.FalsePrefix);
      case Selse => p := Emit(l, false, M.TrueElse);
      case Pelif => p := Branch(l, true, M.PassMiddle);
      case Pelse => p := Emit(l, true, M.PassElse);
      case Pendif => p := Close(l, true);
      case Dfalse => p := Branch(l, false, M.FalseTrailer);
      case Delif => p := Branch(l, false, M.FalseMiddle);
      case Delse => p := Emit(l, false, M.FalseElse);
      case Dendif => p := Close(l, false);
      case Fdrop => p := First(l, false, M.FalseTrailer);
      case Fpass => p := First(l, true, M.PassMiddle);
      case Ftrue => p := First(l, false, M.TruePrefix);
      case Ffalse => p := First(l, false, M.FalsePrefix);
      case Oiffy =>
        if !iocccok { return M.Stopped(M.Obfuscated, output); }
        p := FirstIgnoring(l, true, M.PassMiddle);
      case Oif =>
        if !iocccok { return M.Stopped(M.Obfuscated, output); }
        p := First(l, true, M.PassMiddle);
      case Oelif =>
        if !iocccok { return M.Stopped(M.Obfuscated, output); }
        p := Branch(l, true, M.PassMiddle);
      case Idrop => p := FirstIgnoring(l, false, M.FalseTrailer);
      case Itrue => p := FirstIgnoring(l, false, M.TruePrefix);
      case Ifalse => p := FirstIgnoring(l, false, M.FalsePrefix);
      case Mpass => p := Branch(M.AsIf(l), true, M.PassMiddle);
      case Mtrue => p := Emit(ElseLine, true, M.TrueMiddle);
      case Melif => p := Emit(EndifLine, true, M.FalseTrailer);
      case Melse => p := Emit(EndifLine, true, M.FalseElse);
    }

    /** The driver: every line through the table, then end of file. */
    method Process(xs: seq<M.Input>) returns (p: M.Progress)
      requires Valid() && Snapshot() == M.Start()
      modifies this`output, this`depth, ifstate, ignoring
      ensures p == M.Process(xs, iocccok)
    {
      hide M.Perform, M.Transition, M.Start;
      NothingRead(xs, iocccok);
      var k := 0;
      while k < |xs|
        invariant 0 <= k <= |xs| && Valid()
        invariant M.Consume(xs[..k], iocccok) == M.Running(Snapshot())
      {
        p := Perform(M.Transition(ifstate[depth], xs[k].lt), xs[k].line);
        OneMoreRead(xs, k, iocccok);
        if !p.Running? {
          StoppedStays(xs, k + 1, iocccok);
          return;
        }
        k := k + 1;
      }
      assert xs[..k] == xs;
      p := Perform(M.Transition(ifstate[depth], M.Eof), M.EndOfFile.line);
    }
  }

  lemma {:induction false} NothingRead(xs: seq<M.Input>, iocccok: bool)
    ensures M.Consume(xs[..0], iocccok) == M.Running(M.Start())
  {
  }

  lemma {:induction false} OneMoreRead(xs: seq<M.Input>, k: nat, iocccok: bool)
    requires k < |xs| && M.Consume(xs[..k], iocccok).Running?
    ensures var m := M.Consume(xs[..k], iocccok).m;
            M.Consume(xs[..k + 1], iocccok) == M.Perform(M.Transition(m.ifstate[m.depth], xs[k].lt), m, xs[k].line, iocccok)
  {
    assert Front(xs[..k + 1]) == xs[..k] && Last(xs[..k + 1]) == xs[k];
  }

  lemma {:induction false} StoppedStays(xs: seq<M.Input>, k: nat, iocccok: bool)
    requires k <= |xs| && !M.Consume(xs[..k], iocccok).Running?
    ensures M.Process(xs, iocccok) == M.Consume(xs[..k], iocccok)
    decreases |xs| - k
  {
    if k == |xs| {
      assert xs[..k] == xs;
    } else {
      assert Front(xs[..k + 1]) == xs[..k];
      StoppedStays(xs, k + 1, iocccok);
    }
  }
}
