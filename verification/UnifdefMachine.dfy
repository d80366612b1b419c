/** The state machine of scripts/unifdef.c: the transition table, the state
    functions it dispatches to, and the driver loop. */
module UnifdefMachine {
  import opened Preprocessor

  const MAXDEPTH: nat := 64

  datatype Kind = TrueI | FalseI | If | True | False | Elif | ElTrue | ElFalse | Else | Endif

  datatype Linetype = Directive(kind: Kind, dodgy: bool) | Plain | Eof | Unevaluable

  datatype Ifstate =
    | Outside
    | FalsePrefix   // false #if followed by false #elifs
    | TruePrefix    // first non-false #(el)if is true
    | PassMiddle    // first non-false #(el)if is unknown
    | FalseMiddle   // a false #elif after a pass state
    | TrueMiddle    // a true #elif after a pass state
    | PassElse      // an else after a pass state
    | FalseElse     // an else after a true state
    | TrueElse      // an else after only false states
    | FalseTrailer  // #elifs after a true are false

  datatype Action =
    | Eelif | Eelse | Eendif | Eeof | Eioccc
    | Print | Drop | Done | Abort
    | Strue | Sfalse | Selse
    | Pelif | Pelse | Pendif
    | Dfalse | Delif | Delse | Dendif
    | Fdrop | Fpass | Ftrue | Ffalse
    | Oiffy | Oif | Oelif
    | Idrop | Itrue | Ifalse
    | Mpass | Mtrue | Melif | Melse

  datatype Failure = InappropriateElif | InappropriateElse | InappropriateEndif
                   | PrematureEof | Obfuscated | TooDeep | Bug

  datatype Row = Row(trueI: Action, falseI: Action, ifUnknown: Action, ifTrue: Action, ifFalse: Action,
                     elif: Action, elTrue: Action, elFalse: Action, els: Action, endif: Action)

  function Pick(r: Row, k: Kind): Action {
    match k
    case TrueI => r.trueI
    case FalseI => r.falseI
    case If => r.ifUnknown
    case True => r.ifTrue
    case False => r.ifFalse
    case Elif => r.elif
    case ElTrue => r.elTrue
    case ElFalse => r.elFalse
    case Else => r.els
    case Endif => r.endif
  }

  /** Columns of whole directives. */
  function CleanRow(s: Ifstate): Row {
    match s
    case Outside =>
      Row(Itrue, Ifalse, Fpass, Ftrue, Ffalse, Eelif,  Eelif,  Eelif,  Eelse, Eendif)
    case FalsePrefix =>
      Row(Idrop, Idrop,  Fdrop, Fdrop, Fdrop,  Mpass,  Strue,  Sfalse, Selse, Dendif)
    case TruePrefix =>
      Row(Itrue, Ifalse, Fpass, Ftrue, Ffalse, Dfalse, Dfalse, Dfalse, Delse, Dendif)
    case PassMiddle =>
      Row(Itrue, Ifalse, Fpass, Ftrue, Ffalse, Pelif,  Mtrue,  Delif,  Pelse, Pendif)
    case FalseMiddle =>
      Row(Idrop, Idrop,  Fdrop, Fdrop, Fdrop,  Pelif,  Mtrue,  Delif,  Pelse, Pendif)
    case TrueMiddle =>
      Row(Itrue, Ifalse, Fpass, Ftrue, Ffalse, Melif,  Melif,  Melif,  Melse, Pendif)
    case PassElse =>
      Row(Itrue, Ifalse, Fpass, Ftrue, Ffalse, Eelif,  Eelif,  Eelif,  Eelse, Pendif)
    case FalseElse =>
      Row(Idrop, Idrop,  Fdrop, Fdrop, Fdrop,  Eelif,  Eelif,  Eelif,  Eelse, Dendif)
    case TrueElse =>
      Row(Itrue, Ifalse, Fpass, Ftrue, Ffalse, Eelif,  Eelif,  Eelif,  Eelse, Dendif)
    case FalseTrailer =>
      Row(Idrop, Idrop,  Fdrop, Fdrop, Fdrop,  Dfalse, Dfalse, Dfalse, Delse, Dendif)
  }

  /** Columns of directives spread over several lines. */
  function DodgyRow(s: Ifstate): Row {
    match s
    case Outside =>
      Row(Oiffy, Oiffy, Fpass, Oif,   Oif,   Eelif,  Eelif,  Eelif,  Eelse,  Eendif)
    case FalsePrefix =>
      Row(Idrop, Idrop, Fdrop, Fdrop, Fdrop, Mpass,  Eioccc, Eioccc, Eioccc, Eioccc)
    case TruePrefix =>
      Row(Oiffy, Oiffy, Fpass, Oif,   Oif,   Eioccc, Eioccc, Eioccc, Eioccc, Eioccc)
    case PassMiddle =>
      Row(Oiffy, Oiffy, Fpass, Oif,   Oif,   Pelif,  Oelif,  Oelif,  Pelse,  Pendif)
    case FalseMiddle =>
      Row(Idrop, Idrop, Fdrop, Fdrop, Fdrop, Eioccc, Eioccc, Eioccc, Eioccc, Eioccc)
    case TrueMiddle =>
      Row(Oiffy, Oiffy, Fpass, Oif,   Oif,   Eioccc, Eioccc, Eioccc, Eioccc, Pendif)
    case PassElse =>
      Row(Oiffy, Oiffy, Fpass, Oif,   Oif,   Eelif,  Eelif,  Eelif,  Eelse,  Pendif)
    case FalseElse =>
      Row(Idrop, Idrop, Fdrop, Fdrop, Fdrop, Eelif,  Eelif,  Eelif,  Eelse,  Eioccc)
    case TrueElse =>
      Row(Oiffy, Oiffy, Fpass, Oif,   Oif,   Eelif,  Eelif,  Eelif,  Eelse,  Eioccc)
    case FalseTrailer =>
      Row(Idrop, Idrop, Fdrop, Fdrop, Fdrop, Dfalse, Dfalse, Dfalse, Delse,  Eioccc)
  }

  /** States in which ordinary lines go to the output. */
  predicate Printing(s: Ifstate) {
    s.Outside? || s.TruePrefix? || s.PassMiddle? || s.TrueMiddle? || s.PassElse? || s.TrueElse?
  }

  function Transition(s: Ifstate, t: Linetype): Action {
    match t
    case Directive(k, dodgy) => Pick(if dodgy then DodgyRow(s) else CleanRow(s), k)
    case Plain => if Printing(s) then Print else Drop
    case Eof => if s.Outside? then Done else Eeof
    case Unevaluable => Abort
  }

  /** ifstate[], ignoring[], depth, and what has been written so far. */
  datatype Machine = Machine(ifstate: seq<Ifstate>, ignoring: seq<bool>, depth: nat, output: seq<Line>)

  predicate Valid(m: Machine) {
    |m.ifstate| == MAXDEPTH && |m.ignoring| == MAXDEPTH && m.depth < MAXDEPTH
  }

  datatype Progress =
    | Running(m: Machine)
    | Stopped(why: Failure, output: seq<Line>)
    | Finished(output: seq<Line>)

  function Fill<T>(n: nat, x: T): (s: seq<T>)
    ensures |s| == n && forall i | 0 <= i < n :: s[i] == x
  {
    if n == 0 then [] else Fill(n - 1, x) + [x]
  }

  function Start(): Machine {
    Machine(Fill(MAXDEPTH, Outside), Fill(MAXDEPTH, false), 0, [])
  }

  function Flush(m: Machine, l: Line, keep: bool): Machine {
    if keep then m.(output := m.output + [l]) else m
  }

  function SetState(m: Machine, s: Ifstate): (r: Machine)
    requires Valid(m)
    ensures Valid(r)
  {
    m.(ifstate := m.ifstate[m.depth := s])
  }

  function IgnoreOn(m: Machine): (r: Machine)
    requires Valid(m)
    ensures Valid(r)
  {
    m.(ignoring := m.ignoring[m.depth := true])
  }

  function IgnoreOff(m: Machine): (r: Machine)
    requires Valid(m) && m.depth > 0
    ensures Valid(r)
  {
    m.(ignoring := m.ignoring[m.depth := m.ignoring[m.depth - 1]])
  }

  /** drop() or print(), ignoreoff(), state(s): the body shared by S*, P* and D* functions. */
  function Branch(m: Machine, l: Line, keep: bool, s: Ifstate): (r: Progress)
    requires Valid(m)
    ensures r.Running? ==> Valid(r.m)
  {
    if m.depth == 0 then Stopped(Bug, Flush(m, l, keep).output)
    else Running(SetState(IgnoreOff(Flush(m, l, keep)), s))
  }

  function Nest(m: Machine): (r: Progress)
    requires Valid(m)
    ensures r.Running? ==> Valid(r.m)
  {
    if m.depth == MAXDEPTH - 1 then Stopped(TooDeep, m.output)
    else Running(m.(depth := m.depth + 1))
  }

  function Unnest(m: Machine): (r: Progress)
    requires Valid(m)
    ensures r.Running? ==> Valid(r.m)
  {
    if m.depth == 0 then Stopped(Bug, m.output) else Running(m.(depth := m.depth - 1))
  }

  function First(m: Machine, l: Line, keep: bool, s: Ifstate): (r: Progress)
    requires Valid(m)
    ensures r.Running? ==> Valid(r.m)
  {
    match Nest(m)
    case Running(n) => Branch(n, l, keep, s)
    case other => other
  }

  function WithIgnore(p: Progress): (r: Progress)
    requires p.Running? ==> Valid(p.m)
    ensures r.Running? ==> Valid(r.m)
  {
    if p.Running? then Running(IgnoreOn(p.m)) else p
  }

  function AsIf(l: Line): Line {
    if l.ElifLine? then IfLine(l.c) else l
  }

  function Perform(a: Action, m: Machine, l: Line, iocccok: bool): (r: Progress)
    requires Valid(m)
    ensures r.Running? ==> Valid(r.m)
  {
    match a
    case Eelif => Stopped(InappropriateElif, m.output)
    case Eelse => Stopped(InappropriateElse, m.output)
    case Eendif => Stopped(InappropriateEndif, m.output)
    case Eeof => Stopped(PrematureEof, m.output)
    case Eioccc => Stopped(Obfuscated, m.output)
    case Done => Finished(m.output)
    case Abort => Stopped(Bug, m.output)
    case Print => Running(Flush(m, l, true))
    case Drop => Running(Flush(m, l, false))
    case Strue => Branch(m, l, false, TruePrefix)
    case Sfalse => Branch(m, l, false, FalsePrefix)
    case Selse => Running(SetState(Flush(m, l, false), TrueElse))
    case Pelif => Branch(m, l, true, PassMiddle)
    case Pelse => Running(SetState(Flush(m, l, true), PassElse))
    case Pendif => Unnest(Flush(m, l, true))
    case Dfalse => Branch(m, l, false, FalseTrailer)
    case Delif => Branch(m, l, false, FalseMiddle)
    case Delse => Running(SetState(Flush(m, l, false), FalseElse))
    case Dendif => Unnest(Flush(m, l, false))
    case Fdrop => First(m, l, false, FalseTrailer)
    case Fpass => First(m, l, true, PassMiddle)
    case Ftrue => First(m, l, false, TruePrefix)
    case Ffalse => First(m, l, false, FalsePrefix)
    case Oiffy => if iocccok then WithIgnore(First(m, l, true, PassMiddle)) else Stopped(Obfuscated, m.output)
    case Oif => if iocccok then First(m, l, true, PassMiddle) else Stopped(Obfuscated, m.output)
    case Oelif => if iocccok then Branch(m, l, true, PassMiddle) else Stopped(Obfuscated, m.output)
    case Idrop => WithIgnore(First(m, l, false, FalseTrailer))
    case Itrue => WithIgnore(First(m, l, false, TruePrefix))
    case Ifalse => WithIgnore(First(m, l, false, FalsePrefix))
    case Mpass => Branch(m, AsIf(l), true, PassMiddle)
    case Mtrue => Running(SetState(Flush(m, ElseLine, true), TrueMiddle))
    case Melif => Running(SetState(Flush(m, EndifLine, true), FalseTrailer))
    case Melse => Running(SetState(Flush(m, EndifLine, true), FalseElse))
  }

  /** An input line as parseline() hands it over. */
  datatype Input = Input(line: Line, lt: Linetype)

  function Step(m: Machine, x: Input, iocccok: bool): (r: Progress)
    requires Valid(m)
    ensures r.Running? ==> Valid(r.m)
  {
    Perform(Transition(m.ifstate[m.depth], x.lt), m, x.line, iocccok)
  }

  /** The driver loop over the lines read so far. */
  function Consume(xs: seq<Input>, iocccok: bool): (r: Progress)
    ensures r.Running? ==> Valid(r.m)
  {
    if xs == [] then Running(Start())
    else
      match Consume(Front(xs), iocccok)
      case Running(m) => Step(m, Last(xs), iocccok)
      case other => other
  }

  const EndOfFile := Input(EndifLine, Eof)

  /** A whole run: every line, then LT_EOF. */
  function Process(xs: seq<Input>, iocccok: bool): Progress {
    match Consume(xs, iocccok)
    case Running(m) => Step(m, EndOfFile, iocccok)
    case other => other
  }

  /** Does the line type describe this line at all? */
  predicate Classified(x: Input) {
    match x.lt
    case Directive(k, _) =>
      (match k
       case TrueI => x.line.IfLine?
       case FalseI => x.line.IfLine?
       case If => x.line.IfLine?
       case True => x.line.IfLine?
       case False => x.line.IfLine?
       case Elif => x.line.ElifLine?
       case ElTrue => x.line.ElifLine?
       case ElFalse => x.line.ElifLine?
       case Else => x.line.ElseLine?
       case Endif => x.line.EndifLine?)
    case Plain => x.line.TextLine?
    case Eof => false
    case Unevaluable => false
  }

  /** The truth assignment agrees with every condition unifdef claims to know. */
  predicate Respects(x: Input, truth: Cond -> bool)
    requires Classified(x)
  {
    match x.lt
    case Directive(k, _) =>
      (match k
       case TrueI => truth(x.line.c)
       case True => truth(x.line.c)
       case ElTrue => truth(x.line.c)
       case FalseI => !truth(x.line.c)
       case False => !truth(x.line.c)
       case ElFalse => !truth(x.line.c)
       case _ => true)
    case _ => true
  }

  function Sources(xs: seq<Input>): (ls: seq<Line>)
    ensures |ls| == |xs| && forall i | 0 <= i < |xs| :: ls[i] == xs[i].line
  {
    if xs == [] then [] else Sources(Front(xs)) + [Last(xs).line]
  }
}
