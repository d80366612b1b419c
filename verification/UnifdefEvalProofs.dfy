/** What the evaluator's answers mean: expressions, their values in C, and the
    theorems that relate the two. */
module UnifdefEvalProofs {
  import opened Options
  import opened Preprocessor
  import opened UnifdefEval

  /** Abstract syntax. Odd is what unifdef tolerates after `defined` beyond a name. */
  datatype Expr =
    | Lit(n: nat)
    | IsDef(paren: bool, name: Name)
    | Odd(paren: bool, arg: seq<Token>)
    | Sym(name: Name, args: seq<Token>)
    | Not(e: Expr)
    | Paren(e: Expr)
    | Bin(op: Op, l: Expr, r: Expr)

  function Toks(e: Expr): (ts: seq<Token>)
    ensures ts != []
  {
    match e
    case Lit(n) => [Number(n)]
    case IsDef(paren, x) => if paren then [Defined, LParen, Ident(x), RParen] else [Defined, Ident(x)]
    case Odd(paren, arg) => if paren then [Defined, LParen] + arg + [RParen] else [Defined] + arg
    case Sym(x, args) => [Ident(x)] + args
    case Not(e) => [Bang] + Toks(e)
    case Paren(e) => [LParen] + Toks(e) + [RParen]
    case Bin(op, l, r) => Toks(l) + [Operator(op)] + Toks(r)
  }

  /** args is one complete parenthesised list. */
  predicate IsArgs(args: seq<Token>) {
    args != [] && args[0].LParen? && MatchEnd(args, 0) == Some(|args|)
  }

  /** e can stand, without further parentheses, where row lvl of the table is parsed. */
  predicate Fits(e: Expr, lvl: nat) {
    match e
    case Bin(op, l, r) => lvl <= LevelOf(op) && Fits(l, LevelOf(op)) && Fits(r, LevelOf(op) + 1)
    case Not(e) => Fits(e, UNARY)
    case Paren(e) => Fits(e, 0)
    case Sym(_, args) => args == [] || IsArgs(args)
    case _ => true
  }

  /** An expression of C proper: no Odd parts, and no argument list after a symbol
      that is known to be undefined. */
  predicate Proper(c: Config, e: Expr) {
    match e
    case Odd(_, _) => false
    case Sym(x, args) => args == [] || x !in c.syms || !c.syms[x].Undefined?
    case Not(e) => Proper(c, e)
    case Paren(e) => Proper(c, e)
    case Bin(_, l, r) => Proper(c, l) && Proper(c, r)
    case _ => true
  }

  /** What the compiler will eventually know about every symbol. */
  datatype Completion = Completion(def: Name -> bool, val: (Name, seq<Token>) -> int, odd: seq<Token> -> int)

  /** The value of an expression in C once every symbol is settled. */
  function CValue(c: Config, k: Completion, e: Expr): int {
    match e
    case Lit(n) => n
    case IsDef(_, x) => OfBool(if x in c.syms then c.syms[x].Value? else k.def(x))
    case Odd(_, arg) => k.odd(arg)
    case Sym(x, args) =>
      if x !in c.syms then k.val(x, args)
      else (match c.syms[x]
            case Undefined => 0
            case Value(None) => k.val(x, args)
            case Value(Some(v)) => v)
    case Not(e) => OfBool(CValue(c, k, e) == 0)
    case Paren(e) => CValue(c, k, e)
    case Bin(op, l, r) => Apply(op, CValue(c, k, l), CValue(c, k, r))
  }

  /** Every number the expression uses, literal or from -D, fits an int. */
  predicate SmallNumbers(c: Config, e: Expr) {
    match e
    case Lit(n) => n < INT_LIMIT
    case Sym(x, _) =>
      x in c.syms && c.syms[x].Value? && c.syms[x].number.Some? ==>
        -INT_LIMIT <= c.syms[x].number.value < INT_LIMIT
    case Not(e) => SmallNumbers(c, e)
    case Paren(e) => SmallNumbers(c, e)
    case Bin(_, l, r) => SmallNumbers(c, l) && SmallNumbers(c, r)
    case _ => true
  }

  /** Three-valued evaluation on the syntax tree. */
  datatype Res = Bad | Good(lt: Truth, val: int, constant: bool)

  function Eval3(c: Config, e: Expr): Res {
    match e
    case Lit(n) => Good(OfInt(ToInt(n)), ToInt(n), true)
    case IsDef(_, x) => var (lt, v) := IsDefined(c, Some(x)); Good(lt, v, false)
    case Odd(_, _) => Good(U, 0, false)
    case Sym(x, _) =>
      if x !in c.syms then Good(U, 0, false)
      else (match c.syms[x]
            case Undefined => Good(F, 0, false)
            case Value(None) => Bad
            case Value(Some(v)) => Good(OfInt(ToInt(v)), ToInt(v), false))
    case Not(e) =>
      (match Eval3(c, e)
       case Bad => Bad
       case Good(lt, v, k) => if lt.U? then Good(U, v, k) else Good(OfInt(OfBool(v == 0)), OfBool(v == 0), k))
    case Paren(e) => Eval3(c, e)
    case Bin(op, l, r) =>
      (match (Eval3(c, l), Eval3(c, r))
       case (Good(lt, lv, lk), Good(rt, rv, rk)) =>
         var (t, v) := Combine(op, c.strictlogic, lt, lv, rt, rv);
         Good(t, v, lk && rk)
       case _ => Bad)
  }

  function Lift(r: Res, rest: seq<Token>): Eval {
    match r
    case Bad => Err
    case Good(lt, v, k) => Ok(lt, v, rest, k)
  }

  /** What may follow an operand of row lvl. */
  predicate Ends(rest: seq<Token>, lvl: nat) {
    rest == [] || (!rest[0].LParen? && (rest[0].Operator? ==> LevelOf(rest[0].op) < lvl))
  }

  lemma {:induction false} MatchEndPrefix(a: seq<Token>, b: seq<Token>, level: nat)
    requires MatchEnd(a, level).Some?
    ensures MatchEnd(a + b, level) == MatchEnd(a, level)
    decreases |a|
  {
    var here := if a[0].LParen? then level + 1 else if a[0].RParen? then level - 1 else level;
    assert (a + b)[0] == a[0];
    if here > 0 {
      assert (a + b)[1..] == a[1..] + b;
      MatchEndPrefix(a[1..], b, here);
    }
  }

  lemma {:induction false} ReadsSymbol(c: Config, e: Expr, rest: seq<Token>)
    requires e.Sym? && Fits(e, UNARY) && Proper(c, e) && (e.args == [] ==> Ends(rest, UNARY))
    ensures EvalUnary(c, Toks(e) + rest) == Lift(Eval3(c, e), rest)
  {
    var ts := Toks(e) + rest;
    assert ts[0] == Ident(e.name);
    assert ts[1..] == e.args + rest;
    if e.args != [] {
      MatchEndPrefix(e.args, rest, 0);
      assert (e.args + rest)[0].LParen?;
      assert SkipArgs(ts[1..]) == |e.args|;
    } else {
      assert e.args + rest == rest;
      assert SkipArgs(ts[1..]) == 0;
    }
    assert ts[1 + |e.args|..] == rest;
  }

  lemma {:induction false} ReadsDefined(c: Config, e: Expr, rest: seq<Token>)
    requires e.IsDef?
    ensures EvalUnary(c, Toks(e) + rest) == Lift(Eval3(c, e), rest)
  {
    hide EvalTable;
    var ts := Toks(e) + rest;
    if e.paren {
      assert ts[2..] == [Ident(e.name), RParen] + rest;
      assert ts[2..][1..] == [RParen] + rest;
      assert ts[2..][1..][1..] == rest;
    } else {
      assert ts[1..] == [Ident(e.name)] + rest;
      assert ts[1..][1..] == rest;
    }
  }

  /** One turn of eval_table's loop. */
  lemma {:induction false} LoopTurn(c: Config, lvl: nat, a: Res, op: Op, b: Res, mid: seq<Token>, rest: seq<Token>)
    requires lvl < UNARY && LevelOf(op) == lvl && a.Good?
    requires EvalTable(c, lvl + 1, mid) == Lift(b, rest)
    ensures EvalLoop(c, lvl, a.lt, a.val, a.constant, [Operator(op)] + mid) ==
            if b.Bad? then Err
            else
              var (t, v) := Combine(op, c.strictlogic, a.lt, a.val, b.lt, b.val);
              EvalLoop(c, lvl, t, v, a.constant && b.constant, rest)
  {
    var ts := [Operator(op)] + mid;
    assert ts[1..] == mid;
  }

  lemma {:induction false} LoopStops(c: Config, lvl: nat, a: Res, rest: seq<Token>)
    requires lvl < UNARY && a.Good? && Ends(rest, lvl)
    ensures EvalLoop(c, lvl, a.lt, a.val, a.constant, rest) == Lift(a, rest)
  {
  }

  function Resume(c: Config, lvl: nat, a: Res, rest: seq<Token>): Eval
    requires lvl < UNARY
  {
    if a.Bad? then Err else EvalLoop(c, lvl, a.lt, a.val, a.constant, rest)
  }

  lemma TableIsInnerThenLoop(c: Config, lvl: nat, ts: seq<Token>, a: Res, rest: seq<Token>)
    requires lvl < UNARY && EvalTable(c, lvl + 1, ts) == Lift(a, rest)
    ensures EvalTable(c, lvl, ts) == Resume(c, lvl, a, rest)
  {
  }

  /** The recursive descent reads back exactly the expression that was written: on
      the tokens of e followed by anything that may follow it, eval_table has e's
      value in hand and goes on with its loop right after e. */
  lemma {:induction false} ReadsBack(c: Config, e: Expr, lvl: nat, rest: seq<Token>)
    requires lvl < UNARY && Fits(e, lvl) && Proper(c, e) && Ends(rest, lvl + 1)
    ensures EvalTable(c, lvl, Toks(e) + rest) == Resume(c, lvl, Eval3(c, e), rest)
    decreases e, UNARY - lvl, 0
  {
    hide EvalTable, EvalUnary, EvalLoop, Eval3, Toks, Resume, Proper, Fits, Ends;
    if e.Bin? && LevelOf(e.op) == lvl {
      var mid := Toks(e.r) + rest;
      var tail := [Operator(e.op)] + mid;
      BinParts(c, e, lvl, rest);
      ReadsBack(c, e.l, lvl, tail);
      ReadsOperand(c, e.r, lvl + 1, rest);
      BinReads(c, e, lvl, rest);
    } else {
      FitsInner(e, lvl);
      ReadsOperand(c, e, lvl + 1, rest);
      TableIsInnerThenLoop(c, lvl, Toks(e) + rest, Eval3(c, e), rest);
    }
  }

  /** An operator of this level: what the two sides must satisfy to be read back. */
  lemma BinParts(c: Config, e: Expr, lvl: nat, rest: seq<Token>)
    requires e.Bin? && LevelOf(e.op) == lvl && lvl < UNARY && Fits(e, lvl) && Proper(c, e) && Ends(rest, lvl + 1)
    ensures var tail := [Operator(e.op)] + (Toks(e.r) + rest);
            && Toks(e) + rest == Toks(e.l) + tail && Fits(e.l, lvl) && Proper(c, e.l) && Ends(tail, lvl + 1)
            && Fits(e.r, lvl + 1) && Proper(c, e.r)
  {
  }

  lemma FitsInner(e: Expr, lvl: nat)
    requires lvl < UNARY && Fits(e, lvl) && !(e.Bin? && LevelOf(e.op) == lvl)
    ensures Fits(e, lvl + 1)
  {
  }

  lemma BinReads(c: Config, e: Expr, lvl: nat, rest: seq<Token>)
    requires e.Bin? && LevelOf(e.op) == lvl && lvl < UNARY
    requires var mid := Toks(e.r) + rest; var tail := [Operator(e.op)] + mid;
             && Toks(e) + rest == Toks(e.l) + tail
             && EvalTable(c, lvl, Toks(e.l) + tail) == Resume(c, lvl, Eval3(c, e.l), tail)
             && EvalTable(c, lvl + 1, mid) == Lift(Eval3(c, e.r), rest)
    ensures EvalTable(c, lvl, Toks(e) + rest) == Resume(c, lvl, Eval3(c, e), rest)
  {
    hide EvalTable, Toks;
    if Eval3(c, e.l).Good? {
      LoopTurn(c, lvl, Eval3(c, e.l), e.op, Eval3(c, e.r), Toks(e.r) + rest, rest);
    }
  }

  lemma {:induction false} ReadsOperand(c: Config, e: Expr, lvl: nat, rest: seq<Token>)
    requires lvl <= UNARY && Fits(e, lvl) && Proper(c, e) && Ends(rest, lvl)
    ensures EvalTable(c, lvl, Toks(e) + rest) == Lift(Eval3(c, e), rest)
    decreases e, UNARY - lvl, 1
  {
    if lvl < UNARY {
      ReadsBack(c, e, lvl, rest);
      if Eval3(c, e).Good? {
        LoopStops(c, lvl, Eval3(c, e), rest);
      }
    } else {
      ReadsUnary(c, e, rest);
    }
  }

  lemma {:induction false} ReadsUnary(c: Config, e: Expr, rest: seq<Token>)
    requires Fits(e, UNARY) && Proper(c, e) && Ends(rest, UNARY)
    ensures EvalUnary(c, Toks(e) + rest) == Lift(Eval3(c, e), rest)
    decreases e, 0, 0
  {
    hide EvalTable, EvalUnary, EvalLoop, Eval3, Proper, Fits, Ends;
    UnaryForms(c, e);
    match e
    case Lit(n) => ReadsLit(c, e, rest);
    case IsDef(_, _) => ReadsDefined(c, e, rest);
    case Sym(_, _) => ReadsSymbol(c, e, rest);
    case Not(a) =>
      UnaryParts(c, e, rest);
      ReadsUnary(c, a, rest);
      ReadsNot(c, e, rest);
    case Paren(a) =>
      UnaryParts(c, e, rest);
      ReadsOperand(c, a, 0, [RParen] + rest);
      ReadsParen(c, e, rest);
  }

  lemma {:induction false} UnaryForms(c: Config, e: Expr)
    requires Fits(e, UNARY) && Proper(c, e)
    ensures !e.Bin? && !e.Odd?
  {
  }

  lemma {:induction false} UnaryParts(c: Config, e: Expr, rest: seq<Token>)
    requires Fits(e, UNARY) && Proper(c, e) && Ends(rest, UNARY)
    ensures e.Not? ==> Fits(e.e, UNARY) && Proper(c, e.e)
    ensures e.Paren? ==> Fits(e.e, 0) && Proper(c, e.e) && Ends([RParen] + rest, 0)
  {
  }

  lemma {:induction false} ReadsLit(c: Config, e: Expr, rest: seq<Token>)
    requires e.Lit? && Proper(c, e) && Ends(rest, UNARY)
    ensures EvalUnary(c, Toks(e) + rest) == Lift(Eval3(c, e), rest)
  {
    assert (Toks(e) + rest)[1..] == rest;
  }

  lemma {:induction false} ReadsNot(c: Config, e: Expr, rest: seq<Token>)
    requires e.Not? && EvalUnary(c, Toks(e.e) + rest) == Lift(Eval3(c, e.e), rest)
    ensures EvalUnary(c, Toks(e) + rest) == Lift(Eval3(c, e), rest)
  {
    hide EvalTable, EvalDefined, EvalSymbol;
    assert (Toks(e) + rest)[0].Bang?;
    assert (Toks(e) + rest)[1..] == Toks(e.e) + rest;
  }

  lemma {:induction false} ReadsParen(c: Config, e: Expr, rest: seq<Token>)
    requires e.Paren? && EvalTable(c, 0, Toks(e.e) + ([RParen] + rest)) == Lift(Eval3(c, e.e), [RParen] + rest)
    ensures EvalUnary(c, Toks(e) + rest) == Lift(Eval3(c, e), rest)
  {
    hide EvalTable, EvalDefined, EvalSymbol;
    assert (Toks(e) + rest)[0].LParen?;
    assert (Toks(e) + rest)[1..] == Toks(e.e) + ([RParen] + rest);
    assert ([RParen] + rest)[1..] == rest;
  }

  /** A known value is the value C computes, whatever the unknown symbols turn out to be. */
  lemma {:induction false} KnownIsExact(c: Config, k: Completion, e: Expr)
    requires SmallNumbers(c, e) && Eval3(c, e).Good? && !Eval3(c, e).lt.U?
    ensures Eval3(c, e).val == CValue(c, k, e) && Eval3(c, e).lt == OfInt(CValue(c, k, e))
  {
    match e
    case Not(a) => KnownIsExact(c, k, a);
    case Paren(a) => KnownIsExact(c, k, a);
    case Bin(op, l, r) =>
      if !Eval3(c, l).lt.U? { KnownIsExact(c, k, l); }
      if !Eval3(c, r).lt.U? { KnownIsExact(c, k, r); }
    case _ =>
  }

  /** Answers TRUE and FALSE are right on every completion. */
  ghost predicate Sound(c: Config, e: Expr) {
    && (Classify(c, Toks(e)) == T ==> forall k: Completion :: CValue(c, k, e) != 0)
    && (Classify(c, Toks(e)) == F ==> forall k: Completion :: CValue(c, k, e) == 0)
  }

  lemma {:induction false} ClassifyReads(c: Config, e: Expr)
    requires Fits(e, 0) && Proper(c, e)
    ensures EvalTable(c, 0, Toks(e)) == Lift(Eval3(c, e), [])
    ensures var r := Eval3(c, e);
            Classify(c, Toks(e)) == if r.Bad? || (r.constant && !c.killconsts) then U else r.lt
  {
    assert Toks(e) + [] == Toks(e);
    ReadsOperand(c, e, 0, []);
  }

  /** For every expression over int-sized numbers, in both modes: TRUE only when every
      completion of the unknown symbols makes it non-zero, FALSE only when every
      completion makes it zero. */
  lemma {:induction false} AnswersAreSound(c: Config, e: Expr)
    requires Fits(e, 0) && Proper(c, e) && SmallNumbers(c, e)
    ensures Sound(c, e)
  {
    ClassifyReads(c, e);
    forall k: Completion
      ensures Eval3(c, e).Good? && !Eval3(c, e).lt.U? ==> Eval3(c, e).lt == OfInt(CValue(c, k, e))
    {
      if Eval3(c, e).Good? && !Eval3(c, e).lt.U? { KnownIsExact(c, k, e); }
    }
  }

  /** All literals of the expression satisfy p. */
  predicate Literals(e: Expr, p: nat -> bool) {
    match e
    case Lit(n) => p(n)
    case Not(e) => Literals(e, p)
    case Paren(e) => Literals(e, p)
    case Bin(_, l, r) => Literals(l, p) && Literals(r, p)
    case _ => true
  }

  /** No symbol is involved. */
  predicate Closed(e: Expr) {
    match e
    case Lit(n) => true
    case Not(e) => Closed(e)
    case Paren(e) => Closed(e)
    case Bin(_, l, r) => Closed(l) && Closed(r)
    case _ => false
  }

  /** An expression that a literal too big for an int turns into a lie. */
  function Witness(n: nat): Expr {
    if ToInt(n) >= 0 then Bin(EqOp, Lit(n), Lit(ToInt(n))) else Bin(LtOp, Lit(n), Lit(0))
  }

  lemma WitnessLies(c: Config, n: nat)
    requires n >= INT_LIMIT && c.killconsts
    ensures Fits(Witness(n), 0) && Closed(Witness(n)) && Literals(Witness(n), m => m == n || m < INT_LIMIT)
    ensures !Sound(c, Witness(n))
  {
    var e := Witness(n);
    var k := Completion(x => false, (x, ts) => 0, ts => 0);
    ClassifyReads(c, e);
    assert Eval3(c, e).lt == T;
    assert CValue(c, k, e) == 0;
  }

  lemma {:induction false} SmallLiterals(c: Config, e: Expr, n: nat)
    requires n < INT_LIMIT && Closed(e) && Literals(e, m => m == n || m < INT_LIMIT)
    ensures SmallNumbers(c, e) && Proper(c, e)
  {
    match e
    case Not(a) => SmallLiterals(c, a, n);
    case Paren(a) => SmallLiterals(c, a, n);
    case Bin(_, l, r) => SmallLiterals(c, l, n); SmallLiterals(c, r, n);
    case _ =>
  }

  /** Soundness is lost with exactly the literals that do not fit an int: with -k, a
      literal n may be used freely in constant expressions iff n < 2^31. */
  lemma ConstantRange(c: Config, n: nat)
    requires c.killconsts
    ensures (forall e: Expr :: Fits(e, 0) && Closed(e) && Literals(e, m => m == n || m < INT_LIMIT) ==> Sound(c, e))
            <==> n < INT_LIMIT
  {
    if n < INT_LIMIT {
      forall e: Expr | Fits(e, 0) && Closed(e) && Literals(e, m => m == n || m < INT_LIMIT)
        ensures Sound(c, e)
      {
        SmallLiterals(c, e, n);
        AnswersAreSound(c, e);
      }
    } else {
      WitnessLies(c, n);
    }
  }

  /** The numbers given with -D to the symbols of the expression fit an int. */
  predicate SmallSymbols(c: Config, e: Expr) {
    match e
    case Sym(x, _) =>
      x in c.syms && c.syms[x].Value? && c.syms[x].number.Some? ==> -INT_LIMIT <= c.syms[x].number.value < INT_LIMIT
    case Not(e) => SmallSymbols(c, e)
    case Paren(e) => SmallSymbols(c, e)
    case Bin(_, l, r) => SmallSymbols(c, l) && SmallSymbols(c, r)
    case _ => true
  }

  /** Every number in the expression fits an int or is the literal n. */
  predicate UsesOnly(c: Config, e: Expr, n: nat) {
    Literals(e, m => m == n || m < INT_LIMIT) && SmallSymbols(c, e)
  }

  lemma {:induction false} SmallUses(c: Config, e: Expr, n: nat)
    requires n < INT_LIMIT && UsesOnly(c, e, n)
    ensures SmallNumbers(c, e)
  {
    match e
    case Not(a) => SmallUses(c, a, n);
    case Paren(a) => SmallUses(c, a, n);
    case Bin(_, l, r) => SmallUses(c, l, n); SmallUses(c, r, n);
    case _ =>
  }

  /** Without -k, with -K, and with no symbol given, nothing is ever answered. */
  predicate Mute(c: Config) {
    !c.killconsts && c.strictlogic && c.syms == map[]
  }

  lemma {:induction false} MuteKnowsConstants(c: Config, e: Expr)
    requires Mute(c) && Eval3(c, e).Good? && !Eval3(c, e).lt.U?
    ensures Eval3(c, e).constant
  {
    match e
    case Not(a) => MuteKnowsConstants(c, a);
    case Paren(a) => MuteKnowsConstants(c, a);
    case Bin(_, l, r) => MuteKnowsConstants(c, l); MuteKnowsConstants(c, r);
    case _ =>
  }

  /** Whatever is on the line. */
  lemma {:induction false} MuteAnswersNothing(c: Config, ts: seq<Token>)
    requires Mute(c)
    ensures Classify(c, ts).U?
  {
    hide EvalTable, Eval3, Fits, Toks;
    if EvalTable(c, 0, ts).Ok? {
      var e := AcceptsOnlyExpressions(c, 0, ts);
      if !Eval3(c, e).lt.U? { MuteKnowsConstants(c, e); }
    }
  }

  /** The lie joined with a symbol that nothing is known about, */
  function DoubtedWitness(n: nat, x: Name): Expr {
    Bin(OrOp, Sym(x, []), Witness(n))
  }

  /** or with one of which it is known whether it is defined. */
  function BackedWitness(n: nat, x: Name): Expr {
    Bin(AndOp, Witness(n), Bin(EqOp, IsDef(true, x), IsDef(true, x)))
  }

  /** Whatever -k says, a symbol makes the lie one that is told. */
  lemma {:induction false} DoubtedLies(c: Config, n: nat, x: Name)
    requires n >= INT_LIMIT && !c.strictlogic && x !in c.syms
    ensures var e := DoubtedWitness(n, x); Fits(e, 0) && Proper(c, e) && UsesOnly(c, e, n) && !Sound(c, e)
  {
    var e := DoubtedWitness(n, x);
    var k := Completion(x => false, (x, ts) => 0, ts => 0);
    WitnessValues(c, k, n);
    ClassifyReads(c, e);
    assert Eval3(c, e) == Good(T, 1, false);
    assert CValue(c, k, e) == 0;
  }

  lemma {:induction false} BackedLies(c: Config, n: nat, x: Name)
    requires n >= INT_LIMIT && x in c.syms
    ensures var e := BackedWitness(n, x); Fits(e, 0) && Proper(c, e) && UsesOnly(c, e, n) && !Sound(c, e)
  {
    var e := BackedWitness(n, x);
    var k := Completion(x => false, (x, ts) => 0, ts => 0);
    WitnessValues(c, k, n);
    var d := IsDef(true, x);
    assert Fits(d, 3) && Proper(c, d) && UsesOnly(c, d, n);
    assert Fits(Bin(EqOp, d, d), 2) && Proper(c, Bin(EqOp, d, d)) && UsesOnly(c, Bin(EqOp, d, d), n);
    assert Eval3(c, Bin(EqOp, d, d)) == Good(T, 1, false);
    ClassifyReads(c, e);
    assert Eval3(c, e) == Good(T, 1, false);
    assert CValue(c, k, e) == 0;
  }

  lemma {:induction false} WitnessValues(c: Config, k: Completion, n: nat)
    requires n >= INT_LIMIT
    ensures Eval3(c, Witness(n)) == Good(T, 1, true) && CValue(c, k, Witness(n)) == 0
    ensures Fits(Witness(n), 2) && Proper(c, Witness(n)) && UsesOnly(c, Witness(n), n)
  {
  }

  /** There is always a symbol that nothing is known about. */
  lemma {:induction false} SomeUnknown(names: set<Name>) returns (x: Name)
    ensures forall y | y in names :: y < x
  {
    if names == {} {
      x := 0;
    } else {
      var y :| y in names;
      var z := SomeUnknown(names - {y});
      x := if y < z then z else y + 1;
      assert names == (names - {y}) + {y};
    }
  }

  lemma {:induction false} AnswersNothing(c: Config, e: Expr)
    requires Classify(c, Toks(e)).U?
    ensures Sound(c, e)
  {
    hide Classify, Toks;
  }

  /** With whatever options and symbols, a literal n may be used freely iff it fits an int, or unifdef answers
      nothing at all. */
  lemma {:induction false} LiteralRange(c: Config, n: nat)
    ensures (forall e: Expr :: Fits(e, 0) && Proper(c, e) && UsesOnly(c, e, n) ==> Sound(c, e)) <==> n < INT_LIMIT || Mute(c)
  {
    hide Sound, Fits, Proper, UsesOnly;
    if n < INT_LIMIT || Mute(c) {
      forall e: Expr | Fits(e, 0) && Proper(c, e) && UsesOnly(c, e, n) ensures Sound(c, e) {
        if Mute(c) {
          MuteAnswersNothing(c, Toks(e));
          AnswersNothing(c, e);
        } else {
          SmallUses(c, e, n);
          AnswersAreSound(c, e);
        }
      }
    } else if c.killconsts {
      WitnessLies(c, n);
      WitnessValues(c, Completion(x => false, (x, ts) => 0, ts => 0), n);
    } else if !c.strictlogic {
      var x := SomeUnknown(c.syms.Keys);
      assert x !in c.syms.Keys;
      DoubtedLies(c, n, x);
    } else {
      var x :| x in c.syms;
      BackedLies(c, n, x);
    }
  }

  /** Every symbol in the expression has a known meaning. */
  predicate AllKnown(c: Config, e: Expr) {
    match e
    case Lit(_) => true
    case IsDef(_, x) => x in c.syms
    case Odd(_, _) => false
    case Sym(x, _) => x in c.syms
    case Not(e) => AllKnown(c, e)
    case Paren(e) => AllKnown(c, e)
    case Bin(_, l, r) => AllKnown(c, l) && AllKnown(c, r)
  }

  /** -K keeps exactly the expressions that mention an unknown symbol. */
  lemma {:induction false} StrictKnowsExactly(c: Config, e: Expr)
    requires c.strictlogic && Eval3(c, e).Good?
    ensures Eval3(c, e).lt.U? <==> !AllKnown(c, e)
  {
    match e
    case Not(a) => StrictKnowsExactly(c, a);
    case Paren(a) => StrictKnowsExactly(c, a);
    case Bin(_, l, r) => StrictKnowsExactly(c, l); StrictKnowsExactly(c, r);
    case _ =>
  }

  /** Dropping -K only ever turns "unknown" into an answer. */
  lemma {:induction false} LaxRefinesStrict(c: Config, e: Expr)
    requires c.strictlogic && Eval3(c, e).Good?
    ensures var lax := Eval3(c.(strictlogic := false), e);
            lax.Good? && lax.constant == Eval3(c, e).constant &&
            (!Eval3(c, e).lt.U? ==> lax.lt == Eval3(c, e).lt && lax.val == Eval3(c, e).val)
    ensures !Eval3(c, e).lt.U? ==> Eval3(c, e).lt == OfInt(Eval3(c, e).val)
  {
    match e
    case Not(a) => LaxRefinesStrict(c, a);
    case Paren(a) => LaxRefinesStrict(c, a);
    case Bin(_, l, r) => LaxRefinesStrict(c, l); LaxRefinesStrict(c, r);
    case _ =>
  }

  /** Conversely: whatever row lvl accepts is the token string of some expression,
      and the answer is that expression's three-valued value. */
  lemma {:induction false} AcceptsOnlyExpressions(c: Config, lvl: nat, ts: seq<Token>) returns (e: Expr)
    requires lvl <= UNARY && EvalTable(c, lvl, ts).Ok?
    ensures Fits(e, lvl) && ts == Toks(e) + EvalTable(c, lvl, ts).rest
    ensures EvalTable(c, lvl, ts) == Lift(Eval3(c, e), EvalTable(c, lvl, ts).rest)
    decreases |ts|, 1 + UNARY - lvl
  {
    if lvl == UNARY {
      e := AcceptsUnary(c, ts);
    } else {
      e := AcceptsOnlyExpressions(c, lvl + 1, ts);
      var r := EvalTable(c, lvl + 1, ts);
      FitsLower(e, lvl);
      e := AcceptsLoop(c, lvl, e, ts, r.rest);
    }
  }

  lemma FitsLower(e: Expr, lvl: nat)
    requires Fits(e, lvl + 1)
    ensures Fits(e, lvl)
  {
  }

  lemma {:induction false} AcceptsLoop(c: Config, lvl: nat, e0: Expr, ts: seq<Token>, tail: seq<Token>) returns (e: Expr)
    requires lvl < UNARY && Fits(e0, lvl) && Eval3(c, e0).Good? && ts == Toks(e0) + tail
    requires var r := Eval3(c, e0); EvalLoop(c, lvl, r.lt, r.val, r.constant, tail).Ok?
    ensures var r := Eval3(c, e0);
            var out := EvalLoop(c, lvl, r.lt, r.val, r.constant, tail);
            Fits(e, lvl) && ts == Toks(e) + out.rest && out == Lift(Eval3(c, e), out.rest)
    decreases |tail|, 1 + UNARY - lvl
  {
    hide EvalTable, Toks, Fits, Eval3, Combine;
    if tail == [] || !tail[0].Operator? || LevelOf(tail[0].op) != lvl {
      e := e0;
    } else {
      var rhs := AcceptsOnlyExpressions(c, lvl + 1, tail[1..]);
      var rest := EvalTable(c, lvl + 1, tail[1..]).rest;
      var e1 := Bin(tail[0].op, e0, rhs);
      JoinedFits(e0, tail[0].op, rhs, tail, rest);
      JoinedValue(c, tail[0].op, e0, rhs);
      e := AcceptsLoop(c, lvl, e1, ts, rest);
    }
  }

  lemma {:induction false} JoinedFits(l: Expr, op: Op, r: Expr, tail: seq<Token>, rest: seq<Token>)
    requires Fits(l, LevelOf(op)) && Fits(r, LevelOf(op) + 1)
    requires tail != [] && tail[0] == Operator(op) && tail[1..] == Toks(r) + rest
    ensures Fits(Bin(op, l, r), LevelOf(op)) && Toks(l) + tail == Toks(Bin(op, l, r)) + rest
  {
    assert tail == [Operator(op)] + (Toks(r) + rest);
  }

  lemma {:induction false} JoinedValue(c: Config, op: Op, l: Expr, r: Expr)
    requires Eval3(c, l).Good? && Eval3(c, r).Good?
    ensures var x, y := Eval3(c, l), Eval3(c, r);
            var (t, v) := Combine(op, c.strictlogic, x.lt, x.val, y.lt, y.val);
            Eval3(c, Bin(op, l, r)) == Good(t, v, x.constant && y.constant)
  {
    hide Combine;
  }

  lemma {:induction false} AcceptsUnary(c: Config, ts: seq<Token>) returns (e: Expr)
    requires EvalUnary(c, ts).Ok?
    ensures Fits(e, UNARY) && ts == Toks(e) + EvalUnary(c, ts).rest
    ensures EvalUnary(c, ts) == Lift(Eval3(c, e), EvalUnary(c, ts).rest)
    decreases |ts|, 0
  {
    hide EvalTable, EvalUnary, EvalLoop, Eval3, Fits, Toks;
    UnaryStarts(c, ts);
    match ts[0]
    case Bang =>
      var a := AcceptsUnary(c, ts[1..]);
      e := Not(a);
      AcceptsNot(c, ts, a);
    case LParen =>
      var a := AcceptsOnlyExpressions(c, 0, ts[1..]);
      e := Paren(a);
      AcceptsParen(c, ts, a);
    case Number(n) =>
      e := Lit(n);
      AcceptsLit(c, ts);
    case Defined =>
      if |ts| > 1 && ts[1].LParen? {
        e := AcceptsDefinedParen(c, ts);
      } else {
        e := AcceptsDefinedBare(c, ts);
      }
    case Ident(x) => e := AcceptsSymbol(c, ts);
  }

  /** What an accepted operand starts with, and what its first call then accepts. */
  lemma {:induction false} UnaryStarts(c: Config, ts: seq<Token>)
    requires EvalUnary(c, ts).Ok?
    ensures ts != [] && (ts[0].Bang? || ts[0].LParen? || ts[0].Number? || ts[0].Defined? || ts[0].Ident?)
    ensures ts[0].Bang? ==> EvalUnary(c, ts[1..]).Ok?
    ensures ts[0].LParen? ==> EvalTable(c, 0, ts[1..]).Ok?
    ensures ts[0].Defined? ==> EvalUnary(c, ts) == EvalDefined(c, ts)
    ensures ts[0].Ident? ==> EvalUnary(c, ts) == EvalSymbol(c, ts)
  {
    hide EvalTable;
  }

  lemma {:induction false} AcceptsNot(c: Config, ts: seq<Token>, a: Expr)
    requires EvalUnary(c, ts).Ok? && ts != [] && ts[0].Bang? && EvalUnary(c, ts[1..]).Ok?
    requires var r := EvalUnary(c, ts[1..]); Fits(a, UNARY) && ts[1..] == Toks(a) + r.rest && r == Lift(Eval3(c, a), r.rest)
    ensures var e := Not(a); var r := EvalUnary(c, ts);
            Fits(e, UNARY) && ts == Toks(e) + r.rest && r == Lift(Eval3(c, e), r.rest)
  {
    hide EvalTable, EvalDefined, EvalSymbol;
    assert ts == [ts[0]] + ts[1..];
  }

  lemma {:induction false} AcceptsParen(c: Config, ts: seq<Token>, a: Expr)
    requires EvalUnary(c, ts).Ok? && ts != [] && ts[0].LParen? && EvalTable(c, 0, ts[1..]).Ok?
    requires var r := EvalTable(c, 0, ts[1..]); Fits(a, 0) && ts[1..] == Toks(a) + r.rest && r == Lift(Eval3(c, a), r.rest)
    ensures var e := Paren(a); var r := EvalUnary(c, ts);
            Fits(e, UNARY) && ts == Toks(e) + r.rest && r == Lift(Eval3(c, e), r.rest)
  {
    hide EvalTable, EvalDefined, EvalSymbol;
    var mid := EvalTable(c, 0, ts[1..]).rest;
    assert mid == [RParen] + mid[1..];
    assert ts == [LParen] + (Toks(a) + ([RParen] + mid[1..]));
  }

  lemma {:induction false} AcceptsLit(c: Config, ts: seq<Token>)
    requires EvalUnary(c, ts).Ok? && ts != [] && ts[0].Number?
    ensures var e := Lit(ts[0].n); var r := EvalUnary(c, ts);
            Fits(e, UNARY) && ts == Toks(e) + r.rest && r == Lift(Eval3(c, e), r.rest)
  {
    hide EvalTable, EvalDefined, EvalSymbol;
    assert ts == [ts[0]] + ts[1..];
  }

  /** The syntax tree for what findsym() saw after `defined`. */
  function DefinedNode(paren: bool, after: seq<Token>): Expr {
    var (used, name) := DefinedArg(after);
    if name.Some? then IsDef(paren, name.value) else Odd(paren, after[..used])
  }

  lemma DefinedNodeToks(paren: bool, after: seq<Token>)
    ensures var arg := after[..DefinedArg(after).0];
            Toks(DefinedNode(paren, after)) == if paren then [Defined, LParen] + arg + [RParen] else [Defined] + arg
  {
    var (used, name) := DefinedArg(after);
    if name.Some? {
      assert after[..used] == [Ident(name.value)];
    }
  }

  lemma {:induction false} DefinedNodeValue(c: Config, paren: bool, after: seq<Token>)
    ensures var e := DefinedNode(paren, after);
            var (lt, v) := IsDefined(c, DefinedArg(after).1);
            Fits(e, UNARY) && Eval3(c, e) == Good(lt, v, false)
  {
  }

  lemma AcceptsDefinedParen(c: Config, ts: seq<Token>) returns (e: Expr)
    requires |ts| > 1 && ts[0].Defined? && ts[1].LParen? && EvalDefined(c, ts).Ok?
    ensures Fits(e, UNARY) && ts == Toks(e) + EvalDefined(c, ts).rest
    ensures EvalDefined(c, ts) == Lift(Eval3(c, e), EvalDefined(c, ts).rest)
  {
    var after := ts[2..];
    var used := DefinedArg(after).0;
    var arg, rest := after[..used], after[used..];
    e := DefinedNode(true, after);
    DefinedNodeToks(true, after);
    DefinedNodeValue(c, true, after);
    assert after == arg + rest;
    DefinedParen(ts, arg, rest);
    assert EvalDefined(c, ts).rest == rest[1..];
  }

  lemma AcceptsDefinedBare(c: Config, ts: seq<Token>) returns (e: Expr)
    requires ts != [] && ts[0].Defined? && (|ts| > 1 ==> !ts[1].LParen?)
    ensures Fits(e, UNARY) && EvalDefined(c, ts).Ok? && ts == Toks(e) + EvalDefined(c, ts).rest
    ensures EvalDefined(c, ts) == Lift(Eval3(c, e), EvalDefined(c, ts).rest)
  {
    var after := ts[1..];
    var used := DefinedArg(after).0;
    e := DefinedNode(false, after);
    DefinedNodeToks(false, after);
    DefinedNodeValue(c, false, after);
    assert after == after[..used] + after[used..];
    DefinedBare(ts, after[..used], after[used..]);
    assert EvalDefined(c, ts).rest == after[used..];
  }

  lemma DefinedParen(ts: seq<Token>, arg: seq<Token>, rest: seq<Token>)
    requires |ts| > 1 && ts[0].Defined? && ts[1].LParen? && ts[2..] == arg + rest && rest != [] && rest[0].RParen?
    ensures ts == [Defined, LParen] + arg + [RParen] + rest[1..]
  {
    assert ts == [Defined, LParen] + (arg + rest);
    assert rest == [RParen] + rest[1..];
  }

  lemma DefinedBare(ts: seq<Token>, arg: seq<Token>, rest: seq<Token>)
    requires ts != [] && ts[0].Defined? && ts[1..] == arg + rest
    ensures ts == [Defined] + arg + rest
  {
    assert ts == [Defined] + (arg + rest);
  }

  lemma {:induction false} MatchEndSelf(ts: seq<Token>, level: nat)
    requires MatchEnd(ts, level).Some?
    ensures MatchEnd(ts[..MatchEnd(ts, level).value], level) == MatchEnd(ts, level)
    decreases |ts|
  {
    var k := MatchEnd(ts, level).value;
    var here := if ts[0].LParen? then level + 1 else if ts[0].RParen? then level - 1 else level;
    assert ts[..k][0] == ts[0];
    if here > 0 {
      MatchEndSelf(ts[1..], here);
      assert ts[..k][1..] == ts[1..][..k - 1];
    }
  }

  lemma AcceptsSymbol(c: Config, ts: seq<Token>) returns (e: Expr)
    requires ts != [] && ts[0].Ident? && EvalSymbol(c, ts).Ok?
    ensures Fits(e, UNARY) && ts == Toks(e) + EvalSymbol(c, ts).rest
    ensures EvalSymbol(c, ts) == Lift(Eval3(c, e), EvalSymbol(c, ts).rest)
  {
    var x := ts[0].name;
    var used := if x in c.syms && c.syms[x].Undefined? then 0 else SkipArgs(ts[1..]);
    e := Sym(x, ts[1..][..used]);
    SymbolToks(ts, used);
    if used > 0 {
      MatchEndSelf(ts[1..], 0);
    }
    assert EvalSymbol(c, ts).rest == ts[1 + used..];
  }

  lemma SymbolToks(ts: seq<Token>, used: nat)
    requires ts != [] && ts[0].Ident? && used <= |ts| - 1
    ensures ts == [Ident(ts[0].name)] + ts[1..][..used] + ts[1 + used..]
  {
    assert ts[1..] == ts[1..][..used] + ts[1 + used..];
  }
}
