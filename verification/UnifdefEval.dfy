/** The #if expression evaluator of scripts/unifdef.c, over the tokens of the line. */
module UnifdefEval {
  import opened Options
  import opened Preprocessor

  type Name = nat

  datatype Op = OrOp | AndOp | EqOp | NeOp | LeOp | GeOp | LtOp | GtOp

  datatype Token = Bang | LParen | RParen | Number(n: nat) | Defined | Ident(name: Name) | Operator(op: Op) | Junk

  /** The line types an expression can evaluate to: LT_TRUE, LT_FALSE, LT_IF. */
  datatype Truth = T | F | U

  /** -Usym, or -Dsym with the number its value spells, if it spells one. */
  datatype SymVal = Undefined | Value(number: Option<int>)

  datatype Config = Config(syms: map<Name, SymVal>, strictlogic: bool, killconsts: bool)

  /** A value, what is left of the line, and whether no symbol was consulted. */
  datatype Eval = Err | Ok(lt: Truth, val: int, rest: seq<Token>, constant: bool)

  const INT_LIMIT: int := 0x8000_0000
  const LONG_LIMIT: int := 0x8000_0000_0000_0000

  /** strtol() saturates; the assignment to an int then drops the high bits. */
  function ToInt(v: int): (r: int)
    ensures -INT_LIMIT <= r < INT_LIMIT
    ensures -INT_LIMIT <= v < INT_LIMIT ==> r == v
  {
    var long := if v >= LONG_LIMIT then LONG_LIMIT - 1 else if v < -LONG_LIMIT then -LONG_LIMIT else v;
    (long + INT_LIMIT) % (2 * INT_LIMIT) - INT_LIMIT
  }

  function OfInt(v: int): Truth {
    if v != 0 then T else F
  }

  function OfBool(b: bool): int {
    if b then 1 else 0
  }

  /** The binary operators of C on two values. */
  function Apply(op: Op, a: int, b: int): int {
    match op
    case OrOp => OfBool(a != 0 || b != 0)
    case AndOp => OfBool(a != 0 && b != 0)
    case EqOp => OfBool(a == b)
    case NeOp => OfBool(a != b)
    case LeOp => OfBool(a <= b)
    case GeOp => OfBool(a >= b)
    case LtOp => OfBool(a < b)
    case GtOp => OfBool(a > b)
  }

  /** op_or, op_and and the operators that go through op_strict; the second
      component is what *valp holds afterwards. */
  function Combine(op: Op, strictlogic: bool, at: Truth, a: int, bt: Truth, b: int): (Truth, int) {
    if op.OrOp? && !strictlogic && (at.T? || bt.T?) then (T, 1)
    else if op.AndOp? && !strictlogic && (at.F? || bt.F?) then (F, 0)
    else if at.U? || bt.U? then (U, a)
    else (OfInt(Apply(op, a, b)), Apply(op, a, b))
  }

  const UNARY: nat := 4

  /** Row of the precedence table the operator stands in. */
  function LevelOf(op: Op): nat {
    match op
    case OrOp => 0
    case AndOp => 1
    case EqOp => 2
    case NeOp => 2
    case _ => 3
  }

  /** Position just after the parenthesis that closes the level-th open one. */
  function MatchEnd(ts: seq<Token>, level: nat): (r: Option<nat>)
    ensures r.Some? ==> 0 < r.value <= |ts|
  {
    if ts == [] then None
    else
      var here := if ts[0].LParen? then level + 1 else if ts[0].RParen? then level - 1 else level;
      if here <= 0 then Some(1)
      else
        match MatchEnd(ts[1..], here)
        case None => None
        case Some(k) => Some(k + 1)
  }

  /** skipargs(): past one balanced argument list, or nowhere if it never closes. */
  function SkipArgs(ts: seq<Token>): (k: nat)
    ensures k <= |ts|
  {
    if ts == [] || !ts[0].LParen? then 0
    else
      match MatchEnd(ts, 0)
      case None => 0
      case Some(k) => k
  }

  /** Symbol characters after `defined`: how many tokens findsym() covers, and the name. */
  function DefinedArg(ts: seq<Token>): (r: (nat, Option<Name>))
    ensures r.0 <= |ts| && r.0 <= 1
  {
    if ts == [] then (0, None)
    else match ts[0]
      case Ident(x) => (1, Some(x))
      case Number(_) => (1, None)
      case Defined => (1, None)
      case _ => (0, None)
  }

  function IsDefined(c: Config, name: Option<Name>): (Truth, int) {
    if name.None? || name.value !in c.syms then (U, 0)
    else if c.syms[name.value].Undefined? then (F, 0) else (T, 1)
  }

  function EvalDefined(c: Config, ts: seq<Token>): (r: Eval)
    requires ts != [] && ts[0].Defined?
    ensures r.Ok? ==> |r.rest| < |ts|
  {
    var paren := |ts| > 1 && ts[1].LParen?;
    var after := if paren then ts[2..] else ts[1..];
    var (used, name) := DefinedArg(after);
    var (lt, val) := IsDefined(c, name);
    var rest := after[used..];
    if !paren then Ok(lt, val, rest, false)
    else if rest != [] && rest[0].RParen? then Ok(lt, val, rest[1..], false)
    else Err
  }

  function EvalSymbol(c: Config, ts: seq<Token>): (r: Eval)
    requires ts != [] && ts[0].Ident?
    ensures r.Ok? ==> |r.rest| < |ts|
  {
    var x := ts[0].name;
    if x !in c.syms then Ok(U, 0, ts[1 + SkipArgs(ts[1..])..], false)
    else match c.syms[x]
      case Undefined => Ok(F, 0, ts[1..], false)
      case Value(None) => Err
      case Value(Some(v)) => Ok(OfInt(ToInt(v)), ToInt(v), ts[1 + SkipArgs(ts[1..])..], false)
  }

  function EvalUnary(c: Config, ts: seq<Token>): (r: Eval)
    ensures r.Ok? ==> |r.rest| < |ts|
    decreases |ts|, 0
  {
    if ts == [] then Err
    else match ts[0]
      case Bang =>
        (match EvalUnary(c, ts[1..])
         case Err => Err
         case Ok(lt, val, rest, k) =>
           if lt.U? then Ok(U, val, rest, k)
           else var v := OfBool(val == 0); Ok(OfInt(v), v, rest, k))
      case LParen =>
        (match EvalTable(c, 0, ts[1..])
         case Err => Err
         case Ok(lt, val, rest, k) =>
           if rest != [] && rest[0].RParen? then Ok(lt, val, rest[1..], k) else Err)
      case Number(n) => Ok(OfInt(ToInt(n)), ToInt(n), ts[1..], true)
      case Defined => EvalDefined(c, ts)
      case Ident(_) => EvalSymbol(c, ts)
      case _ => Err
  }

  /** One row of the precedence table and everything that binds tighter. */
  function EvalTable(c: Config, lvl: nat, ts: seq<Token>): (r: Eval)
    requires lvl <= UNARY
    ensures r.Ok? ==> |r.rest| < |ts|
    decreases |ts|, 1 + UNARY - lvl
  {
    if lvl == UNARY then EvalUnary(c, ts)
    else
      match EvalTable(c, lvl + 1, ts)
      case Err => Err
      case Ok(lt, val, rest, k) => EvalLoop(c, lvl, lt, val, k, rest)
  }

  /** The loop of eval_table once its first operand is known. */
  function EvalLoop(c: Config, lvl: nat, lt: Truth, val: int, k: bool, ts: seq<Token>): (r: Eval)
    requires lvl < UNARY
    ensures r.Ok? ==> |r.rest| <= |ts|
    decreases |ts|, 1 + UNARY - lvl
  {
    if ts == [] || !ts[0].Operator? || LevelOf(ts[0].op) != lvl then Ok(lt, val, ts, k)
    else
      match EvalTable(c, lvl + 1, ts[1..])
      case Err => Err
      case Ok(rt, rval, rest, rk) =>
        var (lt', val') := Combine(ts[0].op, c.strictlogic, lt, val, rt, rval);
        EvalLoop(c, lvl, lt', val', k && rk, rest)
  }

  /** ifeval(), and parseline()'s check that the expression filled the line. */
  function Classify(c: Config, ts: seq<Token>): Truth {
    match EvalTable(c, 0, ts)
    case Err => U
    case Ok(lt, _, rest, k) =>
      if (k && !c.killconsts) || rest != [] then U else lt
  }

  /** eval_unary() as it runs. */
  method RunUnary(c: Config, ts: seq<Token>) returns (r: Eval)
    ensures r == EvalUnary(c, ts)
    decreases |ts|, 0
  {
    if ts == [] { return Err; }
    match ts[0]
    case Bang =>
      r := RunUnary(c, ts[1..]);
      if r.Ok? && !r.lt.U? {
        var v := OfBool(r.val == 0);
        r := r.(lt := OfInt(v), val := v);
      }
    case LParen =>
      r := RunTable(c, 0, ts[1..]);
      if r.Ok? {
        if r.rest == [] || !r.rest[0].RParen? { return Err; }
        r := r.(rest := r.rest[1..]);
      }
    case Number(n) => r := Ok(OfInt(ToInt(n)), ToInt(n), ts[1..], true);
    case Defined => r := EvalDefined(c, ts);
    case Ident(_) => r := EvalSymbol(c, ts);
    case _ => r := Err;
  }

  /** eval_table() as it runs: a first operand, then operators of this row until none
      is left. */
  method RunTable(c: Config, lvl: nat, ts: seq<Token>) returns (r: Eval)
    requires lvl <= UNARY
    ensures r == EvalTable(c, lvl, ts)
    decreases |ts|, 1 + UNARY - lvl
  {
    if lvl == UNARY {
      r := RunUnary(c, ts);
      return;
    }
    r := RunTable(c, lvl + 1, ts);
    while r.Ok? && r.rest != [] && r.rest[0].Operator? && LevelOf(r.rest[0].op) == lvl
      invariant r.Ok? ==> |r.rest| < |ts| && EvalTable(c, lvl, ts) == EvalLoop(c, lvl, r.lt, r.val, r.constant, r.rest)
      invariant r.Err? ==> EvalTable(c, lvl, ts) == Err
      decreases if r.Ok? then |r.rest| else 0
    {
      var s := RunTable(c, lvl + 1, r.rest[1..]);
      if s.Err? { return Err; }
      var (lt, val) := Combine(r.rest[0].op, c.strictlogic, r.lt, r.val, s.lt, s.val);
      r := Ok(lt, val, s.rest, r.constant && s.constant);
    }
  }

  method RunClassify(c: Config, ts: seq<Token>) returns (t: Truth)
    ensures t == Classify(c, ts)
  {
    var r := RunTable(c, 0, ts);
    if r.Err? || (r.constant && !c.killconsts) || r.rest != [] { return U; }
    t := r.lt;
  }
}
