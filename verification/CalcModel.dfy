/**
  The calculator of src/calc/calc.c: tokens, the operator tables, the meaning of an expression tree, and
  the shunting-yard machine of evaluate_expression_iterative as a pure step function. Double arithmetic,
  the library functions and the numerals are whatever the parameter of type Sem says.
 */
module CalcModel {
  import opened Common

  datatype Op = Plus | Minus | Mul | Div | Mod | Pow | BAnd | BOr | BXor | Shl | Shr

  /** op_precedence. */
  function Prec(op: Op): nat {
    match op
    case BOr => 1
    case BXor => 2
    case BAnd => 3
    case Shl => 4
    case Shr => 4
    case Plus => 5
    case Minus => 5
    case Mul => 6
    case Div => 6
    case Mod => 6
    case Pow => 7
  }

  /** is_right_associative. */
  predicate RightAssoc(op: Op) { op == Pow }

  /** An incoming operator pops every operator on the stack of at least this precedence. */
  function Threshold(op: Op): nat { if RightAssoc(op) then Prec(op) + 1 else Prec(op) }

  /**
    The values and the operations on them: the double 0, the binary operators (which may fail, as a
    division by zero does), the named functions, the numerals and the variables.
   */
  datatype Sem<!V> = Sem(
    zero: V, bin: (Op, V, V) -> Option<V>, fun: (string, V) -> Option<V>,
    numeral: string -> V, names: string -> Option<V>)

  // ---- what an expression means -----------------------------------------------------------------

  datatype Expr =
    | Lit(w: string)
    | Var(x: string)
    | Neg(e: Expr)
    | Pos(e: Expr)
    | Bin(op: Op, l: Expr, r: Expr)
    | Call(f: string, e: Expr)
    | Group(e: Expr)

  function Apply2<V>(sem: Sem<V>, op: Op, a: Option<V>, b: Option<V>): Option<V> {
    if a.Some? && b.Some? then sem.bin(op, a.value, b.value) else None
  }

  function Value<V>(sem: Sem<V>, e: Expr): Option<V> {
    match e
    case Lit(w) => Some(sem.numeral(w))
    case Var(x) => sem.names(x)
    case Neg(a) => Apply2(sem, Minus, Some(sem.zero), Value(sem, a))
    case Pos(a) => Value(sem, a)
    case Bin(op, l, r) => Apply2(sem, op, Value(sem, l), Value(sem, r))
    case Call(f, a) => var v := Value(sem, a); if v.Some? then sem.fun(f, v.value) else None
    case Group(a) => Value(sem, a)
  }

  // ---- how it is written ------------------------------------------------------------------------

  datatype Tok = Num(w: string) | Name(x: string) | Func(f: string) | Open | Close | Sym(op: Op)

  /** The loosest operator that may stand unbracketed to the right of op. */
  function RightLevel(op: Op): nat { if RightAssoc(op) then Prec(op) else Prec(op) + 1 }

  /** Brackets are needed around e where only operators of precedence >= level may stand bare. */
  predicate Bracketed(e: Expr, level: nat, lead: bool) {
    (e.Bin? && Prec(e.op) < level) || (e.Neg? && (!lead || Prec(Minus) < level))
  }

  /**
    The tokens of e with the brackets that precedence and associativity require and no others (Group adds
    some by hand). `lead` says that the text starts the input or follows an opening bracket, the only
    places where a bare unary minus is written.
   */
  function Print(e: Expr, level: nat, lead: bool): seq<Tok>
    decreases e, if Bracketed(e, level, lead) then 1 else 0
  {
    if Bracketed(e, level, lead) then [Open] + Print(e, 0, true) + [Close]
    else
      match e
      case Lit(w) => [Num(w)]
      case Var(x) => [Name(x)]
      case Neg(a) => [Sym(Minus)] + Print(a, RightLevel(Minus), false)
      case Pos(a) => [Sym(Plus)] + Print(a, level, lead)
      case Bin(op, l, r) => Print(l, Threshold(op), lead) + [Sym(op)] + Print(r, RightLevel(op), false)
      case Call(f, a) => [Func(f)] + Print(a, 0, true) + [Close]
      case Group(a) => [Open] + Print(a, 0, true) + [Close]
  }

  // ---- the machine ---------------------------------------------------------------------------------

  const CALC_MAX_STACK: nat := 128
  const CALC_MAX_STEPS: nat := 2048

  /** Why an evaluation stops without a value. Overflow is a failing stack assertion. */
  datatype Cause = MathFail | UnknownName | Underflow | Unbalanced | Leftover | Overflow | BadSymbol

  datatype Entry = LParen | Fn(name: string) | Oper(op: Op)

  datatype Machine<V> = Stop(cause: Cause) | Go(vals: seq<V>, ops: seq<Entry>, unary: bool)

  /** Precedence of the operator on top, 0 if a bracket or nothing is there. */
  function TopPrec(ops: seq<Entry>): nat {
    if ops != [] && ops[|ops| - 1].Oper? then Prec(ops[|ops| - 1].op) else 0
  }

  /** One iteration of a popping loop: applies the operator on top to the two values on top. */
  function PopOne<V>(sem: Sem<V>, m: Machine<V>): Machine<V>
    requires m.Go? && TopPrec(m.ops) > 0
  {
    var n := |m.vals|;
    if n < 2 then Stop(Underflow)
    else
      var r := sem.bin(m.ops[|m.ops| - 1].op, m.vals[n - 2], m.vals[n - 1]);
      if r.None? then Stop(MathFail) else Go(m.vals[..n - 2] + [r.value], m.ops[..|m.ops| - 1], m.unary)
  }

  /** The popping loops: applies operators of precedence >= min until a bracket or a looser one is on top. */
  function Reduce<V>(sem: Sem<V>, m: Machine<V>, min: nat): (r: Machine<V>)
    decreases if m.Go? then |m.ops| else 0
  {
    if m.Stop? || TopPrec(m.ops) == 0 || TopPrec(m.ops) < min then m
    else Reduce(sem, PopOne(sem, m), min)
  }

  function PushVal<V>(m: Machine<V>, v: V): Machine<V>
    requires m.Go?
  {
    if |m.vals| >= CALC_MAX_STACK then Stop(Overflow) else Go(m.vals + [v], m.ops, false)
  }

  function PushOp<V>(m: Machine<V>, e: Entry): Machine<V> {
    if m.Stop? then m
    else if |m.ops| >= CALC_MAX_STACK then Stop(Overflow)
    else Go(m.vals, m.ops + [e], true)
  }

  /** After a closing bracket has reduced: drops the bracket, or applies the function it closes. */
  function CloseTop<V>(sem: Sem<V>, m: Machine<V>): Machine<V> {
    if m.Stop? then m
    else if m.ops == [] then m.(unary := false)
    else
      var k := |m.ops| - 1;
      match m.ops[k]
      case LParen => Go(m.vals, m.ops[..k], false)
      case Fn(f) =>
        var n := |m.vals|;
        if n < 1 then Stop(Underflow)
        else
          var r := sem.fun(f, m.vals[n - 1]);
          if r.None? then Stop(MathFail) else Go(m.vals[..n - 1] + [r.value], m.ops[..k], false)
      case Oper(_) => m.(unary := false)
  }

  /** One iteration of the main loop. */
  function StepTok<V>(sem: Sem<V>, m: Machine<V>, t: Tok): Machine<V> {
    if m.Stop? then m else
    match t
    case Num(w) => PushVal(m, sem.numeral(w))
    case Name(x) => var v := sem.names(x); if v.None? then Stop(UnknownName) else PushVal(m, v.value)
    case Func(f) => PushOp(m, Fn(f))
    case Open => PushOp(m, LParen)
    case Close => CloseTop(sem, Reduce(sem, m, 0))
    case Sym(op) =>
      if op == Plus && m.unary then m
      else if op == Minus && m.unary then
        PushOp(Reduce(sem, PushVal(m, sem.zero), Threshold(Minus)), Oper(Minus))
      else PushOp(Reduce(sem, m, Threshold(op)), Oper(op))
  }

  function RunToks<V>(sem: Sem<V>, m: Machine<V>, toks: seq<Tok>): Machine<V>
    decreases |toks|
  {
    if toks == [] then m else RunToks(sem, StepTok(sem, m, toks[0]), toks[1..])
  }

  datatype Outcome<V> = Result(v: V) | Failed(cause: Cause)

  /** What follows the main loop. */
  function Finish<V>(sem: Sem<V>, m: Machine<V>): Outcome<V> {
    var r := Reduce(sem, m, 0);
    if r.Stop? then Failed(r.cause)
    else if r.ops != [] then Failed(Unbalanced)
    else if |r.vals| == 1 then Result(r.vals[0]) else Failed(Leftover)
  }

  function Start<V>(): Machine<V> { Go([], [], true) }

  /** evaluate_expression_iterative on the tokens of its input; the step guard cuts the loop off. */
  function Evaluate<V>(sem: Sem<V>, toks: seq<Tok>): Outcome<V> {
    Finish(sem, RunToks(sem, Start(), if |toks| <= CALC_MAX_STEPS then toks else toks[..CALC_MAX_STEPS]))
  }
}
