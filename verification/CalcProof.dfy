/**
  The shunting-yard machine of src/calc/calc.c computes the meaning of every expression written with the
  brackets it needs.
 */
module CalcProof {
  import opened Common
  import opened CalcModel

  /** The operator-stack entries that writing e at this level takes at its deepest point. */
  function OpsNeed(e: Expr, level: nat, lead: bool): nat
    decreases e, if Bracketed(e, level, lead) then 1 else 0
  {
    if Bracketed(e, level, lead) then 1 + OpsNeed(e, 0, true)
    else
      match e
      case Lit(_) => 0
      case Var(_) => 0
      case Neg(a) => 1 + OpsNeed(a, RightLevel(Minus), false)
      case Pos(a) => OpsNeed(a, level, lead)
      case Bin(op, l, r) => Max(OpsNeed(l, Threshold(op), lead), 1 + OpsNeed(r, RightLevel(op), false))
      case Call(_, a) => 1 + OpsNeed(a, 0, true)
      case Group(a) => 1 + OpsNeed(a, 0, true)
  }

  /** The same for the value stack, which brackets do not touch. */
  function ValsNeed(e: Expr): nat {
    match e
    case Lit(_) => 1
    case Var(_) => 1
    case Neg(a) => 1 + ValsNeed(a)
    case Pos(a) => ValsNeed(a)
    case Bin(_, l, r) => Max(ValsNeed(l), 1 + ValsNeed(r))
    case Call(_, a) => ValsNeed(a)
    case Group(a) => ValsNeed(a)
  }

  predicate Fits(e: Expr, level: nat, lead: bool, nvals: nat, nops: nat) {
    nvals + ValsNeed(e) <= CALC_MAX_STACK && nops + OpsNeed(e, level, lead) <= CALC_MAX_STACK
  }

  /** No operator written at this level pops the operator already on top. */
  predicate Guard(ops: seq<Entry>, level: nat) {
    TopPrec(ops) == 0 || TopPrec(ops) < level || TopPrec(ops) == level == Prec(Pow)
  }

  lemma GuardMeaning(ops: seq<Entry>, level: nat, op: Op)
    requires Guard(ops, level) && Prec(op) >= level
    ensures TopPrec(ops) < Threshold(op)
    ensures Guard(ops, Threshold(op)) && Guard(ops + [Oper(op)], RightLevel(op))
  {
  }

  lemma {:induction false} RunAppend<V>(sem: Sem<V>, m: Machine<V>, a: seq<Tok>, b: seq<Tok>)
    ensures RunToks(sem, m, a + b) == RunToks(sem, RunToks(sem, m, a), b)
    decreases |a|
  {
    if a == [] {
      assert a + b == b;
    } else {
      assert (a + b)[1..] == a[1..] + b;
      RunAppend(sem, StepTok(sem, m, a[0]), a[1..], b);
    }
  }

  lemma RunOne<V>(sem: Sem<V>, m: Machine<V>, t: Tok)
    ensures RunToks(sem, m, [t]) == StepTok(sem, m, t)
  {
    assert [t][1..] == [];
    assert RunToks(sem, StepTok(sem, m, t), []) == StepTok(sem, m, t);
  }

  lemma {:induction false} Stopped<V>(sem: Sem<V>, m: Machine<V>, toks: seq<Tok>)
    requires m.Stop?
    ensures RunToks(sem, m, toks) == m
    decreases |toks|
  {
    if toks == [] {
    } else {
      Stopped(sem, m, toks[1..]);
    }
  }

  /** The causes for which a well-written expression may stop. */
  predicate HonestStop<V>(m: Machine<V>, fits: bool) {
    m.Stop? && (m.cause == MathFail || m.cause == UnknownName || (m.cause == Overflow && !fits))
  }

  /**
    What reading the tokens of e comes to, once the operators it leaves pending are applied: one more
    value on the stack, the value of e. Otherwise the machine has stopped, and only for lack of a value
    or of stack.
   */
  ghost predicate Reads<V>(sem: Sem<V>, toks: seq<Tok>, v: Option<V>, fits: bool, vals: seq<V>, ops: seq<Entry>,
      min: nat)
  {
    var m := RunToks(sem, Go(vals, ops, true), toks);
    && (m.Go? ==> !m.unary)
    && if fits && v.Some? then Reduce(sem, m, min) == Reduce(sem, Go(vals + [v.value], ops, false), min)
       else HonestStop(Reduce(sem, m, min), fits)
  }

  lemma ReadsLeaf<V>(sem: Sem<V>, e: Expr, vals: seq<V>, ops: seq<Entry>, min: nat)
    requires e.Lit? || e.Var?
    ensures Reads(sem, Print(e, 0, false), Value(sem, e), |vals| + 1 <= CALC_MAX_STACK, vals, ops, min)
  {
    RunOne(sem, Go(vals, ops, true), Print(e, 0, false)[0]);
  }

  /** Brackets: what is inside is read on top of a fresh bracket entry. */
  lemma ReadsBracketed<V>(sem: Sem<V>, inner: seq<Tok>, v: Option<V>, fits: bool, vals: seq<V>, ops: seq<Entry>,
      min: nat)
    requires |ops| < CALC_MAX_STACK ==> Reads(sem, inner, v, fits, vals, ops + [LParen], 0)
    ensures Reads(sem, [Open] + inner + [Close], v, fits && |ops| < CALC_MAX_STACK, vals, ops, min)
  {
    var m0: Machine<V> := Go(vals, ops, true);
    RunOne(sem, m0, Open);
    RunAppend(sem, m0, [Open], inner);
    RunAppend(sem, m0, [Open] + inner, [Close]);
    var m1 := StepTok(sem, m0, Open);
    var m2 := RunToks(sem, m1, inner);
    RunOne(sem, m2, Close);
    if m1.Stop? {
      Stopped(sem, m1, inner);
    } else if fits && v.Some? {
      assert (ops + [LParen])[..|ops|] == ops;
    }
  }

  lemma ReadsCall<V>(sem: Sem<V>, f: string, inner: seq<Tok>, v: Option<V>, fits: bool, vals: seq<V>,
      ops: seq<Entry>, min: nat)
    requires |ops| < CALC_MAX_STACK ==> Reads(sem, inner, v, fits, vals, ops + [Fn(f)], 0)
    ensures Reads(sem, [Func(f)] + inner + [Close], if v.Some? then sem.fun(f, v.value) else None,
                  fits && |ops| < CALC_MAX_STACK, vals, ops, min)
  {
    var m0: Machine<V> := Go(vals, ops, true);
    RunOne(sem, m0, Func(f));
    RunAppend(sem, m0, [Func(f)], inner);
    RunAppend(sem, m0, [Func(f)] + inner, [Close]);
    var m1 := StepTok(sem, m0, Func(f));
    var m2 := RunToks(sem, m1, inner);
    RunOne(sem, m2, Close);
    if m1.Stop? {
      Stopped(sem, m1, inner);
    } else if fits && v.Some? {
      assert (ops + [Fn(f)])[..|ops|] == ops;
      assert (vals + [v.value])[..|vals|] == vals;
    }
  }

  /** An operator between two operands, the right one read on top of it. */
  lemma ReadsBinary<V>(sem: Sem<V>, op: Op, lt: seq<Tok>, lv: Option<V>, lfits: bool, rt: seq<Tok>, rv: Option<V>,
      rfits: bool, vals: seq<V>, ops: seq<Entry>, min: nat)
    requires TopPrec(ops) < Threshold(op) && min <= Prec(op)
    requires Reads(sem, lt, lv, lfits, vals, ops, Threshold(op))
    requires lv.Some? && lfits && |ops| < CALC_MAX_STACK ==>
      Reads(sem, rt, rv, rfits, vals + [lv.value], ops + [Oper(op)], min)
    ensures Reads(sem, lt + [Sym(op)] + rt, Apply2(sem, op, lv, rv),
                  lfits && rfits && |ops| < CALC_MAX_STACK, vals, ops, min)
  {
    var m0: Machine<V> := Go(vals, ops, true);
    var m1 := RunToks(sem, m0, lt);
    RunAppend(sem, m0, lt, [Sym(op)]);
    RunOne(sem, m1, Sym(op));
    RunAppend(sem, m0, lt + [Sym(op)], rt);
    var m2 := StepTok(sem, m1, Sym(op));
    if lv.None? || !lfits || |ops| >= CALC_MAX_STACK {
      assert m2.Stop?;
      Stopped(sem, m2, rt);
    } else {
      assert m2 == Go(vals + [lv.value], ops + [Oper(op)], true);
      if rv.Some? && rfits { ApplyPending(sem, op, vals, lv.value, rv.value, ops, min); }
    }
  }

  lemma ApplyPending<V>(sem: Sem<V>, op: Op, vals: seq<V>, a: V, b: V, ops: seq<Entry>, min: nat)
    requires min <= Prec(op)
    ensures var r := sem.bin(op, a, b);
      Reduce(sem, Go(vals + [a] + [b], ops + [Oper(op)], false), min) ==
      (if r.Some? then Reduce(sem, Go(vals + [r.value], ops, false), min) else Stop(MathFail))
  {
    var m: Machine<V> := Go(vals + [a] + [b], ops + [Oper(op)], false);
    var n := |m.vals|;
    assert m.vals[..n - 2] == vals && m.ops[..|m.ops| - 1] == ops;
    assert m.vals[n - 2] == a && m.vals[n - 1] == b;
  }

  /** A bare unary minus, right after nothing or a bracket: 0 minus what follows. */
  lemma ReadsNeg<V>(sem: Sem<V>, rt: seq<Tok>, rv: Option<V>, rfits: bool, vals: seq<V>, ops: seq<Entry>, min: nat)
    requires TopPrec(ops) == 0 && min <= Prec(Minus)
    requires |vals| < CALC_MAX_STACK && |ops| < CALC_MAX_STACK ==>
      Reads(sem, rt, rv, rfits, vals + [sem.zero], ops + [Oper(Minus)], min)
    ensures Reads(sem, [Sym(Minus)] + rt, Apply2(sem, Minus, Some(sem.zero), rv),
                  rfits && |vals| < CALC_MAX_STACK && |ops| < CALC_MAX_STACK, vals, ops, min)
  {
    var m0: Machine<V> := Go(vals, ops, true);
    RunOne(sem, m0, Sym(Minus));
    RunAppend(sem, m0, [Sym(Minus)], rt);
    var m1 := StepTok(sem, m0, Sym(Minus));
    if m1.Stop? { Stopped(sem, m1, rt); }
    else if rv.Some? && rfits { ApplyPending(sem, Minus, vals, sem.zero, rv.value, ops, min); }
  }

  lemma ReadsPos<V>(sem: Sem<V>, toks: seq<Tok>, v: Option<V>, fits: bool, vals: seq<V>, ops: seq<Entry>, min: nat)
    requires Reads(sem, toks, v, fits, vals, ops, min)
    ensures Reads(sem, [Sym(Plus)] + toks, v, fits, vals, ops, min)
  {
    var m0: Machine<V> := Go(vals, ops, true);
    RunOne(sem, m0, Sym(Plus));
    RunAppend(sem, m0, [Sym(Plus)], toks);
  }

  /** The heart of the matter, by induction on the expression. */
  lemma {:induction false} PrintReads<V>(sem: Sem<V>, e: Expr, level: nat, lead: bool, vals: seq<V>, ops: seq<Entry>,
      min: nat)
    requires min <= level && Guard(ops, level) && (lead ==> TopPrec(ops) == 0) && |ops| <= CALC_MAX_STACK
    ensures Reads(sem, Print(e, level, lead), Value(sem, e), Fits(e, level, lead, |vals|, |ops|), vals, ops, min)
    decreases e, if Bracketed(e, level, lead) then 1 else 0
  {
    var deep := |ops| < CALC_MAX_STACK;
    if Bracketed(e, level, lead) {
      if deep { PrintReads(sem, e, 0, true, vals, ops + [LParen], 0); }
      ReadsBracketed(sem, Print(e, 0, true), Value(sem, e), Fits(e, 0, true, |vals|, |ops| + 1), vals, ops, min);
    } else {
      match e
      case Lit(_) => ReadsLeaf(sem, e, vals, ops, min);
      case Var(_) => ReadsLeaf(sem, e, vals, ops, min);
      case Neg(a) => NegReads(sem, e, level, lead, vals, ops, min);
      case Pos(a) =>
        PrintReads(sem, a, level, lead, vals, ops, min);
        ReadsPos(sem, Print(a, level, lead), Value(sem, a), Fits(a, level, lead, |vals|, |ops|), vals, ops, min);
      case Bin(op, l, r) => BinReads(sem, e, level, lead, vals, ops, min);
      case Call(f, a) =>
        if deep { PrintReads(sem, a, 0, true, vals, ops + [Fn(f)], 0); }
        ReadsCall(sem, f, Print(a, 0, true), Value(sem, a), Fits(a, 0, true, |vals|, |ops| + 1), vals, ops, min);
      case Group(a) =>
        if deep { PrintReads(sem, a, 0, true, vals, ops + [LParen], 0); }
        ReadsBracketed(sem, Print(a, 0, true), Value(sem, a), Fits(a, 0, true, |vals|, |ops| + 1), vals, ops, min);
    }
  }

  lemma {:induction false} NegReads<V>(sem: Sem<V>, e: Expr, level: nat, lead: bool, vals: seq<V>, ops: seq<Entry>,
      min: nat)
    requires e.Neg? && !Bracketed(e, level, lead)
    requires min <= level && Guard(ops, level) && (lead ==> TopPrec(ops) == 0) && |ops| <= CALC_MAX_STACK
    ensures Reads(sem, Print(e, level, lead), Value(sem, e), Fits(e, level, lead, |vals|, |ops|), vals, ops, min)
    decreases e, 0, 0
  {
    var up := RightLevel(Minus);
    if |ops| < CALC_MAX_STACK { PrintReads(sem, e.e, up, false, vals + [sem.zero], ops + [Oper(Minus)], min); }
    ReadsNeg(sem, Print(e.e, up, false), Value(sem, e.e), Fits(e.e, up, false, |vals| + 1, |ops| + 1), vals, ops, min);
  }

  lemma {:induction false} BinReads<V>(sem: Sem<V>, e: Expr, level: nat, lead: bool, vals: seq<V>, ops: seq<Entry>,
      min: nat)
    requires e.Bin? && !Bracketed(e, level, lead)
    requires min <= level && Guard(ops, level) && (lead ==> TopPrec(ops) == 0) && |ops| <= CALC_MAX_STACK
    ensures Reads(sem, Print(e, level, lead), Value(sem, e), Fits(e, level, lead, |vals|, |ops|), vals, ops, min)
    decreases e, 0, 0
  {
    var Bin(op, l, r) := e;
    GuardMeaning(ops, level, op);
    PrintReads(sem, l, Threshold(op), lead, vals, ops, Threshold(op));
    var lv := Value(sem, l);
    if lv.Some? && |ops| < CALC_MAX_STACK {
      PrintReads(sem, r, RightLevel(op), false, vals + [lv.value], ops + [Oper(op)], min);
    }
    ReadsBinary(sem, op, Print(l, Threshold(op), lead), lv, Fits(l, Threshold(op), lead, |vals|, |ops|),
                Print(r, RightLevel(op), false), Value(sem, r), Fits(r, RightLevel(op), false, |vals| + 1, |ops| + 1),
                vals, ops, min);
  }

  // ---- the theorem ---------------------------------------------------------------------------------

  /** The text of a whole expression. */
  function Text(e: Expr): seq<Tok> { Print(e, 0, true) }

  /** e stays within the two stacks of 128 entries. */
  predicate WithinStacks(e: Expr) { ValsNeed(e) <= 128 && OpsNeed(e, 0, true) <= 128 }

  /** The outcome is the value there is, and a failure when there is none. */
  ghost predicate Agrees<V>(o: Outcome<V>, v: Option<V>) {
    if v.Some? then o == Result(v.value) else o.Failed?
  }

  /**
    The shunting-yard loop preserves meaning: evaluating the text of e gives v exactly when e means v and
    the stacks are deep enough. When it gives nothing, an operation failed, a name was unknown, or a
    stack was too small; it never takes its stack-underflow, unbalanced or leftover exits.
   */
  lemma MeaningPreserved<V>(sem: Sem<V>, e: Expr)
    requires |Text(e)| <= 2048
    ensures Agrees(Evaluate(sem, Text(e)), if WithinStacks(e) then Value(sem, e) else None)
    ensures Evaluate(sem, Text(e)).Failed? ==>
      || Evaluate(sem, Text(e)).cause == MathFail
      || Evaluate(sem, Text(e)).cause == UnknownName
      || (Evaluate(sem, Text(e)).cause == Overflow && !WithinStacks(e))
  {
    PrintReads(sem, e, 0, true, [], [], 0);
  }

  // ---- unary minus elsewhere -------------------------------------------------------------------------

  /** `l op -r` with the minus bare, which the evaluator accepts after any operator. */
  function BareMinus(op: Op, l: Expr, r: Expr): seq<Tok> {
    Print(l, Threshold(op), true) + [Sym(op), Sym(Minus)] + Print(r, RightLevel(Minus), false)
  }

  /** The operators that bind at least as tight as minus. */
  predicate Tight(op: Op)
    ensures Tight(op) <==> Prec(op) >= Prec(Minus)
  {
    op in {Plus, Minus, Mul, Div, Mod, Pow}
  }

  /**
    What that text evaluates to. The minus pushes a plain 0 and then counts as a binary operator, so every
    operator at least as tight as minus takes the 0 as its right operand.
   */
  function BareMinusValue<V>(sem: Sem<V>, op: Op, l: Expr, r: Expr): Option<V> {
    if Tight(op) then Apply2(sem, Minus, Apply2(sem, op, Value(sem, l), Some(sem.zero)), Value(sem, r))
    else Value(sem, Bin(op, l, Neg(r)))
  }

  /** The text stays within the stacks: a tight operator is gone when the right operand is read. */
  predicate BareMinusFits(op: Op, l: Expr, r: Expr) {
    var waiting := if Tight(op) then 1 else 2;
    Fits(l, Threshold(op), true, 0, 0) && Fits(r, RightLevel(Minus), false, waiting, waiting)
  }

  lemma BareMinusEvaluates<V>(sem: Sem<V>, op: Op, l: Expr, r: Expr)
    requires |BareMinus(op, l, r)| <= 2048
    ensures Agrees(Evaluate(sem, BareMinus(op, l, r)),
      if BareMinusFits(op, l, r) then BareMinusValue(sem, op, l, r) else None)
  {
    hide RunToks, Print, Fits, Finish, Evaluate, BareMinus, Value, Reduce, OnTop, Apply2;
    BareMinusStarts(sem, op, l, r);
    NegUnder(sem, op, l, r);
    if Value(sem, l).Some? && Fits(l, Threshold(op), true, 0, 0) {
      if !Tight(op) {
        LooseTop(sem, op, Value(sem, l).value, r);
      } else {
        TightTop(sem, op, Value(sem, l).value, r);
      }
    } else {
      NoLeft(sem, op, Value(sem, l), r);
    }
  }

  lemma NoLeft<V>(sem: Sem<V>, op: Op, a: Option<V>, r: Expr)
    ensures a.None? ==> Apply2(sem, op, a, Apply2(sem, Minus, Some(sem.zero), Value(sem, r))).None?
    ensures a.None? ==> Apply2(sem, Minus, Apply2(sem, op, a, Some(sem.zero)), Value(sem, r)).None?
  {
  }

  lemma BareMinusStarts<V>(sem: Sem<V>, op: Op, l: Expr, r: Expr)
    requires |BareMinus(op, l, r)| <= CALC_MAX_STEPS
    ensures Value(sem, l).None? || !Fits(l, Threshold(op), true, 0, 0) ==> Evaluate(sem, BareMinus(op, l, r)).Failed?
    ensures Value(sem, l).Some? && Fits(l, Threshold(op), true, 0, 0) ==>
      Evaluate(sem, BareMinus(op, l, r)) ==
      Finish(sem, RunToks(sem, OnTop(sem, op, Value(sem, l).value), Print(r, RightLevel(Minus), false)))
  {
    var lt, rt := Print(l, Threshold(op), true), Print(r, RightLevel(Minus), false);
    LeftThenMinus(sem, op, l);
    RunAppend(sem, Start(), lt + [Sym(op), Sym(Minus)], rt);
    if Value(sem, l).None? || !Fits(l, Threshold(op), true, 0, 0) {
      Stopped(sem, RunToks(sem, Start(), lt + [Sym(op), Sym(Minus)]), rt);
    } else {
      MinusOnTop(sem, op, Value(sem, l).value);
    }
  }

  /** The machine after `a op -`: the 0 already taken by op, or waiting. */
  function OnTop<V>(sem: Sem<V>, op: Op, a: V): Machine<V> {
    if Prec(op) < Prec(Minus) then Go([a, sem.zero], [Oper(op), Oper(Minus)], true)
    else
      var x := sem.bin(op, a, sem.zero);
      if x.Some? then Go([x.value], [Oper(Minus)], true) else Stop(MathFail)
  }

  lemma NegUnder<V>(sem: Sem<V>, op: Op, l: Expr, r: Expr)
    ensures Value(sem, Bin(op, l, Neg(r))) ==
      Apply2(sem, op, Value(sem, l), Apply2(sem, Minus, Some(sem.zero), Value(sem, r)))
  {
    assert Value(sem, Neg(r)) == Apply2(sem, Minus, Some(sem.zero), Value(sem, r));
  }

  lemma LeftThenMinus<V>(sem: Sem<V>, op: Op, l: Expr)
    ensures var m := RunToks(sem, Start(), Print(l, Threshold(op), true) + [Sym(op), Sym(Minus)]);
      if Value(sem, l).None? || !Fits(l, Threshold(op), true, 0, 0) then m.Stop?
      else m == StepTok(sem, Go([Value(sem, l).value], [Oper(op)], true), Sym(Minus))
  {
    var lt := Print(l, Threshold(op), true);
    PrintReads(sem, l, Threshold(op), true, [], [], Threshold(op));
    RunAppend(sem, Start(), lt, [Sym(op), Sym(Minus)]);
    var m1 := RunToks(sem, Start(), lt);
    RunTwo(sem, m1, Sym(op), Sym(Minus));
    if Value(sem, l).Some? && Fits(l, Threshold(op), true, 0, 0) {
      assert [] + [Value(sem, l).value] == [Value(sem, l).value] && [] + [Oper(op)] == [Oper(op)];
    }
  }

  lemma LooseTop<V>(sem: Sem<V>, op: Op, a: V, r: Expr)
    requires Prec(op) < Prec(Minus)
    ensures Agrees(Finish(sem, RunToks(sem, OnTop(sem, op, a), Print(r, RightLevel(Minus), false))),
                   if Fits(r, RightLevel(Minus), false, 2, 2) then
                     Apply2(sem, op, Some(a), Apply2(sem, Minus, Some(sem.zero), Value(sem, r))) else None)
  {
    hide RunToks, Print, Fits, Finish, Value, Reduce;
    LooseTail(sem, op, a, r);
  }

  lemma LooseTail<V>(sem: Sem<V>, op: Op, a: V, r: Expr)
    ensures var m := RunToks(sem, Go([a, sem.zero], [Oper(op), Oper(Minus)], true), Print(r, RightLevel(Minus), false));
      Agrees(Finish(sem, m), if Fits(r, RightLevel(Minus), false, 2, 2) then
        Apply2(sem, op, Some(a), Apply2(sem, Minus, Some(sem.zero), Value(sem, r))) else None)
  {
    hide RunToks, Print, ValsNeed, OpsNeed, Value, Reduce;
    PrintReads(sem, r, RightLevel(Minus), false, [a, sem.zero], [Oper(op), Oper(Minus)], 0);
    if Value(sem, r).Some? && Fits(r, RightLevel(Minus), false, 2, 2) {
      TwoWaiting(sem, op, a, Value(sem, r).value);
    }
  }

  /** Both pending operators, the minus first. */
  lemma TwoWaiting<V>(sem: Sem<V>, op: Op, a: V, b: V)
    ensures var x := sem.bin(Minus, sem.zero, b);
      Reduce(sem, Go([a, sem.zero] + [b], [Oper(op), Oper(Minus)], false), 0) ==
      if x.None? then Stop(MathFail) else Reduce(sem, Go([a] + [x.value], [Oper(op)], false), 0)
    ensures var x := sem.bin(Minus, sem.zero, b);
      x.Some? ==> (Reduce(sem, Go([a] + [x.value], [Oper(op)], false), 0) ==
        if sem.bin(op, a, x.value).Some? then Go([sem.bin(op, a, x.value).value], [], false) else Stop(MathFail))
  {
    hide Reduce;
    assert [a, sem.zero] + [b] == [a] + [sem.zero] + [b] && [Oper(op), Oper(Minus)] == [Oper(op)] + [Oper(Minus)];
    ApplyPending(sem, Minus, [a], sem.zero, b, [Oper(op)], 0);
    var x := sem.bin(Minus, sem.zero, b);
    if x.Some? { ApplyOnly(sem, op, a, x.value, 0); }
  }

  /** The one pending operator. */
  lemma ApplyOnly<V>(sem: Sem<V>, op: Op, x: V, b: V, min: nat)
    requires min <= Prec(op)
    ensures Reduce(sem, Go([x] + [b], [Oper(op)], false), min) ==
      if sem.bin(op, x, b).Some? then Go([sem.bin(op, x, b).value], [], false) else Stop(MathFail)
  {
    hide Reduce;
    assert [x] + [b] == [] + [x] + [b] && [Oper(op)] == [] + [Oper(op)];
    ApplyPending(sem, op, [], x, b, [], min);
    if sem.bin(op, x, b).Some? { OneLeft(sem, sem.bin(op, x, b).value, min); }
  }

  lemma TightTop<V>(sem: Sem<V>, op: Op, a: V, r: Expr)
    requires Prec(op) >= Prec(Minus)
    ensures Agrees(Finish(sem, RunToks(sem, OnTop(sem, op, a), Print(r, RightLevel(Minus), false))),
                   if Fits(r, RightLevel(Minus), false, 1, 1) then
                     Apply2(sem, Minus, Apply2(sem, op, Some(a), Some(sem.zero)), Value(sem, r)) else None)
  {
    hide RunToks, Print, Fits, Finish, Value, Reduce;
    TightTail(sem, op, a, r);
  }

  lemma TightTail<V>(sem: Sem<V>, op: Op, a: V, r: Expr)
    ensures var x := sem.bin(op, a, sem.zero);
      var m0 := if x.Some? then Go([x.value], [Oper(Minus)], true) else Stop(MathFail);
      var m := RunToks(sem, m0, Print(r, RightLevel(Minus), false));
      Agrees(Finish(sem, m),
        if Fits(r, RightLevel(Minus), false, 1, 1) then Apply2(sem, Minus, x, Value(sem, r)) else None)
  {
    var x := sem.bin(op, a, sem.zero);
    if x.None? {
      Stopped(sem, Stop(MathFail), Print(r, RightLevel(Minus), false));
    } else {
      hide RunToks, Fits, Print, Value, Agrees, Apply2, Finish;
      OneWaiting(sem, x.value, r);
    }
  }

  lemma OneWaiting<V>(sem: Sem<V>, x: V, r: Expr)
    ensures var m := RunToks(sem, Go([x], [Oper(Minus)], true), Print(r, RightLevel(Minus), false));
      Agrees(Finish(sem, m),
             if Fits(r, RightLevel(Minus), false, 1, 1) then Apply2(sem, Minus, Some(x), Value(sem, r)) else None)
  {
    hide RunToks, Print, ValsNeed, OpsNeed, Value, Reduce;
    PrintReads(sem, r, RightLevel(Minus), false, [x], [Oper(Minus)], 0);
    if Value(sem, r).Some? && Fits(r, RightLevel(Minus), false, 1, 1) {
      ApplyOnly(sem, Minus, x, Value(sem, r).value, 0);
    }
  }

  lemma OneLeft<V>(sem: Sem<V>, y: V, min: nat)
    ensures Reduce(sem, Go([] + [y], [], false), min) == Go([y], [], false)
  {
    assert [] + [y] == [y];
  }

  lemma RunTwo<V>(sem: Sem<V>, m: Machine<V>, t: Tok, u: Tok)
    ensures RunToks(sem, m, [t, u]) == StepTok(sem, StepTok(sem, m, t), u)
  {
    assert [t, u] == [t] + [u];
    RunAppend(sem, m, [t], [u]);
    RunOne(sem, m, t);
    RunOne(sem, StepTok(sem, m, t), u);
  }

  lemma MinusOnTop<V>(sem: Sem<V>, op: Op, a: V)
    ensures StepTok(sem, Go([a], [Oper(op)], true), Sym(Minus)) == OnTop(sem, op, a)
  {
    MinusPushes(sem, op, a);
    hide StepTok;
    if Prec(op) >= Prec(Minus) {
      hide Reduce;
      assert [a, sem.zero] == [a] + [sem.zero] && [] + [Oper(Minus)] == [Oper(Minus)];
      ApplyOnly(sem, op, a, sem.zero, Threshold(Minus));
    } else {
      assert [Oper(op)] + [Oper(Minus)] == [Oper(op), Oper(Minus)];
    }
  }

  lemma MinusPushes<V>(sem: Sem<V>, op: Op, a: V)
    ensures StepTok(sem, Go([a], [Oper(op)], true), Sym(Minus))
         == PushOp(Reduce(sem, Go([a, sem.zero], [Oper(op)], false), Threshold(Minus)), Oper(Minus))
  {
    hide Reduce, PushOp;
    assert [a] + [sem.zero] == [a, sem.zero];
  }

  /** Two values, 0 and another: minus gives 0 unless it takes 0 away, every other operator gives the other. */
  ghost function Toy<V>(zero: V, other: V): Sem<V> {
    Sem(zero, (o: Op, a: V, b: V) => Some(if o == Minus && b != zero then zero else other),
        (f: string, a: V) => None, (w: string) => other, (x: string) => None)
  }

  lemma ToyDiffers<V>(zero: V, other: V, op: Op)
    requires zero != other && Tight(op)
    ensures BareMinusValue(Toy(zero, other), op, Lit("1"), Lit("1"))
         != Value(Toy(zero, other), Bin(op, Lit("1"), Neg(Lit("1"))))
  {
  }

  /**
    A bare minus after op means `l op (-r)` for every arithmetic, over whatever values, exactly when op binds
    looser than minus: for the bitwise operators and the shifts. Otherwise it can go wrong as soon as there are
    two values, as `2 * -3` read as (2 * 0) - 3.
   */
  lemma BareMinusRightIff<V(!new)>(op: Op, zero: V, other: V)
    requires zero != other
    ensures op in {BOr, BXor, BAnd, Shl, Shr} <==>
      forall sem: Sem<V>, l, r :: BareMinusValue(sem, op, l, r) == Value(sem, Bin(op, l, Neg(r)))
  {
    hide Value, Toy, Apply2;
    if Tight(op) { ToyDiffers(zero, other, op); }
  }
}
