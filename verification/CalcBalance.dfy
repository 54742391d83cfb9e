/**
  What any text must be like for src/calc/calc.c to give it a value, well formed or not: one operand more than it
  has binary operators, and no bracket left open.
 */
module CalcBalance {
  import opened Common
  import opened CalcModel

  /** Operands less binary operators, and brackets open; `unary` says that a sign would be one here. */
  datatype Tally = Tally(unary: bool, balance: int, depth: nat)

  function Next(c: Tally, t: Tok): Tally {
    match t
    case Num(_) => Tally(false, c.balance + 1, c.depth)
    case Name(_) => Tally(false, c.balance + 1, c.depth)
    case Func(_) => Tally(true, c.balance, c.depth + 1)
    case Open => Tally(true, c.balance, c.depth + 1)
    case Close => Tally(false, c.balance, if c.depth > 0 then c.depth - 1 else 0)
    case Sym(op) => Tally(true, if c.unary && op in {Plus, Minus} then c.balance else c.balance - 1, c.depth)
  }

  function Count(c: Tally, toks: seq<Tok>): Tally
    decreases |toks|
  {
    if toks == [] then c else Count(Next(c, toks[0]), toks[1..])
  }

  /** The operators and the brackets on the stack. */
  function Opers(ops: seq<Entry>): nat {
    if ops == [] then 0 else Opers(ops[..|ops| - 1]) + if ops[|ops| - 1].Oper? then 1 else 0
  }

  function Brackets(ops: seq<Entry>): nat {
    if ops == [] then 0 else Brackets(ops[..|ops| - 1]) + if ops[|ops| - 1].Oper? then 0 else 1
  }

  predicate Tallied<V>(m: Machine<V>, c: Tally) {
    m.Go? ==> m.unary == c.unary && |m.vals| - Opers(m.ops) == c.balance && Brackets(m.ops) == c.depth
  }

  lemma PushTallied<V>(m: Machine<V>, c: Tally, v: V)
    requires m.Go? && Tallied(m, c)
    ensures Tallied(PushVal(m, v), Tally(false, c.balance + 1, c.depth))
  {
    hide Opers, Brackets;
  }

  lemma EntryTallied<V>(m: Machine<V>, c: Tally, e: Entry)
    requires Tallied(m, c)
    ensures Tallied(PushOp(m, e),
                    if e.Oper? then Tally(true, c.balance - 1, c.depth) else Tally(true, c.balance, c.depth + 1))
  {
    if m.Go? { assert (m.ops + [e])[..|m.ops|] == m.ops; }
  }

  lemma PopTallied<V>(sem: Sem<V>, m: Machine<V>, c: Tally)
    requires m.Go? && TopPrec(m.ops) > 0 && Tallied(m, c)
    ensures Tallied(PopOne(sem, m), c)
  {
    hide TopPrec;
    assert m.ops != [] && m.ops[|m.ops| - 1].Oper? by { OperOnTop(m.ops); }
  }

  lemma OperOnTop(ops: seq<Entry>)
    requires TopPrec(ops) > 0
    ensures ops != [] && ops[|ops| - 1].Oper?
  {
  }

  lemma {:induction false} ReduceTallied<V>(sem: Sem<V>, m: Machine<V>, min: nat, c: Tally)
    requires Tallied(m, c)
    ensures Tallied(Reduce(sem, m, min), c)
    decreases if m.Go? then |m.ops| else 0
  {
    hide Opers, Brackets, PopOne, Tallied;
    if m.Go? && TopPrec(m.ops) > 0 && TopPrec(m.ops) >= min {
      PopTallied(sem, m, c);
      PopShorter(sem, m);
      ReduceTallied(sem, PopOne(sem, m), min, c);
    }
  }

  lemma PopShorter<V>(sem: Sem<V>, m: Machine<V>)
    requires m.Go? && TopPrec(m.ops) > 0
    ensures PopOne(sem, m).Go? ==> |PopOne(sem, m).ops| < |m.ops|
  {
  }

  /** Behind the popping loops with threshold 0 a bracket is on top, or nothing. */
  lemma {:induction false} ReducedTop<V>(sem: Sem<V>, m: Machine<V>)
    ensures Reduce(sem, m, 0).Go? ==> TopPrec(Reduce(sem, m, 0).ops) == 0
    decreases if m.Go? then |m.ops| else 0
  {
    hide PopOne;
    if m.Go? && TopPrec(m.ops) > 0 {
      PopShorter(sem, m);
      ReducedTop(sem, PopOne(sem, m));
    }
  }

  lemma TopOf(ops: seq<Entry>)
    requires ops != [] && TopPrec(ops) == 0
    ensures !ops[|ops| - 1].Oper?
    ensures Opers(ops) == Opers(ops[..|ops| - 1]) && Brackets(ops) == Brackets(ops[..|ops| - 1]) + 1
  {
  }

  lemma NoEntries()
    ensures Opers([]) == 0 && Brackets([]) == 0
  {
  }

  lemma CloseTallied<V>(sem: Sem<V>, m: Machine<V>, c: Tally)
    requires Tallied(m, c) && (m.Go? ==> TopPrec(m.ops) == 0)
    ensures Tallied(CloseTop(sem, m), Next(c, Close))
  {
    hide Opers, Brackets;
    NoEntries();
    if m.Go? && m.ops != [] { TopOf(m.ops); }
  }

  lemma SymTallied<V>(sem: Sem<V>, m: Machine<V>, c: Tally, op: Op)
    requires m.Go? && Tallied(m, c)
    ensures Tallied(StepTok(sem, m, Sym(op)), Next(c, Sym(op)))
  {
    hide Opers, Brackets, Reduce;
    if op == Plus && m.unary {
    } else if op == Minus && m.unary {
      PushTallied(m, c, sem.zero);
      var c1 := Tally(false, c.balance + 1, c.depth);
      ReduceTallied(sem, PushVal(m, sem.zero), Threshold(Minus), c1);
      EntryTallied(Reduce(sem, PushVal(m, sem.zero), Threshold(Minus)), c1, Oper(Minus));
    } else {
      ReduceTallied(sem, m, Threshold(op), c);
      EntryTallied(Reduce(sem, m, Threshold(op)), c, Oper(op));
    }
  }

  lemma StepTallied<V>(sem: Sem<V>, m: Machine<V>, c: Tally, t: Tok)
    requires Tallied(m, c)
    ensures Tallied(StepTok(sem, m, t), Next(c, t))
  {
    if m.Go? {
      match t
      case Num(w) => PushTallied(m, c, sem.numeral(w));
      case Name(x) => if sem.names(x).Some? { PushTallied(m, c, sem.names(x).value); }
      case Func(f) => EntryTallied(m, c, Fn(f));
      case Open => EntryTallied(m, c, LParen);
      case Close =>
        ReduceTallied(sem, m, 0, c);
        ReducedTop(sem, m);
        CloseTallied(sem, Reduce(sem, m, 0), c);
      case Sym(op) => SymTallied(sem, m, c, op);
    }
  }

  lemma {:induction false} RunTallied<V>(sem: Sem<V>, m: Machine<V>, c: Tally, toks: seq<Tok>)
    requires Tallied(m, c)
    ensures Tallied(RunToks(sem, m, toks), Count(c, toks))
    decreases |toks|
  {
    hide Tallied, StepTok, Next;
    if toks == [] {
    } else {
      StepTallied(sem, m, c, toks[0]);
      RunTallied(sem, StepTok(sem, m, toks[0]), Next(c, toks[0]), toks[1..]);
    }
  }

  /** A value comes out only of tokens with one operand more than binary operators, and all brackets closed. */
  lemma ValueIsBalanced<V>(sem: Sem<V>, toks: seq<Tok>)
    requires |toks| <= 2048 && Evaluate(sem, toks).Result?
    ensures Count(Tally(true, 0, 0), toks).balance == 1 && Count(Tally(true, 0, 0), toks).depth == 0
  {
    hide Reduce, RunToks;
    var start := Tally(true, 0, 0);
    var m := RunToks(sem, Start(), toks);
    RunTallied(sem, Start(), start, toks);
    ReduceTallied(sem, m, 0, Count(start, toks));
  }

  /** Tokens behind the first 2048 are never read. */
  lemma OnlyFirstRead<V>(sem: Sem<V>, toks: seq<Tok>)
    requires |toks| > 2048
    ensures Evaluate(sem, toks) == Evaluate(sem, toks[..2048])
  {
    hide Finish, RunToks;
  }

  /** So these give none: nothing at all, an operator without its right operand, two operands, an open bracket. */
  lemma NoValue<V>(sem: Sem<V>, a: string, b: string, op: Op)
    ensures Evaluate(sem, []).Failed? && Evaluate(sem, [Num(a), Sym(op)]).Failed?
    ensures Evaluate(sem, [Num(a), Num(b)]).Failed? && Evaluate(sem, [Open, Num(a)]).Failed?
  {
    hide Evaluate;
    var c := Tally(true, 0, 0);
    CountTwo(c, Num(a), Sym(op)); CountTwo(c, Num(a), Num(b)); CountTwo(c, Open, Num(a));
    if Evaluate(sem, []).Result? { ValueIsBalanced(sem, []); }
    if Evaluate(sem, [Num(a), Sym(op)]).Result? { ValueIsBalanced(sem, [Num(a), Sym(op)]); }
    if Evaluate(sem, [Num(a), Num(b)]).Result? { ValueIsBalanced(sem, [Num(a), Num(b)]); }
    if Evaluate(sem, [Open, Num(a)]).Result? { ValueIsBalanced(sem, [Open, Num(a)]); }
  }

  lemma CountTwo(c: Tally, t: Tok, u: Tok)
    ensures Count(c, [t, u]) == Next(Next(c, t), u)
  {
    assert [t, u][1..] == [u] && [u][1..] == [];
    assert Count(Next(c, t), [u]) == Count(Next(Next(c, t), u), []);
  }
}
