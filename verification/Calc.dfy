/**
  src/calc/calc.c as it runs: the engine with its variables, and evaluate_expression_iterative over two
  fixed arrays and a moving position in the input.
 */
module Calc {
  import opened Common
  import opened CalcModel
  import opened CalcText

  datatype CalcVar<V> = CalcVar(name: string, value: V)

  /** The first variable of that name. */
  function Lookup<V>(vars: seq<CalcVar<V>>, x: string): Option<V> {
    if vars == [] then None else if vars[0].name == x then Some(vars[0].value) else Lookup(vars[1..], x)
  }

  function GetVar<V>(vars: seq<CalcVar<V>>, ans: V, x: string): Option<V> {
    if x == "ans" then Some(ans) else Lookup(vars, x)
  }

  /** `ans` is the last answer, and every other name the first variable of that name, if there is one. */
  lemma {:induction false} GetVarIs<V>(vars: seq<CalcVar<V>>, ans: V, x: string, i: nat)
    requires i <= |vars| && (i < |vars| ==> vars[i].name == x) && forall j :: 0 <= j < i ==> vars[j].name != x
    ensures GetVar(vars, ans, x)
         == if x == ['a', 'n', 's'] then Some(ans) else if i < |vars| then Some(vars[i].value) else None
  {
    LookupIs(vars, x, i);
  }

  lemma {:induction false} LookupIs<V>(vars: seq<CalcVar<V>>, x: string, i: nat)
    requires i <= |vars| && (i < |vars| ==> vars[i].name == x) && forall j :: 0 <= j < i ==> vars[j].name != x
    ensures Lookup(vars, x) == if i < |vars| then Some(vars[i].value) else None
    decreases i
  {
    if i == 0 {
    } else {
      LookupIs(vars[1..], x, i - 1);
    }
  }

  /** val_stack, op_stack with func_stack, their tops, and expect_unary. */
  class Stacks<V> {
    const sem: Sem<V>
    const vals: array<V>
    const ops: array<Entry>
    var valTop: nat
    var opTop: nat
    var unary: bool

    constructor (sem: Sem<V>)
      ensures Valid() && M() == Start() && this.sem == sem && fresh(vals) && fresh(ops)
    {
      this.sem := sem;
      vals := new V[CALC_MAX_STACK](_ => sem.zero);
      ops := new Entry[CALC_MAX_STACK](_ => LParen);
      valTop, opTop, unary := 0, 0, true;
    }

    ghost predicate Valid()
      reads this
    {
      && vals as object != ops && vals.Length == CALC_MAX_STACK && ops.Length == CALC_MAX_STACK
      && valTop <= CALC_MAX_STACK && opTop <= CALC_MAX_STACK
    }

    /** The machine state the arrays stand for. */
    ghost function M(): (m: Machine<V>)
      requires Valid()
      reads this, vals, ops
      ensures m.Go?
    {
      Go(vals[..valTop], ops[..opTop], unary)
    }

    /** Ran m (or stopped with a cause), as the function result r says. */
    ghost predicate Now(stop: Option<Cause>, r: Machine<V>)
      reads this, vals, ops
    {
      Valid() && if stop.Some? then r == Stop(stop.value) else r == M()
    }

    method Push(v: V) returns (stop: Option<Cause>)
      requires Valid()
      modifies this, vals, ops
      ensures Now(stop, PushVal(old(M()), v))
    {
      if valTop >= CALC_MAX_STACK { return Some(Overflow); }
      vals[valTop] := v;
      valTop := valTop + 1;
      unary := false;
      assert vals[..valTop] == old(M()).vals + [v];
      stop := None;
    }

    method PushEntry(e: Entry) returns (stop: Option<Cause>)
      requires Valid()
      modifies this, vals, ops
      ensures Now(stop, PushOp(old(M()), e))
    {
      if opTop >= CALC_MAX_STACK { return Some(Overflow); }
      ops[opTop] := e;
      opTop := opTop + 1;
      unary := true;
      assert ops[..opTop] == old(M()).ops + [e];
      stop := None;
    }

    /** Pops an operator and two values, and pushes the result. */
    method ApplyTop() returns (stop: Option<Cause>)
      requires Valid() && TopPrec(M().ops) > 0
      modifies this, vals, ops
      ensures Now(stop, PopOne(sem, old(M())))
    {
      opTop := opTop - 1;
      var op := ops[opTop].op;
      if valTop < 2 { return Some(Underflow); }
      valTop := valTop - 1;
      var b := vals[valTop];
      valTop := valTop - 1;
      var a := vals[valTop];
      var r := sem.bin(op, a, b);
      if r.None? { return Some(MathFail); }
      vals[valTop] := r.value;
      valTop := valTop + 1;
      assert vals[..valTop] == old(M()).vals[..old(valTop) - 2] + [r.value];
      stop := None;
    }

    /** The popping loops. */
    method ReduceTo(min: nat) returns (stop: Option<Cause>)
      requires Valid()
      modifies this, vals, ops
      ensures Now(stop, Reduce(sem, old(M()), min))
    {
      stop := None;
      while opTop > 0 && ops[opTop - 1].Oper? && Prec(ops[opTop - 1].op) >= min
        invariant Valid() && stop.None? && Reduce(sem, M(), min) == Reduce(sem, old(M()), min)
        decreases opTop
      {
        ghost var m := M();
        assert Reduce(sem, m, min) == Reduce(sem, PopOne(sem, m), min);
        stop := ApplyTop();
        if stop.Some? { return; }
      }
    }

    /** After a closing bracket. */
    method CloseBracket() returns (stop: Option<Cause>)
      requires Valid()
      modifies this, vals, ops
      ensures Now(stop, CloseTop(sem, Reduce(sem, old(M()), 0)))
    {
      stop := ReduceTo(0);
      if stop.Some? { return; }
      stop := DropTop();
    }

    method DropTop() returns (stop: Option<Cause>)
      requires Valid()
      modifies this, vals, ops
      ensures Now(stop, CloseTop(sem, old(M())))
    {
      stop := None;
      if opTop > 0 {
        if ops[opTop - 1].LParen? {
          opTop := opTop - 1;
        } else if ops[opTop - 1].Fn? {
          stop := ApplyFn();
          return;
        }
      }
      unary := false;
    }

    method ApplyFn() returns (stop: Option<Cause>)
      requires Valid() && opTop > 0 && ops[opTop - 1].Fn?
      modifies this, vals, ops
      ensures Now(stop, CloseTop(sem, old(M())))
    {
      opTop := opTop - 1;
      if valTop < 1 { return Some(Underflow); }
      var r := sem.fun(ops[opTop].name, vals[valTop - 1]);
      if r.None? { return Some(MathFail); }
      vals[valTop - 1] := r.value;
      unary := false;
      assert vals[..valTop] == old(M()).vals[..valTop - 1] + [r.value];
      stop := None;
    }

    /** One iteration of the main loop. */
    method Feed(t: Tok) returns (stop: Option<Cause>)
      requires Valid()
      modifies this, vals, ops
      ensures Now(stop, StepTok(sem, old(M()), t))
    {
      match t
      case Num(w) => stop := Push(sem.numeral(w));
      case Name(x) =>
        var v := sem.names(x);
        if v.None? { return Some(UnknownName); }
        stop := Push(v.value);
      case Func(f) => stop := PushEntry(Fn(f));
      case Open => stop := PushEntry(LParen);
      case Close => stop := CloseBracket();
      case Sym(op) =>
        if op == Plus && unary { return None; }
        if op == Minus && unary {
          stop := Push(sem.zero);
          if stop.Some? { return; }
        }
        stop := ReduceTo(Threshold(op));
        if stop.Some? { return; }
        stop := PushEntry(Oper(op));
    }

    /** What follows the main loop. */
    method Finalize() returns (o: Outcome<V>)
      requires Valid()
      modifies this, vals, ops
      ensures o == Finish(sem, old(M()))
    {
      var stop := ReduceTo(0);
      if stop.Some? { return Failed(stop.value); }
      if opTop > 0 { return Failed(Unbalanced); }
      if valTop == 1 { return Result(vals[0]); }
      return Failed(Leftover);
    }
  }

  /** g_calc: the variables and the last answer. */
  class Engine<V> {
    var vars: seq<CalcVar<V>>
    var lastAns: V

    constructor (ans: V)
      ensures vars == [] && lastAns == ans
    {
      vars, lastAns := [], ans;
    }

    /** The arithmetic `base` with this engine's variables. */
    function SemNow(base: Sem<V>): Sem<V>
      reads this
    {
      var vs, a := vars, lastAns;
      base.(names := x => GetVar(vs, a, x))
    }

    method PassBlanks(s: string, p: nat) returns (q: nat)
      requires p <= |s|
      ensures q == SkipBlanks(s, p)
    {
      q := p;
      while q < |s| && IsBlank(s[q])
        invariant p <= q <= |s| && SkipBlanks(s, q) == SkipBlanks(s, p)
      {
        q := q + 1;
      }
    }

    method PassSpaces(s: string, p: nat) returns (q: nat)
      requires p <= |s|
      ensures q == SkipSpaces(s, p)
    {
      q := p;
      while q < |s| && s[q] == ' '
        invariant p <= q <= |s| && SkipSpaces(s, q) == SkipSpaces(s, p)
      {
        q := q + 1;
      }
    }

    /** The loop that copies a name into its 32 characters. */
    method ReadName(s: string, p: nat) returns (name: string, q: nat)
      requires p <= |s|
      ensures q == WordEnd(s, p, NAME_MAX) && p <= q <= |s| && name == s[p..q]
    {
      name, q := "", p;
      while q < |s| && IsWord(s[q]) && |name| < NAME_MAX
        invariant p <= q <= |s| && name == s[p..q] && |name| <= NAME_MAX
        invariant WordEnd(s, q, NAME_MAX - |name|) == WordEnd(s, p, NAME_MAX)
      {
        name := name + [s[q]];
        q := q + 1;
      }
    }

    /** One token; the numbers are read by strtod and strtoull of the C library. */
    method NextToken(s: string, p: nat) returns (t: Option<Tok>, r: nat)
      requires p < |s|
      ensures (t, r) == LexAt(s, p)
    {
      hide WordEnd, SkipSpaces, NumberEnd;
      if StartsNumber(s, p) { return Some(Num(s[p..NumberEnd(s, p)])), NumberEnd(s, p); }
      if IsAlpha(s[p]) || s[p] == '_' {
        var name, e := ReadName(s, p);
        r := PassSpaces(s, e);
        if At(s, r) == '(' { return Some(Func(name)), r + 1; }
        return Some(Name(name)), r;
      }
      if s[p] == '(' || s[p] == '[' || s[p] == '{' { return Some(Open), p + 1; }
      if s[p] == ')' || s[p] == ']' || s[p] == '}' { return Some(Close), p + 1; }
      if s[p] == '<' && At(s, p + 1) == '<' { return Some(Sym(Shl)), p + 2; }
      if s[p] == '>' && At(s, p + 1) == '>' { return Some(Sym(Shr)), p + 2; }
      var o := OneChar(s[p]);
      if o.None? { return None, p; }
      t, r := Some(Sym(o.value)), p + 1;
    }

    /** evaluate_expression_iterative: the machine's outcome, remembered in `ans` when there is a value. */
    method EvaluateExpression(base: Sem<V>, s: string) returns (o: Outcome<V>)
      modifies this`lastAns
      ensures o == EvaluateText(old(SemNow(base)), s)
      ensures lastAns == if o.Result? then o.v else old(lastAns)
    {
      hide RunText, LexAt, StepTok, SkipBlanks, Finish;
      var sem := SemNow(base);
      var st := new Stacks(sem);
      var p: nat, steps: nat := 0, 0;
      while steps < CALC_MAX_STEPS
        invariant st.Valid() && st.sem == sem && p <= |s| && steps <= CALC_MAX_STEPS
        invariant fresh(st) && fresh(st.vals) && fresh(st.ops) && lastAns == old(lastAns)
        invariant RunText(sem, st.M(), s, p, steps) == EvaluateText(sem, s)
        decreases CALC_MAX_STEPS - steps
      {
        var q := PassBlanks(s, p);
        if q >= |s| { break; }
        var t, r := NextToken(s, q);
        if t.None? { TextRejected(sem, st.M(), s, p, steps); return Failed(BadSymbol); }
        TextStep(sem, st.M(), s, p, q, t.value, r, steps);
        var stop := st.Feed(t.value);
        if stop.Some? { return Failed(stop.value); }
        p, steps := r, steps + 1;
      }
      TextEnds(sem, st.M(), s, p, steps);
      o := st.Finalize();
      if o.Result? { lastAns := o.v; }
    }
  }
}
