/**
  From expression trees to characters and back: the text of an expression, written token by token with
  blanks between, is cut into the same tokens, so src/calc/calc.c evaluates the string to what the tree means.
 */
module CalcRender {
  import opened Common
  import opened CalcModel
  import opened CalcProof
  import opened CalcText

  predicate AllDigits(w: string) { w == [] || (IsDigit(w[0]) && AllDigits(w[1..])) }
  predicate AllWord(x: string) { x == [] || (IsWord(x[0]) && AllWord(x[1..])) }

  /** Digits, a point, and at least one digit after it. */
  predicate Fraction(w: string) {
    w != [] && ((w[0] == '.' && |w| > 1 && AllDigits(w[1..])) || (IsDigit(w[0]) && Fraction(w[1..])))
  }

  predicate Decimal(w: string) { w != [] && (AllDigits(w) || Fraction(w)) }

  predicate Identifier(x: string) { 0 < |x| <= NAME_MAX && !IsDigit(x[0]) && AllWord(x) }

  predicate Legible(t: Tok) {
    match t
    case Num(w) => Decimal(w)
    case Name(x) => Identifier(x)
    case Func(f) => Identifier(f)
    case Open => true
    case Close => true
    case Sym(op) => op != BXor
  }

  function OpText(op: Op): string
    requires op != BXor
  {
    match op
    case Plus => "+" case Minus => "-" case Mul => "*" case Div => "/" case Mod => "%" case Pow => "^"
    case BAnd => "&" case BOr => "|" case Shl => "<<" case Shr => ">>"
  }

  function TokText(t: Tok): string
    requires Legible(t)
  {
    match t
    case Num(w) => w
    case Name(x) => x
    case Func(f) => f + "("
    case Open => "("
    case Close => ")"
    case Sym(op) => OpText(op)
  }

  /** Legible tokens, with no name directly before an opening bracket: that would be read as a call. */
  predicate Writable(toks: seq<Tok>) {
    toks == [] ||
    (Legible(toks[0]) && (toks[0].Name? && |toks| > 1 ==> !toks[1].Open?) && Writable(toks[1..]))
  }

  function Spell(toks: seq<Tok>): seq<string>
    requires Writable(toks)
  {
    if toks == [] then [] else [TokText(toks[0])] + Spell(toks[1..])
  }

  function Spaced(xs: seq<string>): string { if xs == [] then "" else xs[0] + " " + Spaced(xs[1..]) }

  function Render(toks: seq<Tok>): string
    requires Writable(toks)
  {
    Spaced(Spell(toks))
  }

  // ---- one token ------------------------------------------------------------------------------------

  /** s has w at p, and then some further character. */
  predicate Here(s: string, p: nat, w: string) { p + |w| < |s| && s[p..p + |w|] == w }

  lemma HereTail(s: string, p: nat, w: string)
    requires Here(s, p, w) && w != []
    ensures s[p] == w[0] && Here(s, p + 1, w[1..]) && p + 1 + |w[1..]| == p + |w|
  {
    assert s[p] == s[p..p + |w|][0];
    assert s[p + 1..p + |w|] == s[p..p + |w|][1..];
  }

  lemma {:induction false} DigitsRun(s: string, p: nat, w: string)
    requires Here(s, p, w) && AllDigits(w) && !IsDigit(s[p + |w|])
    ensures DigitsEnd(s, p, 10) == p + |w|
    decreases |w|
  {
    if w == [] {
    } else {
      HereTail(s, p, w);
      DigitsRun(s, p + 1, w[1..]);
    }
  }

  lemma {:induction false} FractionRun(s: string, p: nat, w: string)
    requires Here(s, p, w) && Fraction(w) && s[p + |w|] == ' '
    ensures StrtodEnd(s, p) == p + |w|
    decreases |w|
  {
    HereTail(s, p, w);
    if w[0] == '.' && |w| > 1 && AllDigits(w[1..]) {
      DigitsRun(s, p + 1, w[1..]);
    } else {
      hide StrtodEnd, Here;
      OneDigitMore(s, p);
      FractionRun(s, p + 1, w[1..]);
    }
  }

  lemma OneDigitMore(s: string, p: nat)
    requires p < |s| && IsDigit(s[p])
    ensures StrtodEnd(s, p) == StrtodEnd(s, p + 1)
  {
  }

  lemma {:induction false} WordRun(s: string, p: nat, x: string, room: nat)
    requires Here(s, p, x) && AllWord(x) && |x| <= room && !IsWord(s[p + |x|])
    ensures WordEnd(s, p, room) == p + |x|
    decreases |x|
  {
    if x == [] {
    } else {
      HereTail(s, p, x);
      WordRun(s, p + 1, x[1..], room - 1);
    }
  }

  /** s has the text of t at p, followed by a blank. */
  ghost predicate TextAt(s: string, p: nat, t: Tok)
    requires Legible(t)
  {
    Here(s, p, TokText(t)) && s[p + |TokText(t)|] == ' '
  }

  lemma DecimalStart(s: string, p: nat, w: string)
    requires Decimal(w) && Here(s, p, w) && s[p + |w|] == ' '
    ensures StartsNumber(s, p) && (At(s, p + 1) == ' ' || At(s, p + 1) == '.' || IsDigit(At(s, p + 1)))
  {
    HereTail(s, p, w);
    if |w| > 1 { HereTail(s, p + 1, w[1..]); SecondOf(w); }
  }

  lemma SecondOf(w: string)
    requires Decimal(w) && |w| > 1
    ensures w[1] == '.' || IsDigit(w[1])
  {
    var v := w[1..];
    assert v[0] == w[1];
    assert AllDigits(w) ==> AllDigits(v);
    assert Fraction(w) ==> AllDigits(v) || Fraction(v);
  }

  lemma LexDecimal(s: string, p: nat, w: string)
    requires Decimal(w) && Here(s, p, w) && s[p + |w|] == ' '
    ensures LexAt(s, p) == (Some(Num(w)), p + |w|)
  {
    if AllDigits(w) { DigitsRun(s, p, w); } else { FractionRun(s, p, w); }
    DecimalStart(s, p, w);
    assert StrtodEnd(s, p) == p + |w|;
    assert NumberEnd(s, p) == p + |w|;
  }

  lemma LexWord(s: string, p: nat, x: string)
    requires Identifier(x) && Here(s, p, x) && !IsWord(s[p + |x|])
    ensures var e := p + |x|;
      var q := SkipSpaces(s, e);
      LexAt(s, p) == if At(s, q) == '(' then (Some(Func(x)), q + 1) else (Some(Name(x)), q)
  {
    HereTail(s, p, x);
    WordRun(s, p, x, NAME_MAX);
  }

  lemma LexSymbol(s: string, p: nat, t: Tok)
    requires (t.Sym? || t.Open? || t.Close?) && Legible(t) && TextAt(s, p, t)
    ensures LexAt(s, p) == (Some(t), p + |TokText(t)|)
  {
    HereTail(s, p, TokText(t));
    if |TokText(t)| > 1 { HereTail(s, p + 1, TokText(t)[1..]); }
  }

  /** Where reading goes on after t: past the blank if t is a name, at the blank otherwise. */
  function After(p: nat, t: Tok): nat
    requires Legible(t)
  {
    p + |TokText(t)| + if t.Name? then 1 else 0
  }

  lemma LexCall(s: string, p: nat, f: string)
    requires Identifier(f) && TextAt(s, p, Func(f))
    ensures LexAt(s, p) == (Some(Func(f)), p + |f| + 1)
  {
    hide LexAt, Identifier;
    assert Legible(Func(f)) ==> TokText(Func(f)) == f + "(";
    assert s[p..p + |f|] == s[p..p + |f| + 1][..|f|] == f;
    assert s[p + |f|] == s[p..p + |f| + 1][|f|];
    LexWord(s, p, f);
  }

  lemma LexName(s: string, p: nat, x: string)
    requires Identifier(x) && Here(s, p, x) && s[p + |x|] == ' '
    requires At(s, p + |x| + 1) != '(' && At(s, p + |x| + 1) != ' '
    ensures LexAt(s, p) == (Some(Name(x)), p + |x| + 1)
  {
    LexWord(s, p, x);
    assert SkipSpaces(s, p + |x|) == SkipSpaces(s, p + |x| + 1) == p + |x| + 1;
  }

  lemma LexTok(s: string, p: nat, t: Tok)
    requires Legible(t) && TextAt(s, p, t)
    requires t.Name? ==> At(s, p + |TokText(t)| + 1) != '(' && At(s, p + |TokText(t)| + 1) != ' '
    ensures LexAt(s, p) == (Some(t), After(p, t))
  {
    hide LexAt, Decimal, Identifier, Here, At;
    match t
    case Num(w) => LexDecimal(s, p, w);
    case Name(x) => LexName(s, p, x);
    case Func(f) => LexCall(s, p, f);
    case Open => LexSymbol(s, p, t);
    case Close => LexSymbol(s, p, t);
    case Sym(_) => LexSymbol(s, p, t);
  }

  // ---- a whole text ---------------------------------------------------------------------------------

  /** The main loop, started at p, cuts the rest of s into exactly these tokens. */
  ghost predicate LexesTo(s: string, p: nat, toks: seq<Tok>)
    decreases |toks|
  {
    var q := SkipBlanks(s, p);
    if toks == [] then q >= |s|
    else q < |s| && LexAt(s, q).0 == Some(toks[0]) && LexesTo(s, LexAt(s, q).1, toks[1..])
  }

  lemma {:induction false} LexRun<V>(sem: Sem<V>, m: Machine<V>, s: string, p: nat, toks: seq<Tok>, steps: nat)
    requires m.Go? && steps + |toks| <= CALC_MAX_STEPS && LexesTo(s, p, toks)
    ensures RunText(sem, m, s, p, steps) == Finish(sem, RunToks(sem, m, toks))
    decreases |toks|
  {
    hide LexAt, StepTok, RunText, SkipBlanks;
    if toks == [] {
      TextEnds(sem, m, s, p, steps);
    } else {
      var q := SkipBlanks(s, p);
      TextStep(sem, m, s, p, q, toks[0], LexAt(s, q).1, steps);
      var m' := StepTok(sem, m, toks[0]);
      if m'.Stop? { Stopped(sem, m', toks[1..]); } else { LexRun(sem, m', s, LexAt(s, q).1, toks[1..], steps + 1); }
    }
  }

  /** From q on, s holds these words, each with a blank behind it, and nothing else. */
  ghost predicate Words(s: string, q: nat, xs: seq<string>)
    decreases |xs|
  {
    if xs == [] then q == |s|
    else Here(s, q, xs[0]) && s[q + |xs[0]|] == ' ' && Words(s, q + |xs[0]| + 1, xs[1..])
  }

  lemma FirstChar(t: Tok)
    requires Legible(t)
    ensures TokText(t) != "" && !IsBlank(TokText(t)[0]) && (TokText(t)[0] == '(' <==> t.Open?)
  {
  }

  /** The first character of the texts: no blank, and a bracket only for a bracket. */
  lemma FirstOf(s: string, q: nat, toks: seq<Tok>)
    requires Writable(toks) && Words(s, q, Spell(toks))
    ensures if toks == [] then q == |s| else q < |s| && !IsBlank(s[q]) && (s[q] == '(' <==> toks[0].Open?)
  {
    if toks != [] {
      FirstChar(toks[0]);
      HereTail(s, q, TokText(toks[0]));
    }
  }

  /** Reads one token of the texts: reading goes on at r, the next text lies at q', blanks between. */
  lemma ReadOne(s: string, q: nat, toks: seq<Tok>) returns (q': nat)
    requires Writable(toks) && toks != [] && Words(s, q, Spell(toks))
    ensures q < |s| && SkipBlanks(s, q) == q && LexAt(s, q).0 == Some(toks[0])
    ensures Words(s, q', Spell(toks[1..])) && SkipBlanks(s, LexAt(s, q).1) == SkipBlanks(s, q')
  {
    q' := q + |TokText(toks[0])| + 1;
    FirstOf(s, q, toks);
    FirstOf(s, q', toks[1..]);
    LexTok(s, q, toks[0]);
  }

  lemma {:induction false} TextsLex(s: string, p: nat, q: nat, toks: seq<Tok>)
    requires Writable(toks) && Words(s, q, Spell(toks)) && SkipBlanks(s, p) == SkipBlanks(s, q)
    ensures LexesTo(s, p, toks)
    decreases |toks|
  {
    if toks == [] {
    } else {
      var q' := ReadOne(s, q, toks);
      TextsLex(s, LexAt(s, q).1, q', toks[1..]);
    }
  }

  lemma ShiftHere(pre: string, s: string, p: nat, w: string)
    requires Here(s, p, w)
    ensures Here(pre + s, |pre| + p, w) && (pre + s)[|pre| + p + |w|] == s[p + |w|]
  {
    assert (pre + s)[|pre| + p..|pre| + p + |w|] == s[p..p + |w|];
  }

  lemma {:induction false} Shift(pre: string, s: string, q: nat, xs: seq<string>)
    requires Words(s, q, xs)
    ensures Words(pre + s, |pre| + q, xs)
    decreases |xs|
  {
    if xs == [] {
      assert |pre + s| == |pre| + q;
    } else {
      ShiftHere(pre, s, q, xs[0]);
      Shift(pre, s, q + |xs[0]| + 1, xs[1..]);
    }
  }

  lemma {:induction false} SpacedWords(xs: seq<string>)
    ensures Words(Spaced(xs), 0, xs)
    decreases |xs|
  {
    if xs == [] {
    } else {
      SpacedWords(xs[1..]);
      Shift(xs[0] + " ", Spaced(xs[1..]), 0, xs[1..]);
      var s := xs[0] + " " + Spaced(xs[1..]);
      assert s[0..|xs[0]|] == xs[0] && s[|xs[0]|] == ' ';
    }
  }

  /** The text of any writable token list is cut into just those tokens. */
  lemma RenderLexes(toks: seq<Tok>)
    requires Writable(toks)
    ensures LexesTo(Render(toks), 0, toks)
  {
    SpacedWords(Spell(toks));
    TextsLex(Render(toks), 0, 0, toks);
  }

  // ---- the texts of expressions ---------------------------------------------------------------------

  predicate LegibleExpr(e: Expr) {
    match e
    case Lit(w) => Decimal(w)
    case Var(x) => Identifier(x)
    case Neg(a) => LegibleExpr(a)
    case Pos(a) => LegibleExpr(a)
    case Bin(op, l, r) => op != BXor && LegibleExpr(l) && LegibleExpr(r)
    case Call(f, a) => Identifier(f) && LegibleExpr(a)
    case Group(a) => LegibleExpr(a)
  }

  lemma {:induction false} Join(a: seq<Tok>, b: seq<Tok>)
    requires Writable(a) && Writable(b)
    requires a == [] || b == [] || !a[|a| - 1].Name? || !b[0].Open?
    ensures Writable(a + b)
    decreases |a|
  {
    if a == [] {
      assert a + b == b;
    } else {
      assert (a + b)[1..] == a[1..] + b;
      Join(a[1..], b);
    }
  }

  lemma {:induction false} PrintLegible(e: Expr, level: nat, lead: bool)
    requires LegibleExpr(e)
    ensures Writable(Print(e, level, lead))
    decreases e, if Bracketed(e, level, lead) then 1 else 0
  {
    if Bracketed(e, level, lead) {
      PrintLegible(e, 0, true);
      Join([Open], Print(e, 0, true));
      Join([Open] + Print(e, 0, true), [Close]);
    } else {
      match e
      case Lit(_) =>
      case Var(_) =>
      case Neg(a) => PrintLegible(a, RightLevel(Minus), false); Join([Sym(Minus)], Print(a, RightLevel(Minus), false));
      case Pos(a) => PrintLegible(a, level, lead); Join([Sym(Plus)], Print(a, level, lead));
      case Bin(op, l, r) =>
        PrintLegible(l, Threshold(op), lead);
        PrintLegible(r, RightLevel(op), false);
        Join(Print(l, Threshold(op), lead), [Sym(op)]);
        Join(Print(l, Threshold(op), lead) + [Sym(op)], Print(r, RightLevel(op), false));
      case Call(f, a) =>
        PrintLegible(a, 0, true);
        Join([Func(f)], Print(a, 0, true));
        Join([Func(f)] + Print(a, 0, true), [Close]);
      case Group(a) =>
        PrintLegible(a, 0, true);
        Join([Open], Print(a, 0, true));
        Join([Open] + Print(a, 0, true), [Close]);
    }
  }

  /** The characters of a legible expression. */
  function Written(e: Expr): string
    requires LegibleExpr(e)
  {
    PrintLegible(e, 0, true);
    Render(Text(e))
  }

  /** However an expression is written: if the string is cut into its tokens, its value is the meaning of the tree. */
  lemma AnyWritingMeans<V>(sem: Sem<V>, e: Expr, s: string)
    requires LexesTo(s, 0, Text(e)) && |Text(e)| <= 2048
    ensures Agrees(EvaluateText(sem, s), if WithinStacks(e) then Value(sem, e) else None)
  {
    LexRun(sem, Start(), s, 0, Text(e), 0);
    MeaningPreserved(sem, e);
  }

  /**
    The evaluator, given the written form of any legible expression as a string, returns v exactly when
    the expression means v and fits the stacks.
   */
  lemma StringMeaning<V>(sem: Sem<V>, e: Expr)
    requires LegibleExpr(e) && |Text(e)| <= 2048
    ensures Agrees(EvaluateText(sem, Written(e)), if WithinStacks(e) then Value(sem, e) else None)
  {
    PrintLegible(e, 0, true);
    RenderLexes(Text(e));
    AnyWritingMeans(sem, e, Written(e));
  }
}
