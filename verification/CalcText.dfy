/**
  The characters of an expression: how evaluate_expression_iterative of src/calc/calc.c cuts its input
  into tokens while it runs, and what text writes a given list of tokens.
 */
module CalcText {
  import opened Common
  import opened CalcModel

  /** The character at i; the NUL that ends a C string past the end. */
  function At(s: string, i: nat): char { if i < |s| then s[i] else '\0' }

  predicate IsDigit(c: char) { '0' <= c <= '9' }
  predicate IsAlpha(c: char) { 'a' <= c <= 'z' || 'A' <= c <= 'Z' }
  predicate IsWord(c: char) { IsAlpha(c) || IsDigit(c) || c == '_' }
  predicate IsBlank(c: char) { c == ' ' || c == '\t' }
  predicate IsSpace(c: char) { c == ' ' || '\t' <= c <= '\r' }

  predicate IsBaseDigit(c: char, base: nat) {
    if base == 16 then IsDigit(c) || 'a' <= c <= 'f' || 'A' <= c <= 'F'
    else '0' <= c && (c as int) < ('0' as int) + base
  }

  function SkipBlanks(s: string, p: nat): (q: nat)
    ensures p <= q && (p <= |s| ==> q <= |s|) && (q < |s| ==> s[q] != ' ' && s[q] != '\t')
    ensures forall i :: p <= i < q && i < |s| ==> s[i] == ' ' || s[i] == '\t'
    decreases |s| - p
  {
    if p < |s| && IsBlank(s[p]) then SkipBlanks(s, p + 1) else p
  }

  function SkipSpaces(s: string, p: nat): (q: nat)
    ensures p <= q && (p <= |s| ==> q <= |s|) && At(s, q) != ' '
    ensures forall i :: p <= i < q && i < |s| ==> s[i] == ' '
    decreases |s| - p
  {
    if p < |s| && s[p] == ' ' then SkipSpaces(s, p + 1) else p
  }

  function DigitsEnd(s: string, p: nat, base: nat): (q: nat)
    requires base <= 10 || base == 16
    ensures p <= q && (p <= |s| ==> q <= |s|)
    decreases |s| - p
  {
    if p < |s| && IsBaseDigit(s[p], base) then DigitsEnd(s, p + 1, base) else p
  }

  function SkipSpaceClass(s: string, p: nat): (q: nat)
    ensures p <= q && (p <= |s| ==> q <= |s|)
    decreases |s| - p
  {
    if p < |s| && IsSpace(s[p]) then SkipSpaceClass(s, p + 1) else p
  }

  /** Where strtoull stops: white space, a sign, for base 16 another 0x, then digits; or at once if there are none. */
  function StrtoullEnd(s: string, p: nat, base: nat): (q: nat)
    requires base <= 10 || base == 16
    ensures p <= |s| ==> p <= q <= |s|
  {
    var a := SkipSpaceClass(s, p);
    var b := if At(s, a) == '+' || At(s, a) == '-' then a + 1 else a;
    var c := if base == 16 && At(s, b) == '0' && (At(s, b + 1) == 'x' || At(s, b + 1) == 'X')
      && IsBaseDigit(At(s, b + 2), 16)
             then b + 2 else b;
    var d := DigitsEnd(s, c, base);
    if d == c then p else d
  }

  /** Where strtod stops when it starts at a digit or at a point before a digit. */
  function StrtodEnd(s: string, p: nat): (q: nat)
    ensures p <= |s| ==> p <= q <= |s|
  {
    var a := DigitsEnd(s, p, 10);
    var b := if At(s, a) == '.' then DigitsEnd(s, a + 1, 10) else a;
    if At(s, b) == 'e' || At(s, b) == 'E' then
      if IsDigit(At(s, b + 1)) then DigitsEnd(s, b + 1, 10)
      else if (At(s, b + 1) == '+' || At(s, b + 1) == '-') && IsDigit(At(s, b + 2)) then DigitsEnd(s, b + 2, 10)
      else b
    else b
  }

  predicate StartsNumber(s: string, p: nat) { IsDigit(At(s, p)) || (At(s, p) == '.' && IsDigit(At(s, p + 1))) }

  function NumberEnd(s: string, p: nat): (q: nat)
    requires p < |s| && StartsNumber(s, p)
    ensures p < q <= |s|
  {
    var c := At(s, p + 1);
    if s[p] == '0' && (c == 'x' || c == 'X') then StrtoullEnd(s, p + 2, 16)
    else if s[p] == '0' && (c == 'b' || c == 'B') then StrtoullEnd(s, p + 2, 2)
    else if s[p] == '0' && (c == 'o' || c == 'O') then StrtoullEnd(s, p + 2, 8)
    else StrtodEnd(s, p)
  }

  /** A name ends after 31 characters, whatever follows. */
  function WordEnd(s: string, p: nat, room: nat): (q: nat)
    ensures p <= q && (p <= |s| ==> q <= |s|)
    decreases room
  {
    if room > 0 && p < |s| && IsWord(s[p]) then WordEnd(s, p + 1, room - 1) else p
  }

  const NAME_MAX: nat := 31

  function OneChar(c: char): Option<Op> {
    if c == '+' then Some(Plus) else if c == '-' then Some(Minus) else if c == '*' || c == 'x' then Some(Mul)
    else if c == '/' then Some(Div) else if c == '%' then Some(Mod) else if c == '^' then Some(Pow)
    else if c == '&' then Some(BAnd) else if c == '|' then Some(BOr) else None
  }

  /** The token at p and where the next one may start; no token for a character the evaluator rejects. */
  function LexAt(s: string, p: nat): (r: (Option<Tok>, nat))
    requires p < |s|
    ensures r.0.Some? ==> p < r.1 <= |s|
  {
    if StartsNumber(s, p) then (Some(Num(s[p..NumberEnd(s, p)])), NumberEnd(s, p))
    else if IsAlpha(s[p]) || s[p] == '_' then
      var e := WordEnd(s, p, NAME_MAX);
      var q := SkipSpaces(s, e);
      if At(s, q) == '(' then (Some(Func(s[p..e])), q + 1) else (Some(Name(s[p..e])), q)
    else if s[p] == '(' || s[p] == '[' || s[p] == '{' then (Some(Open), p + 1)
    else if s[p] == ')' || s[p] == ']' || s[p] == '}' then (Some(Close), p + 1)
    else if s[p] == '<' && At(s, p + 1) == '<' then (Some(Sym(Shl)), p + 2)
    else if s[p] == '>' && At(s, p + 1) == '>' then (Some(Sym(Shr)), p + 2)
    else
      var o := OneChar(s[p]);
      if o.Some? then (Some(Sym(o.value)), p + 1) else (None, p)
  }

  /** Which characters are which operator or bracket. A letter begins a name, so the x among them is never reached. */
  lemma SymbolIff(s: string, p: nat)
    requires p < |s|
    ensures var t := LexAt(s, p).0;
      && (t == Some(Sym(Plus)) <==> s[p] == '+') && (t == Some(Sym(Minus)) <==> s[p] == '-')
      && (t == Some(Sym(Mul)) <==> s[p] == '*') && (t == Some(Sym(Div)) <==> s[p] == '/')
      && (t == Some(Sym(Mod)) <==> s[p] == '%') && (t == Some(Sym(Pow)) <==> s[p] == '^')
      && (t == Some(Sym(BAnd)) <==> s[p] == '&') && (t == Some(Sym(BOr)) <==> s[p] == '|')
      && (t == Some(Sym(Shl)) <==> p + 1 < |s| && s[p] == '<' == s[p + 1])
      && (t == Some(Sym(Shr)) <==> p + 1 < |s| && s[p] == '>' == s[p + 1])
      && (t == Some(Open) <==> s[p] == '(' || s[p] == '[' || s[p] == '{')
      && (t == Some(Close) <==> s[p] == ')' || s[p] == ']' || s[p] == '}') && t != Some(Sym(BXor))
      && (IsAlpha(s[p]) ==> t.Some? && (t.value.Name? || t.value.Func?))
  {
    hide NumberEnd, WordEnd, SkipSpaces;
  }

  predicate Hex(letter: char) { letter == 'x' || letter == 'X' }
  predicate Binary(letter: char) { letter == 'b' || letter == 'B' }
  predicate Octal(letter: char) { letter == 'o' || letter == 'O' }
  predicate Prefixes(letter: char) { Hex(letter) || Binary(letter) || Octal(letter) }

  /** A digit after a prefix with that letter. */
  predicate Digit(letter: char, c: char) {
    if Hex(letter) then '0' <= c <= '9' || 'a' <= c <= 'f' || 'A' <= c <= 'F'
    else if Binary(letter) then '0' <= c <= '1' else '0' <= c <= '7'
  }

  /** The next n characters are digits of that base, and the one after them is not. */
  predicate Digits(letter: char, s: string, p: nat, n: nat) {
    && p + n <= |s| && (forall i :: p <= i < p + n ==> Digit(letter, s[i]))
    && (p + n < |s| ==> !Digit(letter, s[p + n]))
  }

  function Base(letter: char): (b: nat)
    ensures b <= 10 || b == 16
  {
    if Hex(letter) then 16 else if Binary(letter) then 2 else 8
  }

  lemma DigitIs(letter: char, c: char)
    ensures Digit(letter, c) <==> IsBaseDigit(c, Base(letter))
  {
  }

  lemma {:induction false} DigitsRun(letter: char, s: string, p: nat, n: nat)
    requires Digits(letter, s, p, n)
    ensures DigitsEnd(s, p, Base(letter)) == p + n
    decreases n
  {
    hide Digit, IsBaseDigit, Base;
    if p < |s| { DigitIs(letter, s[p]); }
    if n == 0 {
    } else {
      assert Digit(letter, s[p]);
      DigitsRun(letter, s, p + 1, n - 1);
    }
  }

  predicate White(c: char) { c as int == 32 || 9 <= c as int <= 13 }
  predicate Sign(c: char) { c == '+' || c == '-' }

  /** At p the digits themselves begin another 0x number. */
  predicate PrefixAgain(letter: char, s: string, p: nat) {
    Hex(letter) && p + 2 < |s| && s[p] == '0' && Hex(s[p + 1]) && Digit('x', s[p + 2])
  }

  lemma {:induction false} WhiteRun(s: string, p: nat, w: nat)
    requires p + w <= |s| && (forall i :: p <= i < p + w ==> White(s[i])) && (p + w < |s| ==> !White(s[p + w]))
    ensures SkipSpaceClass(s, p) == p + w
    decreases w
  {
    if w == 0 {
    } else {
      WhiteRun(s, p + 1, w - 1);
    }
  }

  /** Where the digits begin that strtoull reads from p on, behind w white characters. */
  function DigitsFrom(letter: char, s: string, p: nat, w: nat): nat {
    var b := if p + w < |s| && Sign(s[p + w]) then p + w + 1 else p + w;
    if PrefixAgain(letter, s, b) then b + 2 else b
  }

  lemma PrefixIs(letter: char, s: string, b: nat)
    requires Prefixes(letter)
    ensures PrefixAgain(letter, s, b) <==>
      Base(letter) == 16 && At(s, b) == '0' && (At(s, b + 1) == 'x' || At(s, b + 1) == 'X')
      && IsBaseDigit(At(s, b + 2), 16)
  {
    if b + 2 < |s| { DigitIs('x', s[b + 2]); }
    hide Digit;
  }

  lemma StrtoullIs(letter: char, s: string, p: nat, w: nat, n: nat)
    requires Prefixes(letter) && p + w <= |s| && (forall i :: p <= i < p + w ==> White(s[i]))
    requires (p + w < |s| ==> !White(s[p + w])) && Digits(letter, s, DigitsFrom(letter, s, p, w), n)
    ensures StrtoullEnd(s, p, Base(letter)) == if n == 0 then p else DigitsFrom(letter, s, p, w) + n
  {
    var d := DigitsFrom(letter, s, p, w);
    WhiteRun(s, p, w);
    DigitsRun(letter, s, d, n);
    PrefixIs(letter, s, if p + w < |s| && Sign(s[p + w]) then p + w + 1 else p + w);
    hide Digits, Digit, DigitsEnd, IsBaseDigit, Base, SkipSpaceClass, PrefixAgain, White;
  }

  /**
    A numeral after 0x, 0b or 0o is all the digits of its base that follow, behind white space, a sign and, for 0x,
    another 0x; without a digit it is the prefix alone.
   */
  lemma PrefixedNumber(s: string, p: nat, w: nat, n: nat)
    requires p + 2 + w <= |s| && s[p] == '0' && Prefixes(s[p + 1])
    requires (forall i :: p + 2 <= i < p + 2 + w ==> White(s[i])) && (p + 2 + w < |s| ==> !White(s[p + 2 + w]))
    requires Digits(s[p + 1], s, DigitsFrom(s[p + 1], s, p + 2, w), n)
    ensures var end := if n == 0 then p + 2 else DigitsFrom(s[p + 1], s, p + 2, w) + n;
      end <= |s| && LexAt(s, p) == (Some(Num(s[p..end])), end)
  {
    StrtoullIs(s[p + 1], s, p + 2, w, n);
    hide Digits, StrtoullEnd, StrtodEnd, WordEnd, SkipSpaces, DigitsFrom;
    assert NumberEnd(s, p) == StrtoullEnd(s, p + 2, Base(s[p + 1]));
    hide NumberEnd, Base;
  }

  /** The next n characters are decimal digits, and the one after them is not. */
  predicate Decimals(s: string, p: nat, n: nat) {
    && p + n <= |s| && (forall i :: p <= i < p + n ==> '0' <= s[i] <= '9')
    && (p + n < |s| ==> !('0' <= s[p + n] <= '9'))
  }

  lemma {:induction false} DecimalsRun(s: string, p: nat, n: nat)
    requires Decimals(s, p, n)
    ensures DigitsEnd(s, p, 10) == p + n
    decreases n
  {
    if n == 0 {
    } else {
      DecimalsRun(s, p + 1, n - 1);
    }
  }

  predicate Point(s: string, p: nat) { p < |s| && s[p] == '.' }

  predicate Power(s: string, p: nat) { p < |s| && (s[p] == 'e' || s[p] == 'E') }

  /** Where the digits of an exponent begin. */
  function PowerFrom(s: string, p: nat): nat { if p + 1 < |s| && Sign(s[p + 1]) then p + 2 else p + 1 }

  /** Behind i digits, and f more when a point follows. */
  function Mantissa(s: string, p: nat, i: nat, f: nat): nat { if Point(s, p + i) then p + i + 1 + f else p + i }

  /** Behind that, and x digits of an exponent if there are any. */
  function NumeralEnd(s: string, m: nat, x: nat): nat { if Power(s, m) && x > 0 then PowerFrom(s, m) + x else m }

  lemma MantissaIs(s: string, p: nat, i: nat, f: nat)
    requires Decimals(s, p, i) && (Point(s, p + i) ==> Decimals(s, p + i + 1, f))
    ensures var a := DigitsEnd(s, p, 10);
      Mantissa(s, p, i, f) == (if At(s, a) == '.' then DigitsEnd(s, a + 1, 10) else a) && Mantissa(s, p, i, f) <= |s|
  {
    DecimalsRun(s, p, i);
    if Point(s, p + i) { DecimalsRun(s, p + i + 1, f); }
    hide DigitsEnd;
  }

  lemma FirstDecimal(s: string, d: nat, x: nat)
    requires Decimals(s, d, x)
    ensures (x > 0 <==> IsDigit(At(s, d))) && DigitsEnd(s, d, 10) == d + x
  {
    DecimalsRun(s, d, x);
    hide DigitsEnd;
  }

  lemma StrtodIs(s: string, p: nat, i: nat, f: nat, x: nat)
    requires Decimals(s, p, i) && (Point(s, p + i) ==> Decimals(s, p + i + 1, f))
    requires var m := Mantissa(s, p, i, f); Power(s, m) ==> Decimals(s, PowerFrom(s, m), x)
    ensures StrtodEnd(s, p) == NumeralEnd(s, Mantissa(s, p, i, f), x)
  {
    MantissaIs(s, p, i, f);
    var m := Mantissa(s, p, i, f);
    if Power(s, m) { FirstDecimal(s, PowerFrom(s, m), x); }
    hide DigitsEnd, Decimals, Mantissa;
  }

  /**
    Any other numeral is i digits, with a point f more, and behind an e and perhaps a sign x more; without a digit
    there the e does not belong to it.
   */
  lemma DecimalNumber(s: string, p: nat, i: nat, f: nat, x: nat)
    requires p < |s| && Decimals(s, p, i) && (i > 0 || (Point(s, p) && f > 0))
    requires !(s[p] == '0' && p + 1 < |s| && Prefixes(s[p + 1])) && (Point(s, p + i) ==> Decimals(s, p + i + 1, f))
    requires var m := Mantissa(s, p, i, f); Power(s, m) ==> Decimals(s, PowerFrom(s, m), x)
    ensures var end := NumeralEnd(s, Mantissa(s, p, i, f), x);
      p <= end <= |s| && LexAt(s, p) == (Some(Num(s[p..end])), end)
  {
    StrtodIs(s, p, i, f, x);
    FirstDecimal(s, p, i);
    if i == 0 { FirstDecimal(s, p + 1, f); }
    hide DigitsEnd, StrtoullEnd, WordEnd, SkipSpaces, Mantissa, NumeralEnd, Decimals, StrtodEnd;
    assert StartsNumber(s, p);
    assert NumberEnd(s, p) == StrtodEnd(s, p);
    hide NumberEnd, StartsNumber;
  }

  /** What a name is made of. */
  predicate InName(c: char) { 'a' <= c <= 'z' || 'A' <= c <= 'Z' || '0' <= c <= '9' || c == '_' }

  lemma FirstOfName(c: char)
    ensures InName(c) && !('0' <= c <= '9') ==> (IsAlpha(c) || c == '_') && !IsDigit(c) && c != '.'
  {
  }

  /** A name is as many letters, digits and underscores as there are, but no more than 31. */
  lemma NameLength(s: string, p: nat, n: nat)
    requires 0 < n <= 31 && p + n <= |s| && !('0' <= s[p] <= '9') && (forall i :: p <= i < p + n ==> InName(s[i]))
    requires n == 31 || p + n == |s| || !InName(s[p + n])
    ensures var t := LexAt(s, p).0;
      t == Some(if At(s, SkipSpaces(s, p + n)) == '(' then Func(s[p..p + n]) else Name(s[p..p + n]))
  {
    WordRun(s, p, 31, n);
    FirstOfName(s[p]);
    hide WordEnd, NumberEnd, SkipSpaces, InName, IsAlpha;
  }

  lemma {:induction false} WordRun(s: string, p: nat, room: nat, n: nat)
    requires n <= room && p + n <= |s| && (forall i :: p <= i < p + n ==> InName(s[i]))
    requires n == room || p + n == |s| || !InName(s[p + n])
    ensures WordEnd(s, p, room) == p + n
    decreases n
  {
    if n == 0 {
    } else {
      WordRun(s, p + 1, room - 1, n - 1);
    }
  }

  /** The main loop over the characters, from position p with `steps` iterations behind it. */
  function RunText<V>(sem: Sem<V>, m: Machine<V>, s: string, p: nat, steps: nat): Outcome<V>
    requires m.Go?
    decreases |s| - p
  {
    var q := SkipBlanks(s, p);
    if steps >= CALC_MAX_STEPS || q >= |s| then Finish(sem, m)
    else
      var (t, r) := LexAt(s, q);
      if t.None? then Failed(BadSymbol)
      else
        var m' := StepTok(sem, m, t.value);
        if m'.Stop? then Failed(m'.cause) else RunText(sem, m', s, r, steps + 1)
  }

  /** evaluate_expression_iterative. */
  function EvaluateText<V>(sem: Sem<V>, s: string): Outcome<V> { RunText(sem, Start(), s, 0, 0) }

  /** The main loop ends at the end of the text or after its last iteration. */
  lemma TextEnds<V>(sem: Sem<V>, m: Machine<V>, s: string, p: nat, steps: nat)
    requires m.Go? && (steps >= CALC_MAX_STEPS || SkipBlanks(s, p) >= |s|)
    ensures RunText(sem, m, s, p, steps) == Finish(sem, m)
  {
  }

  lemma TextRejected<V>(sem: Sem<V>, m: Machine<V>, s: string, p: nat, steps: nat)
    requires m.Go? && steps < CALC_MAX_STEPS && SkipBlanks(s, p) < |s| && LexAt(s, SkipBlanks(s, p)).0.None?
    ensures RunText(sem, m, s, p, steps) == Failed(BadSymbol)
  {
  }

  /** The main loop takes one token. */
  lemma TextStep<V>(sem: Sem<V>, m: Machine<V>, s: string, p: nat, q: nat, t: Tok, r: nat, steps: nat)
    requires m.Go? && SkipBlanks(s, p) == q < |s| && steps < CALC_MAX_STEPS && LexAt(s, q) == (Some(t), r)
    ensures RunText(sem, m, s, p, steps) ==
      if StepTok(sem, m, t).Stop? then Failed(StepTok(sem, m, t).cause)
      else RunText(sem, StepTok(sem, m, t), s, r, steps + 1)
  {
  }
}
