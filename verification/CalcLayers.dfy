/**
  The order of the operators of src/calc/calc.c, stated by layers: a text without brackets is split at one of its
  loosest operators, the last of them, or the first for powers. Only the list of layers says which is looser.
 */
module CalcLayers {
  import opened Common
  import opened CalcModel
  import opened CalcProof
  import CalcRender
  import CalcText

  /** The operators from the loosest layer to the tightest. */
  const LAYERS: seq<set<Op>> := [{BOr}, {BXor}, {BAnd}, {Shl, Shr}, {Plus, Minus}, {Mul, Div, Mod}, {Pow}]

  /** The layer an operator stands in. */
  function Layer(op: Op): (i: nat)
    ensures i < 7 && op in LAYERS[i] && Prec(op) == i + 1
  {
    if op in LAYERS[0] then 0
    else if op in LAYERS[1] then 1
    else if op in LAYERS[2] then 2
    else if op in LAYERS[3] then 3
    else if op in LAYERS[4] then 4
    else if op in LAYERS[5] then 5
    else assert op == Pow; 6
  }

  // ---- texts with and without brackets ------------------------------------------------------------------

  /** A text `i op i op ... i`, with a minus in front or not; its items are numerals, names, brackets and calls. */
  datatype Chain = Chain(minus: bool, items: seq<Item>, ops: seq<Op>)
  datatype Item = Number(w: string) | Variable(x: string) | Bracket(inner: Chain) | Applied(f: string, arg: Chain)

  ghost predicate Formed(c: Chain) {
    |c.items| == |c.ops| + 1 && forall i :: 0 <= i < |c.items| ==> FormedItem(c.items[i])
  }

  ghost predicate FormedItem(i: Item) {
    (i.Bracket? ==> Formed(i.inner)) && (i.Applied? ==> Formed(i.arg))
  }

  /** Texts with the operators between them. */
  function Joined(texts: seq<seq<Tok>>, ops: seq<Op>): seq<Tok>
    requires |texts| == |ops| + 1
    decreases |ops|
  {
    if ops == [] then texts[0] else texts[0] + [Sym(ops[0])] + Joined(texts[1..], ops[1..])
  }

  ghost function ChainText(c: Chain): seq<Tok>
    requires Formed(c)
  {
    (if c.minus then [Sym(Minus)] else []) + Joined(ItemTexts(c.items), c.ops)
  }

  ghost function ItemTexts(items: seq<Item>): (r: seq<seq<Tok>>)
    requires forall i :: 0 <= i < |items| ==> FormedItem(items[i])
    ensures |r| == |items| && forall i :: 0 <= i < |r| ==> r[i] == ItemText(items[i])
  {
    seq(|items|, i requires 0 <= i < |items| => ItemText(items[i]))
  }

  ghost function ItemText(i: Item): seq<Tok>
    requires FormedItem(i)
  {
    match i
    case Number(w) => [Num(w)]
    case Variable(x) => [Name(x)]
    case Bracket(c) => [Open] + ChainText(c) + [Close]
    case Applied(f, c) => [Func(f)] + ChainText(c) + [Close]
  }

  // ---- what they mean -------------------------------------------------------------------------------------

  /** Where a chain is split: at a loosest operator, the last of its layer, or the first one for powers. */
  ghost predicate SplitsAt(ops: seq<Op>, k: nat) {
    && k < |ops| && forall j :: 0 <= j < |ops| ==>
      && Layer(ops[k]) <= Layer(ops[j])
      && (Layer(ops[k]) == Layer(ops[j]) && j != k ==> if ops[k] == Pow then k < j else j < k)
  }

  /** The first place of a loosest operator. */
  function Loosest(ops: seq<Op>): (k: nat)
    requires ops != []
    ensures k < |ops| && forall j :: 0 <= j < |ops| ==> Layer(ops[k]) <= Layer(ops[j])
    ensures forall j :: 0 <= j < k ==> Layer(ops[k]) < Layer(ops[j])
  {
    if |ops| == 1 then 0
    else var k := 1 + Loosest(ops[1..]); if Layer(ops[0]) <= Layer(ops[k]) then 0 else k
  }

  /** The last place of a loosest operator. */
  function LastLoosest(ops: seq<Op>): (k: nat)
    requires ops != []
    ensures k < |ops| && forall j :: 0 <= j < |ops| ==> Layer(ops[k]) <= Layer(ops[j])
    ensures forall j :: k < j < |ops| ==> Layer(ops[k]) < Layer(ops[j])
  {
    if |ops| == 1 then 0
    else var k := 1 + LastLoosest(ops[1..]); if Layer(ops[0]) < Layer(ops[k]) then 0 else k
  }

  function Split(ops: seq<Op>): (k: nat)
    requires ops != []
    ensures k < |ops| && SplitsAt(ops, k)
  {
    if ops[Loosest(ops)] == Pow then Loosest(ops) else LastLoosest(ops)
  }

  /** The value of a chain of values. */
  ghost function Folded<V>(sem: Sem<V>, vs: seq<Option<V>>, ops: seq<Op>): Option<V>
    requires |vs| == |ops| + 1
    decreases |ops|
  {
    if ops == [] then vs[0]
    else
      var k := Split(ops);
      Apply2(sem, ops[k], Folded(sem, vs[..k + 1], ops[..k]), Folded(sem, vs[k + 1..], ops[k + 1..]))
  }

  /** A minus in front takes what follows from 0. */
  ghost function Means<V>(sem: Sem<V>, c: Chain): Option<V>
    requires Formed(c)
  {
    var vs := ItemsMean(sem, c.items);
    if c.minus then Folded(sem, [Some(sem.zero)] + vs, [Minus] + c.ops) else Folded(sem, vs, c.ops)
  }

  ghost function ItemsMean<V>(sem: Sem<V>, items: seq<Item>): (r: seq<Option<V>>)
    requires forall i :: 0 <= i < |items| ==> FormedItem(items[i])
    ensures |r| == |items| && forall i :: 0 <= i < |r| ==> r[i] == MeansItem(sem, items[i])
  {
    seq(|items|, i requires 0 <= i < |items| => MeansItem(sem, items[i]))
  }

  ghost function MeansItem<V>(sem: Sem<V>, i: Item): Option<V>
    requires FormedItem(i)
  {
    match i
    case Number(w) => Some(sem.numeral(w))
    case Variable(x) => sem.names(x)
    case Bracket(c) => Means(sem, c)
    case Applied(f, c) => var v := Means(sem, c); if v.Some? then sem.fun(f, v.value) else None
  }

  // ---- the tree of a chain ----------------------------------------------------------------------------------

  /** An operand that is written alike at every level. */
  predicate Atom(e: Expr) { e.Lit? || e.Var? || e.Call? || e.Group? }

  /** The tree of a chain; `signed` says that its first operand is the 0 that a minus in front stands for. */
  function Tree(es: seq<Expr>, ops: seq<Op>, signed: bool): Expr
    requires |es| == |ops| + 1 && (signed ==> ops != [])
    decreases |ops|
  {
    if ops == [] then es[0]
    else
      var k := Split(ops);
      var right := Tree(es[k + 1..], ops[k + 1..], false);
      if signed && k == 0 then Neg(right) else Bin(ops[k], Tree(es[..k + 1], ops[..k], signed), right)
  }

  lemma TreeOf(es: seq<Expr>, ops: seq<Op>, signed: bool)
    requires |es| == |ops| + 1 && ops != []
    ensures var k := Split(ops);
      var right := Tree(es[k + 1..], ops[k + 1..], false);
      Tree(es, ops, signed)
        == if signed && k == 0 then Neg(right) else Bin(ops[k], Tree(es[..k + 1], ops[..k], signed), right)
  {
  }

  lemma TreeOne(es: seq<Expr>, signed: bool)
    requires |es| == 1 && !signed
    ensures Tree(es, [], signed) == es[0]
  {
  }

  lemma FoldedOf<V>(sem: Sem<V>, vs: seq<Option<V>>, ops: seq<Op>)
    requires |vs| == |ops| + 1 && ops != []
    ensures var k := Split(ops);
      Folded(sem, vs, ops)
        == Apply2(sem, ops[k], Folded(sem, vs[..k + 1], ops[..k]), Folded(sem, vs[k + 1..], ops[k + 1..]))
  {
  }

  lemma ValueOf<V>(sem: Sem<V>, op: Op, l: Expr, r: Expr)
    ensures Value(sem, Bin(op, l, r)) == Apply2(sem, op, Value(sem, l), Value(sem, r))
    ensures Value(sem, Neg(r)) == Apply2(sem, Minus, Some(sem.zero), Value(sem, r))
  {
  }

  lemma FoldedOne<V>(sem: Sem<V>, vs: seq<Option<V>>)
    requires |vs| == 1
    ensures Folded(sem, vs, []) == vs[0]
  {
  }

  /** The tree has the value of the chain. */
  lemma {:induction false} TreeMeans<V>(sem: Sem<V>, es: seq<Expr>, ops: seq<Op>, signed: bool, vs: seq<Option<V>>)
    requires |es| == |vs| == |ops| + 1 && (signed ==> ops != [] && ops[0] == Minus && vs[0] == Some(sem.zero))
    requires forall i :: 0 <= i < |es| && (signed ==> i > 0) ==> Value(sem, es[i]) == vs[i]
    ensures Value(sem, Tree(es, ops, signed)) == Folded(sem, vs, ops)
    decreases |ops|
  {
    hide *;
    if ops == [] {
      TreeOne(es, signed);
      FoldedOne(sem, vs);
    } else {
      TreeOf(es, ops, signed);
      FoldedOf(sem, vs, ops);
      var k := Split(ops);
      TreeMeans(sem, es[k + 1..], ops[k + 1..], false, vs[k + 1..]);
      ValueOf(sem, ops[k], Tree(es[..k + 1], ops[..k], signed && k > 0), Tree(es[k + 1..], ops[k + 1..], false));
      if signed && k == 0 {
        assert ops[..0] == [];
        FoldedOne(sem, vs[..1]);
      } else {
        TreeMeans(sem, es[..k + 1], ops[..k], signed, vs[..k + 1]);
      }
    }
  }

  lemma {:induction false} JoinedSplit(ts: seq<seq<Tok>>, ops: seq<Op>, k: nat)
    requires |ts| == |ops| + 1 && k < |ops|
    ensures Joined(ts, ops) == Joined(ts[..k + 1], ops[..k]) + [Sym(ops[k])] + Joined(ts[k + 1..], ops[k + 1..])
    decreases k
  {
    if k == 0 {
      assert Joined(ts[..1], ops[..0]) == ts[0];
    } else {
      JoinedSplit(ts[1..], ops[1..], k - 1);
      assert ts[1..][..k] == ts[..k + 1][1..] && ops[1..][..k - 1] == ops[..k][1..];
      assert ts[1..][k..] == ts[k + 1..] && ops[1..][k..] == ops[k + 1..];
    }
  }

  predicate AtLeast(ops: seq<Op>, level: nat) { forall i :: 0 <= i < |ops| ==> Prec(ops[i]) >= level }

  lemma SplitLevels(ops: seq<Op>, level: nat)
    requires ops != [] && AtLeast(ops, level)
    ensures var k := Split(ops);
      Prec(ops[k]) >= level && AtLeast(ops[..k], Threshold(ops[k])) && AtLeast(ops[k + 1..], RightLevel(ops[k]))
    ensures ops[0] == Minus ==> Prec(ops[Split(ops)]) <= Prec(Minus)
  {
    var k := Split(ops);
    forall j | 0 <= j < |ops| ensures Prec(ops[j]) == Layer(ops[j]) + 1 { }
  }

  lemma PrintOf(op: Op, l: Expr, r: Expr, level: nat, lead: bool)
    ensures Prec(op) >= level ==>
      Print(Bin(op, l, r), level, lead) == Print(l, Threshold(op), lead) + [Sym(op)] + Print(r, RightLevel(op), false)
    ensures Prec(Minus) >= level && lead ==>
      Print(Neg(r), level, lead) == [Sym(Minus)] + Print(r, RightLevel(Minus), false)
  {
  }

  lemma PrintAtom(e: Expr, level: nat, lead: bool)
    requires Atom(e)
    ensures Print(e, level, lead) == Print(e, 0, true)
  {
  }

  lemma JoinedOne(ts: seq<seq<Tok>>)
    requires |ts| == 1
    ensures Joined(ts, []) == ts[0]
  {
  }

  /** The tree is written without any brackets of its own. */
  lemma {:induction false} TreeText(es: seq<Expr>, ops: seq<Op>, signed: bool, ts: seq<seq<Tok>>, level: nat,
      lead: bool)
    requires |es| == |ts| == |ops| + 1 && (signed ==> ops != [] && ops[0] == Minus && ts[0] == [] && lead)
    requires forall i :: 0 <= i < |es| && (signed ==> i > 0) ==> Atom(es[i]) && Print(es[i], 0, true) == ts[i]
    requires AtLeast(ops, level)
    ensures Print(Tree(es, ops, signed), level, lead) == Joined(ts, ops)
    decreases |ops|
  {
    hide *;
    if ops == [] {
      TreeOne(es, signed);
      JoinedOne(ts);
      PrintAtom(es[0], level, lead);
    } else {
      TreeOf(es, ops, signed);
      SplitLevels(ops, level);
      var k := Split(ops);
      JoinedSplit(ts, ops, k);
      TreeText(es[k + 1..], ops[k + 1..], false, ts[k + 1..], RightLevel(ops[k]), false);
      PrintOf(ops[k], Tree(es[..k + 1], ops[..k], signed && k > 0), Tree(es[k + 1..], ops[k + 1..], false), level,
        lead);
      if signed && k == 0 {
        assert ops[..0] == [];
        JoinedOne(ts[..1]);
        assert [] + [Sym(Minus)] == [Sym(Minus)];
      } else {
        TreeText(es[..k + 1], ops[..k], signed, ts[..k + 1], Threshold(ops[k]), lead);
      }
    }
  }

  // ---- chains inside brackets ------------------------------------------------------------------------------

  ghost function ItemExpr(i: Item): Expr
    requires FormedItem(i)
  {
    match i
    case Number(w) => Lit(w)
    case Variable(x) => Var(x)
    case Bracket(c) => Group(ChainExpr(c))
    case Applied(f, c) => Call(f, ChainExpr(c))
  }

  ghost function ChainExpr(c: Chain): Expr
    requires Formed(c)
  {
    var es := ItemExprs(c.items);
    if c.minus then Tree([Lit("")] + es, [Minus] + c.ops, true) else Tree(es, c.ops, false)
  }

  ghost function ItemExprs(items: seq<Item>): (r: seq<Expr>)
    requires forall i :: 0 <= i < |items| ==> FormedItem(items[i])
    ensures |r| == |items| && forall i :: 0 <= i < |r| ==> r[i] == ItemExpr(items[i])
  {
    seq(|items|, i requires 0 <= i < |items| => ItemExpr(items[i]))
  }

  /** A whole chain, from what holds of its items. */
  lemma ChainFrom<V>(sem: Sem<V>, minus: bool, es: seq<Expr>, ops: seq<Op>, ts: seq<seq<Tok>>, vs: seq<Option<V>>)
    requires |es| == |ts| == |vs| == |ops| + 1
    requires forall i :: 0 <= i < |es| ==> Atom(es[i]) && Print(es[i], 0, true) == ts[i] && Value(sem, es[i]) == vs[i]
    ensures var e := if minus then Tree([Lit("")] + es, [Minus] + ops, true) else Tree(es, ops, false);
      && Print(e, 0, true) == (if minus then [Sym(Minus)] else []) + Joined(ts, ops)
      && Value(sem, e) == if minus then Folded(sem, [Some(sem.zero)] + vs, [Minus] + ops) else Folded(sem, vs, ops)
  {
    hide Print, Value, Tree, Folded, Atom, Joined;
    if minus {
      var es', ops', ts', vs' := [Lit("")] + es, [Minus] + ops, [[]] + ts, [Some(sem.zero)] + vs;
      TreeText(es', ops', true, ts', 0, true);
      TreeMeans(sem, es', ops', true, vs');
      JoinedSplit(ts', ops', 0);
      assert ts'[..1] == [[]] && ts'[1..] == ts && ops'[..0] == [] && ops'[1..] == ops;
      JoinedOne(ts'[..1]);
      assert [] + [Sym(Minus)] == [Sym(Minus)];
    } else {
      TreeText(es, ops, false, ts, 0, true);
      TreeMeans(sem, es, ops, false, vs);
      assert [] + Joined(ts, ops) == Joined(ts, ops);
    }
  }

  lemma {:induction false} ItemIs<V>(sem: Sem<V>, i: Item)
    requires FormedItem(i)
    ensures Atom(ItemExpr(i)) && Print(ItemExpr(i), 0, true) == ItemText(i)
    ensures Value(sem, ItemExpr(i)) == MeansItem(sem, i)
    decreases i
  {
    hide ChainExpr, ChainText, Means;
    match i
    case Number(w) =>
    case Variable(x) =>
    case Bracket(c) => ChainIs(sem, c);
    case Applied(f, c) => ChainIs(sem, c);
  }

  /** The tree of a chain is written as the chain and means the same. */
  lemma {:induction false} ChainIs<V>(sem: Sem<V>, c: Chain)
    requires Formed(c)
    ensures Text(ChainExpr(c)) == ChainText(c) && Value(sem, ChainExpr(c)) == Means(sem, c)
    decreases c
  {
    hide Print, Value, Tree, Folded, Joined, ItemExpr, ItemText, MeansItem, Atom;
    var es, ts, vs := ItemExprs(c.items), ItemTexts(c.items), ItemsMean(sem, c.items);
    forall i | 0 <= i < |es|
      ensures Atom(es[i]) && Print(es[i], 0, true) == ts[i] && Value(sem, es[i]) == vs[i]
    {
      ItemIs(sem, c.items[i]);
    }
    ChainFrom(sem, c.minus, es, c.ops, ts, vs);
  }

  lemma {:induction false} NeedsAtMost(e: Expr, level: nat, lead: bool)
    ensures ValsNeed(e) <= |Print(e, level, lead)| && OpsNeed(e, level, lead) <= |Print(e, level, lead)|
    decreases e, if Bracketed(e, level, lead) then 1 else 0
  {
    if Bracketed(e, level, lead) {
      NeedsAtMost(e, 0, true);
    } else {
      match e
      case Lit(_) =>
      case Var(_) =>
      case Neg(a) => NeedsAtMost(a, RightLevel(Minus), false);
      case Pos(a) => NeedsAtMost(a, level, lead);
      case Bin(op, l, r) =>
        NeedsAtMost(l, Threshold(op), lead);
        NeedsAtMost(r, RightLevel(op), false);
      case Call(_, a) => NeedsAtMost(a, 0, true);
      case Group(a) => NeedsAtMost(a, 0, true);
    }
  }

  /**
    The evaluator computes what a text means by its layers and brackets: any value it gives is that one, and on
    a text of at most 128 tokens it gives it exactly when there is one.
   */
  lemma LayersObeyed<V>(sem: Sem<V>, c: Chain)
    requires Formed(c) && |ChainText(c)| <= 2048
    ensures Evaluate(sem, ChainText(c)).Result? ==> Means(sem, c) == Some(Evaluate(sem, ChainText(c)).v)
    ensures |ChainText(c)| <= 128 ==> Agrees(Evaluate(sem, ChainText(c)), Means(sem, c))
  {
    ChainIs(sem, c);
    hide ChainExpr, ChainText, Means, Value, Evaluate, Print, ValsNeed, OpsNeed;
    var e := ChainExpr(c);
    MeaningPreserved(sem, e);
    NeedsAtMost(e, 0, true);
  }

  /** A closing bracket too many at the end is ignored. */
  lemma ExtraCloseIgnored<V>(sem: Sem<V>, c: Chain)
    requires Formed(c) && |ChainText(c)| < 2048
    ensures Evaluate(sem, ChainText(c) + [Close]) == Evaluate(sem, ChainText(c))
  {
    ChainIs(sem, c);
    hide ChainExpr, ChainText, Means;
    CloseAfter(sem, ChainExpr(c));
  }

  lemma CloseAfter<V>(sem: Sem<V>, e: Expr)
    requires |Text(e)| < 2048
    ensures Evaluate(sem, Text(e) + [Close]) == Evaluate(sem, Text(e))
  {
    PrintReads(sem, e, 0, true, [], [], 0);
    RunAppend(sem, Start(), Text(e), [Close]);
    var m := RunToks(sem, Start(), Text(e));
    RunOne(sem, m, Close);
    hide RunToks, Print, Value, ValsNeed, OpsNeed;
    Settled(sem, m);
  }

  /** What is left of a machine whose operators have been applied down to an empty stack, or that has stopped. */
  lemma Settled<V>(sem: Sem<V>, m: Machine<V>)
    requires var r := Reduce(sem, m, 0); r.Stop? || (r.ops == [] && !r.unary)
    ensures Finish(sem, StepTok(sem, m, Close)) == Finish(sem, m)
  {
    var r := Reduce(sem, m, 0);
    assert r.Go? ==> Reduce(sem, r, 0) == r;
    if m.Stop? { assert r == m; }
  }

  /** However it is written: any string of at most 128 tokens that is cut into those of the text. */
  lemma StringLayers<V>(sem: Sem<V>, c: Chain, s: string)
    requires Formed(c) && |ChainText(c)| <= 128 && CalcRender.LexesTo(s, 0, ChainText(c))
    ensures Agrees(CalcText.EvaluateText(sem, s), Means(sem, c))
  {
    ChainIs(sem, c);
    hide ChainExpr, ChainText, Means, Value, Print, ValsNeed, OpsNeed;
    NeedsAtMost(ChainExpr(c), 0, true);
    CalcRender.AnyWritingMeans(sem, ChainExpr(c), s);
  }

  // ---- two operators --------------------------------------------------------------------------------------

  lemma TwoJoined(t: Tok, u: Tok, v: Tok, op1: Op, op2: Op)
    ensures Joined([[t], [u], [v]], [op1, op2]) == [t, Sym(op1), u, Sym(op2), v]
  {
    var ts, ops := [[t], [u], [v]], [op1, op2];
    assert ts[1..] == [[u], [v]] && ops[1..] == [op2];
    assert [[u], [v]][1..] == [[v]] && [op2][1..] == [];
    assert Joined([[u], [v]], [op2]) == [u] + [Sym(op2)] + [v];
  }

  lemma TwoFolded<V>(sem: Sem<V>, x: Option<V>, y: Option<V>, z: Option<V>, op1: Op, op2: Op)
    ensures Folded(sem, [x, y, z], [op1, op2])
         == if Layer(op1) < Layer(op2) || (op1 == Pow && op2 == Pow) then Apply2(sem, op1, x, Apply2(sem, op2, y, z))
            else Apply2(sem, op2, Apply2(sem, op1, x, y), z)
  {
    hide *;
    TwoSplit(op1, op2);
    FoldedOf(sem, [x, y, z], [op1, op2]);
    TwoParts(x, y, z);
    FoldedOne(sem, [x]);
    FoldedOne(sem, [z]);
    OneFolded(sem, y, z, op2);
    OneFolded(sem, x, y, op1);
    assert [op1, op2][..0] == [] && [op1, op2][1..] == [op2] && [op1, op2][..1] == [op1] && [op1, op2][2..] == [];
  }

  lemma TwoParts<T>(x: T, y: T, z: T)
    ensures [x, y, z][..1] == [x] && [x, y, z][1..] == [y, z] && [x, y, z][..2] == [x, y] && [x, y, z][2..] == [z]
  {
  }

  lemma TwoSplit(op1: Op, op2: Op)
    ensures Split([op1, op2]) == if Layer(op1) < Layer(op2) || (op1 == Pow && op2 == Pow) then 0 else 1
  {
    var ops := [op1, op2];
    var k := Split(ops);
    assert ops[0] == op1 && ops[1] == op2 && SplitsAt(ops, k);
    assert Layer(op1) == Layer(op2) ==> (op1 == Pow <==> op2 == Pow);
  }

  lemma OneFolded<V>(sem: Sem<V>, x: Option<V>, y: Option<V>, op: Op)
    ensures Folded(sem, [x, y], [op]) == Apply2(sem, op, x, y)
  {
    assert Split([op]) == 0;
    assert [x, y][..1] == [x] && [x, y][1..] == [y] && [op][..0] == [] && [op][1..] == [];
  }

  lemma ThreeItems<V>(sem: Sem<V>, items: seq<Item>, op1: Op, op2: Op)
    requires |items| == 3 && items[0].Number? && items[1].Number? && items[2].Number?
    ensures var c := Chain(false, items, [op1, op2]);
      && Formed(c) && ChainText(c) == [Num(items[0].w), Sym(op1), Num(items[1].w), Sym(op2), Num(items[2].w)]
      && Means(sem, c)
         == Folded(sem, [Some(sem.numeral(items[0].w)), Some(sem.numeral(items[1].w)), Some(sem.numeral(items[2].w))],
                   [op1, op2])
  {
    var a, b, c := items[0].w, items[1].w, items[2].w;
    hide Folded, Joined;
    assert ItemTexts(items) == [[Num(a)], [Num(b)], [Num(c)]];
    assert ItemsMean(sem, items) == [Some(sem.numeral(a)), Some(sem.numeral(b)), Some(sem.numeral(c))];
    TwoJoined(Num(a), Num(b), Num(c), op1, op2);
  }

  /** Exactly these operators take their right operand before an operator on their left takes it. */
  lemma TwoOperators<V>(sem: Sem<V>, a: string, op1: Op, b: string, op2: Op, c: string)
    ensures var x, y, z := Some(sem.numeral(a)), Some(sem.numeral(b)), Some(sem.numeral(c));
      var later := exists i, j :: 0 <= i < j < 7 && op1 in LAYERS[i] && op2 in LAYERS[j];
      Agrees(Evaluate(sem, [Num(a), Sym(op1), Num(b), Sym(op2), Num(c)]),
             if later || (op1 == Pow && op2 == Pow) then Apply2(sem, op1, x, Apply2(sem, op2, y, z))
             else Apply2(sem, op2, Apply2(sem, op1, x, y), z))
  {
    var items := [Number(a), Number(b), Number(c)];
    ThreeItems(sem, items, op1, op2);
    TwoFolded(sem, Some(sem.numeral(a)), Some(sem.numeral(b)), Some(sem.numeral(c)), op1, op2);
    hide Folded, Means, ChainText, Formed, Evaluate, Apply2, Agrees;
    LayersObeyed(sem, Chain(false, items, [op1, op2]));
    LaterIff(op1, op2);
  }

  lemma LaterIff(op1: Op, op2: Op)
    ensures (exists i, j :: 0 <= i < j < 7 && op1 in LAYERS[i] && op2 in LAYERS[j]) <==> Layer(op1) < Layer(op2)
  {
    assert forall op, i :: 0 <= i < 7 && op in LAYERS[i] ==> i == Layer(op);
  }
}
