/** 16.16 fixed point of freestanding/kfixed.c: division, and how close eight Newton steps come to a square root. */
module KFixed {
  import opened Common
  import opened Arith

  const ONE: int := 65536

  /** C division: towards zero. */
  function Quot(a: int, b: int): int
    requires b != 0
  {
    if (a < 0) == (b < 0) then Abs(a) / Abs(b) else -(Abs(a) / Abs(b))
  }

  /** Conversion to int32_t. */
  function Wrap(x: int): int32 { ((x + 0x8000_0000) % 0x1_0000_0000 - 0x8000_0000) as int32 }

  /** fp32_div. */
  function Div(a: int32, b: int32): int32 { if b == 0 then 0 else Wrap(Quot(a as int * ONE, b as int)) }

  /** q is a / b in 16 binary places, cut towards zero. */
  predicate IsQuotient(q: int, a: int, b: int) {
    Abs(q) * Abs(b) <= Abs(a) * ONE < Abs(q) * Abs(b) + Abs(b) && (q == 0 || (q < 0 <==> (a < 0) != (b < 0)))
  }

  /** The dividend is small enough for the divisor: the quotient may reach -2^31 but not 2^31. */
  predicate InReach(a: int, b: int) {
    Abs(a) * ONE < (if (a < 0) == (b < 0) then 0x8000_0000 else 0x8000_0001) * Abs(b)
  }

  /** The quotient comes out exactly when the dividend is small enough for the divisor. */
  lemma DivExactIff(a: int32, b: int32)
    requires b != 0
    ensures IsQuotient(Div(a, b) as int, a as int, b as int) <==> InReach(a as int, b as int)
  {
    hide IsQuotient, Wrap;
    QuotientOnly(Div(a, b) as int, a as int, b as int);
    WrapSmall(Quot(a as int * ONE, b as int));
    QuotFits(a as int, b as int);
  }

  lemma QuotFits(a: int, b: int)
    requires b != 0
    ensures Int32(Quot(a * ONE, b)) <==> InReach(a, b)
  {
    var x, d := Abs(a) * ONE, Abs(b);
    assert Abs(a * ONE) == x;
    DivBelow(x, d, 0x8000_0000);
    DivBelow(x, d, 0x8000_0001);
  }

  lemma DivBelow(x: nat, d: nat, m: nat)
    requires d > 0
    ensures x / d < m <==> x < m * d
  {
    var q := x / d;
    DivMod(x, d);
    if q < m { MulLe(q + 1, m, d); MulNext(q, d); } else { MulLe(m, q, d); }
  }

  /** 32767.99998 / 0.00002 comes out as -1. */
  lemma DivOverflows()
    ensures Div(0x7fff_ffff, 1) == -65536 && !InReach(0x7fff_ffff, 1)
  {
  }

  lemma QuotientOnly(q: int, a: int, b: int)
    requires b != 0
    ensures IsQuotient(q, a, b) <==> q == Quot(a * ONE, b)
  {
    var x, d := Abs(a) * ONE, Abs(b);
    assert Abs(a * ONE) == x;
    DivIff(x, d, Abs(q));
  }

  lemma DivIff(x: nat, d: nat, q: nat)
    requires d > 0
    ensures q * d <= x < q * d + d <==> q == x / d
  {
    assert x == (x / d) * d + x % d;
    if q * d <= x < q * d + d { DivUnique(x, d, q, x - q * d); }
  }

  /** s is the square root of n, rounded down. */
  predicate IsRoot(s: nat, n: nat) { s * s <= n < (s + 1) * (s + 1) }

  lemma RootExists(n: nat) returns (s: nat)
    ensures IsRoot(s, n)
  {
    s := 0;
    while (s + 1) * (s + 1) <= n
      invariant s * s <= n
      decreases n - s
    {
      assert (s + 1) * (s + 1) >= s + 1;
      s := s + 1;
    }
  }

  function Newton(n: nat, r: nat): nat
    requires r > 0
  {
    (r + n / r) / 2
  }

  /** A step from anywhere lands at or above the root. */
  lemma StepAbove(n: nat, s: nat, r: nat)
    requires IsRoot(s, n) && r > 0
    ensures Newton(n, r) >= s
  {
    var q := n / r;
    DivIff(n, r, q);
    if q + r < 2 * s {
      Squares(s, r);
      MulLe(r + q + 1, 2 * s, r);
      MulTwo(s, r);
      MulSum(r, q + 1, r);
      MulNext(q, r);
    }
  }

  lemma Squares(s: nat, r: nat)
    ensures 2 * (s * r) <= s * s + r * r
  {
    var d := s - r;
    assert d * d >= 0;
    assert d * d == s * s - 2 * (s * r) + r * r;
  }

  lemma MulTwo(s: nat, r: nat)
    ensures (2 * s) * r == 2 * (s * r)
  {
  }

  /** And once above, it leaves at most half of the excess, or one. */
  lemma StepHalves(n: nat, s: nat, r: nat)
    requires IsRoot(s, n) && r > 0 && r >= s
    ensures Newton(n, r) - s <= if r > s + 1 then (r - s) / 2 else 1
  {
    var q := n / r;
    assert n == q * r + n % r;
    if r > s {
      if q > s { MulLe(s + 1, q, r); MulLe(s + 1, r, s + 1); assert false; }
    } else {
      if q > s + 2 { MulLe(s + 3, q, s); MulSum(s, 3, s); }
    }
  }

  /** What k further steps leave of an excess. */
  function Left(e: nat, k: nat): nat { if k == 0 then e else if Left(e, k - 1) > 1 then Left(e, k - 1) / 2 else 1 }

  lemma {:induction false} LeftBound(e: nat, k: nat)
    requires k > 0
    ensures Left(e, k) == if e / Pow(2, k) > 1 then e / Pow(2, k) else 1
    decreases k
  {
    if k == 1 {
      assert Pow(2, 1) == 2 && Left(e, 0) == e;
    } else {
      LeftBound(e, k - 1);
      HalfAgain(e, Pow(2, k - 1));
    }
  }

  /** The largest argument. */
  const LIMIT: int := 0x7fff_ffff - 0x1_0000

  /** The first sum fits 32 bits exactly up to the limit. */
  lemma FirstSumFitsIff(a: int32)
    requires a > 0
    ensures a as int + Div(a, a) as int <= 0x7fff_ffff <==> a as int <= LIMIT
  {
    DivUnique(a as int * ONE, a as int, ONE, 0);
  }

  /** Every later quotient and sum fits. */
  lemma StepFits(a: int32, s: nat, r: int32)
    requires 0 < a as int <= LIMIT && IsRoot(s, a as int * ONE)
    requires s <= r as int <= (a as int + ONE) / 2 + 1 && r > 0
    ensures Div(a, r) as int == (a as int * ONE) / (r as int) && 0 <= r as int + Div(a, r) as int < 0x8000_0000
  {
    hide Wrap, Quot, IsRoot;
    RootSmall(a, s);
    var n: nat := a as int * ONE;
    QuotSmall(n, s, r as int);
    QuotPlain(n, r as int);
    WrapSmall(Quot(n, r as int));
  }

  lemma QuotPlain(n: nat, r: nat)
    requires r > 0
    ensures Quot(n, r) == n / r >= 0
  {
  }

  lemma WrapSmall(x: int)
    ensures Int32(x) ==> Wrap(x) as int == x
  {
  }

  lemma QuotSmall(n: nat, s: nat, r: nat)
    requires IsRoot(s, n) && 0 < s <= r
    ensures n / r <= s + 2
  {
    var q := n / r;
    DivIff(n, r, q);
    if q > s + 2 { MulLe(s + 3, q, r); MulLe(s, r, s + 3); MulSum(s, 3, s); }
  }

  lemma RootSmall(a: int32, s: nat)
    requires 0 < a as int <= LIMIT && IsRoot(s, a as int * ONE)
    ensures 0 < s < 0x100_0000
  {
    if s >= 0x100_0000 { MulLe(0x100_0000, s, s); }
  }

  /**
    fp32_sqrt. With s the exact root of a * 2^16 rounded down and r1 the result of the first step, the result
    is never below s and exceeds it by at most (r1 - s) / 2^7, or one.
   */
  method Sqrt(a: int32) returns (root: int32)
    requires a as int <= LIMIT
    ensures a <= 0 ==> root == 0
    ensures a > 0 ==> forall s: nat :: IsRootOf(s, a) ==> Close(root as int, s, (a as int + ONE) / 2 - s)
  {
    if a <= 0 { return 0; }
    ghost var n := a as int * ONE;
    ghost var s := RootExists(n);
    ghost var r1 := (a as int + ONE) / 2;
    FirstSumFitsIff(a);
    FirstStep(a, s);
    root := a;
    var i := 0;
    while i < 8
      invariant 0 <= i <= 8
      invariant i == 0 ==> root == a
      invariant i > 0 ==> 0 < root as int <= r1 + 1 && s <= root as int <= s + Left(r1 - s, i - 1)
    {
      if i > 0 { LaterStep(a, s, root, r1, i - 1); }
      root := (root + Div(a, root)) / 2;
      i := i + 1;
    }
    LeftBound(r1 - s, 7);
    assert Pow(2, 7) == 128;
    forall t: nat | IsRootOf(t, a) ensures t == s { RootUnique(n, s, t); }
  }

  /** s is the exact result, rounded down: the root of a in 16 binary places. */
  predicate IsRootOf(s: nat, a: int32) { a > 0 && IsRoot(s, a as int * ONE) }

  /** At least the root, and above it by at most 1/128 of the first excess, or one. */
  predicate Close(root: int, s: nat, excess: int) {
    s <= root <= s + if excess / 128 > 1 then excess / 128 else 1
  }

  lemma LaterStep(a: int32, s: nat, r: int32, r1: nat, k: nat)
    requires 0 < a as int <= LIMIT && IsRoot(s, a as int * ONE) && r1 == (a as int + ONE) / 2
    requires s <= r1 && 0 < r as int <= r1 + 1 && s <= r as int <= s + Left(r1 - s, k)
    ensures Int32(r as int + Div(a, r) as int)
    ensures var r' := (r as int + Div(a, r) as int) / 2;
      0 < r' <= r1 + 1 && s <= r' <= s + Left(r1 - s, k + 1)
  {
    var n := a as int * ONE;
    RootSmall(a, s);
    StepFits(a, s, r);
    StepAbove(n, s, r as int);
    StepHalves(n, s, r as int);
    LeftAtMost(r1 - s, k + 1);
  }

  lemma {:induction false} LeftAtMost(e: nat, k: nat)
    ensures Left(e, k) <= if e > 1 then e else 1
    decreases k
  {
    if k == 0 {
    } else {
      LeftAtMost(e, k - 1);
    }
  }

  lemma FirstStep(a: int32, s: nat)
    requires 0 < a as int <= LIMIT && IsRoot(s, a as int * ONE)
    ensures Div(a, a) as int == ONE && s <= (a as int + ONE) / 2
  {
    DivUnique(a as int * ONE, a as int, ONE, 0);
    StepAbove(a as int * ONE, s, a as int);
  }

  lemma RootUnique(n: nat, s: nat, t: nat)
    requires IsRoot(s, n) && IsRoot(t, n)
    ensures s == t
  {
    if s < t { MulLe(s + 1, t, s + 1); MulLe(s + 1, t, t); }
    if t < s { MulLe(t + 1, s, t + 1); MulLe(t + 1, s, s); }
  }
}
