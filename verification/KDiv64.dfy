/** The 64-bit division routines of freestanding/kdiv64.c: a 64-step shift and subtract loop, and signs around it. */
module KDiv64 {
  import opened Common
  import opened Arith

  const MIN64: int := -0x8000_0000_0000_0000

  type uint64 = x: int | 0 <= x < U64
  type int64 = x: int | MIN64 <= x < -MIN64

  /** Reinterpretation as int64_t. */
  function Signed(x: int): int64 { (x - MIN64) % U64 + MIN64 }

  function Neg(x: int): int { -x }

  // ---- the loop ---------------------------------------------------------------------------------------

  lemma Pow8()
    ensures Pow(2, 8) == 256
  {
  }

  lemma Pow64()
    ensures Pow(2, 64) == U64
  {
    Pow8();
    hide Pow;
    PowAdd(2, 8, 8);
    PowAdd(2, 16, 16);
    PowAdd(2, 32, 32);
  }

  lemma PowHalf(i: nat)
    requires i < 64
    ensures Pow(2, 63 - i) <= U64 / 2
  {
    Pow64();
    PowAdd(2, 63 - i, i);
    assert Pow(2, i) >= 1;
    MulAtLeast(Pow(2, i), Pow(2, 63 - i));
  }

  /** Shifting a 64-bit word left by one drops its top bit. */
  function Shl1(x: nat): nat { (2 * x) % U64 }

  /** The high part of num, from the bit of weight p on, has been divided into q and rem, and quot is q in place. */
  ghost predicate DividedAt(num: nat, den: nat, p: nat, top: nat, q: nat, quot: nat, rem: nat) {
    p > 0 && rem < den && quot == q * p && num / p == q * den + rem && num / p < top
  }

  /** With i bits to go. */
  ghost predicate Divided(num: uint64, den: uint64, i: nat, q: nat, quot: nat, rem: nat) {
    i <= 64 && DividedAt(num, den, Pow(2, i), Pow(2, 64 - i), q, quot, rem)
  }

  /** One step: no bit is lost by the shift, the remainder stays below the divisor, and the quotient within num. */
  lemma Step(num: uint64, den: uint64, i: nat, q: nat, quot: nat, rem: nat)
    requires i < 64 && Divided(num, den, i + 1, q, quot, rem)
    ensures var r := 2 * rem + (num / Pow(2, i)) % 2;
      && Shl1(rem) == 2 * rem && r < U64
      && (r < den ==> Divided(num, den, i, 2 * q, quot, r))
      && (r >= den ==> Divided(num, den, i, 2 * q + 1, quot + Pow(2, i), r - den) && quot + Pow(2, i) <= num)
  {
    PowHalf(i);
    assert Pow(2, 64 - i) == 2 * Pow(2, 63 - i);
    StepAt(num, den, Pow(2, i), Pow(2, 63 - i), q, quot, rem);
  }

  lemma StepAt(num: nat, den: nat, p: nat, half: nat, q: nat, quot: nat, rem: nat)
    requires p > 0 && half <= U64 / 2 && DividedAt(num, den, 2 * p, half, q, quot, rem)
    ensures var r := 2 * rem + (num / p) % 2;
      && Shl1(rem) == 2 * rem && r < U64
      && (r < den ==> DividedAt(num, den, p, 2 * half, 2 * q, quot, r))
      && (r >= den ==> DividedAt(num, den, p, 2 * half, 2 * q + 1, quot + p, r - den) && quot + p <= num)
  {
    var hi, bit := num / (2 * p), (num / p) % 2;
    HalfAgain(num, p);
    StepRem(hi, bit, q, den, rem, half);
    MulTwice(q, p);
    DivUnique(2 * rem, U64, 0, 2 * rem);
    if 2 * rem + bit >= den { QuotFits(num, den, p, 2 * q + 1, 2 * rem + bit - den); }
  }

  lemma StepRem(hi: nat, bit: nat, q: nat, den: nat, rem: nat, half: nat)
    requires rem < den && hi == q * den + rem && hi < half <= U64 / 2 && bit < 2
    ensures var r := 2 * rem + bit;
      && r < U64 && 2 * hi + bit < 2 * half
      && (r < den ==> 2 * hi + bit == (2 * q) * den + r)
      && (r >= den ==> r - den < den && 2 * hi + bit == (2 * q + 1) * den + (r - den))
  {
    MulTwice(q, den);
    assert q * den >= 0;
  }

  lemma MulTwice(q: nat, m: nat)
    ensures (2 * q) * m == 2 * (q * m) && (2 * q) * m == q * (2 * m) && (2 * q + 1) * m == 2 * (q * m) + m
  {
    MulNext(2 * q, m);
  }

  /** __udivmoddi4. */
  method UDivMod(num: uint64, den: uint64) returns (quot: uint64, rem: uint64)
    ensures den == 0 ==> quot == 0 && rem == 0
    ensures den > 0 ==> num == quot * den + rem && rem < den
  {
    if den == 0 { return 0, 0; }
    ghost var q: nat := 0;
    quot, rem := 0, 0;
    Pow64();
    DivUnique(num, U64, 0, num);
    assert Divided(num, den, 64, 0, 0, 0);
    hide Divided;
    var i := 63;
    while i >= 0
      invariant -1 <= i <= 63
      invariant Divided(num, den, i + 1, q, quot, rem)
    {
      Step(num, den, i, q, quot, rem);
      rem := Shl1(rem) + (num / Pow(2, i)) % 2;
      q := 2 * q;
      if rem >= den {
        rem := rem - den;
        quot := quot + Pow(2, i);
        q := q + 1;
      }
      i := i - 1;
    }
    AllDivided(num, den, q, quot, rem);
  }

  lemma AllDivided(num: uint64, den: uint64, q: nat, quot: nat, rem: nat)
    requires Divided(num, den, 0, q, quot, rem)
    ensures num == quot * den + rem && rem < den
  {
    assert Pow(2, 0) == 1;
  }

  lemma QuotFits(num: nat, den: nat, p: nat, q: nat, rem: nat)
    requires den > 0 && p > 0 && num / p == q * den + rem
    ensures q * p <= num
  {
    assert num == p * (num / p) + num % p;
    MulAtLeastR(q, den);
    MulMinus(num / p, q, p);
    assert (num / p - q) * p >= 0;
  }

  lemma MulAtLeastR(q: nat, den: nat)
    requires den >= 1
    ensures q * den >= q
  {
  }

  // ---- signs -----------------------------------------------------------------------------------------

  /** q and r are the C quotient and remainder of a by b: towards zero, the remainder with the sign of a. */
  predicate Truncates(a: int, b: int, q: int, r: int) {
    a == b * q + r && Abs(r) < Abs(b) && (r == 0 || (r < 0 <==> a < 0))
  }

  /** There is only one such pair. */
  lemma TruncatesUnique(a: int, b: int, q: int, r: int, q': int, r': int)
    requires Truncates(a, b, q, r) && Truncates(a, b, q', r')
    ensures q == q' && r == r'
  {
    assert b * (q - q') == r' - r by { assert b * (q - q') == b * q - b * q'; }
    AbsMul(b, q - q');
    if q != q' { MulAtLeastR(Abs(b), Abs(q - q')); }
  }

  lemma AbsMul(a: int, b: int)
    ensures Abs(a * b) == Abs(a) * Abs(b)
  {
    if a < 0 && b < 0 { assert a * b == (-a) * (-b); }
    if a < 0 && b >= 0 { assert a * b == -((-a) * b); }
    if a >= 0 && b < 0 { assert a * b == -(a * (-b)); }
  }

  /** The magnitude the wrappers divide, formed without overflow. */
  function Magnitude(a: int64): (u: uint64)
    ensures u == Abs(a)
  {
    if a < 0 then (-(a + 1)) % U64 + 1 else a
  }

  lemma SignsRight(a: int, b: int, q: nat, r: nat)
    requires b != 0 && Abs(a) == q * Abs(b) + r && r < Abs(b)
    ensures Truncates(a, b, if (a < 0) == (b < 0) then q else Neg(q), if a < 0 then Neg(r) else r)
  {
    NegMul(b, q);
  }

  lemma NegMul(b: int, q: int)
    ensures b * Neg(q) == Neg(b * q) && Neg(b) * q == Neg(b * q)
  {
  }

  /** Only one quotient does not fit. */
  lemma QuotientRange(a: int64, b: int64, q: nat, r: nat)
    requires b != 0 && Abs(a) == q * Abs(b) + r && r < Abs(b)
    ensures q <= Neg(MIN64) && r < Neg(MIN64) && (q == Neg(MIN64) ==> a == MIN64 && Abs(b) == 1)
  {
    MulAtLeastR(q, Abs(b));
    if Abs(b) > 1 { MulAtLeast(Abs(b) - 1, q); MulMinus(Abs(b), 1, q); }
  }

  /** __divdi3: right for every pair but the one whose quotient is 2^63, and 0 for a zero divisor. */
  method Div(a: int64, b: int64) returns (q: int64)
    ensures b == 0 ==> q == 0
    ensures b != 0 ==> ((exists r :: Truncates(a, b, q, r)) <==> !(a == MIN64 && b == -1))
    ensures a == MIN64 && b == -1 ==> q == MIN64
  {
    var neg := false;
    if a < 0 { neg := !neg; }
    if b < 0 { neg := !neg; }
    var res, rem := UDivMod(Magnitude(a), Magnitude(b));
    q := if neg then Signed(Neg(Signed(res))) else Signed(res);
    if b != 0 { QuotientRight(a, b, res, rem, q); }
  }

  lemma QuotientRight(a: int64, b: int64, res: nat, rem: nat, q: int64)
    requires b != 0 && Abs(a) == res * Abs(b) + rem && rem < Abs(b)
    requires q == if (a < 0) != (b < 0) then Signed(Neg(Signed(res))) else Signed(res)
    ensures (exists r :: Truncates(a, b, q, r)) <==> !(a == MIN64 && b == -1)
    ensures a == MIN64 && b == -1 ==> q == MIN64
  {
    hide Truncates, Signed;
    SignsRight(a, b, res, rem);
    QuotientRange(a, b, res, rem);
    MagnitudeBack(res);
    var r := if a < 0 then Neg(rem) else rem;
    if a == MIN64 && b == -1 {
      assert res == Neg(MIN64);
      if r' :| Truncates(a, b, q, r') { TruncatesUnique(a, b, res, r, q, r'); }
    } else {
      assert Truncates(a, b, q, r);
    }
  }

  lemma MagnitudeBack(x: nat)
    requires x <= Neg(MIN64)
    ensures Signed(Neg(Signed(x))) == Neg(x)
    ensures Signed(x) == if x == Neg(MIN64) then MIN64 else x
  {
  }

  /** __moddi3: right for every pair, and 0 for a zero divisor. */
  method Mod(a: int64, b: int64) returns (r: int64)
    ensures b == 0 ==> r == 0
    ensures b != 0 ==> exists q :: Truncates(a, b, q, r)
  {
    var neg := a < 0;
    var res, rem := UDivMod(Magnitude(a), Magnitude(b));
    r := if neg then Signed(Neg(Signed(rem))) else Signed(rem);
    if b != 0 {
      SignsRight(a, b, res, rem);
      QuotientRange(a, b, res, rem);
      MagnitudeBack(rem);
      assert Truncates(a, b, if (a < 0) == (b < 0) then res else Neg(res), r);
    }
  }
}
