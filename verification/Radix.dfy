/** Numbers and their digits, most significant first. */
module Radix {
  import opened Arith

  predicate DigitsOf(ds: seq<nat>, b: nat) { forall i :: 0 <= i < |ds| ==> ds[i] < b }

  function From(ds: seq<nat>, b: nat): nat {
    if ds == [] then 0 else From(ds[..|ds| - 1], b) * b + ds[|ds| - 1]
  }

  function To(n: nat, k: nat, b: nat): (ds: seq<nat>)
    requires b > 0
    ensures |ds| == k && DigitsOf(ds, b)
    decreases k
  {
    if k == 0 then [] else To(n / b, k - 1, b) + [n % b]
  }

  lemma FromSnoc(ds: seq<nat>, d: nat, b: nat)
    ensures From(ds + [d], b) == From(ds, b) * b + d
  {
    assert (ds + [d])[..|ds|] == ds;
  }

  lemma {:induction false} FromTo(n: nat, k: nat, b: nat)
    requires b > 0 && n < Pow(b, k)
    ensures From(To(n, k, b), b) == n
    decreases k
  {
    if k == 0 {
    } else {
      DivBelow(n, b, Pow(b, k - 1));
      FromTo(n / b, k - 1, b);
      hide Pow;
      DivMod(n, b);
      FromSnoc(To(n / b, k - 1, b), n % b, b);
    }
  }

  lemma DivBelow(n: nat, b: nat, p: nat)
    requires b > 0 && n < b * p
    ensures n / b < p
  {
    if n / b >= p {
      MulAtLeast(n / b - p + 1, b);
    }
  }

  lemma {:induction false} ToFrom(ds: seq<nat>, b: nat)
    requires b > 0 && DigitsOf(ds, b)
    ensures From(ds, b) < Pow(b, |ds|) && To(From(ds, b), |ds|, b) == ds
    decreases |ds|
  {
    if ds == [] {
    } else {
      var m := |ds| - 1;
      var f, d, p := From(ds[..m], b), ds[m], Pow(b, m);
      ToFrom(ds[..m], b);
      NextDigit(f, d, b, p);
      assert ds[..m] + [d] == ds;
    }
  }

  lemma NextDigit(f: nat, d: nat, b: nat, p: nat)
    requires d < b && f < p
    ensures f * b + d < b * p && (f * b + d) / b == f && (f * b + d) % b == d
  {
    DivUnique(f * b + d, b, f, d);
    MulAtLeast(p - f, b);
    MulMinus(p, f, b);
  }

  /** Digit k from the right. */
  lemma {:induction false} DigitAt(n: nat, c: nat, k: nat, b: nat)
    requires b > 0 && k < c
    ensures To(n, c, b)[c - 1 - k] == (n / Pow(b, k)) % b
    decreases k
  {
    if k == 0 {
      assert Pow(b, 0) == 1;
    } else {
      DigitAt(n / b, c - 1, k - 1, b);
      DivTwice(n, b, Pow(b, k - 1));
    }
  }

  lemma DivTwice(n: nat, b: nat, p: nat)
    requires b > 0 && p > 0
    ensures b * p > 0 && n / (b * p) == (n / b) / p
  {
    var q, r := n / b, n % b;
    var h, s := q / p, q % p;
    DivMod(n, b);
    DivMod(q, p);
    MulAtLeast(b, p);
    NextDigit(s, r, b, p);
    SplitTwice(q, h, p, s, b);
    var bp: nat, rest: nat := b * p, s * b + r;
    DivUnique(n, bp, h, rest);
  }

  lemma SplitTwice(q: nat, h: nat, p: nat, s: nat, b: nat)
    requires q == h * p + s
    ensures q * b == h * (b * p) + s * b
  {
    MulBack(h, p, b);
    MulSum(h * p, s, b);
  }

  /** Numbers below a power that end in zeros keep only their leading digits. */
  lemma {:induction false} TrailingZeros(ds: seq<nat>, z: nat, b: nat)
    requires b > 0
    ensures From(ds + seq(z, _ => 0), b) == From(ds, b) * Pow(b, z)
    decreases z
  {
    if z == 0 {
      assert ds + seq(0, _ => 0) == ds;
    } else {
      TrailingZeros(ds, z - 1, b);
      var tail := ds + seq(z - 1, _ => 0);
      assert ds + seq(z, _ => 0) == tail + [0];
      FromSnoc(tail, 0, b);
      hide From;
      Times(From(ds, b), Pow(b, z - 1), b);
    }
  }

  lemma Times(f: nat, p: nat, b: nat)
    ensures f * p * b == f * (b * p)
  {
  }

  // ---- bits -------------------------------------------------------------------------------------------

  /** Filling in the zeros that a shift left. */
  lemma {:induction false} OrShifted(x: nat, k: nat, y: nat)
    requires y < Pow(2, k)
    ensures Or(x * Pow(2, k), y) == x * Pow(2, k) + y
    decreases k
  {
    if k > 0 && x > 0 && y > 0 {
      var p := Pow(2, k - 1);
      assert x * Pow(2, k) == 2 * (x * p);
      MulAtLeast(x, p);
      OrShifted(x, k - 1, y / 2);
    }
  }

  lemma OrStep(x: nat, y: nat)
    ensures Or(x, y) == 2 * Or(x / 2, y / 2) + if x % 2 == 1 || y % 2 == 1 then 1 else 0
  {
  }

  /** The low k bits and the others are joined apart. */
  lemma {:induction false} OrSplit(a: nat, b: nat, c: nat, d: nat, k: nat)
    requires b < Pow(2, k) && d < Pow(2, k)
    ensures Or(a * Pow(2, k) + b, c * Pow(2, k) + d) == Or(a, c) * Pow(2, k) + Or(b, d)
    decreases k
  {
    hide *;
    PowStep(k);
    if k == 0 {
      OrStep(0, 0);
      assert b == 0 && d == 0;
      OrZero(a, c);
    } else {
      var p, q := Pow(2, k), Pow(2, k - 1);
      OrSplit(a, b / 2, c, d / 2, k - 1);
      OrStep(a * p + b, c * p + d);
      OrStep(b, d);
      HalfOf(a, b, p, q);
      HalfOf(c, d, p, q);
      OneMoreBit(Or(a, c), Or(b / 2, d / 2), if b % 2 == 1 || d % 2 == 1 then 1 else 0, p, q);
    }
  }

  lemma PowStep(k: nat)
    ensures Pow(2, k) == if k == 0 then 1 else 2 * Pow(2, k - 1)
  {
  }

  lemma OrZero(a: nat, c: nat)
    ensures Or(a * 1 + 0, c * 1 + 0) == Or(a, c) * 1 + Or(0, 0)
  {
  }

  lemma OneMoreBit(o: nat, l: nat, bit: nat, p: nat, q: nat)
    requires p == 2 * q
    ensures 2 * (o * q + l) + bit == o * p + (2 * l + bit)
  {
    assert o * p == 2 * (o * q);
  }

  lemma HalfOf(a: nat, b: nat, p: nat, q: nat)
    requires p == 2 * q
    ensures (a * p + b) / 2 == a * q + b / 2 && (a * p + b) % 2 == b % 2
  {
    assert a * p == 2 * (a * q);
  }
}
