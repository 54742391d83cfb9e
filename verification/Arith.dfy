/** Arithmetic that several models share, with division facts the solver does not find on its own. */
module Arith {

  function Abs(x: int): nat { if x < 0 then -x else x }

  function Pow(b: nat, k: nat): (p: nat)
    ensures b > 0 ==> p > 0
  {
    if k == 0 then 1 else b * Pow(b, k - 1)
  }

  /** The | of C on non-negative numbers. */
  function Or(x: nat, y: nat): nat {
    if x == 0 then y else if y == 0 then x else 2 * Or(x / 2, y / 2) + if x % 2 == 1 || y % 2 == 1 then 1 else 0
  }

  lemma MulAtLeast(k: nat, m: nat)
    requires k >= 1
    ensures k * m >= m
  {
  }

  lemma MulMinus(a: nat, b: nat, m: nat)
    ensures (a - b) * m == a * m - b * m
  {
  }

  lemma MulLe(a: nat, b: nat, m: nat)
    requires a <= b
    ensures a * m <= b * m && m * a <= m * b
  {
    MulMinus(b, a, m);
    assert (b - a) * m >= 0;
  }

  lemma MulNext(k: nat, m: nat)
    ensures (k + 1) * m == k * m + m
  {
  }

  lemma DivMod(n: nat, b: nat)
    requires b > 0
    ensures n == (n / b) * b + n % b
  {
  }

  lemma DivUnique(x: nat, m: nat, q: nat, r: nat)
    requires m > 0 && r < m && x == q * m + r
    ensures x / m == q && x % m == r
  {
    var q' := x / m;
    var r' := x % m;
    assert x == q' * m + r';
    if q' > q {
      MulAtLeast(q' - q, m);
      MulMinus(q', q, m);
      assert false;
    } else if q' < q {
      MulAtLeast(q - q', m);
      MulMinus(q, q', m);
      assert false;
    }
  }

  lemma MulSum(a: nat, b: nat, m: nat)
    ensures (a + b) * m == a * m + b * m
  {
  }

  lemma MulBack(a: nat, b: nat, c: nat)
    ensures a * (b * c) == (a * b) * c
  {
  }

  lemma {:induction false} PowAdd(b: nat, i: nat, j: nat)
    ensures Pow(b, i + j) == Pow(b, i) * Pow(b, j)
    decreases i
  {
    if i == 0 {
    } else {
      PowAdd(b, i - 1, j);
      var p, q := Pow(b, i - 1), Pow(b, j);
      assert Pow(b, i) == b * p && Pow(b, i + j) == b * Pow(b, i - 1 + j);
      hide Pow;
      MulBack(b, p, q);
    }
  }

  lemma MultipleMod(k: nat, m: nat)
    requires m > 0
    ensures (k * m) % m == 0
  {
    DivUnique(k * m, m, k, 0);
  }

  lemma HalfAgain(e: nat, p: nat)
    requires p > 0
    ensures e / (2 * p) == (e / p) / 2 && e / p == 2 * (e / (2 * p)) + (e / p) % 2
  {
    var q, r := e / p, e % p;
    assert e == p * q + r;
    var h, b := q / 2, q % 2;
    assert p * q == h * (2 * p) + b * p;
    assert b * p <= p;
    DivUnique(e, 2 * p, h, b * p + r);
  }
}
