/** Greatest common divisors, for the values a remainder runs through. */
module Euclid {
  import opened Arith

  function Gcd(a: nat, b: nat): (g: nat)
    ensures a > 0 || b > 0 ==> g > 0
    decreases b
  {
    if b == 0 then a else Gcd(b, a % b)
  }

  predicate Divides(g: nat, n: nat) { g > 0 && n % g == 0 }

  lemma {:induction false} GcdDivides(a: nat, b: nat)
    requires a > 0 || b > 0
    ensures Divides(Gcd(a, b), a) && Divides(Gcd(a, b), b)
    decreases b
  {
    hide Divides;
    if b == 0 {
      DividesSelf(a);
    } else {
      GcdDivides(b, a % b);
      DividesBack(a, b, Gcd(b, a % b));
    }
  }

  lemma DividesSelf(a: nat)
    requires a > 0
    ensures Divides(a, a) && Divides(a, 0)
  {
    DivUnique(a, a, 1, 0);
    DivUnique(0, a, 0, 0);
  }

  lemma DividesBack(a: nat, b: nat, g: nat)
    requires b > 0 && Divides(g, b) && Divides(g, a % b)
    ensures Divides(g, a)
  {
    DivMod(a, b);
    SumMultiple(a, a / b, b, a % b, g);
  }

  lemma SumMultiple(a: nat, q: nat, b: nat, r: nat, g: nat)
    requires g > 0 && b % g == 0 && r % g == 0 && a == q * b + r
    ensures a % g == 0
  {
    var b', r' := b / g, r / g;
    DivMod(b, g);
    DivMod(r, g);
    MulBack(q, b', g);
    MulSum(q * b', r', g);
    MultipleMod(q * b' + r', g);
  }

  lemma {:induction false} Bezout(a: nat, b: nat) returns (x: int, y: int)
    ensures x * a + y * b == Gcd(a, b)
    decreases b
  {
    if b == 0 {
      x, y := 1, 0;
    } else {
      var q, r := a / b, a % b;
      DivMod(a, b);
      var u, v := Bezout(b, r);
      x, y := v, u - v * q;
      Swapped(a, b, q, r, u, v);
    }
  }

  lemma Swapped(a: int, b: int, q: int, r: int, u: int, v: int)
    requires a == q * b + r
    ensures v * a + (u - v * q) * b == u * b + v * r
  {
    assert v * (q * b + r) == v * q * b + v * r;
    assert (u - v * q) * b == u * b - v * q * b;
  }

  /** Every sum of multiples is a multiple of the divisor. */
  lemma Combined(n: nat, m: nat, g: nat, k: int, c: int) returns (t: int)
    requires g > 0 && n % g == 0 && m % g == 0
    ensures c * n - k * m == t * g
  {
    var n', m' := n / g, m / g;
    DivMod(n, g);
    DivMod(m, g);
    t := c * n' - k * m';
    assert c * (n' * g) == c * n' * g && k * (m' * g) == k * m' * g;
    assert t * g == c * n' * g - k * m' * g;
  }

  /** And every multiple of the greatest common divisor is reached with k below n. */
  lemma Reached(n: nat, m: nat, t: int) returns (k: nat, c: int)
    requires n > 0
    ensures k < n && c * n - k * m == t * Gcd(n, m)
  {
    var g := Gcd(n, m);
    var x, y := Bezout(n, m);
    var p := -t * y;
    var q, r := p / n, p % n;
    assert p == n * q + r;
    k, c := r, t * x - q * m;
    ReachedSum(n, m, t, g, x, y, p, q, r);
  }

  lemma ReachedSum(n: int, m: int, t: int, g: int, x: int, y: int, p: int, q: int, r: int)
    requires x * n + y * m == g && p == -t * y && p == n * q + r
    ensures (t * x - q * m) * n - r * m == t * g
  {
    assert r * m == p * m - n * q * m;
    assert p * m == -t * y * m;
    assert t * (x * n + y * m) == t * x * n + t * y * m;
    assert (t * x - q * m) * n == t * x * n - q * m * n;
  }
}
