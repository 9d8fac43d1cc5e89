/** Which values a linear expression without constant takes over the integers: exactly the multiples of the greatest
    common divisor of its coefficients. */
module Diophantine {
  import opened Util
  import opened MathKernel

  predicate Divides(g: nat, x: int) {
    if g == 0 then x == 0 else x % g == 0
  }

  function Quotient(g: nat, x: int): (q: int)
    requires Divides(g, x)
    ensures g * q == x
  {
    if g == 0 then 0 else x / g
  }

  lemma MultipleIsDivided(g: nat, k: int)
    ensures Divides(g, g * k)
  {
    if g > 0 {
      Remainder(g, k, 0);
    }
  }

  lemma Remainder(g: nat, k: int, r: int)
    requires 0 <= r < g
    ensures (g * k + r) % g == r && (g * k + r) / g == k
  {
    var q, s := (g * k + r) / g, (g * k + r) % g;
    assert g * q + s == g * k + r;
    assert g * (q - k) == r - s;
    if q != k {
      MultipleIsFar(g, q - k);
    }
  }

  lemma {:induction false} AtLeastOnce(g: nat, k: nat)
    requires k > 0
    ensures g * k >= g
  {
    if k > 1 {
      AtLeastOnce(g, k - 1);
      assert g * k == g * (k - 1) + g;
    }
  }

  lemma MultipleIsFar(g: nat, k: int)
    requires k != 0
    ensures g * k >= g || g * k <= -(g as int)
  {
    if k > 0 {
      AtLeastOnce(g, k);
    } else {
      AtLeastOnce(g, -k);
      assert g * k == -(g * -k);
    }
  }

  lemma DividesCombination(g: nat, x: int, y: int, k: int, n: int)
    requires Divides(g, x) && Divides(g, y)
    ensures Divides(g, x * k + y * n)
  {
    var p, q := Quotient(g, x), Quotient(g, y);
    assert x * k + y * n == g * (p * k + q * n);
    MultipleIsDivided(g, p * k + q * n);
  }

  function Gcd(a: nat, b: nat): nat
    decreases b
  {
    if b == 0 then a else Gcd(b, a % b)
  }

  lemma {:induction false} GcdDivides(a: nat, b: nat)
    ensures Divides(Gcd(a, b), a) && Divides(Gcd(a, b), b)
    decreases b
  {
    if b == 0 {
      MultipleIsDivided(a, 1);
      MultipleIsDivided(a, 0);
    } else {
      GcdDivides(b, a % b);
      DividesCombination(Gcd(a, b), b, a % b, a / b, 1);
      assert b * (a / b) + (a % b) * 1 == a;
    }
  }

  lemma {:induction false} Bezout(a: nat, b: nat) returns (u: int, w: int)
    ensures u * a + w * b == Gcd(a, b)
    decreases b
  {
    if b == 0 {
      u, w := 1, 0;
    } else {
      var u', w' := Bezout(b, a % b);
      u, w := w', u' - a / b * w';
      assert u * a + w * b == w' * (a - a / b * b) + u' * b;
    }
  }

  function Abs(x: int): nat {
    if x < 0 then -x else x
  }

  function GcdAll(m: Coeffs): nat {
    if m == [] then 0 else Gcd(Abs(m[0].value), GcdAll(m[1..]))
  }

  lemma {:induction false} DotIsDivided(m: Coeffs, rho: Valuation)
    ensures Divides(GcdAll(m), Dot(m, rho))
  {
    if m != [] {
      var v, g, rest := m[0].value, GcdAll(m), GcdAll(m[1..]);
      DotIsDivided(m[1..], rho);
      GcdDivides(Abs(v), rest);
      var q := Quotient(rest, Dot(m[1..], rho));
      var x := if v < 0 then -At(rho, m[0].key) else At(rho, m[0].key);
      assert Abs(v) * x == v * At(rho, m[0].key);
      DividesCombination(g, Abs(v), rest, x, q);
    }
  }

  lemma {:induction false} DotElsewhere(m: Coeffs, rho: Valuation, v: string, n: int)
    requires Find(m, v) == -1
    ensures Dot(m, rho[v := n]) == Dot(m, rho)
  {
    if m != [] {
      assert Find(m[1..], v) == -1;
      DotElsewhere(m[1..], rho, v, n);
    }
  }

  lemma {:induction false} Reach(m: Coeffs, c: int) returns (rho: Valuation)
    requires DistinctKeys(m) && Divides(GcdAll(m), c)
    ensures Dot(m, rho) == c
  {
    if m == [] {
      rho := map[];
    } else {
      var v, rest, q := m[0].value, GcdAll(m[1..]), Quotient(GcdAll(m), c);
      var u, w := Bezout(Abs(v), rest);
      MultipleIsDivided(rest, w * q);
      var rho' := Reach(m[1..], rest * (w * q));
      var n := if v < 0 then -(u * q) else u * q;
      assert Find(m[1..], m[0].key) == -1;
      DotElsewhere(m[1..], rho', m[0].key, n);
      rho := rho'[m[0].key := n];
      ReachSum(v, rest, u, w, q, n);
    }
  }

  lemma ReachSum(v: int, rest: nat, u: int, w: int, q: int, n: int)
    requires n == if v < 0 then -(u * q) else u * q
    ensures v * n + rest * (w * q) == (u * Abs(v) + w * rest) * q
  {
    assert v * n == Abs(v) * (u * q) == u * Abs(v) * q;
    assert rest * (w * q) == w * rest * q;
  }

  /** Without a constant an expression takes the value c for some valuation if and only if the greatest common divisor
      of its coefficients divides c. */
  lemma TakesExactlyMultiples(m: Coeffs, c: int)
    requires DistinctKeys(m)
    ensures (exists rho :: Dot(m, rho) == c) <==> Divides(GcdAll(m), c)
  {
    if rho :| Dot(m, rho) == c {
      DotIsDivided(m, rho);
    }
    if Divides(GcdAll(m), c) {
      var rho := Reach(m, c);
    }
  }
}
