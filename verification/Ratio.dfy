// Greatest common divisors: the Euclid loop shared by both resize-table
// builders, and the number theory that makes their DDA loops terminate.
module Ratio {

  // ----- Multiplication and division by variables, one fact at a time -----

  lemma MulAssoc(a: int, b: int, c: int)
    ensures a * (b * c) == (a * b) * c
  {
  }

  lemma MulDistr(a: int, b: int, c: int)
    ensures (a + b) * c == a * c + b * c
    ensures (a - b) * c == a * c - b * c
  {
  }

  lemma MulSign(a: int, d: int)
    requires d > 0
    ensures a >= 1 ==> a * d >= d
    ensures a <= -1 ==> a * d <= -d
  {
  }

  lemma MulCancel(a: int, b: int, d: int)
    requires d > 0 && a * d == b * d
    ensures a == b
  {
    MulDistr(a, b, d);
    MulSign(a - b, d);
  }

  lemma DivModUnique(a: int, d: int, q: int, r: int)
    requires d > 0 && a == q * d + r && 0 <= r < d
    ensures a / d == q && a % d == r
  {
    var q', r' := a / d, a % d;
    assert a == q' * d + r';
    MulDistr(q, q', d);
    MulSign(q - q', d);
  }

  // ----- The gcd -----

  // Mathematical gcd, by the recursion that Euclid's loop unrolls.
  function Gcd(x: nat, y: nat): (g: nat)
    ensures x + y > 0 ==> g > 0
    decreases y
  {
    if y == 0 then x else Gcd(y, x % y)
  }

  lemma Recombine(t: int, y: int, r: int, a: int, b: int, g: int)
    requires y == a * g && r == b * g
    ensures t * y + r == (t * a + b) * g
  {
    MulAssoc(t, a, g);
    MulDistr(t * a, b, g);
  }

  lemma Division(x: nat, y: nat) returns (t: int, r: nat)
    requires y > 0
    ensures r == x % y && r < y && x == t * y + r
  {
    t, r := x / y, x % y;
  }

  // Both arguments are multiples of the gcd.
  lemma {:induction false} GcdDivides(x: nat, y: nat) returns (p: int, q: int)
    requires x + y > 0
    ensures x == p * Gcd(x, y) && y == q * Gcd(x, y)
    decreases y
  {
    if y == 0 {
      p, q := 1, 0;
    } else {
      var t, r := Division(x, y);
      var a, b := GcdDivides(y, r);
      Recombine(t, y, r, a, b, Gcd(x, y));
      p, q := t * a + b, a;
    }
  }

  // Bezout coefficients; every common divisor therefore divides the gcd.
  lemma {:induction false} Bezout(x: nat, y: nat) returns (a: int, b: int)
    ensures a * x + b * y == Gcd(x, y)
    decreases y
  {
    if y == 0 {
      a, b := 1, 0;
    } else {
      var t, r := Division(x, y);
      var c, d := Bezout(y, r);
      MulDistr(x, r, d);
      MulAssoc(d, t, y);
      MulDistr(c, d * t, y);
      a, b := d, c - d * t;
      assert d * r == d * x - d * (t * y);
    }
  }

  // Scaling a Bezout identity by a common factor of both arguments.
  lemma Combine(a: int, p: int, b: int, q: int, d: int)
    ensures a * (p * d) + b * (q * d) == (a * p + b * q) * d
  {
    MulAssoc(a, p, d);
    MulAssoc(b, q, d);
    MulDistr(a * p, b * q, d);
  }

  // Gcd(x, y) is the greatest of the common divisors.
  lemma GcdIsGreatest(x: nat, y: nat, d: nat, p: nat, q: nat)
    requires x + y > 0 && d > 0 && x == p * d && y == q * d
    ensures d <= Gcd(x, y)
  {
    var a, b := Bezout(x, y);
    Combine(a, p, b, q, d);
    MulSign(a * p + b * q, d);
  }

  // x and y as coprime multiples of their gcd.
  lemma Reduce(x: nat, y: nat) returns (p: nat, q: nat)
    requires x > 0 && y > 0
    ensures var g := Gcd(x, y);
            p == x / g && q == y / g && p > 0 && q > 0 && x == p * g && y == q * g
  {
    var p', q' := GcdDivides(x, y);
    var g := Gcd(x, y);
    MulSign(p', g);
    MulSign(q', g);
    p, q := p', q';
    DivModUnique(x, g, p, 0);
    DivModUnique(y, g, q, 0);
  }

  // One full period: y / g steps of x are exactly x / g steps of y.
  lemma Period(x: nat, y: nat)
    requires x > 0 && y > 0
    ensures var g := Gcd(x, y);
            x / g > 0 && y / g > 0 && (y / g) * x == (x / g) * y
  {
    var p, q := Reduce(x, y);
    var g := Gcd(x, y);
    MulAssoc(q, p, g);
    MulAssoc(p, q, g);
  }

  // The orbit of multiples of x modulo y returns to zero only after a whole
  // number of y / gcd(x, y) steps: this is why `while (v)` and
  // `while (carry != init_carry)` run for exactly one period.
  lemma Orbit(x: nat, y: nat, i: nat, k: nat) returns (m: int)
    requires x > 0 && y > 0 && i * x == k * y
    ensures i == m * (y / Gcd(x, y))
  {
    var g := Gcd(x, y);
    var p, q := Reduce(x, y);
    assert i * p == k * q by {
      MulAssoc(i, p, g);
      MulAssoc(k, q, g);
      MulCancel(i * p, k * q, g);
    }
    var a, b := Bezout(x, y);
    assert a * p + b * q == 1 by {
      Combine(a, p, b, q, g);
      MulCancel(a * p + b * q, 1, g);
    }
    m := a * k + b * i;
    Cofactor(a, b, i, k, p, q);
  }

  // If a*p + b*q == 1 and q divides i*p, then q divides i.
  lemma Cofactor(a: int, b: int, i: int, k: int, p: int, q: int)
    requires a * p + b * q == 1 && i * p == k * q
    ensures i == (a * k + b * i) * q
  {
    MulDistr(a * p, b * q, i);
    MulAssoc(a, p, i);
    MulAssoc(a, k, q);
    MulAssoc(b, i, q);
    MulAssoc(b, q, i);
    MulDistr(a * k, b * i, q);
  }

  // Dividing out the gcd leaves coprime numbers.
  lemma Reduced(x: nat, y: nat)
    requires x > 0 && y > 0
    ensures var g := Gcd(x, y);
            x / g > 0 && y / g > 0 && Gcd(x / g, y / g) == 1
  {
    var g := Gcd(x, y);
    var x', y' := Reduce(x, y);
    var h := Gcd(x', y');
    var p, q := Reduce(x', y');
    MulAssoc(p, h, g);
    MulAssoc(q, h, g);
    MulSign(h, g);
    GcdIsGreatest(x, y, h * g, p, q);
    MulDistr(h, 1, g);
    MulSign(h - 1, g);
  }

  // pp_gcd and prp_gcd: the same Euclid loop, for unsigned and for int.
  method Euclid(x0: nat, y0: nat) returns (r: nat)
    requires x0 > 0 && y0 > 0
    ensures r == Gcd(x0, y0) && r > 0
  {
    var x, y := x0, y0;
    if x < y {
      DivModUnique(x, y, 0, x);
      x, y := y, x;
    }
    assert Gcd(x, y) == Gcd(x0, y0);
    var k := x % y;
    while k != 0
      invariant y > 0 && k == x % y
      invariant Gcd(x, y) == Gcd(x0, y0)
      decreases k
    {
      x, y := y, k;
      k := x % y;
    }
    return y;
  }
}
