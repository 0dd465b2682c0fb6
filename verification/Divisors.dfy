/** Greatest common divisors by subtraction, Bezout coefficients and Euclid's lemma. */
module Divisors {
  import opened Arith

  ghost predicate Divides(d: int, x: int)
    requires d > 0
  {
    x % d == 0
  }

  lemma {:induction false} DividesIntro(d: int, x: int, k: int)
    requires d > 0 && x == k * d
    ensures Divides(d, x)
  {
    DivModUnique(x, k, 0, d);
  }

  lemma {:induction false} DividesLinear(d: int, x: int, y: int, a: int, b: int)
    requires d > 0 && Divides(d, x) && Divides(d, y)
    ensures Divides(d, a * x + b * y)
  {
    var k, l := x / d, y / d;
    assert a * (k * d) + b * (l * d) == (a * k + b * l) * d;
    DividesIntro(d, a * x + b * y, a * k + b * l);
  }

  lemma {:induction false} DividesAntisymmetric(d: int, e: int)
    requires d > 0 && e > 0 && Divides(d, e) && Divides(e, d)
    ensures d == e
  {
    var k, l := e / d, d / e;
    if k <= 0 {
      MulLe(k, 0, d);
    }
    if l <= 0 {
      MulLe(l, 0, e);
    }
    MulLe(1, k, d);
    MulLe(1, l, e);
  }

  function Gcd(a: nat, b: nat): (g: nat)
    requires a > 0 && b > 0
    ensures g > 0
    decreases a + b
  {
    if a == b then a else if a > b then Gcd(a - b, b) else Gcd(a, b - a)
  }

  lemma {:induction false} GcdDivides(a: nat, b: nat)
    requires a > 0 && b > 0
    ensures Divides(Gcd(a, b), a) && Divides(Gcd(a, b), b)
    decreases a + b
  {
    var g := Gcd(a, b);
    if a == b {
      DividesIntro(g, a, 1);
    } else if a > b {
      GcdDivides(a - b, b);
      DividesLinear(g, a - b, b, 1, 1);
    } else {
      GcdDivides(a, b - a);
      DividesLinear(g, a, b - a, 1, 1);
    }
  }

  lemma {:induction false} Bezout(a: nat, b: nat) returns (x: int, y: int)
    requires a > 0 && b > 0
    ensures x * a + y * b == Gcd(a, b)
    decreases a + b
  {
    if a == b {
      x, y := 1, 0;
    } else if a > b {
      var u, v := Bezout(a - b, b);
      x, y := u, v - u;
      assert u * (a - b) + v * b == u * a + (v - u) * b;
    } else {
      var u, v := Bezout(a, b - a);
      x, y := u - v, v;
      assert u * a + v * (b - a) == (u - v) * a + v * b;
    }
  }

  lemma {:induction false} GcdGreatest(a: nat, b: nat, d: int)
    requires a > 0 && b > 0 && d > 0 && Divides(d, a) && Divides(d, b)
    ensures Divides(d, Gcd(a, b))
  {
    var x, y := Bezout(a, b);
    DividesLinear(d, a, b, x, y);
  }

  lemma {:induction false} ParityOfProduct(a: int, b: int)
    ensures (a * b) % 2 == (a % 2) * (b % 2)
  {
    var c, d, s, t := a / 2, b / 2, a % 2, b % 2;
    assert a * b == (2 * c + s) * (2 * d + t) == 2 * (2 * c * d + c * t + s * d) + s * t;
    DivModUnique(a * b, 2 * c * d + c * t + s * d, s * t, 2);
  }

  /** An odd divisor of a doubled number divides the number. */
  lemma {:induction false} OddDividesHalf(d: int, x: int)
    requires d > 0 && d % 2 == 1 && Divides(d, 2 * x)
    ensures Divides(d, x)
  {
    var q := 2 * x / d;
    assert 2 * x == q * d;
    ParityOfProduct(q, d);
    HalveFactor(x, q, d);
    DividesIntro(d, x, q / 2);
  }

  lemma {:induction false} HalveFactor(x: int, q: int, d: int)
    requires 2 * x == q * d && q % 2 == 0
    ensures x == (q / 2) * d
  {
    assert q == 2 * (q / 2);
  }

  lemma {:induction false} DivisorOfOdd(d: int, x: int)
    requires d > 0 && x % 2 == 1 && Divides(d, x)
    ensures d % 2 == 1
  {
    var q := x / d;
    assert x == q * d;
    ParityOfProduct(q, d);
  }

  /** Halving an even argument keeps the divisor when the other argument is odd. */
  lemma {:induction false} GcdHalf(a: nat, b: nat)
    requires a > 0 && b > 0 && a % 2 == 0 && b % 2 == 1
    ensures Gcd(a / 2, b) == Gcd(a, b)
  {
    var g, h := Gcd(a, b), Gcd(a / 2, b);
    GcdDivides(a, b);
    GcdDivides(a / 2, b);
    DividesLinear(h, a / 2, b, 2, 0);
    GcdGreatest(a, b, h);
    DivisorOfOdd(g, b);
    OddDividesHalf(g, a / 2);
    GcdGreatest(a / 2, b, g);
    DividesAntisymmetric(g, h);
  }

  lemma {:induction false} GcdSymmetric(a: nat, b: nat)
    requires a > 0 && b > 0
    ensures Gcd(a, b) == Gcd(b, a)
    decreases a + b
  {
    if a > b {
      GcdSymmetric(a - b, b);
    } else if a < b {
      GcdSymmetric(a, b - a);
    }
  }

  ghost predicate Prime(p: int) {
    p > 1 && forall d: int :: 1 < d < p ==> !Divides(d, p)
  }

  lemma {:induction false} PrimeCoprime(a: nat, p: nat)
    requires Prime(p) && a % p != 0
    ensures a > 0 && Gcd(a, p) == 1
  {
    DivModUnique(0, 0, 0, p);
    var g := Gcd(a, p);
    GcdDivides(a, p);
    if g > p {
      DivModUnique(p, 0, p, g);
    }
  }

  /** Euclid's lemma. */
  lemma {:induction false} PrimeDividesProduct(p: nat, a: int, b: int)
    requires Prime(p) && Cong(a * b, 0, p)
    ensures Cong(a, 0, p) || Cong(b, 0, p)
  {
    DivModUnique(0, 0, 0, p);
    var r := a % p;
    if r != 0 {
      DivModUnique(r, 0, r, p);
      PrimeCoprime(r, p);
      var x, y := Bezout(r, p);
      CongMod(a, p);
      CongMul(r, a, b, b, p);
      CongMul(x, x, r * b, 0, p);
      assert b == b * (x * r + y * p) == x * (r * b) + (b * y) * p;
      CongIntro(b, x * (r * b), b * y, p);
    }
  }
}
