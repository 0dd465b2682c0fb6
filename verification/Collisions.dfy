/** Which runs of the double multiplication are degenerate, in numbers: for a public key d * g of odd order n. */
module Collisions {
  import opened Arith
  import opened Bits
  import opened Divisors
  import opened Field
  import opened Group
  import opened CurvePoints
  import opened PointMult
  import opened DoubleScalar

  /** What is left of u above its lowest i bits. */
  function High(u: nat, i: nat): (h: nat)
    ensures Pow(2, i) > 0 && h == u / Pow(2, i)
  {
    PowPositive(2, i);
    DivNonnegative(u, Pow(2, i));
    u / Pow(2, i)
  }

  lemma {:induction false} DivNonnegative(a: nat, b: int)
    requires b > 0
    ensures a / b >= 0
  {}

  /** The step at bit i is clear: with a and t the multiples of g that are held and that the bits select, n divides
      neither a nor, if a bit is set, any of t, 2a - t and 2a + t. */
  ghost predicate ClearAt(n: nat, d: nat, u1: nat, u2: nat, i: nat)
    requires n > 0
  {
    var a := High(u1, i + 1) + High(u2, i + 1) * d;
    var t := High(u1, i) % 2 + (High(u2, i) % 2) * d;
    && !Divides(n, a)
    && (High(u1, i) % 2 == 1 || High(u2, i) % 2 == 1 ==>
          !Divides(n, t) && !Divides(n, 2 * a - t) && !Divides(n, 2 * a + t))
  }

  /** Every step below the leading bit of the longer scalar is clear. */
  ghost predicate ClearRun(n: nat, d: nat, u1: nat, u2: nat)
    requires n > 0
  {
    forall i: nat :: i + 1 < Max(BitLen(u1), BitLen(u2)) ==> ClearAt(n, d, u1, u2, i)
  }

  lemma {:induction false} TopIs(u: nat, i: nat)
    ensures Top(u, i) == High(u, i)
  {
    hide High;
    HighStep(u, i);
    if i > 0 {
      TopIs(u / 2, i - 1);
    }
  }

  lemma {:induction false} HighStep(u: nat, i: nat)
    ensures High(u, 0) == u
    ensures i > 0 ==> High(u, i) == High(u / 2, i - 1)
  {
    assert Pow(2, 0) == 1;
    if i > 0 {
      assert Pow(2, i) == 2 * Pow(2, i - 1);
      PowPositive(2, i - 1);
      HalvedQuotient(u, Pow(2, i - 1));
    }
  }

  lemma {:induction false} HalvedQuotient(u: nat, p: int)
    requires p > 0
    ensures u / (2 * p) == u / 2 / p
  {
    var q, r := u / 2 / p, u / 2 % p;
    assert u == 2 * (q * p + r) + u % 2 == q * (2 * p) + (2 * r + u % 2);
    DivModUnique(u, q, 2 * r + u % 2, 2 * p);
  }

  lemma {:induction false} BitIs(u: nat, i: nat)
    ensures Bit(u, i) == High(u, i) % 2
  {
    hide High, Top, Bit;
    TopStep(u, i);
    TopIs(u, i);
    TopIs(u, i + 1);
  }

  /** Multiples are equal exactly if the order divides their difference, and opposite exactly if it divides the sum. */
  lemma {:induction false} EqualMultiples<G(!new)>(g: Group<G>, p: G, n: nat, i: nat, j: nat)
    requires Abelian(g) && Order(g, p, n) && n > 0
    ensures Mult(g, i, p) == Mult(g, j, p) <==> Divides(n, i - j)
    ensures Mult(g, i, p) == g.neg(Mult(g, j, p)) <==> Divides(n, i + j)
  {
    hide Mult, Order, Divides;
    if i >= j {
      LargerMultiple(g, p, n, i, j);
    } else {
      LargerMultiple(g, p, n, j, i);
      DividesNegated(n, i - j);
    }
    var a, b := Mult(g, i, p), Mult(g, j, p);
    MultAdd(g, i, j, p);
    ZeroMultiple(g, p, n, i + j);
    Zero(g, b);
    if g.add(a, b) == g.zero {
      Unique(g, a, g.neg(b), b);
    }
  }

  lemma {:induction false} LargerMultiple<G(!new)>(g: Group<G>, p: G, n: nat, i: nat, j: nat)
    requires Abelian(g) && Order(g, p, n) && n > 0 && i >= j
    ensures Mult(g, i, p) == Mult(g, j, p) <==> Divides(n, i - j)
  {
    hide Mult, Order, Divides;
    var a, b, c := Mult(g, i, p), Mult(g, j, p), Mult(g, i - j, p);
    MultAdd(g, i - j, j, p);
    ZeroMultiple(g, p, n, i - j);
    Zero(g, b);
    if a == b {
      Unique(g, c, g.zero, b);
    }
  }

  lemma {:induction false} DividesNegated(n: nat, x: int)
    requires n > 0
    ensures Divides(n, x) <==> Divides(n, -x)
  {
    if Divides(n, x) {
      DividesIntro(n, -x, -(x / n));
    }
    if Divides(n, -x) {
      DividesIntro(n, x, -((-x) / n));
    }
  }

  /** Points share their x coordinate exactly if they are equal or opposite. */
  lemma {:induction false} SameXIs<G(!new)>(c: CurveGroup<G>, p: G, q: G)
    requires IsP256(c) && p != c.g.zero && q != c.g.zero
    ensures Eq(c.x(p), c.x(q)) <==> p == q || p == c.g.neg(q)
  {
    hide Eq, IsP256;
    EqRefl(c.x(p));
    NegX(c, q);
    if Eq(c.x(p), c.x(q)) {
      SameX(c, p, q);
    }
  }

  lemma {:induction false} CombinationIs<G(!new)>(g: Group<G>, p: G, d: nat, j1: nat, j2: nat)
    requires Abelian(g)
    ensures Combination(g, j1, p, j2, Mult(g, d, p)) == Mult(g, j1 + j2 * d, p)
  {
    hide Mult;
    MultMult(g, j2, d, p);
    MultAdd(g, j1, j2 * d, p);
  }

  /** A step is degenerate exactly if its numbers are not clear. */
  lemma {:induction false} StepOkIs<G(!new)>(c: CurveGroup<G>, g: G, n: nat, d: nat, j1: nat, j2: nat, b1: nat, b2: nat)
    requires IsP256(c) && Order(c.g, g, n) && n > 0 && b1 <= 1 && b2 <= 1
    ensures var a, t := j1 + j2 * d, b1 + b2 * d;
            StepOk(c, g, Mult(c.g, d, g), j1, j2, b1, b2) <==>
            && !Divides(n, a)
            && (b1 == 1 || b2 == 1 ==> !Divides(n, t) && !Divides(n, 2 * a - t) && !Divides(n, 2 * a + t))
  {
    hide Mult, Order, Divides, IsP256, Combination, Select, Eq;
    var q, a, t := Mult(c.g, d, g), j1 + j2 * d, b1 + b2 * d;
    var r, s := Mult(c.g, a, g), Mult(c.g, t, g);
    IsGroup(c);
    OrderOdd(c.g, g, n);
    CombinationIs(c.g, g, d, j1, j2);
    SelectIs(c.g, g, q, b1, b2);
    CombinationIs(c.g, g, d, b1, b2);
    MultAdd(c.g, a, a, g);
    assert a + a == 2 * a;
    ZeroMultiple(c.g, g, n, a);
    ZeroMultiple(c.g, g, n, 2 * a);
    ZeroMultiple(c.g, g, n, t);
    OddOrder(n, a);
    DividesTwice(n, a);
    EqualMultiples(c.g, g, n, t, 2 * a);
    DividesNegated(n, t - 2 * a);
    if r != c.g.zero && s != c.g.zero {
      SameXIs(c, s, Mult(c.g, 2 * a, g));
    }
  }

  lemma {:induction false} DividesTwice(n: nat, a: nat)
    requires n > 0
    ensures Divides(n, a) ==> Divides(n, 2 * a)
  {
    if Divides(n, a) {
      DividesIntro(n, 2 * a, 2 * (a / n));
    }
  }

  /** The double multiplication for the key d * g meets no degenerate step exactly if its scalars are clear. */
  lemma {:induction false} NoCollisionIs<G(!new)>(c: CurveGroup<G>, g: G, n: nat, d: nat, u1: nat, u2: nat)
    requires IsP256(c) && Order(c.g, g, n) && n > 0
    ensures NoCollision(c, g, Mult(c.g, d, g), u1, u2) <==> ClearRun(n, d, u1, u2)
  {
    hide Mult, Order, IsP256, StepOk, BitLen;
    forall i: nat
      ensures StepOk(c, g, Mult(c.g, d, g), Top(u1, i + 1), Top(u2, i + 1), Bit(u1, i), Bit(u2, i)) <==> ClearAt(n, d, u1, u2, i)
    {
      TopIs(u1, i + 1);
      TopIs(u2, i + 1);
      BitIs(u1, i);
      BitIs(u2, i);
      StepOkIs(c, g, n, d, Top(u1, i + 1), Top(u2, i + 1), Bit(u1, i), Bit(u2, i));
    }
    hide ClearAt;
    if ClearRun(n, d, u1, u2) {
      forall i: nat
        ensures StepOkAt(c, g, Mult(c.g, d, g), u1, u2, i)
      {}
    }
    if NoCollision(c, g, Mult(c.g, d, g), u1, u2) {
      forall i: nat | i + 1 < Max(BitLen(u1), BitLen(u2))
        ensures ClearAt(n, d, u1, u2, i)
      {
        assert StepOkAt(c, g, Mult(c.g, d, g), u1, u2, i);
      }
    }
  }
}
