/** Jacobian doubling and co-Z addition on limb arrays. Every routine carries, as ghost
    arguments, the field elements its arrays hold; the results are the polynomials of Curve. */
module Points {
  import opened Limbs
  import opened Vli
  import opened Field
  import opened Curve

  /** Doubles (X1 : Y1 : Z1) in place; a zero Z1 is left alone. */
  method DoubleJacobian(X1: array<Limb>, Y1: array<Limb>, Z1: array<Limb>, ghost x: int, ghost y: int, ghost z: int)
    returns (ghost b: int)
    requires Is(X1, x) && Is(Y1, y) && Z1.Length == 4 && Holds(Z1, z)
    requires X1 != Y1 && X1 != Z1 && Y1 != Z1
    modifies X1, Y1, Z1
    ensures old(Val(Z1)) == 0 ==> Is(X1, x) && Is(Y1, y) && Holds(Z1, z) && Val(Z1) == 0
    ensures old(Val(Z1)) != 0 ==>
              Eq(2 * b, Slope(x, z)) && Is(X1, DoubleX(x, y, b)) && Is(Y1, DoubleY(x, y, b)) && Is(Z1, y * z)
  {
    hide Num, Eq, Val, Holds, Slope, DoubleX, DoubleY, Times;
    b := 0;
    var zero := IsZero(Z1);
    if zero {
      return;
    }
    var t4, t5 := new Limb[4], new Limb[4];
    ghost var q := Times(y, y);
    Sqr(t4, Y1, y);
    Mul(t5, X1, t4, x, q);
    Sqr(t4, t4, q);
    Mul(Y1, Y1, Z1, y, z);
    TimesIs(y, z);
    b := DoubleSlope(X1, Z1, x, z);
    DoubleFinish(X1, Z1, t4, t5, x, y, b);
    Copy(X1, Z1, DoubleX(x, y, b));
    Copy(Z1, Y1, y * z);
    Copy(Y1, t4, DoubleY(x, y, b));
  }

  /** X1 = 3/2 * (x^2 - z^4), using Z1 for intermediate values. */
  method DoubleSlope(X1: array<Limb>, Z1: array<Limb>, ghost x: int, ghost z: int) returns (ghost b: int)
    requires Is(X1, x) && Z1.Length == 4 && Holds(Z1, z) && X1 != Z1
    modifies X1, Z1
    ensures Is(X1, b) && Eq(2 * b, Slope(x, z))
  {
    hide Num, Eq, Val, Times;
    ghost var q := Times(z, z);
    Sqr(Z1, Z1, z);
    AddF(X1, X1, Z1, x, q);
    AddF(Z1, Z1, Z1, q, q);
    SubF(Z1, X1, Z1, x + q, q + q);
    Mul(X1, X1, Z1, x + q, x + q - (q + q));
    ghost var d := Times(x + q, x + q - (q + q));
    AddF(Z1, X1, X1, d, d);
    AddF(X1, X1, Z1, d, d + d);
    b := Halve(X1, d + (d + d));
    SlopeProduct(x, z, q, d);
  }

  lemma {:induction false} TimesIs(a: int, b: int)
    ensures Times(a, b) == a * b
  {}

  lemma {:induction false} SlopeProduct(x: int, z: int, q: int, d: int)
    requires q == Times(z, z) && d == Times(x + q, x + q - (q + q))
    ensures d + (d + d) == Slope(x, z)
  {
    assert (x + q) * (x + q - (q + q)) == x * x - q * q;
  }

  /** From the slope b in X1, y^4 in t4 and x * y^2 in t5: the new x in Z1, the new y in t4. */
  method DoubleFinish(X1: array<Limb>, Z1: array<Limb>, t4: array<Limb>, t5: array<Limb>,
                      ghost x: int, ghost y: int, ghost b: int)
    requires Is(X1, b) && Z1.Length == 4 && Is(t4, Times(Times(y, y), Times(y, y))) && Is(t5, Times(x, Times(y, y)))
    requires X1 != Z1 && X1 != t4 && X1 != t5 && Z1 != t4 && Z1 != t5 && t4 != t5
    modifies X1, Z1, t4, t5
    ensures Is(Z1, DoubleX(x, y, b)) && Is(t4, DoubleY(x, y, b)) && X1.Length == 4
  {
    hide Num, Eq, Val, Holds, Times, DoubleX, DoubleY;
    ghost var a, c, u := Times(x, Times(y, y)), Times(Times(y, y), Times(y, y)), DoubleX(x, y, b);
    DoubleTerms(x, y, b);
    Sqr(Z1, X1, b);
    SubF(Z1, Z1, t5, Times(b, b), a);
    SubF(Z1, Z1, t5, Times(b, b) - a, a);
    SubF(t5, t5, Z1, a, u);
    Mul(X1, X1, t5, b, a - u);
    SubF(t4, X1, t4, Times(b, a - u), c);
  }

  lemma {:induction false} DoubleTerms(x: int, y: int, b: int)
    ensures var a, c := Times(x, Times(y, y)), Times(Times(y, y), Times(y, y));
            && DoubleX(x, y, b) == Times(b, b) - a - a
            && DoubleY(x, y, b) == Times(b, a - DoubleX(x, y, b)) - c
  {}

  /** (X1, Y1) = (x * z^2, y * z^3). */
  method ApplyZ(X1: array<Limb>, Y1: array<Limb>, Z: array<Limb>, ghost x: int, ghost y: int, ghost z: int)
    requires Holds(X1, x) && Holds(Y1, y) && Holds(Z, z)
    requires X1 != Y1 && X1 != Z && Y1 != Z
    modifies X1, Y1
    ensures Is(X1, x * (z * z)) && Is(Y1, y * (z * (z * z)))
  {
    hide Num, Eq;
    var t1 := new Limb[4];
    Sqr(t1, Z, z);
    Mul(X1, X1, t1, x, z * z);
    Mul(t1, t1, Z, z * z, z);
    Mul(Y1, Y1, t1, y, (z * z) * z);
    assert (z * z) * z == z * (z * z);
  }

  /** X1 = x1 * (x2 - x1)^2 and X2 = x2 * (x2 - x1)^2, the x coordinates at the new z. */
  method ScaleByGap(X1: array<Limb>, X2: array<Limb>, t5: array<Limb>, ghost x1: int, ghost x2: int)
    requires Is(X1, x1) && Is(X2, x2) && t5.Length == 4
    requires X1 != X2 && X1 != t5 && X2 != t5
    modifies X1, X2, t5
    ensures Is(X1, MoveX(x1, x2)) && Is(X2, FarX(x1, x2))
  {
    hide Num, Eq, Val, Holds, Times;
    GapIs(x1, x2);
    SubF(t5, X2, X1, x2, x1);
    Sqr(t5, t5, x2 - x1);
    Mul(X1, X1, t5, x1, Gap(x1, x2));
    Mul(X2, X2, t5, x2, Gap(x1, x2));
  }

  /** The second x coordinate at the new z. */
  function FarX(x1: int, x2: int): int { x2 * Gap(x1, x2) }

  lemma {:induction false} GapIs(x1: int, x2: int)
    ensures Times(x2 - x1, x2 - x1) == Gap(x1, x2)
    ensures Times(x1, Gap(x1, x2)) == MoveX(x1, x2) && Times(x2, Gap(x1, x2)) == FarX(x1, x2)
  {}

  /** The addition polynomials in the products the routines form. */
  lemma {:induction false} AddTerms(x1: int, y1: int, x2: int, y2: int)
    ensures var b, c := MoveX(x1, x2), FarX(x1, x2);
            && MoveY(x1, y1, x2) == Times(y1, c - b)
            && AddX(x1, y1, x2, y2) == Times(y2 - y1, y2 - y1) - b - c
            && AddY(x1, y1, x2, y2) == Times(y2 - y1, b - AddX(x1, y1, x2, y2)) - MoveY(x1, y1, x2)
  {}

  /** Adds the second point to the first at the common z: (X2, Y2) becomes the sum and
      (X1, Y1) the first point moved to the new z. */
  method AddCoZ(X1: array<Limb>, Y1: array<Limb>, X2: array<Limb>, Y2: array<Limb>,
                ghost x1: int, ghost y1: int, ghost x2: int, ghost y2: int)
    requires Is(X1, x1) && Is(Y1, y1) && Is(X2, x2) && Is(Y2, y2)
    requires X1 != Y1 && X1 != X2 && X1 != Y2 && Y1 != X2 && Y1 != Y2 && X2 != Y2
    modifies X1, Y1, X2, Y2
    ensures Is(X1, MoveX(x1, x2)) && Is(Y1, MoveY(x1, y1, x2))
    ensures Is(X2, AddX(x1, y1, x2, y2)) && Is(Y2, AddY(x1, y1, x2, y2))
  {
    hide Num, Eq, Val, Holds, Times, MoveX, FarX, MoveY, AddX, AddY;
    ghost var dy, b, c := y2 - y1, MoveX(x1, x2), FarX(x1, x2);
    AddTerms(x1, y1, x2, y2);
    var t5 := new Limb[4];
    ScaleByGap(X1, X2, t5, x1, x2);
    SubF(Y2, Y2, Y1, y2, y1);
    Sqr(t5, Y2, dy);
    SubF(t5, t5, X1, Times(dy, dy), b);
    SubF(t5, t5, X2, Times(dy, dy) - b, c);
    AddFinish(X1, Y1, X2, Y2, t5, x1, y1, x2, y2);
  }

  /** The rest of the addition, from y2 - y1 in Y2 and the new x in t5. */
  method AddFinish(X1: array<Limb>, Y1: array<Limb>, X2: array<Limb>, Y2: array<Limb>, t5: array<Limb>,
                   ghost x1: int, ghost y1: int, ghost x2: int, ghost y2: int)
    requires Is(X1, MoveX(x1, x2)) && Is(Y1, y1) && Is(X2, FarX(x1, x2)) && Is(Y2, y2 - y1)
    requires Is(t5, AddX(x1, y1, x2, y2))
    requires X1 != Y1 && X1 != X2 && X1 != Y2 && Y1 != X2 && Y1 != Y2 && X2 != Y2
    requires t5 != X1 && t5 != Y1 && t5 != X2 && t5 != Y2
    modifies Y1, X2, Y2
    ensures Is(Y1, MoveY(x1, y1, x2))
    ensures Is(X2, AddX(x1, y1, x2, y2)) && Is(Y2, AddY(x1, y1, x2, y2))
  {
    hide Num, Eq, Val, Holds, Times, MoveX, FarX, MoveY, AddX, AddY;
    ghost var dy, b, c, t := y2 - y1, MoveX(x1, x2), FarX(x1, x2), AddX(x1, y1, x2, y2);
    AddTerms(x1, y1, x2, y2);
    SubF(X2, X2, X1, c, b);
    Mul(Y1, Y1, X2, y1, c - b);
    SubF(X2, X1, t5, b, t);
    Mul(Y2, Y2, X2, dy, b - t);
    SubF(Y2, Y2, Y1, Times(dy, b - t), Times(y1, c - b));
    Copy(X2, t5, t);
  }

  /** (X1, Y1) becomes the first point less the second, (X2, Y2) their sum, at one z. */
  method AddCoZConjugate(X1: array<Limb>, Y1: array<Limb>, X2: array<Limb>, Y2: array<Limb>,
                         ghost x1: int, ghost y1: int, ghost x2: int, ghost y2: int)
    requires Is(X1, x1) && Is(Y1, y1) && Is(X2, x2) && Is(Y2, y2)
    requires X1 != Y1 && X1 != X2 && X1 != Y2 && Y1 != X2 && Y1 != Y2 && X2 != Y2
    modifies X1, Y1, X2, Y2
    ensures Is(X1, AddX(x1, y1, x2, -y2)) && Is(Y1, AddY(x1, y1, x2, -y2))
    ensures Is(X2, AddX(x1, y1, x2, y2)) && Is(Y2, AddY(x1, y1, x2, y2))
  {
    hide Num, Eq, Val, Holds, Times, MoveX, FarX, MoveY, AddX, AddY;
    ghost var b, c := MoveX(x1, x2), FarX(x1, x2);
    AddTerms(x1, y1, x2, y2);
    var t5, t6, t7 := new Limb[4], new Limb[4], new Limb[4];
    ScaleByGap(X1, X2, t5, x1, x2);
    AddF(t5, Y2, Y1, y2, y1);
    SubF(Y2, Y2, Y1, y2, y1);
    SubF(t6, X2, X1, c, b);
    Mul(Y1, Y1, t6, y1, c - b);
    AddF(t6, X1, X2, b, c);
    FinishSum(X1, Y1, X2, Y2, t6, t7, x1, y1, x2, y2);
    FinishDifference(X1, Y1, t5, t6, t7, x1, y1, x2, y2);
  }

  /** The sum, from y2 - y1 in Y2 and the sum of the scaled x coordinates in t6. */
  method FinishSum(X1: array<Limb>, Y1: array<Limb>, X2: array<Limb>, Y2: array<Limb>, t6: array<Limb>, t7: array<Limb>,
                   ghost x1: int, ghost y1: int, ghost x2: int, ghost y2: int)
    requires Is(X1, MoveX(x1, x2)) && Is(Y1, MoveY(x1, y1, x2)) && X2.Length == 4 && t7.Length == 4
    requires Is(Y2, y2 - y1) && Is(t6, MoveX(x1, x2) + FarX(x1, x2))
    requires X1 != X2 && X1 != Y2 && Y1 != X2 && Y1 != Y2 && X2 != Y2
    requires t6 != X2 && t6 != Y2 && t7 != X1 && t7 != Y1 && t7 != X2 && t7 != Y2 && t7 != t6
    modifies X2, Y2, t7
    ensures Is(X2, AddX(x1, y1, x2, y2)) && Is(Y2, AddY(x1, y1, x2, y2))
  {
    hide Num, Eq, Val, Holds, Times, MoveX, FarX, MoveY, AddX, AddY;
    ghost var dy, b, c, t := y2 - y1, MoveX(x1, x2), FarX(x1, x2), AddX(x1, y1, x2, y2);
    AddTerms(x1, y1, x2, y2);
    Sqr(X2, Y2, dy);
    SubF(X2, X2, t6, Times(dy, dy), b + c);
    SubF(t7, X1, X2, b, t);
    Mul(Y2, Y2, t7, dy, b - t);
    SubF(Y2, Y2, Y1, Times(dy, b - t), MoveY(x1, y1, x2));
  }

  /** The difference, from y1 + y2 in t5 and the sum of the scaled x coordinates in t6. */
  method FinishDifference(X1: array<Limb>, Y1: array<Limb>, t5: array<Limb>, t6: array<Limb>, t7: array<Limb>,
                          ghost x1: int, ghost y1: int, ghost x2: int, ghost y2: int)
    requires Is(X1, MoveX(x1, x2)) && Is(Y1, MoveY(x1, y1, x2)) && t7.Length == 4
    requires Is(t5, y2 + y1) && Is(t6, MoveX(x1, x2) + FarX(x1, x2))
    requires X1 != Y1 && X1 != t5 && X1 != t6 && X1 != t7 && Y1 != t5 && Y1 != t6 && Y1 != t7
    requires t5 != t6 && t5 != t7 && t6 != t7
    modifies X1, Y1, t6, t7
    ensures Is(X1, AddX(x1, y1, x2, -y2)) && Is(Y1, AddY(x1, y1, x2, -y2))
  {
    hide Num, Eq, Val, Holds, Times, MoveX, FarX, MoveY, AddX, AddY;
    ghost var m, t, b := y2 + y1, AddX(x1, y1, x2, -y2), MoveX(x1, x2);
    ghost var c := FarX(x1, x2);
    AddTerms(x1, y1, x2, -y2);
    Conjugate(m, b - t);
    Sqr(t7, t5, m);
    SubF(t7, t7, t6, Times(m, m), b + c);
    SubF(t6, t7, X1, t, b);
    Mul(t6, t6, t5, t - b, m);
    SubF(Y1, t6, Y1, Times(t - b, m), MoveY(x1, y1, x2));
    Copy(X1, t7, t);
  }

  lemma {:induction false} Conjugate(m: int, d: int)
    ensures Times(m, m) == Times(-m, -m) && Times(-d, m) == Times(-m, d)
  {}
}
