/** What the co-Z addition formulas give where they do not give the sum: points that lie on the cusp y^2 = x^3. */
module Degenerate {
  import opened Field
  import opened Curve

  ghost predicate Cusp(x: int, y: int) {
    Eq(y * y, x * (x * x))
  }

  lemma {:induction false} CuspRespectsEq(x: int, y: int, a: int, b: int)
    requires Eq(x, a) && Eq(y, b) && Cusp(a, b)
    ensures Cusp(x, y)
  {
    hide Eq;
    EqMul(y, b, y, b);
    EqMul(x, a, x, a);
    EqMul(x, a, x * x, a * a);
    EqTrans(y * y, b * b, a * (a * a));
    EqSym(x * (x * x), a * (a * a));
    EqTrans(y * y, a * (a * a), x * (x * x));
  }

  lemma {:induction false} CuspZero()
    ensures Cusp(0, 0)
  {
    EqRefl(0);
  }

  lemma {:induction false} CuspNegated(x: int, y: int)
    requires Cusp(x, y)
    ensures Cusp(x, -y)
  {
    assert (-y) * (-y) == y * y;
  }

  /** y^2 - x^3 and its multiples vanish on the cusp. */
  lemma {:induction false} CuspVanishes(x: int, y: int, m: int)
    requires Cusp(x, y)
    ensures Eq(y * y - x * (x * x), 0) && Eq(m * (y * y - x * (x * x)), 0)
  {
    hide Eq;
    var e := x * (x * x);
    EqRefl(e);
    EqSub(y * y, e, e, e);
    EqRefl(m);
    EqMul(m, m, y * y - e, 0);
  }

  lemma {:induction false} AddFromZero(x: int, y: int)
    ensures AddX(0, 0, x, y) == y * y - x * (x * x)
    ensures AddY(0, 0, x, y) == -y * (y * y - x * (x * x))
  {}

  /** Adding a point of the cusp to (0, 0). */
  lemma {:induction false} FromZero(x1: int, y1: int, x2: int, y2: int)
    requires Eq(x1, 0) && Eq(y1, 0) && Cusp(x2, y2)
    ensures Eq(AddX(x1, y1, x2, y2), 0) && Eq(AddY(x1, y1, x2, y2), 0)
  {
    hide Eq, AddX, AddY, MoveX, MoveY;
    EqRefl(x2);
    EqRefl(y2);
    AddRespectsEq(x1, y1, x2, y2, 0, 0, x2, y2);
    AddFromZero(x2, y2);
    CuspVanishes(x2, y2, -y2);
    EqTrans(AddX(x1, y1, x2, y2), AddX(0, 0, x2, y2), 0);
    EqTrans(AddY(x1, y1, x2, y2), AddY(0, 0, x2, y2), 0);
  }

  lemma {:induction false} AddToZero(x: int, y: int)
    ensures AddX(x, y, 0, 0) == y * y - x * (x * x)
    ensures AddY(x, y, 0, 0) == y * (y * y - x * (x * x))
    ensures MoveX(x, 0) == x * (x * x) && MoveY(x, y, 0) == -y * (x * (x * x))
  {}

  /** Adding (0, 0) to a point of the cusp. */
  lemma {:induction false} ToZero(x1: int, y1: int, x2: int, y2: int)
    requires Cusp(x1, y1) && Eq(x2, 0) && Eq(y2, 0)
    ensures Eq(AddX(x1, y1, x2, y2), 0) && Eq(AddY(x1, y1, x2, y2), 0)
    ensures Cusp(MoveX(x1, x2), MoveY(x1, y1, x2))
  {
    hide Eq, AddX, AddY, MoveX, MoveY;
    EqRefl(x1);
    EqRefl(y1);
    AddRespectsEq(x1, y1, x2, y2, x1, y1, 0, 0);
    AddToZero(x1, y1);
    CuspVanishes(x1, y1, y1);
    EqTrans(AddX(x1, y1, x2, y2), AddX(x1, y1, 0, 0), 0);
    EqTrans(AddY(x1, y1, x2, y2), AddY(x1, y1, 0, 0), 0);
    CuspScaled(x1, y1);
    CuspRespectsEq(MoveX(x1, x2), MoveY(x1, y1, x2), x1 * (x1 * x1), -y1 * (x1 * (x1 * x1)));
  }

  lemma {:induction false} CuspScaled(x: int, y: int)
    requires Cusp(x, y)
    ensures Cusp(x * (x * x), -y * (x * (x * x)))
  {
    hide Eq;
    var e := x * (x * x);
    EqRefl(e * e);
    EqMul(y * y, e, e * e, e * e);
    CuspSquare(y, e);
  }

  lemma {:induction false} CuspSquare(y: int, e: int)
    ensures (-y * e) * (-y * e) == (y * y) * (e * e) && e * (e * e) == e * (e * e)
  {}

  lemma {:induction false} AddOpposite(x: int, y: int)
    ensures AddX(x, y, x, y) == 0 && AddY(x, y, x, y) == 0
    ensures AddX(x, y, x, -y) == (2 * y) * (2 * y) && AddY(x, y, x, -y) == (2 * y) * ((2 * y) * (2 * y))
  {}

  lemma {:induction false} CuspOfPowers(h: int)
    ensures (h * (h * h)) * (h * (h * h)) == (h * h) * ((h * h) * (h * h))
  {}

  /** Opposite points: their difference comes out as (0, 0) and their sum on the cusp. */
  lemma {:induction false} Opposite(x1: int, y1: int, x2: int, y2: int)
    requires Eq(x2, x1) && Eq(y2, -y1)
    ensures Eq(AddX(x1, y1, x2, -y2), 0) && Eq(AddY(x1, y1, x2, -y2), 0)
    ensures Cusp(AddX(x1, y1, x2, y2), AddY(x1, y1, x2, y2))
  {
    hide Eq, AddX, AddY, MoveX, MoveY;
    var h := 2 * y1;
    EqRefl(x1);
    EqRefl(y1);
    EqRefl(0);
    EqSub(0, 0, y2, -y1);
    AddRespectsEq(x1, y1, x2, -y2, x1, y1, x1, y1);
    AddRespectsEq(x1, y1, x2, y2, x1, y1, x1, -y1);
    AddOpposite(x1, y1);
    CuspOfPowers(h);
    EqRefl((h * h) * ((h * h) * (h * h)));
    CuspRespectsEq(AddX(x1, y1, x2, y2), AddY(x1, y1, x2, y2), h * h, h * (h * h));
  }

  /** Doubling (0, 0) at z = 0. */
  lemma {:induction false} DoubleOfZero(x: int, y: int, z: int, b: int)
    requires Eq(x, 0) && Eq(y, 0) && Eq(z, 0) && Eq(2 * b, Slope(x, z))
    ensures Eq(DoubleX(x, y, b), 0) && Eq(DoubleY(x, y, b), 0) && Eq(y * z, 0)
  {
    hide Eq, DoubleX, DoubleY;
    EqMul(x, 0, x, 0);
    EqMul(z, 0, z, 0);
    EqMul(z * z, 0, z * z, 0);
    EqSub(x * x, 0, (z * z) * (z * z), 0);
    EqRefl(3);
    EqMul(3, 3, x * x - (z * z) * (z * z), 0);
    EqTrans(2 * b, Slope(x, z), 0);
    EqHalve(b, 0);
    DoubleRespectsEq(x, y, b, 0, 0, 0);
    ZeroDoubled(0);
    EqMul(y, 0, z, 0);
  }

  lemma {:induction false} ZeroDoubled(o: int)
    requires o == 0
    ensures DoubleX(o, o, o) == 0 && DoubleY(o, o, o) == 0
  {
    hide DoubleX, DoubleY;
    ZeroX(o);
    YIs(o, o, o, DoubleX(o, o, o));
  }

  lemma {:induction false} ZeroX(o: int)
    requires o == 0
    ensures DoubleX(o, o, o) == 0
  {}

  lemma {:induction false} YIs(x: int, y: int, b: int, t: int)
    requires t == DoubleX(x, y, b)
    ensures DoubleY(x, y, b) == b * (x * (y * y) - t) - (y * y) * (y * y)
  {
    hide DoubleX;
  }
}
