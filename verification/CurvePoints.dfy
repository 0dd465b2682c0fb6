/** What is assumed of the group of P-256 points, and the point routines as group operations. */
module CurvePoints {
  import opened Divisors
  import opened Limbs
  import opened Vli
  import opened Reduce
  import opened Field
  import opened Curve
  import opened Degenerate
  import opened Points
  import opened Group

  /** A group whose nonzero elements have affine coordinates. */
  datatype CurveGroup<!G(!new)> = CurveGroup(g: Group<G>, x: G -> int, y: G -> int)

  ghost predicate PointLaw<G(!new)>(c: CurveGroup<G>, p: G) {
    p != c.g.zero ==>
      && 0 <= c.x(p) < P256 && 0 <= c.y(p) < P256
      && Eq(c.y(p) * c.y(p), Rhs(c.x(p), -3, B256))
      && Eq(c.x(c.g.neg(p)), c.x(p)) && Eq(c.y(c.g.neg(p)), -c.y(p))
  }

  ghost predicate CoordinateLaw<G(!new)>(c: CurveGroup<G>, p: G, q: G) {
    p != c.g.zero && q != c.g.zero && Eq(c.x(p), c.x(q)) && Eq(c.y(p), c.y(q)) ==> p == q
  }

  ghost predicate ChordSum<G(!new)>(c: CurveGroup<G>, p: G, q: G, l: int) {
    p != c.g.zero && q != c.g.zero && !Eq(c.x(p), c.x(q)) && Eq(l * (c.x(q) - c.x(p)), c.y(q) - c.y(p)) ==>
      Chord(c.x(p), c.y(p), c.x(q), c.y(q), l, c.x(c.g.add(p, q)), c.y(c.g.add(p, q)))
  }

  ghost predicate TangentSum<G(!new)>(c: CurveGroup<G>, p: G, l: int) {
    p != c.g.zero && !Eq(c.y(p), 0) && Eq(2 * c.y(p) * l, 3 * (c.x(p) * c.x(p) - 1)) ==>
      Tangent(c.x(p), c.y(p), l, c.x(c.g.add(p, p)), c.y(c.g.add(p, p)))
  }

  /** The facts about the curve that the routines rely on: the modulus is prime, and addition
      of points is an abelian group given by chords and tangents. */
  ghost predicate IsP256<G(!new)>(c: CurveGroup<G>) {
    && Prime(P256) && Abelian(c.g)
    && (forall p :: PointLaw(c, p))
    && (forall p, q :: CoordinateLaw(c, p, q))
    && (forall p, q, l :: ChordSum(c, p, q, l))
    && (forall p, l :: TangentSum(c, p, l))
  }

  /** A nonzero field element has an inverse. */
  lemma {:induction false} Inverse(a: int) returns (w: int)
    requires Prime(P256) && !Eq(a, 0)
    ensures Eq(w * a, 1)
  {
    var r := a % P256;
    EqZeroIs(a);
    PrimeCoprime(r, P256);
    var x, k := Bezout(r, P256);
    w := x;
    EqMod(a);
    EqSym(r, a);
    EqRefl(w);
    EqMul(w, w, a, r);
    EqIntro(w * r, 1, -k);
    EqTrans(w * a, w * r, 1);
  }

  lemma {:induction false} NonzeroProduct(a: int, b: int)
    requires Prime(P256) && !Eq(a, 0) && !Eq(b, 0)
    ensures !Eq(a * b, 0)
  {
    if Eq(a * b, 0) {
      ProductZero(a, b);
    }
  }

  lemma {:induction false} Divide(a: int, b: int) returns (l: int)
    requires Prime(P256) && !Eq(a, 0)
    ensures Eq(l * a, b)
  {
    var w := Inverse(a);
    l := w * b;
    EqRefl(b);
    EqMul(w * a, 1, b, b);
    assert (w * a) * b == l * a;
  }

  lemma {:induction false} NegNonzero<G(!new)>(g: Group<G>, p: G)
    requires Abelian(g) && p != g.zero
    ensures g.neg(p) != g.zero
  {
    Zero(g, p);
    Zero(g, g.zero);
  }

  /** Two points with one x coordinate are equal or opposite. */
  lemma {:induction false} SameX<G(!new)>(c: CurveGroup<G>, p: G, q: G)
    requires IsP256(c) && p != c.g.zero && q != c.g.zero && Eq(c.x(p), c.x(q))
    ensures p == q || p == c.g.neg(q)
  {
    hide Eq;
    var u, v, s, t := c.x(p), c.x(q), c.y(p), c.y(q);
    assert PointLaw(c, p) && PointLaw(c, q);
    EqMul(u, v, u, v);
    EqMul(u * u, v * v, u, v);
    EqRefl(-3);
    EqMul(-3, -3, u, v);
    EqAdd(u * u * u, v * v * v, -3 * u, -3 * v);
    EqRefl(B256);
    EqAdd(u * u * u + -3 * u, v * v * v + -3 * v, B256, B256);
    EqSym(t * t, Rhs(v, -3, B256));
    EqTrans(s * s, Rhs(u, -3, B256), Rhs(v, -3, B256));
    EqTrans(s * s, Rhs(v, -3, B256), t * t);
    EqRefl(t * t);
    EqSub(s * s, t * t, t * t, t * t);
    assert (s - t) * (s + t) == s * s - t * t;
    ProductZero(s - t, s + t);
    if Eq(s - t, 0) {
      EqRefl(t);
      EqAdd(s - t, 0, t, t);
      assert CoordinateLaw(c, p, q);
    } else {
      NegNonzero(c.g, q);
      EqRefl(-t);
      EqAdd(s + t, 0, -t, -t);
      EqSym(c.y(c.g.neg(q)), -t);
      EqTrans(s, -t, c.y(c.g.neg(q)));
      EqSym(c.x(c.g.neg(q)), v);
      EqTrans(u, v, c.x(c.g.neg(q)));
      assert CoordinateLaw(c, p, c.g.neg(q));
    }
  }

  /** A point with y = 0 is its own negative. */
  lemma {:induction false} DoubleNonzero<G(!new)>(c: CurveGroup<G>, p: G)
    requires IsP256(c) && p != c.g.zero && c.g.add(p, p) != c.g.zero
    ensures !Eq(c.y(p), 0)
  {
    hide Eq;
    if Eq(c.y(p), 0) {
      var n := c.g.neg(p);
      assert PointLaw(c, p);
      NegNonzero(c.g, p);
      EqRefl(0);
      EqSub(0, 0, c.y(p), 0);
      EqTrans(c.y(n), -c.y(p), 0);
      EqSym(c.y(p), 0);
      EqTrans(c.y(n), 0, c.y(p));
      assert CoordinateLaw(c, n, p);
      Zero(c.g, p);
    }
  }

  lemma {:induction false} SumNonzero<G(!new)>(c: CurveGroup<G>, p: G, q: G)
    requires IsP256(c) && p != c.g.zero && q != c.g.zero && !Eq(c.x(p), c.x(q))
    ensures c.g.add(p, q) != c.g.zero
  {
    hide Eq;
    assert PointLaw(c, p);
    if c.g.add(p, q) == c.g.zero {
      Zero(c.g, p);
      Comm(c.g, p, q);
      Unique(c.g, q, c.g.neg(p), p);
      EqSym(c.x(q), c.x(p));
    }
  }

  /** The arrays hold the point p at the coordinate z. */
  ghost predicate At<G(!new)>(X: array<Limb>, Y: array<Limb>, c: CurveGroup<G>, p: G, z: int)
    reads X, Y
  {
    Is(X, c.x(p) * (z * z)) && Is(Y, c.y(p) * (z * (z * z)))
  }

  lemma {:induction false} IsTransfer(a: array<Limb>, v: int, w: int)
    requires Is(a, v) && Eq(v, w)
    ensures Is(a, w)
  {
    hide Num;
    EqTrans(Val(a), v, w);
  }

  /** The z coordinate after adding q to p at z. */
  function NewZ(xp: int, xq: int, z: int): int {
    z * (xq * (z * z) - xp * (z * z))
  }

  lemma {:induction false} NewZNonzero(xp: int, xq: int, z: int)
    requires Prime(P256) && !Eq(xp, xq) && !Eq(z, 0)
    ensures !Eq(NewZ(xp, xq, z), 0)
  {
    hide Eq;
    XGap(xp, xq);
    NonzeroProduct(z, z);
    NonzeroProduct(xq - xp, z * z);
    assert (xq - xp) * (z * z) == xq * (z * z) - xp * (z * z);
    NonzeroProduct(z, xq * (z * z) - xp * (z * z));
  }

  /** The addition polynomials at z, read as points. */
  lemma {:induction false} SumAt<G(!new)>(c: CurveGroup<G>, p: G, q: G, z: int)
    requires IsP256(c) && p != c.g.zero && q != c.g.zero && !Eq(c.x(p), c.x(q))
    ensures var s := c.g.add(p, q); var r := NewZ(c.x(p), c.x(q), z);
            var x1, y1 := c.x(p) * (z * z), c.y(p) * (z * (z * z));
            var x2, y2 := c.x(q) * (z * z), c.y(q) * (z * (z * z));
            && Eq(MoveX(x1, x2), c.x(p) * (r * r)) && Eq(MoveY(x1, y1, x2), c.y(p) * (r * (r * r)))
            && Eq(AddX(x1, y1, x2, y2), c.x(s) * (r * r)) && Eq(AddY(x1, y1, x2, y2), c.y(s) * (r * (r * r)))
  {
    hide Eq, MoveX, MoveY, AddX, AddY;
    var s := c.g.add(p, q);
    var x1, y1, x2, y2 := c.x(p) * (z * z), c.y(p) * (z * (z * z)), c.x(q) * (z * z), c.y(q) * (z * (z * z));
    XGap(c.x(p), c.x(q));
    var l := Divide(c.x(q) - c.x(p), c.y(q) - c.y(p));
    assert ChordSum(c, p, q, l);
    EqRefl(x1);
    EqRefl(y1);
    EqRefl(x2);
    EqRefl(y2);
    AddRep(x1, y1, x2, y2, z, c.x(p), c.y(p), c.x(q), c.y(q), l, c.x(s), c.y(s));
  }

  lemma {:induction false} XGap(u: int, v: int)
    requires !Eq(u, v)
    ensures !Eq(v - u, 0)
  {
    if Eq(v - u, 0) {
      EqRefl(u);
      EqAdd(v - u, 0, u, u);
      EqSym(v, u);
    }
  }

  /** The arrays hold (0, 0). */
  ghost predicate Zeroed(X: array<Limb>, Y: array<Limb>)
    reads X, Y
  {
    Is(X, 0) && Is(Y, 0)
  }

  /** The arrays hold reduced coordinates with y^2 = x^3. */
  ghost predicate OnCusp(X: array<Limb>, Y: array<Limb>)
    reads X, Y
  {
    X.Length == Y.Length == 4 && Is(X, Val(X)) && Is(Y, Val(Y)) && Cusp(Val(X), Val(Y))
  }

  /** What is left of two points at one z after a degenerate addition: the first is (0, 0), the second on the cusp. */
  ghost predicate Collapsed(X1: array<Limb>, Y1: array<Limb>, X2: array<Limb>, Y2: array<Limb>)
    reads X1, Y1, X2, Y2
  {
    Zeroed(X1, Y1) && OnCusp(X2, Y2)
  }

  lemma {:induction false} CollapsedParts(X1: array<Limb>, Y1: array<Limb>, X2: array<Limb>, Y2: array<Limb>)
    requires Collapsed(X1, Y1, X2, Y2)
    ensures Is(X1, Val(X1)) && Is(Y1, Val(Y1)) && Is(X2, Val(X2)) && Is(Y2, Val(Y2))
    ensures Eq(Val(X1), 0) && Eq(Val(Y1), 0) && Cusp(Val(X2), Val(Y2))
  {
    hide Num;
    EqRefl(Val(X1));
    EqRefl(Val(Y1));
  }

  lemma {:induction false} CuspHeld(X: array<Limb>, Y: array<Limb>, x: int, y: int)
    requires Is(X, x) && Is(Y, y) && Cusp(x, y)
    ensures OnCusp(X, Y)
  {
    hide Num;
    EqRefl(Val(X));
    EqRefl(Val(Y));
    CuspRespectsEq(Val(X), Val(Y), x, y);
  }

  lemma {:induction false} ZeroHeld(X: array<Limb>, Y: array<Limb>, x: int, y: int)
    requires Is(X, x) && Is(Y, y) && Eq(x, 0) && Eq(y, 0)
    ensures Zeroed(X, Y)
  {
    hide Num, Eq;
    IsTransfer(X, x, 0);
    IsTransfer(Y, y, 0);
  }

  /** The field elements that stand for the coordinates held, as a point at z or as plain numbers. */
  ghost function HeldX<G(!new)>(X: array<Limb>, c: CurveGroup<G>, p: G, z: int, live: bool): int
    reads X
    requires X.Length == 4
  {
    if live then c.x(p) * (z * z) else Val(X)
  }

  ghost function HeldY<G(!new)>(Y: array<Limb>, c: CurveGroup<G>, p: G, z: int, live: bool): int
    reads Y
    requires Y.Length == 4
  {
    if live then c.y(p) * (z * (z * z)) else Val(Y)
  }

  lemma {:induction false} AddedAt<G(!new)>(X1: array<Limb>, Y1: array<Limb>, X2: array<Limb>, Y2: array<Limb>,
                                            c: CurveGroup<G>, p: G, q: G, z: int,
                                            x1: int, y1: int, x2: int, y2: int)
    requires IsP256(c) && p != c.g.zero && q != c.g.zero && !Eq(c.x(p), c.x(q)) && !Eq(z, 0)
    requires x1 == c.x(p) * (z * z) && y1 == c.y(p) * (z * (z * z))
    requires x2 == c.x(q) * (z * z) && y2 == c.y(q) * (z * (z * z))
    requires Is(X1, MoveX(x1, x2)) && Is(Y1, MoveY(x1, y1, x2))
    requires Is(X2, AddX(x1, y1, x2, y2)) && Is(Y2, AddY(x1, y1, x2, y2))
    ensures At(X1, Y1, c, p, NewZ(c.x(p), c.x(q), z)) && At(X2, Y2, c, c.g.add(p, q), NewZ(c.x(p), c.x(q), z))
    ensures !Eq(NewZ(c.x(p), c.x(q), z), 0)
  {
    hide Num, Eq, Is, MoveX, MoveY, AddX, AddY;
    var s, r := c.g.add(p, q), NewZ(c.x(p), c.x(q), z);
    SumAt(c, p, q, z);
    NewZNonzero(c.x(p), c.x(q), z);
    IsTransfer(X1, MoveX(x1, x2), c.x(p) * (r * r));
    IsTransfer(Y1, MoveY(x1, y1, x2), c.y(p) * (r * (r * r)));
    IsTransfer(X2, AddX(x1, y1, x2, y2), c.x(s) * (r * r));
    IsTransfer(Y2, AddY(x1, y1, x2, y2), c.y(s) * (r * (r * r)));
  }

  /** Co-Z addition as a group operation: (X2, Y2) becomes p + q, (X1, Y1) stays p. Collapsed coordinates stay so. */
  method AddPoints<G(!new)>(X1: array<Limb>, Y1: array<Limb>, X2: array<Limb>, Y2: array<Limb>,
                            ghost c: CurveGroup<G>, ghost p: G, ghost q: G, ghost z: int, ghost live: bool)
    requires IsP256(c) && X1 != Y1 && X1 != X2 && X1 != Y2 && Y1 != X2 && Y1 != Y2 && X2 != Y2
    requires live ==>
               && At(X1, Y1, c, p, z) && At(X2, Y2, c, q, z)
               && p != c.g.zero && q != c.g.zero && !Eq(c.x(p), c.x(q)) && !Eq(z, 0)
    requires !live ==> Collapsed(X2, Y2, X1, Y1)
    modifies X1, Y1, X2, Y2
    ensures live ==>
              && At(X1, Y1, c, p, NewZ(c.x(p), c.x(q), z)) && At(X2, Y2, c, c.g.add(p, q), NewZ(c.x(p), c.x(q), z))
              && !Eq(NewZ(c.x(p), c.x(q), z), 0)
    ensures !live ==> Collapsed(X2, Y2, X1, Y1)
  {
    hide Num, Eq, Val, Holds, Cusp, MoveX, MoveY, AddX, AddY;
    ghost var x1, y1 := HeldX(X1, c, p, z, live), HeldY(Y1, c, p, z, live);
    ghost var x2, y2 := if live then c.x(q) * (z * z) else 0, if live then c.y(q) * (z * (z * z)) else 0;
    AddCoZ(X1, Y1, X2, Y2, x1, y1, x2, y2);
    if live {
      AddedAt(X1, Y1, X2, Y2, c, p, q, z, x1, y1, x2, y2);
    } else {
      EqRefl(0);
      ToZero(x1, y1, x2, y2);
      CuspHeld(X1, Y1, MoveX(x1, x2), MoveY(x1, y1, x2));
      ZeroHeld(X2, Y2, AddX(x1, y1, x2, y2), AddY(x1, y1, x2, y2));
    }
  }

  lemma {:induction false} ConjugatedAt<G(!new)>(X1: array<Limb>, Y1: array<Limb>, X2: array<Limb>, Y2: array<Limb>,
                                                 c: CurveGroup<G>, p: G, q: G, z: int,
                                                 x1: int, y1: int, x2: int, y2: int)
    requires IsP256(c) && p != c.g.zero && q != c.g.zero && !Eq(c.x(p), c.x(q)) && !Eq(z, 0)
    requires x1 == c.x(p) * (z * z) && y1 == c.y(p) * (z * (z * z))
    requires x2 == c.x(q) * (z * z) && y2 == c.y(q) * (z * (z * z))
    requires Is(X1, AddX(x1, y1, x2, -y2)) && Is(Y1, AddY(x1, y1, x2, -y2))
    requires Is(X2, AddX(x1, y1, x2, y2)) && Is(Y2, AddY(x1, y1, x2, y2))
    ensures At(X1, Y1, c, Minus(c.g, p, q), NewZ(c.x(p), c.x(q), z))
    ensures At(X2, Y2, c, c.g.add(p, q), NewZ(c.x(p), c.x(q), z))
    ensures !Eq(NewZ(c.x(p), c.x(q), z), 0)
  {
    hide Num, Eq, Is, MoveX, MoveY, AddX, AddY;
    var s, d, r := c.g.add(p, q), Minus(c.g, p, q), NewZ(c.x(p), c.x(q), z);
    SumAt(c, p, q, z);
    DifferenceAt(c, p, q, z);
    NewZNonzero(c.x(p), c.x(q), z);
    IsTransfer(X1, AddX(x1, y1, x2, -y2), c.x(d) * (r * r));
    IsTransfer(Y1, AddY(x1, y1, x2, -y2), c.y(d) * (r * (r * r)));
    IsTransfer(X2, AddX(x1, y1, x2, y2), c.x(s) * (r * r));
    IsTransfer(Y2, AddY(x1, y1, x2, y2), c.y(s) * (r * (r * r)));
  }

  /** Distinct points with one x coordinate are opposite, also at z. */
  lemma {:induction false} OppositeAt<G(!new)>(c: CurveGroup<G>, p: G, q: G, z: int)
    requires IsP256(c) && p != c.g.zero && q != c.g.zero && p != q && Eq(c.x(p), c.x(q))
    ensures Eq(c.x(q) * (z * z), c.x(p) * (z * z)) && Eq(c.y(q) * (z * (z * z)), -(c.y(p) * (z * (z * z))))
  {
    hide Eq;
    SameX(c, p, q);
    assert PointLaw(c, q);
    EqSym(c.x(p), c.x(q));
    EqRefl(z * z);
    EqMul(c.x(q), c.x(p), z * z, z * z);
    EqRefl(0);
    EqSub(0, 0, c.y(p), -c.y(q));
    EqSym(-c.y(p), c.y(q));
    EqRefl(z * (z * z));
    EqMul(c.y(q), -c.y(p), z * (z * z), z * (z * z));
    assert (-c.y(p)) * (z * (z * z)) == -(c.y(p) * (z * (z * z)));
  }

  /** The conjugate formulas on opposite points or on collapsed coordinates. */
  lemma {:induction false} ConjugateCollapses(x1: int, y1: int, x2: int, y2: int)
    requires (Eq(x2, x1) && Eq(y2, -y1)) || (Eq(x1, 0) && Eq(y1, 0) && Cusp(x2, y2)) || (Eq(x2, 0) && Eq(y2, 0) && Cusp(x1, y1))
    ensures Eq(AddX(x1, y1, x2, -y2), 0) && Eq(AddY(x1, y1, x2, -y2), 0)
    ensures Cusp(AddX(x1, y1, x2, y2), AddY(x1, y1, x2, y2))
  {
    hide Eq, Cusp, AddX, AddY, MoveX, MoveY;
    if Eq(x2, x1) && Eq(y2, -y1) {
      Opposite(x1, y1, x2, y2);
    } else {
      if Eq(x1, 0) && Eq(y1, 0) && Cusp(x2, y2) {
        CuspNegated(x2, y2);
        FromZero(x1, y1, x2, y2);
        FromZero(x1, y1, x2, -y2);
      } else {
        EqRefl(0);
        EqSub(0, 0, y2, 0);
        ToZero(x1, y1, x2, y2);
        ToZero(x1, y1, x2, -y2);
      }
      CuspZero();
      CuspRespectsEq(AddX(x1, y1, x2, y2), AddY(x1, y1, x2, y2), 0, 0);
    }
  }

  /** Conjugate addition as a group operation: (X1, Y1) becomes p - q, (X2, Y2) becomes p + q.
      Opposite points collapse, and collapsed coordinates stay so. */
  method ConjugatePoints<G(!new)>(X1: array<Limb>, Y1: array<Limb>, X2: array<Limb>, Y2: array<Limb>,
                                  ghost c: CurveGroup<G>, ghost p: G, ghost q: G, ghost z: int, ghost live: bool)
    requires IsP256(c) && X1 != Y1 && X1 != X2 && X1 != Y2 && Y1 != X2 && Y1 != Y2 && X2 != Y2
    requires live ==>
               && At(X1, Y1, c, p, z) && At(X2, Y2, c, q, z)
               && p != c.g.zero && q != c.g.zero && p != q && !Eq(z, 0)
    requires !live ==> Collapsed(X1, Y1, X2, Y2) || Collapsed(X2, Y2, X1, Y1)
    modifies X1, Y1, X2, Y2
    ensures live && !Eq(c.x(p), c.x(q)) ==>
              && At(X1, Y1, c, Minus(c.g, p, q), NewZ(c.x(p), c.x(q), z))
              && At(X2, Y2, c, c.g.add(p, q), NewZ(c.x(p), c.x(q), z))
              && !Eq(NewZ(c.x(p), c.x(q), z), 0)
    ensures !(live && !Eq(c.x(p), c.x(q))) ==> Collapsed(X1, Y1, X2, Y2)
  {
    hide Num, Eq, Val, Cusp, MoveX, MoveY, AddX, AddY, IsP256, NewZ;
    ghost var x1, y1 := HeldX(X1, c, p, z, live), HeldY(Y1, c, p, z, live);
    ghost var x2, y2 := HeldX(X2, c, q, z, live), HeldY(Y2, c, q, z, live);
    if !live {
      if Collapsed(X1, Y1, X2, Y2) {
        CollapsedParts(X1, Y1, X2, Y2);
      } else {
        CollapsedParts(X2, Y2, X1, Y1);
      }
    }
    AddCoZConjugate(X1, Y1, X2, Y2, x1, y1, x2, y2);
    if live && !Eq(c.x(p), c.x(q)) {
      ConjugatedAt(X1, Y1, X2, Y2, c, p, q, z, x1, y1, x2, y2);
    } else {
      if live {
        OppositeAt(c, p, q, z);
      }
      ConjugateCollapses(x1, y1, x2, y2);
      ZeroHeld(X1, Y1, AddX(x1, y1, x2, -y2), AddY(x1, y1, x2, -y2));
      CuspHeld(X2, Y2, AddX(x1, y1, x2, y2), AddY(x1, y1, x2, y2));
    }
  }

  /** The difference is the sum with the opposite point. */
  lemma {:induction false} DifferenceAt<G(!new)>(c: CurveGroup<G>, p: G, q: G, z: int)
    requires IsP256(c) && p != c.g.zero && q != c.g.zero && !Eq(c.x(p), c.x(q))
    ensures var d := Minus(c.g, p, q); var r := NewZ(c.x(p), c.x(q), z);
            var x1, y1 := c.x(p) * (z * z), c.y(p) * (z * (z * z));
            var x2, y2 := c.x(q) * (z * z), c.y(q) * (z * (z * z));
            Eq(AddX(x1, y1, x2, -y2), c.x(d) * (r * r)) && Eq(AddY(x1, y1, x2, -y2), c.y(d) * (r * (r * r)))
  {
    hide Eq, MoveX, MoveY, AddX, AddY;
    var n, d := c.g.neg(q), Minus(c.g, p, q);
    var x1, y1, x2, y2 := c.x(p) * (z * z), c.y(p) * (z * (z * z)), c.x(q) * (z * z), c.y(q) * (z * (z * z));
    assert PointLaw(c, q);
    EqSym(c.x(n), c.x(q));
    NegNonzero(c.g, q);
    if Eq(c.x(p), c.x(n)) {
      EqTrans(c.x(p), c.x(n), c.x(q));
    }
    XGap(c.x(p), c.x(n));
    var l := Divide(c.x(n) - c.x(p), c.y(n) - c.y(p));
    assert ChordSum(c, p, n, l);
    EqRefl(x1);
    EqRefl(y1);
    EqRefl(z * z);
    EqRefl(z * (z * z));
    EqMul(c.x(q), c.x(n), z * z, z * z);
    EqSym(c.y(n), -c.y(q));
    EqMul(-c.y(q), c.y(n), z * (z * z), z * (z * z));
    assert (-c.y(q)) * (z * (z * z)) == -y2;
    AddRep(x1, y1, x2, -y2, z, c.x(p), c.y(p), c.x(n), c.y(n), l, c.x(d), c.y(d));
  }

  /** Doubling as a group operation; (0, 0) at z = 0 stays so. */
  method DoublePoint<G(!new)>(X: array<Limb>, Y: array<Limb>, Z: array<Limb>,
                              ghost c: CurveGroup<G>, ghost p: G, ghost z: int, ghost live: bool)
    requires IsP256(c) && Z.Length == 4 && Holds(Z, z) && p != c.g.zero && c.g.add(p, p) != c.g.zero
    requires live ==> At(X, Y, c, p, z) && !Eq(z, 0)
    requires !live ==> Zeroed(X, Y) && Eq(z, 0)
    requires X != Y && X != Z && Y != Z
    modifies X, Y, Z
    ensures live ==>
              var z2 := (c.y(p) * (z * (z * z))) * z;
              At(X, Y, c, c.g.add(p, p), z2) && Is(Z, z2) && !Eq(z2, 0)
    ensures !live ==> Zeroed(X, Y) && Is(Z, 0)
  {
    hide Num, Eq, Is, DoubleX, DoubleY, Slope;
    ghost var x, y := if live then c.x(p) * (z * z) else 0, if live then c.y(p) * (z * (z * z)) else 0;
    ghost var s, r := c.g.add(p, p), y * z;
    if live {
      NonzeroHolds(Z, z);
    }
    ghost var zero := Val(Z) == 0;
    var b := DoubleJacobian(X, Y, Z, x, y, z);
    if live {
      DoubleAt(c, p, z, b);
      IsTransfer(X, DoubleX(x, y, b), c.x(s) * (r * r));
      IsTransfer(Y, DoubleY(x, y, b), c.y(s) * (r * (r * r)));
    } else if zero {
      ZeroIs(Z, z);
    } else {
      EqRefl(0);
      DoubleOfZero(x, y, z, b);
      IsTransfer(X, DoubleX(x, y, b), 0);
      IsTransfer(Y, DoubleY(x, y, b), 0);
      IsTransfer(Z, y * z, 0);
    }
  }

  lemma {:induction false} ZeroIs(a: array<Limb>, v: int)
    requires a.Length == 4 && Holds(a, v) && Val(a) == 0 && Eq(v, 0)
    ensures Is(a, 0)
  {
    hide Num;
    EqTrans(Val(a), v, 0);
  }

  lemma {:induction false} NonzeroHolds(a: array<Limb>, v: int)
    requires a.Length == 4 && Holds(a, v) && !Eq(v, 0)
    ensures Val(a) != 0
  {
    hide Num;
    if Val(a) == 0 {
      EqSym(Val(a), v);
    }
  }

  lemma {:induction false} DoubleAt<G(!new)>(c: CurveGroup<G>, p: G, z: int, b: int)
    requires IsP256(c) && p != c.g.zero && c.g.add(p, p) != c.g.zero && !Eq(z, 0)
    requires Eq(2 * b, Slope(c.x(p) * (z * z), z))
    ensures var x, y, s := c.x(p) * (z * z), c.y(p) * (z * (z * z)), c.g.add(p, p);
            var r := y * z;
            && Eq(DoubleX(x, y, b), c.x(s) * (r * r)) && Eq(DoubleY(x, y, b), c.y(s) * (r * (r * r)))
            && !Eq(r, 0)
  {
    hide Eq, DoubleX, DoubleY, Slope;
    var x, y, s := c.x(p) * (z * z), c.y(p) * (z * (z * z)), c.g.add(p, p);
    DoubleNonzero(c, p);
    TwoNonzero();
    NonzeroProduct(2, c.y(p));
    var l := Divide(2 * c.y(p), 3 * (c.x(p) * c.x(p) - 1));
    assert l * (2 * c.y(p)) == 2 * c.y(p) * l;
    assert TangentSum(c, p, l);
    EqRefl(x);
    EqRefl(y);
    DoubleRep(x, y, z, b, c.x(p), c.y(p), l, c.x(s), c.y(s));
    NonzeroProduct(z, z);
    NonzeroProduct(z, z * z);
    NonzeroProduct(c.y(p), z * (z * z));
    NonzeroProduct(y, z);
  }

  lemma {:induction false} TwoNonzero()
    ensures !Eq(2, 0)
  {
    EqZeroIs(2);
  }
}
