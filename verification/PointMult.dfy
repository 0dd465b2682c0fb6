/** Scalar multiplication of a curve point: the co-Z Montgomery ladder on limb arrays. */
module PointMult {
  import opened Arith
  import opened Bits
  import opened Divisors
  import opened Limbs
  import opened Vli
  import opened ModInv
  import opened Reduce
  import opened Field
  import opened Curve
  import opened Degenerate
  import opened Points
  import opened Group
  import opened CurvePoints

  /** The multiples of p that are zero are those by the multiples of n, which is odd. */
  ghost predicate Order<G(!new)>(g: Group<G>, p: G, n: nat) {
    n >= 3 && n % 2 == 1 && forall m: nat :: OrderAt(g, p, n, m)
  }

  ghost predicate OrderAt<G(!new)>(g: Group<G>, p: G, n: nat, m: nat)
    requires n > 0
  {
    Mult(g, m, p) == g.zero <==> Divides(n, m)
  }

  lemma {:induction false} ZeroMultiple<G(!new)>(g: Group<G>, p: G, n: nat, m: nat)
    requires Order(g, p, n)
    ensures Mult(g, m, p) == g.zero <==> Divides(n, m)
  {
    assert OrderAt(g, p, n, m);
  }

  lemma {:induction false} OddOrder(n: nat, j: nat)
    requires n >= 3 && n % 2 == 1
    ensures Divides(n, 2 * j) ==> Divides(n, j)
    ensures !Divides(n, 1) && !Divides(n, 2)
  {
    if Divides(n, 2 * j) {
      OddDividesHalf(n, j);
    }
    SmallNumber(1, n);
    SmallNumber(2, n);
  }

  lemma {:induction false} ZeroDivides(n: nat)
    requires n > 0
    ensures Divides(n, 0)
  {
    DividesIntro(n, 0, 0);
  }

  lemma {:induction false} SmallNumber(m: nat, n: nat)
    requires 0 < m < n
    ensures !Divides(n, m)
  {
    DivModUnique(m, 0, m, n);
  }

  /** Two multiples have one x coordinate only if they are equal or opposite. */
  lemma {:induction false} DistinctX<G(!new)>(c: CurveGroup<G>, p: G, n: nat, i: nat, j: nat)
    requires IsP256(c) && Order(c.g, p, n) && 1 <= i < j
    requires !Divides(n, i) && !Divides(n, j) && !Divides(n, i + j) && !Divides(n, j - i)
    ensures !Eq(c.x(Mult(c.g, i, p)), c.x(Mult(c.g, j, p))) && !Eq(c.x(Mult(c.g, j, p)), c.x(Mult(c.g, i, p)))
  {
    hide Mult, IsP256, Order, Abelian, Eq;
    var a, b, d := Mult(c.g, i, p), Mult(c.g, j, p), Mult(c.g, j - i, p);
    ZeroMultiple(c.g, p, n, i);
    ZeroMultiple(c.g, p, n, j);
    ZeroMultiple(c.g, p, n, j - i);
    ZeroMultiple(c.g, p, n, i + j);
    IsGroup(c);
    MultAdd(c.g, i, j, p);
    MultAdd(c.g, j - i, i, p);
    Zero(c.g, a);
    Zero(c.g, b);
    if Eq(c.x(a), c.x(b)) {
      SameX(c, a, b);
      if a == b {
        Unique(c.g, d, c.g.zero, a);
      }
    }
    EqContra(c.x(a), c.x(b));
  }

  lemma {:induction false} IsGroup<G(!new)>(c: CurveGroup<G>)
    requires IsP256(c)
    ensures Abelian(c.g) && Prime(P256)
  {}

  /** The registers R0 = j * p and R1 = (j + 1) * p at one z. */
  ghost predicate Registers<G(!new)>(X0: array<Limb>, Y0: array<Limb>, X1: array<Limb>, Y1: array<Limb>,
                                     c: CurveGroup<G>, p: G, j: nat, z: int)
    reads X0, Y0, X1, Y1
  {
    && !Eq(z, 0)
    && At(X0, Y0, c, Mult(c.g, j, p), z) && At(X1, Y1, c, Mult(c.g, j + 1, p), z)
  }

  ghost predicate Distinct4(a: array<Limb>, b: array<Limb>, c: array<Limb>, d: array<Limb>) {
    a != b && a != c && a != d && b != c && b != d && c != d
  }

  /** Neither register of the ladder at j is the zero point. */
  ghost predicate Alive(j: nat, n: nat)
    requires n > 0
  {
    !Divides(n, j) && !Divides(n, j + 1)
  }

  lemma {:induction false} AliveNext(j: nat, n: nat)
    requires n >= 3 && n % 2 == 1 && Alive(j, n)
    ensures j >= 1 && !Divides(n, 2 * j) && !Divides(n, 2 * j + 2) && !Divides(n, 1) && !Divides(n, 2)
  {
    hide Divides;
    ZeroDivides(n);
    OddOrder(n, j);
    OddOrder(n, j + 1);
    assert 2 * (j + 1) == 2 * j + 2;
  }

  /** The registers differ, and they have one x coordinate exactly when their sum is zero. */
  lemma {:induction false} RegistersDiffer<G(!new)>(c: CurveGroup<G>, p: G, n: nat, j: nat)
    requires IsP256(c) && Order(c.g, p, n) && Alive(j, n)
    ensures var a, b := Mult(c.g, j, p), Mult(c.g, j + 1, p);
            && a != c.g.zero && b != c.g.zero && a != b
            && (Eq(c.x(a), c.x(b)) <==> Divides(n, 2 * j + 1)) && (Eq(c.x(b), c.x(a)) <==> Divides(n, 2 * j + 1))
  {
    hide Mult, Eq, IsP256, Order;
    var a, b := Mult(c.g, j, p), Mult(c.g, j + 1, p);
    OrderOdd(c.g, p, n);
    AliveNext(j, n);
    IsGroup(c);
    MultOne(c.g, p);
    MultAdd(c.g, j, 1, p);
    ZeroMultiple(c.g, p, n, 1);
    ZeroMultiple(c.g, p, n, j);
    ZeroMultiple(c.g, p, n, j + 1);
    if a == b {
      Zero(c.g, a);
      Comm(c.g, a, p);
      Zero(c.g, c.g.zero);
      Unique(c.g, p, c.g.zero, a);
    }
    if !Divides(n, 2 * j + 1) {
      DistinctX(c, p, n, j, j + 1);
    } else {
      OppositeRegisters(c, p, n, j);
    }
  }

  lemma {:induction false} OppositeRegisters<G(!new)>(c: CurveGroup<G>, p: G, n: nat, j: nat)
    requires IsP256(c) && Order(c.g, p, n) && Alive(j, n) && Divides(n, 2 * j + 1)
    ensures Eq(c.x(Mult(c.g, j, p)), c.x(Mult(c.g, j + 1, p)))
    ensures Eq(c.x(Mult(c.g, j + 1, p)), c.x(Mult(c.g, j, p)))
  {
    hide Mult, Eq, IsP256, Order;
    var a, b := Mult(c.g, j, p), Mult(c.g, j + 1, p);
    IsGroup(c);
    ZeroMultiple(c.g, p, n, 2 * j + 1);
    ZeroMultiple(c.g, p, n, j);
    MultAdd(c.g, j + 1, j, p);
    assert j + 1 + j == 2 * j + 1;
    Zero(c.g, a);
    Unique(c.g, b, c.g.neg(a), a);
    NegX(c, a);
    EqSym(c.x(b), c.x(a));
  }

  /** In a step whose registers are not opposite, the second addition meets neither zero nor equal x coordinates. */
  lemma {:induction false} SecondAddition<G(!new)>(c: CurveGroup<G>, p: G, n: nat, j: nat)
    requires IsP256(c) && Order(c.g, p, n) && Alive(j, n) && !Divides(n, 2 * j + 1)
    ensures var s := Mult(c.g, 2 * j + 1, p);
            && p != c.g.zero && c.g.neg(p) != c.g.zero && s != c.g.zero
            && !Eq(c.x(s), c.x(p)) && !Eq(c.x(s), c.x(c.g.neg(p)))
  {
    hide Mult, Eq, IsP256, Order;
    var s := Mult(c.g, 2 * j + 1, p);
    OrderOdd(c.g, p, n);
    AliveNext(j, n);
    IsGroup(c);
    MultOne(c.g, p);
    ZeroMultiple(c.g, p, n, 1);
    ZeroMultiple(c.g, p, n, 2 * j + 1);
    assert 1 + (2 * j + 1) == 2 * j + 2 && 2 * j + 1 - 1 == 2 * j;
    DistinctX(c, p, n, 1, 2 * j + 1);
    NegNonzero(c.g, p);
    NegX(c, p);
    if Eq(c.x(s), c.x(c.g.neg(p))) {
      EqTrans(c.x(s), c.x(c.g.neg(p)), c.x(p));
    }
  }

  lemma {:induction false} OrderOdd<G(!new)>(g: Group<G>, p: G, n: nat)
    requires Order(g, p, n)
    ensures n >= 3 && n % 2 == 1
  {}

  lemma {:induction false} NegX<G(!new)>(c: CurveGroup<G>, p: G)
    requires IsP256(c) && p != c.g.zero
    ensures Eq(c.x(c.g.neg(p)), c.x(p)) && Eq(c.y(c.g.neg(p)), -c.y(p))
  {
    assert PointLaw(c, p);
  }

  lemma {:induction false} EqContra(a: int, b: int)
    requires !Eq(a, b)
    ensures !Eq(b, a)
  {
    if Eq(b, a) {
      EqSym(b, a);
    }
  }

  /** The registers of a run: multiples at one z while no step was degenerate, collapsed afterwards. */
  ghost predicate RunRegisters<G(!new)>(X0: array<Limb>, Y0: array<Limb>, X1: array<Limb>, Y1: array<Limb>,
                                        c: CurveGroup<G>, p: G, j: nat, z: int, live: bool)
    reads X0, Y0, X1, Y1
  {
    if live then Registers(X0, Y0, X1, Y1, c, p, j, z) else Collapsed(X0, Y0, X1, Y1) || Collapsed(X1, Y1, X0, Y0)
  }

  /** One ladder step for bit b of the scalar: (j, j + 1) becomes (2j + b, 2j + b + 1), unless the registers are opposite. */
  method Step<G(!new)>(X0: array<Limb>, Y0: array<Limb>, X1: array<Limb>, Y1: array<Limb>, bit: bool,
                       ghost c: CurveGroup<G>, ghost p: G, ghost n: nat, ghost j: nat, ghost z: int, ghost live: bool)
    returns (ghost r: int)
    requires IsP256(c) && Order(c.g, p, n) && (live ==> Alive(j, n))
    requires Distinct4(X0, Y0, X1, Y1) && RunRegisters(X0, Y0, X1, Y1, c, p, j, z, live)
    modifies X0, Y0, X1, Y1
    ensures live && !Divides(n, 2 * j + 1) ==> Alive(2 * j + (if bit then 1 else 0), n)
    ensures RunRegisters(X0, Y0, X1, Y1, c, p, 2 * j + (if bit then 1 else 0), r, live && !Divides(n, 2 * j + 1))
  {
    hide Mult, Eq, IsP256, At, Order, Collapsed, Divides;
    ghost var a, b := Mult(c.g, j, p), Mult(c.g, j + 1, p);
    ghost var s := Mult(c.g, 2 * j + 1, p);
    OrderOdd(c.g, p, n);
    ghost var go := live && !Divides(n, 2 * j + 1);
    IsGroup(c);
    if live {
      RegistersDiffer(c, p, n, j);
      AliveNext(j, n);
    }
    if go {
      SecondAddition(c, p, n, j);
    }
    LadderStep(c.g, j, p);
    if bit {
      ConjugatePoints(X1, Y1, X0, Y0, c, b, a, z, live);
      ghost var w := NewZ(c.x(b), c.x(a), z);
      AddPoints(X0, Y0, X1, Y1, c, s, p, w, go);
      r := NewZ(c.x(s), c.x(p), w);
    } else {
      ConjugatePoints(X0, Y0, X1, Y1, c, a, b, z, live);
      ghost var w := NewZ(c.x(a), c.x(b), z);
      AddPoints(X1, Y1, X0, Y0, c, s, c.g.neg(p), w, go);
      r := NewZ(c.x(s), c.x(c.g.neg(p)), w);
    }
  }

  /** a = 1 / a in the field; zero stays zero. */
  method InvertF(a: array<Limb>, ghost d: int) returns (ghost i: int)
    requires Prime(P256) && Is(a, d)
    modifies a
    ensures Is(a, i) && (if Eq(d, 0) then Eq(i, 0) else Eq(i * d, 1))
  {
    hide Num, Gcd, Prime, Eq;
    ghost var v: nat := Val(a);
    var curveP := Load(CURVE_P);
    CurvePValue();
    assert curveP[0..4] == curveP[..];
    ZeroOrCoprime(v, d);
    Invert(a, a, curveP);
    i := Val(a);
    EqRefl(i);
    if !Eq(d, 0) {
      EqCong(i * v, 1);
      EqMul(i, i, v, d);
      EqSym(i * v, i * d);
      EqTrans(i * d, i * v, 1);
    }
  }

  lemma {:induction false} ZeroOrCoprime(v: nat, d: int)
    requires Prime(P256) && v < P256 && Eq(v, d)
    ensures Eq(d, 0) ==> v == 0
    ensures !Eq(d, 0) ==> v > 0 && Gcd(v, P256) == 1
  {
    EqZeroIs(d);
    EqCong(v, d);
    if v > 0 {
      PrimeCoprime(v, P256);
    }
  }

  /** The final 1/Z from the register that holds plus or minus p; zero if one of its factors is. */
  method FinalZ(X1: array<Limb>, X0: array<Limb>, Xb: array<Limb>, Yb: array<Limb>, px: array<Limb>, py: array<Limb>,
                ghost x1: int, ghost x0: int, ghost xb: int, ghost yb: int, ghost u: int, ghost v: int)
    returns (z: array<Limb>, ghost i: int)
    requires Prime(P256)
    requires Is(X1, x1) && Is(X0, x0) && Is(Xb, xb) && Is(Yb, yb) && Is(px, u) && Is(py, v)
    ensures fresh(z) && z.Length == 4 && Is(z, Times(Times(i, v), xb))
    ensures var d := Times(Times(x1 - x0, yb), u); if Eq(d, 0) then Eq(i, 0) else Eq(i * d, 1)
  {
    hide Num, Eq, Times, Prime;
    z := new Limb[4];
    SubF(z, X1, X0, x1, x0);
    Mul(z, z, Yb, x1 - x0, yb);
    Mul(z, z, px, Times(x1 - x0, yb), u);
    i := InvertF(z, Times(Times(x1 - x0, yb), u));
    Mul(z, z, py, i, v);
    Mul(z, z, Xb, Times(i, v), xb);
  }

  /** A zero factor makes the product, and so the final 1/Z, zero. */
  lemma {:induction false} FinalZIsZero(h: int, yb: int, u: int, i: int, v: int, xb: int)
    requires Eq(yb, 0) || Eq(u, 0)
    requires Eq(Times(Times(h, yb), u), 0) ==> Eq(i, 0)
    ensures Eq(Times(Times(i, v), xb), 0)
  {
    hide Eq;
    EqRefl(h);
    EqRefl(u);
    EqRefl(h * yb);
    if Eq(yb, 0) {
      EqMul(h, h, yb, 0);
      EqMul(h * yb, 0, u, u);
    } else {
      EqMul(h * yb, h * yb, u, 0);
    }
    EqRefl(v);
    EqRefl(xb);
    EqMul(i, 0, v, v);
    EqMul(i * v, 0, xb, xb);
  }

  /** z inverts the z coordinate of the last addition: first register minus-or-plus p at w, second s. */
  lemma {:induction false} FinalZIsInverse(i: int, u: int, v: int, xs: int, xn: int, yn: int, w: int, sign: int)
    requires sign == 1 || sign == -1
    requires Eq(xn, u) && Eq(yn, sign * v)
    requires var h := xn * (w * w) - xs * (w * w); Eq(i * Times(Times(sign * h, yn * (w * (w * w))), u), 1)
    ensures Eq(Times(Times(i, v), xn * (w * w)) * NewZ(xs, xn, w), 1)
  {
    hide Eq;
    var q, c := w * w, w * (w * w);
    var h := xn * q - xs * q;
    var d := Times(Times(sign * h, yn * c), u);
    EqRefl(c);
    EqRefl(sign * h);
    EqRefl(q);
    EqMul(yn, sign * v, c, c);
    EqMul(sign * h, sign * h, yn * c, (sign * v) * c);
    EqRefl(u);
    EqMul((sign * h) * (yn * c), (sign * h) * ((sign * v) * c), u, u);
    EqRefl(i);
    EqMul(i, i, d, ((sign * h) * ((sign * v) * c)) * u);
    SignsCancel(sign, h, v, c, u);
    EqMul(xn, u, q, q);
    EqRefl(i * v);
    EqMul(i * v, i * v, xn * q, u * q);
    EqRefl(w * h);
    EqMul((i * v) * (xn * q), (i * v) * (u * q), w * h, w * h);
    Rearrange(i, v, u, w, h);
    EqSym(i * d, i * ((h * (v * c)) * u));
    EqTrans(((i * v) * (xn * q)) * (w * h), i * ((h * (v * c)) * u), i * d);
    EqTrans(((i * v) * (xn * q)) * (w * h), i * d, 1);
  }

  lemma {:induction false} SignsCancel(sign: int, h: int, v: int, c: int, u: int)
    requires sign == 1 || sign == -1
    ensures ((sign * h) * ((sign * v) * c)) * u == (h * (v * c)) * u
  {}

  lemma {:induction false} Rearrange(i: int, v: int, u: int, w: int, h: int)
    ensures ((i * v) * (u * (w * w))) * (w * h) == i * ((h * (v * (w * (w * w)))) * u)
  {}

  lemma {:induction false} FinalZNonzero(u: int, v: int, xs: int, xn: int, yn: int, w: int, sign: int)
    requires Prime(P256) && (sign == 1 || sign == -1)
    requires !Eq(u, 0) && !Eq(yn, 0) && !Eq(xs, xn) && !Eq(w, 0)
    ensures !Eq(Times(Times(sign * (xn * (w * w) - xs * (w * w)), yn * (w * (w * w))), u), 0)
  {
    hide Eq, Prime;
    var h := xn * (w * w) - xs * (w * w);
    XGap(xs, xn);
    NonzeroProduct(w, w);
    NonzeroProduct(xn - xs, w * w);
    assert (xn - xs) * (w * w) == h;
    NonzeroNegated(h);
    NonzeroProduct(w, w * w);
    NonzeroProduct(yn, w * (w * w));
    NonzeroProduct(sign * h, yn * (w * (w * w)));
    NonzeroProduct((sign * h) * (yn * (w * (w * w))), u);
  }

  lemma {:induction false} NonzeroNegated(h: int)
    requires !Eq(h, 0)
    ensures !Eq(-1 * h, 0) && !Eq(1 * h, 0)
  {
    if Eq(-h, 0) {
      EqRefl(0);
      EqSub(0, 0, -h, 0);
    }
  }

  /** The last addition of s and m = plus or minus p at w, with the inverse of its z computed first. That inverse
      is zero for collapsed registers and for a point with x = 0. */
  method LastPair<G(!new)>(XA: array<Limb>, YA: array<Limb>, XB: array<Limb>, YB: array<Limb>, aIsOne: bool,
                           px: array<Limb>, py: array<Limb>,
                           ghost c: CurveGroup<G>, ghost p: G, ghost m: G, ghost s: G, ghost w: int, ghost live: bool)
    returns (z: array<Limb>, ghost iz: int)
    requires IsP256(c) && Distinct4(XA, YA, XB, YB) && XA.Length == YA.Length == XB.Length == YB.Length == 4
    requires Is(px, c.x(p)) && Is(py, c.y(p))
    requires px !in {XA, YA, XB, YB} && py !in {XA, YA, XB, YB}
    requires p != c.g.zero && c.g.add(p, p) != c.g.zero && m == (if aIsOne then p else c.g.neg(p))
    requires live ==>
               && At(XA, YA, c, m, w) && At(XB, YB, c, s, w)
               && m != c.g.zero && s != c.g.zero && !Eq(c.x(s), c.x(m)) && !Eq(w, 0)
    requires !live ==> Collapsed(XA, YA, XB, YB)
    modifies XA, YA, XB, YB
    ensures fresh(z) && z.Length == 4 && Is(z, iz)
    ensures live && !Eq(c.x(p), 0) ==> Eq(iz * NewZ(c.x(s), c.x(m), w), 1)
    ensures !(live && !Eq(c.x(p), 0)) ==> Eq(iz, 0)
    ensures live ==> At(XB, YB, c, s, NewZ(c.x(s), c.x(m), w)) && At(XA, YA, c, c.g.add(s, m), NewZ(c.x(s), c.x(m), w))
    ensures !live ==> Collapsed(XA, YA, XB, YB)
  {
    hide Num, Eq, Is, Val, Prime, IsP256, Times, NewZ, Holds, OnCusp;
    ghost var sign := if aIsOne then 1 else -1;
    ghost var xm, ym := HeldX(XA, c, m, w, live), HeldY(YA, c, m, w, live);
    ghost var xs := HeldX(XB, c, s, w, live);
    IsGroup(c);
    if !live {
      CollapsedParts(XA, YA, XB, YB);
    }
    ghost var i;
    if aIsOne {
      z, i := FinalZ(XA, XB, XA, YA, px, py, xm, xs, xm, ym, c.x(p), c.y(p));
    } else {
      z, i := FinalZ(XB, XA, XA, YA, px, py, xs, xm, xm, ym, c.x(p), c.y(p));
    }
    iz := Times(Times(i, c.y(p)), xm);
    if live && !Eq(c.x(p), 0) {
      LiveZ(c, p, m, s, w, i, aIsOne);
    } else {
      FinalZIsZero(if aIsOne then xm - xs else xs - xm, ym, c.x(p), i, c.y(p), xm);
    }
    AddPoints(XB, YB, XA, YA, c, s, m, w, live);
  }

  lemma {:induction false} LiveZ<G(!new)>(c: CurveGroup<G>, p: G, m: G, s: G, w: int, i: int, aIsOne: bool)
    requires IsP256(c) && p != c.g.zero && c.g.add(p, p) != c.g.zero && m == (if aIsOne then p else c.g.neg(p))
    requires m != c.g.zero && s != c.g.zero && !Eq(c.x(s), c.x(m)) && !Eq(w, 0) && !Eq(c.x(p), 0)
    requires var xm, xs := c.x(m) * (w * w), c.x(s) * (w * w);
             var d := Times(Times(if aIsOne then xm - xs else xs - xm, c.y(m) * (w * (w * w))), c.x(p));
             if Eq(d, 0) then Eq(i, 0) else Eq(i * d, 1)
    ensures Eq(Times(Times(i, c.y(p)), c.x(m) * (w * w)) * NewZ(c.x(s), c.x(m), w), 1)
  {
    hide Eq, Prime, IsP256, Times, NewZ;
    var sign := if aIsOne then 1 else -1;
    IsGroup(c);
    NegX(c, p);
    DoubleNonzero(c, p);
    YNonzero(c, p);
    EqRefl(c.x(p));
    EqRefl(c.y(p));
    FinalZNonzero(c.x(p), c.y(p), c.x(s), c.x(m), c.y(m), w, sign);
    FinalZIsInverse(i, c.x(p), c.y(p), c.x(s), c.x(m), c.y(m), w, sign);
  }

  lemma {:induction false} YNonzero<G(!new)>(c: CurveGroup<G>, p: G)
    requires IsP256(c) && p != c.g.zero && !Eq(c.y(p), 0)
    ensures !Eq(c.y(c.g.neg(p)), 0)
  {
    NegX(c, p);
    if Eq(c.y(c.g.neg(p)), 0) {
      EqSym(c.y(c.g.neg(p)), -c.y(p));
      EqTrans(-c.y(p), c.y(c.g.neg(p)), 0);
      EqRefl(0);
      EqSub(0, 0, -c.y(p), 0);
    }
  }

  /** The randomised coordinate, if one is supplied, is not zero in the field. */
  ghost predicate GoodStart(initialZ: array?<Limb>)
    reads initialZ
  {
    initialZ != null ==> initialZ.Length == 4 && !Eq(Val(initialZ), 0)
  }

  /** The registers before the loop: R0 = p and R1 = 2p at one z, or both (0, 0) for a zero coordinate. */
  method InitialDouble<G(!new)>(X1: array<Limb>, Y1: array<Limb>, X2: array<Limb>, Y2: array<Limb>,
                                initialZ: array?<Limb>, ghost c: CurveGroup<G>, ghost p: G)
    returns (ghost z: int)
    requires IsP256(c) && Is(X1, c.x(p)) && Is(Y1, c.y(p)) && X2.Length == Y2.Length == 4
    requires Distinct4(X1, Y1, X2, Y2) && p != c.g.zero && c.g.add(p, p) != c.g.zero
    requires initialZ != null ==> initialZ.Length == 4
    requires initialZ !in {X1, Y1, X2, Y2}
    modifies X1, Y1, X2, Y2
    ensures RunRegisters(X2, Y2, X1, Y1, c, p, 1, z, GoodStart(initialZ))
  {
    hide Num, Eq, Holds, Val, IsP256, Mult, GoodStart, OnCusp;
    var zz := new Limb[4];
    ghost var live := GoodStart(initialZ);
    ghost var v := StartZ(zz, initialZ);
    Copy(X2, X1, c.x(p));
    Copy(Y2, Y1, c.y(p));
    ApplyZ(X1, Y1, zz, c.x(p), c.y(p), v);
    if !live {
      ZeroScale(c.x(p), c.y(p), v);
      ZeroHeld(X1, Y1, c.x(p) * (v * v), c.y(p) * (v * (v * v)));
    }
    DoublePoint(X1, Y1, zz, c, p, v, live);
    z := if live then (c.y(p) * (v * (v * v))) * v else 0;
    ApplyZ(X2, Y2, zz, c.x(p), c.y(p), z);
    IsGroup(c);
    MultOne(c.g, p);
    MultAdd(c.g, 1, 1, p);
    if !live {
      EqRefl(0);
      ZeroScale(c.x(p), c.y(p), 0);
      ZeroHeld(X2, Y2, c.x(p) * (0 * 0), c.y(p) * (0 * (0 * 0)));
      ZeroOnCusp(X1, Y1);
    }
  }

  lemma {:induction false} ZeroOnCusp(X: array<Limb>, Y: array<Limb>)
    requires Zeroed(X, Y)
    ensures OnCusp(X, Y)
  {
    CuspZero();
    CuspHeld(X, Y, 0, 0);
  }

  /** zz = 1, or the supplied randomised coordinate. */
  method StartZ(zz: array<Limb>, initialZ: array?<Limb>) returns (ghost v: int)
    requires zz.Length == 4 && zz != initialZ
    requires initialZ != null ==> initialZ.Length == 4
    modifies zz
    ensures Holds(zz, v) && (GoodStart(initialZ) <==> !Eq(v, 0))
  {
    hide Num;
    v := 1;
    EqZeroIs(1);
    EqRefl(1);
    Clear(zz);
    zz[0] := 1;
    One(zz[0..4]);
    if initialZ != null {
      Set(zz, initialZ);
      v := Val(initialZ);
      EqRefl(v);
    }
  }

  /** No step of the ladder from bit i up finds its registers opposite. */
  ghost predicate SafeFrom(k: nat, n: nat, i: nat)
    requires n > 0
  {
    forall h: nat :: i <= h ==> StepSafe(k, n, h)
  }

  ghost predicate StepSafe(k: nat, n: nat, h: nat)
    requires n > 0
  {
    Top(k, h) >= 1 ==> !Divides(n, 2 * Top(k, h) + 1)
  }

  /** No step of the whole ladder for k finds its registers opposite. */
  ghost predicate Safe(k: nat, n: nat)
    requires n > 0
  {
    SafeFrom(LadderScalar(k), n, 1)
  }

  lemma {:induction false} SafeStep(k: nat, n: nat, i: nat)
    requires n > 0
    ensures SafeFrom(k, n, i) <==> SafeFrom(k, n, i + 1) && StepSafe(k, n, i)
  {
    if SafeFrom(k, n, i + 1) && StepSafe(k, n, i) {
      forall h: nat | i <= h ensures StepSafe(k, n, h) {
        if h > i {
          assert StepSafe(k, n, h);
        }
      }
    }
  }

  lemma {:induction false} SafeBeyond(k: nat, n: nat, i: nat)
    requires n > 0 && BitLen(k) <= i
    ensures SafeFrom(k, n, i)
  {
    forall h: nat | i <= h ensures StepSafe(k, n, h) {
      TopBeyondLength(k, h);
    }
  }

  /** Below the order only n - 1 makes a step find its registers opposite. */
  lemma {:induction false} SafeBelow(k: nat, n: nat)
    requires n >= 3 && n % 2 == 1 && LadderScalar(k) < n
    ensures Safe(k, n) <==> LadderScalar(k) != n - 1
  {
    var l := LadderScalar(k);
    if l == n - 1 {
      assert Top(l, 1) == Top(l / 2, 0) == l / 2;
      assert 2 * (l / 2) + 1 == n;
      DividesIntro(n, n, 1);
      assert !StepSafe(l, n, 1);
    } else {
      forall h: nat | 1 <= h ensures StepSafe(l, n, h) {
        TopBound(l, h);
        SmallNumber(2 * Top(l, h) + 1, n);
      }
    }
  }

  /** The loop over the bits of the scalar between the first and the last. */
  method LadderLoop<G(!new)>(X0: array<Limb>, Y0: array<Limb>, X1: array<Limb>, Y1: array<Limb>, scalar: array<Limb>,
                             ghost c: CurveGroup<G>, ghost p: G, ghost n: nat, ghost z0: int, ghost started: bool)
    returns (ghost j: nat, ghost z: int, ghost live: bool)
    requires IsP256(c) && scalar.Length == 4 && scalar !in {X0, Y0, X1, Y1} && Order(c.g, p, n)
    requires Distinct4(X0, Y0, X1, Y1) && RunRegisters(X0, Y0, X1, Y1, c, p, 1, z0, started)
    modifies X0, Y0, X1, Y1
    ensures RunRegisters(X0, Y0, X1, Y1, c, p, j, z, live) && (live ==> Alive(j, n))
    ensures LadderScalar(Val(scalar)) == 2 * j + Bit(Val(scalar), 0)
    ensures live && !Divides(n, 2 * j + 1) <==> started && Safe(Val(scalar), n)
  {
    hide Num, IsP256, Registers, Collapsed, SafeFrom, Order, Top, Divides, Mult;
    ghost var k := Val(scalar);
    j, z, live := 1, z0, started;
    OrderOdd(c.g, p, n);
    FirstAlive(n);
    var bits := NumBits(scalar);
    StartOfLadder(k, n);
    var i: int := bits as int - 2;
    while i > 0
      invariant Val(scalar) == k && i < 255
      invariant if k >= 2 then i >= 0 && j == Top(k, i + 1) && (live <==> started && SafeFrom(k, n, i + 2))
                else i < 0 && j == 1 && live == started
      invariant j >= 1 && (live ==> Alive(j, n)) && RunRegisters(X0, Y0, X1, Y1, c, p, j, z, live)
    {
      TopStep(k, i);
      SafeStep(k, n, i + 1);
      var bit := TestBit(scalar, i);
      z := Step(X0, Y0, X1, Y1, bit, c, p, n, j, z, live);
      live := live && !Divides(n, 2 * j + 1);
      j := 2 * j + if bit then 1 else 0;
      i := i - 1;
    }
    EndOfLadder(k, n);
  }

  lemma {:induction false} FirstAlive(n: nat)
    requires n >= 3
    ensures Alive(1, n)
  {}

  lemma {:induction false} StartOfLadder(k: nat, n: nat)
    requires n > 0
    ensures if k >= 2 then BitLen(k) >= 2 && Top(k, BitLen(k) - 1) == 1 && SafeFrom(k, n, BitLen(k)) else BitLen(k) < 2
  {
    BitLenSmall(k);
    if k >= 2 {
      TopOfLength(k);
      SafeBeyond(k, n, BitLen(k));
    }
  }

  lemma {:induction false} EndOfLadder(k: nat, n: nat)
    requires n > 0
    ensures k >= 2 ==> LadderScalar(k) == 2 * Top(k, 1) + Bit(k, 0) && Top(k, 1) >= 1
    ensures k < 2 ==> LadderScalar(k) == 2 + Bit(k, 0)
    ensures k >= 2 ==> (Safe(k, n) <==> SafeFrom(k, n, 2) && !Divides(n, 2 * Top(k, 1) + 1))
    ensures k < 2 ==> (Safe(k, n) <==> !Divides(n, 3))
  {
    var l := LadderScalar(k);
    TopStep(l, 0);
    SafeStep(l, n, 1);
    assert Top(l, 1) == Top(l / 2, 0) == l / 2;
    if k < 2 {
      assert BitLen(l) == 2;
      SafeBeyond(l, n, 2);
    }
  }

  lemma {:induction false} TopBound(k: nat, i: nat)
    requires i >= 1
    ensures 2 * Top(k, i) <= k
  {
    if i > 1 {
      TopBound(k / 2, i - 1);
    }
  }

  /** The step for the last bit, leaving the result in register 0 and the inverse of its z, or zero for that inverse. */
  method LastStep<G(!new)>(X0: array<Limb>, Y0: array<Limb>, X1: array<Limb>, Y1: array<Limb>, bit: bool,
                           px: array<Limb>, py: array<Limb>, ghost c: CurveGroup<G>, ghost p: G, ghost n: nat,
                           ghost j: nat, ghost z: int, ghost live: bool)
    returns (zz: array<Limb>, ghost iz: int, ghost r: int)
    requires IsP256(c) && Order(c.g, p, n) && (live ==> Alive(j, n))
    requires Distinct4(X0, Y0, X1, Y1) && RunRegisters(X0, Y0, X1, Y1, c, p, j, z, live)
    requires X0.Length == Y0.Length == X1.Length == Y1.Length == 4
    requires Is(px, c.x(p)) && Is(py, c.y(p)) && px !in {X0, Y0, X1, Y1} && py !in {X0, Y0, X1, Y1}
    modifies X0, Y0, X1, Y1
    ensures fresh(zz) && zz.Length == 4 && Is(zz, iz) && X0.Length == Y0.Length == 4
    ensures live && !Divides(n, 2 * j + 1) && !Eq(c.x(p), 0) ==>
              At(X0, Y0, c, Mult(c.g, 2 * j + (if bit then 1 else 0), p), r) && Eq(iz * r, 1)
    ensures !(live && !Divides(n, 2 * j + 1) && !Eq(c.x(p), 0)) ==> Eq(iz, 0)
  {
    hide Num, Eq, Is, IsP256, Mult, Order, NewZ, Divides, Alive;
    ghost var a, b, s := Mult(c.g, j, p), Mult(c.g, j + 1, p), Mult(c.g, 2 * j + 1, p);
    OrderOdd(c.g, p, n);
    ghost var go := live && !Divides(n, 2 * j + 1);
    IsGroup(c);
    TwicePoint(c.g, p, n);
    if live {
      RegistersDiffer(c, p, n, j);
    }
    if go {
      SecondAddition(c, p, n, j);
    }
    LadderStep(c.g, j, p);
    if bit {
      ConjugatePoints(X1, Y1, X0, Y0, c, b, a, z, live);
      ghost var w := NewZ(c.x(b), c.x(a), z);
      zz, iz := LastPair(X1, Y1, X0, Y0, true, px, py, c, p, p, s, w, go);
      r := NewZ(c.x(s), c.x(p), w);
    } else {
      ConjugatePoints(X0, Y0, X1, Y1, c, a, b, z, live);
      ghost var w := NewZ(c.x(a), c.x(b), z);
      zz, iz := LastPair(X0, Y0, X1, Y1, false, px, py, c, p, c.g.neg(p), s, w, go);
      r := NewZ(c.x(s), c.x(c.g.neg(p)), w);
    }
  }

  lemma {:induction false} TwicePoint<G(!new)>(g: Group<G>, p: G, n: nat)
    requires Abelian(g) && Order(g, p, n)
    ensures g.add(p, p) != g.zero && p != g.zero
  {
    MultOne(g, p);
    MultAdd(g, 1, 1, p);
    OddOrder(n, 1);
    ZeroMultiple(g, p, n, 2);
    ZeroMultiple(g, p, n, 1);
  }

  method StartRegisters<G(!new)>(px: array<Limb>, py: array<Limb>, initialZ: array?<Limb>,
                                 ghost c: CurveGroup<G>, ghost p: G)
    returns (X0: array<Limb>, Y0: array<Limb>, X1: array<Limb>, Y1: array<Limb>, ghost z: int)
    requires IsP256(c) && Is(px, c.x(p)) && Is(py, c.y(p)) && p != c.g.zero && c.g.add(p, p) != c.g.zero
    requires initialZ != null ==> initialZ.Length == 4
    ensures fresh(X0) && fresh(Y0) && fresh(X1) && fresh(Y1) && Distinct4(X0, Y0, X1, Y1)
    ensures X0.Length == Y0.Length == X1.Length == Y1.Length == 4
    ensures RunRegisters(X0, Y0, X1, Y1, c, p, 1, z, GoodStart(initialZ))
  {
    hide Num, Eq, Val, Holds, IsP256, Mult, RunRegisters, GoodStart;
    X0 := new Limb[4];
    Y0 := new Limb[4];
    X1 := new Limb[4];
    Y1 := new Limb[4];
    Copy(X1, px, c.x(p));
    Copy(Y1, py, c.y(p));
    z := InitialDouble(X1, Y1, X0, Y0, initialZ, c, p);
  }

  /** What the ladder leaves for the scalar k: the coordinates of LadderScalar(k) * p, or (0, 0) if a step finds
      its registers opposite or the point has x = 0. */
  ghost function Outcome<G(!new)>(c: CurveGroup<G>, p: G, n: nat, k: nat): (int, int)
    requires n > 0
  {
    var r := Mult(c.g, LadderScalar(k), p);
    if Safe(k, n) && c.x(p) != 0 then (c.x(r), c.y(r)) else (0, 0)
  }

  /** The ladder on a point of odd order n, for every scalar and every initial coordinate. */
  method Multiply<G(!new)>(rx: array<Limb>, ry: array<Limb>, px: array<Limb>, py: array<Limb>, scalar: array<Limb>,
                           initialZ: array?<Limb>, ghost c: CurveGroup<G>, ghost p: G, ghost n: nat)
    requires rx.Length == ry.Length == px.Length == py.Length == scalar.Length == 4 && rx != ry
    requires IsP256(c) && Val(px) == c.x(p) && Val(py) == c.y(p) && Order(c.g, p, n)
    requires initialZ != null ==> initialZ.Length == 4
    modifies rx, ry
    ensures (Val(rx), Val(ry)) == if old(GoodStart(initialZ)) then Outcome(c, p, n, old(Val(scalar))) else (0, 0)
  {
    hide Num, Eq, IsP256, Mult, Order, RunRegisters, Registers, At, Abelian, Holds, Prime, Collapsed, Safe, Divides, Alive, GoodStart;
    ghost var k := Val(scalar);
    IsGroup(c);
    OrderOdd(c.g, p, n);
    TwicePoint(c.g, p, n);
    Affine(c, p, px, py);
    ghost var started := GoodStart(initialZ);
    var X0, Y0, X1, Y1, z := StartRegisters(px, py, initialZ, c, p);
    ghost var j, live;
    j, z, live := LadderLoop(X0, Y0, X1, Y1, scalar, c, p, n, z, started);
    var bit := TestBit(scalar, 0);
    ghost var go := live && !Divides(n, 2 * j + 1) && !Eq(c.x(p), 0);
    if go {
      LadderNonzero(c.g, p, n, j, LadderScalar(k), bit);
    }
    var zz, iz, r := LastStep(X0, Y0, X1, Y1, bit, px, py, c, p, n, j, z, live);
    Normalise(X0, Y0, zz, c, Mult(c.g, LadderScalar(k), p), r, iz, go);
    Set(rx, X0);
    Set(ry, Y0);
  }

  lemma {:induction false} LadderNonzero<G(!new)>(g: Group<G>, p: G, n: nat, j: nat, l: nat, bit: bool)
    requires Order(g, p, n) && Alive(j, n) && !Divides(n, 2 * j + 1) && l == 2 * j + (if bit then 1 else 0)
    ensures Mult(g, l, p) != g.zero
  {
    AliveNext(j, n);
    ZeroMultiple(g, p, n, l);
  }

  lemma {:induction false} Affine<G(!new)>(c: CurveGroup<G>, p: G, px: array<Limb>, py: array<Limb>)
    requires IsP256(c) && p != c.g.zero && px.Length == py.Length == 4
    requires Val(px) == c.x(p) && Val(py) == c.y(p)
    ensures Is(px, c.x(p)) && Is(py, c.y(p)) && (Eq(c.x(p), 0) <==> c.x(p) == 0)
  {
    assert PointLaw(c, p);
    EqRefl(c.x(p));
    EqRefl(c.y(p));
    EqZeroIs(c.x(p));
  }

  /** Multiplying by the inverse of z leaves the coordinates of the point; a zero in its place leaves (0, 0). */
  method Normalise<G(!new)>(X: array<Limb>, Y: array<Limb>, Z: array<Limb>,
                            ghost c: CurveGroup<G>, ghost p: G, ghost z: int, ghost iz: int, ghost good: bool)
    requires IsP256(c) && X.Length == Y.Length == Z.Length == 4 && Holds(Z, iz) && X != Y && X != Z && Y != Z
    requires good ==> p != c.g.zero && At(X, Y, c, p, z) && Eq(iz * z, 1)
    requires !good ==> Eq(iz, 0)
    modifies X, Y
    ensures good ==> Val(X) == c.x(p) && Val(Y) == c.y(p)
    ensures !good ==> Val(X) == 0 && Val(Y) == 0
  {
    hide Num, Eq, Val;
    ghost var x, y := HeldX(X, c, p, z, good), HeldY(Y, c, p, z, good);
    EqRefl(x);
    EqRefl(y);
    ApplyZ(X, Y, Z, x, y, iz);
    if good {
      RepNormalise(x, y, z, iz, c.x(p), c.y(p));
      IsTransfer(X, x * (iz * iz), c.x(p));
      IsTransfer(Y, y * (iz * (iz * iz)), c.y(p));
      assert PointLaw(c, p);
      Canonical(X, c.x(p));
      Canonical(Y, c.y(p));
    } else {
      ZeroScale(x, y, iz);
      IsTransfer(X, x * (iz * iz), 0);
      IsTransfer(Y, y * (iz * (iz * iz)), 0);
      Canonical(X, 0);
      Canonical(Y, 0);
    }
  }

  lemma {:induction false} ZeroScale(x: int, y: int, i: int)
    requires Eq(i, 0)
    ensures Eq(x * (i * i), 0) && Eq(y * (i * (i * i)), 0)
  {
    hide Eq;
    EqRefl(x);
    EqRefl(y);
    EqMul(i, 0, i, 0);
    EqMul(i, 0, i * i, 0);
    EqMul(x, x, i * i, 0);
    EqMul(y, y, i * (i * i), 0);
  }

  lemma {:induction false} Canonical(a: array<Limb>, v: int)
    requires Is(a, v) && 0 <= v < P256
    ensures Val(a) == v
  {
    hide Num;
    EqReduced(Val(a), v);
  }

  /** (0, 0) is not on the curve. */
  lemma {:induction false} OriginOffCurve<G(!new)>(c: CurveGroup<G>, p: G)
    requires IsP256(c) && p != c.g.zero
    ensures c.x(p) != 0 || c.y(p) != 0
  {
    assert PointLaw(c, p);
    if c.x(p) == 0 && c.y(p) == 0 {
      assert Rhs(0, -3, B256) == B256;
      EqReduced(0, B256);
    }
  }

  /** For a scalar between 1 and n - 1 the ladder computes k * p exactly when 2 <= k <= n - 2 and x(p) is not zero. */
  lemma {:induction false} OutcomeExact<G(!new)>(c: CurveGroup<G>, p: G, n: nat, k: nat)
    requires IsP256(c) && Order(c.g, p, n) && 1 <= k < n
    ensures Outcome(c, p, n, k) == (c.x(Mult(c.g, k, p)), c.y(Mult(c.g, k, p))) <==> 2 <= k <= n - 2 && c.x(p) != 0
    ensures k == n - 1 || c.x(p) == 0 ==> Outcome(c, p, n, k) == (0, 0)
  {
    hide Mult, IsP256, Order, Safe;
    OrderOdd(c.g, p, n);
    SmallNumber(k, n);
    ZeroMultiple(c.g, p, n, k);
    OriginOffCurve(c, Mult(c.g, k, p));
    if k >= 2 {
      SafeBelow(k, n);
    } else if Safe(1, n) {
      ThreeNotOne(c, p, n);
    }
  }

  /** For the scalar 1 the ladder computes 3 * p, which has other coordinates. */
  lemma {:induction false} ThreeNotOne<G(!new)>(c: CurveGroup<G>, p: G, n: nat)
    requires IsP256(c) && Order(c.g, p, n) && Safe(1, n)
    ensures (c.x(Mult(c.g, 3, p)), c.y(Mult(c.g, 3, p))) != (c.x(Mult(c.g, 1, p)), c.y(Mult(c.g, 1, p)))
  {
    hide Mult, IsP256, Order;
    OrderOdd(c.g, p, n);
    EndOfLadder(1, n);
    OddOrder(n, 2);
    assert 4 == 2 * 2;
    SmallNumber(1, n);
    DistinctX(c, p, n, 1, 3);
    EqRefl(c.x(Mult(c.g, 1, p)));
  }
}
