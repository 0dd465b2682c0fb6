/** The point formulas of ecc.c as polynomials modulo the curve prime: they stay on the curve
    and they compute the chord and tangent law. */
module Curve {
  import opened ModInv
  import opened Reduce
  import opened Field

  const B256 := 0x5AC635D8AA3A93E7B3EBBD55769886BC651D06B0CC53B0F63BCE3C3E27D2604B

  /** x^3 + alpha * x + beta. */
  function Rhs(x: int, alpha: int, beta: int): int {
    x * x * x + alpha * x + beta
  }

  function Alpha(z: int): int { -3 * ((z * z) * (z * z)) }

  function Beta(z: int): int { B256 * ((z * z) * (z * z) * (z * z)) }

  /** (x : y : z) satisfies Y^2 = X^3 - 3 X Z^4 + b Z^6. */
  ghost predicate OnCurve(x: int, y: int, z: int) {
    Eq(y * y, Rhs(x, Alpha(z), Beta(z)))
  }

  // ----- Addition with a common z coordinate -----

  function Gap(x1: int, x2: int): int { (x2 - x1) * (x2 - x1) }

  /** The x coordinate of the sum, at z3 = z * (x2 - x1). */
  function AddX(x1: int, y1: int, x2: int, y2: int): int {
    (y2 - y1) * (y2 - y1) - x1 * Gap(x1, x2) - x2 * Gap(x1, x2)
  }

  function AddY(x1: int, y1: int, x2: int, y2: int): int {
    (y2 - y1) * (x1 * Gap(x1, x2) - AddX(x1, y1, x2, y2)) - MoveY(x1, y1, x2)
  }

  /** The first point rescaled to z3. */
  function MoveX(x1: int, x2: int): int { x1 * Gap(x1, x2) }

  function MoveY(x1: int, y1: int, x2: int): int { y1 * (x2 * Gap(x1, x2) - x1 * Gap(x1, x2)) }

  lemma {:induction false} ShiftedCubic(x: int, d: int, al: int, be: int)
    ensures Rhs(x + d, al, be) == Rhs(x, al, be) + d * (3 * x * x + al) + 3 * x * (d * d) + d * d * d
  {}

  lemma {:induction false} ShiftedRoots(x: int, d: int, g: int, n: int)
    ensures d * (d - g) * (d + 3 * x + g - n)
         == d * d * d + 3 * x * (d * d) - n * (d * d) - d * (3 * x * g + g * g - n * g)
  {}

  lemma {:induction false} ShiftedLine(m: int, d: int, y: int)
    ensures (m * d + y) * (m * d + y) == (m * m) * (d * d) + d * (2 * m * y) + y * y
  {}

  lemma {:induction false} CommonFactor(d: int, a: int, b: int, c: int)
    ensures d * a - d * b + d * c == d * (a - b + c)
  {}

  /** The cubic less the square of the line of slope m through (x1, y1), factored by the third root. */
  lemma {:induction false} ChordIdentity(x1: int, y1: int, x2: int, m: int, t: int, al: int, be: int)
    ensures Rhs(t, al, be) - (m * (t - x1) + y1) * (m * (t - x1) + y1)
         == (t - x1) * (t - x2) * (t - (m * m - x1 - x2)) + (Rhs(x1, al, be) - y1 * y1)
            + (t - x1) * (x1 * x1 + x1 * x2 + x2 * x2 + al - (m * m * (x2 - x1) + 2 * m * y1))
  {
    hide Rhs;
    var d, g, n := t - x1, x2 - x1, m * m;
    ShiftedCubic(x1, d, al, be);
    ShiftedLine(m, d, y1);
    ShiftedRoots(x1, d, g, n);
    CommonFactor(d, 3 * x1 * x1 + al, 2 * m * y1, 3 * x1 * g + g * g - n * g);
    assert 3 * x1 * x1 + 3 * x1 * g + g * g == x1 * x1 + x1 * x2 + x2 * x2;
  }

  lemma {:induction false} ChordFactors(x1: int, y1: int, x2: int, m: int, t: int, s: int, al: int, be: int)
    requires t == m * m - x1 - x2 && s == m * (x1 - t) - y1
    ensures Rhs(t, al, be) - s * s
         == (t - x1) * (x1 * x1 + x1 * x2 + x2 * x2 + al - (m * m * (x2 - x1) + 2 * m * y1))
            + (Rhs(x1, al, be) - y1 * y1)
  {
    ChordIdentity(x1, y1, x2, m, t, al, be);
    NegatedSquare(m, t - x1, y1);
    ZeroFactor((t - x1) * (t - x2), t - (m * m - x1 - x2));
  }

  /** The third point of the chord, reflected, is on the cubic. */
  lemma {:induction false} ChordLaw(x1: int, y1: int, x2: int, m: int, al: int, be: int)
    requires Eq(y1 * y1, Rhs(x1, al, be))
    requires Eq(x1 * x1 + x1 * x2 + x2 * x2 + al, m * m * (x2 - x1) + 2 * m * y1)
    ensures var t := m * m - x1 - x2; var s := m * (x1 - t) - y1;
            Eq(s * s, Rhs(t, al, be))
  {
    hide Eq, Rhs;
    var t := m * m - x1 - x2;
    var s := m * (x1 - t) - y1;
    var e, f := x1 * x1 + x1 * x2 + x2 * x2 + al, m * m * (x2 - x1) + 2 * m * y1;
    ChordFactors(x1, y1, x2, m, t, s, al, be);
    EqZero(y1 * y1, Rhs(x1, al, be));
    EqSym(e, f);
    EqZero(f, e);
    VanishingTerms(Rhs(t, al, be), s * s, t - x1, e - f, Rhs(x1, al, be) - y1 * y1);
  }

  lemma {:induction false} NegatedSquare(m: int, d: int, y: int)
    ensures (m * -d - y) * (m * -d - y) == (m * d + y) * (m * d + y)
  {}

  /** Two points of the cubic y^2 = x^3 + al x + be: the difference of the squares, factored. */
  lemma {:induction false} DifferenceOfSquares(x1: int, y1: int, x2: int, y2: int, al: int, be: int)
    requires Eq(y1 * y1, Rhs(x1, al, be)) && Eq(y2 * y2, Rhs(x2, al, be))
    ensures Eq((y2 - y1) * (y2 + y1), (x2 - x1) * (x1 * x1 + x1 * x2 + x2 * x2 + al))
  {
    hide Eq;
    EqSub(y2 * y2, Rhs(x2, al, be), y1 * y1, Rhs(x1, al, be));
    assert (y2 - y1) * (y2 + y1) == y2 * y2 - y1 * y1;
    assert (x2 - x1) * (x1 * x1 + x1 * x2 + x2 * x2 + al) == Rhs(x2, al, be) - Rhs(x1, al, be);
  }

  lemma {:induction false} ScaledRhs(x: int, al: int, be: int, h: int)
    ensures Rhs(x * (h * h), al * ((h * h) * (h * h)), be * ((h * h) * (h * h) * (h * h)))
         == Rhs(x, al, be) * ((h * h) * (h * h) * (h * h))
  {}

  /** Rescaling a point by h keeps it on the curve at z * h. */
  lemma {:induction false} RescaleOnCurve(x: int, y: int, z: int, h: int)
    requires OnCurve(x, y, z)
    ensures OnCurve(x * (h * h), y * (h * (h * h)), z * h)
  {
    hide Eq;
    var e := (h * h) * (h * h) * (h * h);
    EqRefl(e);
    EqMul(y * y, Rhs(x, Alpha(z), Beta(z)), e, e);
    ScaledRhs(x, Alpha(z), Beta(z), h);
    ScaleAlphaBeta(z, h);
    SquareOfCube(y, h);
  }

  lemma {:induction false} SquareOfCube(y: int, h: int)
    ensures (y * (h * (h * h))) * (y * (h * (h * h))) == (y * y) * ((h * h) * (h * h) * (h * h))
  {}

  lemma {:induction false} ScaleAlphaBeta(z: int, h: int)
    ensures Alpha(z * h) == Alpha(z) * ((h * h) * (h * h))
    ensures Beta(z * h) == Beta(z) * ((h * h) * (h * h) * (h * h))
  {
    assert (z * h) * (z * h) == (z * z) * (h * h);
    Square2(z * z, h * h);
    Cube2(z * z, h * h);
  }

  lemma {:induction false} Square2(a: int, b: int)
    ensures (a * b) * (a * b) == (a * a) * (b * b)
  {}

  lemma {:induction false} Cube2(a: int, b: int)
    ensures (a * b) * (a * b) * (a * b) == (a * a * a) * (b * b * b)
  {}

  lemma {:induction false} GapTerms(x1: int, y1: int, x2: int, h: int)
    requires h == x2 - x1
    ensures MoveX(x1, x2) == x1 * (h * h)
    ensures MoveY(x1, y1, x2) == y1 * (h * (h * h))
  {
    assert x2 * (h * h) - x1 * (h * h) == h * (h * h);
  }

  lemma {:induction false} ScaledSlope(x1: int, y1: int, x2: int, y2: int, al: int, h: int)
    requires h == x2 - x1
    requires Eq((y2 - y1) * (y2 + y1), h * (x1 * x1 + x1 * x2 + x2 * x2 + al))
    ensures var u1 := x1 * (h * h); var u2 := x2 * (h * h); var m := y2 - y1;
            Eq(u1 * u1 + u1 * u2 + u2 * u2 + al * ((h * h) * (h * h)),
               m * m * (u2 - u1) + 2 * m * (y1 * (h * (h * h))))
  {
    hide Eq;
    var m, c := y2 - y1, h * (h * h);
    var e := x1 * x1 + x1 * x2 + x2 * x2 + al;
    EqRefl(c);
    EqMul(m * (y2 + y1), h * e, c, c);
    SlopeLeft(x1, x2, al, h * h);
    Regroup4(h, e);
    SlopeRight(m, y1, c);
    GapTerms(x1, 1, x2, h);
    EqSym((m * (y2 + y1)) * c, (h * e) * c);
  }

  lemma {:induction false} Regroup4(h: int, e: int)
    ensures (h * e) * (h * (h * h)) == ((h * h) * (h * h)) * e
  {}

  lemma {:induction false} SlopeLeft(x1: int, x2: int, al: int, d: int)
    ensures (x1 * d) * (x1 * d) + (x1 * d) * (x2 * d) + (x2 * d) * (x2 * d) + al * (d * d)
         == (d * d) * (x1 * x1 + x1 * x2 + x2 * x2 + al)
  {}

  lemma {:induction false} SlopeRight(m: int, y1: int, c: int)
    ensures m * m * c + 2 * m * (y1 * c) == (m * (m + 2 * y1)) * c
  {}

  /** Addition with a common z stays on the curve, and moves the first point without changing it. */
  lemma {:induction false} AddOnCurve(x1: int, y1: int, x2: int, y2: int, z: int)
    requires OnCurve(x1, y1, z) && OnCurve(x2, y2, z)
    ensures OnCurve(MoveX(x1, x2), MoveY(x1, y1, x2), z * (x2 - x1))
    ensures OnCurve(AddX(x1, y1, x2, y2), AddY(x1, y1, x2, y2), z * (x2 - x1))
  {
    hide Eq, Rhs, Alpha, Beta;
    var h, m, al, be := x2 - x1, y2 - y1, Alpha(z), Beta(z);
    var u1, u2, v := x1 * (h * h), x2 * (h * h), y1 * (h * (h * h));
    GapTerms(x1, y1, x2, h);
    RescaleOnCurve(x1, y1, z, h);
    DifferenceOfSquares(x1, y1, x2, y2, al, be);
    ScaledSlope(x1, y1, x2, y2, al, h);
    ScaleAlphaBeta(z, h);
    ChordLaw(u1, v, u2, m, Alpha(z * h), Beta(z * h));
  }

  // ----- Jacobian coordinates and the affine chord and tangent law -----

  /** (x : y : z) stands for the affine point (u, v). */
  ghost predicate Rep(x: int, y: int, z: int, u: int, v: int) {
    Eq(x, u * (z * z)) && Eq(y, v * (z * (z * z)))
  }

  /** (u3, v3) is the sum of (u1, v1) and (u2, v2) by the chord of slope l. */
  ghost predicate Chord(u1: int, v1: int, u2: int, v2: int, l: int, u3: int, v3: int) {
    && Eq(l * (u2 - u1), v2 - v1)
    && Eq(u3, l * l - u1 - u2)
    && Eq(v3, l * (u1 - u3) - v1)
  }

  /** (u3, v3) is the double of (u1, v1) by the tangent of slope l. */
  ghost predicate Tangent(u1: int, v1: int, l: int, u3: int, v3: int) {
    && Eq(2 * v1 * l, 3 * (u1 * u1 - 1))
    && Eq(u3, l * l - 2 * u1)
    && Eq(v3, l * (u1 - u3) - v1)
  }

  lemma {:induction false} AddRespectsEq(x1: int, y1: int, x2: int, y2: int, a1: int, b1: int, a2: int, b2: int)
    requires Eq(x1, a1) && Eq(y1, b1) && Eq(x2, a2) && Eq(y2, b2)
    ensures Eq(x2 - x1, a2 - a1)
    ensures Eq(MoveX(x1, x2), MoveX(a1, a2)) && Eq(MoveY(x1, y1, x2), MoveY(a1, b1, a2))
    ensures Eq(AddX(x1, y1, x2, y2), AddX(a1, b1, a2, b2)) && Eq(AddY(x1, y1, x2, y2), AddY(a1, b1, a2, b2))
  {
    hide Eq;
    EqSub(x2, a2, x1, a1);
    EqSub(y2, b2, y1, b1);
    var g, e := Gap(x1, x2), Gap(a1, a2);
    EqMul(x2 - x1, a2 - a1, x2 - x1, a2 - a1);
    EqMul(x1, a1, g, e);
    EqMul(x2, a2, g, e);
    EqSub(x2 * g, a2 * e, x1 * g, a1 * e);
    EqMul(y1, b1, x2 * g - x1 * g, a2 * e - a1 * e);
    EqMul(y2 - y1, b2 - b1, y2 - y1, b2 - b1);
    EqSub((y2 - y1) * (y2 - y1), (b2 - b1) * (b2 - b1), x1 * g, a1 * e);
    EqSub((y2 - y1) * (y2 - y1) - x1 * g, (b2 - b1) * (b2 - b1) - a1 * e, x2 * g, a2 * e);
    var t, w := AddX(x1, y1, x2, y2), AddX(a1, b1, a2, b2);
    EqSub(x1 * g, a1 * e, t, w);
    EqMul(y2 - y1, b2 - b1, x1 * g - t, a1 * e - w);
    EqSub((y2 - y1) * (x1 * g - t), (b2 - b1) * (a1 * e - w), MoveY(x1, y1, x2), MoveY(a1, b1, a2));
  }

  lemma {:induction false} PowersOfProduct(u: int, z: int, h: int)
    ensures (u * (z * z)) * (h * h) == u * ((z * h) * (z * h))
    ensures (u * (z * (z * z))) * (h * (h * h)) == u * ((z * h) * ((z * h) * (z * h)))
  {}

  lemma {:induction false} SlopeExact(u1: int, v1: int, u2: int, l: int, z: int)
    ensures (v1 + l * (u2 - u1)) * (z * (z * z)) - v1 * (z * (z * z)) == l * (z * (u2 * (z * z) - u1 * (z * z)))
  {}

  lemma {:induction false} LineExact(u1: int, v1: int, u2: int, u3: int, l: int, r: int)
    ensures (l * r) * (l * r) - u1 * (r * r) - u2 * (r * r) == (l * l - u1 - u2) * (r * r)
    ensures (l * r) * (u1 * (r * r) - u3 * (r * r)) - v1 * (r * (r * r)) == (l * (u1 - u3) - v1) * (r * (r * r))
  {}

  /** On exact multiples of powers of z the addition formulas are the chord law, term by term. */
  lemma {:induction false} AddExact(u1: int, v1: int, u2: int, l: int, z: int, q: int, c: int, r: int)
    requires q == z * z && c == z * (z * z) && r == z * (u2 * q - u1 * q)
    ensures MoveX(u1 * q, u2 * q) == u1 * (r * r)
    ensures MoveY(u1 * q, v1 * c, u2 * q) == v1 * (r * (r * r))
    ensures AddX(u1 * q, v1 * c, u2 * q, (v1 + l * (u2 - u1)) * c) == (l * l - u1 - u2) * (r * r)
    ensures AddY(u1 * q, v1 * c, u2 * q, (v1 + l * (u2 - u1)) * c)
         == (l * (u1 - (l * l - u1 - u2)) - v1) * (r * (r * r))
  {
    var h, u3 := u2 * q - u1 * q, l * l - u1 - u2;
    GapTerms(u1 * q, v1 * c, u2 * q, h);
    PowersOfProduct(u1, z, h);
    PowersOfProduct(u2, z, h);
    PowersOfProduct(v1, z, h);
    SlopeExact(u1, v1, u2, l, z);
    LineExact(u1, v1, u2, u3, l, r);
  }

  lemma {:induction false} EqPower(a: int, b: int, u: int, v: int)
    requires Eq(a, b) && Eq(u, v)
    ensures Eq(u * (a * a), v * (b * b)) && Eq(u * (a * (a * a)), v * (b * (b * b)))
  {
    hide Eq;
    EqMul(a, b, a, b);
    EqMul(a, b, a * a, b * b);
    EqMul(u, v, a * a, b * b);
    EqMul(u, v, a * (a * a), b * (b * b));
  }

  /** Addition with a common z computes the chord law on the affine points. */
  lemma {:induction false} AddRep(x1: int, y1: int, x2: int, y2: int, z: int,
               u1: int, v1: int, u2: int, v2: int, l: int, u3: int, v3: int)
    requires Rep(x1, y1, z, u1, v1) && Rep(x2, y2, z, u2, v2) && Chord(u1, v1, u2, v2, l, u3, v3)
    ensures Rep(MoveX(x1, x2), MoveY(x1, y1, x2), z * (x2 - x1), u1, v1)
    ensures Rep(AddX(x1, y1, x2, y2), AddY(x1, y1, x2, y2), z * (x2 - x1), u3, v3)
  {
    hide Eq, MoveX, MoveY, AddX, AddY;
    var q, c := z * z, z * (z * z);
    var w2, t3 := v1 + l * (u2 - u1), l * l - u1 - u2;
    var h, r, r' := u2 * q - u1 * q, z * (u2 * q - u1 * q), z * (x2 - x1);
    // v2 and v3 may be replaced by the values the slope determines
    SlopeDetermines(u1, v1, u2, v2, l, u3, v3);
    EqRefl(c);
    EqMul(v2, w2, c, c);
    EqTrans(y2, v2 * c, w2 * c);
    AddRespectsEq(x1, y1, x2, y2, u1 * q, v1 * c, u2 * q, w2 * c);
    AddExact(u1, v1, u2, l, z, q, c, r);
    EqRefl(z);
    EqMul(z, z, x2 - x1, h);
    EqSym(r', r);
    EqRefl(u1);
    EqRefl(v1);
    EqPower(r, r', u1, u1);
    EqPower(r, r', v1, v1);
    EqPower(r, r', t3, u3);
    EqPower(r, r', l * (u1 - t3) - v1, v3);
    EqTrans(MoveX(x1, x2), u1 * (r * r), u1 * (r' * r'));
    EqTrans(MoveY(x1, y1, x2), v1 * (r * (r * r)), v1 * (r' * (r' * r')));
    EqTrans(AddX(x1, y1, x2, y2), t3 * (r * r), u3 * (r' * r'));
    EqTrans(AddY(x1, y1, x2, y2), (l * (u1 - t3) - v1) * (r * (r * r)), v3 * (r' * (r' * r')));
  }

  lemma {:induction false} SlopeDetermines(u1: int, v1: int, u2: int, v2: int, l: int, u3: int, v3: int)
    requires Chord(u1, v1, u2, v2, l, u3, v3)
    ensures var t3 := l * l - u1 - u2;
            Eq(v2, v1 + l * (u2 - u1)) && Eq(t3, u3) && Eq(l * (u1 - t3) - v1, v3)
  {
    hide Eq;
    var t3 := l * l - u1 - u2;
    EqRefl(v1);
    EqAdd(l * (u2 - u1), v2 - v1, v1, v1);
    EqSym(l * (u2 - u1) + v1, v2);
    EqSym(u3, t3);
    EqRefl(u1);
    EqRefl(l);
    EqSub(u1, u1, t3, u3);
    EqMul(l, l, u1 - t3, u1 - u3);
    EqSub(l * (u1 - t3), l * (u1 - u3), v1, v1);
    EqSym(v3, l * (u1 - u3) - v1);
    EqTrans(l * (u1 - t3) - v1, l * (u1 - u3) - v1, v3);
  }

  // ----- Doubling -----

  /** The x coordinate of the double at z3 = y * z, where 2 * b = 3 * (x^2 - z^4). */
  function DoubleX(x: int, y: int, b: int): int {
    b * b - x * (y * y) - x * (y * y)
  }

  function DoubleY(x: int, y: int, b: int): int {
    b * (x * (y * y) - DoubleX(x, y, b)) - (y * y) * (y * y)
  }

  /** Twice the slope of the doubling formulas. */
  function Slope(x: int, z: int): int {
    3 * (x * x - (z * z) * (z * z))
  }

  lemma {:induction false} TangentIdentity(x: int, y: int, m: int, t: int, al: int, be: int)
    ensures t * t * t + al * t + be - (m * (t - x) + y) * (m * (t - x) + y)
         == (t - x) * (t - x) * (t - (m * m - 2 * x)) + (t - x) * (3 * x * x + al - 2 * m * y)
            + (x * x * x + al * x + be - y * y)
  {}

  lemma {:induction false} TangentFactors(x: int, y: int, m: int, t: int, s: int, al: int, be: int)
    requires t == m * m - x - x && s == m * (x - t) - y
    ensures Rhs(t, al, be) - s * s == (t - x) * (3 * x * x + al - 2 * m * y) + (Rhs(x, al, be) - y * y)
  {
    TangentIdentity(x, y, m, t, al, be);
    NegatedSquare(m, t - x, y);
    ZeroFactor((t - x) * (t - x), t - (m * m - 2 * x));
  }

  lemma {:induction false} ZeroFactor(a: int, b: int)
    requires b == 0
    ensures a * b == 0
  {}

  /** f - s = d * e + g, where e and g vanish modulo p. */
  lemma {:induction false} VanishingTerms(f: int, s: int, d: int, e: int, g: int)
    requires f - s == d * e + g && Eq(e, 0) && Eq(g, 0)
    ensures Eq(s, f)
  {
    hide Eq;
    EqRefl(d);
    EqRefl(f);
    EqMul(d, d, e, 0);
    EqAdd(d * e, 0, g, 0);
    EqSub(f, f, d * e + g, 0);
  }

  lemma {:induction false} EqZero(a: int, b: int)
    requires Eq(a, b)
    ensures Eq(b - a, 0)
  {
    EqRefl(b);
    EqSub(b, b, a, b);
  }

  /** The second point of the tangent, reflected, is on the cubic. */
  lemma {:induction false} TangentLaw(x: int, y: int, m: int, al: int, be: int)
    requires Eq(y * y, Rhs(x, al, be)) && Eq(2 * m * y, 3 * x * x + al)
    ensures var t := m * m - x - x; var s := m * (x - t) - y;
            Eq(s * s, Rhs(t, al, be))
  {
    hide Eq, Rhs;
    var t := m * m - x - x;
    var s := m * (x - t) - y;
    TangentFactors(x, y, m, t, s, al, be);
    EqZero(y * y, Rhs(x, al, be));
    EqZero(2 * m * y, 3 * x * x + al);
    VanishingTerms(Rhs(t, al, be), s * s, t - x, 3 * x * x + al - 2 * m * y, Rhs(x, al, be) - y * y);
  }

  lemma {:induction false} ScaledTangent(x: int, z: int, y: int, b: int)
    requires Eq(2 * b, Slope(x, z))
    ensures var u := x * (y * y);
            Eq(2 * b * (y * (y * (y * y))), 3 * u * u + Alpha(z * y))
  {
    hide Eq;
    var e := y * (y * (y * y));
    EqRefl(e);
    EqMul(2 * b, Slope(x, z), e, e);
    ScaleAlphaBeta(z, y);
    ScaledSlopeTerm(x, (z * z) * (z * z), y * y);
    assert e == (y * y) * (y * y);
  }

  lemma {:induction false} ScaledSlopeTerm(x: int, w: int, d: int)
    ensures (3 * (x * x - w)) * (d * d) == 3 * (x * d) * (x * d) + (-3 * w) * (d * d)
  {}

  /** Doubling stays on the curve at z3 = y * z. */
  lemma {:induction false} DoubleOnCurve(x: int, y: int, z: int, b: int)
    requires OnCurve(x, y, z) && Eq(2 * b, Slope(x, z))
    ensures OnCurve(DoubleX(x, y, b), DoubleY(x, y, b), y * z)
  {
    hide Eq, Rhs, Alpha, Beta;
    RescaleOnCurve(x, y, z, y);
    ScaledTangent(x, z, y, b);
    assert y * (y * (y * y)) == (y * y) * (y * y) && z * y == y * z;
    TangentLaw(x * (y * y), y * (y * (y * y)), b, Alpha(z * y), Beta(z * y));
  }

  lemma {:induction false} DoubleRespectsEq(x: int, y: int, b: int, a: int, c: int, d: int)
    requires Eq(x, a) && Eq(y, c) && Eq(b, d)
    ensures Eq(DoubleX(x, y, b), DoubleX(a, c, d)) && Eq(DoubleY(x, y, b), DoubleY(a, c, d))
  {
    hide Eq;
    EqMul(y, c, y, c);
    EqMul(y * y, c * c, y * y, c * c);
    EqMul(x, a, y * y, c * c);
    EqMul(b, d, b, d);
    var f, g := x * (y * y), a * (c * c);
    EqSub(b * b, d * d, f, g);
    EqSub(b * b - f, d * d - g, f, g);
    var t, w := DoubleX(x, y, b), DoubleX(a, c, d);
    EqSub(f, g, t, w);
    EqMul(b, d, f - t, g - w);
    EqSub(b * (f - t), d * (g - w), (y * y) * (y * y), (c * c) * (c * c));
  }

  /** On exact multiples of powers of z the doubling formulas are the tangent law. */
  lemma {:induction false} DoubleExact(u: int, v: int, l: int, z: int, q: int, c: int, r: int)
    requires q == z * z && c == z * (z * z) && r == (v * c) * z
    ensures DoubleX(u * q, v * c, l * r) == (l * l - 2 * u) * (r * r)
    ensures DoubleY(u * q, v * c, l * r) == (l * (u - (l * l - 2 * u)) - v) * (r * (r * r))
  {
    var y := v * c;
    PowersOfProduct(u, z, y);
    PowersOfProduct(v, z, y);
    assert z * y == r;
    assert (y * y) * (y * y) == y * (y * (y * y));
    LineExact(u, v, u, l * l - 2 * u, l, r);
  }

  /** The slope of the doubling formulas is the affine slope at z3. */
  lemma {:induction false} SlopeRep(x: int, y: int, z: int, b: int, u: int, v: int, l: int)
    requires Rep(x, y, z, u, v) && Eq(2 * v * l, 3 * (u * u - 1)) && Eq(2 * b, Slope(x, z))
    ensures Eq(b, l * (y * z))
  {
    hide Eq;
    var q, c := z * z, z * (z * z);
    var w := q * q;
    EqMul(x, u * q, x, u * q);
    assert (u * q) * (u * q) == (u * u) * w;
    EqRefl(w);
    EqSub(x * x, (u * u) * w, w, w);
    EqRefl(3);
    EqMul(3, 3, x * x - w, (u * u) * w - w);
    SlopeFactor(u, w);
    EqTrans(2 * b, Slope(x, z), (3 * (u * u - 1)) * w);
    EqMul(2 * v * l, 3 * (u * u - 1), w, w);
    EqSym((2 * v * l) * w, (3 * (u * u - 1)) * w);
    EqTrans(2 * b, (3 * (u * u - 1)) * w, (2 * v * l) * w);
    EqRefl(l * z);
    EqMul(y, v * c, l * z, l * z);
    SlopeRegroup(v, l, z);
    assert y * (l * z) == l * (y * z);
    EqSym(l * (y * z), (v * c) * (l * z));
    EqRefl(2);
    EqMul(2, 2, (v * c) * (l * z), l * (y * z));
    EqTrans(2 * b, 2 * ((v * c) * (l * z)), 2 * (l * (y * z)));
    EqHalve(b, l * (y * z));
  }

  lemma {:induction false} EqHalve(a: int, b: int)
    requires Eq(2 * a, 2 * b)
    ensures Eq(a, b)
  {
    EqCong(2 * a, 2 * b);
    EqCong(a, b);
    CongHalve(a, b, P256);
  }

  lemma {:induction false} SlopeFactor(u: int, w: int)
    ensures 3 * ((u * u) * w - w) == (3 * (u * u - 1)) * w
  {}

  lemma {:induction false} SlopeRegroup(v: int, l: int, z: int)
    ensures (2 * v * l) * ((z * z) * (z * z)) == 2 * ((v * (z * (z * z))) * (l * z))
  {}

  /** Doubling computes the tangent law on the affine point. */
  lemma {:induction false} DoubleRep(x: int, y: int, z: int, b: int, u: int, v: int, l: int, u3: int, v3: int)
    requires Rep(x, y, z, u, v) && Tangent(u, v, l, u3, v3) && Eq(2 * b, Slope(x, z))
    ensures Rep(DoubleX(x, y, b), DoubleY(x, y, b), y * z, u3, v3)
  {
    hide Eq, DoubleX, DoubleY, Slope;
    var q, c := z * z, z * (z * z);
    var r, r', t3 := (v * c) * z, y * z, l * l - 2 * u;
    SlopeRep(x, y, z, b, u, v, l);
    EqRefl(z);
    EqMul(y, v * c, z, z);
    EqRefl(l);
    EqMul(l, l, y * z, r);
    EqTrans(b, l * (y * z), l * r);
    DoubleRespectsEq(x, y, b, u * q, v * c, l * r);
    DoubleExact(u, v, l, z, q, c, r);
    TangentDetermines(u, v, l, u3, v3);
    EqSym(r', r);
    EqPower(r, r', t3, u3);
    EqPower(r, r', l * (u - t3) - v, v3);
    EqTrans(DoubleX(x, y, b), t3 * (r * r), u3 * (r' * r'));
    EqTrans(DoubleY(x, y, b), (l * (u - t3) - v) * (r * (r * r)), v3 * (r' * (r' * r')));
  }

  lemma {:induction false} TangentDetermines(u: int, v: int, l: int, u3: int, v3: int)
    requires Tangent(u, v, l, u3, v3)
    ensures var t3 := l * l - 2 * u; Eq(t3, u3) && Eq(l * (u - t3) - v, v3)
  {
    hide Eq;
    var t3 := l * l - 2 * u;
    EqSym(u3, t3);
    EqRefl(u);
    EqRefl(l);
    EqRefl(v);
    EqSub(u, u, t3, u3);
    EqMul(l, l, u - t3, u - u3);
    EqSub(l * (u - t3), l * (u - u3), v, v);
    EqSym(v3, l * (u - u3) - v);
    EqTrans(l * (u - t3) - v, l * (u - u3) - v, v3);
  }

  /** Multiplying by the inverse of z gives the affine coordinates. */
  lemma {:induction false} RepNormalise(x: int, y: int, z: int, w: int, u: int, v: int)
    requires Rep(x, y, z, u, v) && Eq(w * z, 1)
    ensures Eq(x * (w * w), u) && Eq(y * (w * (w * w)), v)
  {
    hide Eq;
    EqRefl(w * w);
    EqRefl(w * (w * w));
    EqRefl(u);
    EqRefl(v);
    EqMul(x, u * (z * z), w * w, w * w);
    EqMul(y, v * (z * (z * z)), w * (w * w), w * (w * w));
    PowersOfProduct(u, z, w);
    PowersOfProduct(v, z, w);
    EqPower(w * z, 1, u, u);
    EqPower(w * z, 1, v, v);
    assert z * w == w * z;
    EqTrans(x * (w * w), u * ((w * z) * (w * z)), u);
    EqTrans(y * (w * (w * w)), v * ((w * z) * ((w * z) * (w * z))), v);
  }
}
