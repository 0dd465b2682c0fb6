/** Square roots modulo the curve prime and point decompression (section 2.3.4 of SEC 1). */
module Sqrt {
  import opened Arith
  import opened Bits
  import opened Divisors
  import opened Fermat
  import opened Limbs
  import opened Vli
  import opened Reduce
  import opened Field
  import opened Curve
  import opened Group

  /** p = 3 modulo 4, so (p + 1) / 4 and (p - 1) / 2 are whole. */
  const ROOT_EXPONENT: nat := 0x3FFFFFFFC0000000400000000000000000000000400000000000000000000000
  const EULER_EXPONENT: nat := 0x7FFFFFFF800000008000000000000000000000007FFFFFFFFFFFFFFFFFFFFFFF

  /** v^((p + 1) / 4). */
  function Root(v: int): int { Pow(v, ROOT_EXPONENT) }

  /** v^((p - 1) / 2), the quadratic character of v. */
  function Euler(v: int): int { Pow(v, EULER_EXPONENT) }

  lemma {:induction false} Exponents()
    ensures 4 * ROOT_EXPONENT == P256 + 1 && 2 * EULER_EXPONENT == P256 - 1
    ensures ROOT_EXPONENT + ROOT_EXPONENT == EULER_EXPONENT + 1
  {}

  /** The square of the root is v times the character of v. */
  lemma {:induction false} RootSquared(v: int)
    ensures Root(v) * Root(v) == v * Euler(v)
  {
    hide Pow;
    Exponents();
    PowAdd(v, ROOT_EXPONENT, ROOT_EXPONENT);
    PowAdd(v, 1, EULER_EXPONENT);
    PowOne(v);
  }

  lemma {:induction false} PowOne(v: int)
    ensures Pow(v, 1) == v
  {}

  ghost predicate IsRoot(y: int, v: int) {
    Eq(y * y, v)
  }

  /** v is a square in the field. */
  ghost predicate IsSquare(v: int) {
    exists y: int :: IsRoot(y, v)
  }

  /** The character of a square is 1, unless the square is zero. */
  lemma {:induction false} EulerOfRoot(y: int, v: int)
    requires Prime(P256) && Eq(y * y, v)
    ensures Eq(v, 0) || Eq(Euler(v), 1)
  {
    hide Prime, Eq, Pow;
    var w := Pow(y, P256 - 1);
    Exponents();
    PowOfSquare(y, EULER_EXPONENT);
    EqPow(y * y, v, EULER_EXPONENT);
    assert Pow(y, P256) == y * w by {
      PowAdd(y, 1, P256 - 1);
      PowOne(y);
    }
    LittleTheorem(P256, y);
    EqCong(Pow(y, P256), y);
    EqRefl(y);
    EqSub(y * w, y, y, y);
    assert y * (w - 1) == y * w - y;
    ProductZero(y, w - 1);
    if Eq(y, 0) {
      EqMul(y, 0, y, 0);
      EqSym(y * y, v);
      EqTrans(v, y * y, 0);
    } else {
      EqRefl(1);
      EqAdd(w - 1, 0, 1, 1);
      EqSym(w, Euler(v));
      EqTrans(Euler(v), w, 1);
    }
  }

  lemma {:induction false} EqPow(a: int, b: int, e: nat)
    requires Eq(a, b)
    ensures Eq(Pow(a, e), Pow(b, e))
  {
    EqCong(a, b);
    CongPow(a, b, e, P256);
    EqCong(Pow(a, e), Pow(b, e));
  }

  /** r, the power taken of v, is a square root of v exactly when v has one. */
  lemma {:induction false} RootIsRoot(v: int, r: int)
    requires Prime(P256) && Eq(r, Root(v))
    ensures Eq(r * r, v) <==> IsSquare(v)
  {
    hide Euler, Root, Prime, Eq;
    var e := Euler(v);
    if Eq(r * r, v) {
      assert IsRoot(r, v);
    }
    if IsSquare(v) {
      var y :| IsRoot(y, v);
      EulerOfRoot(y, v);
      RootSquared(v);
      EqMul(r, Root(v), r, Root(v));
      EqRefl(v);
      EqRefl(e);
      if Eq(v, 0) {
        EqMul(v, 0, e, e);
        EqTrans(r * r, v * e, 0);
        EqSym(v, 0);
        EqTrans(r * r, 0, v);
      } else {
        EqMul(v, v, e, 1);
        EqTrans(r * r, v * e, v);
      }
    }
  }

  /** A power is zero only if its base is. */
  lemma {:induction false} ZeroPower(v: int, e: nat)
    requires Prime(P256) && e >= 1
    ensures Eq(Pow(v, e), 0) <==> Eq(v, 0)
  {
    hide Prime, Eq;
    var w := Pow(v, e - 1);
    assert Pow(v, e) == v * w;
    EqRefl(w);
    if Eq(v, 0) {
      EqMul(v, 0, w, w);
    }
    if Eq(Pow(v, e), 0) {
      ProductZero(v, w);
      if e > 1 {
        ZeroPower(v, e - 1);
      } else {
        EqZeroIs(1);
      }
    }
  }

  /** One round of square-and-multiply. */
  lemma {:induction false} PowRound(v: int, t: nat, bit: nat)
    requires bit <= 1
    ensures Pow(v, 2 * t + bit) == (if bit == 1 then Times(Times(Pow(v, t), Pow(v, t)), v) else Times(Pow(v, t), Pow(v, t)))
  {
    hide Pow;
    PowAdd(v, t, t);
    if bit == 1 {
      PowAdd(v, t + t, 1);
      PowOne(v);
    }
  }

  lemma {:induction false} RootBits(n: nat)
    requires n == P256 + 1
    ensures Top(n, 2) == ROOT_EXPONENT && BitLen(n) <= 256
    ensures BitLen(n) >= 2
  {
    Exponents();
    assert Top(n, 2) == Top(n / 2, 1) == n / 2 / 2;
    BitLenBelow256(n);
    assert BitLen(n) == 1 + BitLen(n / 2) && BitLen(n / 2) == 1 + BitLen(n / 2 / 2);
  }

  lemma {:induction false} BitLenBelow256(n: nat)
    requires n < TWO_256
    ensures BitLen(n) <= 256
  {
    hide Pow;
    PowOfPow(4);
    PowBase();
    BitLenLe(n, 256);
  }

  method SuccessorOfP() returns (p1: array<Limb>)
    ensures fresh(p1) && p1.Length == 4 && Val(p1) == P256 + 1
  {
    hide Num;
    p1 := Small(1);
    var curveP := Load(CURVE_P);
    CurvePValue();
    assert curveP[0..4] == curveP[..];
    var _ := Add(p1, curveP, p1);
    NumBound4(p1[0..4]);
  }

  /** a = a^((p + 1) / 4) in the field. */
  method ModSqrt(a: array<Limb>, ghost v: int)
    requires a.Length == 4 && Holds(a, v)
    modifies a
    ensures Is(a, Root(v))
  {
    hide Num, Eq, Pow, Times;
    var p1 := SuccessorOfP();
    var result := Small(1);
    ghost var n := Val(p1);
    RootBits(n);
    var bits := NumBits(p1);
    TopBeyondLength(n, bits);
    PowZeroIs(v);
    EqRefl(1);
    var i := bits - 1;
    while i > 1
      invariant 1 <= i < 256 && a.Length == 4 && Holds(a, v) && Val(p1) == n
      invariant Is(result, Pow(v, Top(n, i + 1)))
    {
      TopStep(n, i);
      PowRound(v, Top(n, i + 1), Bit(n, i));
      Sqr(result, result, Pow(v, Top(n, i + 1)));
      var bit := TestBit(p1, i);
      if bit {
        Mul(result, result, a, Times(Pow(v, Top(n, i + 1)), Pow(v, Top(n, i + 1))), v);
      }
      i := i - 1;
    }
    Copy(a, result, Root(v));
  }

  lemma {:induction false} PowZeroIs(v: int)
    ensures Pow(v, 0) == 1
  {}

  /** x^3 - 3 x + b in the products the routine forms. */
  function CurveRhs(x: int): int { Times(Times(x, x) - 3, x) + B256 }

  lemma {:induction false} CurveRhsIs(x: int)
    ensures CurveRhs(x) == Rhs(x, -3, B256)
  {}

  const CURVE_B: seq<Limb> :=
    [0x3BCE3C3E27D2604B, 0x651D06B0CC53B0F6, 0xB3EBBD55769886BC, 0x5AC635D8AA3A93E7]

  lemma {:induction false} CurveBValue()
    ensures Num(CURVE_B) == B256
  {
    Num4(CURVE_B);
  }

  method LoadB() returns (b: array<Limb>)
    ensures fresh(b) && Is(b, B256)
  {
    hide Num;
    b := Load(CURVE_B);
    CurveBValue();
    assert b[0..4] == b[..];
    EqRefl(B256);
  }

  /** py = x^3 - 3 x + b for the x in px, reduced or not. */
  method CurveEquation(px: array<Limb>, py: array<Limb>)
    requires px.Length == py.Length == 4 && px != py
    modifies py
    ensures Is(py, CurveRhs(Val(px)))
  {
    hide Num, Eq, Times;
    ghost var x := Val(px);
    EqRefl(x);
    var three := Small(3);
    EqRefl(3);
    var curveB := LoadB();
    Sqr(py, px, x);
    SubF(py, py, three, Times(x, x), 3);
    Mul(py, py, px, Times(x, x) - 3, x);
    AddF(py, py, curveB, Times(Times(x, x) - 3, x), B256);
  }

  /** y or p - y, whichever has the parity of the tag. */
  function WithParity(y: nat, tag: nat): int {
    if y % 2 == tag % 2 then y else P256 - y
  }

  method ChooseParity(py: array<Limb>, tag: nat)
    requires py.Length == 4 && Val(py) < P256
    modifies py
    ensures Val(py) == WithParity(old(Val(py)), tag)
  {
    hide Num, BitAnd;
    LowBit(py[0]);
    LowBit(tag);
    ParityOfLimbs(py[0..4]);
    if BitAnd(py[0], 1) != BitAnd(tag, 1) {
      var curveP := Load(CURVE_P);
      CurvePValue();
      assert curveP[0..4] == curveP[..];
      var _ := Sub(py, curveP, py);
      NumBound4(py[0..4]);
    }
  }

  lemma {:induction false} WithParityIsRoot(v: int, r: nat, tag: nat)
    requires Prime(P256) && r < P256 && Eq(r, Root(v))
    ensures var y := WithParity(r, tag);
            && 0 <= y <= P256 && y % 2 == tag % 2
            && (y == P256 <==> Eq(v, 0) && tag % 2 == 1)
            && (Eq(y * y, v) <==> IsSquare(v))
  {
    hide Pow, Prime, Eq, WithParity, IsSquare;
    var y := WithParity(r, tag);
    RootIsRoot(v, r);
    WithParityRange(r, tag);
    ZeroRoot(r, Root(v));
    ZeroPower(v, ROOT_EXPONENT);
    EqSym(y * y, r * r);
    if Eq(y * y, v) {
      EqTrans(r * r, y * y, v);
    }
    if Eq(r * r, v) {
      EqTrans(y * y, r * r, v);
    }
  }

  lemma {:induction false} ZeroRoot(r: nat, w: int)
    requires r < P256 && Eq(r, w)
    ensures r == 0 <==> Eq(w, 0)
  {
    EqSym(r, w);
    if Eq(w, 0) {
      EqTrans(r, w, 0);
      EqReduced(r, 0);
    }
  }

  lemma {:induction false} WithParityRange(r: nat, tag: nat)
    requires r < P256
    ensures var y := WithParity(r, tag);
            0 <= y <= P256 && y % 2 == tag % 2 && (y == P256 <==> r == 0 && tag % 2 == 1) && Eq(y * y, r * r)
  {
    hide Eq;
    NegatedRoot(r);
    EqRefl(r * r);
  }

  lemma {:induction false} NegatedRoot(r: int)
    ensures Eq((P256 - r) * (P256 - r), r * r)
  {
    EqIntro((P256 - r) * (P256 - r), r * r, P256 - 2 * r);
  }

  /** The y coordinate for an x and the parity bit of the tag. The parity is the requested one; y is
      reduced unless the right-hand side is zero and an odd y is requested; and the point is on the curve
      exactly when the right-hand side is a square, that is when any point has this x. */
  method DecompressY(px: array<Limb>, py: array<Limb>, tag: nat)
    requires px.Length == py.Length == 4 && px != py && Prime(P256)
    modifies py
    ensures Val(py) <= P256 && Val(py) % 2 == tag % 2
    ensures Val(py) == P256 <==> Eq(CurveRhs(Val(px)), 0) && tag % 2 == 1
    ensures Eq(Val(py) * Val(py), CurveRhs(Val(px))) <==> IsSquare(CurveRhs(Val(px)))
  {
    hide Num, Root, Prime, CurveRhs, Eq, WithParity, IsSquare;
    ghost var v := CurveRhs(Val(px));
    CurveEquation(px, py);
    ModSqrt(py, v);
    WithParityIsRoot(v, Val(py), tag);
    ChooseParity(py, tag);
  }
}
