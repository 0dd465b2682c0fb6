/** Arithmetic modulo the curve prime on four-limb arrays. */
module Field {
  import opened Arith
  import opened Divisors
  import opened Limbs
  import opened ModInv
  import opened Vli
  import opened VliMul
  import opened Reduce

  /** result = left * right mod p for any 256-bit operands. */
  method ModMultFast(result: array<Limb>, left: array<Limb>, right: array<Limb>)
    requires result.Length == left.Length == right.Length == 4
    modifies result
    ensures Val(result) == (old(Val(left)) * old(Val(right))) % P256
  {
    hide Num;
    var product := new Limb[2 * NUM_ECC_DIGITS];
    Mult(product, left, right);
    MmodFast(result, product);
  }

  /** result = left * left mod p for any 256-bit operand. */
  method ModSquareFast(result: array<Limb>, left: array<Limb>)
    requires result.Length == left.Length == 4
    modifies result
    ensures Val(result) == (old(Val(left)) * old(Val(left))) % P256
  {
    hide Num;
    var product := new Limb[2 * NUM_ECC_DIGITS];
    Square(product, left);
    MmodFast(result, product);
  }

  /** a and b are equal as elements of the field: they differ by a multiple of the modulus. The multiple is looked at
      only where EqCong is called, which keeps the nonlinear terms of the point formulas apart. */
  ghost predicate Eq(a: int, b: int) {
    forall m {:trigger FieldModulus(a, b, m)} :: FieldModulus(a, b, m) ==> exists k: int :: IsMultiple(a, b, m, k)
  }

  predicate FieldModulus(a: int, b: int, m: int) {
    m == P256
  }

  predicate IsMultiple(a: int, b: int, m: int, k: int) {
    a == b + k * m
  }

  lemma {:induction false} EqCong(a: int, b: int)
    ensures Eq(a, b) <==> Cong(a, b, P256)
  {
    if Cong(a, b, P256) {
      var k := CongElim(a, b, P256);
      assert IsMultiple(a, b, P256, k);
    }
    if Eq(a, b) {
      assert FieldModulus(a, b, P256);
      var k :| IsMultiple(a, b, P256, k);
      CongIntro(a, b, k, P256);
    }
  }

  lemma {:induction false} EqRefl(a: int)
    ensures Eq(a, a)
  {
    EqCong(a, a);
  }

  lemma {:induction false} EqSym(a: int, b: int)
    requires Eq(a, b)
    ensures Eq(b, a)
  {
    EqCong(a, b);
    EqCong(b, a);
  }

  lemma {:induction false} EqTrans(a: int, b: int, c: int)
    requires Eq(a, b) && Eq(b, c)
    ensures Eq(a, c)
  {
    EqCong(a, b);
    EqCong(b, c);
    EqCong(a, c);
  }

  lemma {:induction false} EqAdd(a: int, b: int, c: int, d: int)
    requires Eq(a, b) && Eq(c, d)
    ensures Eq(a + c, b + d)
  {
    EqCong(a, b);
    EqCong(c, d);
    CongAdd(a, b, c, d, P256);
    EqCong(a + c, b + d);
  }

  lemma {:induction false} EqSub(a: int, b: int, c: int, d: int)
    requires Eq(a, b) && Eq(c, d)
    ensures Eq(a - c, b - d)
  {
    EqCong(a, b);
    EqCong(c, d);
    CongSub(a, b, c, d, P256);
    EqCong(a - c, b - d);
  }

  lemma {:induction false} EqMul(a: int, b: int, c: int, d: int)
    requires Eq(a, b) && Eq(c, d)
    ensures Eq(a * c, b * d)
  {
    EqCong(a, b);
    EqCong(c, d);
    CongMul(a, b, c, d, P256);
    EqCong(a * c, b * d);
  }

  lemma {:induction false} EqMod(a: int)
    ensures Eq(a % P256, a)
  {
    CongMod(a, P256);
    EqCong(a % P256, a);
  }

  /** Numbers that differ by a multiple of the modulus. */
  lemma {:induction false} EqIntro(a: int, b: int, k: int)
    requires a == b + k * P256
    ensures Eq(a, b)
  {
    CongIntro(a, b, k, P256);
    EqCong(a, b);
  }

  /** Zero in the field. */
  lemma {:induction false} EqZeroIs(a: int)
    ensures Eq(a, 0) <==> a % P256 == 0
  {
    EqCong(a, 0);
  }

  /** Reduced numbers are equal in the field only if they are equal. */
  lemma {:induction false} EqReduced(a: int, b: int)
    requires 0 <= a < P256 && 0 <= b < P256 && Eq(a, b)
    ensures a == b
  {
    EqCong(a, b);
  }

  /** The field has no zero divisors. */
  lemma {:induction false} ProductZero(a: int, b: int)
    requires Prime(P256) && Eq(a * b, 0)
    ensures Eq(a, 0) || Eq(b, 0)
  {
    EqCong(a, 0);
    EqCong(b, 0);
    EqCong(a * b, 0);
    PrimeDividesProduct(P256, a, b);
  }

  function Times(a: int, b: int): int { a * b }

  /** The array holds the field element v, perhaps not reduced. */
  ghost predicate Holds(a: array<Limb>, v: int)
    reads a
  {
    a.Length == 4 && Eq(Val(a), v)
  }

  /** The array holds the reduced form of the field element v. */
  ghost predicate Is(a: array<Limb>, v: int)
    reads a
  {
    a.Length == 4 && Holds(a, v) && Val(a) < P256
  }

  /** The operands of the routines below carry the field elements a and b they stand for. */
  method Mul(result: array<Limb>, left: array<Limb>, right: array<Limb>, ghost a: int, ghost b: int)
    requires result.Length == 4 && Holds(left, a) && Holds(right, b)
    modifies result
    ensures Is(result, Times(a, b))
  {
    hide Num;
    ghost var l: int, r: int := Val(left), Val(right);
    ModMultFast(result, left, right);
    EqMul(l, a, r, b);
    EqMod(l * r);
    EqTrans(Val(result), l * r, a * b);
  }

  method Sqr(result: array<Limb>, left: array<Limb>, ghost a: int)
    requires result.Length == 4 && Holds(left, a)
    modifies result
    ensures Is(result, Times(a, a))
  {
    hide Num;
    ghost var l := Val(left);
    ModSquareFast(result, left);
    EqMul(l, a, l, a);
    EqMod(l * l);
    EqTrans(Val(result), l * l, a * a);
  }

  method AddF(result: array<Limb>, left: array<Limb>, right: array<Limb>, ghost a: int, ghost b: int)
    requires result.Length == 4 && Is(left, a) && Is(right, b)
    modifies result
    ensures Is(result, a + b)
  {
    hide Num;
    ghost var l: int, r: int := Val(left), Val(right);
    var curveP := Load(CURVE_P);
    CurvePValue();
    assert curveP[0..4] == curveP[..];
    ModAdd(result, left, right, curveP);
    EqAdd(l, a, r, b);
    EqMod(l + r);
    EqTrans(Val(result), l + r, a + b);
  }

  method SubF(result: array<Limb>, left: array<Limb>, right: array<Limb>, ghost a: int, ghost b: int)
    requires result.Length == 4 && Is(left, a) && Is(right, b)
    modifies result
    ensures Is(result, a - b)
  {
    hide Num;
    ghost var l: int, r: int := Val(left), Val(right);
    var curveP := Load(CURVE_P);
    CurvePValue();
    assert curveP[0..4] == curveP[..];
    ModSub(result, left, right, curveP);
    EqSub(l, a, r, b);
    EqMod(l - r);
    EqTrans(Val(result), l - r, a - b);
  }

  method Copy(dest: array<Limb>, src: array<Limb>, ghost a: int)
    requires dest.Length == 4 && Is(src, a)
    modifies dest
    ensures Is(dest, a)
  {
    hide Num;
    Set(dest, src);
  }

  /** a = a / 2 in the field. */
  method Halve(a: array<Limb>, ghost v: int) returns (ghost half: int)
    requires Is(a, v)
    modifies a
    ensures Eq(2 * half, v) && Is(a, half)
  {
    hide Num;
    ghost var x: int := Val(a);
    var curveP := Load(CURVE_P);
    CurvePValue();
    assert curveP[0..4] == curveP[..];
    HalveMod(a, curveP);
    half := Val(a);
    EqIntro(2 * half, x, if x % 2 == 1 then 1 else 0);
    EqTrans(2 * half, x, v);
    EqRefl(half);
  }

  /** A fresh array holding a small number. */
  method Small(n: Limb) returns (a: array<Limb>)
    ensures fresh(a) && a.Length == 4 && Val(a) == n
  {
    hide Num;
    a := new Limb[4];
    Clear(a);
    a[0] := n;
    SmallValue(a[0..4]);
  }

  lemma {:induction false} SmallValue(s: seq<Limb>)
    requires |s| == 4 && s[1] == s[2] == s[3] == 0
    ensures Num(s) == s[0]
  {
    Num4(s);
  }
}
