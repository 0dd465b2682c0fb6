/** The arithmetic modulo the group order in ECDSA signing and verification. */
module EcdsaScalars {
  import opened Arith
  import opened Bits
  import opened Divisors
  import opened Limbs
  import opened Vli
  import opened ModInv
  import MM = ModMult
  import opened Reduce

  const CURVE_N: seq<Limb> :=
    [0xF3B9CAC2FC632551, 0xBCE6FAADA7179E84, 0xFFFFFFFFFFFFFFFF, 0xFFFFFFFF00000000]
  const N256 := 0xFFFFFFFF00000000FFFFFFFFFFFFFFFFBCE6FAADA7179E84F3B9CAC2FC632551

  lemma {:induction false} CurveNValue()
    ensures Num(CURVE_N) == N256
  {
    Num4(CURVE_N);
  }

  method LoadN() returns (n: array<Limb>)
    ensures fresh(n) && n.Length == 4 && Val(n) == N256
  {
    hide Num;
    n := Load(CURVE_N);
    CurveNValue();
    assert n[0..4] == n[..];
  }

  /** result = left * right modulo the group order. */
  method MulN(result: array<Limb>, left: array<Limb>, right: array<Limb>)
    requires result.Length == left.Length == right.Length == 4
    modifies result
    ensures Val(result) == (old(Val(left)) * old(Val(right))) % N256
  {
    hide Num, BitLen;
    var n := LoadN();
    NumBound4(left[0..4]);
    NumBound4(right[0..4]);
    MM.FullLengthModulus(Val(left), Val(right), N256);
    var _ := MM.Multiply(result, left, right, n);
  }

  /** result = 1 / input modulo the group order; zero stays zero. */
  method InvertN(result: array<Limb>, input: array<Limb>)
    requires result.Length == input.Length == 4
    requires Val(input) > 0 ==> Gcd(Val(input), N256) == 1
    modifies result
    ensures old(Val(input)) > 0 ==> Cong(Val(result) * old(Val(input)), 1, N256)
    ensures old(Val(input)) == 0 ==> Val(result) == 0
    ensures Val(result) < N256
  {
    hide Num, Gcd;
    var n := LoadN();
    Invert(result, input, n);
  }

  /** s = (e + r * d) / k modulo the group order, for any 256-bit hash e; zero for k = 0. */
  method SignScalar(s: array<Limb>, r: array<Limb>, k: array<Limb>, d: array<Limb>, e: array<Limb>)
    requires s.Length == r.Length == k.Length == d.Length == e.Length == 4
    requires s != r && s != k && s != e && k != e && k != r
    requires Val(k) > 0 ==> Gcd(Val(k), N256) == 1
    modifies s, k
    ensures Val(s) < N256
    ensures old(Val(k)) > 0 ==> Cong(Val(s) * old(Val(k)), Val(e) + Val(r) * old(Val(d)), N256)
    ensures old(Val(k)) == 0 ==> Val(s) == 0
  {
    hide Num, Gcd, Cong;
    ghost var k0, e0, rd := Val(k), Val(e), Val(r) * Val(d);
    MulN(s, r, d);
    ghost var t := Val(s);
    CongMod(rd, N256);
    SumModN(s, e);
    ghost var m: int := Val(s);
    CongAddLeft(e0, t, rd, N256);
    CongTrans(m, e0 + t, e0 + rd, N256);
    InvertN(k, k);
    ghost var w := Val(k);
    MulN(s, s, k);
    CongMod(m * w, N256);
    if k0 > 0 {
      SolveForNonce(Val(s), m, w, k0, e0 + rd, N256);
    }
  }

  lemma {:induction false} CongAddLeft(a: int, b: int, c: int, m: int)
    requires m > 0 && Cong(b, c, m)
    ensures Cong(a + b, a + c, m)
  {
    CongAdd(a, a, b, c, m);
  }

  /** s = e + s modulo the group order; one subtraction is enough even for e above it. */
  method SumModN(s: array<Limb>, e: array<Limb>)
    requires s.Length == e.Length == 4 && s != e && Val(s) < N256
    modifies s
    ensures Cong(Val(s), Val(e) + old(Val(s)), N256)
  {
    hide Num, Cong;
    var n := LoadN();
    NumBound4(e[0..4]);
    ModAdd(s, e, s, n);
  }

  lemma {:induction false} SolveForNonce(s: int, m: int, w: int, k: int, target: int, n: int)
    requires n > 0 && Cong(s, m * w, n) && Cong(m, target, n) && Cong(w * k, 1, n)
    ensures Cong(s * k, target, n)
  {
    hide Cong;
    CongRefl(k, n);
    CongRefl(m, n);
    CongMul(s, m * w, k, k, n);
    CongMul(m, m, w * k, 1, n);
    assert (m * w) * k == m * (w * k);
    CongTrans(s * k, (m * w) * k, m, n);
    CongTrans(s * k, m, target, n);
  }

  lemma {:induction false} CongRefl(a: int, m: int)
    requires m > 0
    ensures Cong(a, a, m)
  {}

  /** u1 = e / s and u2 = r / s modulo the group order. */
  method VerifyScalars(u1: array<Limb>, u2: array<Limb>, r: array<Limb>, s: array<Limb>, e: array<Limb>)
    requires u1.Length == u2.Length == r.Length == s.Length == e.Length == 4
    requires u1 != u2 && u1 != r && u1 != s && u2 != s
    requires Val(s) > 0 && Gcd(Val(s), N256) == 1
    modifies u1, u2
    ensures Val(u1) < N256 && Cong(Val(u1) * Val(s), old(Val(e)), N256)
    ensures Val(u2) < N256 && Cong(Val(u2) * Val(s), old(Val(r)), N256)
  {
    hide Num, Gcd, Cong;
    ghost var e0, r0, s0 := Val(e), Val(r), Val(s);
    var z := new Limb[4];
    InvertN(z, s);
    ghost var w := Val(z);
    MulN(u1, e, z);
    CongMod(e0 * w, N256);
    CongRefl(e0, N256);
    CongRefl(r0, N256);
    SolveForNonce(Val(u1), e0, w, s0, e0, N256);
    MulN(u2, r, z);
    CongMod(r0 * w, N256);
    SolveForNonce(Val(u2), r0, w, s0, r0, N256);
  }

  /** A factor coprime to the modulus cancels. */
  lemma {:induction false} CongCancel(s: nat, x: int, y: int, n: nat)
    requires s > 0 && n > 0 && Gcd(s, n) == 1 && Cong(s * x, s * y, n)
    ensures Cong(x, y, n)
  {
    hide Gcd, Cong;
    var a, b := Bezout(s, n);
    CongRefl(a, n);
    CongMul(a, a, s * x, s * y, n);
    UnitFactor(a, b, s, x, n);
    UnitFactor(a, b, s, y, n);
    CongSymmetric(a * (s * x), x, n);
    CongTrans(x, a * (s * x), a * (s * y), n);
    CongTrans(x, a * (s * y), y, n);
  }

  lemma {:induction false} CongSymmetric(a: int, b: int, m: int)
    requires m > 0 && Cong(a, b, m)
    ensures Cong(b, a, m)
  {}

  lemma {:induction false} UnitFactor(a: int, b: int, s: int, x: int, n: int)
    requires n > 0 && a * s + b * n == 1
    ensures Cong(a * (s * x), x, n)
  {
    assert a * (s * x) == (a * s) * x == (1 - b * n) * x == x + (-(b * x)) * n;
    CongIntro(a * (s * x), x, -(b * x), n);
  }

  /** The scalars recomputed by the verifier combine to the nonce of the signer, for every hash,
      key and nonce coprime to the order, whenever s is coprime to the order. */
  lemma {:induction false} SignVerifyAgree(e: nat, d: nat, k: nat, r: nat, s: nat, u1: nat, u2: nat, n: nat)
    requires n > 0 && s > 0 && Gcd(s, n) == 1
    requires Cong(s * k, e + r * d, n)
    requires Cong(u1 * s, e, n) && Cong(u2 * s, r, n)
    ensures Cong(u1 + u2 * d, k, n)
  {
    hide Gcd, Cong;
    CongRefl(d, n);
    CongMul(u2 * s, r, d, d, n);
    CongAdd(u1 * s, e, (u2 * s) * d, r * d, n);
    assert s * (u1 + u2 * d) == u1 * s + (u2 * s) * d;
    CongSymmetric(s * k, e + r * d, n);
    CongTrans(s * (u1 + u2 * d), e + r * d, s * k, n);
    CongCancel(s, u1 + u2 * d, k, n);
  }
}
