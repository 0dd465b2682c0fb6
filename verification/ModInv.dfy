/** Modular inversion by the binary extended Euclidean algorithm. */
module ModInv {
  import opened Arith
  import opened Bits
  import opened Divisors
  import opened Limbs
  import opened Vli

  /** What every iteration keeps: u * input = a and v * input = b modulo m, both below m,
      and the pair (a, b) has the divisor of (input, m). */
  ghost predicate Inv(a: nat, b: nat, u: nat, v: nat, input: nat, m: nat) {
    && input > 0 && m % 2 == 1
    && a > 0 && b > 0 && (a % 2 == 1 || b % 2 == 1)
    && Gcd(a, b) == Gcd(input, m)
    && Cong(u * input, a, m) && Cong(v * input, b, m)
    && u <= m && v <= m && (m > 1 ==> u < m && v < m)
  }

  lemma {:induction false} Swap(a: nat, b: nat, u: nat, v: nat, input: nat, m: nat)
    requires Inv(a, b, u, v, input, m)
    ensures Inv(b, a, v, u, input, m)
  {
    GcdSymmetric(a, b);
  }

  /** An odd modulus allows halving both sides. */
  lemma {:induction false} CongHalve(x: int, y: int, m: nat)
    requires m % 2 == 1 && Cong(2 * x, 2 * y, m)
    ensures Cong(x, y, m)
  {
    var k := CongElim(2 * x, 2 * y, m);
    DividesIntro(m, 2 * (x - y), k);
    OddDividesHalf(m, x - y);
    CongIntro(x, y, (x - y) / m, m);
  }

  /** u halved modulo m: u / 2, or (u + m) / 2 when u is odd. */
  function Halved(u: nat, m: nat): (h: nat) {
    if u % 2 == 0 then u / 2 else (u + m) / 2
  }

  lemma {:induction false} HalvedCong(u: nat, x: int, a: int, m: nat)
    requires m % 2 == 1 && a % 2 == 0 && Cong(u * x, a, m)
    ensures Cong(Halved(u, m) * x, a / 2, m)
  {
    var h, e := Halved(u, m), if u % 2 == 0 then 0 else 1;
    assert 2 * h == u + e * m;
    assert 2 * (h * x) == u * x + (e * x) * m;
    CongIntro(2 * (h * x), u * x, e * x, m);
    CongHalve(h * x, a / 2, m);
  }

  /** The branch for even a. */
  lemma {:induction false} EvenStep(a: nat, b: nat, u: nat, v: nat, input: nat, m: nat)
    requires Inv(a, b, u, v, input, m) && a % 2 == 0
    ensures Inv(a / 2, b, Halved(u, m), v, input, m) && a / 2 < a
  {
    hide Gcd, Cong;
    GcdHalf(a, b);
    HalvedCong(u, input, a, m);
  }

  /** u - v modulo m. */
  function Difference(u: nat, v: nat, m: nat): (d: nat)
    requires u <= m && v <= m
  {
    if u < v then u + m - v else u - v
  }

  /** The branch for odd a > b: a - b is even and keeps the divisor. */
  lemma {:induction false} OddStep(a: nat, b: nat, u: nat, v: nat, input: nat, m: nat)
    requires Inv(a, b, u, v, input, m) && a % 2 == 1 && b % 2 == 1 && a > b
    ensures Inv((a - b) / 2, b, Halved(Difference(u, v, m), m), v, input, m)
  {
    hide Cong;
    var d, e := Difference(u, v, m), if u < v then 1 else 0;
    CongSub(u * input, a, v * input, b, m);
    assert d * input == (u + e * m - v) * input == u * input - v * input + (e * input) * m;
    CongIntro(d * input, u * input - v * input, e * input, m);
    CongTrans(d * input, u * input - v * input, a - b, m);
    assert Inv(a - b, b, d, v, input, m);
    EvenStep(a - b, b, d, v, input, m);
  }

  method Even(vli: array<Limb>) returns (even: bool)
    requires vli.Length == 4
    ensures even <==> Val(vli) % 2 == 0
  {
    LowBit(vli[0]);
    ParityOfLimbs(vli[0..4]);
    even := BitAnd(vli[0], 1) == 0;
  }

  /** u = u / 2 modulo an odd m, carrying the bit the addition may push out. */
  method HalveMod(u: array<Limb>, m: array<Limb>)
    requires u.Length == m.Length == 4 && u != m
    requires Val(m) % 2 == 1
    modifies u
    ensures Val(u) == Halved(old(Val(u)), Val(m))
  {
    hide Num, BitOr, BitAnd;
    var carry: Limb := 0;
    var even := Even(u);
    if !even {
      carry := Add(u, u, m);
    }
    NumBound4(u[0..4]);
    Rshift1(u);
    if carry != 0 {
      ghost var s := u[0..4];
      TopLimbSmall(s);
      TopBitStaysLimb(u[3]);
      u[NUM_ECC_DIGITS - 1] := BitOr(u[NUM_ECC_DIGITS - 1], 0x8000_0000_0000_0000);
      TopBit(s, u[0..4]);
    }
  }

  /** u = u - v modulo m; the carry of the addition before the subtraction is dropped. */
  method DifferenceMod(u: array<Limb>, v: array<Limb>, m: array<Limb>)
    requires u.Length == v.Length == m.Length == 4 && u != m && u != v
    requires Val(u) <= Val(m) && Val(v) <= Val(m)
    modifies u
    ensures Val(u) == Difference(old(Val(u)), Val(v), Val(m))
  {
    hide Num;
    var cmp := Cmp(u, v);
    NumBound4(m[0..4]);
    NumBound4(u[0..4]);
    if cmp < 0 {
      var _ := Add(u, u, m);
      NumBound4(u[0..4]);
    }
    var _ := Sub(u, u, v);
    NumBound4(u[0..4]);
  }

  /** The branch for even a, with the cofactor u of a. */
  method EvenBranch(a: array<Limb>, u: array<Limb>, m: array<Limb>, ghost b: nat, ghost v: nat, ghost x: nat)
    requires a.Length == u.Length == m.Length == 4 && a != u && a != m && u != m
    requires Inv(Val(a), b, Val(u), v, x, Val(m)) && Val(a) % 2 == 0
    modifies a, u
    ensures Inv(Val(a), b, Val(u), v, x, Val(m)) && Val(a) < old(Val(a))
  {
    hide Num, Gcd, Cong;
    EvenStep(Val(a), b, Val(u), v, x, Val(m));
    Rshift1(a);
    HalveMod(u, m);
  }

  /** The branch for odd a > b, with their cofactors u and v. */
  method OddBranch(a: array<Limb>, b: array<Limb>, u: array<Limb>, v: array<Limb>, m: array<Limb>, ghost x: nat)
    requires a.Length == b.Length == u.Length == v.Length == m.Length == 4
    requires a != b && a != u && a != v && a != m && b != u && u != v && u != m
    requires Inv(Val(a), Val(b), Val(u), Val(v), x, Val(m))
    requires Val(a) % 2 == 1 && Val(b) % 2 == 1 && Val(a) > Val(b)
    modifies a, u
    ensures Inv(Val(a), Val(b), Val(u), Val(v), x, Val(m)) && Val(a) < old(Val(a))
  {
    hide Num, Gcd, Cong;
    OddStep(Val(a), Val(b), Val(u), Val(v), x, Val(m));
    NumBound4(a[0..4]);
    var _ := Sub(a, a, b);
    NumBound4(a[0..4]);
    Rshift1(a);
    DifferenceMod(u, v, m);
    HalveMod(u, m);
  }

  /** One iteration, given the sign of a - b. */
  method Iterate(a: array<Limb>, b: array<Limb>, u: array<Limb>, v: array<Limb>, m: array<Limb>,
                 cmp: int, ghost x: nat)
    requires a.Length == b.Length == u.Length == v.Length == m.Length == 4
    requires a != b && a != u && a != v && b != u && b != v && u != v
    requires m != a && m != b && m != u && m != v
    requires Inv(Val(a), Val(b), Val(u), Val(v), x, Val(m))
    requires Val(a) != Val(b) && (cmp > 0 <==> Val(a) > Val(b))
    modifies a, b, u, v
    ensures Inv(Val(a), Val(b), Val(u), Val(v), x, Val(m))
    ensures Val(a) + Val(b) < old(Val(a) + Val(b))
  {
    hide *;
    var evenA := Even(a);
    var evenB := Even(b);
    if evenA {
      EvenBranch(a, u, m, Val(b), Val(v), x);
    } else if evenB {
      Swap(Val(a), Val(b), Val(u), Val(v), x, Val(m));
      EvenBranch(b, v, m, Val(a), Val(u), x);
      Swap(Val(b), Val(a), Val(v), Val(u), x, Val(m));
    } else if cmp > 0 {
      OddBranch(a, b, u, v, m, x);
    } else {
      Swap(Val(a), Val(b), Val(u), Val(v), x, Val(m));
      OddBranch(b, a, v, u, m, x);
      Swap(Val(b), Val(a), Val(v), Val(u), x, Val(m));
    }
  }

  method Start(input: array<Limb>, m: array<Limb>)
    returns (a: array<Limb>, b: array<Limb>, u: array<Limb>, v: array<Limb>)
    requires input.Length == m.Length == 4
    ensures fresh({a, b, u, v}) && a != b && a != u && a != v && b != u && b != v && u != v
    ensures a.Length == b.Length == u.Length == v.Length == 4
    ensures Val(a) == Val(input) && Val(b) == Val(m) && Val(u) == 1 && Val(v) == 0
  {
    hide Num;
    v := new Limb[4];
    Clear(v);
    u := new Limb[4];
    Clear(u);
    u[0] := 1;
    One(u[0..4]);
    b := new Limb[4];
    Set(b, m);
    a := new Limb[4];
    Set(a, input);
  }

  /** result = 1 / input modulo an odd m, scaled by their greatest common divisor. */
  method Invert(result: array<Limb>, input: array<Limb>, m: array<Limb>)
    requires result.Length == input.Length == m.Length == 4
    requires Val(m) % 2 == 1
    modifies result
    ensures old(Val(input)) == 0 ==> Val(result) == 0
    ensures old(Val(input)) > 0 ==>
              Cong(Val(result) * old(Val(input)), Gcd(old(Val(input)), old(Val(m))), old(Val(m)))
    ensures Val(result) <= old(Val(m)) && (old(Val(m)) > 1 ==> Val(result) < old(Val(m)))
  {
    hide Num, Gcd, Cong, Inv;
    ghost var x, n := Val(input), Val(m);
    var zero := IsZero(input);
    if zero {
      Clear(result);
      return;
    }
    var a, b, u, v := Start(input, m);
    StartInv(x, n);
    var cmp := Cmp(a, b);
    while cmp != 0
      invariant fresh(a) && fresh(b) && fresh(u) && fresh(v)
      invariant Val(m) == n
      invariant Inv(Val(a), Val(b), Val(u), Val(v), x, n)
      invariant cmp == if Val(a) > Val(b) then 1 else if Val(a) < Val(b) then -1 else 0
      decreases Val(a) + Val(b)
    {
      Iterate(a, b, u, v, m, cmp, x);
      cmp := Cmp(a, b);
    }
    EndInv(Val(a), Val(u), Val(v), x, n);
    Set(result, u);
  }

  lemma {:induction false} StartInv(x: nat, m: nat)
    requires x > 0 && m % 2 == 1
    ensures Inv(x, m, 1, 0, x, m)
  {
    CongIntro(m, 0, 1, m);
  }

  lemma {:induction false} EndInv(a: nat, u: nat, v: nat, x: nat, m: nat)
    requires Inv(a, a, u, v, x, m)
    ensures m > 0 && x > 0 && Cong(u * x, Gcd(x, m), m)
    ensures u <= m && (m > 1 ==> u < m)
  {}
}
