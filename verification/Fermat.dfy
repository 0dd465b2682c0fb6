/** Fermat's little theorem, by the binomial theorem. */
module Fermat {
  import opened Arith
  import opened Divisors

  function Binom(n: nat, k: nat): nat {
    if k == 0 then 1 else if n == 0 then 0 else Binom(n - 1, k - 1) + Binom(n - 1, k)
  }

  lemma {:induction false} BinomBeyond(n: nat, k: nat)
    requires k > n
    ensures Binom(n, k) == 0
  {
    if n > 0 {
      BinomBeyond(n - 1, k - 1);
      BinomBeyond(n - 1, k);
    }
  }

  lemma {:induction false} BinomEnd(n: nat)
    ensures Binom(n, n) == 1
  {
    if n > 0 {
      BinomEnd(n - 1);
      BinomBeyond(n - 1, n);
    }
  }

  /** k * C(n, k) = n * C(n - 1, k - 1). */
  lemma {:induction false} Absorb(n: nat, k: nat)
    requires n >= 1 && k >= 1
    ensures k * Binom(n, k) == n * Binom(n - 1, k - 1)
  {
    if n == 1 {
      if k > 1 {
        BinomBeyond(1, k);
        BinomBeyond(0, k - 1);
      }
    } else if k == 1 {
      Absorb(n - 1, 1);
    } else {
      var a, b := Binom(n - 1, k - 1), Binom(n - 1, k);
      Absorb(n - 1, k - 1);
      Absorb(n - 1, k);
      AbsorbTerms(n, k, a, b, Binom(n - 2, k - 2), Binom(n - 2, k - 1));
    }
  }

  lemma {:induction false} AbsorbTerms(n: nat, k: nat, a: int, b: int, c: int, d: int)
    requires n >= 1 && k >= 1 && (k - 1) * a == (n - 1) * c && k * b == (n - 1) * d && a == c + d
    ensures k * (a + b) == n * a
  {
    assert k * (a + b) == (k - 1) * a + a + k * b;
    assert (n - 1) * c + (n - 1) * d == (n - 1) * a;
  }

  /** A prime divides its inner binomial coefficients. */
  lemma {:induction false} PrimeDividesBinom(p: nat, k: nat)
    requires Prime(p) && 0 < k < p
    ensures Cong(Binom(p, k), 0, p)
  {
    hide Prime, Binom;
    Absorb(p, k);
    CongIntro(k * Binom(p, k), 0, Binom(p - 1, k - 1), p);
    PrimeDividesProduct(p, k, Binom(p, k));
    DivModUnique(k, 0, k, p);
    DivModUnique(0, 0, 0, p);
  }

  /** The first m terms of the expansion of (a + 1)^n. */
  function Expansion(n: nat, a: int, m: nat): int {
    if m == 0 then 0 else Expansion(n, a, m - 1) + Binom(n, m - 1) * Pow(a, m - 1)
  }

  lemma {:induction false} ExpansionStep(n: nat, a: int, m: nat)
    ensures Expansion(n + 1, a, m + 1) == Expansion(n, a, m + 1) + a * Expansion(n, a, m)
  {
    if m > 0 {
      ExpansionStep(n, a, m - 1);
      var b, c, w := Binom(n, m - 1), Binom(n, m), Pow(a, m - 1);
      assert Expansion(n, a, m) == Expansion(n, a, m - 1) + b * w;
      TermStep(a, b, c, w, Expansion(n, a, m - 1));
    } else {
      assert Expansion(n + 1, a, 1) == Expansion(n + 1, a, 0) + 1 && Expansion(n, a, 1) == Expansion(n, a, 0) + 1;
    }
  }

  lemma {:induction false} TermStep(a: int, b: int, c: int, w: int, e: int)
    ensures (b + c) * (a * w) == c * (a * w) + a * (b * w) && a * (e + b * w) == a * e + a * (b * w)
  {}

  lemma {:induction false} BinomialTheorem(n: nat, a: int)
    ensures Pow(a + 1, n) == Expansion(n, a, n + 1)
  {
    if n > 0 {
      BinomialTheorem(n - 1, a);
      ExpansionStep(n - 1, a, n);
      BinomBeyond(n - 1, n);
      var e := Expansion(n - 1, a, n);
      assert Expansion(n - 1, a, n + 1) == e + 0 * Pow(a, n);
      assert (a + 1) * e == e + a * e;
    } else {
      assert Expansion(0, a, 1) == Expansion(0, a, 0) + 1;
    }
  }

  /** Modulo a prime only the first of the first p terms remains. */
  lemma {:induction false} ExpansionModPrime(p: nat, a: int, m: nat)
    requires Prime(p) && 1 <= m <= p
    ensures Cong(Expansion(p, a, m), 1, p)
  {
    hide Prime, Cong;
    if m == 1 {
      assert Expansion(p, a, 1) == Expansion(p, a, 0) + 1;
      CongIntro(1, 1, 0, p);
    } else {
      hide Binom;
      ExpansionModPrime(p, a, m - 1);
      PrimeDividesBinom(p, m - 1);
      CongIntro(Pow(a, m - 1), Pow(a, m - 1), 0, p);
      CongMul(Binom(p, m - 1), 0, Pow(a, m - 1), Pow(a, m - 1), p);
      CongAdd(Expansion(p, a, m - 1), 1, Binom(p, m - 1) * Pow(a, m - 1), 0, p);
    }
  }

  /** (a + 1)^p = a^p + 1 modulo p. */
  lemma {:induction false} PowSuccessor(p: nat, a: int)
    requires Prime(p) && p > 1
    ensures Cong(Pow(a + 1, p), Pow(a, p) + 1, p)
  {
    hide Prime, Cong, Binom, Pow;
    BinomialTheorem(p, a);
    ExpansionModPrime(p, a, p);
    BinomEnd(p);
    CongIntro(Pow(a, p), Pow(a, p), 0, p);
    CongAdd(Expansion(p, a, p), 1, Pow(a, p), Pow(a, p), p);
    assert Expansion(p, a, p + 1) == Expansion(p, a, p) + 1 * Pow(a, p);
  }

  lemma {:induction false} FermatNat(p: nat, a: nat)
    requires Prime(p) && p > 1
    ensures Cong(Pow(a, p), a, p)
  {
    hide Prime, Cong;
    if a == 0 {
      assert Pow(0, p) == 0 * Pow(0, p - 1);
      CongIntro(0, 0, 0, p);
    } else {
      hide Pow;
      FermatNat(p, a - 1);
      PowSuccessor(p, a - 1);
      CongIntro(1, 1, 0, p);
      CongAdd(Pow(a - 1, p), a - 1, 1, 1, p);
      CongTrans(Pow(a, p), Pow(a - 1, p) + 1, a, p);
    }
  }

  /** a^p = a modulo a prime p. */
  lemma {:induction false} LittleTheorem(p: nat, a: int)
    requires Prime(p) && p > 1
    ensures Cong(Pow(a, p), a, p)
  {
    hide Prime, Pow;
    CongMod(a, p);
    FermatNat(p, a % p);
    CongPow(a % p, a, p, p);
    CongTrans(Pow(a % p, p), a % p, a, p);
  }

  /** (a^2)^e = a^(2e). */
  lemma {:induction false} PowOfSquare(a: int, e: nat)
    ensures Pow(a * a, e) == Pow(a, 2 * e)
  {
    if e > 0 {
      PowOfSquare(a, e - 1);
      PowTwice(a, e);
    }
  }

  lemma {:induction false} PowTwice(a: int, e: nat)
    requires e > 0
    ensures Pow(a, 2 * e) == (a * a) * Pow(a, 2 * (e - 1))
  {
    PowAdd(a, 2, 2 * (e - 1));
    assert Pow(a, 2) == a * Pow(a, 1) && Pow(a, 1) == a * Pow(a, 0);
    assert 2 + 2 * (e - 1) == 2 * e;
  }
}
