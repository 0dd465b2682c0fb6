/** Bitwise operators on naturals, and what they compute when the operands do not overlap. */
module Bits {
  import opened Arith

  function BitOr(a: nat, b: nat): nat
    decreases a + b
  {
    if a == 0 && b == 0 then 0
    else (if a % 2 == 1 || b % 2 == 1 then 1 else 0) + 2 * BitOr(a / 2, b / 2)
  }

  function BitAnd(a: nat, b: nat): nat
    decreases a + b
  {
    if a == 0 && b == 0 then 0
    else (if a % 2 == 1 && b % 2 == 1 then 1 else 0) + 2 * BitAnd(a / 2, b / 2)
  }

  /** The number of bits needed to write n. */
  function BitLen(n: nat): nat {
    if n == 0 then 0 else 1 + BitLen(n / 2)
  }

  /** Bit i of n. */
  function Bit(n: nat, i: nat): (b: nat)
    ensures b <= 1
  {
    if i == 0 then n % 2 else Bit(n / 2, i - 1)
  }

  lemma {:induction false} OrZero(a: nat)
    ensures BitOr(a, 0) == a
  {
    if a > 0 {
      OrZero(a / 2);
    }
  }

  lemma {:induction false} OrSymmetric(a: nat, b: nat)
    ensures BitOr(a, b) == BitOr(b, a)
    decreases a + b
  {
    if a + b > 0 {
      OrSymmetric(a / 2, b / 2);
    }
  }

  lemma {:induction false} DoubleHalf(hi: int, p: int)
    ensures (hi * (2 * p)) % 2 == 0 && (hi * (2 * p)) / 2 == hi * p
  {
    assert hi * (2 * p) == 2 * (hi * p);
  }

  /** Or-ing in a value below the lowest set bit adds it. */
  lemma {:induction false} OrDisjoint(hi: nat, lo: nat, k: nat)
    requires lo < Pow(2, k)
    ensures BitOr(hi * Pow(2, k), lo) == hi * Pow(2, k) + lo
  {
    if k == 0 {
      OrZero(hi);
    } else {
      var p := Pow(2, k - 1);
      DoubleHalf(hi, p);
      OrDisjoint(hi, lo / 2, k - 1);
    }
  }

  lemma {:induction false} AndZero(a: nat)
    ensures BitAnd(a, 0) == 0
  {
    if a > 0 {
      AndZero(a / 2);
    }
  }

  /** A mask of k ones keeps the remainder modulo 2^k. */
  lemma {:induction false} AndOnes(x: nat, k: nat)
    ensures Pow(2, k) > 0 && BitAnd(x, Pow(2, k) - 1) == x % Pow(2, k)
  {
    PowPositive(2, k);
    if k == 0 {
      AndZero(x);
    } else {
      var p := Pow(2, k - 1);
      PowPositive(2, k - 1);
      AndOnes(x / 2, k - 1);
      assert (2 * p - 1) / 2 == p - 1;
      ModDouble(x, p);
    }
  }

  lemma {:induction false} ModDouble(x: nat, p: int)
    requires p > 0
    ensures x % (2 * p) == x % 2 + 2 * ((x / 2) % p)
  {
    var q, r := (x / 2) / p, (x / 2) % p;
    assert x == 2 * (q * p + r) + x % 2 == q * (2 * p) + (2 * r + x % 2);
    DivModUnique(x, q, 2 * r + x % 2, 2 * p);
  }

  lemma {:induction false} DivDouble(x: nat, p: int)
    requires p > 0
    ensures x / (2 * p) == (x / 2) / p
  {
    var q, r := (x / 2) / p, (x / 2) % p;
    assert x == 2 * (q * p + r) + x % 2 == q * (2 * p) + (2 * r + x % 2);
    DivModUnique(x, q, 2 * r + x % 2, 2 * p);
  }

  lemma {:induction false} AndEven(a: nat, bit: nat, b: nat)
    requires bit <= 1
    ensures BitAnd(2 * a + bit, 2 * b) == 2 * BitAnd(a, b)
  {}

  lemma {:induction false} Regroup(q: int, p: int)
    ensures q * (2 * p) == 2 * (q * p)
  {}

  /** A mask with k trailing zeros acts on the quotient by 2^k. */
  lemma {:induction false} AndShifted(q: nat, r: nat, m: nat, k: nat)
    requires r < Pow(2, k)
    ensures BitAnd(q * Pow(2, k) + r, m * Pow(2, k)) == BitAnd(q, m) * Pow(2, k)
  {
    hide BitAnd;
    if k > 0 {
      var p := Pow(2, k - 1);
      AndShifted(q, r / 2, m, k - 1);
      Regroup(q, p);
      Regroup(m, p);
      Regroup(BitAnd(q, m), p);
      AndEven(q * p + r / 2, r % 2, m * p);
    }
  }

  lemma {:induction false} BitValue(n: nat, i: nat)
    ensures Pow(2, i) > 0 && Bit(n, i) == (n / Pow(2, i)) % 2
  {
    PowPositive(2, i);
    if i > 0 {
      PowPositive(2, i - 1);
      BitValue(n / 2, i - 1);
      DivDouble(n, Pow(2, i - 1));
    }
  }

  lemma {:induction false} BitLenBounds(n: nat)
    ensures n < Pow(2, BitLen(n))
    ensures n > 0 ==> BitLen(n) > 0 && Pow(2, BitLen(n) - 1) <= n
  {
    if n > 0 {
      BitLenBounds(n / 2);
    }
  }

  lemma {:induction false} BitLenUnique(n: nat, k: nat)
    requires k > 0 && Pow(2, k - 1) <= n < Pow(2, k)
    ensures BitLen(n) == k
  {
    if k > 1 {
      BitLenUnique(n / 2, k - 1);
    } else {
      assert Pow(2, 0) == 1 && Pow(2, 1) == 2;
    }
  }

  lemma {:induction false} BitLenLe(n: nat, k: nat)
    requires n < Pow(2, k)
    ensures BitLen(n) <= k
  {
    if n > 0 {
      assert k > 0;
      BitLenLe(n / 2, k - 1);
    }
  }

  lemma {:induction false} LowBit(x: nat)
    ensures BitAnd(x, 1) == x % 2
  {
    AndOnes(x, 1);
    assert Pow(2, 1) == 2;
  }
}
