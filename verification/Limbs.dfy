/** Numbers written as 64-bit limbs, least significant limb first. */
module Limbs {
  import opened Arith
  import opened Bits

  const BASE := 0x1_0000_0000_0000_0000
  const NUM_ECC_DIGITS := 4
  const TWO_256 := 0x1_0000_0000_0000_0000_0000_0000_0000_0000_0000_0000_0000_0000_0000_0000_0000_0000

  type Limb = x: int | 0 <= x < 0x1_0000_0000_0000_0000

  /** The number a sequence of limbs denotes. */
  function Num(s: seq<Limb>): (n: nat) {
    if s == [] then 0 else s[0] + BASE * Num(s[1..])
  }

  lemma {:induction false} PowBase()
    ensures Pow(BASE, 1) == BASE && Pow(BASE, 4) == TWO_256 && Pow(BASE, 8) == TWO_256 * TWO_256
  {
    assert Pow(BASE, 2) == BASE * Pow(BASE, 1);
    assert Pow(BASE, 4) == BASE * Pow(BASE, 3) == BASE * (BASE * Pow(BASE, 2));
    PowAdd(BASE, 4, 4);
  }

  lemma {:induction false} NumSnoc(s: seq<Limb>, x: Limb)
    ensures Num(s + [x]) == Num(s) + x * Pow(BASE, |s|)
  {
    if s == [] {
      assert s + [x] == [x];
    } else {
      assert (s + [x])[1..] == s[1..] + [x];
      NumSnoc(s[1..], x);
      assert BASE * (x * Pow(BASE, |s| - 1)) == x * (BASE * Pow(BASE, |s| - 1));
    }
  }

  /** Extending a prefix by one limb. */
  lemma {:induction false} NumPrefix(s: seq<Limb>, i: nat)
    requires i < |s|
    ensures Num(s[..i + 1]) == Num(s[..i]) + s[i] * Pow(BASE, i)
  {
    assert s[..i + 1] == s[..i] + [s[i]];
    NumSnoc(s[..i], s[i]);
  }

  /** Extending a suffix by one limb. */
  lemma {:induction false} NumSuffix(s: seq<Limb>, i: nat)
    requires i < |s|
    ensures Num(s[i..]) == s[i] + BASE * Num(s[i + 1..])
  {
    assert s[i..][1..] == s[i + 1..];
  }

  lemma {:induction false} NumConcat(s: seq<Limb>, t: seq<Limb>)
    ensures Num(s + t) == Num(s) + Pow(BASE, |s|) * Num(t)
  {
    if s == [] {
      assert s + t == t;
    } else {
      assert (s + t)[1..] == s[1..] + t;
      NumConcat(s[1..], t);
      assert BASE * (Pow(BASE, |s| - 1) * Num(t)) == (BASE * Pow(BASE, |s| - 1)) * Num(t);
    }
  }

  lemma {:induction false} NumSplit(s: seq<Limb>, i: nat)
    requires i <= |s|
    ensures Num(s) == Num(s[..i]) + Pow(BASE, i) * Num(s[i..])
  {
    assert s == s[..i] + s[i..];
    NumConcat(s[..i], s[i..]);
  }

  lemma {:induction false} NumBound(s: seq<Limb>)
    ensures Num(s) < Pow(BASE, |s|)
  {
    if s != [] {
      NumBound(s[1..]);
    }
  }

  /** A number below 2^256 per four limbs. */
  lemma {:induction false} NumBound4(s: seq<Limb>)
    requires |s| == 4
    ensures Num(s) < TWO_256
  {
    NumBound(s);
    PowBase();
  }

  lemma {:induction false} Num4(s: seq<Limb>)
    requires |s| == 4
    ensures Num(s) == s[0] + BASE * (s[1] + BASE * (s[2] + BASE * s[3]))
  {
    assert s == [s[0], s[1], s[2], s[3]];
    NumSuffix(s, 0);
    NumSuffix(s, 1);
    NumSuffix(s, 2);
    NumSuffix(s, 3);
  }

  lemma {:induction false} Num8(s: seq<Limb>)
    requires |s| == 8
    ensures Num(s) == s[0] + BASE * (s[1] + BASE * (s[2] + BASE * (s[3] + BASE *
                      (s[4] + BASE * (s[5] + BASE * (s[6] + BASE * s[7]))))))
    ensures Num(s) == Num(s[..4]) + TWO_256 * Num(s[4..])
  {
    NumSplit(s, 4);
    PowBase();
    Num4(s[..4]);
    Num4(s[4..]);
  }

  /** Limb sequences of one length denote different numbers when they differ. */
  lemma {:induction false} NumInjective(s: seq<Limb>, t: seq<Limb>)
    requires |s| == |t| && Num(s) == Num(t)
    ensures s == t
  {
    if s != [] {
      assert s[0] == t[0] && Num(s[1..]) == Num(t[1..]);
      NumInjective(s[1..], t[1..]);
      assert s == [s[0]] + s[1..] && t == [t[0]] + t[1..];
    }
  }

  lemma {:induction false} NumZeros(s: seq<Limb>)
    requires forall i :: 0 <= i < |s| ==> s[i] == 0
    ensures Num(s) == 0
  {
    if s != [] {
      NumZeros(s[1..]);
    }
  }

  /** Bit i of the number is bit i mod 64 of limb i / 64. */
  lemma {:induction false} NumBit(s: seq<Limb>, i: nat)
    requires i < 64 * |s|
    ensures Bit(Num(s), i) == Bit(s[i / 64], i % 64)
  {
    Pow64();
    BitOfSum(s[0], Num(s[1..]), 64, i);
    if i >= 64 {
      NumBit(s[1..], i - 64);
    }
  }

  /** The bits of lo + 2^k * hi are those of lo below k and those of hi above. */
  lemma {:induction false} BitOfSum(lo: nat, hi: nat, k: nat, i: nat)
    requires lo < Pow(2, k)
    ensures Bit(lo + Pow(2, k) * hi, i) == if i < k then Bit(lo, i) else Bit(hi, i - k)
  {
    if k > 0 {
      var p := Pow(2, k - 1);
      assert 2 * p * hi == 2 * (p * hi);
      if i > 0 {
        BitOfSum(lo / 2, hi, k - 1, i - 1);
        assert (lo + 2 * (p * hi)) / 2 == lo / 2 + p * hi;
      }
    }
  }

  lemma {:induction false} Pow64()
    ensures Pow(2, 32) == 0x1_0000_0000 && Pow(2, 63) == 0x8000_0000_0000_0000 && Pow(2, 64) == BASE
  {
    assert Pow(2, 8) == 256;
    PowAdd(2, 8, 8);
    PowAdd(2, 16, 16);
    PowAdd(2, 32, 32);
    assert Pow(2, 64) == 2 * Pow(2, 63);
  }

  lemma {:induction false} ParityOfLimbs(s: seq<Limb>)
    requires |s| == 4
    ensures Num(s) % 2 == s[0] % 2
  {
    Num4(s);
    assert BASE * (s[1] + BASE * (s[2] + BASE * s[3])) == 2 * ((BASE / 2) * (s[1] + BASE * (s[2] + BASE * s[3])));
  }

  lemma {:induction false} One(s: seq<Limb>)
    requires |s| == 4 && s[0] == 1 && s[1] == s[2] == s[3] == 0
    ensures Num(s) == 1
  {
    Num4(s);
  }

  /** Sets bit 255 of a number that has it clear. */
  lemma {:induction false} TopBit(s: seq<Limb>, t: seq<Limb>)
    requires |s| == |t| == 4 && Num(s) < TWO_256 / 2
    requires t == s[..3] + [BitOr(s[3], 0x8000_0000_0000_0000)]
    ensures Num(t) == Num(s) + TWO_256 / 2
  {
    Num4(s);
    Num4(t);
    Pow64();
    OrSymmetric(s[3], 0x8000_0000_0000_0000);
    OrDisjoint(1, s[3], 63);
  }

  lemma {:induction false} TopBitStaysLimb(x: Limb)
    requires x < 0x8000_0000_0000_0000
    ensures BitOr(x, 0x8000_0000_0000_0000) == x + 0x8000_0000_0000_0000
  {
    Pow64();
    OrSymmetric(x, 0x8000_0000_0000_0000);
    OrDisjoint(1, x, 63);
  }

  lemma {:induction false} TopLimbSmall(s: seq<Limb>)
    requires |s| == 4 && Num(s) < TWO_256 / 2
    ensures s[3] < 0x8000_0000_0000_0000
  {
    Num4(s);
  }
}
