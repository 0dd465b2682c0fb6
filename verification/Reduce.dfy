/** Fast reduction modulo the P-256 prime (appendix D.2.3 of FIPS 186-4). */
module Reduce {
  import opened Arith
  import opened Bits
  import opened Limbs
  import opened Vli

  const W := 0x1_0000_0000
  const HIGH := 0xffff_ffff_0000_0000
  const LOW := 0xffff_ffff

  const CURVE_P: seq<Limb> :=
    [0xFFFFFFFFFFFFFFFF, 0x00000000FFFFFFFF, 0x0000000000000000, 0xFFFFFFFF00000001]
  const P256 := 0xFFFFFFFF00000001000000000000000000000000FFFFFFFFFFFFFFFFFFFFFFFF

  lemma {:induction false} CurvePValue()
    ensures Num(CURVE_P) == P256
  {
    Num4(CURVE_P);
  }

  /** A fresh copy of a static limb table. */
  method Load(s: seq<Limb>) returns (a: array<Limb>)
    ensures fresh(a) && a.Length == |s| && a[..] == s
  {
    a := new Limb[|s|](i requires 0 <= i < |s| => s[i]);
  }

  function Lo(x: Limb): (n: nat) { x % W }

  function Hi(x: Limb): (n: nat)
    ensures x == Lo(x) + n * W && n < W
  { x / W }

  lemma {:induction false} HighMask(x: Limb)
    ensures BitAnd(x, HIGH) == Hi(x) * W
  {
    Pow64();
    AndShifted(Hi(x), Lo(x), W - 1, 32);
    AndOnes(Hi(x), 32);
    assert (W - 1) * W == HIGH;
  }

  lemma {:induction false} LowMask(x: Limb)
    ensures BitAnd(x, LOW) == Lo(x)
  {
    Pow64();
    AndOnes(x, 32);
  }

  lemma {:induction false} ShiftUp(x: Limb)
    ensures (x * W) % BASE == Lo(x) * W
  {
    DivModUnique(x * W, Hi(x), Lo(x) * W, BASE);
  }

  lemma {:induction false} Join(lo: nat, hi: nat)
    requires lo < W
    ensures BitOr(lo, hi * W) == lo + hi * W
  {
    Pow64();
    OrSymmetric(lo, hi * W);
    OrDisjoint(hi, lo, 32);
  }

  /** The word pairings the reduction builds from two limbs. */
  lemma {:induction false} Pairings(x: Limb, y: Limb)
    ensures BitOr(x / W, (y * W) % BASE) == Hi(x) + Lo(y) * W
    ensures BitOr(x / W, BitAnd(y, HIGH)) == Hi(x) + Hi(y) * W
    ensures BitOr(BitAnd(x, LOW), (y * W) % BASE) == Lo(x) + Lo(y) * W
  {
    HighMask(y);
    LowMask(x);
    ShiftUp(y);
    Join(Hi(x), Lo(y));
    Join(Hi(x), Hi(y));
    Join(Lo(x), Lo(y));
  }

  /** Eight 32-bit words, least significant first. */
  function Words(w0: int, w1: int, w2: int, w3: int, w4: int, w5: int, w6: int, w7: int): int {
    w0 + w1 * 0x100000000 + w2 * 0x10000000000000000 + w3 * 0x1000000000000000000000000
    + w4 * 0x100000000000000000000000000000000 + w5 * 0x10000000000000000000000000000000000000000
    + w6 * 0x1000000000000000000000000000000000000000000000000
    + w7 * 0x100000000000000000000000000000000000000000000000000000000
  }

  lemma {:induction false} WordsValue(s: seq<Limb>, w0: int, w1: int, w2: int, w3: int, w4: int, w5: int, w6: int, w7: int)
    requires |s| == 4
    requires s[0] == w0 + w1 * W && s[1] == w2 + w3 * W && s[2] == w4 + w5 * W && s[3] == w6 + w7 * W
    ensures Num(s) == Words(w0, w1, w2, w3, w4, w5, w6, w7)
  {
    hide Num;
    Num4(s);
  }

  /** The quotient the nine terms remove, as a combination of the high words. */
  ghost function Quotient(c8: int, c9: int, c10: int, c11: int, c12: int, c13: int, c14: int, c15: int): int {
    c8 + c9 * 0x100000001 + c10 * 0x10000000100000000 + c11 * 0x100000000ffffffffffffffff
    + c12 * 0x100000000fffffffffffffffeffffffff + c13 * 0x100000000fffffffffffffffefffffffeffffffff
    + c14 * 0x100000000fffffffffffffffefffffffefffffffeffffffff
    + c15 * 0x100000000fffffffffffffffefffffffefffffffeffffffff00000000
  }

  /** The signed sum of the shuffled terms differs from the high half at its weight by a multiple of p. */
  lemma {:induction false} ShuffledTerms(c8: int, c9: int, c10: int, c11: int, c12: int, c13: int, c14: int, c15: int)
    ensures 2 * Words(0, 0, 0, c11, c12, c13, c14, c15) + 2 * Words(0, 0, 0, c12, c13, c14, c15, 0)
            + Words(c8, c9, c10, 0, 0, 0, c14, c15) + Words(c9, c10, c11, c13, c14, c15, c13, c8)
            - Words(c11, c12, c13, 0, 0, 0, c8, c10) - Words(c12, c13, c14, c15, 0, 0, c9, c11)
            - Words(c13, c14, c15, c8, c9, c10, 0, c12) - Words(c14, c15, 0, c9, c10, c11, 0, c13)
         == TWO_256 * Words(c8, c9, c10, c11, c12, c13, c14, c15)
            - P256 * Quotient(c8, c9, c10, c11, c12, c13, c14, c15)
  {}

  /** tmp = [l0, l1, l2, l3], the words w0..w7. */
  method SetWords(tmp: array<Limb>, l0: Limb, l1: Limb, l2: Limb, l3: Limb,
                  ghost w0: int, ghost w1: int, ghost w2: int, ghost w3: int,
                  ghost w4: int, ghost w5: int, ghost w6: int, ghost w7: int)
    requires tmp.Length == 4
    requires l0 == w0 + w1 * W && l1 == w2 + w3 * W && l2 == w4 + w5 * W && l3 == w6 + w7 * W
    modifies tmp
    ensures Val(tmp) == Words(w0, w1, w2, w3, w4, w5, w6, w7)
    ensures tmp[..] == [l0, l1, l2, l3]
  {
    tmp[0], tmp[1], tmp[2], tmp[3] := l0, l1, l2, l3;
    assert tmp[0..4] == tmp[..] == [l0, l1, l2, l3];
    WordsValue(tmp[..], w0, w1, w2, w3, w4, w5, w6, w7);
  }

  /** Adds tmp << 1 to the running total result + carry * 2^256. */
  method AddDoubled(result: array<Limb>, tmp: array<Limb>, carry: int) returns (c: int)
    requires result.Length == tmp.Length == 4 && result != tmp
    modifies result, tmp
    ensures Val(result) + c * TWO_256 == old(Val(result)) + carry * TWO_256 + 2 * old(Val(tmp))
    ensures old(tmp[0]) == 0 ==> tmp[0] == 0
  {
    hide Num, BitOr;
    ghost var first, was := tmp[0], tmp[..];
    var out := Lshift(tmp, tmp, 1);
    assert Pow(2, 1) == 2;
    if first == 0 {
      EvenLimb(tmp[0..4], was[0..4], out);
    }
    var over := Add(result, result, tmp);
    c := carry + out + over;
  }

  lemma {:induction false} EvenLimb(s: seq<Limb>, t: seq<Limb>, out: int)
    requires |s| == |t| == 4 && t[0] == 0 && Num(s) + out * TWO_256 == Num(t) * 2
    ensures s[0] == 0
  {
    Num4(s);
    Num4(t);
    assert s[0] == BASE * (2 * (t[1] + BASE * (t[2] + BASE * t[3])) - out * (TWO_256 / BASE) - (s[1] + BASE * (s[2] + BASE * s[3])));
  }

  method AddTerm(result: array<Limb>, tmp: array<Limb>, carry: int) returns (c: int)
    requires result.Length == tmp.Length == 4 && result != tmp
    modifies result
    ensures Val(result) + c * TWO_256 == old(Val(result)) + carry * TWO_256 + Val(tmp)
  {
    var over := Add(result, result, tmp);
    c := carry + over;
  }

  method SubTerm(result: array<Limb>, tmp: array<Limb>, carry: int) returns (c: int)
    requires result.Length == tmp.Length == 4 && result != tmp
    modifies result
    ensures Val(result) + c * TWO_256 == old(Val(result)) + carry * TWO_256 - Val(tmp)
  {
    var under := Sub(result, result, tmp);
    c := carry - under;
  }

  /** The sum of the low half t and the doubled terms s1, s2. */
  method AddDoubledTerms(result: array<Limb>, product: array<Limb>, tmp: array<Limb>) returns (carry: int)
    requires result.Length == tmp.Length == 4 && product.Length == 8 && result != tmp
    modifies result, tmp
    ensures var c11, c12, c13 := Hi(product[5]), Lo(product[6]), Hi(product[6]);
            var c14, c15 := Lo(product[7]), Hi(product[7]);
            Val(result) + carry * TWO_256 == Val(product)
            + 2 * Words(0, 0, 0, c11, c12, c13, c14, c15) + 2 * Words(0, 0, 0, c12, c13, c14, c15, 0)
  {
    hide Num, BitOr, BitAnd, Words;
    ghost var c11, c12, c13, c14, c15 := Hi(product[5]), Lo(product[6]), Hi(product[6]), Lo(product[7]), Hi(product[7]);
    Set(result, product);
    HighMask(product[5]);
    SetWords(tmp, 0, BitAnd(product[5], HIGH), product[6], product[7], 0, 0, 0, c11, c12, c13, c14, c15);
    carry := AddDoubled(result, tmp, 0);
    ShiftUp(product[6]);
    Pairings(product[6], product[7]);
    SetWords(tmp, tmp[0], (product[6] * W) % BASE, BitOr(product[6] / W, (product[7] * W) % BASE), product[7] / W,
             0, 0, 0, c12, c13, c14, c15, 0);
    carry := AddDoubled(result, tmp, carry);
  }

  /** The running total with the terms s3, s4. */
  method AddTerms(result: array<Limb>, product: array<Limb>, tmp: array<Limb>, carryIn: int) returns (carry: int)
    requires result.Length == tmp.Length == 4 && product.Length == 8 && result != tmp
    modifies result, tmp
    ensures var c8, c9 := Lo(product[4]), Hi(product[4]); var c10, c11 := Lo(product[5]), Hi(product[5]);
            var c13, c14, c15 := Hi(product[6]), Lo(product[7]), Hi(product[7]);
            Val(result) + carry * TWO_256 == old(Val(result)) + carryIn * TWO_256
            + Words(c8, c9, c10, 0, 0, 0, c14, c15) + Words(c9, c10, c11, c13, c14, c15, c13, c8)
  {
    hide Num, BitOr, BitAnd, Words;
    ghost var c8, c9, c10, c11 := Lo(product[4]), Hi(product[4]), Lo(product[5]), Hi(product[5]);
    ghost var c13, c14, c15 := Hi(product[6]), Lo(product[7]), Hi(product[7]);
    LowMask(product[5]);
    SetWords(tmp, product[4], BitAnd(product[5], LOW), 0, product[7], c8, c9, c10, 0, 0, 0, c14, c15);
    carry := AddTerm(result, tmp, carryIn);
    Pairings(product[4], product[5]);
    Pairings(product[5], product[6]);
    Pairings(product[6], product[4]);
    SetWords(tmp, BitOr(product[4] / W, (product[5] * W) % BASE), BitOr(product[5] / W, BitAnd(product[6], HIGH)),
             product[7], BitOr(product[6] / W, (product[4] * W) % BASE), c9, c10, c11, c13, c14, c15, c13, c8);
    carry := AddTerm(result, tmp, carry);
  }

  /** The running total less the terms d1, d2, d3, d4. */
  method SubTerms(result: array<Limb>, product: array<Limb>, tmp: array<Limb>, carryIn: int) returns (carry: int)
    requires result.Length == tmp.Length == 4 && product.Length == 8 && result != tmp
    modifies result, tmp
    ensures var c8, c9 := Lo(product[4]), Hi(product[4]); var c10, c11 := Lo(product[5]), Hi(product[5]);
            var c12, c13 := Lo(product[6]), Hi(product[6]); var c14, c15 := Lo(product[7]), Hi(product[7]);
            Val(result) + carry * TWO_256 == old(Val(result)) + carryIn * TWO_256
            - Words(c11, c12, c13, 0, 0, 0, c8, c10) - Words(c12, c13, c14, c15, 0, 0, c9, c11)
            - Words(c13, c14, c15, c8, c9, c10, 0, c12) - Words(c14, c15, 0, c9, c10, c11, 0, c13)
  {
    hide Num, BitOr, BitAnd, Words;
    ghost var c8, c9, c10, c11 := Lo(product[4]), Hi(product[4]), Lo(product[5]), Hi(product[5]);
    ghost var c12, c13, c14, c15 := Lo(product[6]), Hi(product[6]), Lo(product[7]), Hi(product[7]);
    Pairings(product[5], product[6]);
    Pairings(product[4], product[5]);
    SetWords(tmp, BitOr(product[5] / W, (product[6] * W) % BASE), product[6] / W, 0,
             BitOr(BitAnd(product[4], LOW), (product[5] * W) % BASE), c11, c12, c13, 0, 0, 0, c8, c10);
    carry := SubTerm(result, tmp, carryIn);
    SetWords(tmp, product[6], product[7], 0, BitOr(product[4] / W, BitAnd(product[5], HIGH)),
             c12, c13, c14, c15, 0, 0, c9, c11);
    carry := SubTerm(result, tmp, carry);
    Pairings(product[6], product[7]);
    Pairings(product[7], product[4]);
    ShiftUp(product[6]);
    SetWords(tmp, BitOr(product[6] / W, (product[7] * W) % BASE), BitOr(product[7] / W, (product[4] * W) % BASE),
             BitOr(product[4] / W, (product[5] * W) % BASE), (product[6] * W) % BASE,
             c13, c14, c15, c8, c9, c10, 0, c12);
    carry := SubTerm(result, tmp, carry);
    HighMask(product[4]);
    HighMask(product[6]);
    SetWords(tmp, product[7], BitAnd(product[4], HIGH), product[5], BitAnd(product[6], HIGH),
             c14, c15, 0, c9, c10, c11, 0, c13);
    carry := SubTerm(result, tmp, carry);
  }

  /** The correction loops: from result + carryIn * 2^256 to its residue modulo p. */
  method Correct(result: array<Limb>, curveP: array<Limb>, carryIn: int)
    requires result.Length == curveP.Length == 4 && result != curveP && Val(curveP) == P256
    modifies result
    ensures Val(result) == (old(Val(result)) + carryIn * TWO_256) % P256
  {
    hide Num;
    var carry := carryIn;
    ghost var total, k := Val(result) + carry * TWO_256, 0;
    if carry < 0 {
      NumBound4(result[0..4]);
      carry := AddTerm(result, curveP, carry);
      k := 1;
      while carry < 0
        invariant Val(result) + carry * TWO_256 == total + k * P256 < P256
        decreases -(Val(result) + carry * TWO_256)
      {
        NumBound4(result[0..4]);
        carry := AddTerm(result, curveP, carry);
        k := k + 1;
      }
      NumBound4(result[0..4]);
      assert carry == 0;
      DivModUnique(total, -k, Val(result), P256);
    } else {
      var cmp := Cmp(curveP, result);
      while carry != 0 || cmp != 1
        invariant carry >= 0
        invariant Val(result) + carry * TWO_256 == total - k * P256
        invariant cmp == 1 <==> Val(result) < P256
        decreases Val(result) + carry * TWO_256
      {
        carry := SubTerm(result, curveP, carry);
        NumBound4(result[0..4]);
        cmp := Cmp(curveP, result);
        k := k + 1;
      }
      DivModUnique(total, k, Val(result), P256);
    }
  }

  /** result = product mod p for every 512-bit product. */
  method MmodFast(result: array<Limb>, product: array<Limb>)
    requires result.Length == 4 && product.Length == 8
    modifies result
    ensures Val(result) == Num(product[..]) % P256
  {
    hide Num, Words, Quotient;
    ghost var c8, c9, c10, c11 := Lo(product[4]), Hi(product[4]), Lo(product[5]), Hi(product[5]);
    ghost var c12, c13, c14, c15 := Lo(product[6]), Hi(product[6]), Lo(product[7]), Hi(product[7]);
    ghost var n, q := Num(product[..]), Quotient(c8, c9, c10, c11, c12, c13, c14, c15);
    Num8(product[..]);
    assert product[..][..4] == product[0..4];
    WordsValue(product[..][4..], c8, c9, c10, c11, c12, c13, c14, c15);
    ShuffledTerms(c8, c9, c10, c11, c12, c13, c14, c15);
    var tmp := new Limb[NUM_ECC_DIGITS];
    var curveP := Load(CURVE_P);
    CurvePValue();
    assert curveP[0..4] == curveP[..];
    var carry := AddDoubledTerms(result, product, tmp);
    carry := AddTerms(result, product, tmp, carry);
    carry := SubTerms(result, product, tmp, carry);
    assert Val(result) + carry * TWO_256 == n - q * P256;
    CongIntro(n - q * P256, n, -q, P256);
    Correct(result, curveP, carry);
  }
}
