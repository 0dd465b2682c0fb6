/** Modular multiplication by shifting and subtracting multiples of the modulus. */
module ModMult {
  import opened Arith
  import opened Bits
  import opened Limbs
  import opened Vli
  import opened VliMul

  /** The 512-bit number in an eight-limb array. */
  function Wide(a: array<Limb>): (n: nat)
    requires a.Length == 8
    reads a
  {
    Num(a[..])
  }

  lemma {:induction false} Halves(a: array<Limb>)
    requires a.Length == 8
    ensures Wide(a) == Val(a) + TWO_256 * Val(a, 4)
    ensures Val(a) < TWO_256 && Val(a, 4) < TWO_256
  {
    assert a[..][..4] == a[0..4] && a[..][4..] == a[4..8];
    Num8(a[..]);
    NumBound4(a[0..4]);
    NumBound4(a[4..8]);
  }

  lemma {:induction false} Pow256()
    ensures Pow(2, 256) == TWO_256
  {
    PowOfPow(4);
    PowBase();
  }

  lemma {:induction false} BitLenWide(lo: nat, hi: nat)
    requires lo < TWO_256
    ensures BitLen(lo + TWO_256 * hi) == if hi > 0 then 256 + BitLen(hi) else BitLen(lo)
  {
    hide Pow;
    Pow256();
    if hi > 0 {
      BitLenOfSum(lo, hi, 256);
    }
  }

  method NumBitsWide(a: array<Limb>) returns (bits: nat)
    requires a.Length == 8
    ensures bits == BitLen(Wide(a))
  {
    hide Num, BitLen;
    Halves(a);
    BitLenWide(Val(a), Val(a, 4));
    BitLenPositive(Val(a, 4));
    bits := NumBits(a, 4);
    if bits != 0 {
      bits := bits + NUM_ECC_DIGITS * 64;
    } else {
      bits := NumBits(a, 0);
    }
  }

  lemma {:induction false} BitLenPositive(n: nat)
    ensures BitLen(n) > 0 <==> n > 0
  {}

  lemma {:induction false} NumZeroPrefix(z: seq<Limb>, s: seq<Limb>)
    requires forall i :: 0 <= i < |z| ==> z[i] == 0
    ensures Num(z + s) == Pow(BASE, |z|) * Num(s)
  {
    NumZeros(z);
    NumConcat(z, s);
  }

  lemma {:induction false} NumZeroSuffix(s: seq<Limb>, z: seq<Limb>)
    requires forall i :: 0 <= i < |z| ==> z[i] == 0
    ensures Num(s + z) == Num(s)
  {
    NumZeros(z);
    NumConcat(s, z);
  }

  /** A window w with the limb c above it, zeros elsewhere. */
  lemma {:induction false} WindowValue(s: seq<Limb>, d: nat, w: seq<Limb>, c: Limb)
    requires |w| == 4 && d + 4 <= |s| && s[d..d + 4] == w
    requires forall i :: 0 <= i < |s| && !(d <= i <= d + 4) ==> s[i] == 0
    requires if d + 4 < |s| then s[d + 4] == c else c == 0
    ensures Num(s) == Pow(BASE, d) * (Num(w) + c * TWO_256)
  {
    hide Num, Pow;
    PowBase();
    var z, u := s[..d], s[d..];
    assert s == z + u;
    NumZeroPrefix(z, u);
    if d + 4 < |s| {
      assert u == (w + [c]) + s[d + 5..];
      NumZeroSuffix(w + [c], s[d + 5..]);
      NumSnoc(w, c);
    } else {
      assert u == w;
    }
  }

  /** multiple = m * 2^shift. The limbs written stay inside the buffer exactly for shifts of at most 256 bits. */
  method ShiftedModulus(m: array<Limb>, shift: nat) returns (multiple: array<Limb>, fits: bool)
    requires m.Length == 4
    ensures fresh(multiple) && multiple.Length == 8
    ensures fits <==> shift <= 256
    ensures fits ==> Wide(multiple) == Val(m) * Pow(2, shift)
  {
    hide Num, Pow;
    multiple := new Limb[8];
    Clear(multiple);
    Clear(multiple, 4);
    var digits, bits := shift / 64, shift % 64;
    var top := if bits != 0 then digits + NUM_ECC_DIGITS else digits + NUM_ECC_DIGITS - 1;
    fits := top < multiple.Length;
    if !fits {
      return;
    }
    PowOfPow(digits);
    PowAdd(2, 64 * digits, bits);
    ghost var carry := 0;
    if bits != 0 {
      var out := Lshift(multiple, m, bits, digits, 0);
      multiple[top] := out;
      carry := out;
    } else {
      Set(multiple, m, digits, 0);
      PowZero();
    }
    WindowIs(multiple, digits, carry, Val(m) * Pow(2, bits));
    assert Pow(BASE, digits) * (Val(m) * Pow(2, bits)) == Val(m) * (Pow(BASE, digits) * Pow(2, bits));
  }

  lemma {:induction false} PowZero()
    ensures Pow(2, 0) == 1
  {}

  lemma {:induction false} WindowIs(a: array<Limb>, d: nat, c: Limb, n: int)
    requires a.Length == 8 && d + 4 <= 8
    requires forall i :: 0 <= i < 8 && !(d <= i <= d + 4) ==> a[i] == 0
    requires if d + 4 < 8 then a[d + 4] == c else c == 0
    requires Val(a, d) + c * TWO_256 == n
    ensures Wide(a) == Pow(BASE, d) * n
  {
    hide Num, Pow;
    assert a[..][d..d + 4] == a[d..d + 4];
    WindowValue(a[..], d, a[d..d + 4], c);
  }

  /** Whether left <= right. */
  method AtMostWide(left: array<Limb>, right: array<Limb>) returns (le: bool)
    requires left.Length == right.Length == 8
    ensures le <==> Wide(left) <= Wide(right)
  {
    hide Num;
    Halves(left);
    Halves(right);
    var high := Cmp(left, right, NUM_ECC_DIGITS, NUM_ECC_DIGITS);
    var low := Cmp(left, right);
    le := high < 0 || (high == 0 && low <= 0);
  }

  /** Subtracts from the high half alone. */
  method SubHigh(left: array<Limb>, right: array<Limb>, ro: nat)
    requires left.Length == 8 && ro + 4 <= right.Length && left != right
    requires Val(right, ro) <= Val(left, 4)
    modifies left
    ensures Val(left) == old(Val(left)) && Val(left, 4) == old(Val(left, 4)) - Val(right, ro)
  {
    hide Num;
    NumBound4(left[4..8]);
    var _ := Sub(left, left, right, NUM_ECC_DIGITS, NUM_ECC_DIGITS, ro);
    NumBound4(left[4..8]);
    assert left[0..4] == old(left[0..4]);
  }

  /** left = left - right, borrowing from the high half through the number 1. */
  method SubWide(left: array<Limb>, right: array<Limb>, one: array<Limb>)
    requires left.Length == right.Length == 8 && one.Length == 4 && left != right
    requires Val(one) == 1 && Wide(right) <= Wide(left)
    modifies left
    ensures Wide(left) == old(Wide(left)) - Wide(right)
  {
    hide Num;
    Halves(left);
    Halves(right);
    var borrow := Sub(left, left, right);
    assert left[4..8] == old(left[4..8]);
    if borrow != 0 {
      NumBound4(left[0..4]);
      SubHigh(left, one, 0);
    }
    SubHigh(left, right, NUM_ECC_DIGITS);
    Halves(left);
  }

  method HalveHalves(a: array<Limb>)
    requires a.Length == 8
    modifies a
    ensures Val(a) == old(Val(a)) / 2 && Val(a, 4) == old(Val(a, 4)) / 2
  {
    hide Num;
    Rshift1(a, NUM_ECC_DIGITS);
    assert a[0..4] == old(a[0..4]);
    ghost var high := a[4..8];
    Rshift1(a);
    assert a[4..8] == high;
  }

  /** a = a / 2 across the halves. */
  method HalveWide(a: array<Limb>)
    requires a.Length == 8
    modifies a
    ensures Wide(a) == old(Wide(a)) / 2
  {
    hide Num, BitAnd, BitOr;
    ghost var lo, hi := Val(a), Val(a, 4);
    Halves(a);
    LowBit(a[4]);
    ParityOfLimbs(a[4..8]);
    var carry: Limb := (BitAnd(a[4], 1) * 0x8000_0000_0000_0000) % BASE;
    HalveHalves(a);
    OrCarry(a, carry);
    Halves(a);
    HalfOfSum(lo, hi);
  }

  /** Enters the carry from the high half as the top bit of the low half. */
  method OrCarry(a: array<Limb>, carry: Limb)
    requires a.Length == 8 && Val(a) < TWO_256 / 2 && (carry == 0 || carry == 0x8000_0000_0000_0000)
    modifies a
    ensures Val(a) == old(Val(a)) + (if carry == 0 then 0 else TWO_256 / 2) && Val(a, 4) == old(Val(a, 4))
  {
    hide Num, BitOr;
    ghost var s, high := a[0..4], a[4..8];
    OrTopBit(s, carry);
    a[NUM_ECC_DIGITS - 1] := BitOr(a[NUM_ECC_DIGITS - 1], carry);
    assert a[0..4] == s[..3] + [BitOr(s[3], carry)] && a[4..8] == high;
  }

  lemma {:induction false} HalfOfSum(lo: nat, hi: nat)
    ensures (lo + TWO_256 * hi) / 2 == lo / 2 + (hi % 2) * (TWO_256 / 2) + TWO_256 * (hi / 2)
  {}

  lemma {:induction false} OrTopBit(s: seq<Limb>, carry: Limb)
    requires |s| == 4 && Num(s) < TWO_256 / 2
    requires carry == 0 || carry == 0x8000_0000_0000_0000
    ensures BitOr(s[3], carry) < BASE
    ensures Num(s[..3] + [BitOr(s[3], carry)]) == Num(s) + (if carry == 0 then 0 else TWO_256 / 2)
  {
    hide Num, BitOr;
    TopLimbSmall(s);
    if carry == 0 {
      OrZero(s[3]);
      assert s[..3] + [s[3]] == s;
    } else {
      TopBitStaysLimb(s[3]);
      TopBit(s, s[..3] + [BitOr(s[3], carry)]);
    }
  }

  /** What the subtraction loop keeps: bits counts down to the length of m. */
  ghost predicate Inv(product: nat, multiple: nat, bits: int, target: nat, m: nat) {
    && m > 0
    && Cong(product, target, m)
    && bits >= BitLen(m) - 1
    && (if bits >= BitLen(m)
        then multiple == m * Pow(2, bits - BitLen(m)) && product < 2 * multiple
        else multiple == m / 2 && product < m)
  }

  lemma {:induction false} Start(target: nat, m: nat, multiple: nat)
    requires m > 0 && BitLen(target) >= BitLen(m)
    requires multiple == m * Pow(2, BitLen(target) - BitLen(m))
    ensures Inv(target, multiple, BitLen(target), target, m)
  {
    hide BitLen, Pow;
    var k := BitLen(target) - BitLen(m);
    BitLenBounds(target);
    BitLenBounds(m);
    BitLenPositive(m);
    PowPositive(2, k);
    MulLe(Pow(2, BitLen(m) - 1), m, Pow(2, k));
    PowAdd(2, BitLen(m) - 1, k);
    assert Pow(2, BitLen(target)) == 2 * Pow(2, BitLen(target) - 1) by { PowAdd(2, 1, BitLen(target) - 1); PowOne(); }
  }

  lemma {:induction false} PowOne()
    ensures Pow(2, 1) == 2
  {}

  /** One iteration: subtract when it fits, halve the multiple. */
  lemma {:induction false} Step(product: nat, multiple: nat, bits: int, target: nat, m: nat)
    requires Inv(product, multiple, bits, target, m) && bits >= BitLen(m)
    ensures var rest := if multiple <= product then product - multiple else product;
            Inv(rest, multiple / 2, bits - 1, target, m)
  {
    hide BitLen;
    var k := bits - BitLen(m);
    if multiple <= product {
      CongIntro(product - multiple, product, -Pow(2, k), m);
    }
    if k > 0 {
      Regroup(m, Pow(2, k - 1));
    }
  }

  /** The loop guard sees that the multiple is not yet below m. */
  lemma {:induction false} Guard(product: nat, multiple: nat, bits: int, target: nat, m: nat)
    requires Inv(product, multiple, bits, target, m) && m < TWO_256
    ensures bits <= 256 ==> multiple < TWO_256
    ensures bits > 256 || multiple >= m <==> bits >= BitLen(m)
  {
    hide BitLen, Pow;
    Pow256();
    BitLenBounds(m);
    BitLenLe(m, 256);
    if bits >= BitLen(m) {
      var k := bits - BitLen(m);
      PowPositive(2, k);
      MulLe(1, Pow(2, k), m);
      MulLt(m, Pow(2, BitLen(m)), Pow(2, k));
      PowAdd(2, BitLen(m), k);
      if bits <= 256 {
        PowMonotone(2, bits, 256);
      }
    }
  }

  method SubtractAndHalve(product: array<Limb>, multiple: array<Limb>, one: array<Limb>)
    requires product.Length == multiple.Length == 8 && one.Length == 4 && product != multiple
    requires Val(one) == 1
    modifies product, multiple
    ensures Wide(product) ==
            if old(Wide(multiple) <= Wide(product)) then old(Wide(product) - Wide(multiple)) else old(Wide(product))
    ensures Wide(multiple) == old(Wide(multiple)) / 2
  {
    hide Num;
    var fits := AtMostWide(multiple, product);
    if fits {
      SubWide(product, multiple, one);
    }
    HalveWide(multiple);
  }

  /** The subtraction loop, from product and multiple to the residue in product. */
  method SubtractMultiples(product: array<Limb>, multiple: array<Limb>, m: array<Limb>, one: array<Limb>, bitCount: nat,
                           ghost target: nat)
    requires product.Length == multiple.Length == 8 && m.Length == one.Length == 4 && product != multiple
    requires Val(one) == 1 && Inv(Wide(product), Wide(multiple), bitCount, target, Val(m))
    modifies product, multiple
    ensures Wide(product) < Val(m) && Cong(Wide(product), target, Val(m))
  {
    hide Num, BitLen, Pow, Inv, Cong;
    var bits: int := bitCount;
    ghost var n := Val(m);
    NumBound4(m[0..4]);
    Halves(multiple);
    Guard(Wide(product), Wide(multiple), bits, target, n);
    var cmp := Cmp(multiple, m);
    while bits > NUM_ECC_DIGITS * 64 || cmp >= 0
      invariant Val(m) == n && Val(one) == 1
      invariant Inv(Wide(product), Wide(multiple), bits, target, n)
      invariant bits > 256 || cmp >= 0 <==> bits >= BitLen(n)
      decreases bits
    {
      Step(Wide(product), Wide(multiple), bits, target, n);
      SubtractAndHalve(product, multiple, one);
      bits := bits - 1;
      Halves(multiple);
      Guard(Wide(product), Wide(multiple), bits, target, n);
      cmp := Cmp(multiple, m);
    }
    Done(Wide(product), Wide(multiple), bits, target, n);
  }

  lemma {:induction false} Done(product: nat, multiple: nat, bits: int, target: nat, m: nat)
    requires Inv(product, multiple, bits, target, m) && bits < BitLen(m)
    ensures m > 0 && product < m && Cong(product, target, m)
  {}

  /** result = left * right mod m. The shifted modulus stays inside its buffer exactly when the product is at most
      256 bits longer than the modulus. */
  method Multiply(result: array<Limb>, left: array<Limb>, right: array<Limb>, m: array<Limb>) returns (inBounds: bool)
    requires result.Length == left.Length == right.Length == m.Length == 4 && result != m
    requires Val(m) > 0
    modifies result
    ensures inBounds <==> BitLen(old(Val(left)) * old(Val(right))) <= BitLen(Val(m)) + 256
    ensures inBounds ==> Val(result) == (old(Val(left)) * old(Val(right))) % Val(m)
  {
    hide Num, BitLen, Pow, Inv;
    ghost var n, target := Val(m), Val(left) * Val(right);
    var modBits := NumBits(m);
    var product := new Limb[8];
    Mult(product, left, right);
    var productBits := NumBitsWide(product);
    NumBound4(m[0..4]);
    inBounds := true;
    if productBits < modBits {
      Shorter(target, n);
    } else {
      var multiple;
      multiple, inBounds := ShiftedModulus(m, productBits - modBits);
      if !inBounds {
        return;
      }
      Start(target, n, Wide(multiple));
      Clear(result);
      result[0] := 1;
      One(result[0..4]);
      SubtractMultiples(product, multiple, m, result, productBits, target);
    }
    Halves(product);
    DivModUnique(Wide(product), 0, Wide(product), n);
    Set(result, product);
  }

  lemma {:induction false} Shorter(x: nat, m: nat)
    requires BitLen(x) < BitLen(m)
    ensures x < m
  {
    BitLenBounds(x);
    BitLenBounds(m);
    BitLenPositive(m);
    PowMonotone(2, BitLen(x), BitLen(m) - 1);
  }

  /** Any modulus of full length admits every pair of operands. */
  lemma {:induction false} FullLengthModulus(l: nat, r: nat, m: nat)
    requires l < TWO_256 && r < TWO_256 && TWO_256 / 2 <= m < TWO_256
    ensures BitLen(l * r) <= BitLen(m) + 256
  {
    hide BitLen, Pow;
    ProductBelow(l, r, TWO_256);
    Pow256();
    PowAdd(2, 256, 256);
    PowAdd(2, 1, 255);
    PowOne();
    BitLenLe(l * r, 512);
    BitLenUnique(m, 256);
  }
}
