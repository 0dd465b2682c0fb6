/** The in-place four-limb routines of ecc.c. A pointer into a limb array is the array
    together with the offset of the window; result and operand windows may coincide. */
module Vli {
  import opened Arith
  import opened Bits
  import opened Limbs

  /** The number in the four-limb window of a at offset o. */
  function Val(a: array<Limb>, o: nat := 0): (n: nat)
    requires o + 4 <= a.Length
    reads a
  {
    Num(a[o..o + 4])
  }

  /** Two windows are the same or do not overlap. */
  ghost predicate SameOrApart(a: array<Limb>, ao: nat, b: array<Limb>, bo: nat) {
    a == b ==> ao == bo || ao + 4 <= bo || bo + 4 <= ao
  }

  /** a holds what it held before outside the window at o. */
  twostate predicate OnlyWindow(a: array<Limb>, o: nat)
    reads a
  {
    forall k :: 0 <= k < a.Length && !(o <= k < o + 4) ==> a[k] == old(a[k])
  }

  method Clear(vli: array<Limb>, o: nat := 0)
    requires o + 4 <= vli.Length
    modifies vli
    ensures Val(vli, o) == 0 && OnlyWindow(vli, o)
    ensures forall k :: o <= k < o + 4 ==> vli[k] == 0
  {
    for i := 0 to NUM_ECC_DIGITS
      invariant forall k :: o <= k < o + i ==> vli[k] == 0
      invariant OnlyWindow(vli, o)
    {
      vli[o + i] := 0;
    }
    NumZeros(vli[o..o + 4]);
  }

  method IsZero(vli: array<Limb>, o: nat := 0) returns (zero: bool)
    requires o + 4 <= vli.Length
    ensures zero <==> Val(vli, o) == 0
  {
    var i := 0;
    while i < NUM_ECC_DIGITS
      invariant 0 <= i <= 4
      invariant forall k :: o <= k < o + i ==> vli[k] == 0
    {
      if vli[o + i] != 0 {
        Num4(vli[o..o + 4]);
        return false;
      }
      i := i + 1;
    }
    NumZeros(vli[o..o + 4]);
    return true;
  }

  lemma {:induction false} AndSingleBit(x: nat, k: nat)
    ensures Pow(2, k) > 0 && (BitAnd(x, Pow(2, k)) != 0 <==> Bit(x, k) == 1)
  {
    hide BitAnd, Pow, Bit;
    var p := Pow(2, k);
    PowPositive(2, k);
    var q, r := x / p, x % p;
    assert x == q * p + r;
    AndShifted(q, r, 1, k);
    LowBit(q);
    BitValue(x, k);
    MulZero(BitAnd(q, 1), p);
  }

  lemma {:induction false} MulZero(a: int, p: int)
    requires p > 0
    ensures a * p != 0 <==> a != 0
  {}

  method TestBit(vli: array<Limb>, bit: nat) returns (isSet: bool)
    requires vli.Length == 4 && bit < 256
    ensures isSet <==> Bit(Val(vli), bit) == 1
  {
    var x, k := vli[bit / 64], bit % 64;
    PowPositive(2, k);
    isSet := BitAnd(x, Pow(2, k)) != 0;
    AndSingleBit(x, k);
    assert vli[..] == vli[0..4];
    NumBit(vli[..], bit);
  }

  /** Counts the bits of the window by its highest nonzero limb. */
  method NumBits(vli: array<Limb>, o: nat := 0) returns (bits: nat)
    requires o + 4 <= vli.Length
    ensures bits == BitLen(Val(vli, o)) && bits <= 256
  {
    ghost var s := vli[o..o + 4];
    var i := NUM_ECC_DIGITS - 1;
    while i >= 0 && vli[o + i] == 0
      invariant -1 <= i < 4
      invariant Num(s[i + 1..]) == 0
    {
      NumSuffix(s, i);
      i := i - 1;
    }
    PowBase();
    if i < 0 {
      return 0;
    }
    var digit, n := vli[o + i], 0;
    while digit > 0
      invariant digit >= 0
      invariant n + BitLen(digit) == BitLen(s[i])
    {
      digit := digit / 2;
      n := n + 1;
    }
    NumSplit(s, i);
    NumSuffix(s, i);
    assert Num(s) == Num(s[..i]) + Pow(BASE, i) * s[i];
    NumBound(s[..i]);
    PowOfPow(i);
    BitLenOfSum(Num(s[..i]), s[i], 64 * i);
    Pow64();
    BitLenLe(s[i], 64);
    bits := i * 64 + n;
  }

  lemma {:induction false} PowOfPow(i: nat)
    ensures Pow(BASE, i) == Pow(2, 64 * i)
  {
    if i > 0 {
      PowOfPow(i - 1);
      Pow64();
      PowAdd(2, 64, 64 * (i - 1));
    }
  }

  lemma {:induction false} BitLenOfSum(lo: nat, hi: nat, k: nat)
    requires lo < Pow(2, k) && hi > 0
    ensures Pow(2, k) * hi > 0 && BitLen(lo + Pow(2, k) * hi) == k + BitLen(hi)
  {
    if k > 0 {
      BitLenOfSum(lo / 2, hi, k - 1);
      BitLenDouble(lo, Pow(2, k - 1) * hi);
      Regroup(hi, Pow(2, k - 1));
    }
  }

  lemma {:induction false} BitLenDouble(lo: nat, y: nat)
    requires y > 0
    ensures BitLen(lo + 2 * y) == 1 + BitLen(lo / 2 + y)
  {
    assert (lo + 2 * y) / 2 == lo / 2 + y;
  }

  method Set(dest: array<Limb>, src: array<Limb>, d: nat := 0, s: nat := 0)
    requires d + 4 <= dest.Length && s + 4 <= src.Length
    requires SameOrApart(dest, d, src, s)
    modifies dest
    ensures dest[d..d + 4] == old(src[s..s + 4]) && OnlyWindow(dest, d)
  {
    ghost var w := src[s..s + 4];
    for i := 0 to NUM_ECC_DIGITS
      invariant forall k :: 0 <= k < i ==> dest[d + k] == w[k]
      invariant forall k :: i <= k < 4 ==> src[s + k] == w[k]
      invariant OnlyWindow(dest, d)
    {
      dest[d + i] := src[s + i];
    }
  }

  lemma {:induction false} HighPartDecides(x: nat, h: int, y: nat, k: int, p: int)
    requires x < p && h < k
    ensures x + p * h < y + p * k
  {
    MulLe(h + 1, k, p);
  }

  /** The highest limb in which two numbers differ decides their order. */
  lemma {:induction false} HighestLimbDecides(s: seq<Limb>, t: seq<Limb>, i: nat)
    requires |s| == |t| && i < |s| && s[i] < t[i]
    requires forall k :: i < k < |s| ==> s[k] == t[k]
    ensures Num(s) < Num(t)
  {
    assert s[i + 1..] == t[i + 1..];
    NumSplit(s, i);
    NumSplit(t, i);
    NumSuffix(s, i);
    NumSuffix(t, i);
    NumBound(s[..i]);
    HighPartDecides(Num(s[..i]), Num(s[i..]), Num(t[..i]), Num(t[i..]), Pow(BASE, i));
  }

  /** The sign of left - right. */
  method Cmp(left: array<Limb>, right: array<Limb>, lo: nat := 0, ro: nat := 0) returns (sign: int)
    requires lo + 4 <= left.Length && ro + 4 <= right.Length
    ensures sign == if Val(left, lo) > Val(right, ro) then 1 else if Val(left, lo) < Val(right, ro) then -1 else 0
  {
    hide Num, Pow;
    ghost var l, r := left[lo..lo + 4], right[ro..ro + 4];
    var i := NUM_ECC_DIGITS - 1;
    while i >= 0
      invariant -1 <= i < 4
      invariant forall k :: i < k < 4 ==> l[k] == r[k]
    {
      if left[lo + i] > right[ro + i] {
        HighestLimbDecides(r, l, i);
        return 1;
      } else if left[lo + i] < right[ro + i] {
        HighestLimbDecides(l, r, i);
        return -1;
      }
      i := i - 1;
    }
    assert l == r;
    return 0;
  }

  lemma {:induction false} ScaleStep(z: int, d: int, x: int, s: int, y: int, c: int, p: int, n: int)
    requires z + d * BASE == x + s * y + c
    ensures z * p + d * (BASE * p) == x * p + s * (n + y * p) - s * n + c * p
  {
    assert (z + d * BASE) * p == (x + s * y + c) * p;
  }

  /** One limb of a carry chain: the limbs done so far, with the carry c into position i,
      hold l + s * r on the prefix; z and the carry d out continue it. */
  lemma {:induction false} ChainStep(done: seq<Limb>, l: seq<Limb>, r: seq<Limb>, i: nat, s: int, c: int, z: Limb, d: int)
    requires |done| == i < |l| == |r|
    requires Num(done) + c * Pow(BASE, i) == Num(l[..i]) + s * Num(r[..i])
    requires z + d * BASE == l[i] + s * r[i] + c
    ensures Num(done + [z]) + d * Pow(BASE, i + 1) == Num(l[..i + 1]) + s * Num(r[..i + 1])
  {
    hide Num;
    NumSnoc(done, z);
    NumPrefix(l, i);
    NumPrefix(r, i);
    ScaleStep(z, d, l[i], s, r[i], c, Pow(BASE, i), Num(r[..i]));
  }

  lemma {:induction false} Empties(s: seq<Limb>, l: seq<Limb>, r: seq<Limb>)
    requires s == []
    ensures Num(s) == Num(l[..0]) == Num(r[..0]) == 0 && Pow(BASE, 0) == 1
  {}

  lemma {:induction false} Whole(s: seq<Limb>)
    requires |s| == 4
    ensures s[..4] == s && Pow(BASE, 4) == TWO_256
  {
    PowBase();
  }

  /** result = left + right modulo 2^256, returning the carry. */
  method Add(result: array<Limb>, left: array<Limb>, right: array<Limb>,
             o: nat := 0, lo: nat := 0, ro: nat := 0) returns (carry: Limb)
    requires o + 4 <= result.Length && lo + 4 <= left.Length && ro + 4 <= right.Length
    requires SameOrApart(result, o, left, lo) && SameOrApart(result, o, right, ro)
    modifies result
    ensures carry <= 1 && OnlyWindow(result, o)
    ensures Val(result, o) + carry * TWO_256 == old(Val(left, lo)) + old(Val(right, ro))
  {
    hide Num, Pow;
    ghost var l, r := left[lo..lo + 4], right[ro..ro + 4];
    carry := 0;
    Empties(result[o..o + 0], l, r);
    for i := 0 to NUM_ECC_DIGITS
      invariant carry <= 1
      invariant forall k :: i <= k < 4 ==> left[lo + k] == l[k] && right[ro + k] == r[k]
      invariant Num(result[o..o + i]) + carry * Pow(BASE, i) == Num(l[..i]) + 1 * Num(r[..i])
      invariant OnlyWindow(result, o)
    {
      var sum: Limb := (left[lo + i] + right[ro + i] + carry) % BASE;
      ghost var was := carry;
      if sum != left[lo + i] {
        carry := if sum < left[lo + i] then 1 else 0;
      }
      ghost var done := result[o..o + i];
      ChainStep(done, l, r, i, 1, was, sum, carry);
      result[o + i] := sum;
      assert result[o..o + i + 1] == done + [sum];
    }
    Whole(l);
    Whole(r);
  }

  /** result = left - right modulo 2^256, returning the borrow. */
  method Sub(result: array<Limb>, left: array<Limb>, right: array<Limb>,
             o: nat := 0, lo: nat := 0, ro: nat := 0) returns (borrow: Limb)
    requires o + 4 <= result.Length && lo + 4 <= left.Length && ro + 4 <= right.Length
    requires SameOrApart(result, o, left, lo) && SameOrApart(result, o, right, ro)
    modifies result
    ensures borrow <= 1 && OnlyWindow(result, o)
    ensures Val(result, o) - borrow * TWO_256 == old(Val(left, lo)) - old(Val(right, ro))
  {
    hide Num, Pow;
    ghost var l, r := left[lo..lo + 4], right[ro..ro + 4];
    borrow := 0;
    Empties(result[o..o + 0], l, r);
    for i := 0 to NUM_ECC_DIGITS
      invariant borrow <= 1
      invariant forall k :: i <= k < 4 ==> left[lo + k] == l[k] && right[ro + k] == r[k]
      invariant Num(result[o..o + i]) + -1 * borrow * Pow(BASE, i) == Num(l[..i]) + -1 * Num(r[..i])
      invariant OnlyWindow(result, o)
    {
      var diff: Limb := (left[lo + i] as int - right[ro + i] as int - borrow as int) % BASE;
      ghost var was: int := borrow;
      if diff != left[lo + i] {
        borrow := if diff > left[lo + i] then 1 else 0;
      }
      ghost var done := result[o..o + i];
      ChainStep(done, l, r, i, -1, -was, diff, -1 * borrow);
      result[o + i] := diff;
      assert result[o..o + i + 1] == done + [diff];
    }
    Whole(l);
    Whole(r);
  }

  lemma {:induction false} ShiftParts(x: Limb, p: int, q: int)
    requires p > 0 && q > 0 && p * q == BASE
    ensures x / q < p && 0 <= (x % q) * p <= BASE - p
    ensures x * p == (x / q) * BASE + (x % q) * p
  {
    var h, r := x / q, x % q;
    assert x == h * q + r;
    assert x * p == (h * q + r) * p == h * (p * q) + r * p;
    MulLe(r, q - 1, p);
    MulLe(0, r, p);
    if h >= p {
      MulLe(p, h, q);
    }
  }

  /** One limb of a left shift: the carried-out bits hi and the limb lo. */
  lemma {:induction false} ShiftStep(x: Limb, shift: nat, carry: nat) returns (hi: nat, lo: nat)
    requires 0 < shift < 64 && carry < Pow(2, shift)
    ensures Pow(2, 64 - shift) > 0 && hi == x / Pow(2, 64 - shift) && hi < Pow(2, shift)
    ensures lo == BitOr((x * Pow(2, shift)) % BASE, carry) < BASE
    ensures lo + hi * BASE == x * Pow(2, shift) + carry
  {
    hide Pow, BitOr;
    var p, q := Pow(2, shift), Pow(2, 64 - shift);
    PowPositive(2, shift);
    PowPositive(2, 64 - shift);
    PowAdd(2, shift, 64 - shift);
    Pow64();
    ShiftParts(x, p, q);
    hi := x / q;
    DivModUnique(x * p, hi, (x % q) * p, BASE);
    OrDisjoint(x % q, carry, shift);
    lo := (x % q) * p + carry;
  }

  /** result = in << shift modulo 2^256, returning the bits shifted out. */
  method Lshift(result: array<Limb>, src: array<Limb>, shift: nat, o: nat := 0, s: nat := 0) returns (carry: Limb)
    requires 0 < shift < 64
    requires o + 4 <= result.Length && s + 4 <= src.Length && SameOrApart(result, o, src, s)
    modifies result
    ensures carry < Pow(2, shift) && OnlyWindow(result, o)
    ensures Val(result, o) + carry * TWO_256 == old(Val(src, s)) * Pow(2, shift)
  {
    hide Num, Pow;
    ghost var w, p := src[s..s + 4], Pow(2, shift);
    carry := 0;
    PowPositive(2, shift);
    Empties(result[o..o + 0], w, w);
    for i := 0 to NUM_ECC_DIGITS
      invariant carry < p
      invariant forall k :: i <= k < 4 ==> src[s + k] == w[k]
      invariant Num(result[o..o + i]) + carry * Pow(BASE, i) == Num(w[..i]) * p
      invariant OnlyWindow(result, o)
    {
      var temp := src[s + i];
      ghost var was, done := carry, result[o..o + i];
      ghost var hi, lo := ShiftStep(temp, shift, carry);
      result[o + i] := BitOr((temp * Pow(2, shift)) % BASE, carry);
      carry := temp / Pow(2, 64 - shift);
      assert result[o..o + i + 1] == done + [lo];
      ShiftChain(done, w, i, p, was, lo, carry);
    }
    Whole(w);
  }

  lemma {:induction false} ShiftChain(done: seq<Limb>, w: seq<Limb>, i: nat, p: int, c: int, z: Limb, d: int)
    requires |done| == i < |w|
    requires Num(done) + c * Pow(BASE, i) == Num(w[..i]) * p
    requires z + d * BASE == w[i] * p + c
    ensures Num(done + [z]) + d * Pow(BASE, i + 1) == Num(w[..i + 1]) * p
  {
    hide Num;
    NumSnoc(done, z);
    NumPrefix(w, i);
    ScaleStep(z, d, 0, p, w[i], c, Pow(BASE, i), Num(w[..i]));
  }

  /** vli = vli >> 1. */
  method Rshift1(vli: array<Limb>, o: nat := 0)
    requires o + 4 <= vli.Length
    modifies vli
    ensures Val(vli, o) == old(Val(vli, o)) / 2 && OnlyWindow(vli, o)
  {
    hide Num, BitOr;
    ghost var w := vli[o..o + 4];
    var carry: Limb := 0;
    var i := NUM_ECC_DIGITS;
    EmptySuffixes(vli[o + 4..o + 4], w);
    while i > 0
      invariant 0 <= i <= 4
      invariant carry == 0 || carry == 0x8000_0000_0000_0000
      invariant forall k :: 0 <= k < i ==> vli[o + k] == w[k]
      invariant 2 * Num(vli[o + i..o + 4]) + (if carry == 0 then 0 else 1) == Num(w[i..])
      invariant OnlyWindow(vli, o)
    {
      i := i - 1;
      var temp := vli[o + i];
      ghost var rest, was := vli[o + i + 1..o + 4], carry;
      HalfOr(temp, carry);
      vli[o + i] := BitOr(temp / 2, carry);
      carry := (temp * 0x8000_0000_0000_0000) % BASE;
      assert vli[o + i..o + 4] == [vli[o + i]] + rest;
      HalfChain(rest, w, i, vli[o + i], was, temp);
    }
    assert w[0..] == w;
  }

  lemma {:induction false} EmptySuffixes(s: seq<Limb>, w: seq<Limb>)
    requires s == []
    ensures Num(s) == 0 == Num(w[|w|..])
  {}

  lemma {:induction false} HalfOr(x: Limb, carry: Limb)
    requires carry == 0 || carry == 0x8000_0000_0000_0000
    ensures BitOr(x / 2, carry) == x / 2 + carry
  {
    Pow64();
    OrSymmetric(x / 2, carry);
    if carry == 0 {
      OrZero(x / 2);
    } else {
      OrDisjoint(1, x / 2, 63);
    }
  }

  lemma {:induction false} HalfChain(rest: seq<Limb>, w: seq<Limb>, i: nat, z: Limb, carry: Limb, x: Limb)
    requires i < |w| && x == w[i] && z == x / 2 + carry
    requires carry == 0 || carry == 0x8000_0000_0000_0000
    requires 2 * Num(rest) + (if carry == 0 then 0 else 1) == Num(w[i + 1..])
    ensures 2 * Num([z] + rest) + x % 2 == Num(w[i..])
    ensures (x * 0x8000_0000_0000_0000) % BASE == if x % 2 == 0 then 0 else 0x8000_0000_0000_0000
  {
    assert ([z] + rest)[1..] == rest;
    NumSuffix(w, i);
  }

  /** result = (left + right) mod m, for operands whose sum exceeds m by less than 2^256;
      below m when both operands are. */
  method ModAdd(result: array<Limb>, left: array<Limb>, right: array<Limb>, m: array<Limb>)
    requires result.Length == left.Length == right.Length == m.Length == 4 && result != m
    requires Val(m) > 0
    requires Val(left) + Val(right) < TWO_256 + Val(m)
    modifies result
    ensures Cong(Val(result), old(Val(left)) + old(Val(right)), Val(m))
    ensures old(Val(left)) < Val(m) && old(Val(right)) < Val(m) ==>
              Val(result) == (old(Val(left)) + old(Val(right))) % Val(m)
  {
    hide Num, Pow;
    ghost var n, sum := Val(m), Val(left) + Val(right);
    var carry := Add(result, left, right);
    NumBound4(result[..4]);
    NumBound4(m[..4]);
    var cmp := Cmp(result, m);
    if carry != 0 || cmp >= 0 {
      var _ := Sub(result, result, m);
      NumBound4(result[..4]);
      CongIntro(sum, Val(result), 1, n);
      if sum < 2 * n {
        DivModUnique(sum, 1, sum - n, n);
      }
    } else {
      DivModUnique(sum, 0, sum, n);
    }
  }

  /** result = (left - right) mod m, for operands below m. */
  method ModSub(result: array<Limb>, left: array<Limb>, right: array<Limb>, m: array<Limb>)
    requires result.Length == left.Length == right.Length == m.Length == 4 && result != m
    requires Val(left) < Val(m) && Val(right) < Val(m)
    modifies result
    ensures Val(result) == (old(Val(left)) - old(Val(right))) % Val(m)
  {
    hide Num, Pow;
    ghost var n, diff := Val(m), Val(left) - Val(right);
    var borrow := Sub(result, left, right);
    NumBound4(result[..4]);
    NumBound4(m[..4]);
    if borrow != 0 {
      var _ := Add(result, result, m);
      NumBound4(result[..4]);
      DivModUnique(diff, -1, diff + n, n);
    } else {
      DivModUnique(diff, 0, diff, n);
    }
  }
}
