/** Big-endian byte strings and limb arrays. */
module EccBytes {
  import opened Arith
  import opened Bits
  import opened Limbs
  import opened Vli

  type Byte = b: int | 0 <= b < 256

  /** The number a byte string denotes, most significant byte first. */
  function BigEndian(s: seq<Byte>): (n: nat) {
    if s == [] then 0 else BigEndian(s[..|s| - 1]) * 256 + s[|s| - 1]
  }

  lemma {:induction false} BigEndianConcat(s: seq<Byte>, t: seq<Byte>)
    ensures BigEndian(s + t) == BigEndian(s) * Pow(256, |t|) + BigEndian(t)
  {
    if t == [] {
      assert s + t == s;
    } else {
      var u := t[..|t| - 1];
      assert (s + t)[..|s + t| - 1] == s + u;
      BigEndianConcat(s, u);
      Rescale(BigEndian(s), Pow(256, |u|));
    }
  }

  lemma {:induction false} Rescale(a: int, p: int)
    ensures (a * p) * 256 == a * (256 * p)
  {}

  lemma {:induction false} BigEndianBound(s: seq<Byte>)
    ensures BigEndian(s) < Pow(256, |s|)
  {
    if s != [] {
      BigEndianBound(s[..|s| - 1]);
    }
  }

  lemma {:induction false} Pow256To8()
    ensures Pow(256, 8) == BASE
  {
    assert Pow(256, 4) == 0x1_0000_0000;
    PowAdd(256, 4, 4);
  }

  /** Shifting a value left by a byte position and or-ing in a smaller one. */
  lemma {:induction false} OrBytes(hi: nat, lo: nat, k: nat, p: nat)
    requires p == Pow(2, k) && lo < p
    ensures BitOr(hi * p, lo) == hi * p + lo
  {
    OrDisjoint(hi, lo, k);
  }

  lemma {:induction false} BytePowers()
    ensures Pow(2, 8) == 0x100 && Pow(2, 16) == 0x1_0000 && Pow(2, 24) == 0x100_0000 && Pow(2, 32) == 0x1_0000_0000
    ensures Pow(2, 40) == 0x100_0000_0000 && Pow(2, 48) == 0x1_0000_0000_0000 && Pow(2, 56) == 0x100_0000_0000_0000
  {
    assert Pow(2, 8) == 256;
    PowAdd(2, 8, 8);
    PowAdd(2, 16, 8);
    PowAdd(2, 16, 16);
    PowAdd(2, 32, 8);
    PowAdd(2, 32, 16);
    PowAdd(2, 32, 24);
  }

  /** Byte i of d as a number. */
  function Digit(d: seq<Byte>, i: nat): (n: nat)
    requires i < |d|
    ensures n < 256
  {
    d[i]
  }

  /** The limb of eight bytes, the first of them most significant. */
  function LimbOf(d: seq<Byte>): (n: nat)
    requires |d| == 8
  {
    BitOr(BitOr(BitOr(BitOr(BitOr(BitOr(BitOr(
      Digit(d, 0) * 0x100_0000_0000_0000, Digit(d, 1) * 0x1_0000_0000_0000), Digit(d, 2) * 0x100_0000_0000),
      Digit(d, 3) * 0x1_0000_0000), Digit(d, 4) * 0x100_0000), Digit(d, 5) * 0x1_0000), Digit(d, 6) * 0x100), Digit(d, 7))
  }

  lemma {:induction false} BigEndianSnoc(d: seq<Byte>, k: nat)
    requires k < |d|
    ensures BigEndian(d[..k + 1]) == BigEndian(d[..k]) * 256 + Digit(d, k)
  {
    assert d[..k + 1][..k] == d[..k];
  }

  lemma {:induction false} BigEndian8(d: seq<Byte>)
    requires |d| == 8
    ensures BigEndian(d) == ((((((Digit(d, 0) * 256 + Digit(d, 1)) * 256 + Digit(d, 2)) * 256 + Digit(d, 3)) * 256
                            + Digit(d, 4)) * 256 + Digit(d, 5)) * 256 + Digit(d, 6)) * 256 + Digit(d, 7)
  {
    hide BigEndian, Digit;
    EmptyValues();
    BigEndianSnoc(d, 0);
    BigEndianSnoc(d, 1);
    BigEndianSnoc(d, 2);
    BigEndianSnoc(d, 3);
    BigEndianSnoc(d, 4);
    BigEndianSnoc(d, 5);
    BigEndianSnoc(d, 6);
    BigEndianSnoc(d, 7);
    assert d[..8] == d && d[..0] == [];
  }

  lemma {:induction false} LimbOfIs(d: seq<Byte>)
    requires |d| == 8
    ensures LimbOf(d) == BigEndian(d) < BASE
  {
    hide BitOr, Pow, BigEndian, Digit;
    BytePowers();
    BigEndian8(d);
    BigEndianBound(d);
    Pow256To8();
    var h1 := Digit(d, 0) * 256 + Digit(d, 1);
    var h2 := h1 * 256 + Digit(d, 2);
    var h3 := h2 * 256 + Digit(d, 3);
    var h4 := h3 * 256 + Digit(d, 4);
    var h5 := h4 * 256 + Digit(d, 5);
    var h6 := h5 * 256 + Digit(d, 6);
    OrBytes(Digit(d, 0), Digit(d, 1) * 0x1_0000_0000_0000, 56, 0x100_0000_0000_0000);
    OrBytes(h1, Digit(d, 2) * 0x100_0000_0000, 48, 0x1_0000_0000_0000);
    OrBytes(h2, Digit(d, 3) * 0x1_0000_0000, 40, 0x100_0000_0000);
    OrBytes(h3, Digit(d, 4) * 0x100_0000, 32, 0x1_0000_0000);
    OrBytes(h4, Digit(d, 5) * 0x1_0000, 24, 0x100_0000);
    OrBytes(h5, Digit(d, 6) * 0x100, 16, 0x1_0000);
    OrBytes(h6, Digit(d, 7), 8, 0x100);
  }

  /** native = the 32-byte big-endian number. */
  method Bytes2Native(native: array<Limb>, bytes: seq<Byte>)
    requires native.Length == 4 && |bytes| == 32
    modifies native
    ensures Val(native) == BigEndian(bytes)
  {
    hide Num, LimbOf;
    for i := 0 to NUM_ECC_DIGITS
      invariant forall k :: 0 <= k < i ==> native[k] == BigEndian(bytes[8 * (3 - k)..8 * (3 - k) + 8])
    {
      var digit := bytes[8 * (NUM_ECC_DIGITS - 1 - i)..8 * (NUM_ECC_DIGITS - 1 - i) + 8];
      LimbOfIs(digit);
      native[i] := LimbOf(digit);
    }
    FourLimbs(native[0..4], bytes);
  }

  lemma {:induction false} FourLimbs(s: seq<Limb>, bytes: seq<Byte>)
    requires |s| == 4 && |bytes| == 32
    requires s[0] == BigEndian(bytes[24..32]) && s[1] == BigEndian(bytes[16..24])
    requires s[2] == BigEndian(bytes[8..16]) && s[3] == BigEndian(bytes[0..8])
    ensures Num(s) == BigEndian(bytes)
  {
    hide Num, BigEndian;
    Num4(s);
    Pow256To8();
    assert bytes[0..16] == bytes[0..8] + bytes[8..16];
    assert bytes[0..24] == bytes[0..16] + bytes[16..24];
    assert bytes == bytes[0..24] + bytes[24..32];
    BigEndianConcat(bytes[0..8], bytes[8..16]);
    BigEndianConcat(bytes[0..16], bytes[16..24]);
    BigEndianConcat(bytes[0..24], bytes[24..32]);
  }

  /** The eight bytes of a limb, most significant first. */
  function BytesOf(x: Limb): (d: seq<Byte>)
    ensures |d| == 8
  {
    [(x / 0x100_0000_0000_0000) % 256, (x / 0x1_0000_0000_0000) % 256, (x / 0x100_0000_0000) % 256,
     (x / 0x1_0000_0000) % 256, (x / 0x100_0000) % 256, (x / 0x1_0000) % 256, (x / 0x100) % 256, x % 256]
  }

  lemma {:induction false} BaseStep(x: nat, p: nat)
    requires p == 1 || p == 0x100 || p == 0x1_0000 || p == 0x100_0000 || p == 0x1_0000_0000 || p == 0x100_0000_0000
          || p == 0x1_0000_0000_0000
    ensures x / p == (x / (p * 256)) * 256 + (x / p) % 256
  {
    assert (x / p) / 256 == x / (p * 256);
  }

  lemma {:induction false} DigitsOf(x: Limb, d: seq<Byte>)
    requires d == BytesOf(x)
    ensures Digit(d, 0) == (x / 0x100_0000_0000_0000) % 256 && Digit(d, 1) == (x / 0x1_0000_0000_0000) % 256
    ensures Digit(d, 2) == (x / 0x100_0000_0000) % 256 && Digit(d, 3) == (x / 0x1_0000_0000) % 256
    ensures Digit(d, 4) == (x / 0x100_0000) % 256 && Digit(d, 5) == (x / 0x1_0000) % 256
    ensures Digit(d, 6) == (x / 0x100) % 256 && Digit(d, 7) == x % 256
  {}

  lemma {:induction false} HornerOf(x: nat, q1: nat, q2: nat, q3: nat, q4: nat, q5: nat, q6: nat, q7: nat)
    requires x == q1 * 256 + x % 256 && q1 == q2 * 256 + q1 % 256 && q2 == q3 * 256 + q2 % 256
    requires q3 == q4 * 256 + q3 % 256 && q4 == q5 * 256 + q4 % 256 && q5 == q6 * 256 + q5 % 256
    requires q6 == q7 * 256 + q6 % 256 && q7 < 256
    ensures x == ((((((q7 % 256 * 256 + q6 % 256) * 256 + q5 % 256) * 256 + q4 % 256) * 256
                + q3 % 256) * 256 + q2 % 256) * 256 + q1 % 256) * 256 + x % 256
  {
    assert q7 % 256 == q7;
  }

  lemma {:induction false} BytesOfIs(x: Limb)
    ensures BigEndian(BytesOf(x)) == x
  {
    hide BigEndian, BytesOf, Digit;
    var d := BytesOf(x);
    BigEndian8(d);
    DigitsOf(x, d);
    BaseStep(x, 1);
    BaseStep(x, 0x100);
    BaseStep(x, 0x1_0000);
    BaseStep(x, 0x100_0000);
    BaseStep(x, 0x1_0000_0000);
    BaseStep(x, 0x100_0000_0000);
    BaseStep(x, 0x1_0000_0000_0000);
    HornerOf(x, x / 0x100, x / 0x1_0000, x / 0x100_0000, x / 0x1_0000_0000, x / 0x100_0000_0000,
             x / 0x1_0000_0000_0000, x / 0x100_0000_0000_0000);
  }

  /** The 32 bytes that Bytes2Native reads back. */
  method Native2Bytes(native: array<Limb>) returns (bytes: seq<Byte>)
    requires native.Length == 4
    ensures |bytes| == 32 && BigEndian(bytes) == Val(native)
  {
    hide Num, BytesOf, BigEndian;
    var i := NUM_ECC_DIGITS;
    ghost var s := native[0..4];
    bytes := [];
    assert s[4..] == [];
    EmptyValues();
    while i > 0
      invariant 0 <= i <= 4
      invariant |bytes| == 8 * (4 - i) && BigEndian(bytes) == Num(s[i..])
    {
      i := i - 1;
      BytesOfIs(native[i]);
      BigEndianConcat(bytes, BytesOf(native[i]));
      Pow256To8();
      NumSuffix(s, i);
      bytes := bytes + BytesOf(native[i]);
    }
    assert s[0..] == s;
  }

  lemma {:induction false} EmptyValues()
    ensures BigEndian([]) == 0 == Num([])
  {}
}
