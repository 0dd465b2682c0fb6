/** Column-wise multiplication and squaring with a 192-bit accumulator (r2:r01). */
module VliMul {
  import opened Arith
  import opened Bits
  import opened Limbs
  import opened Vli

  const TWO_128 := 0x1_0000_0000_0000_0000_0000_0000_0000_0000

  function Product(x: nat, y: nat): (n: nat) {
    x * y
  }

  /** The first row that meets column k. */
  function FirstRow(k: nat): (i: nat) {
    if k < 4 then 0 else k - 3
  }

  /** The products of column k in rows FirstRow(k) up to, not including, i. */
  ghost function Column(l: seq<Limb>, r: seq<Limb>, k: nat, i: nat): (n: nat)
    requires |l| == |r| == 4 && k < 7 && FirstRow(k) <= i <= k + 1 && i <= 4
  {
    if i == FirstRow(k) then 0
    else
      Column(l, r, k, i - 1) + Product(l[i - 1], r[k - (i - 1)])
  }

  ghost function FullColumn(l: seq<Limb>, r: seq<Limb>, k: nat): (n: nat)
    requires |l| == |r| == 4 && k < 7
  {
    Column(l, r, k, if k < 4 then k + 1 else 4)
  }

  /** The columns below k, each at its weight. */
  ghost function Columns(l: seq<Limb>, r: seq<Limb>, k: nat): (n: int)
    requires |l| == |r| == 4 && k <= 7
  {
    if k == 0 then 0 else Columns(l, r, k - 1) + FullColumn(l, r, k - 1) * Pow(BASE, k - 1)
  }

  lemma {:induction false} FullColumnsLow(l: seq<Limb>, r: seq<Limb>)
    requires |l| == |r| == 4
    ensures FullColumn(l, r, 0) == Product(l[0], r[0])
    ensures FullColumn(l, r, 1) == Product(l[0], r[1]) + Product(l[1], r[0])
    ensures FullColumn(l, r, 2) == Product(l[0], r[2]) + Product(l[1], r[1]) + Product(l[2], r[0])
    ensures FullColumn(l, r, 3)
         == Product(l[0], r[3]) + Product(l[1], r[2]) + Product(l[2], r[1]) + Product(l[3], r[0])
  {
    assert forall k :: 0 <= k < 4 ==> Column(l, r, k, 0) == 0;
    assert forall k :: 0 <= k < 4 ==> Column(l, r, k, 1) == Product(l[0], r[k]);
    assert forall k :: 1 <= k < 4 ==> Column(l, r, k, 2) == Column(l, r, k, 1) + Product(l[1], r[k - 1]);
    assert forall k :: 2 <= k < 4 ==> Column(l, r, k, 3) == Column(l, r, k, 2) + Product(l[2], r[k - 2]);
  }

  lemma {:induction false} FullColumnsHigh(l: seq<Limb>, r: seq<Limb>)
    requires |l| == |r| == 4
    ensures FullColumn(l, r, 4) == Product(l[1], r[3]) + Product(l[2], r[2]) + Product(l[3], r[1])
    ensures FullColumn(l, r, 5) == Product(l[2], r[3]) + Product(l[3], r[2])
    ensures FullColumn(l, r, 6) == Product(l[3], r[3])
  {
    assert Column(l, r, 4, 1) == Column(l, r, 5, 2) == Column(l, r, 6, 3) == 0;
    assert Column(l, r, 4, 2) == Product(l[1], r[3]);
    assert Column(l, r, 4, 3) == Column(l, r, 4, 2) + Product(l[2], r[2]);
    assert Column(l, r, 5, 3) == Product(l[2], r[3]);
  }

  /** The seven columns add up to the product. */
  lemma {:induction false} ColumnsAreProduct(l: seq<Limb>, r: seq<Limb>)
    requires |l| == |r| == 4
    ensures Columns(l, r, 7) == Num(l) * Num(r)
  {
    hide Num, Column, FullColumn;
    assert Columns(l, r, 0) == 0;
    assert Columns(l, r, 1) == FullColumn(l, r, 0) * Pow(BASE, 0);
    assert Columns(l, r, 2) == Columns(l, r, 1) + FullColumn(l, r, 1) * Pow(BASE, 1);
    assert Columns(l, r, 3) == Columns(l, r, 2) + FullColumn(l, r, 2) * Pow(BASE, 2);
    assert Columns(l, r, 4) == Columns(l, r, 3) + FullColumn(l, r, 3) * Pow(BASE, 3);
    assert Columns(l, r, 5) == Columns(l, r, 4) + FullColumn(l, r, 4) * Pow(BASE, 4);
    assert Columns(l, r, 6) == Columns(l, r, 5) + FullColumn(l, r, 5) * Pow(BASE, 5);
    FullColumnsLow(l, r);
    FullColumnsHigh(l, r);
    Num4(l);
    Num4(r);
    Schoolbook4(l[0], l[1], l[2], l[3], r[0], r[1], r[2], r[3], BASE);
  }

  lemma {:induction false} Schoolbook2(a: int, x: int, e: int, y: int, B: int)
    ensures (a + B * x) * (e + B * y) == a * e + B * (a * y + e * x) + B * (B * (x * y))
  {}

  lemma {:induction false} Distribute(a: int, f: int, z: int, B: int)
    ensures a * (f + B * z) == a * f + B * (a * z)
  {}

  lemma {:induction false} Collect3(p0: int, p1: int, p2: int, q1: int, q2: int, k0: int, k1: int, k2: int, B: int)
    ensures p0 + B * ((p1 + B * p2) + (q1 + B * q2)) + B * (B * (k0 + B * k1 + B * (B * k2))) ==
            p0 + B * ((p1 + q1) + B * ((p2 + q2 + k0) + B * (k1 + B * k2)))
  {}

  lemma {:induction false} Schoolbook3(b: nat, c: nat, d: nat, f: nat, g: nat, h: nat, B: nat)
    ensures (b + B * (c + B * d)) * (f + B * (g + B * h)) ==
            b * f + B * ((b * g + f * c) + B * ((b * h + f * d + c * g) + B * ((c * h + g * d) + B * (d * h))))
  {
    var x, y := c + B * d, g + B * h;
    calc {
      (b + B * x) * (f + B * y);
      { Schoolbook2(b, x, f, y, B); }
      b * f + B * (b * y + f * x) + B * (B * (x * y));
      { Distribute(b, g, h, B); Distribute(f, c, d, B); Schoolbook2(c, d, g, h, B); }
      b * f + B * ((b * g + B * (b * h)) + (f * c + B * (f * d))) + B * (B * (c * g + B * (c * h + g * d) + B * (B * (d * h))));
      { Collect3(b * f, b * g, b * h, f * c, f * d, c * g, c * h + g * d, d * h, B); }
      b * f + B * ((b * g + f * c) + B * ((b * h + f * d + c * g) + B * ((c * h + g * d) + B * (d * h))));
    }
  }

  lemma {:induction false} Collect4(p0: int, p1: int, p2: int, p3: int, q1: int, q2: int, q3: int,
                 k0: int, k1: int, k2: int, k3: int, k4: int, B: int)
    ensures p0 + B * ((p1 + B * (p2 + B * p3)) + (q1 + B * (q2 + B * q3)))
            + B * (B * (k0 + B * (k1 + B * (k2 + B * (k3 + B * k4))))) ==
            p0 + B * ((p1 + q1) + B * ((p2 + q2 + k0) + B * ((p3 + q3 + k1) + B * (k2 + B * (k3 + B * k4)))))
  {}

  lemma {:induction false} Distribute3(a: int, f: int, g: int, h: int, B: int)
    ensures a * (f + B * (g + B * h)) == a * f + B * (a * g + B * (a * h))
  {}

  lemma {:induction false} Schoolbook4(a: nat, b: nat, c: nat, d: nat, e: nat, f: nat, g: nat, h: nat, B: nat)
    ensures (a + B * (b + B * (c + B * d))) * (e + B * (f + B * (g + B * h))) ==
            a * e + B * ((a * f + e * b) + B * ((a * g + e * c + b * f) + B * ((a * h + e * d + (b * g + f * c))
            + B * ((b * h + f * d + c * g) + B * ((c * h + g * d) + B * (d * h))))))
  {
    var x, y := b + B * (c + B * d), f + B * (g + B * h);
    calc {
      (a + B * x) * (e + B * y);
      { Schoolbook2(a, x, e, y, B); }
      a * e + B * (a * y + e * x) + B * (B * (x * y));
      { Distribute3(a, f, g, h, B); Distribute3(e, b, c, d, B); Schoolbook3(b, c, d, f, g, h, B); }
      a * e + B * ((a * f + B * (a * g + B * (a * h))) + (e * b + B * (e * c + B * (e * d))))
      + B * (B * (b * f + B * ((b * g + f * c) + B * ((b * h + f * d + c * g) + B * ((c * h + g * d) + B * (d * h))))));
      { Collect4(a * e, a * f, a * g, a * h, e * b, e * c, e * d, b * f, b * g + f * c, b * h + f * d + c * g,
                 c * h + g * d, d * h, B); }
      a * e + B * ((a * f + e * b) + B * ((a * g + e * c + b * f) + B * ((a * h + e * d + (b * g + f * c))
      + B * ((b * h + f * d + c * g) + B * ((c * h + g * d) + B * (d * h))))));
    }
  }

  lemma {:induction false} ProductBound(x: Limb, y: Limb)
    ensures Product(x, y) <= (BASE - 1) * (BASE - 1)
  {
    MulLe(x, BASE - 1, y);
  }

  lemma {:induction false} ColumnBound(l: seq<Limb>, r: seq<Limb>, k: nat, i: nat)
    requires |l| == |r| == 4 && k < 7 && FirstRow(k) <= i <= k + 1 && i <= 4
    ensures Column(l, r, k, i) <= (i - FirstRow(k)) * ((BASE - 1) * (BASE - 1))
  {
    if i > FirstRow(k) {
      ColumnBound(l, r, k, i - 1);
      ProductBound(l[i - 1], r[k - (i - 1)]);
    }
  }

  /** Moving the accumulator down one limb: the limb written and the new r01. */
  lemma {:induction false} AccumulatorShift(r01: nat, r2: nat)
    requires r01 < TWO_128 && r2 < BASE
    ensures BitOr(r01 / BASE, (r2 * BASE) % TWO_128) == r01 / BASE + r2 * BASE
    ensures r01 % BASE + BASE * (r01 / BASE + r2 * BASE) == r01 + r2 * TWO_128
  {
    Pow64();
    OrSymmetric(r01 / BASE, r2 * BASE);
    OrDisjoint(r2, r01 / BASE, 64);
  }

  /** Adding a product to the accumulator: a wrapped r01 is smaller than the product. */
  lemma {:induction false} Accumulate(r01: nat, product: nat)
    requires r01 < TWO_128 && product < TWO_128
    ensures (r01 + product) % TWO_128 + (if (r01 + product) % TWO_128 < product then 1 else 0) * TWO_128
         == r01 + product
  {}

  /** Doubling a product keeps its top bit in r2. */
  lemma {:induction false} DoubleProduct(product: nat)
    requires product < TWO_128
    ensures product / 0x8000_0000_0000_0000_0000_0000_0000_0000 <= 1
    ensures (product / 0x8000_0000_0000_0000_0000_0000_0000_0000) * TWO_128 + (product * 2) % TWO_128 == 2 * product
  {}

  /** Closing column k: the limb written and the accumulator moved down continue the columns done. */
  lemma {:induction false} CloseColumn(done: seq<Limb>, r01: nat, r2: nat, carryIn: nat, l: seq<Limb>, r: seq<Limb>, k: nat)
    requires |l| == |r| == 4 && k < 7 && |done| == k
    requires carryIn <= 4 * BASE && r01 < TWO_128 && r2 <= 6
    requires Num(done) + carryIn * Pow(BASE, k) == Columns(l, r, k)
    requires r01 + r2 * TWO_128 == carryIn + FullColumn(l, r, k)
    ensures var carry := BitOr(r01 / BASE, (r2 * BASE) % TWO_128);
            && carry <= 4 * BASE
            && Num(done + [r01 % BASE]) + carry * Pow(BASE, k + 1) == Columns(l, r, k + 1)
  {
    hide Column, BitOr;
    AccumulatorShift(r01, r2);
    ColumnBound(l, r, k, if k < 4 then k + 1 else 4);
    NumSnoc(done, r01 % BASE);
    ScaleStep(r01 % BASE, r01 / BASE + r2 * BASE, carryIn, 1, FullColumn(l, r, k), 0, Pow(BASE, k), 0);
  }

  lemma {:induction false} LastLimb(s: seq<Limb>, carry: nat, l: seq<Limb>, r: seq<Limb>)
    requires |s| == 7 && |l| == |r| == 4
    requires Num(s) + carry * Pow(BASE, 7) == Columns(l, r, 7)
    ensures carry < BASE && Num(s + [carry]) == Num(l) * Num(r)
  {
    hide Num, Pow, Columns;
    ColumnsAreProduct(l, r);
    NumBound4(l);
    NumBound4(r);
    PowPositive(BASE, 7);
    PowAdd(BASE, 7, 1);
    PowBase();
    ProductBelow(Num(l), Num(r), TWO_256);
    if carry >= BASE {
      MulLe(BASE, carry, Pow(BASE, 7));
    }
    NumSnoc(s, carry);
  }

  lemma {:induction false} ProductBelow(x: nat, y: nat, m: int)
    requires x < m && y < m
    ensures x * y < m * m
  {
    MulLe(x, m, y);
    MulLt(y, m, m);
  }

  /** The accumulator after the products of column k, rows first to last. */
  method SumColumn(left: array<Limb>, right: array<Limb>, k: nat, carryIn: nat) returns (r01: nat, r2: nat)
    requires left.Length == right.Length == 4 && k < 7 && carryIn <= 4 * BASE
    ensures r01 < TWO_128 && r2 <= 6
    ensures r01 + r2 * TWO_128 == carryIn + FullColumn(left[0..4], right[0..4], k)
  {
    hide Column, Product;
    ghost var l, r := left[0..4], right[0..4];
    r01, r2 := carryIn, 0;
    var i := FirstRow(k);
    NoRows(l, r, k);
    while i <= k && i < NUM_ECC_DIGITS
      invariant FirstRow(k) <= i <= k + 1 && i <= 4
      invariant 0 <= r01 < TWO_128 && 0 <= r2 <= i - FirstRow(k)
      invariant r01 + r2 * TWO_128 == carryIn + Column(l, r, k, i)
    {
      var product := Product(left[i], right[k - i]);
      ProductBound(left[i], right[k - i]);
      NextRow(l, r, k, i);
      Accumulate(r01, product);
      r01 := (r01 + product) % TWO_128;
      r2 := r2 + if r01 < product then 1 else 0;
      i := i + 1;
    }
  }

  /** result = left * right, all 512 bits. */
  method Mult(result: array<Limb>, left: array<Limb>, right: array<Limb>)
    requires result.Length == 8 && left.Length == right.Length == 4
    requires result != left && result != right
    modifies result
    ensures Num(result[..]) == Val(left) * Val(right)
  {
    hide Num, Pow, FullColumn, Columns, BitOr;
    ghost var l, r := left[0..4], right[0..4];
    var r01, r2 := 0, 0;
    NoColumns(result[..0], l, r);
    for k := 0 to 2 * NUM_ECC_DIGITS - 1
      invariant 0 <= r01 <= 4 * BASE && r2 == 0
      invariant Num(result[..k]) + r01 * Pow(BASE, k) == Columns(l, r, k)
    {
      ghost var carryIn, done := r01, result[..k];
      r01, r2 := SumColumn(left, right, k, r01);
      CloseColumn(done, r01, r2, carryIn, l, r, k);
      ghost var z := r01 % BASE;
      result[k] := r01 % BASE;
      r01 := BitOr(r01 / BASE, (r2 * BASE) % TWO_128);
      r2 := 0;
      assert result[..k + 1] == done + [z];
    }
    LastLimb(result[..7], r01, l, r);
    ghost var low := result[..7];
    result[2 * NUM_ECC_DIGITS - 1] := r01 % BASE;
    assert result[..] == low + [r01];
  }

  lemma {:induction false} NoColumns(s: seq<Limb>, l: seq<Limb>, r: seq<Limb>)
    requires s == [] && |l| == |r| == 4
    ensures Num(s) == 0 == Columns(l, r, 0)
  {}

  lemma {:induction false} NoRows(l: seq<Limb>, r: seq<Limb>, k: nat)
    requires |l| == |r| == 4 && k < 7
    ensures Column(l, r, k, FirstRow(k)) == 0
  {}

  lemma {:induction false} NextRow(l: seq<Limb>, r: seq<Limb>, k: nat, i: nat)
    requires |l| == |r| == 4 && k < 7 && FirstRow(k) <= i <= k && i < 4
    ensures Column(l, r, k, i + 1) == Column(l, r, k, i) + Product(l[i], r[k - i])
  {}

  /** The products of column k of a square, rows below the diagonal counted twice. */
  ghost function HalfColumn(a: seq<Limb>, k: nat, i: nat): (n: nat)
    requires |a| == 4 && k < 7 && FirstRow(k) <= i <= k / 2 + 1
  {
    if i == FirstRow(k) then 0
    else HalfColumn(a, k, i - 1) + (if i - 1 < k - (i - 1) then 2 else 1) * Product(a[i - 1], a[k - (i - 1)])
  }

  lemma {:induction false} NoHalfRows(a: seq<Limb>, k: nat)
    requires |a| == 4 && k < 7
    ensures HalfColumn(a, k, FirstRow(k)) == 0
  {}

  lemma {:induction false} NextHalfRow(a: seq<Limb>, k: nat, i: nat)
    requires |a| == 4 && k < 7 && FirstRow(k) <= i <= k / 2
    ensures HalfColumn(a, k, i + 1) == HalfColumn(a, k, i) + (if i < k - i then 2 else 1) * Product(a[i], a[k - i])
  {}

  /** Doubling the rows below the diagonal gives the whole column. */
  lemma {:induction false} HalfColumnIsColumn(a: seq<Limb>, k: nat)
    requires |a| == 4 && k < 7
    ensures HalfColumn(a, k, k / 2 + 1) == FullColumn(a, a, k)
  {
    hide Column, FullColumn;
    FullColumnsLow(a, a);
    FullColumnsHigh(a, a);
    NoHalfRows(a, k);
    NextHalfRow(a, k, FirstRow(k));
    if FirstRow(k) + 1 <= k / 2 {
      NextHalfRow(a, k, FirstRow(k) + 1);
    }
  }

  lemma {:induction false} HalfColumnBound(a: seq<Limb>, k: nat, i: nat)
    requires |a| == 4 && k < 7 && FirstRow(k) <= i <= k / 2 + 1
    ensures HalfColumn(a, k, i) <= 2 * (i - FirstRow(k)) * ((BASE - 1) * (BASE - 1))
  {
    if i > FirstRow(k) {
      HalfColumnBound(a, k, i - 1);
      ProductBound(a[i - 1], a[k - (i - 1)]);
    }
  }

  /** One product entered into the accumulator, doubled below the diagonal. */
  method AccumulateSquare(r01In: nat, r2In: nat, productIn: nat, twice: bool) returns (r01: nat, r2: nat)
    requires r01In < TWO_128 && productIn < TWO_128
    ensures r01 < TWO_128 && r2 <= r2In + 2
    ensures r01 + r2 * TWO_128 == r01In + r2In * TWO_128 + (if twice then 2 else 1) * productIn
  {
    var product := productIn;
    r2 := r2In;
    if twice {
      DoubleProduct(product);
      r2 := r2 + product / 0x8000_0000_0000_0000_0000_0000_0000_0000;
      product := (product * 2) % TWO_128;
    }
    Accumulate(r01In, product);
    r01 := (r01In + product) % TWO_128;
    r2 := r2 + if r01 < product then 1 else 0;
  }

  /** The accumulator after column k of a square, from half of its products. */
  method SumHalfColumn(left: array<Limb>, k: nat, carryIn: nat) returns (r01: nat, r2: nat)
    requires left.Length == 4 && k < 7 && carryIn <= 4 * BASE
    ensures r01 < TWO_128 && r2 <= 6
    ensures r01 + r2 * TWO_128 == carryIn + FullColumn(left[0..4], left[0..4], k)
  {
    hide HalfColumn, Product, FullColumn;
    ghost var l := left[0..4];
    r01, r2 := carryIn, 0;
    var i := FirstRow(k);
    NoHalfRows(l, k);
    while i <= k && i <= k - i
      invariant FirstRow(k) <= i <= k / 2 + 1
      invariant 0 <= r01 < TWO_128 && 0 <= r2 <= 2 * (i - FirstRow(k))
      invariant r01 + r2 * TWO_128 == carryIn + HalfColumn(l, k, i)
    {
      var product := Product(left[i], left[k - i]);
      ProductBound(left[i], left[k - i]);
      NextHalfRow(l, k, i);
      r01, r2 := AccumulateSquare(r01, r2, product, i < k - i);
      i := i + 1;
    }
    HalfColumnIsColumn(l, k);
  }

  /** result = left * left, all 512 bits, from half of the products. */
  method Square(result: array<Limb>, left: array<Limb>)
    requires result.Length == 8 && left.Length == 4 && result != left
    modifies result
    ensures Num(result[..]) == Val(left) * Val(left)
  {
    hide Num, Pow, FullColumn, Columns, BitOr;
    ghost var l := left[0..4];
    var r01, r2 := 0, 0;
    NoColumns(result[..0], l, l);
    for k := 0 to 2 * NUM_ECC_DIGITS - 1
      invariant 0 <= r01 <= 4 * BASE && r2 == 0
      invariant Num(result[..k]) + r01 * Pow(BASE, k) == Columns(l, l, k)
    {
      ghost var carryIn, done := r01, result[..k];
      r01, r2 := SumHalfColumn(left, k, r01);
      CloseColumn(done, r01, r2, carryIn, l, l, k);
      ghost var z := r01 % BASE;
      result[k] := r01 % BASE;
      r01 := BitOr(r01 / BASE, (r2 * BASE) % TWO_128);
      r2 := 0;
      assert result[..k + 1] == done + [z];
    }
    LastLimb(result[..7], r01, l, l);
    ghost var low := result[..7];
    result[2 * NUM_ECC_DIGITS - 1] := r01 % BASE;
    assert result[..] == low + [r01];
  }

  /** Squaring writes the limbs that multiplying by itself writes. */
  method SquareAgreesWithMult(a: array<Limb>) returns (s: array<Limb>, p: array<Limb>)
    requires a.Length == 4
    ensures fresh(s) && fresh(p) && s[..] == p[..]
  {
    s, p := new Limb[8], new Limb[8];
    Square(s, a);
    Mult(p, a, a);
    NumInjective(s[..], p[..]);
  }
}
