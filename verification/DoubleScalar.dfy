/** u1 * p + u2 * q on limb arrays: Shamir's trick over Jacobian doubling and co-Z addition. */
module DoubleScalar {
  import opened Arith
  import opened Bits
  import opened Divisors
  import opened Limbs
  import opened Vli
  import opened Field
  import opened Curve
  import opened Points
  import opened Group
  import opened CurvePoints
  import opened PointMult

  /** The step from r = j1 * p + j2 * q with bits b1, b2 meets neither zero nor equal x coordinates. */
  ghost predicate StepOk<G(!new)>(c: CurveGroup<G>, p: G, q: G, j1: nat, j2: nat, b1: nat, b2: nat) {
    var r := Combination(c.g, j1, p, j2, q);
    var r2, t := c.g.add(r, r), Select(c.g, p, q, b1, b2);
    && r != c.g.zero && r2 != c.g.zero
    && (b1 == 1 || b2 == 1 ==> t != c.g.zero && !Eq(c.x(t), c.x(r2)))
  }

  ghost predicate StepOkAt<G(!new)>(c: CurveGroup<G>, p: G, q: G, u1: nat, u2: nat, i: nat) {
    i + 1 < Max(BitLen(u1), BitLen(u2)) ==> StepOk(c, p, q, Top(u1, i + 1), Top(u2, i + 1), Bit(u1, i), Bit(u2, i))
  }

  /** No step from bit i up is degenerate. */
  ghost predicate NoCollisionFrom<G(!new)>(c: CurveGroup<G>, p: G, q: G, u1: nat, u2: nat, i: nat) {
    forall h: nat :: i <= h ==> StepOkAt(c, p, q, u1, u2, h)
  }

  /** No step of the whole run is degenerate. */
  ghost predicate NoCollision<G(!new)>(c: CurveGroup<G>, p: G, q: G, u1: nat, u2: nat) {
    NoCollisionFrom(c, p, q, u1, u2, 0)
  }

  lemma {:induction false} NoCollisionStep<G(!new)>(c: CurveGroup<G>, p: G, q: G, u1: nat, u2: nat, i: nat)
    ensures NoCollisionFrom(c, p, q, u1, u2, i) <==>
              NoCollisionFrom(c, p, q, u1, u2, i + 1) && StepOkAt(c, p, q, u1, u2, i)
  {
    hide StepOkAt;
    if NoCollisionFrom(c, p, q, u1, u2, i + 1) && StepOkAt(c, p, q, u1, u2, i) {
      forall h: nat | i <= h ensures StepOkAt(c, p, q, u1, u2, h) {
        if h > i {
          assert StepOkAt(c, p, q, u1, u2, h);
        }
      }
    }
  }

  /** The run has met a degenerate step: z is zero. */
  ghost predicate Lost(rx: array<Limb>, ry: array<Limb>, z: array<Limb>)
    reads rx, ry, z
  {
    rx.Length == ry.Length == 4 && Is(rx, Val(rx)) && Is(ry, Val(ry)) && Is(z, 0)
  }

  /** The arrays hold the nonzero point r at the nonzero z. */
  ghost predicate Held<G(!new)>(rx: array<Limb>, ry: array<Limb>, z: array<Limb>, c: CurveGroup<G>, r: G, w: int)
    reads rx, ry, z
  {
    At(rx, ry, c, r, w) && Is(z, w) && !Eq(w, 0) && r != c.g.zero
  }

  ghost predicate HeldOrLost<G(!new)>(rx: array<Limb>, ry: array<Limb>, z: array<Limb>,
                                      c: CurveGroup<G>, r: G, w: int, live: bool)
    reads rx, ry, z
  {
    if live then Held(rx, ry, z, c, r, w) else Lost(rx, ry, z)
  }

  lemma {:induction false} LostWhen(rx: array<Limb>, ry: array<Limb>, z: array<Limb>, x: int, y: int, v: int)
    requires Is(rx, x) && Is(ry, y) && Is(z, v) && Eq(v, 0)
    ensures Lost(rx, ry, z)
  {
    hide Num;
    EqRefl(Val(rx));
    EqRefl(Val(ry));
    IsTransfer(z, v, 0);
  }

  /** A copy of the affine point t, moved to z. */
  method AffineAt<G(!new)>(z: array<Limb>, lx: array<Limb>, ly: array<Limb>,
                           ghost c: CurveGroup<G>, ghost t: G, ghost w: int) returns (tx: array<Limb>, ty: array<Limb>)
    requires Is(z, w) && Is(lx, c.x(t)) && Is(ly, c.y(t))
    ensures fresh(tx) && fresh(ty) && tx != ty && At(tx, ty, c, t, w)
  {
    hide Num, Eq, Val, Holds;
    tx := new Limb[4];
    Copy(tx, lx, c.x(t));
    ty := new Limb[4];
    Copy(ty, ly, c.y(t));
    ApplyZ(tx, ty, z, c.x(t), c.y(t), w);
  }

  /** Adds the affine point t in (lx, ly) to the point r at z, updating z; the run is lost if they share x. */
  method AddAffine<G(!new)>(rx: array<Limb>, ry: array<Limb>, z: array<Limb>, lx: array<Limb>, ly: array<Limb>,
                            ghost c: CurveGroup<G>, ghost t: G, ghost r: G, ghost w: int, ghost live: bool)
    returns (ghost w': int)
    requires IsP256(c) && HeldOrLost(rx, ry, z, c, r, w, live) && t != c.g.zero && Is(lx, c.x(t)) && Is(ly, c.y(t))
    requires rx != ry && rx != z && ry != z && lx !in {rx, ry, z} && ly !in {rx, ry, z}
    modifies rx, ry, z
    ensures HeldOrLost(rx, ry, z, c, c.g.add(t, r), w', live && !Eq(c.x(t), c.x(r)))
  {
    hide Num, Eq, Val, Times, IsP256, NewZ, AddX, AddY, MoveX, MoveY, Holds;
    ghost var v := if live then w else 0;
    ghost var x, y := HeldX(rx, c, r, w, live), HeldY(ry, c, r, w, live);
    ghost var xt, yt := c.x(t) * (v * v), c.y(t) * (v * (v * v));
    var tx, ty := AffineAt(z, lx, ly, c, t, v);
    var tz := new Limb[4];
    SubF(tz, rx, tx, x, xt);
    AddCoZ(tx, ty, rx, ry, xt, yt, x, y);
    Mul(z, z, tz, v, x - xt);
    w' := Times(v, x - xt);
    if live && !Eq(c.x(t), c.x(r)) {
      AddedAt(tx, ty, rx, ry, c, t, r, w, xt, yt, x, y);
      NewZIs(c.x(t), c.x(r), w);
      SumNonzero(c, t, r);
    } else {
      ZeroGap(v, x, xt, c.x(t), c.x(r), live);
      LostWhen(rx, ry, z, AddX(xt, yt, x, y), AddY(xt, yt, x, y), w');
    }
  }

  /** The new z is zero for equal x coordinates, and stays zero. */
  lemma {:induction false} ZeroGap(v: int, x: int, xt: int, u: int, u': int, live: bool)
    requires if live then x == u' * (v * v) && xt == u * (v * v) && Eq(u, u') else v == 0
    ensures Eq(Times(v, x - xt), 0)
  {
    hide Eq;
    EqRefl(v);
    EqRefl(v * v);
    EqRefl(0);
    if live {
      EqMul(u, u', v * v, v * v);
      EqRefl(x);
      EqSub(x, x, xt, x);
      EqMul(v, v, x - xt, 0);
    }
  }

  lemma {:induction false} NewZIs(xp: int, xq: int, z: int)
    ensures Times(z, xq * (z * z) - xp * (z * z)) == NewZ(xp, xq, z)
  {}

  /** Twice a point is zero exactly when its y coordinate is. */
  lemma {:induction false} TwiceZero<G(!new)>(c: CurveGroup<G>, r: G)
    requires IsP256(c) && r != c.g.zero && c.g.add(r, r) == c.g.zero
    ensures Eq(c.y(r), 0)
  {
    hide Eq, IsP256;
    var y := c.y(r);
    IsGroup(c);
    Zero(c.g, r);
    Unique(c.g, r, c.g.neg(r), r);
    NegX(c, r);
    EqRefl(y);
    EqAdd(y, -y, y, y);
    TwoNonzero();
    assert y + y == 2 * y;
    ProductZero(2, y);
  }

  /** Doubles r at z; the run is lost if the double is zero. */
  method DoubleHeld<G(!new)>(rx: array<Limb>, ry: array<Limb>, z: array<Limb>,
                             ghost c: CurveGroup<G>, ghost r: G, ghost w: int, ghost live: bool) returns (ghost w': int)
    requires IsP256(c) && HeldOrLost(rx, ry, z, c, r, w, live) && rx != ry && rx != z && ry != z
    modifies rx, ry, z
    ensures HeldOrLost(rx, ry, z, c, c.g.add(r, r), w', live && c.g.add(r, r) != c.g.zero)
  {
    hide Num, Eq, IsP256, DoubleX, DoubleY, Slope;
    ghost var v := if live then w else 0;
    ghost var x, y := HeldX(rx, c, r, w, live), HeldY(ry, c, r, w, live);
    if live {
      NonzeroHolds(z, w);
    } else {
      EqReduced(Val(z), 0);
    }
    var b := DoubleJacobian(rx, ry, z, x, y, v);
    w' := y * v;
    if live {
      DoubledHeld(rx, ry, z, c, r, w, b);
    } else {
      EqRefl(0);
      LostWhen(rx, ry, z, x, y, 0);
    }
  }

  lemma {:induction false} DoubledHeld<G(!new)>(rx: array<Limb>, ry: array<Limb>, z: array<Limb>,
                                                c: CurveGroup<G>, r: G, w: int, b: int)
    requires IsP256(c) && r != c.g.zero && !Eq(w, 0) && Eq(2 * b, Slope(c.x(r) * (w * w), w))
    requires var x, y := c.x(r) * (w * w), c.y(r) * (w * (w * w));
             Is(rx, DoubleX(x, y, b)) && Is(ry, DoubleY(x, y, b)) && Is(z, y * w)
    ensures HeldOrLost(rx, ry, z, c, c.g.add(r, r), (c.y(r) * (w * (w * w))) * w, c.g.add(r, r) != c.g.zero)
  {
    hide Num, Eq, IsP256, DoubleX, DoubleY, Slope, Is;
    var x, y, s := c.x(r) * (w * w), c.y(r) * (w * (w * w)), c.g.add(r, r);
    var v := y * w;
    if s != c.g.zero {
      DoubleAt(c, r, w, b);
      IsTransfer(rx, DoubleX(x, y, b), c.x(s) * (v * v));
      IsTransfer(ry, DoubleY(x, y, b), c.y(s) * (v * (v * v)));
    } else {
      TwiceZero(c, r);
      EqRefl(w * (w * w));
      EqRefl(w);
      EqMul(c.y(r), 0, w * (w * w), w * (w * w));
      EqMul(y, 0, w, w);
      LostWhen(rx, ry, z, DoubleX(x, y, b), DoubleY(x, y, b), v);
    }
  }

  /** The points of the table are not zero. */
  lemma {:induction false} SelectNonzero<G(!new)>(c: CurveGroup<G>, p: G, q: G, b1: nat, b2: nat)
    requires IsP256(c) && p != c.g.zero && q != c.g.zero && !Eq(c.x(p), c.x(q)) && (b1 == 1 || b2 == 1)
    ensures Select(c.g, p, q, b1, b2) != c.g.zero
  {
    SumNonzero(c, p, q);
  }

  /** One round of the loop: r becomes 2r plus the point selected by the bits, or the run is lost. */
  method Round<G(!new)>(rx: array<Limb>, ry: array<Limb>, z: array<Limb>, table: seq<array<Limb>>, b1: bool, b2: bool,
                        ghost c: CurveGroup<G>, ghost p: G, ghost q: G, ghost j1: nat, ghost j2: nat, ghost w: int,
                        ghost live: bool) returns (ghost w': int)
    requires IsP256(c) && p != c.g.zero && q != c.g.zero && !Eq(c.x(p), c.x(q))
    requires HeldOrLost(rx, ry, z, c, Combination(c.g, j1, p, j2, q), w, live)
    requires TableHolds(table, c, p, q) && rx !in table && ry !in table && z !in table
    requires rx != ry && rx != z && ry != z
    modifies rx, ry, z
    ensures HeldOrLost(rx, ry, z, c,
                       Combination(c.g, 2 * j1 + (if b1 then 1 else 0), p, 2 * j2 + (if b2 then 1 else 0), q), w',
                       live && StepOk(c, p, q, j1, j2, if b1 then 1 else 0, if b2 then 1 else 0))
  {
    hide Num, Eq, IsP256, Combination, HeldOrLost;
    ghost var r := Combination(c.g, j1, p, j2, q);
    ghost var r2 := c.g.add(r, r);
    IsGroup(c);
    ShamirStep(c.g, j1, p, j2, q, if b1 then 1 else 0, if b2 then 1 else 0);
    Zero(c.g, r2);
    if live {
      HeldNonzero(rx, ry, z, c, r, w);
    }
    w' := DoubleHeld(rx, ry, z, c, r, w, live);
    var index := (if b1 then 1 else 0) + (if b2 then 2 else 0);
    if index != 0 {
      ghost var t := Select(c.g, p, q, if b1 then 1 else 0, if b2 then 1 else 0);
      SelectNonzero(c, p, q, if b1 then 1 else 0, if b2 then 1 else 0);
      w' := AddAffine(rx, ry, z, table[2 * index - 2], table[2 * index - 1], c, t, r2, w', live && r2 != c.g.zero);
    }
  }

  lemma {:induction false} HeldNonzero<G(!new)>(rx: array<Limb>, ry: array<Limb>, z: array<Limb>,
                                                c: CurveGroup<G>, r: G, w: int)
    requires HeldOrLost(rx, ry, z, c, r, w, true)
    ensures r != c.g.zero
  {}

  /** The coordinate arrays of p, q and p + q, in the order of the index the bits form. */
  ghost predicate TableHolds<G(!new)>(table: seq<array<Limb>>, c: CurveGroup<G>, p: G, q: G)
    reads table
  {
    && |table| == 6
    && Is(table[0], c.x(p)) && Is(table[1], c.y(p))
    && Is(table[2], c.x(q)) && Is(table[3], c.y(q))
    && Is(table[4], c.x(c.g.add(p, q))) && Is(table[5], c.y(c.g.add(p, q)))
  }

  /** (rx, ry) = u1 * p + u2 * q at z, for scalars that are not both zero; z = 0 if a step was degenerate. */
  method Combine<G(!new)>(rx: array<Limb>, ry: array<Limb>, z: array<Limb>, table: seq<array<Limb>>,
                          u1: array<Limb>, u2: array<Limb>, ghost c: CurveGroup<G>, ghost p: G, ghost q: G)
    returns (ghost w: int)
    requires IsP256(c) && rx.Length == ry.Length == z.Length == u1.Length == u2.Length == 4
    requires p != c.g.zero && q != c.g.zero && !Eq(c.x(p), c.x(q))
    requires Val(u1) > 0 || Val(u2) > 0
    requires TableHolds(table, c, p, q) && rx !in table && ry !in table && z !in table
    requires rx != ry && rx != z && ry != z && u1 !in {rx, ry, z} && u2 !in {rx, ry, z}
    modifies rx, ry, z
    ensures HeldOrLost(rx, ry, z, c, Combination(c.g, Val(u1), p, Val(u2), q), w,
                       NoCollision(c, p, q, Val(u1), Val(u2)))
  {
    hide Num, IsP256, HeldOrLost, Combination, Is, NoCollisionFrom, StepOk, TableHolds, Abelian, Prime, Top, BitLen, Eq;
    ghost var k1, k2 := Val(u1), Val(u2);
    var bits := Start(rx, ry, z, table, u1, u2, c, p, q);
    w := 1;
    ghost var live := true;
    NoCollisionEnd(c, p, q, k1, k2);
    var i: int := bits as int - 2;
    while i >= 0
      invariant -1 <= i && i + 2 <= bits && Val(u1) == k1 && Val(u2) == k2
      invariant TableHolds(table, c, p, q) && (live <==> NoCollisionFrom(c, p, q, k1, k2, i + 1))
      invariant HeldOrLost(rx, ry, z, c, Combination(c.g, Top(k1, i + 1), p, Top(k2, i + 1), q), w, live)
    {
      NoCollisionStep(c, p, q, k1, k2, i);
      TopStep(k1, i);
      TopStep(k2, i);
      var b1 := TestBit(u1, i);
      var b2 := TestBit(u2, i);
      w := Round(rx, ry, z, table, b1, b2, c, p, q, Top(k1, i + 1), Top(k2, i + 1), w, live);
      live := live && StepOkAt(c, p, q, k1, k2, i);
      i := i - 1;
    }
    TopZero(k1);
    TopZero(k2);
  }

  /** The first point, selected by the leading bits. */
  method Start<G(!new)>(rx: array<Limb>, ry: array<Limb>, z: array<Limb>, table: seq<array<Limb>>,
                        u1: array<Limb>, u2: array<Limb>, ghost c: CurveGroup<G>, ghost p: G, ghost q: G)
    returns (bits: nat)
    requires IsP256(c) && rx.Length == ry.Length == z.Length == u1.Length == u2.Length == 4
    requires p != c.g.zero && q != c.g.zero && !Eq(c.x(p), c.x(q))
    requires Val(u1) > 0 || Val(u2) > 0
    requires TableHolds(table, c, p, q) && rx !in table && ry !in table && z !in table
    requires rx != ry && rx != z && ry != z && u1 !in {rx, ry, z} && u2 !in {rx, ry, z}
    modifies rx, ry, z
    ensures bits == Max(BitLen(Val(u1)), BitLen(Val(u2))) && 1 <= bits <= 256
    ensures HeldOrLost(rx, ry, z, c, Combination(c.g, Top(Val(u1), bits - 1), p, Top(Val(u2), bits - 1), q), 1, true)
  {
    hide Num, IsP256, HeldOrLost, Combination, Is, TableHolds, Abelian, Prime, Top, Eq, BitLen, Select, Mult, Pow;
    ghost var k1, k2 := Val(u1), Val(u2);
    IsGroup(c);
    var n1 := NumBits(u1);
    var n2 := NumBits(u2);
    bits := Max(n1, n2);
    BitLenBounds(k1);
    BitLenBounds(k2);
    TopAtMost(k1, bits - 1);
    TopAtMost(k2, bits - 1);
    var b1 := TestBit(u1, bits - 1);
    var b2 := TestBit(u2, bits - 1);
    SelectIs(c.g, p, q, Bit(k1, bits - 1), Bit(k2, bits - 1));
    StartAt(rx, ry, z, table, b1, b2, c, p, q);
  }

  lemma {:induction false} NoCollisionEnd<G(!new)>(c: CurveGroup<G>, p: G, q: G, u1: nat, u2: nat)
    requires Max(BitLen(u1), BitLen(u2)) >= 1
    ensures NoCollisionFrom(c, p, q, u1, u2, Max(BitLen(u1), BitLen(u2)) - 1)
  {
    hide StepOk, BitLen;
    forall h: nat | Max(BitLen(u1), BitLen(u2)) - 1 <= h ensures StepOkAt(c, p, q, u1, u2, h) {
    }
  }

  lemma {:induction false} TopZero(k: nat)
    ensures Top(k, 0) == k
  {}

  method SetOne(z: array<Limb>)
    requires z.Length == 4
    modifies z
    ensures Is(z, 1) && !Eq(1, 0)
  {
    hide Num;
    Clear(z);
    z[0] := 1;
    One(z[0..4]);
    EqRefl(1);
    EqZeroIs(1);
  }

  /** The first point of the loop, at z = 1. */
  method StartAt<G(!new)>(rx: array<Limb>, ry: array<Limb>, z: array<Limb>, table: seq<array<Limb>>, b1: bool, b2: bool,
                          ghost c: CurveGroup<G>, ghost p: G, ghost q: G)
    requires rx.Length == ry.Length == z.Length == 4 && (b1 || b2)
    requires IsP256(c) && p != c.g.zero && q != c.g.zero && !Eq(c.x(p), c.x(q))
    requires TableHolds(table, c, p, q) && rx !in table && ry !in table && z !in table
    requires rx != ry && rx != z && ry != z
    modifies rx, ry, z
    ensures HeldOrLost(rx, ry, z, c, Select(c.g, p, q, if b1 then 1 else 0, if b2 then 1 else 0), 1, true)
  {
    hide Num, Eq, Holds, Val, IsP256;
    ghost var t := Select(c.g, p, q, if b1 then 1 else 0, if b2 then 1 else 0);
    SelectNonzero(c, p, q, if b1 then 1 else 0, if b2 then 1 else 0);
    var index := (if b1 then 1 else 0) + (if b2 then 2 else 0);
    SetOne(z);
    Copy(rx, table[2 * index - 2], c.x(t));
    Copy(ry, table[2 * index - 1], c.y(t));
  }
}
