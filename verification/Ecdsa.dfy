/** ECDSA signing and verification over bytes (sections 4.1.3 and 4.1.4 of SEC 1). */
module Ecdsa {
  import opened Arith
  import opened Divisors
  import opened Limbs
  import opened Vli
  import opened Reduce
  import opened Field
  import opened Curve
  import opened Group
  import opened CurvePoints
  import PM = PointMult
  import opened DoubleScalar
  import opened Collisions
  import opened Sqrt
  import opened EccBytes
  import opened EcdsaScalars

  const CURVE_GX: seq<Limb> :=
    [0xF4A13945D898C296, 0x77037D812DEB33A0, 0xF8BCE6E563A440F2, 0x6B17D1F2E12C4247]
  const CURVE_GY: seq<Limb> :=
    [0xCBB6406837BF51F5, 0x2BCE33576B315ECE, 0x8EE7EB4A7C0F9E16, 0x4FE342E2FE1A7F9B]

  /** g is the base point, of prime order n. */
  ghost predicate IsBase<G(!new)>(c: CurveGroup<G>, g: G) {
    && IsP256(c) && Prime(N256)
    && g != c.g.zero && c.x(g) == Num(CURVE_GX) && c.y(g) == Num(CURVE_GY)
    && PM.Order(c.g, g, N256)
  }

  lemma {:induction false} BaseParts<G(!new)>(c: CurveGroup<G>, g: G)
    requires IsBase(c, g)
    ensures IsP256(c) && Abelian(c.g) && Prime(P256) && Prime(N256) && g != c.g.zero
    ensures c.x(g) == Num(CURVE_GX) && c.y(g) == Num(CURVE_GY) && c.x(g) != 0
    ensures Mult(c.g, N256, g) == c.g.zero && PM.Order(c.g, g, N256)
  {
    Num4(CURVE_GX);
    DividesIntro(N256, N256, 1);
    PM.ZeroMultiple(c.g, g, N256, N256);
  }

  /** The base point is on the curve, by computation. */
  lemma {:induction false} BaseOnCurve()
    ensures Eq(Num(CURVE_GY) * Num(CURVE_GY), Rhs(Num(CURVE_GX), -3, B256))
  {
    Num4(CURVE_GX);
    Num4(CURVE_GY);
    EqIntro(Num(CURVE_GY) * Num(CURVE_GY), Rhs(Num(CURVE_GX), -3, B256),
            -0x12bdd1ad23dfc833dccf5f6141d6bb4a1f365dc1430b0e600b52dd851938d2d6933106a72efbf035fdaf43963b37fd5456e90c6581a8fb7a0d8a46a3629f0458);
  }

  method LoadBase() returns (gx: array<Limb>, gy: array<Limb>)
    ensures fresh(gx) && fresh(gy) && gx != gy && gx.Length == gy.Length == 4
    ensures Val(gx) == Num(CURVE_GX) && Val(gy) == Num(CURVE_GY)
  {
    hide Num;
    gx := Load(CURVE_GX);
    gy := Load(CURVE_GY);
    assert gx[0..4] == gx[..] && gy[0..4] == gy[..];
  }

  // ----- Public keys -----

  /** Two roots below p of one parity are equal. */
  lemma {:induction false} RootsOfOneParity(y: nat, v: nat, t: int)
    requires Prime(P256) && y <= P256 && v < P256 && y % 2 == v % 2
    requires Eq(y * y, t) && Eq(v * v, t)
    ensures y == v
  {
    hide Prime;
    EqSub(y * y, t, v * v, t);
    assert (y - v) * (y + v) == y * y - v * v;
    ProductZero(y - v, y + v);
    if Eq(y - v, 0) {
      SmallMultiple(y - v);
    } else {
      SmallMultiple(y + v);
    }
  }

  lemma {:induction false} SmallMultiple(d: int)
    requires Eq(d, 0) && -P256 <= d <= 2 * P256
    ensures d == -P256 || d == 0 || d == P256 || d == 2 * P256
  {
    EqCong(d, 0);
  }

  /** The bytes are the compressed form of the point q. */
  ghost predicate Compressed<G(!new)>(key: seq<Byte>, c: CurveGroup<G>, q: G) {
    && |key| == 33 && q != c.g.zero
    && BigEndian(key[1..]) == c.x(q) && key[0] % 2 == c.y(q) % 2
  }

  /** Decompression recovers the coordinates of the point. */
  method Decompress<G(!new)>(key: seq<Byte>, ghost c: CurveGroup<G>, ghost q: G)
    returns (px: array<Limb>, py: array<Limb>)
    requires IsP256(c) && Compressed(key, c, q)
    ensures fresh(px) && fresh(py) && px != py && px.Length == py.Length == 4
    ensures Val(px) == c.x(q) && Val(py) == c.y(q)
  {
    hide Num, CurveRhs, BigEndian, Prime;
    px := new Limb[4];
    Bytes2Native(px, key[1..]);
    py := new Limb[4];
    DecompressY(px, py, key[0]);
    assert PointLaw(c, q);
    CurveRhsIs(c.x(q));
    assert IsRoot(c.y(q), CurveRhs(c.x(q)));
    RootsOfOneParity(Val(py), c.y(q), CurveRhs(c.x(q)));
  }

  // ----- Signing -----

  /** x = x mod n for x below p, by at most one subtraction. */
  method ReduceOnce(x: array<Limb>)
    requires x.Length == 4
    modifies x
    ensures Val(x) == old(Val(x)) % N256
  {
    hide Num;
    var n := LoadN();
    NumBound4(x[0..4]);
    var cmp := Cmp(n, x);
    if cmp != 1 {
      var _ := Sub(x, x, n);
      NumBound4(x[0..4]);
    }
  }

  /** The r that belongs to a nonce k: the x coordinate the ladder leaves, modulo n. */
  ghost function Commitment<G(!new)>(c: CurveGroup<G>, g: G, k: nat): (r: int) {
    PM.Outcome(c, g, N256, k).0 % N256
  }

  /** The commitment is x(k * g) modulo n for 2 <= k <= n - 2. For n - 1 it is zero, and for 0 and 1 it is
      that of k + 2. */
  lemma {:induction false} CommitmentIs<G(!new)>(c: CurveGroup<G>, g: G, k: nat)
    requires IsBase(c, g) && k < N256
    ensures k == N256 - 1 ==> Commitment(c, g, k) == 0
    ensures k < N256 - 1 ==> Commitment(c, g, k) == c.x(Mult(c.g, LadderScalar(k), g)) % N256
  {
    hide Mult, PM.Safe, IsP256, Prime, PM.Order;
    BaseParts(c, g);
    PM.SafeBelow(k, N256);
  }

  /** r is the commitment to k, with k reduced in place. */
  method CommitNonce<G(!new)>(k: array<Limb>, ghost c: CurveGroup<G>, ghost g: G) returns (r: array<Limb>)
    requires k.Length == 4 && IsBase(c, g)
    modifies k
    ensures fresh(r) && r.Length == 4 && Val(k) == old(Val(k)) % N256
    ensures Val(r) == Commitment(c, g, Val(k))
  {
    hide Num, IsP256, Prime, PM.Outcome, PM.Order;
    BaseParts(c, g);
    ReduceOnce(k);
    var gx, gy := LoadBase();
    r := new Limb[4];
    var ry := new Limb[4];
    PM.Multiply(r, ry, gx, gy, k, null, c, g, N256);
    ReduceOnce(r);
  }

  const MAX_TRIES := 16

  /** r and s satisfy the signing equation for nonce k, key d and hash e; the nonce 0 leaves s = 0. */
  ghost predicate Signed<G(!new)>(c: CurveGroup<G>, g: G, k: nat, d: nat, e: nat, r: nat, s: nat) {
    && 0 < r < N256 && s < N256
    && r == Commitment(c, g, k)
    && (k > 0 ==> Cong(s * k, e + r * d, N256))
    && (k == 0 ==> s == 0)
  }

  /** The random number that is not used: zero, or one whose commitment is zero. */
  ghost predicate Rejected<G(!new)>(c: CurveGroup<G>, g: G, nonce: seq<Limb>) {
    Num(nonce) == 0 || Commitment(c, g, Num(nonce) % N256) == 0
  }

  /** The index of the first random number that is not rejected. */
  ghost function Chosen<G(!new)>(c: CurveGroup<G>, g: G, nonces: seq<seq<Limb>>): (i: nat)
    ensures i <= |nonces|
    ensures i < |nonces| ==> Num(nonces[i]) > 0 && Commitment(c, g, Num(nonces[i]) % N256) != 0
    ensures forall j :: 0 <= j < i ==> Num(nonces[j]) == 0 || Commitment(c, g, Num(nonces[j]) % N256) == 0
  {
    if nonces == [] || !Rejected(c, g, nonces[0]) then 0 else 1 + Chosen(c, g, nonces[1..])
  }

  /** Signs with the first random number that is not rejected, trying at most sixteen. */
  method Sign<G(!new)>(key: seq<Byte>, hash: seq<Byte>, nonces: seq<seq<Limb>>, ghost c: CurveGroup<G>, ghost g: G)
    returns (ok: bool, signature: seq<Byte>)
    requires |key| == 32 && |hash| == 32 && IsBase(c, g)
    requires forall i :: 0 <= i < |nonces| ==> |nonces[i]| == 4
    requires |nonces| > 0 ==> Num(nonces[0]) > 0
    ensures ok <==> Chosen(c, g, nonces) < |nonces| && Chosen(c, g, nonces) < MAX_TRIES
    ensures ok ==> |signature| == 64
    ensures ok ==> Signed(c, g, Num(nonces[Chosen(c, g, nonces)]) % N256, BigEndian(key), BigEndian(hash),
                          BigEndian(signature[..32]), BigEndian(signature[32..]))
  {
    hide Num, Mult, IsBase, BigEndian, Commitment, Chosen;
    var tries := 0;
    while true
      invariant 0 <= tries <= |nonces| && tries <= MAX_TRIES
      invariant forall i :: 0 <= i < tries ==> Rejected(c, g, nonces[i])
      decreases |nonces| - tries
    {
      if tries == |nonces| || tries >= MAX_TRIES {
        return false, [];
      }
      var nonce := Load(nonces[tries]);
      assert nonce[0..4] == nonces[tries];
      var skip := IsZero(nonce);
      if skip {
        // The loop condition looks at the x coordinate of the previous try, which was zero.
        tries := tries + 1;
        continue;
      }
      var r := CommitNonce(nonce, c, g);
      var zero := IsZero(r);
      if !zero {
        assert !Rejected(c, g, nonces[tries]);
        signature := FinishSignature(r, nonce, key, hash, c, g);
        return true, signature;
      }
      tries := tries + 1;
    }
  }

  /** The signature bytes for the commitment r to the nonce. */
  method FinishSignature<G(!new)>(r: array<Limb>, nonce: array<Limb>, key: seq<Byte>, hash: seq<Byte>,
                                  ghost c: CurveGroup<G>, ghost g: G) returns (signature: seq<Byte>)
    requires r.Length == nonce.Length == 4 && r != nonce && |key| == 32 && |hash| == 32 && IsBase(c, g)
    requires Val(nonce) < N256 && 0 < Val(r) == Commitment(c, g, Val(nonce))
    modifies nonce
    ensures |signature| == 64
    ensures Signed(c, g, old(Val(nonce)), BigEndian(key), BigEndian(hash),
                   BigEndian(signature[..32]), BigEndian(signature[32..]))
  {
    hide Num, Mult, BigEndian, Cong, Prime, IsP256, PM.Outcome;
    BaseParts(c, g);
    if Val(nonce) > 0 {
      Coprime(Val(nonce));
    }
    var d, e, s := new Limb[4], new Limb[4], new Limb[4];
    Bytes2Native(d, key);
    Bytes2Native(e, hash);
    SignScalar(s, r, nonce, d, e);
    var rBytes := Native2Bytes(r);
    var sBytes := Native2Bytes(s);
    signature := rBytes + sBytes;
    assert signature[..32] == rBytes && signature[32..] == sBytes;
  }

  lemma {:induction false} Coprime(k: nat)
    requires Prime(N256) && 0 < k < N256
    ensures Gcd(k, N256) == 1
  {
    PrimeCoprime(k, N256);
  }

  // ----- Verification -----

  /** u1 and u2 are the scalars the verifier derives from the hash and the signature. */
  predicate Scalars(u1: nat, u2: nat, e: nat, r: nat, s: nat) {
    u1 < N256 && u2 < N256 && Cong(u1 * s, e, N256) && Cong(u2 * s, r, N256)
  }

  lemma {:induction false} ScalarsUnique(u1: nat, u2: nat, v1: nat, v2: nat, e: nat, r: nat, s: nat)
    requires Prime(N256) && 0 < s < N256 && Scalars(u1, u2, e, r, s) && Scalars(v1, v2, e, r, s)
    ensures u1 == v1 && u2 == v2
  {
    hide Prime, Cong;
    OneSolution(u1, v1, e, s);
    OneSolution(u2, v2, r, s);
  }

  /** u s = t has one solution modulo n. */
  lemma {:induction false} OneSolution(u: nat, v: nat, t: nat, s: nat)
    requires Prime(N256) && 0 < s < N256 && u < N256 && v < N256 && Cong(u * s, t, N256) && Cong(v * s, t, N256)
    ensures u == v
  {
    hide Prime, Cong;
    Coprime(s);
    CongSymmetric(v * s, t, N256);
    CongTrans(u * s, t, v * s, N256);
    assert u * s == s * u && v * s == s * v;
    CongCancel(s, u, v, N256);
    Residues(u, v);
  }

  lemma {:induction false} Residues(u: nat, v: nat)
    requires u < N256 && v < N256 && Cong(u, v, N256)
    ensures u == v
  {}

  /** With its scalars u1 and u2 the verifier meets no degenerate step. */
  ghost predicate Regular<G(!new)>(c: CurveGroup<G>, g: G, q: G, e: nat, r: nat, s: nat, u1: nat, u2: nat) {
    Scalars(u1, u2, e, r, s) && NoCollision(c, g, q, u1, u2)
  }

  /** The verifier meets no degenerate step, and x(u1 * g + u2 * q) mod n is r. */
  ghost predicate Matches<G(!new)>(c: CurveGroup<G>, g: G, q: G, e: nat, r: nat, s: nat, u1: nat, u2: nat) {
    Regular(c, g, q, e, r, s, u1, u2) && c.x(Combination(c.g, u1, g, u2, q)) % N256 == r
  }

  /** A copy of an affine point, which is the point at z = 1. */
  method CopyPoint<G(!new)>(px: array<Limb>, py: array<Limb>, ghost c: CurveGroup<G>, ghost p: G)
    returns (x: array<Limb>, y: array<Limb>)
    requires Is(px, c.x(p)) && Is(py, c.y(p))
    ensures fresh(x) && fresh(y) && x != y && At(x, y, c, p, 1)
  {
    hide Num, Eq, Val, Holds;
    x := new Limb[4];
    Copy(x, px, c.x(p));
    y := new Limb[4];
    Copy(y, py, c.y(p));
  }

  /** (sx, sy) = g + q in affine coordinates. */
  method SumPoint<G(!new)>(gx: array<Limb>, gy: array<Limb>, qx: array<Limb>, qy: array<Limb>,
                           ghost c: CurveGroup<G>, ghost g: G, ghost q: G) returns (sx: array<Limb>, sy: array<Limb>)
    requires IsP256(c) && Is(gx, c.x(g)) && Is(gy, c.y(g)) && Is(qx, c.x(q)) && Is(qy, c.y(q))
    requires g != c.g.zero && q != c.g.zero && !Eq(c.x(g), c.x(q))
    ensures fresh(sx) && fresh(sy) && sx != sy && sx.Length == sy.Length == 4
    ensures Val(sx) == c.x(c.g.add(g, q)) && Val(sy) == c.y(c.g.add(g, q))
  {
    hide Num, Eq, Val, Holds, IsP256, Prime, Abelian;
    PM.IsGroup(c);
    sx, sy := CopyPoint(qx, qy, c, q);
    var tx, ty := CopyPoint(gx, gy, c, g);
    var z := new Limb[4];
    SubF(z, sx, tx, c.x(q), c.x(g));
    OneNonzero();
    AddPoints(tx, ty, sx, sy, c, g, q, 1, true);
    ghost var w := NewZ(c.x(g), c.x(q), 1);
    ghost var i := PM.InvertF(z, w);
    SumNonzero(c, g, q);
    PM.Normalise(sx, sy, z, c, c.g.add(g, q), w, i, true);
  }

  lemma {:induction false} OneNonzero()
    ensures !Eq(1, 0)
  {
    EqZeroIs(1);
  }

  /** The coordinate table of g, q and g + q. */
  method BuildTable<G(!new)>(qx: array<Limb>, qy: array<Limb>, ghost c: CurveGroup<G>, ghost g: G, ghost q: G)
    returns (table: seq<array<Limb>>)
    requires qx.Length == qy.Length == 4 && IsBase(c, g) && q != c.g.zero && !Eq(c.x(g), c.x(q))
    requires Val(qx) == c.x(q) && Val(qy) == c.y(q)
    ensures TableHolds(table, c, g, q)
    ensures forall a :: a in table ==> a == qx || a == qy || fresh(a)
  {
    hide Num, Eq, Prime, Mult;
    BaseParts(c, g);
    var gx, gy := LoadBase();
    AffineIs(c, g, gx, gy);
    AffineIs(c, q, qx, qy);
    var sx, sy := SumPoint(gx, gy, qx, qy, c, g, q);
    SumNonzero(c, g, q);
    AffineIs(c, c.g.add(g, q), sx, sy);
    table := [gx, gy, qx, qy, sx, sy];
  }

  lemma {:induction false} AffineIs<G(!new)>(c: CurveGroup<G>, p: G, px: array<Limb>, py: array<Limb>)
    requires IsP256(c) && p != c.g.zero && px.Length == py.Length == 4 && Val(px) == c.x(p) && Val(py) == c.y(p)
    ensures Is(px, c.x(p)) && Is(py, c.y(p))
  {
    hide Num;
    assert PointLaw(c, p);
    EqRefl(c.x(p));
    EqRefl(c.y(p));
  }

  /** v = x(u1 * g + u2 * q) mod n, or 0 if a step of the double multiplication is degenerate. */
  method Recombine<G(!new)>(qx: array<Limb>, qy: array<Limb>, u1: array<Limb>, u2: array<Limb>,
                            ghost c: CurveGroup<G>, ghost g: G, ghost q: G) returns (v: array<Limb>)
    requires qx.Length == qy.Length == u1.Length == u2.Length == 4 && IsBase(c, g)
    requires q != c.g.zero && !Eq(c.x(g), c.x(q)) && Val(qx) == c.x(q) && Val(qy) == c.y(q)
    requires Val(u1) > 0 || Val(u2) > 0
    ensures fresh(v) && v.Length == 4
    ensures NoCollision(c, g, q, Val(u1), Val(u2)) ==>
              Val(v) == c.x(Combination(c.g, Val(u1), g, Val(u2), q)) % N256
    ensures !NoCollision(c, g, q, Val(u1), Val(u2)) ==> Val(v) == 0
  {
    hide Num, Eq, Mult, NoCollision, Combination, TableHolds, Prime, IsBase, IsP256;
    BaseParts(c, g);
    var table := BuildTable(qx, qy, c, g, q);
    v := new Limb[4];
    var ry, z := new Limb[4], new Limb[4];
    ghost var w := Combine(v, ry, z, table, u1, u2, c, g, q);
    ghost var live := NoCollision(c, g, q, Val(u1), Val(u2));
    EqRefl(0);
    ghost var i := PM.InvertF(z, if live then w else 0);
    PM.Normalise(v, ry, z, c, Combination(c.g, Val(u1), g, Val(u2), q), w, i, live);
    ReduceOnce(v);
  }

  /** The comparison with r, for r and s in range. */
  method Compare<G(!new)>(qx: array<Limb>, qy: array<Limb>, r: array<Limb>, s: array<Limb>, e: array<Limb>,
                          ghost c: CurveGroup<G>, ghost g: G, ghost q: G)
    returns (accept: bool, ghost u1: nat, ghost u2: nat)
    requires qx.Length == qy.Length == r.Length == s.Length == e.Length == 4 && IsBase(c, g)
    requires q != c.g.zero && !Eq(c.x(g), c.x(q)) && Val(qx) == c.x(q) && Val(qy) == c.y(q)
    requires 0 < Val(r) < N256 && 0 < Val(s) < N256
    ensures Scalars(u1, u2, Val(e), Val(r), Val(s))
    ensures accept <==> Matches(c, g, q, Val(e), Val(r), Val(s), u1, u2)
  {
    hide Num, NoCollision, Combination, IsBase, Gcd, Cong, IsP256, Prime, Abelian;
    BaseParts(c, g);
    Coprime(Val(s));
    var a1, a2 := new Limb[4], new Limb[4];
    VerifyScalars(a1, a2, r, s, e);
    u1, u2 := Val(a1), Val(a2);
    SecondScalarNonzero(u2, Val(s), Val(r));
    assert Scalars(u1, u2, Val(e), Val(r), Val(s));
    var v := Recombine(qx, qy, a1, a2, c, g, q);
    var cmp := Cmp(v, r);
    accept := cmp == 0;
  }

  /** Accepts exactly when 0 < r, s < n, no step of the double multiplication is degenerate and
      x(u1 * g + u2 * q) mod n is r, for the scalars u1 and u2 that the hash and the signature determine. */
  method Verify<G(!new)>(key: seq<Byte>, hash: seq<Byte>, signature: seq<Byte>,
                         ghost c: CurveGroup<G>, ghost g: G, ghost q: G) returns (accept: bool)
    requires |hash| == 32 && |signature| == 64 && IsBase(c, g) && Compressed(key, c, q) && !Eq(c.x(g), c.x(q))
    ensures var e, r, s := BigEndian(hash), BigEndian(signature[..32]), BigEndian(signature[32..]);
            accept <==> 0 < r < N256 && 0 < s < N256 && exists u1: nat, u2: nat :: Matches(c, g, q, e, r, s, u1, u2)
    ensures var e, r, s := BigEndian(hash), BigEndian(signature[..32]), BigEndian(signature[32..]);
            forall d: nat {:trigger Mult(c.g, d, g)} :: q == Mult(c.g, d, g) ==>
              (accept <==> 0 < r < N256 && 0 < s < N256 && exists u1: nat, u2: nat :: MatchesKey(c, g, d, e, r, s, u1, u2))
  {
    hide Num, BigEndian, Combination, IsBase, Regular, ClearKey, MatchesKey, Matches, Mult, Scalars, IsP256, Prime, Abelian, Eq;
    accept := false;
    BaseParts(c, g);
    var qx, qy := Decompress(key, c, q);
    var r, s, e := new Limb[4], new Limb[4], new Limb[4];
    Bytes2Native(r, signature[..32]);
    Bytes2Native(s, signature[32..]);
    var inRange := InRange(r, s);
    if inRange {
      Bytes2Native(e, hash);
      ghost var u1, u2;
      accept, u1, u2 := Compare(qx, qy, r, s, e, c, g, q);
      OneMatch(c, g, q, Val(e), Val(r), Val(s), u1, u2);
      forall d: nat | q == Mult(c.g, d, g)
        ensures accept <==> exists v1: nat, v2: nat :: MatchesKey(c, g, d, Val(e), Val(r), Val(s), v1, v2)
      {
        KeyMatches(c, g, d, Val(e), Val(r), Val(s));
      }
    }
  }

  /** The scalars of the verifier are clear for the key d, so that it meets no degenerate step. */
  ghost predicate ClearKey(d: nat, e: nat, r: nat, s: nat, u1: nat, u2: nat) {
    Scalars(u1, u2, e, r, s) && ClearRun(N256, d, u1, u2)
  }

  /** The scalars are clear for the key d, and x((u1 + u2 d) * g) mod n is r. */
  ghost predicate MatchesKey<G(!new)>(c: CurveGroup<G>, g: G, d: nat, e: nat, r: nat, s: nat, u1: nat, u2: nat) {
    ClearKey(d, e, r, s, u1, u2) && c.x(Mult(c.g, u1 + u2 * d, g)) % N256 == r
  }

  /** For a key that is a multiple of the base point the verifier's condition is one on numbers. */
  lemma {:induction false} KeyMatches<G(!new)>(c: CurveGroup<G>, g: G, d: nat, e: nat, r: nat, s: nat)
    requires IsBase(c, g)
    ensures var q := Mult(c.g, d, g);
            forall u1: nat, u2: nat ::
              && (Regular(c, g, q, e, r, s, u1, u2) <==> ClearKey(d, e, r, s, u1, u2))
              && (Matches(c, g, q, e, r, s, u1, u2) <==> MatchesKey(c, g, d, e, r, s, u1, u2))
  {
    hide IsBase, Mult, Combination, NoCollision, ClearRun, Scalars;
    var q := Mult(c.g, d, g);
    BaseParts(c, g);
    forall u1: nat, u2: nat
      ensures Regular(c, g, q, e, r, s, u1, u2) <==> ClearKey(d, e, r, s, u1, u2)
      ensures Matches(c, g, q, e, r, s, u1, u2) <==> MatchesKey(c, g, d, e, r, s, u1, u2)
    {
      NoCollisionIs(c, g, N256, d, u1, u2);
      CombinationIs(c.g, g, d, u1, u2);
    }
  }

  /** What holds for some scalars of the verifier holds for all. */
  lemma {:induction false} OneMatch<G(!new)>(c: CurveGroup<G>, g: G, q: G, e: nat, r: nat, s: nat, u1: nat, u2: nat)
    requires Prime(N256) && 0 < s < N256 && Scalars(u1, u2, e, r, s)
    ensures (exists v1: nat, v2: nat :: Matches(c, g, q, e, r, s, v1, v2)) <==> Matches(c, g, q, e, r, s, u1, u2)
    ensures (exists v1: nat, v2: nat :: Regular(c, g, q, e, r, s, v1, v2)) <==> Regular(c, g, q, e, r, s, u1, u2)
  {
    hide Prime, NoCollision, Combination;
    forall v1: nat, v2: nat | Regular(c, g, q, e, r, s, v1, v2)
      ensures v1 == u1 && v2 == u2
    {
      ScalarsUnique(u1, u2, v1, v2, e, r, s);
    }
  }

  method InRange(r: array<Limb>, s: array<Limb>) returns (ok: bool)
    requires r.Length == s.Length == 4
    ensures ok <==> 0 < Val(r) < N256 && 0 < Val(s) < N256
  {
    hide Num;
    var zr := IsZero(r);
    var zs := IsZero(s);
    if zr || zs {
      return false;
    }
    var n := LoadN();
    var cr := Cmp(n, r);
    var cs := Cmp(n, s);
    return !(cr != 1 || cs != 1);
  }

  lemma {:induction false} SecondScalarNonzero(u2: nat, s: nat, r: nat)
    requires 0 < r < N256 && Cong(u2 * s, r, N256)
    ensures u2 > 0
  {}

  // ----- Agreement -----

  lemma {:induction false} MultPeriodic<G(!new)>(c: CurveGroup<G>, g: G, k: nat, j: nat)
    requires Abelian(c.g) && Mult(c.g, N256, g) == c.g.zero
    ensures Mult(c.g, k + j * N256, g) == Mult(c.g, k, g)
  {
    hide Mult;
    if j == 0 {
      assert k + 0 * N256 == k;
    } else {
      MultPeriodic(c, g, k, j - 1);
      MultAdd(c.g, k + (j - 1) * N256, N256, g);
      Zero(c.g, Mult(c.g, k, g));
      assert k + (j - 1) * N256 + N256 == k + j * N256;
    }
  }

  /** With q = d * g the recombined point is (u1 + u2 d) * g, so k * g when the scalars agree. */
  lemma {:induction false} RecombinedPoint<G(!new)>(c: CurveGroup<G>, g: G, d: nat, u1: nat, u2: nat, k: nat)
    requires Abelian(c.g) && Mult(c.g, N256, g) == c.g.zero
    requires Cong(u1 + u2 * d, k, N256)
    ensures Combination(c.g, u1, g, u2, Mult(c.g, d, g)) == Mult(c.g, k, g)
  {
    hide Mult;
    hide Abelian;
    var t := u1 + u2 * d;
    MultMult(c.g, u2, d, g);
    MultAdd(c.g, u1, u2 * d, g);
    MultPeriodic(c, g, t % N256, t / N256);
    MultPeriodic(c, g, k % N256, k / N256);
    assert t == t % N256 + (t / N256) * N256 && k == k % N256 + (k / N256) * N256;
  }

  /** For a signature with nonce k under the key d, the verifier recombines k * g, whose x coordinate is r
      unless k is 1. */
  lemma {:induction false} SignedPoint<G(!new)>(c: CurveGroup<G>, g: G, k: nat, d: nat, e: nat, r: nat, s: nat, u1: nat, u2: nat)
    requires IsBase(c, g) && k < N256 && s > 0 && Signed(c, g, k, d, e, r, s) && Scalars(u1, u2, e, r, s)
    ensures Combination(c.g, u1, g, u2, Mult(c.g, d, g)) == Mult(c.g, k, g)
    ensures 2 <= k ==> c.x(Mult(c.g, k, g)) % N256 == r
  {
    hide Num, Combination, IsBase, Mult, Commitment, Cong;
    BaseParts(c, g);
    Coprime(s);
    CommitmentIs(c, g, k);
    SignVerifyAgree(e, d, k, r, s, u1, u2, N256);
    RecombinedPoint(c, g, d, u1, u2, k);
  }

  /** A signature matches exactly if the verifier meets no degenerate step, where a nonce congruent to 1, whose
      commitment is that of 3, needs in addition that x(g) is r modulo n. */
  lemma {:induction false} SignedMatches<G(!new)>(c: CurveGroup<G>, g: G, k: nat, d: nat, e: nat, r: nat, s: nat)
    requires IsBase(c, g) && k < N256 && Signed(c, g, k, d, e, r, s) && s > 0
    ensures var q := Mult(c.g, d, g);
            (exists u1: nat, u2: nat :: Matches(c, g, q, e, r, s, u1, u2)) <==>
            (exists u1: nat, u2: nat :: Regular(c, g, q, e, r, s, u1, u2)) && (k == 1 ==> c.x(g) % N256 == r)
  {
    hide Num, IsBase, Mult, Commitment, Cong, Combination, NoCollision;
    var q := Mult(c.g, d, g);
    BaseParts(c, g);
    MultOne(c.g, g);
    forall u1: nat, u2: nat | Regular(c, g, q, e, r, s, u1, u2)
      ensures Matches(c, g, q, e, r, s, u1, u2) <==> (k == 1 ==> c.x(g) % N256 == r)
    {
      SignedPoint(c, g, k, d, e, r, s, u1, u2);
    }
  }

  /** A signature made with key d verifies under the public key d * g exactly when s is not zero and the verifier's
      scalars are clear for d; for a nonce congruent to 1 see SignedMatches. */
  method SignThenVerify<G(!new)>(key: seq<Byte>, publicKey: seq<Byte>, hash: seq<Byte>, nonces: seq<seq<Limb>>,
                                 ghost c: CurveGroup<G>, ghost g: G)
    returns (ok: bool, accept: bool, signature: seq<Byte>)
    requires |key| == 32 && |hash| == 32 && IsBase(c, g)
    requires Compressed(publicKey, c, Mult(c.g, BigEndian(key), g)) && !Eq(c.x(g), c.x(Mult(c.g, BigEndian(key), g)))
    requires forall i :: 0 <= i < |nonces| ==> |nonces[i]| == 4
    requires |nonces| > 0 ==> Num(nonces[0]) > 0
    ensures ok <==> Chosen(c, g, nonces) < |nonces| && Chosen(c, g, nonces) < MAX_TRIES
    ensures !ok ==> !accept
    ensures ok ==> |signature| == 64
    ensures ok ==>
              var k, d := Num(nonces[Chosen(c, g, nonces)]) % N256, BigEndian(key);
              var e, r, s := BigEndian(hash), BigEndian(signature[..32]), BigEndian(signature[32..]);
              accept <==> && s > 0 && (exists u1: nat, u2: nat :: ClearKey(d, e, r, s, u1, u2))
                          && (k == 1 ==> c.x(g) % N256 == r)
  {
    hide Num, BigEndian, Matches, MatchesKey, ClearKey, Regular, IsBase, Mult, Compressed, Commitment, Chosen, Eq;
    ghost var d, e := BigEndian(key), BigEndian(hash);
    ghost var q := Mult(c.g, d, g);
    accept := false;
    ok, signature := Sign(key, hash, nonces, c, g);
    if ok {
      ghost var k, r, s := Num(nonces[Chosen(c, g, nonces)]) % N256, BigEndian(signature[..32]), BigEndian(signature[32..]);
      assert Signed(c, g, k, d, e, r, s);
      accept := Verify(publicKey, hash, signature, c, g, q);
      if s > 0 {
        SignedMatches(c, g, k, d, e, r, s);
        KeyMatches(c, g, d, e, r, s);
      }
    }
  }
}
