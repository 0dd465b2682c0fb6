/** Scalar multiples in an abelian group, and the two multiplication loops of ecc.c over it. */
module Group {
  import opened Bits

  datatype Group<!G(!new)> = Group(add: (G, G) -> G, neg: G -> G, zero: G)

  ghost predicate Commutes<G(!new)>(g: Group<G>, a: G, b: G) {
    g.add(a, b) == g.add(b, a)
  }

  ghost predicate Associates<G(!new)>(g: Group<G>, a: G, b: G, c: G) {
    g.add(g.add(a, b), c) == g.add(a, g.add(b, c))
  }

  ghost predicate HasZeroAndInverse<G(!new)>(g: Group<G>, a: G) {
    g.add(a, g.zero) == a && g.add(a, g.neg(a)) == g.zero
  }

  ghost predicate Abelian<G(!new)>(g: Group<G>) {
    && (forall a, b :: Commutes(g, a, b))
    && (forall a, b, c :: Associates(g, a, b, c))
    && (forall a :: HasZeroAndInverse(g, a))
  }

  /** k * p. */
  function Mult<G(!new)>(g: Group<G>, k: nat, p: G): G {
    if k == 0 then g.zero else g.add(Mult(g, k - 1, p), p)
  }

  function Minus<G(!new)>(g: Group<G>, a: G, b: G): G {
    g.add(a, g.neg(b))
  }

  lemma {:induction false} Assoc<G(!new)>(g: Group<G>, a: G, b: G, c: G)
    requires Abelian(g)
    ensures g.add(g.add(a, b), c) == g.add(a, g.add(b, c))
  {
    assert Associates(g, a, b, c);
  }

  lemma {:induction false} Comm<G(!new)>(g: Group<G>, a: G, b: G)
    requires Abelian(g)
    ensures g.add(a, b) == g.add(b, a)
  {
    assert Commutes(g, a, b);
  }

  lemma {:induction false} Zero<G(!new)>(g: Group<G>, a: G)
    requires Abelian(g)
    ensures g.add(a, g.zero) == a == g.add(g.zero, a)
    ensures g.add(a, g.neg(a)) == g.zero == g.add(g.neg(a), a)
  {
    assert HasZeroAndInverse(g, a);
    Comm(g, a, g.zero);
    Comm(g, a, g.neg(a));
  }

  lemma {:induction false} MultAdd<G(!new)>(g: Group<G>, j: nat, k: nat, p: G)
    requires Abelian(g)
    ensures Mult(g, j + k, p) == g.add(Mult(g, j, p), Mult(g, k, p))
  {
    if k == 0 {
      Zero(g, Mult(g, j, p));
    } else {
      MultAdd(g, j, k - 1, p);
      Assoc(g, Mult(g, j, p), Mult(g, k - 1, p), p);
    }
  }

  lemma {:induction false} MultOne<G(!new)>(g: Group<G>, p: G)
    requires Abelian(g)
    ensures Mult(g, 1, p) == p
  {
    assert Mult(g, 0, p) == g.zero;
    Zero(g, p);
  }

  /** (a + b) + (c + d) = (a + c) + (b + d). */
  lemma {:induction false} Interchange<G(!new)>(g: Group<G>, a: G, b: G, c: G, d: G)
    requires Abelian(g)
    ensures g.add(g.add(a, b), g.add(c, d)) == g.add(g.add(a, c), g.add(b, d))
  {
    calc {
      g.add(g.add(a, b), g.add(c, d));
      { Assoc(g, a, b, g.add(c, d)); }
      g.add(a, g.add(b, g.add(c, d)));
      { Assoc(g, b, c, d); Comm(g, b, c); Assoc(g, c, b, d); }
      g.add(a, g.add(c, g.add(b, d)));
      { Assoc(g, a, c, g.add(b, d)); }
      g.add(g.add(a, c), g.add(b, d));
    }
  }

  /** k * (p + q) = k * p + k * q. */
  lemma {:induction false} MultDistributes<G(!new)>(g: Group<G>, k: nat, p: G, q: G)
    requires Abelian(g)
    ensures Mult(g, k, g.add(p, q)) == g.add(Mult(g, k, p), Mult(g, k, q))
  {
    if k == 0 {
      Zero(g, g.zero);
    } else {
      MultDistributes(g, k - 1, p, q);
      Interchange(g, Mult(g, k - 1, p), Mult(g, k - 1, q), p, q);
    }
  }

  /** j * (k * p) = (j * k) * p. */
  lemma {:induction false} MultMult<G(!new)>(g: Group<G>, j: nat, k: nat, p: G)
    requires Abelian(g)
    ensures Mult(g, j, Mult(g, k, p)) == Mult(g, j * k, p)
  {
    if j > 0 {
      MultMult(g, j - 1, k, p);
      MultAdd(g, (j - 1) * k, k, p);
      assert (j - 1) * k + k == j * k;
    }
  }

  lemma {:induction false} Cancel<G(!new)>(g: Group<G>, a: G, b: G)
    requires Abelian(g)
    ensures Minus(g, g.add(a, b), b) == a
    ensures g.add(Minus(g, a, b), b) == a
  {
    Assoc(g, a, b, g.neg(b));
    Assoc(g, a, g.neg(b), b);
    Zero(g, b);
    Zero(g, a);
  }

  /** x + b = c determines x. */
  lemma {:induction false} Unique<G(!new)>(g: Group<G>, a: G, b: G, c: G)
    requires Abelian(g) && g.add(a, c) == g.add(b, c)
    ensures a == b
  {
    Cancel(g, a, c);
    Cancel(g, b, c);
  }

  /** (a - b) + (a + b) = 2a. */
  lemma {:induction false} DifferencePlusSum<G(!new)>(g: Group<G>, a: G, b: G)
    requires Abelian(g)
    ensures g.add(g.add(a, b), Minus(g, a, b)) == g.add(a, a)
  {
    Interchange(g, a, b, a, g.neg(b));
    Zero(g, b);
    Zero(g, g.add(a, a));
  }

  // ----- The Montgomery ladder -----

  /** The scalar the ladder multiplies by: its first bit is taken as set and its last is always processed. */
  function LadderScalar(k: nat): (n: nat) {
    if k >= 2 then k else k + 2
  }

  /** One ladder step on the pair (a, b), where a is the register that gets doubled:
      a becomes (a + b) + (a - b) and b becomes a + b. */
  function StepDoubled<G(!new)>(g: Group<G>, a: G, b: G): G {
    g.add(g.add(a, b), Minus(g, a, b))
  }

  lemma {:induction false} LadderStep<G(!new)>(g: Group<G>, j: nat, p: G)
    requires Abelian(g)
    ensures StepDoubled(g, Mult(g, j, p), Mult(g, j + 1, p)) == Mult(g, 2 * j, p)
    ensures StepDoubled(g, Mult(g, j + 1, p), Mult(g, j, p)) == Mult(g, 2 * j + 2, p)
    ensures g.add(Mult(g, j, p), Mult(g, j + 1, p)) == Mult(g, 2 * j + 1, p)
    ensures g.add(Mult(g, j + 1, p), Mult(g, j, p)) == Mult(g, 2 * j + 1, p)
    ensures Minus(g, Mult(g, j + 1, p), Mult(g, j, p)) == p
    ensures Minus(g, Mult(g, j, p), Mult(g, j + 1, p)) == g.neg(p)
  {
    hide Mult;
    var r0, r1 := Mult(g, j, p), Mult(g, j + 1, p);
    DifferencePlusSum(g, r0, r1);
    DifferencePlusSum(g, r1, r0);
    MultAdd(g, j, j, p);
    MultAdd(g, j + 1, j + 1, p);
    MultAdd(g, j, j + 1, p);
    Comm(g, r0, r1);
    MultAdd(g, j, 1, p);
    MultOne(g, p);
    Comm(g, r0, p);
    Cancel(g, p, r0);
    NegOfDifference(g, r0, p);
  }

  lemma {:induction false} NegOfDifference<G(!new)>(g: Group<G>, a: G, p: G)
    requires Abelian(g)
    ensures Minus(g, a, g.add(a, p)) == g.neg(p)
  {
    var d := Minus(g, a, g.add(a, p));
    Cancel(g, a, g.add(a, p));
    Comm(g, a, p);
    Assoc(g, d, p, a);
    Zero(g, a);
    Unique(g, g.add(d, p), g.zero, a);
    Zero(g, p);
    Unique(g, d, g.neg(p), p);
  }

  /** The leading part of k above bit i. */
  function Top(k: nat, i: nat): (n: nat) {
    if i == 0 then k else Top(k / 2, i - 1)
  }

  lemma {:induction false} TopStep(k: nat, i: nat)
    ensures Top(k, i) == 2 * Top(k, i + 1) + Bit(k, i)
  {
    if i > 0 {
      TopStep(k / 2, i - 1);
    }
  }

  lemma {:induction false} TopOfLength(k: nat)
    requires k > 0
    ensures BitLen(k) > 0 && Top(k, BitLen(k) - 1) == 1
  {
    if k > 1 {
      TopOfLength(k / 2);
    }
  }

  /** The ladder of EccPoint_mult over any abelian group: it keeps R1 - R0 = p, and multiplies
      by the scalar exactly when the scalar is at least 2. */
  method Ladder<G(!new)>(g: Group<G>, p: G, k: nat) returns (r: G)
    requires Abelian(g)
    ensures r == Mult(g, LadderScalar(k), p)
  {
    hide Mult, Minus, StepDoubled;
    var r0, r1 := p, g.add(p, p);
    MultOne(g, p);
    MultAdd(g, 1, 1, p);
    ghost var j: nat := 1;
    if k > 0 {
      TopOfLength(k);
    }
    var i: int := BitLen(k) as int - 2;
    BitLenSmall(k);
    while i > 0
      invariant r0 == Mult(g, j, p) && r1 == Mult(g, j + 1, p)
      invariant if k >= 2 then i >= 0 && j == Top(k, i + 1) else i < 0 && j == 1
    {
      LadderStep(g, j, p);
      TopStep(k, i);
      if Bit(k, i) == 1 {
        r0, r1 := g.add(r1, r0), StepDoubled(g, r1, r0);
        j := 2 * j + 1;
      } else {
        r0, r1 := StepDoubled(g, r0, r1), g.add(r0, r1);
        j := 2 * j;
      }
      i := i - 1;
    }
    LadderStep(g, j, p);
    TopStep(k, 0);
    if Bit(k, 0) == 1 {
      r := g.add(r1, r0);
    } else {
      r := StepDoubled(g, r0, r1);
    }
  }

  lemma {:induction false} BitLenSmall(k: nat)
    ensures BitLen(k) >= 2 <==> k >= 2
  {
    if k >= 2 {
      assert BitLen(k) == 1 + BitLen(k / 2);
    } else {
      assert k / 2 == 0;
    }
  }

  // ----- Shamir's trick -----

  /** The point selected by one bit of each scalar; 0 selects none. */
  function Select<G(!new)>(g: Group<G>, p: G, q: G, b1: nat, b2: nat): G {
    if b1 == 1 && b2 == 1 then g.add(p, q) else if b1 == 1 then p else if b2 == 1 then q else g.zero
  }

  function Combination<G(!new)>(g: Group<G>, u1: nat, p: G, u2: nat, q: G): G {
    g.add(Mult(g, u1, p), Mult(g, u2, q))
  }

  /** Doubling and adding the selected point appends one bit to both scalars. */
  lemma {:induction false} ShamirStep<G(!new)>(g: Group<G>, j1: nat, p: G, j2: nat, q: G, b1: nat, b2: nat)
    requires Abelian(g) && b1 <= 1 && b2 <= 1
    ensures var r := Combination(g, j1, p, j2, q);
            g.add(Select(g, p, q, b1, b2), g.add(r, r)) == Combination(g, 2 * j1 + b1, p, 2 * j2 + b2, q)
  {
    hide Mult;
    var a, b := Mult(g, j1, p), Mult(g, j2, q);
    Interchange(g, a, b, a, b);
    MultAdd(g, j1, j1, p);
    MultAdd(g, j2, j2, q);
    SelectIs(g, p, q, b1, b2);
    MultAdd(g, b1, 2 * j1, p);
    MultAdd(g, b2, 2 * j2, q);
    Interchange(g, Mult(g, b1, p), Mult(g, b2, q), Mult(g, 2 * j1, p), Mult(g, 2 * j2, q));
  }

  lemma {:induction false} SelectIs<G(!new)>(g: Group<G>, p: G, q: G, b1: nat, b2: nat)
    requires Abelian(g) && b1 <= 1 && b2 <= 1
    ensures Select(g, p, q, b1, b2) == Combination(g, b1, p, b2, q)
  {
    MultOne(g, p);
    MultOne(g, q);
    Zero(g, p);
    Zero(g, q);
    Zero(g, g.zero);
    assert Mult(g, 0, p) == g.zero == Mult(g, 0, q);
  }

  function Max(a: nat, b: nat): (m: nat) {
    if a > b then a else b
  }

  lemma {:induction false} TopBeyondLength(k: nat, i: nat)
    requires BitLen(k) <= i
    ensures Top(k, i) == 0
  {
    if i > 0 {
      TopBeyondLength(k / 2, i - 1);
    }
  }

  /** The leading bits of the longer scalar are 1 and those of a shorter one 0. */
  lemma {:induction false} TopAtMost(k: nat, i: nat)
    requires BitLen(k) <= i + 1
    ensures Top(k, i) == Bit(k, i) && Top(k, i) <= 1
    ensures BitLen(k) == i + 1 ==> Top(k, i) == 1
  {
    TopStep(k, i);
    TopBeyondLength(k, i + 1);
    if BitLen(k) == i + 1 {
      TopOfLength(k);
    }
  }

  /** The double-scalar loop of ecdsa_verify over any abelian group. */
  method Shamir<G(!new)>(g: Group<G>, p: G, q: G, u1: nat, u2: nat) returns (r: G)
    requires Abelian(g) && (u1 > 0 || u2 > 0)
    ensures r == Combination(g, u1, p, u2, q)
  {
    hide Mult, Combination, Select;
    var bits := Max(BitLen(u1), BitLen(u2));
    BitLenBounds(u1);
    BitLenBounds(u2);
    TopAtMost(u1, bits - 1);
    TopAtMost(u2, bits - 1);
    r := Select(g, p, q, Bit(u1, bits - 1), Bit(u2, bits - 1));
    SelectIs(g, p, q, Bit(u1, bits - 1), Bit(u2, bits - 1));
    var i: int := bits as int - 2;
    while i >= 0
      invariant -1 <= i
      invariant r == Combination(g, Top(u1, i + 1), p, Top(u2, i + 1), q)
    {
      ShamirStep(g, Top(u1, i + 1), p, Top(u2, i + 1), q, Bit(u1, i), Bit(u2, i));
      TopStep(u1, i);
      TopStep(u2, i);
      r := g.add(Select(g, p, q, Bit(u1, i), Bit(u2, i)), g.add(r, r));
      i := i - 1;
    }
  }
}
