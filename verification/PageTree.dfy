/** Sv39 tables as a tree of pages, and the partial map they denote. */
module PageTree {
  import opened Arith

  /** A page table entry; ppn is the page it names. */
  datatype Pte = Pte(v: bool, r: bool, w: bool, x: bool, u: bool, g: bool, a: bool, d: bool, ppn: nat)

  const ZERO := Pte(false, false, false, false, false, false, false, false, 0)
  const ENTRIES := 512

  type Tables = map<nat, seq<Pte>>

  /** Positions of tables in the tree: the slots taken on the way from the root. */
  type Places = map<nat, seq<nat>>

  datatype Option<T> = None | Some(value: T)

  /** A leaf entry and the depth it is found at: 0 for 1 GiB, 1 for 2 MiB and 2 for 4 KiB blocks. */
  datatype Mapping = Mapping(level: nat, pte: Pte)

  predicate IsLeaf(e: Pte) {
    e.r || e.w || e.x
  }

  predicate IsPointer(e: Pte) {
    e.v && !IsLeaf(e)
  }

  /** The entry for a next table: only its valid bit and page are set. */
  function PointerTo(page: nat): Pte {
    ZERO.(v := true, ppn := page)
  }

  function BlockSize(level: nat): (s: nat)
    ensures s > 0
  {
    if level == 0 then 0x4000_0000 else if level == 1 then 0x20_0000 else 0x1000
  }

  /** The slot of an address in a table at the given depth. */
  function Slot(va: nat, depth: nat): (s: nat)
    ensures s < ENTRIES
  {
    va / BlockSize(depth) % ENTRIES
  }

  function Path(va: nat, depth: nat): (p: seq<nat>)
    ensures |p| == depth
  {
    if depth == 0 then [] else Path(va, depth - 1) + [Slot(va, depth - 1)]
  }

  /** The leaf an address leads to, starting from a table at the given depth. */
  ghost function Lookup(ts: Tables, page: nat, va: nat, depth: nat): Option<Mapping>
    decreases 3 - depth
  {
    if depth > 2 || page !in ts || |ts[page]| != ENTRIES || !ts[page][Slot(va, depth)].v then None
    else if IsLeaf(ts[page][Slot(va, depth)]) then Some(Mapping(depth, ts[page][Slot(va, depth)]))
    else Lookup(ts, ts[page][Slot(va, depth)].ppn, va, depth + 1)
  }

  /** A pointer entry leads to the table at the next position. */
  ghost predicate ChildOk(ts: Tables, place: Places, p: nat, i: nat) {
    p in place && i < ENTRIES && p in ts && |ts[p]| == ENTRIES ==>
      && (!ts[p][i].v ==> ts[p][i] == ZERO)
      && (|place[p]| == 2 ==> !IsPointer(ts[p][i]))
      && (IsPointer(ts[p][i]) ==> ts[p][i] == PointerTo(ts[p][i].ppn) && ts[p][i].ppn in place && place[ts[p][i].ppn] == place[p] + [i])
  }

  /** Table p has a pointer to table q, which comes next on its path. */
  ghost predicate Points(ts: Tables, place: Places, p: nat, q: nat) {
    && p in place && q in place && |place[q]| > 0 && place[p] == place[q][..|place[q]| - 1]
    && var i := place[q][|place[q]| - 1];
       p in ts && i < |ts[p]| && IsPointer(ts[p][i]) && ts[p][i].ppn == q
  }

  ghost predicate HasParent(ts: Tables, place: Places, q: nat) {
    exists p :: Points(ts, place, p, q)
  }

  /** The tables in place form a tree: every table but the root is named by exactly one entry. */
  ghost predicate Tree(ts: Tables, place: Places, root: nat) {
    && root in place && place[root] == []
    && (forall q :: q in place ==> q in ts && |ts[q]| == ENTRIES && |place[q]| <= 2)
    && (forall p, q :: p in place && q in place && place[p] == place[q] ==> p == q)
    && (forall p, i {:trigger ChildOk(ts, place, p, i)} :: ChildOk(ts, place, p, i))
    && (forall q {:trigger HasParent(ts, place, q)} :: q in place && q != root ==> HasParent(ts, place, q))
  }

  /** No table page is shared: two pointer entries that name the same page are the same entry. */
  lemma {:induction false} NoSharing(ts: Tables, place: Places, root: nat, p: nat, i: nat, p': nat, i': nat)
    requires Tree(ts, place, root) && p in place && p' in place && i < ENTRIES && i' < ENTRIES
    requires IsPointer(ts[p][i]) && IsPointer(ts[p'][i']) && ts[p][i].ppn == ts[p'][i'].ppn
    ensures p == p' && i == i' && ts[p][i].ppn != root
  {
    assert ChildOk(ts, place, p, i) && ChildOk(ts, place, p', i');
    assert place[p] == (place[p] + [i])[..|place[p]|] && place[p'] == (place[p'] + [i'])[..|place[p']|];
    assert (place[p] + [i])[|place[p]|] == i && (place[p'] + [i'])[|place[p']|] == i';
  }

  /** Walking from the root passes through the table at each position on the way. */
  lemma {:induction false} LookupVia(ts: Tables, place: Places, root: nat, va: nat, p: nat, d: nat)
    requires Tree(ts, place, root) && p in place && place[p] == Path(va, d)
    ensures Lookup(ts, root, va, 0) == Lookup(ts, p, va, d)
    decreases d
  {
    if d == 0 {
      assert p == root;
    } else {
      assert HasParent(ts, place, p);
      var p' :| Points(ts, place, p', p);
      assert Path(va, d)[..d - 1] == Path(va, d - 1);
      LookupVia(ts, place, root, va, p', d - 1);
    }
  }

  // ----- Changing one entry -----

  function Write(ts: Tables, p: nat, i: nat, e: Pte): Tables
    requires p in ts && i < |ts[p]|
  {
    ts[p := ts[p][i := e]]
  }

  /** The address goes through entry i of the table at the given position. */
  predicate Through(place: seq<nat>, i: nat, va: nat) {
    Path(va, |place| + 1) == place + [i]
  }

  lemma {:induction false} ThroughIs(place: seq<nat>, i: nat, va: nat)
    ensures Through(place, i, va) <==> Path(va, |place|) == place && Slot(va, |place|) == i
  {
    var d := |place|;
    assert (place + [i])[..d] == place && (place + [i])[d] == i;
    assert Path(va, d + 1)[..d] == Path(va, d) && Path(va, d + 1)[d] == Slot(va, d);
  }

  /** Addresses that do not go through the entry look up as before. */
  lemma {:induction false} LookupElsewhere(ts: Tables, place: Places, root: nat, p: nat, i: nat, e: Pte, va: nat, q: nat, d: nat)
    requires Tree(ts, place, root) && p in place && i < ENTRIES && q in place && place[q] == Path(va, d)
    requires !Through(place[p], i, va)
    ensures Lookup(Write(ts, p, i, e), q, va, d) == Lookup(ts, q, va, d)
    decreases 3 - d
  {
    var s := Slot(va, d);
    if q == p {
      ThroughIs(place[p], i, va);
    }
    assert ChildOk(ts, place, q, s);
    if IsPointer(ts[q][s]) {
      LookupElsewhere(ts, place, root, p, i, e, va, ts[q][s].ppn, d + 1);
    }
  }

  /** The tables that are not below an entry. */
  ghost function Prune(place: Places, at: seq<nat>): Places {
    map q | q in place && !(at <= place[q]) :: place[q]
  }

  /** Writing a leaf or clearing an entry keeps the tree that is left. */
  lemma {:induction false} WriteKeepsTree(ts: Tables, place: Places, root: nat, p: nat, i: nat, e: Pte)
    requires Tree(ts, place, root) && p in place && i < ENTRIES && (e == ZERO || (e.v && IsLeaf(e)))
    ensures Tree(Write(ts, p, i, e), Prune(place, place[p] + [i]), root)
    ensures p in Prune(place, place[p] + [i])
  {
    var ts', at := Write(ts, p, i, e), place[p] + [i];
    var place' := Prune(place, at);
    forall r: nat, j: nat
      ensures ChildOk(ts', place', r, j)
    {
      ChildStays(ts, place, root, p, i, e, r, j);
    }
    forall q | q in place' && q != root
      ensures HasParent(ts', place', q)
    {
      assert HasParent(ts, place, q);
      var r :| Points(ts, place, r, q);
      assert place[q] == place[r] + [place[q][|place[q]| - 1]];
      assert Points(ts', place', r, q);
    }
  }

  lemma {:induction false} ChildStays(ts: Tables, place: Places, root: nat, p: nat, i: nat, e: Pte, r: nat, j: nat)
    requires Tree(ts, place, root) && p in place && i < ENTRIES && (e == ZERO || (e.v && IsLeaf(e)))
    ensures ChildOk(Write(ts, p, i, e), Prune(place, place[p] + [i]), r, j)
  {
    assert ChildOk(ts, place, r, j);
    if r in Prune(place, place[p] + [i]) && j < ENTRIES && !(r == p && j == i) {
      StillPlaced(place, r, j, p, i);
    }
  }

  lemma {:induction false} StillPlaced(place: Places, r: nat, j: nat, p: nat, i: nat)
    requires r in place && p in place && !(place[p] + [i] <= place[r])
    requires forall a, b :: a in place && b in place && place[a] == place[b] ==> a == b
    requires !(r == p && j == i)
    ensures !(place[p] + [i] <= place[r] + [j])
  {
    var at, next := place[p] + [i], place[r] + [j];
    assert at[..|place[p]|] == place[p] && at[|place[p]|] == i;
    assert next[..|place[r]|] == place[r] && next[|place[r]|] == j;
    assert |at| <= |place[r]| ==> next[..|at|] == place[r][..|at|];
  }

  /** A new table: an empty page named by an entry that was not valid. */
  lemma {:induction false} GrowKeepsTree(ts: Tables, place: Places, root: nat, p: nat, i: nat, e: Pte)
    requires Tree(ts, place, root) && p in place && i < ENTRIES && |place[p]| < 2 && !ts[p][i].v && e == PointerTo(e.ppn)
    requires e.ppn !in place && e.ppn in ts && ts[e.ppn] == seq(ENTRIES, k => ZERO)
    ensures Tree(Write(ts, p, i, e), place[e.ppn := place[p] + [i]], root)
  {
    var ts', place', n := Write(ts, p, i, e), place[e.ppn := place[p] + [i]], e.ppn;
    NotThere(ts, place, root, p, i);
    forall r: nat, j: nat
      ensures ChildOk(ts', place', r, j)
    {
      assert ChildOk(ts, place, r, j);
    }
    forall q | q in place' && q != root
      ensures HasParent(ts', place', q)
    {
      if q == n {
        assert (place[p] + [i])[..|place[p]|] == place[p];
        assert Points(ts', place', p, q);
      } else {
        assert HasParent(ts, place, q);
        var r :| Points(ts, place, r, q);
        assert Points(ts', place', r, q);
      }
    }
  }

  /** No table is at a position whose entry is not a pointer. */
  lemma {:induction false} NotThere(ts: Tables, place: Places, root: nat, p: nat, i: nat)
    requires Tree(ts, place, root) && p in place && i < ENTRIES && !IsPointer(ts[p][i])
    ensures forall q :: q in place ==> place[q] != place[p] + [i]
  {
    assert (place[p] + [i])[..|place[p]|] == place[p];
    forall q | q in place && q != root
      ensures place[q] != place[p] + [i]
    {
      assert HasParent(ts, place, q);
      var r :| Points(ts, place, r, q);
    }
  }

  /** What every address looks up after a leaf is written or an entry is cleared. */
  lemma {:induction false} LookupWritten(ts: Tables, place: Places, root: nat, p: nat, i: nat, e: Pte, va: nat)
    requires Tree(ts, place, root) && p in place && i < ENTRIES && (e == ZERO || (e.v && IsLeaf(e)))
    ensures Lookup(Write(ts, p, i, e), root, va, 0) ==
            if !Through(place[p], i, va) then Lookup(ts, root, va, 0)
            else if e == ZERO then None else Some(Mapping(|place[p]|, e))
  {
    if Through(place[p], i, va) {
      ThroughIs(place[p], i, va);
      WriteKeepsTree(ts, place, root, p, i, e);
      LookupVia(Write(ts, p, i, e), Prune(place, place[p] + [i]), root, va, p, |place[p]|);
    } else {
      LookupElsewhere(ts, place, root, p, i, e, va, root, 0);
    }
  }

  /** A new table changes no lookup. */
  lemma {:induction false} LookupGrown(ts: Tables, place: Places, root: nat, p: nat, i: nat, e: Pte, va: nat)
    requires Tree(ts, place, root) && p in place && i < ENTRIES && |place[p]| < 2 && !ts[p][i].v && e == PointerTo(e.ppn)
    requires e.ppn !in place && e.ppn in ts && ts[e.ppn] == seq(ENTRIES, k => ZERO)
    ensures Lookup(Write(ts, p, i, e), root, va, 0) == Lookup(ts, root, va, 0)
  {
    if Through(place[p], i, va) {
      ThroughIs(place[p], i, va);
      LookupVia(ts, place, root, va, p, |place[p]|);
      GrowKeepsTree(ts, place, root, p, i, e);
      LookupVia(Write(ts, p, i, e), place[e.ppn := place[p] + [i]], root, va, p, |place[p]|);
    } else {
      LookupElsewhere(ts, place, root, p, i, e, va, root, 0);
    }
  }

  // ----- Blocks of addresses -----

  /** Two addresses in the same block of the given level. */
  predicate SameBlock(x: nat, y: nat, level: nat) {
    Path(x, level + 1) == Path(y, level + 1)
  }

  lemma {:induction false} PathsAgree(x: nat, y: nat, d: nat)
    ensures Path(x, d) == Path(y, d) <==> forall k :: 0 <= k < d ==> Slot(x, k) == Slot(y, k)
  {
    if d > 0 {
      PathsAgree(x, y, d - 1);
      var p, q := Path(x, d), Path(y, d);
      assert p[..d - 1] == Path(x, d - 1) && q[..d - 1] == Path(y, d - 1);
      assert p[d - 1] == Slot(x, d - 1) && q[d - 1] == Slot(y, d - 1);
    }
  }

  lemma {:induction false} DivTwice(x: nat, a: nat, b: nat)
    requires a > 0 && b > 0
    ensures a * b > 0 && x / (a * b) == x / a / b && x % (a * b) == x / a % b * a + x % a && x % (a * b) / a == x / a % b
  {
    var q, r, s := x / a / b, x / a % b, x % a;
    MulLe(r, b - 1, a);
    assert x == (q * b + r) * a + s == q * (a * b) + (r * a + s);
    assert (b - 1) * a == a * b - a;
    DivModUnique(x, q, r * a + s, a * b);
    DivModUnique(r * a + s, r, s, a);
  }

  /** The slots of an address are the digits of its page number. */
  lemma {:induction false} PageDigits(x: nat)
    ensures Slot(x, 0) == x / 0x1000 / 0x4_0000 % 512 && Slot(x, 1) == x / 0x1000 / 0x200 % 512
    ensures x % 0x80_0000_0000 / 0x1000 == Slot(x, 0) * 0x4_0000 + Slot(x, 1) * 0x200 + Slot(x, 2)
    ensures x % 0x80_0000_0000 / 0x20_0000 == Slot(x, 0) * 0x200 + Slot(x, 1)
    ensures x % 0x80_0000_0000 / 0x4000_0000 == Slot(x, 0)
  {
    var n := x / 0x1000;
    DivTwice(x, 0x1000, 0x4_0000);
    DivTwice(x, 0x1000, 0x200);
    DivTwice(x, 0x1000, 0x800_0000);
    DivTwice(x, 0x20_0000, 0x4_0000);
    DivTwice(x, 0x4000_0000, 512);
    DivTwice(n, 0x200, 512);
    DivTwice(n, 0x4_0000, 512);
    DivTwice(n / 0x200, 0x200, 512);
  }

  /** Blocks are the aligned ranges of the block size within the 39-bit address space. */
  lemma {:induction false} SameBlockIs(x: nat, y: nat, level: nat)
    requires level <= 2
    ensures SameBlock(x, y, level) <==> x % 0x80_0000_0000 / BlockSize(level) == y % 0x80_0000_0000 / BlockSize(level)
  {
    hide Slot, SameBlock;
    PageDigits(x);
    PageDigits(y);
    SlotsAgree(x, y, level);
    SlotBound(x);
    SlotBound(y);
  }

  lemma {:induction false} SlotBound(x: nat)
    ensures Slot(x, 0) < 512 && Slot(x, 1) < 512 && Slot(x, 2) < 512
  {}

  lemma {:induction false} SlotsAgree(x: nat, y: nat, level: nat)
    requires level <= 2
    ensures SameBlock(x, y, level) <==>
            && Slot(x, 0) == Slot(y, 0) && (level > 0 ==> Slot(x, 1) == Slot(y, 1)) && (level > 1 ==> Slot(x, 2) == Slot(y, 2))
  {
    hide Slot;
    PathsAgree(x, y, level + 1);
  }

  /** A 64-bit address with bit 38 copied into the bits above it. */
  function SignExtended(va: nat): nat
    requires va < 0x1_0000_0000_0000_0000
  {
    var t := va * 0x200_0000 % 0x1_0000_0000_0000_0000;
    t / 0x200_0000 + if t < 0x8000_0000_0000_0000 then 0 else 0x1_0000_0000_0000_0000 - 0x80_0000_0000
  }

  /** Sign extension changes no slot. */
  lemma {:induction false} ExtendedSlots(va: nat, depth: nat)
    requires va < 0x1_0000_0000_0000_0000 && depth <= 2
    ensures Slot(SignExtended(va), depth) == Slot(va, depth)
  {
    hide Slot, SameBlock;
    var low, e := va % 0x80_0000_0000, SignExtended(va);
    assert va * 0x200_0000 == va / 0x80_0000_0000 * 0x1_0000_0000_0000_0000 + low * 0x200_0000;
    DivModUnique(va * 0x200_0000, va / 0x80_0000_0000, low * 0x200_0000, 0x1_0000_0000_0000_0000);
    assert e == low || e == low + 0x1ff_ffff * 0x80_0000_0000;
    SameBlockIs(e, va, 2);
    SlotsAgree(e, va, 2);
  }

  lemma {:induction false} AlignedRange(va: nat, x: nat, s: nat, n: nat)
    requires s > 0 && n > 0 && va % s == 0 && va <= x < va + s
    ensures x % s == x - va && x % (s * n) / s == va % (s * n) / s
  {
    var q := va / s;
    DivModUnique(x, q, x - va, s);
    DivTwice(x, s, n);
    DivTwice(va, s, n);
  }

  lemma {:induction false} BlockOffset(va: nat, x: nat, level: nat)
    requires level <= 2 && va % BlockSize(level) == 0 && va <= x < va + BlockSize(level)
    ensures SameBlock(x, va, level) && x % BlockSize(level) == x - va
  {
    hide SameBlock;
    SameBlockIs(x, va, level);
    AlignedRange(va, x, BlockSize(level), if level == 0 then 512 else if level == 1 then 0x4_0000 else 0x800_0000);
  }

  // ----- Entries and physical addresses -----

  /** The address a leaf gives, or 0. */
  function Physical(m: Option<Mapping>, va: nat): nat {
    match m
    case None => 0
    case Some(Mapping(level, pte)) => pte.ppn * 0x1000 + va % BlockSize(level)
  }

  lemma {:induction false} PathPlus(va: nat, place: seq<nat>, level: nat, x: nat)
    requires place == Path(va, level)
    ensures Through(place, Slot(va, level), x) <==> SameBlock(x, va, level)
  {}
}
