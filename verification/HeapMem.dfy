/** Heap memory as the headers, footers and payload bytes it holds, keyed by address.
    A write erases whatever overlaps the bytes it covers. */
module HeapMem {
  import opened Arith
  import opened Bits

  const NODE_SIZE := 32
  const FOOT_SIZE := 8
  const OVERHEAD := NODE_SIZE + FOOT_SIZE
  const MIN_ALLOC_SZ := 4
  const BIN_COUNT := 44

  /** A chunk header; 0 is the null pointer. */
  datatype Node = Node(hole: bool, size: nat, next: nat, prev: nat)

  predicate Apart(x: nat, width: nat, a: nat, len: nat) {
    x + width <= a || a + len <= x
  }

  /** What is left of a family of objects of one width after [a, a + len) is overwritten. */
  function Erase<T>(m: map<nat, T>, width: nat, a: nat, len: nat): (r: map<nat, T>) {
    map x | x in m && Apart(x, width, a, len) :: m[x]
  }

  datatype Mem = Mem(nodes: map<nat, Node>, foots: map<nat, nat>, data: map<nat, int>) {

    function PutNode(a: nat, n: Node): Mem {
      Mem(Erase(nodes, NODE_SIZE, a, NODE_SIZE)[a := n], Erase(foots, FOOT_SIZE, a, NODE_SIZE),
          Erase(data, 1, a, NODE_SIZE))
    }

    function PutFoot(f: nat, header: nat): Mem {
      Mem(Erase(nodes, NODE_SIZE, f, FOOT_SIZE), Erase(foots, FOOT_SIZE, f, FOOT_SIZE)[f := header],
          Erase(data, 1, f, FOOT_SIZE))
    }

    function PutByte(x: nat, v: int): Mem {
      Mem(Erase(nodes, NODE_SIZE, x, 1), Erase(foots, FOOT_SIZE, x, 1), data[x := v])
    }
  }

  /** Headers that do not overlap. */
  ghost predicate Spread(heads: set<nat>) {
    forall a, b :: a in heads && b in heads && a < b ==> a + NODE_SIZE <= b
  }

  /** An object of the given width lies outside every header. */
  ghost predicate ClearOf(x: nat, width: nat, heads: set<nat>) {
    forall a :: a in heads ==> Apart(x, width, a, NODE_SIZE)
  }

  /** Between two memories only links in the given headers changed: their sizes and hole flags,
      and every footer and byte outside them, are the same. */
  ghost predicate OnlyLinks(m: Mem, m': Mem, heads: set<nat>) {
    && heads <= m.nodes.Keys && heads <= m'.nodes.Keys
    && (forall a :: a in heads ==> m'.nodes[a].size == m.nodes[a].size && m'.nodes[a].hole == m.nodes[a].hole)
    && (forall f :: f in m.foots && ClearOf(f, FOOT_SIZE, heads) ==> f in m'.foots && m'.foots[f] == m.foots[f])
    && (forall x :: x in m.data && ClearOf(x, 1, heads) ==> x in m'.data && m'.data[x] == m.data[x])
    && m'.data.Keys <= m.data.Keys
  }

  lemma {:induction false} OnlyLinksTrans(m: Mem, m': Mem, m'': Mem, heads: set<nat>)
    requires OnlyLinks(m, m', heads) && OnlyLinks(m', m'', heads)
    ensures OnlyLinks(m, m'', heads)
  {}

  lemma {:induction false} OnlyLinksRefl(m: Mem, heads: set<nat>)
    requires heads <= m.nodes.Keys
    ensures OnlyLinks(m, m, heads)
  {}

  /** Relinking one header leaves the other headers alone. */
  lemma {:induction false} PutLinks(m: Mem, a: nat, n: Node, heads: set<nat>)
    requires Spread(heads) && heads <= m.nodes.Keys && a in heads
    requires n.size == m.nodes[a].size && n.hole == m.nodes[a].hole
    ensures OnlyLinks(m, m.PutNode(a, n), heads)
    ensures m.PutNode(a, n).nodes[a] == n
    ensures forall b :: b in heads && b != a ==> m.PutNode(a, n).nodes[b] == m.nodes[b]
  {
    var m' := m.PutNode(a, n);
    forall b | b in heads && b != a
      ensures b in m'.nodes && m'.nodes[b] == m.nodes[b]
    {
      assert Apart(b, NODE_SIZE, a, NODE_SIZE);
    }
  }

  // ----- Size classes -----

  /** The size class of a chunk size. */
  function BinIndex(size: nat): (b: nat)
    ensures b < BIN_COUNT
  {
    var n := BitLen(if size < 4 then 4 else size);
    if n < 3 then 0 else if n - 3 > BIN_COUNT - 1 then BIN_COUNT - 1 else n - 3
  }

  /** The size class by repeated shifting. */
  method GetBinIndex(size: nat) returns (index: nat)
    ensures index == BinIndex(size)
  {
    var n, sz := 0, if size < 4 then 4 else size;
    ghost var total := sz;
    sz := sz / 2;
    while sz > 0
      invariant sz >= 0 && n + 1 + BitLen(sz) == BitLen(total)
    {
      n := n + 1;
      sz := sz / 2;
    }
    BitLenMonotone(4, total);
    assert BitLen(4) == 3;
    index := n - 2;
    if index > BIN_COUNT - 1 {
      index := BIN_COUNT - 1;
    }
  }

  /** Class 0 holds the sizes below 8, class b those from 2^(b + 2) to 2^(b + 3), and the last all larger ones. */
  lemma {:induction false} BinRange(size: nat)
    ensures BinIndex(size) == 0 <==> size < 8
    ensures BinIndex(size) == BIN_COUNT - 1 <==> Pow(2, BIN_COUNT + 1) <= size
    ensures 0 < BinIndex(size) < BIN_COUNT - 1 ==> Pow(2, BinIndex(size) + 2) <= size < Pow(2, BinIndex(size) + 3)
  {
    hide Pow, BitLen;
    var total := if size < 4 then 4 else size;
    BitLenBounds(total);
    BitLenMonotone(4, total);
    PowOfThree();
    PowMonotone(2, 3, BIN_COUNT + 1);
    if BitLen(total) <= 3 {
      PowMonotone(2, BitLen(total), 3);
    } else {
      PowMonotone(2, 3, BitLen(total) - 1);
    }
    if BitLen(total) <= BIN_COUNT + 1 {
      PowMonotone(2, BitLen(total), BIN_COUNT + 1);
    } else {
      PowMonotone(2, BIN_COUNT + 1, BitLen(total) - 1);
    }
  }

  lemma {:induction false} PowOfThree()
    ensures Pow(2, 3) == 8 && BitLen(4) == 3
  {
    assert Pow(2, 1) == 2 * Pow(2, 0) && Pow(2, 2) == 2 * Pow(2, 1);
    assert BitLen(4) == 1 + BitLen(2) && BitLen(2) == 1 + BitLen(1) && BitLen(1) == 1 + BitLen(0);
  }

  lemma {:induction false} BitLenMonotone(m: nat, n: nat)
    requires m <= n
    ensures BitLen(m) <= BitLen(n)
  {
    if m > 0 {
      BitLenMonotone(m / 2, n / 2);
    }
  }

  /** Larger sizes are in the same or a later class. */
  lemma {:induction false} BinIndexMonotone(s: nat, t: nat)
    requires s <= t
    ensures BinIndex(s) <= BinIndex(t)
  {
    BitLenMonotone(if s < 4 then 4 else s, if t < 4 then 4 else t);
  }
}
