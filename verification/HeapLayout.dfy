/** Chunks that tile the heap, and what writes inside one chunk leave alone. */
module HeapLayout {
  import opened HeapMem
  import opened HeapLists

  /** A chunk by its payload size; its header address is its key. */
  datatype Chunk = Chunk(size: nat, hole: bool)

  type Chunks = map<nat, Chunk>

  /** The address just past the chunk at a. */
  function After(cs: Chunks, a: nat): nat
    requires a in cs
  {
    a + cs[a].size + OVERHEAD
  }

  function FootOf(cs: Chunks, a: nat): nat
    requires a in cs
  {
    a + NODE_SIZE + cs[a].size
  }

  ghost predicate Within(cs: Chunks, start: nat, end: nat, a: nat) {
    a in cs ==> start <= a && After(cs, a) <= end
  }

  /** The chunk at a comes before the chunk at b. */
  ghost predicate Ordered(cs: Chunks, a: nat, b: nat) {
    a in cs && b in cs && a < b ==> After(cs, a) <= b
  }

  ghost predicate HasNext(cs: Chunks, a: nat) {
    a in cs ==> After(cs, a) in cs
  }

  /** The chunks tile [start, end) and the one at wild is the last. */
  ghost predicate Tiling(cs: Chunks, start: nat, end: nat, wild: nat) {
    && 0 < start && start in cs && wild in cs && After(cs, wild) == end
    && (forall a {:trigger Within(cs, start, end, a)} :: Within(cs, start, end, a))
    && (forall a {:trigger HasNext(cs, a)} :: a != wild ==> HasNext(cs, a))
    && (forall a, b {:trigger Ordered(cs, a, b)} :: Ordered(cs, a, b))
  }

  ghost predicate TagsAt(m: Mem, cs: Chunks, a: nat)
    requires a in cs
  {
    && a in m.nodes && m.nodes[a].size == cs[a].size && m.nodes[a].hole == cs[a].hole
    && FootOf(cs, a) in m.foots && m.foots[FootOf(cs, a)] == a
  }

  /** Every chunk has its header and its footer. */
  ghost predicate Tags(m: Mem, cs: Chunks) {
    forall a :: a in cs ==> TagsAt(m, cs, a)
  }

  /** Byte x has the same contents in both memories. */
  ghost predicate SameByte(m: Mem, m': Mem, x: nat) {
    (x in m.data <==> x in m'.data) && (x in m.data ==> m'.data[x] == m.data[x])
  }

  ghost predicate PayloadKept(m: Mem, m': Mem, a: nat, size: nat) {
    forall x :: a + NODE_SIZE <= x < a + NODE_SIZE + size ==> SameByte(m, m', x)
  }

  /** Nothing outside [lo, hi) changed. */
  ghost predicate KeptBeyond(m: Mem, m': Mem, lo: nat, hi: nat) {
    && lo <= hi
    && (forall a :: a in m.nodes && Apart(a, NODE_SIZE, lo, hi - lo) ==> a in m'.nodes && m'.nodes[a] == m.nodes[a])
    && (forall f :: f in m.foots && Apart(f, FOOT_SIZE, lo, hi - lo) ==> f in m'.foots && m'.foots[f] == m.foots[f])
    && (forall x :: Apart(x, 1, lo, hi - lo) ==> SameByte(m, m', x))
  }

  lemma {:induction false} PutNodeKeeps(m: Mem, a: nat, n: Node, lo: nat, hi: nat)
    requires lo <= a && a + NODE_SIZE <= hi
    ensures KeptBeyond(m, m.PutNode(a, n), lo, hi) && a in m.PutNode(a, n).nodes && m.PutNode(a, n).nodes[a] == n
  {}

  lemma {:induction false} PutFootKeeps(m: Mem, f: nat, h: nat, lo: nat, hi: nat)
    requires lo <= f && f + FOOT_SIZE <= hi
    ensures KeptBeyond(m, m.PutFoot(f, h), lo, hi) && f in m.PutFoot(f, h).foots && m.PutFoot(f, h).foots[f] == h
  {}

  lemma {:induction false} PutByteKeeps(m: Mem, x: nat, v: int, lo: nat, hi: nat)
    requires lo <= x < hi
    ensures KeptBeyond(m, m.PutByte(x, v), lo, hi)
  {}

  lemma {:induction false} NodeStays(m: Mem, a: nat, n: Node, f: nat, h: nat, b: nat)
    requires b in m.nodes
    ensures Apart(b, NODE_SIZE, a, NODE_SIZE) ==> b in m.PutNode(a, n).nodes && m.PutNode(a, n).nodes[b] == m.nodes[b]
    ensures Apart(b, NODE_SIZE, f, FOOT_SIZE) ==> b in m.PutFoot(f, h).nodes && m.PutFoot(f, h).nodes[b] == m.nodes[b]
  {}

  lemma {:induction false} KeptTrans(m: Mem, m': Mem, m'': Mem, lo: nat, hi: nat)
    requires KeptBeyond(m, m', lo, hi) && KeptBeyond(m', m'', lo, hi)
    ensures KeptBeyond(m, m'', lo, hi)
  {
    forall x | Apart(x, 1, lo, hi - lo)
      ensures SameByte(m, m'', x)
    {
      assert SameByte(m, m', x) && SameByte(m', m'', x);
    }
  }

  lemma {:induction false} TilingSpread(cs: Chunks, start: nat, end: nat, wild: nat)
    requires Tiling(cs, start, end, wild)
    ensures Spread(cs.Keys) && 0 !in cs.Keys
  {
    forall a, b | a in cs.Keys && b in cs.Keys && a < b
      ensures a + NODE_SIZE <= b
    {
      assert Ordered(cs, a, b);
    }
    assert Within(cs, start, end, 0);
  }

  /** A chunk whose span is outside the written range keeps its tags, links and payload. */
  lemma {:induction false} ChunkKept(m: Mem, m': Mem, cs: Chunks, a: nat, lo: nat, hi: nat)
    requires KeptBeyond(m, m', lo, hi) && a in cs && TagsAt(m, cs, a)
    requires After(cs, a) <= lo || hi <= a
    ensures TagsAt(m', cs, a) && m'.nodes[a] == m.nodes[a] && PayloadKept(m, m', a, cs[a].size)
  {
    assert Apart(a, NODE_SIZE, lo, hi - lo);
    assert Apart(FootOf(cs, a), FOOT_SIZE, lo, hi - lo);
    forall x | a + NODE_SIZE <= x < a + NODE_SIZE + cs[a].size
      ensures SameByte(m, m', x)
    {
      assert Apart(x, 1, lo, hi - lo);
    }
  }

  /** Relinking headers keeps all tags and payloads. */
  lemma {:induction false} LinksKeepChunks(m: Mem, m': Mem, cs: Chunks, start: nat, end: nat, wild: nat)
    requires Tiling(cs, start, end, wild) && Tags(m, cs) && OnlyLinks(m, m', cs.Keys)
    ensures Tags(m', cs) && forall a :: a in cs ==> PayloadKept(m, m', a, cs[a].size)
  {
    forall a | a in cs
      ensures TagsAt(m', cs, a) && PayloadKept(m, m', a, cs[a].size)
    {
      assert TagsAt(m, cs, a);
      FootClear(cs, start, end, wild, a);
      forall x | a + NODE_SIZE <= x < a + NODE_SIZE + cs[a].size
        ensures SameByte(m, m', x)
      {
        ByteClear(cs, start, end, wild, a, x);
      }
    }
  }

  lemma {:induction false} FootClear(cs: Chunks, start: nat, end: nat, wild: nat, a: nat)
    requires Tiling(cs, start, end, wild) && a in cs
    ensures ClearOf(FootOf(cs, a), FOOT_SIZE, cs.Keys)
  {
    forall b | b in cs.Keys
      ensures Apart(FootOf(cs, a), FOOT_SIZE, b, NODE_SIZE)
    {
      assert Ordered(cs, a, b) && Ordered(cs, b, a);
    }
  }

  lemma {:induction false} ByteClear(cs: Chunks, start: nat, end: nat, wild: nat, a: nat, x: nat)
    requires Tiling(cs, start, end, wild) && a in cs && a + NODE_SIZE <= x < a + NODE_SIZE + cs[a].size
    ensures ClearOf(x, 1, cs.Keys)
  {
    forall b | b in cs.Keys
      ensures Apart(x, 1, b, NODE_SIZE)
    {
      assert Ordered(cs, a, b) && Ordered(cs, b, a);
    }
  }

  // ----- Rearranging chunks -----

  /** Splitting the chunk at a into one of the given payload size and a rest. */
  function Split(cs: Chunks, a: nat, size: nat): (r: Chunks)
    requires a in cs && cs[a].size >= size + OVERHEAD
  {
    cs[a := Chunk(size, cs[a].hole)][a + size + OVERHEAD := Chunk(cs[a].size - size - OVERHEAD, true)]
  }

  lemma {:induction false} SplitTiles(cs: Chunks, start: nat, end: nat, wild: nat, a: nat, size: nat)
    requires Tiling(cs, start, end, wild) && a in cs && cs[a].size >= size + OVERHEAD
    ensures a + size + OVERHEAD !in cs
    ensures Tiling(Split(cs, a, size), start, end, if a == wild then a + size + OVERHEAD else wild)
  {
    var s, r := a + size + OVERHEAD, Split(cs, a, size);
    assert Ordered(cs, a, s);
    forall b, c
      ensures Ordered(r, b, c)
    {
      assert Ordered(cs, b, c) && Ordered(cs, a, b) && Ordered(cs, b, a) && Ordered(cs, a, c);
    }
    forall b | b != (if a == wild then s else wild)
      ensures HasNext(r, b)
    {
      if b == s {
        assert HasNext(cs, a);
      } else {
        assert b != wild ==> HasNext(cs, b);
      }
    }
    forall b
      ensures Within(r, start, end, b)
    {
      assert Within(cs, start, end, b) && Within(cs, start, end, a);
    }
  }

  /** Joining the chunk at a with the one after it. */
  function Join(cs: Chunks, a: nat): (r: Chunks)
    requires a in cs && After(cs, a) in cs
  {
    (cs - {After(cs, a)})[a := Chunk(cs[a].size + OVERHEAD + cs[After(cs, a)].size, cs[a].hole)]
  }

  lemma {:induction false} JoinTiles(cs: Chunks, start: nat, end: nat, wild: nat, a: nat)
    requires Tiling(cs, start, end, wild) && a in cs && After(cs, a) in cs
    ensures Tiling(Join(cs, a), start, end, if After(cs, a) == wild then a else wild)
    ensures After(Join(cs, a), a) == After(cs, After(cs, a))
  {
    var n, r := After(cs, a), Join(cs, a);
    forall b, c
      ensures Ordered(r, b, c)
    {
      assert Ordered(cs, b, c) && Ordered(cs, n, c) && Ordered(cs, a, c);
    }
    forall b | b != (if n == wild then a else wild)
      ensures HasNext(r, b)
    {
      if b == a {
        assert HasNext(cs, n);
      } else {
        assert b != wild ==> HasNext(cs, b);
        assert Ordered(cs, a, b) && Ordered(cs, b, a);
        assert Within(cs, start, end, n);
      }
    }
    forall b
      ensures Within(r, start, end, b)
    {
      assert Within(cs, start, end, b) && Within(cs, start, end, n) && Within(cs, start, end, a);
    }
    assert Within(cs, start, end, a);
  }

  /** Growing the last chunk. */
  function Grow(cs: Chunks, wild: nat, sz: nat): (r: Chunks)
    requires wild in cs
  {
    cs[wild := Chunk(cs[wild].size + sz, cs[wild].hole)]
  }

  lemma {:induction false} GrowTiles(cs: Chunks, start: nat, end: nat, wild: nat, sz: nat)
    requires Tiling(cs, start, end, wild)
    ensures Tiling(Grow(cs, wild, sz), start, end + sz, wild)
  {
    var r, end' := Grow(cs, wild, sz), end + sz;
    forall b, c
      ensures Ordered(r, b, c)
    {
      assert Ordered(cs, b, c) && Within(cs, start, end, c);
    }
    forall b | b != wild
      ensures HasNext(r, b)
    {
      assert HasNext(cs, b);
    }
    forall b
      ensures Within(r, start, end', b)
    {
      assert Within(cs, start, end, b);
    }
  }

  /** Marking a chunk as hole or live. */
  lemma {:induction false} MarkTiles(cs: Chunks, start: nat, end: nat, wild: nat, a: nat, hole: bool)
    requires Tiling(cs, start, end, wild) && a in cs
    ensures Tiling(cs[a := Chunk(cs[a].size, hole)], start, end, wild)
  {
    var r := cs[a := Chunk(cs[a].size, hole)];
    forall b, c
      ensures Ordered(r, b, c)
    {
      assert Ordered(cs, b, c);
    }
    forall b | b != wild
      ensures HasNext(r, b)
    {
      assert HasNext(cs, b);
    }
    forall b
      ensures Within(r, start, end, b)
    {
      assert Within(cs, start, end, b);
    }
  }

  // ----- Bins and chunks -----

  /** The bin a header belongs in: that of its size if it is a hole, unless ex says otherwise;
      BIN_COUNT is no bin. */
  ghost function HomeOf(cs: Chunks, ex: map<nat, nat>, a: nat): nat {
    if a in ex then ex[a] else if a in cs && cs[a].hole then BinIndex(cs[a].size) else BIN_COUNT
  }

  /** Every header is in its home bin and in no other. */
  ghost predicate Binned(lists: seq<seq<nat>>, cs: Chunks, ex: map<nat, nat>) {
    && |lists| == BIN_COUNT
    && (forall a, b {:trigger a in lists[b]} :: 0 <= b < BIN_COUNT ==> (a in lists[b] <==> b == HomeOf(cs, ex, a)))
  }

  ghost predicate SortedExcept(nodes: map<nat, Node>, l: seq<nat>, ex: set<nat>) {
    forall i, j :: 0 <= i < j < |l| && l[i] in nodes && l[j] in nodes && l[i] !in ex && l[j] !in ex ==>
      nodes[l[i]].size <= nodes[l[j]].size
  }

  ghost predicate AllSorted(nodes: map<nat, Node>, lists: seq<seq<nat>>, ex: set<nat>) {
    forall b :: 0 <= b < |lists| ==> SortedExcept(nodes, lists[b], ex)
  }

  lemma {:induction false} SortedWithoutExceptions(nodes: map<nat, Node>, l: seq<nat>, ex: set<nat>)
    requires SortedExcept(nodes, l, ex) && forall i :: 0 <= i < |l| ==> l[i] !in ex
    ensures SortedAt(nodes, l)
  {}

  lemma {:induction false} SortedTransfer(nodes: map<nat, Node>, nodes': map<nat, Node>, l: seq<nat>, ex: set<nat>)
    requires SortedExcept(nodes, l, ex)
    requires forall i :: 0 <= i < |l| && l[i] !in ex ==> l[i] in nodes && l[i] in nodes' && nodes'[l[i]].size == nodes[l[i]].size
    ensures SortedExcept(nodes', l, ex)
  {}

  lemma {:induction false} RemovedStaysSorted(nodes: map<nat, Node>, l: seq<nat>, k: nat, ex: set<nat>)
    requires SortedExcept(nodes, l, ex) && k < |l|
    ensures SortedExcept(nodes, Removed(l, k), ex)
  {
    var r := Removed(l, k);
    RemovedAt(l, k);
    forall i, j | 0 <= i < j < |r| && r[i] in nodes && r[j] in nodes && r[i] !in ex && r[j] !in ex
      ensures nodes[r[i]].size <= nodes[r[j]].size
    {
      assert r[i] == l[if i < k then i else i + 1] && r[j] == l[if j < k then j else j + 1];
    }
  }

  /** Every chunk but x has its header and its footer. */
  ghost predicate TagsBut(m: Mem, cs: Chunks, x: nat) {
    forall a :: a in cs && a != x ==> TagsAt(m, cs, a)
  }

  /** Writes inside the chunk at x keep the tags, links and payloads of the others. */
  lemma {:induction false} InsideWrites(m: Mem, m': Mem, cs: Chunks, start: nat, end: nat, wild: nat, x: nat)
    requires Tiling(cs, start, end, wild) && TagsBut(m, cs, x) && x in cs && KeptBeyond(m, m', x, After(cs, x))
    ensures TagsBut(m', cs, x)
    ensures forall a :: a in cs && a != x ==> a in m.nodes && m'.nodes[a] == m.nodes[a]
    ensures forall a :: a in cs && a != x ==> PayloadKept(m, m', a, cs[a].size)
  {
    forall a | a in cs && a != x
      ensures TagsAt(m', cs, a) && a in m.nodes && m'.nodes[a] == m.nodes[a] && PayloadKept(m, m', a, cs[a].size)
    {
      assert TagsAt(m, cs, a) && Ordered(cs, a, x) && Ordered(cs, x, a);
      ChunkKept(m, m', cs, a, x, After(cs, x));
    }
  }

  lemma {:induction false} LinksKeepTagsBut(m: Mem, m': Mem, cs: Chunks, start: nat, end: nat, wild: nat, x: nat)
    requires Tiling(cs, start, end, wild) && TagsBut(m, cs, x) && OnlyLinks(m, m', cs.Keys)
    ensures TagsBut(m', cs, x) && forall a :: a in cs ==> PayloadKept(m, m', a, cs[a].size)
  {
    forall a | a in cs
      ensures a != x ==> TagsAt(m', cs, a)
      ensures PayloadKept(m, m', a, cs[a].size)
    {
      assert a != x ==> TagsAt(m, cs, a);
      FootClear(cs, start, end, wild, a);
      forall y | a + NODE_SIZE <= y < a + NODE_SIZE + cs[a].size
        ensures SameByte(m, m', y)
      {
        ByteClear(cs, start, end, wild, a, y);
      }
    }
  }

  /** The new header and footer of a split, with the old chunk's header not yet updated. */
  lemma {:induction false} SplitTags(m: Mem, m': Mem, cs: Chunks, start: nat, end: nat, wild: nat, x: nat, size: nat)
    requires Tiling(cs, start, end, wild) && Tags(m, cs) && x in cs && cs[x].size >= size + OVERHEAD
    requires var s := x + size + OVERHEAD;
             && KeptBeyond(m, m', s, After(cs, x)) && s in m'.nodes
             && m'.nodes[s].size == cs[x].size - size - OVERHEAD && m'.nodes[s].hole
             && After(cs, x) - FOOT_SIZE in m'.foots && m'.foots[After(cs, x) - FOOT_SIZE] == s
    ensures TagsBut(m', Split(cs, x, size), x)
    ensures forall a :: a in cs ==> a in m.nodes && a in m'.nodes && m'.nodes[a] == m.nodes[a]
    ensures forall a :: a in cs && a != x ==> PayloadKept(m, m', a, cs[a].size)
  {
    var s, r := x + size + OVERHEAD, Split(cs, x, size);
    assert Ordered(cs, x, s);
    assert TagsAt(m, cs, x) && Apart(x, NODE_SIZE, s, After(cs, x) - s);
    forall a | a in cs && a != x
      ensures a in m.nodes && a in m'.nodes && m'.nodes[a] == m.nodes[a] && PayloadKept(m, m', a, cs[a].size)
      ensures TagsAt(m', cs, a)
    {
      assert TagsAt(m, cs, a) && Ordered(cs, a, x) && Ordered(cs, x, a);
      ChunkKept(m, m', cs, a, s, After(cs, x));
    }
    forall a | a in r && a != x
      ensures TagsAt(m', r, a)
    {
      if a != s {
        assert TagsAt(m', cs, a);
      }
    }
  }

  /** Rewriting headers without changing their links keeps the bins. */
  lemma {:induction false} SameLinks(nodes: map<nat, Node>, nodes': map<nat, Node>, bins: seq<nat>, lists: seq<seq<nat>>, heads: set<nat>)
    requires ListsOk(nodes, bins, lists) && AllIn(lists, heads)
    requires forall a :: a in heads ==> a in nodes && a in nodes' && nodes'[a].next == nodes[a].next && nodes'[a].prev == nodes[a].prev
    ensures ListsOk(nodes', bins, lists)
  {
    forall b | 0 <= b < BIN_COUNT
      ensures ListAt(nodes', bins[b], lists[b])
    {
      assert ListAt(nodes, bins[b], lists[b]);
    }
  }

  /** Writes inside the chunk at x that leave it tagged and keep its links. */
  lemma {:induction false} Retagged(m: Mem, m': Mem, cs: Chunks, start: nat, end: nat, wild: nat, x: nat,
                                    bins: seq<nat>, lists: seq<seq<nat>>, ex: set<nat>)
    requires Tiling(cs, start, end, wild) && x in cs && TagsBut(m, cs, x) && KeptBeyond(m, m', x, After(cs, x))
    requires TagsAt(m', cs, x) && x in m.nodes && m'.nodes[x].next == m.nodes[x].next && m'.nodes[x].prev == m.nodes[x].prev
    requires ListsOk(m.nodes, bins, lists) && AllIn(lists, cs.Keys) && AllSorted(m.nodes, lists, ex) && x in ex
    ensures Tags(m', cs) && cs.Keys <= m'.nodes.Keys
    ensures ListsOk(m'.nodes, bins, lists) && AllSorted(m'.nodes, lists, ex)
    ensures forall a :: a in cs && a != x ==> PayloadKept(m, m', a, cs[a].size)
  {
    hide Tiling, KeptBeyond, ListsOk, SortedExcept, PayloadKept;
    InsideWrites(m, m', cs, start, end, wild, x);
    SameLinks(m.nodes, m'.nodes, bins, lists, cs.Keys);
    forall b | 0 <= b < |lists|
      ensures SortedExcept(m'.nodes, lists[b], ex)
    {
      SortedTransfer(m.nodes, m'.nodes, lists[b], ex);
    }
  }

  /** The chunk at a is allocated. */
  predicate Live(cs: Chunks, a: nat) {
    a in cs && !cs[a].hole
  }

  /** Apart from the chunks in xs the same chunks are allocated, with the same sizes and payloads. */
  ghost predicate LiveKept(m: Mem, cs: Chunks, m': Mem, cs': Chunks, xs: set<nat>) {
    forall a {:trigger Live(cs, a)} {:trigger Live(cs', a)} :: a !in xs ==>
      && (Live(cs, a) <==> Live(cs', a))
      && (Live(cs, a) ==> cs'[a] == cs[a] && PayloadKept(m, m', a, cs[a].size))
  }

  lemma {:induction false} PayloadTrans(m: Mem, m': Mem, m'': Mem, a: nat, size: nat)
    requires PayloadKept(m, m', a, size) && PayloadKept(m', m'', a, size)
    ensures PayloadKept(m, m'', a, size)
  {
    forall x | a + NODE_SIZE <= x < a + NODE_SIZE + size
      ensures SameByte(m, m'', x)
    {
      assert SameByte(m, m', x) && SameByte(m', m'', x);
    }
  }

  lemma {:induction false} LiveKeptTrans(m: Mem, cs: Chunks, m': Mem, cs': Chunks, m'': Mem, cs'': Chunks, xs: set<nat>)
    requires LiveKept(m, cs, m', cs', xs) && LiveKept(m', cs', m'', cs'', xs)
    ensures LiveKept(m, cs, m'', cs'', xs)
  {
    hide PayloadKept;
    forall a | a !in xs
      ensures Live(cs, a) <==> Live(cs'', a)
      ensures Live(cs, a) ==> cs''[a] == cs[a] && PayloadKept(m, m'', a, cs[a].size)
    {
      assert Live(cs, a) <==> Live(cs', a);
      if Live(cs, a) {
        PayloadTrans(m, m', m'', a, cs[a].size);
      }
    }
  }

  /** Every chunk but the first has one before it. */
  lemma {:induction false} ChunkBefore(cs: Chunks, start: nat, end: nat, wild: nat, h: nat, from: nat) returns (b: nat)
    requires Tiling(cs, start, end, wild) && h in cs && from in cs && from < h
    ensures b in cs && After(cs, b) == h
    decreases h - from
  {
    assert Ordered(cs, from, h) && Within(cs, start, end, h);
    b := from;
    if After(cs, from) != h {
      assert HasNext(cs, from);
      b := ChunkBefore(cs, start, end, wild, h, After(cs, from));
    }
  }

  /** The footer just below a chunk names the chunk before it. */
  lemma {:induction false} FooterBefore(m: Mem, cs: Chunks, start: nat, end: nat, wild: nat, h: nat)
    requires Tiling(cs, start, end, wild) && Tags(m, cs) && h in cs && h != start
    ensures h >= FOOT_SIZE && h - FOOT_SIZE in m.foots
    ensures var b := m.foots[h - FOOT_SIZE]; b in cs && After(cs, b) == h
  {
    assert Within(cs, start, end, h);
    var b := ChunkBefore(cs, start, end, wild, h, start);
    assert TagsAt(m, cs, b);
  }

  /** Every byte of the heap lies in a chunk. */
  lemma {:induction false} ChunkAround(cs: Chunks, start: nat, end: nat, wild: nat, x: nat, from: nat) returns (b: nat)
    requires Tiling(cs, start, end, wild) && from in cs && from <= x < end
    ensures b in cs && b <= x < After(cs, b)
    decreases x - from
  {
    b := from;
    if After(cs, from) <= x {
      assert HasNext(cs, from);
      b := ChunkAround(cs, start, end, wild, x, After(cs, from));
    }
  }

  /** Every byte of the heap lies in exactly one chunk. */
  lemma {:induction false} TilesExactly(cs: Chunks, start: nat, end: nat, wild: nat, x: nat)
    requires Tiling(cs, start, end, wild)
    ensures start <= x < end <==> exists b :: b in cs && b <= x < After(cs, b)
    ensures forall a, b :: a in cs && b in cs && a <= x < After(cs, a) && b <= x < After(cs, b) ==> a == b
  {
    if start <= x < end {
      var b := ChunkAround(cs, start, end, wild, x, start);
    }
    forall b | b in cs && b <= x < After(cs, b)
      ensures start <= x < end
    {
      assert Within(cs, start, end, b);
    }
    forall a, b | a in cs && b in cs && a <= x < After(cs, a) && b <= x < After(cs, b)
      ensures a == b
    {
      assert Ordered(cs, a, b) && Ordered(cs, b, a);
    }
  }

  // ----- What freeing does to the chunks -----

  /** The chunks once the chunk at h is freed: it joins the hole before it and the hole after it, unless it is
      the first chunk, which joins neither. The freed space is part of the chunk at home. */
  ghost predicate Freed(cs: Chunks, cs': Chunks, start: nat, h: nat, home: nat) {
    && h in cs && home in cs' && cs'[home].hole
    && (forall b :: b in cs && After(cs, b) == h ==> home == if cs[b].hole then b else h)
    && (h == start ==> home == h)
    && (var n := After(cs, h); After(cs', home) == if h != start && n in cs && cs[n].hole then After(cs, n) else n)
    && (forall a :: a in cs && (a < home || a >= After(cs', home)) ==> a in cs' && cs'[a] == cs[a])
    && (forall a :: a in cs' && a != home ==> a in cs)
  }

  /** Freeing a chunk that is not the first makes one hole of it and the holes next to it; freeing the first only
      makes it a hole. No other chunk changes. */
  lemma {:induction false} FreedSize(cs: Chunks, cs': Chunks, start: nat, end: nat, wild: nat, h: nat, home: nat, b: nat, n: nat)
    requires Tiling(cs, start, end, wild) && Freed(cs, cs', start, h, home) && n == After(cs, h) && n in cs
    requires h != start ==> b in cs && After(cs, b) == h
    ensures h == start ==> home == h && cs' == cs[h := Chunk(cs[h].size, true)]
    ensures h != start ==>
              && home == (if cs[b].hole then b else h)
              && cs'[home] == Chunk(cs[h].size + (if cs[b].hole then cs[b].size + 40 else 0)
                                               + (if cs[n].hole then cs[n].size + 40 else 0), true)
              && (forall a :: a in cs && a != h && !(a == b && cs[b].hole) && !(a == n && cs[n].hole) ==>
                    a in cs' && cs'[a] == cs[a])
              && (forall a :: a in cs' && a != home ==> a in cs)
  {
    forall a | a in cs && a != h && a != b && a != n
      ensures a < home || a >= After(cs', home)
    {
      assert Ordered(cs, a, h) && Ordered(cs, h, a) && Ordered(cs, a, b) && Ordered(cs, b, a) && Ordered(cs, n, a) && Ordered(cs, a, n);
    }
    if h == start {
      StartIsLeast(cs, start, end, wild, h);
      assert cs'.Keys == cs.Keys;
    }
  }

  lemma {:induction false} StartIsLeast(cs: Chunks, start: nat, end: nat, wild: nat, h: nat)
    requires Tiling(cs, start, end, wild) && h == start
    ensures forall a :: a in cs && a != h ==> a >= After(cs, h)
  {
    forall a | a in cs && a != h
      ensures a >= After(cs, h)
    {
      assert Within(cs, start, end, a) && Ordered(cs, h, a);
    }
  }

  /** The chunk map that freeing produces; prev is the chunk before h. */
  function FreedMap(cs: Chunks, start: nat, h: nat, prev: nat): Chunks
    requires h in cs && (h != start ==> prev in cs && After(cs, prev) == h && After(cs, h) in cs)
  {
    if h == start then cs[h := Chunk(cs[h].size, true)]
    else
      var back := cs[prev].hole;
      var x := if back then prev else h;
      var cs1 := if back then Join(cs, prev) else cs;
      var cs2 := if cs[After(cs, h)].hole then Join(cs1, x) else cs1;
      cs2[x := Chunk(cs2[x].size, true)]
  }

  lemma {:induction false} NextChunk(cs: Chunks, start: nat, end: nat, wild: nat, h: nat)
    requires Tiling(cs, start, end, wild) && h in cs && h != wild
    ensures After(cs, h) in cs
  {
    assert HasNext(cs, h);
  }

  /** Joining the chunk before h leaves the one after h in place. */
  lemma {:induction false} AfterBack(cs: Chunks, start: nat, end: nat, wild: nat, h: nat, prev: nat)
    requires Tiling(cs, start, end, wild) && h in cs && h != wild && prev in cs && After(cs, prev) == h && After(cs, h) in cs
    ensures prev != wild
    ensures var r, n := Join(cs, prev), After(cs, h);
            && n in r && r[n] == cs[n] && prev in r && r[prev].hole == cs[prev].hole
            && After(r, prev) == n && wild in r && r[wild] == cs[wild]
  {
    assert Within(cs, start, end, h);
  }

  lemma {:induction false} FreedFirst(cs: Chunks, start: nat, end: nat, wild: nat)
    requires Tiling(cs, start, end, wild)
    ensures Freed(cs, cs[start := Chunk(cs[start].size, true)], start, start, start)
  {
    forall b | b in cs
      ensures After(cs, b) != start
    {
      assert Within(cs, start, end, b);
    }
  }

  /** The one chunk that ends where h starts. */
  lemma {:induction false} BeforeIsUnique(cs: Chunks, start: nat, end: nat, wild: nat, prev: nat, b: nat)
    requires Tiling(cs, start, end, wild) && prev in cs && b in cs && After(cs, b) == After(cs, prev)
    ensures b == prev
  {
    assert Ordered(cs, b, prev) && Ordered(cs, prev, b);
  }

  lemma {:induction false} FreedShape(cs: Chunks, start: nat, end: nat, wild: nat, h: nat, prev: nat)
    requires Tiling(cs, start, end, wild) && h in cs && h != start && h != wild && prev in cs && After(cs, prev) == h
    requires After(cs, h) in cs && cs[wild].hole && !cs[h].hole
    ensures var x, n, r := if cs[prev].hole then prev else h, After(cs, h), FreedMap(cs, start, h, prev);
            && Freed(cs, r, start, h, x) && !Live(r, h)
            && var last := if cs[n].hole && n == wild then x else wild;
               last in r && r[last].hole && r[last].size >= cs[wild].size
  {
    hide Tiling;
    var x, n, r := if cs[prev].hole then prev else h, After(cs, h), FreedMap(cs, start, h, prev);
    AfterBack(cs, start, end, wild, h, prev);
    var hi := if cs[n].hole then After(cs, n) else n;
    assert x in r && After(r, x) == hi;
    forall b | b in cs && After(cs, b) == h
      ensures b == prev
    {
      BeforeIsUnique(cs, start, end, wild, prev, b);
    }
  }
}
