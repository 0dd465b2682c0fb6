/** Bins, tags and live chunks under the single steps of the heap operations. */
module HeapBins {
  import opened HeapMem
  import opened HeapLists
  import opened HeapLayout
  import opened Sizes

  const MIN_WILDERNESS := 0x10000
  const POOL_VA_START := 0x30_0000_0000

  /** Writing a payload byte of the chunk at h keeps the contents of the others. */
  lemma {:induction false} StoreLive(m: Mem, m': Mem, cs: Chunks, start: nat, end: nat, wild: nat, h: nat, i: nat)
    requires Tiling(cs, start, end, wild) && h in cs && i < cs[h].size
    requires forall x :: x != h + NODE_SIZE + i ==> SameByte(m, m', x)
    ensures LiveKept(m, cs, m', cs, {h})
  {
    hide Tiling;
    forall a | Live(cs, a) && a != h
      ensures PayloadKept(m, m', a, cs[a].size)
    {
      PayloadsApart(cs, start, end, wild, a, h);
    }
  }

  /** Payloads of different chunks do not overlap. */
  lemma {:induction false} PayloadsApart(cs: Chunks, start: nat, end: nat, wild: nat, a: nat, b: nat)
    requires Tiling(cs, start, end, wild) && a in cs && b in cs && a != b
    ensures Apart(a + NODE_SIZE, cs[a].size, b + NODE_SIZE, cs[b].size)
  {
    assert Ordered(cs, a, b) && Ordered(cs, b, a);
  }

  lemma {:induction false} RetireLive(m: Mem, m1: Mem, m': Mem, cs: Chunks, r: Chunks, x: nat, head: nat)
    requires x in cs && (x == head || cs[x].hole) && r == cs[x := Chunk(cs[x].size, true)]
    requires forall a :: a in r && a != x ==> PayloadKept(m, m1, a, r[a].size)
    requires forall a :: a in r ==> PayloadKept(m1, m', a, r[a].size)
    ensures LiveKept(m, cs, m', r, {head})
  {
    hide PayloadKept;
    forall a | Live(cs, a) && a != x
      ensures PayloadKept(m, m', a, cs[a].size)
    {
      assert a in r && r[a] == cs[a];
      PayloadTrans(m, m1, m', a, cs[a].size);
    }
  }

  lemma {:induction false} Joined(cs: Chunks, x: nat)
    requires x in cs && After(cs, x) in cs
    ensures var r := Join(cs, x); x in r && After(r, x) == After(cs, After(cs, x)) && r[x].hole == cs[x].hole
  {}

  lemma {:induction false} BothTagged(m: Mem, cs: Chunks, x: nat, y: nat)
    requires Tags(m, cs) && x in cs && y in cs
    ensures TagsAt(m, cs, x) && TagsAt(m, cs, y) && x in m.nodes
  {}

  /** Forgetting a chunk that is in no bin. */
  lemma {:induction false} DropBins(lists: seq<seq<nat>>, cs: Chunks, cs': Chunks, ex: map<nat, nat>, ex': map<nat, nat>, x: nat, gone: nat)
    requires Binned(lists, cs, ex) && x in ex && ex' == ex - {gone} && HomeOf(cs, ex, gone) == BIN_COUNT
    requires AllIn(lists, cs.Keys)
    requires cs'.Keys == cs.Keys - {gone} && x != gone && forall a :: a in cs' && a != x ==> cs'[a] == cs[a]
    ensures Binned(lists, cs', ex') && AllIn(lists, cs'.Keys)
  {
    forall a, c | 0 <= c < BIN_COUNT
      ensures a in lists[c] <==> c == HomeOf(cs', ex', a)
    {
      assert a in lists[c] <==> c == HomeOf(cs, ex, a);
    }
    forall b, i | 0 <= b < |lists| && 0 <= i < |lists[b]|
      ensures lists[b][i] in cs'.Keys
    {
      assert gone in lists[b] <==> b == HomeOf(cs, ex, gone);
    }
  }

  lemma {:induction false} DropSorted(nodes: map<nat, Node>, lists: seq<seq<nat>>, cs: Chunks,
                                      ex: map<nat, nat>, ex': map<nat, nat>, gone: nat)
    requires Binned(lists, cs, ex) && ex' == ex - {gone} && HomeOf(cs, ex, gone) == BIN_COUNT
    requires AllSorted(nodes, lists, ex.Keys)
    ensures AllSorted(nodes, lists, ex'.Keys)
  {
    forall c | 0 <= c < |lists|
      ensures SortedExcept(nodes, lists[c], ex'.Keys)
    {
      assert gone in lists[c] <==> c == HomeOf(cs, ex, gone);
      assert SortedExcept(nodes, lists[c], ex.Keys);
    }
  }

  lemma {:induction false} JoinLive(m: Mem, m1: Mem, m': Mem, cs: Chunks, x: nat, next: nat)
    requires x in cs && next == After(cs, x) && next in cs && cs[x].hole
    requires forall a :: a in cs ==> PayloadKept(m, m1, a, cs[a].size)
    requires var r := Join(cs, x); forall a :: a in r && a != x ==> PayloadKept(m1, m', a, r[a].size)
    ensures LiveKept(m, cs, m', Join(cs, x), {next})
  {
    hide PayloadKept;
    var r := Join(cs, x);
    forall a | Live(cs, a) && a != next
      ensures PayloadKept(m, m', a, cs[a].size)
    {
      assert a in r && r[a] == cs[a];
      PayloadTrans(m, m1, m', a, cs[a].size);
    }
  }

  lemma {:induction false} JoinLiveNext(m: Mem, m1: Mem, m': Mem, cs: Chunks, x: nat, next: nat, head: nat)
    requires x in cs && next == After(cs, x) && next in cs && cs[next].hole && (x == head || cs[x].hole)
    requires forall a :: a in cs ==> PayloadKept(m, m1, a, cs[a].size)
    requires var r := Join(cs, x); forall a :: a in r && a != x ==> PayloadKept(m1, m', a, r[a].size)
    ensures LiveKept(m, cs, m', Join(cs, x), {head})
  {
    hide PayloadKept;
    var r := Join(cs, x);
    forall a | Live(cs, a) && a != head
      ensures PayloadKept(m, m', a, cs[a].size)
    {
      assert a in r && r[a] == cs[a];
      PayloadTrans(m, m1, m', a, cs[a].size);
    }
  }

  lemma {:induction false} LiveKeptMore(m: Mem, cs: Chunks, m': Mem, cs': Chunks, xs: set<nat>)
    requires LiveKept(m, cs, m', cs', {})
    ensures LiveKept(m, cs, m', cs', xs)
    ensures forall a {:trigger Live(cs, a)} {:trigger Live(cs', a)} :: Live(cs, a) <==> Live(cs', a)
  {}

  lemma {:induction false} StillLive(m: Mem, cs: Chunks, m': Mem, cs': Chunks, x: nat)
    requires LiveKept(m, cs, m', cs', {}) && Live(cs, x)
    ensures Live(cs', x) && cs'[x] == cs[x]
  {}

  /** A request of this size is served by the last chunk: it fits, every other hole that fits is larger,
      or as large and later in its bin. */
  ghost predicate TakesLast(cs: Chunks, wild: nat, lists: seq<seq<nat>>, size: nat)
    requires wild in cs && |lists| == BIN_COUNT
  {
    && cs[wild].size >= size
    && forall a :: a in cs && cs[a].hole && cs[a].size >= size && a != wild ==>
         cs[a].size > cs[wild].size || (cs[a].size == cs[wild].size && Before(lists[BinIndex(cs[wild].size)], wild, a))
  }

  /** Some hole is large enough. */
  ghost predicate Fits(cs: Chunks, size: nat) {
    exists a :: a in cs && cs[a].hole && cs[a].size >= size
  }

  /** No smaller hole than the one at x is large enough. */
  ghost predicate Smallest(cs: Chunks, size: nat, x: nat) {
    && x in cs && cs[x].hole && cs[x].size >= size
    && forall a :: a in cs && cs[a].hole && cs[a].size >= size ==> cs[x].size <= cs[a].size
  }

  /** Of the holes as large as the one at x, that one comes first in its bin. */
  ghost predicate First(cs: Chunks, lists: seq<seq<nat>>, x: nat) {
    && x in cs && |lists| == BIN_COUNT
    && forall a :: a in cs && cs[a].hole && cs[a].size == cs[x].size && a != x ==> Before(lists[BinIndex(cs[x].size)], x, a)
  }

  /** What the heap asks for when no hole fits: enough to leave 64 KiB in the last chunk. */
  ghost function Shortage(cs: Chunks, wild: nat, size: nat): int
    requires wild in cs
  {
    if exists a :: a in cs && cs[a].hole && cs[a].size >= size then 0 else size + 0x10000 - cs[wild].size
  }

  /** The heap after the chunk at h served a request of size bytes: the chunk has exactly that size and a hole of the
      rest behind it, or it keeps the size of the hole if no more than 44 bytes would be left over. The last chunk,
      and with it the heap, grew by what was short when no hole fitted and is topped up to its minimum. No other chunk
      changed. */
  ghost predicate Allocated(cs: Chunks, wild: nat, end: nat, cs': Chunks, wild': nat, end': nat, h: nat, size: nat) {
    && wild in cs && h in cs && cs[h].hole
    && var short := Shortage(cs, wild, size);
       var had := if h == wild then cs[h].size + short else cs[h].size;
       var split, rest := had - size > 44, h + size + 40;
       var left := if h != wild then cs[wild].size else if split then had - size - 40 else had;
       var topUp := if left < 0x10000 then 0x10000 - left else 0;
       && had >= size && (short != 0 ==> h == wild)
       && cs'.Keys == (if split then cs.Keys + {rest} else cs.Keys)
       && cs'[h] == Chunk(if split then size else had, false)
       && wild' == (if split && h == wild then rest else wild)
       && (split && h != wild ==> cs'[rest] == Chunk(had - size - 40, true))
       && (wild' != h ==> cs'[wild'] == Chunk(left + topUp, true))
       && (forall a :: a in cs && a != h && a != wild ==> cs'[a] == cs[a])
       && end' == end + short + topUp
  }

  /** A first request that leaves the last chunk its minimum splits off exactly its size and does not grow the heap. */
  lemma {:induction false} FreshAllocated(cs': Chunks, wild': nat, end': nat, h: nat, size: nat)
    requires size <= PARTITION_SIZE - 80 - MIN_WILDERNESS
    requires Allocated(map[POOL_VA_START := Chunk(PARTITION_SIZE - 40, true)], POOL_VA_START, POOL_VA_START + PARTITION_SIZE,
                       cs', wild', end', h, size)
    ensures h == POOL_VA_START && wild' == POOL_VA_START + size + 40 && end' == POOL_VA_START + PARTITION_SIZE
    ensures cs' == map[h := Chunk(size, false), wild' := Chunk(PARTITION_SIZE - 80 - size, true)]
  {
    var cs := map[POOL_VA_START := Chunk(PARTITION_SIZE - 40, true)];
    assert POOL_VA_START in cs && cs[POOL_VA_START].hole && cs[POOL_VA_START].size >= size;
  }

  /** When an allocation grows the heap, and by how much: not if another hole than the last served it; by what the last
      chunk then lacks of 64 KiB if that one did; and by 40 bytes more than the missing ones and 64 KiB if none fitted. */
  lemma {:induction false} AllocatedGrowth(cs: Chunks, wild: nat, end: nat, cs': Chunks, wild': nat, end': nat, h: nat, size: nat)
    requires Allocated(cs, wild, end, cs', wild', end', h, size) && cs[wild].hole && cs[wild].size >= 0x10000
    ensures h != wild ==>
              && end' == end && wild' == wild && cs'[wild] == cs[wild] && cs[h].size >= size
              && cs'[h] == Chunk(if cs[h].size - size > 44 then size else cs[h].size, false)
              && (cs[h].size - size > 44 ==> h + size + 40 in cs' && cs'[h + size + 40] == Chunk(cs[h].size - size - 40, true))
    ensures h == wild && cs[wild].size >= size ==>
              var left := cs[wild].size - size - 40;
              if left > 4 then && end' == end + (if left < 0x10000 then 0x10000 - left else 0) && wild' == h + size + 40
                               && cs'[h] == Chunk(size, false) && cs'[wild'] == Chunk(if left < 0x10000 then 0x10000 else left, true)
              else end' == end && wild' == wild && cs'[h] == Chunk(cs[h].size, false)
    ensures cs[wild].size < size && (forall a :: a in cs && cs[a].hole ==> cs[a].size < size) ==>
              && h == wild && end' == end + (size - cs[wild].size) + 0x10000 + 40
              && cs'[h] == Chunk(size, false) && wild' == h + size + 40 && cs'[wild'] == Chunk(0x10000, true)
  {
    if cs[wild].size >= size {
      assert wild in cs && cs[wild].hole && cs[wild].size >= size;
    }
  }

  /** The steps of an allocation, seen on the chunks alone. */
  lemma {:induction false} AllocatedSteps(cs: Chunks, start: nat, end: nat, wild: nat, size: nat, h: nat, sz: nat,
                                          cs1: Chunks, cs2: Chunks, wild2: nat, topUp: nat)
    requires Tiling(cs, start, end, wild) && wild in cs && cs[wild].hole && cs[wild].size >= MIN_WILDERNESS
    requires sz == Shortage(cs, wild, size) && cs1 == (if sz == 0 then cs else Grow(cs, wild, sz)) && (sz != 0 ==> h == wild)
    requires h in cs && cs[h].hole && cs1[h].size >= size
    requires if cs1[h].size - size > OVERHEAD + MIN_ALLOC_SZ
             then && cs2 == Split(cs1, h, size)[h := Chunk(size, false)]
                  && wild2 == (if h == wild then h + size + OVERHEAD else wild)
             else cs2 == cs1[h := Chunk(cs1[h].size, false)] && wild2 == wild
    requires topUp == if cs2[wild2].size < MIN_WILDERNESS then MIN_WILDERNESS - cs2[wild2].size else 0
    ensures Allocated(cs, wild, end, Grow(cs2, wild2, topUp), wild2, end + sz + topUp, h, size)
  {
    hide Tiling;
    if cs1[h].size - size > OVERHEAD + MIN_ALLOC_SZ {
      SplitPlace(cs, start, end, wild, h, size, sz, cs1);
      assert Grow(cs2, wild2, topUp).Keys == cs.Keys + {h + size + OVERHEAD};
    } else {
      assert Grow(cs2, wild2, topUp).Keys == cs.Keys;
    }
  }

  /** The rest of a split chunk gets an address where no chunk was. */
  lemma {:induction false} SplitPlace(cs: Chunks, start: nat, end: nat, wild: nat, h: nat, size: nat, sz: nat, cs1: Chunks)
    requires Tiling(cs, start, end, wild) && h in cs && cs1 == (if sz == 0 then cs else Grow(cs, wild, sz))
    requires (sz != 0 ==> h == wild) && cs1[h].size - size > OVERHEAD + MIN_ALLOC_SZ
    ensures h + size + OVERHEAD !in cs && cs1.Keys == cs.Keys
  {
    hide Tiling;
    GrowTiles(cs, start, end, wild, sz);
    if sz == 0 {
      SplitTiles(cs, start, end, wild, h, size);
    } else {
      SplitTiles(cs1, start, end + sz, wild, h, size);
    }
  }

  /** The first request on a fresh heap uses up the last chunk exactly if it leaves at most 44 bytes of it. */
  lemma {:induction false} FreshHeapExhausts(cs: Chunks, lists: seq<seq<nat>>, size: nat)
    requires cs == map[POOL_VA_START := Chunk(PARTITION_SIZE - OVERHEAD, true)] && |lists| == BIN_COUNT
    ensures TakesLast(cs, POOL_VA_START, lists, size) && cs[POOL_VA_START].size - size <= OVERHEAD + MIN_ALLOC_SZ
            <==> PARTITION_SIZE - 84 <= size <= PARTITION_SIZE - 40
  {}

  lemma {:induction false} ListDistinct(nodes: map<nat, Node>, bins: seq<nat>, lists: seq<seq<nat>>, b: nat)
    requires ListsOk(nodes, bins, lists) && b < BIN_COUNT
    ensures |lists| == BIN_COUNT && forall i, j :: 0 <= i < j < |lists[b]| ==> lists[b][i] != lists[b][j]
  {
    assert ListAt(nodes, bins[b], lists[b]);
  }

  lemma {:induction false} LastTaken(cs: Chunks, wild: nat, lists: seq<seq<nat>>, size: nat, index: nat, found: nat)
    requires wild in cs && cs[wild].hole && |lists| == BIN_COUNT && index < BIN_COUNT
    requires forall i, j :: 0 <= i < j < |lists[index]| ==> lists[index][i] != lists[index][j]
    requires found in cs && cs[found].hole && cs[found].size >= size && index == BinIndex(cs[found].size)
    requires forall a :: a in cs && cs[a].hole && cs[a].size >= size ==> cs[found].size <= cs[a].size
    requires forall a :: a in cs && cs[a].hole && cs[a].size == cs[found].size && a != found ==> Before(lists[index], found, a)
    ensures found == wild <==> TakesLast(cs, wild, lists, size)
  {
    hide Before;
    BeforeOneWay(lists[index], found, wild);
  }

  /** A chunk in its own bin may be listed as an exception. */
  lemma {:induction false} ExceptHome(lists: seq<seq<nat>>, cs: Chunks, nodes: map<nat, Node>, x: nat, b: nat)
    requires Binned(lists, cs, map[]) && x in cs && b == HomeOf(cs, map[], x)
    requires var none: map<nat, nat> := map[]; AllSorted(nodes, lists, none.Keys)
    ensures Binned(lists, cs, map[x := b]) && map[x := b].Keys == {x} && AllSorted(nodes, lists, map[x := b].Keys)
  {
    var none: map<nat, nat>, ex := map[], map[x := b];
    forall a, c | 0 <= c < BIN_COUNT
      ensures a in lists[c] <==> c == HomeOf(cs, ex, a)
    {
      assert a in lists[c] <==> c == HomeOf(cs, none, a);
    }
    forall c | 0 <= c < |lists|
      ensures SortedExcept(nodes, lists[c], ex.Keys)
    {
      assert SortedExcept(nodes, lists[c], none.Keys);
    }
  }

  lemma {:induction false} StillThere(lists: seq<seq<nat>>, cs: Chunks, ex: map<nat, nat>, x: nat)
    requires Binned(lists, cs, ex) && x in ex && ex[x] < BIN_COUNT
    ensures |lists| == BIN_COUNT && x in lists[ex[x]]
  {
    assert x in lists[ex[x]] <==> ex[x] == HomeOf(cs, ex, x);
  }

  /** An allocated chunk that is in no bin is no exception. */
  lemma {:induction false} NoLongerException(lists: seq<seq<nat>>, cs: Chunks, nodes: map<nat, Node>, x: nat, ex: map<nat, nat>)
    requires Binned(lists, cs, ex[x := BIN_COUNT]) && Live(cs, x) && ex.Keys <= {x}
    requires AllSorted(nodes, lists, ex[x := BIN_COUNT].Keys)
    ensures var none: map<nat, nat> := map[]; Binned(lists, cs, none) && AllSorted(nodes, lists, none.Keys)
  {
    var none: map<nat, nat>, ex' := map[], ex[x := BIN_COUNT];
    forall a, c | 0 <= c < BIN_COUNT
      ensures a in lists[c] <==> c == HomeOf(cs, none, a)
    {
      assert a in lists[c] <==> c == HomeOf(cs, ex', a);
    }
    forall c | 0 <= c < |lists|
      ensures SortedExcept(nodes, lists[c], none.Keys)
    {
      assert x in lists[c] <==> c == HomeOf(cs, ex', x);
      assert SortedExcept(nodes, lists[c], ex'.Keys);
    }
  }

  lemma {:induction false} LiveKeptRefl(m: Mem, cs: Chunks, xs: set<nat>)
    ensures LiveKept(m, cs, m, cs, xs)
  {}

  lemma {:induction false} MarkLive(m: Mem, m1: Mem, m': Mem, cs: Chunks, x: nat, hole: bool)
    requires x in cs
    requires var r := cs[x := Chunk(cs[x].size, hole)];
             && (forall a :: a in r && a != x ==> PayloadKept(m, m1, a, r[a].size))
             && (forall a :: a in r ==> PayloadKept(m1, m', a, r[a].size))
    ensures LiveKept(m, cs, m', cs[x := Chunk(cs[x].size, hole)], {x})
  {
    hide PayloadKept;
    var r := cs[x := Chunk(cs[x].size, hole)];
    forall a | Live(cs, a) && a != x
      ensures PayloadKept(m, m', a, cs[a].size)
    {
      assert a in r && r[a] == cs[a];
      PayloadTrans(m, m1, m', a, cs[a].size);
    }
  }

  lemma {:induction false} WildAtEnd(cs: Chunks, start: nat, end: nat, wild: nat)
    requires Tiling(cs, start, end, wild)
    ensures wild in cs && end >= FOOT_SIZE && FootOf(cs, wild) == end - FOOT_SIZE && start < end
  {
    assert Within(cs, start, end, wild);
  }

  /** Writing the last footer changes no header and no other chunk. */
  lemma {:induction false} FooterCleared(m: Mem, m': Mem, cs: Chunks, start: nat, end: nat, wild: nat, bins: seq<nat>, lists: seq<seq<nat>>)
    requires Tiling(cs, start, end, wild) && Tags(m, cs) && KeptBeyond(m, m', FootOf(cs, wild), end)
    requires ListsOk(m.nodes, bins, lists) && AllIn(lists, cs.Keys)
    ensures TagsBut(m', cs, wild) && cs.Keys <= m'.nodes.Keys && ListsOk(m'.nodes, bins, lists)
    ensures forall a :: a in cs ==> a in m.nodes && m'.nodes[a] == m.nodes[a]
    ensures forall a :: a in cs && a != wild ==> PayloadKept(m, m', a, cs[a].size)
  {
    hide ListsOk, PayloadKept;
    forall a | a in cs
      ensures a in m.nodes && a in m'.nodes && m'.nodes[a] == m.nodes[a]
      ensures a != wild ==> TagsAt(m', cs, a) && PayloadKept(m, m', a, cs[a].size)
    {
      assert TagsAt(m, cs, a) && Ordered(cs, a, wild) && Within(cs, start, end, a) && Ordered(cs, wild, a);
      if a != wild {
        ChunkKept(m, m', cs, a, FootOf(cs, wild), end);
      } else {
        assert Apart(wild, NODE_SIZE, FootOf(cs, wild), end - FootOf(cs, wild));
      }
    }
    SameLinks(m.nodes, m'.nodes, bins, lists, cs.Keys);
  }

  lemma {:induction false} InHome(lists: seq<seq<nat>>, cs: Chunks, ex: map<nat, nat>, a: nat, b: nat)
    requires Binned(lists, cs, ex) && a in cs && a !in ex && cs[a].hole && b == BinIndex(cs[a].size)
    ensures |lists| == BIN_COUNT && a in lists[b]
  {
    assert a in lists[b] <==> b == HomeOf(cs, ex, a);
  }

  lemma {:induction false} OthersTrans(m: Mem, m1: Mem, m': Mem, cs: Chunks, x: nat)
    requires forall a :: a in cs && a != x ==> PayloadKept(m, m1, a, cs[a].size)
    requires forall a :: a in cs && a != x ==> PayloadKept(m1, m', a, cs[a].size)
    ensures forall a :: a in cs && a != x ==> PayloadKept(m, m', a, cs[a].size)
  {
    hide PayloadKept;
    forall a | a in cs && a != x
      ensures PayloadKept(m, m', a, cs[a].size)
    {
      PayloadTrans(m, m1, m', a, cs[a].size);
    }
  }

  lemma {:induction false} TagsButGrown(m: Mem, cs: Chunks, cs': Chunks, x: nat)
    requires TagsBut(m, cs, x) && cs'.Keys <= cs.Keys && forall a :: a in cs' && a != x ==> cs'[a] == cs[a]
    ensures TagsBut(m, cs', x)
  {
    forall a | a in cs' && a != x
      ensures TagsAt(m, cs', a)
    {
      assert TagsAt(m, cs, a);
    }
  }

  lemma {:induction false} GrowLive(m: Mem, m1: Mem, m2: Mem, m': Mem, cs: Chunks, wild: nat, sz: nat)
    requires wild in cs && cs[wild].hole
    requires forall a :: a in cs && a != wild ==> PayloadKept(m, m1, a, cs[a].size)
    requires var r := Grow(cs, wild, sz);
             && (forall a :: a in r && a != wild ==> PayloadKept(m1, m2, a, r[a].size))
             && (forall a :: a in r ==> PayloadKept(m2, m', a, r[a].size))
    ensures LiveKept(m, cs, m', Grow(cs, wild, sz), {})
  {
    hide PayloadKept;
    var r := Grow(cs, wild, sz);
    forall a | Live(cs, a)
      ensures PayloadKept(m, m', a, cs[a].size)
    {
      assert a in r && r[a] == cs[a];
      PayloadTrans(m, m1, m2, a, cs[a].size);
      PayloadTrans(m, m2, m', a, cs[a].size);
    }
  }

  lemma {:induction false} SameTagsBut(m: Mem, cs: Chunks, cs': Chunks, x: nat)
    requires Tags(m, cs) && cs'.Keys <= cs.Keys && forall a :: a in cs' && a != x ==> cs'[a] == cs[a]
    ensures TagsBut(m, cs', x)
  {
    forall a | a in cs' && a != x
      ensures TagsAt(m, cs', a)
    {
      assert TagsAt(m, cs, a);
    }
  }

  lemma {:induction false} MarkBins(lists: seq<seq<nat>>, cs: Chunks, cs': Chunks, ex: map<nat, nat>, x: nat)
    requires Binned(lists, cs, ex) && x in ex && cs'.Keys == cs.Keys && forall a :: a in cs' && a != x ==> cs'[a] == cs[a]
    ensures Binned(lists, cs', ex)
  {
    forall a, c | 0 <= c < BIN_COUNT
      ensures a in lists[c] <==> c == HomeOf(cs', ex, a)
    {
      assert a in lists[c] <==> c == HomeOf(cs, ex, a);
    }
  }

  /** The links of an allocated chunk are in no list. */
  lemma {:induction false} LiveUnlinked(nodes: map<nat, Node>, nodes': map<nat, Node>, bins: seq<nat>,
                                        lists: seq<seq<nat>>, cs: Chunks, x: nat)
    requires ListsOk(nodes, bins, lists) && AllIn(lists, cs.Keys) && Binned(lists, cs, map[]) && Live(cs, x)
    requires AllSorted(nodes, lists, {})
    requires cs.Keys <= nodes.Keys && cs.Keys <= nodes'.Keys && forall a :: a in cs && a != x ==> nodes'[a] == nodes[a]
    ensures ListsOk(nodes', bins, lists) && AllSorted(nodes', lists, {})
  {
    hide HomeOf, ListAt, SortedExcept;
    forall b | 0 <= b < BIN_COUNT
      ensures ListAt(nodes', bins[b], lists[b]) && SortedExcept(nodes', lists[b], {})
    {
      LiveElsewhere(lists, cs, x, b);
      KeptList(nodes, nodes', bins[b], lists[b]);
    }
  }

  lemma {:induction false} LiveElsewhere(lists: seq<seq<nat>>, cs: Chunks, x: nat, b: nat)
    requires Binned(lists, cs, map[]) && Live(cs, x) && b < BIN_COUNT
    ensures x !in lists[b]
  {
    assert x in lists[b] <==> b == HomeOf(cs, map[], x);
  }

  lemma {:induction false} KeptList(nodes: map<nat, Node>, nodes': map<nat, Node>, head: nat, l: seq<nat>)
    requires ListAt(nodes, head, l) && SortedExcept(nodes, l, {})
    requires forall i :: 0 <= i < |l| ==> l[i] in nodes' && l[i] in nodes && nodes'[l[i]] == nodes[l[i]]
    ensures ListAt(nodes', head, l) && SortedExcept(nodes', l, {})
  {}

  /** An address that is not a chunk is in no bin. */
  lemma {:induction false} Unknown(lists: seq<seq<nat>>, cs: Chunks, b: nat, x: nat)
    requires Binned(lists, cs, map[]) && x !in cs && b < BIN_COUNT
    ensures |lists| == BIN_COUNT && x !in lists[b] && NotElsewhere(lists, b, x)
  {
    forall c | 0 <= c < BIN_COUNT
      ensures x !in lists[c]
    {
      assert x in lists[c] <==> c == HomeOf(cs, map[], x);
    }
  }

  lemma {:induction false} CarvedSorted(nodes: map<nat, Node>, nodes': map<nat, Node>, lists: seq<seq<nat>>, heads: set<nat>, b: nat)
    requires AllSorted(nodes, lists, {}) && AllIn(lists, heads) && b < |lists|
    requires forall a :: a in heads ==> a in nodes && a in nodes' && nodes'[a] == nodes[a]
    ensures SortedAt(nodes', lists[b])
  {
    assert SortedExcept(nodes, lists[b], {});
  }

  lemma {:induction false} SplitBins(lists: seq<seq<nat>>, lists': seq<seq<nat>>, b: nat, cs: Chunks, x: nat, size: nat)
    requires Binned(lists, cs, map[]) && |lists'| == BIN_COUNT
    requires x in cs && cs[x].hole && cs[x].size >= size + OVERHEAD && x + size + OVERHEAD !in cs
    requires b == BinIndex(cs[x].size - size - OVERHEAD)
    requires forall c :: 0 <= c < BIN_COUNT && c != b ==> lists'[c] == lists[c]
    requires forall a :: a in lists'[b] <==> a in lists[b] || a == x + size + OVERHEAD
    ensures Binned(lists', Split(cs, x, size), map[x := BinIndex(cs[x].size)])
  {
    var r, ex := Split(cs, x, size), map[x := BinIndex(cs[x].size)];
    forall a, c | 0 <= c < BIN_COUNT
      ensures a in lists'[c] <==> c == HomeOf(r, ex, a)
    {
      assert a in lists[c] <==> c == HomeOf(cs, map[], a);
    }
  }

  lemma {:induction false} SplitSorted(nodes: map<nat, Node>, nodes': map<nat, Node>, lists: seq<seq<nat>>, lists': seq<seq<nat>>,
                    b: nat, heads: set<nat>, x: nat)
    requires AllSorted(nodes, lists, {}) && |lists'| == |lists| && b < |lists| && AllIn(lists, heads)
    requires forall c :: 0 <= c < |lists| && c != b ==> lists'[c] == lists[c]
    requires SortedAt(nodes', lists'[b])
    requires forall a :: a in heads ==> a in nodes && a in nodes' && nodes'[a].size == nodes[a].size
    ensures AllSorted(nodes', lists', {x})
  {
    forall c | 0 <= c < |lists'|
      ensures SortedExcept(nodes', lists'[c], {x})
    {
      if c != b {
        assert SortedExcept(nodes, lists[c], {});
      }
    }
  }

  lemma {:induction false} SplitLive(m: Mem, m1: Mem, m2: Mem, m': Mem, cs: Chunks, x: nat, size: nat)
    requires x in cs && cs[x].hole && cs[x].size >= size + OVERHEAD && x + size + OVERHEAD !in cs
    requires forall a :: a in cs && a != x ==> PayloadKept(m, m1, a, cs[a].size)
    requires var r := Split(cs, x, size);
             && (forall a :: a in r ==> PayloadKept(m1, m2, a, r[a].size))
             && (forall a :: a in r && a != x ==> PayloadKept(m2, m', a, r[a].size))
    ensures LiveKept(m, cs, m', Split(cs, x, size), {x})
  {
    hide PayloadKept;
    var r := Split(cs, x, size);
    forall a | Live(cs, a) && a != x
      ensures PayloadKept(m, m', a, cs[a].size)
    {
      assert a in r && r[a] == cs[a];
      PayloadTrans(m, m1, m2, a, cs[a].size);
      PayloadTrans(m, m2, m', a, cs[a].size);
    }
  }

  lemma {:induction false} NoExceptions(nodes: map<nat, Node>, lists: seq<seq<nat>>, cs: Chunks)
    requires Binned(lists, cs, map[]) && AllSorted(nodes, lists, {})
    ensures |lists| == BIN_COUNT && forall b :: 0 <= b < BIN_COUNT ==> SortedAt(nodes, lists[b])
  {
    forall b | 0 <= b < BIN_COUNT
      ensures SortedAt(nodes, lists[b])
    {
      assert SortedExcept(nodes, lists[b], {});
    }
  }

  lemma {:induction false} NoneFits(m: Mem, lists: seq<seq<nat>>, cs: Chunks, size: nat)
    requires Tags(m, cs) && Binned(lists, cs, map[])
    requires forall b, a :: BinIndex(size) <= b < BIN_COUNT && a in lists[b] ==> a in m.nodes && m.nodes[a].size < size
    ensures forall a :: a in cs && cs[a].hole ==> cs[a].size < size
  {
    forall a | a in cs && cs[a].hole
      ensures cs[a].size < size
    {
      var b := BinIndex(cs[a].size);
      assert a in lists[b] <==> b == HomeOf(cs, map[], a);
      assert TagsAt(m, cs, a);
      if cs[a].size >= size {
        BinIndexMonotone(size, cs[a].size);
      }
    }
  }

  lemma {:induction false} SmallestFits(m: Mem, lists: seq<seq<nat>>, cs: Chunks, size: nat, index: nat, found: nat)
    requires Tags(m, cs) && Binned(lists, cs, map[]) && BinIndex(size) <= index < BIN_COUNT
    requires forall b, a :: BinIndex(size) <= b < index && a in lists[b] ==> a in m.nodes && m.nodes[a].size < size
    requires found in lists[index] && found in m.nodes && m.nodes[found].size >= size
    requires forall a :: a in lists[index] && a in m.nodes && m.nodes[a].size >= size ==> m.nodes[found].size <= m.nodes[a].size
    requires forall a :: a in lists[index] && a in m.nodes && m.nodes[a].size >= size && a != found ==> Before(lists[index], found, a)
    ensures found in cs && cs[found].hole && cs[found].size >= size && index == BinIndex(cs[found].size)
    ensures forall a :: a in cs && cs[a].hole && cs[a].size >= size ==> cs[found].size <= cs[a].size
    ensures forall a :: a in cs && cs[a].hole && cs[a].size == cs[found].size && a != found ==> Before(lists[index], found, a)
  {
    hide Before;
    assert found in lists[index] <==> index == HomeOf(cs, map[], found);
    assert TagsAt(m, cs, found);
    forall a | a in cs && cs[a].hole && cs[a].size >= size
      ensures cs[found].size <= cs[a].size
      ensures cs[a].size == cs[found].size && a != found ==> Before(lists[index], found, a)
    {
      var b := BinIndex(cs[a].size);
      assert a in lists[b] <==> b == HomeOf(cs, map[], a);
      assert TagsAt(m, cs, a);
      BinIndexMonotone(size, cs[a].size);
      if cs[a].size < cs[found].size {
        BinIndexMonotone(cs[a].size, cs[found].size);
      }
    }
  }

  lemma {:induction false} HeaderOf(m: Mem, cs: Chunks, a: nat)
    requires Tags(m, cs) && a in cs
    ensures a in m.nodes && m.nodes[a].size == cs[a].size && m.nodes[a].hole == cs[a].hole
    ensures FootOf(cs, a) in m.foots && m.foots[FootOf(cs, a)] == a
  {
    assert TagsAt(m, cs, a);
  }

  lemma {:induction false} SortedBin(nodes: map<nat, Node>, lists: seq<seq<nat>>, b: nat, ex: set<nat>)
    requires AllSorted(nodes, lists, ex) && b < |lists|
    requires forall c, i :: 0 <= c < |lists| && 0 <= i < |lists[c]| ==> lists[c][i] !in ex
    ensures SortedAt(nodes, lists[b])
  {
    assert SortedExcept(nodes, lists[b], ex);
    SortedWithoutExceptions(nodes, lists[b], ex);
  }

  /** A header whose home is no bin is in no list. */
  lemma {:induction false} HomeOnly(lists: seq<seq<nat>>, cs: Chunks, ex: map<nat, nat>, b: nat, x: nat)
    requires Binned(lists, cs, ex) && x in ex && ex[x] == BIN_COUNT && b < BIN_COUNT
    ensures x !in lists[b] && NotElsewhere(lists, b, x)
    ensures |lists| == BIN_COUNT
    ensures forall c, i :: 0 <= c < BIN_COUNT && 0 <= i < |lists[c]| ==> lists[c][i] != x
  {
    forall c | 0 <= c < BIN_COUNT
      ensures x !in lists[c]
    {
      assert x in lists[c] <==> c == HomeOf(cs, ex, x);
    }
  }

  lemma {:induction false} RebinBins(lists: seq<seq<nat>>, lists': seq<seq<nat>>, b: nat, x: nat, cs: Chunks)
    requires Binned(lists, cs, map[x := BIN_COUNT]) && |lists'| == BIN_COUNT
    requires x in cs && cs[x].hole && b == BinIndex(cs[x].size)
    requires forall c :: 0 <= c < BIN_COUNT && c != b ==> lists'[c] == lists[c]
    requires forall a :: a in lists'[b] <==> a in lists[b] || a == x
    ensures Binned(lists', cs, map[])
  {
    forall a, c | 0 <= c < BIN_COUNT
      ensures a in lists'[c] <==> c == HomeOf(cs, map[], a)
    {
      assert a in lists[c] <==> c == HomeOf(cs, map[x := BIN_COUNT], a);
    }
  }

  lemma {:induction false} RebinSorted(nodes: map<nat, Node>, nodes': map<nat, Node>, lists: seq<seq<nat>>, lists': seq<seq<nat>>,
                    b: nat, x: nat, heads: set<nat>)
    requires AllSorted(nodes, lists, {x}) && |lists'| == |lists| && b < |lists| && AllIn(lists', heads)
    requires forall c :: 0 <= c < |lists| && c != b ==> lists'[c] == lists[c]
    requires forall c, i :: 0 <= c < |lists| && 0 <= i < |lists[c]| ==> lists[c][i] != x
    requires SortedAt(nodes', lists'[b])
    requires forall a :: a in heads ==> a in nodes && a in nodes' && nodes'[a].size == nodes[a].size
    ensures AllSorted(nodes', lists', {})
  {
    forall c | 0 <= c < |lists'|
      ensures SortedExcept(nodes', lists'[c], {})
    {
      if c != b {
        SortedTransfer(nodes, nodes', lists'[c], {x});
      }
    }
  }

  lemma {:induction false} UnbinBins(lists: seq<seq<nat>>, lists': seq<seq<nat>>, b: nat, x: nat, k: nat, cs: Chunks, ex: map<nat, nat>)
    requires Binned(lists, cs, ex) && b < BIN_COUNT && x in lists[b] && k < |lists[b]|
    requires lists' == lists[b := Removed(lists[b], k)]
    requires forall a :: a in lists'[b] <==> a in lists[b] && a != x
    ensures Binned(lists', cs, ex[x := BIN_COUNT])
  {
    var ex' := ex[x := BIN_COUNT];
    forall a, c | 0 <= c < BIN_COUNT
      ensures a in lists'[c] <==> c == HomeOf(cs, ex', a)
    {
      assert a in lists[c] <==> c == HomeOf(cs, ex, a);
      assert x in lists[b] <==> b == HomeOf(cs, ex, x);
      assert x in lists[c] <==> c == HomeOf(cs, ex, x);
    }
  }

  lemma {:induction false} UnbinSorted(nodes: map<nat, Node>, nodes': map<nat, Node>, lists: seq<seq<nat>>, lists': seq<seq<nat>>,
                    b: nat, k: nat, ex: set<nat>, ex': set<nat>, heads: set<nat>)
    requires AllSorted(nodes, lists, ex) && b < |lists| && k < |lists[b]| && ex <= ex'
    requires lists' == lists[b := Removed(lists[b], k)] && AllIn(lists', heads)
    requires forall a :: a in heads ==> a in nodes && a in nodes' && nodes'[a].size == nodes[a].size
    ensures AllSorted(nodes', lists', ex')
  {
    RemovedStaysSorted(nodes, lists[b], k, ex);
    forall c | 0 <= c < |lists'|
      ensures SortedExcept(nodes', lists'[c], ex')
    {
      SortedTransfer(nodes, nodes', lists'[c], ex);
    }
  }
}
