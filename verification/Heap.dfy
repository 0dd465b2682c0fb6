/** The boundary-tag heap of heap.c with the bins of llist.c. */
module HeapModel {
  import opened HeapMem
  import opened HeapLists
  import opened HeapLayout
  import opened HeapBins
  import opened Sizes

  class Heap {
    var start: nat
    var end: nat
    /** The base addresses of the partitions mapped for the heap, in mapping order. */
    var mapped: seq<nat>
    /** The first header of each bin. */
    var bins: seq<nat>
    var mem: Mem
    /** The headers of each bin in list order. */
    ghost var lists: seq<seq<nat>>

    /** The chunks by header address, and the last of them. */
    ghost var chunks: Chunks
    ghost var wild: nat

    /** The heap invariant, except that the headers in ex are in the bins ex says. */
    ghost predicate Core(ex: map<nat, nat>)
      reads this
    {
      && Tiling(chunks, start, end, wild) && Tags(mem, chunks)
      && Linked(chunks.Keys) && ex.Keys <= chunks.Keys
      && Binned(lists, chunks, ex) && AllSorted(mem.nodes, lists, ex.Keys)
    }

    /** The chunks tile the heap, every footer names its header, every hole is in the sorted bin of
        its size, no live chunk is in a bin, and the last chunk is a hole. */
    ghost predicate Valid()
      reads this
    {
      Core(map[]) && Backed() && chunks[wild].hole && chunks[wild].size >= MIN_WILDERNESS
    }

    /** Exactly the partitions that the heap reaches into are mapped, each once. */
    ghost predicate Backed()
      reads this`start, this`end, this`mapped
    {
      && start > 0 && start % PARTITION_SIZE == 0 && start < end
      && start + |mapped| * PARTITION_SIZE == PartitionUp(end)
      && forall i :: 0 <= i < |mapped| ==> mapped[i] == start + i * PARTITION_SIZE
    }

    /** The bins are lists of headers among heads, which do not overlap. */
    ghost predicate Linked(heads: set<nat>)
      reads this
    {
      && ListsOk(mem.nodes, bins, lists)
      && Spread(heads) && heads <= mem.nodes.Keys && 0 !in heads
      && AllIn(lists, heads)
    }

    /** The initial heap: one partition holding one hole. */
    constructor (garbage: Mem)
      ensures Valid() && start == POOL_VA_START && end == start + PARTITION_SIZE && wild == start
      ensures chunks == map[start := Chunk(PARTITION_SIZE - OVERHEAD, true)]
    {
      start, end, mapped := POOL_VA_START, POOL_VA_START + PARTITION_SIZE, [];
      bins, lists := seq(BIN_COUNT, i => 0), seq(BIN_COUNT, i => []);
      var size := PARTITION_SIZE - OVERHEAD;
      var junk: Node := *;
      mem := garbage.PutNode(POOL_VA_START, junk.(hole := true, size := size)).PutFoot(POOL_VA_START + NODE_SIZE + size, POOL_VA_START);
      chunks, wild := map[POOL_VA_START := Chunk(size, true)], POOL_VA_START;
      new;
      MapPartitions(start, 1);
      FreshHeap();
      Rebin(start);
    }

    lemma {:induction false} FreshHeap()
      requires start == POOL_VA_START && end == start + PARTITION_SIZE && wild == start
      requires chunks == map[start := Chunk(PARTITION_SIZE - OVERHEAD, true)]
      requires bins == seq(BIN_COUNT, i => 0) && lists == seq(BIN_COUNT, i => [])
      requires TagsAt(mem, chunks, start)
      ensures Core(map[start := BIN_COUNT])
    {
      var ex: map<nat, nat> := map[start := BIN_COUNT];
      assert ex.Keys == {start};
      forall a, b
        ensures Ordered(chunks, a, b) && Within(chunks, start, end, a)
      {}
      assert chunks.Keys == {start};
      assert Tiling(chunks, start, end, wild);
      forall a, b | 0 <= b < BIN_COUNT
        ensures a in lists[b] <==> b == HomeOf(chunks, ex, a)
      {}
    }

    method SetNext(a: nat, next: nat, ghost heads: set<nat>)
      requires Spread(heads) && heads <= mem.nodes.Keys && a in heads
      modifies this`mem
      ensures OnlyLinks(old(mem), mem, heads) && mem.nodes[a] == old(mem.nodes[a]).(next := next)
      ensures forall b :: b in heads && b != a ==> mem.nodes[b] == old(mem.nodes)[b]
    {
      PutLinks(mem, a, mem.nodes[a].(next := next), heads);
      mem := mem.PutNode(a, mem.nodes[a].(next := next));
    }

    method SetPrev(a: nat, prev: nat, ghost heads: set<nat>)
      requires Spread(heads) && heads <= mem.nodes.Keys && a in heads
      modifies this`mem
      ensures OnlyLinks(old(mem), mem, heads) && mem.nodes[a] == old(mem.nodes[a]).(prev := prev)
      ensures forall b :: b in heads && b != a ==> mem.nodes[b] == old(mem.nodes)[b]
    {
      PutLinks(mem, a, mem.nodes[a].(prev := prev), heads);
      mem := mem.PutNode(a, mem.nodes[a].(prev := prev));
    }

    /** The first header of a bin that is larger than size, and the one before it. */
    method FindPlace(b: nat, size: nat) returns (previous: nat, current: nat, ghost k: nat)
      requires b < BIN_COUNT && ListsOk(mem.nodes, bins, lists) && SortedAt(mem.nodes, lists[b])
      ensures k <= |lists[b]|
      ensures current == (if k < |lists[b]| then lists[b][k] else 0)
      ensures previous == (if k > 0 then lists[b][k - 1] else 0)
      ensures Splits(mem.nodes, lists[b], k, size)
    {
      assert ListAt(mem.nodes, bins[b], lists[b]);
      previous, current, k := 0, bins[b], 0;
      while current != 0 && mem.nodes[current].size <= size
        invariant k <= |lists[b]|
        invariant current == (if k < |lists[b]| then lists[b][k] else 0)
        invariant previous == (if k > 0 then lists[b][k - 1] else 0)
        invariant forall i :: 0 <= i < k ==> mem.nodes[lists[b][i]].size <= size
        decreases |lists[b]| - k
      {
        previous, current, k := current, mem.nodes[current].next, k + 1;
      }
    }

    /** Inserts a header into bin b before the first larger one. */
    method AddNode(b: nat, node: nat, ghost heads: set<nat>) returns (ghost k: nat)
      requires b < BIN_COUNT && Linked(heads) && node in heads
      requires node !in lists[b] && NotElsewhere(lists, b, node) && SortedAt(mem.nodes, lists[b])
      modifies this`mem, this`bins, this`lists
      ensures Linked(heads) && OnlyLinks(old(mem), mem, heads)
      ensures |lists| == BIN_COUNT && SortedAt(mem.nodes, lists[b])
      ensures forall c :: 0 <= c < BIN_COUNT && c != b ==> lists[c] == old(lists)[c]
      ensures forall a :: a in lists[b] <==> a in old(lists)[b] || a == node
      ensures k <= |old(lists)[b]| && lists == old(lists)[b := Inserted(old(lists)[b], k, node)]
      ensures Splits(old(mem.nodes), old(lists)[b], k, old(mem.nodes)[node].size)
      ensures forall a :: a in heads && a != node && a !in old(lists)[b] ==> mem.nodes[a] == old(mem.nodes)[a]
    {
      hide OnlyLinks, SplicedHeads, SortedAt, Inserted, Splits;
      ghost var l := lists[b];
      assert ListAt(mem.nodes, bins[b], l);
      var previous, current;
      previous, current, k := FindPlace(b, mem.nodes[node].size);
      InsertLinks(b, node, previous, current, l, k, heads);
      AfterInsert(old(mem), mem, old(bins), lists, b, k, node, heads);
      InsertKeepsSorted(old(mem), mem, l, k, node, heads);
      LinkSizes(old(mem), mem, heads, []);
      lists := lists[b := Inserted(l, k, node)];
    }

    /** Writes the links around node, previous and current. */
    method InsertLinks(b: nat, node: nat, previous: nat, current: nat, ghost l: seq<nat>, ghost k: nat, ghost heads: set<nat>)
      requires b < |bins| && bins[b] == (if l == [] then 0 else l[0])
      requires Spread(heads) && heads <= mem.nodes.Keys && 0 !in heads && node in heads && node !in l
      requires forall i :: 0 <= i < |l| ==> l[i] in heads
      requires forall i, j :: 0 <= i < j < |l| ==> l[i] != l[j]
      requires k <= |l| && current == (if k < |l| then l[k] else 0) && previous == (if k > 0 then l[k - 1] else 0)
      modifies this`mem, this`bins
      ensures OnlyLinks(old(mem), mem, heads)
      ensures SplicedHeads(old(mem).nodes, mem.nodes, l, k, node, heads)
      ensures bins == old(bins)[b := if k == 0 then node else old(bins)[b]]
    {
      hide OnlyLinks, Spread;
      ghost var m0 := mem;
      SetNext(node, 0, heads);
      ghost var m1 := mem;
      SetPrev(node, 0, heads);
      OnlyLinksTrans(m0, m1, mem, heads);
      ghost var m2 := mem;
      if bins[b] == 0 {
        bins := bins[b := node];
      } else if current == 0 {
        LinkAfter(previous, node, heads);
        OnlyLinksTrans(m0, m2, mem, heads);
      } else if previous != 0 {
        SetNext(node, current, heads);
        OnlyLinksTrans(m0, m2, mem, heads);
        ghost var m3 := mem;
        LinkAfter(previous, node, heads);
        OnlyLinksTrans(m0, m3, mem, heads);
        ghost var m4 := mem;
        SetPrev(current, node, heads);
        OnlyLinksTrans(m0, m4, mem, heads);
      } else {
        SetNext(node, bins[b], heads);
        OnlyLinksTrans(m0, m2, mem, heads);
        ghost var m3 := mem;
        SetPrev(bins[b], node, heads);
        OnlyLinksTrans(m0, m3, mem, heads);
        bins := bins[b := node];
      }
    }

    /** previous -> node. */
    method LinkAfter(previous: nat, node: nat, ghost heads: set<nat>)
      requires Spread(heads) && heads <= mem.nodes.Keys && previous in heads && node in heads && previous != node
      modifies this`mem
      ensures OnlyLinks(old(mem), mem, heads)
      ensures mem.nodes[previous] == old(mem.nodes[previous]).(next := node)
      ensures mem.nodes[node] == old(mem.nodes[node]).(prev := previous)
      ensures forall a :: a in heads && a != previous && a != node ==> mem.nodes[a] == old(mem.nodes)[a]
    {
      hide OnlyLinks;
      ghost var m0 := mem;
      SetNext(previous, node, heads);
      ghost var m1 := mem;
      SetPrev(node, previous, heads);
      OnlyLinksTrans(m0, m1, mem, heads);
    }

    /** Unlinks a header from its bin; a header that is not in it is left alone. */
    method RemoveNode(b: nat, node: nat, ghost heads: set<nat>) returns (ghost k: nat)
      requires b < BIN_COUNT && Linked(heads)
      modifies this`mem, this`bins, this`lists
      ensures Linked(heads) && OnlyLinks(old(mem), mem, heads)
      ensures node !in old(lists)[b] ==> mem == old(mem) && bins == old(bins) && lists == old(lists)
      ensures node in old(lists)[b] ==>
                k < |old(lists)[b]| && old(lists)[b][k] == node && lists == old(lists)[b := Removed(old(lists)[b], k)]
      ensures |lists| == BIN_COUNT && forall a :: a in lists[b] <==> a in old(lists)[b] && a != node
      ensures forall a :: a in heads && a !in old(lists)[b] ==> mem.nodes[a] == old(mem.nodes)[a]
    {
      hide OnlyLinks, UnlinkedHeads, Removed;
      ghost var l := lists[b];
      assert ListAt(mem.nodes, bins[b], l);
      OnlyLinksRefl(mem, heads);
      k := 0;
      if bins[b] == 0 {
        return;
      }
      if bins[b] == node {
        AfterRemove(mem, mem, bins, lists, b, 0, heads);
        bins := bins[b := mem.nodes[bins[b]].next];
      } else {
        var found;
        found, k := Locate(b, node);
        if !found {
          return;
        }
        Unlink(node, l, k, heads);
        AfterRemove(old(mem), mem, bins, lists, b, k, heads);
        assert bins[b := bins[b]] == bins;
      }
      LinkSizes(old(mem), mem, heads, []);
      lists := lists[b := Removed(l, k)];
    }

    /** Walks bin b from its second header to node or to its end. */
    method Locate(b: nat, node: nat) returns (found: bool, ghost k: nat)
      requires b < BIN_COUNT && ListsOk(mem.nodes, bins, lists) && bins[b] != 0 && bins[b] != node
      ensures found <==> node in lists[b]
      ensures found ==> 0 < k < |lists[b]| && lists[b][k] == node
    {
      ghost var l := lists[b];
      assert ListAt(mem.nodes, bins[b], l);
      var temp := mem.nodes[bins[b]].next;
      k := 1;
      while temp != 0
        invariant 0 < k <= |l| && temp == (if k < |l| then l[k] else 0)
        invariant forall i :: 0 <= i < k ==> l[i] != node
        decreases |l| - k
      {
        if temp == node {
          return true, k;
        }
        temp := mem.nodes[temp].next;
        k := k + 1;
      }
      found := false;
    }

    /** Joins the neighbours of a header that is not first in its list. */
    method Unlink(node: nat, ghost l: seq<nat>, ghost k: nat, ghost heads: set<nat>)
      requires 0 < k < |l| && l[k] == node && Spread(heads) && heads <= mem.nodes.Keys && 0 !in heads
      requires forall i :: 0 <= i < |l| ==> l[i] in heads
      requires forall i, j :: 0 <= i < j < |l| ==> l[i] != l[j]
      requires mem.nodes[node].prev == l[k - 1] && mem.nodes[node].next == NextOf(l, k)
      modifies this`mem
      ensures OnlyLinks(old(mem), mem, heads) && UnlinkedHeads(old(mem).nodes, mem.nodes, l, k, heads)
    {
      hide OnlyLinks, Spread;
      var node0 := mem.nodes[node];
      if node0.next == 0 {
        SetNext(node0.prev, 0, heads);
      } else {
        ghost var m0 := mem;
        SetNext(node0.prev, node0.next, heads);
        ghost var m1 := mem;
        SetPrev(mem.nodes[node].next, mem.nodes[node].prev, heads);
        OnlyLinksTrans(m0, m1, mem, heads);
      }
    }

    /** The first header of bin b that is large enough, or null. */
    method GetBestFit(b: nat, size: nat) returns (found: nat)
      requires b < BIN_COUNT && ListsOk(mem.nodes, bins, lists) && SortedAt(mem.nodes, lists[b])
      ensures found == 0 ==> forall a :: a in lists[b] ==> mem.nodes[a].size < size
      ensures found != 0 ==> found in lists[b] && mem.nodes[found].size >= size
      ensures found != 0 ==> forall a :: a in lists[b] && mem.nodes[a].size >= size ==> mem.nodes[found].size <= mem.nodes[a].size
      ensures found != 0 ==> forall a :: a in lists[b] && mem.nodes[a].size >= size && a != found ==> Before(lists[b], found, a)
    {
      ghost var l, k := lists[b], 0;
      assert ListAt(mem.nodes, bins[b], l);
      found := bins[b];
      while found != 0
        invariant 0 <= k <= |l| && found == (if k < |l| then l[k] else 0)
        invariant forall i :: 0 <= i < k ==> mem.nodes[l[i]].size < size
        decreases |l| - k
      {
        if mem.nodes[found].size >= size {
          return;
        }
        found := mem.nodes[found].next;
        k := k + 1;
      }
    }

    /** Takes a header out of its bin. */
    method Unbin(b: nat, x: nat, ghost ex: map<nat, nat>)
      requires Core(ex) && b < BIN_COUNT && x in lists[b]
      modifies this`mem, this`bins, this`lists
      ensures Core(ex[x := BIN_COUNT]) && mem.nodes.Keys >= chunks.Keys
      ensures forall a :: a in chunks ==> PayloadKept(old(mem), mem, a, chunks[a].size)
    {
      hide Tiling, Tags, OnlyLinks, ListsOk, SortedExcept, PayloadKept;
      assert AllIn(lists, chunks.Keys);
      var k := RemoveNode(b, x, chunks.Keys);
      LinksKeepChunks(old(mem), mem, chunks, start, end, wild);
      LinkSizes(old(mem), mem, chunks.Keys, []);
      UnbinBins(old(lists), lists, b, x, k, chunks, ex);
      assert ex[x := BIN_COUNT].Keys == ex.Keys + {x} && old(lists)[b][k] in chunks.Keys;
      UnbinSorted(old(mem).nodes, mem.nodes, old(lists), lists, b, k, ex.Keys, ex.Keys + {x}, chunks.Keys);
    }

    /** Puts a hole that is in no bin into the bin of its size. */
    method Rebin(x: nat)
      requires Core(map[x := BIN_COUNT]) && chunks[x].hole
      modifies this`mem, this`bins, this`lists
      ensures Core(map[])
      ensures forall a :: a in chunks ==> PayloadKept(old(mem), mem, a, chunks[a].size)
    {
      hide Tiling, OnlyLinks, ListsOk, PayloadKept, Binned, AllSorted, SortedAt, Tags, AllIn, Spread, NotElsewhere;
      ghost var ex: map<nat, nat>, none: map<nat, nat> := map[x := BIN_COUNT], map[];
      assert ex.Keys == {x} && none.Keys == {};
      HeaderOf(mem, chunks, x);
      var b := GetBinIndex(mem.nodes[x].size);
      HomeOnly(lists, chunks, ex, b, x);
      SortedBin(mem.nodes, lists, b, ex.Keys);
      var _ := AddNode(b, x, chunks.Keys);
      LinksKeepChunks(old(mem), mem, chunks, start, end, wild);
      LinkSizes(old(mem), mem, chunks.Keys, []);
      RebinBins(old(lists), lists, b, x, chunks);
      RebinSorted(old(mem).nodes, mem.nodes, old(lists), lists, b, x, chunks.Keys);
    }

    /** The smallest hole that fits, over all bins, with its bin; or null when none fits. */
    method SearchFitNode(size: nat) returns (found: nat, index: nat)
      requires Core(map[])
      ensures found == 0 ==> forall a :: a in chunks && chunks[a].hole ==> chunks[a].size < size
      ensures found != 0 ==> found in chunks && chunks[found].hole && chunks[found].size >= size
      ensures found != 0 ==> index == BinIndex(chunks[found].size) && found in lists[index]
      ensures found != 0 ==>
                forall a :: a in chunks && chunks[a].hole && chunks[a].size >= size ==> chunks[found].size <= chunks[a].size
      ensures found != 0 ==>
                forall a :: a in chunks && chunks[a].hole && chunks[a].size == chunks[found].size && a != found ==>
                  Before(lists[index], found, a)
    {
      hide Tiling, ListsOk, Tags, AllSorted, SortedAt, Binned, Spread, Before;
      ghost var none: map<nat, nat> := map[];
      assert none.Keys == {};
      NoExceptions(mem.nodes, lists, chunks);
      index := GetBinIndex(size);
      ghost var first := index;
      found := GetBestFit(index, size);
      while found == 0
        invariant first <= index < BIN_COUNT
        invariant forall b, a :: first <= b < index && a in lists[b] ==> mem.nodes[a].size < size
        invariant found == 0 ==> forall a :: a in lists[index] ==> mem.nodes[a].size < size
        invariant found != 0 ==> found in lists[index] && mem.nodes[found].size >= size
        invariant found != 0 ==>
                    forall a :: a in lists[index] && mem.nodes[a].size >= size ==> mem.nodes[found].size <= mem.nodes[a].size
        invariant found != 0 ==>
                    forall a :: a in lists[index] && mem.nodes[a].size >= size && a != found ==> Before(lists[index], found, a)
        decreases BIN_COUNT - index
      {
        if index + 1 >= BIN_COUNT {
          NoneFits(mem, lists, chunks, size);
          return;
        }
        index := index + 1;
        found := GetBestFit(index, size);
      }
      SmallestFits(mem, lists, chunks, size, index, found);
    }

    /** Rewrites the size and the footer of the chunk at x, so that the chunks become cs. */
    method Resize(x: nat, size: nat, ghost cs: Chunks, ghost last: nat, ghost ex: map<nat, nat>)
      requires Tiling(cs, start, end, last) && x in cs && TagsBut(mem, cs, x) && Linked(cs.Keys)
      requires cs[x] == Chunk(size, mem.nodes[x].hole)
      requires Binned(lists, cs, ex) && AllSorted(mem.nodes, lists, ex.Keys) && x in ex && ex.Keys <= cs.Keys
      modifies this`mem, this`chunks, this`wild
      ensures chunks == cs && wild == last && Core(ex)
      ensures forall a :: a in cs && a != x ==> PayloadKept(old(mem), mem, a, cs[a].size)
    {
      hide Tiling, ListsOk, AllSorted, Binned, AllIn, Spread, PayloadKept, KeptBeyond;
      ghost var m0 := mem;
      PutNodeKeeps(mem, x, mem.nodes[x].(size := size), x, After(cs, x));
      mem := mem.PutNode(x, mem.nodes[x].(size := size));
      ghost var m1 := mem;
      PutFootKeeps(mem, x + NODE_SIZE + size, x, x, After(cs, x));
      mem := mem.PutFoot(x + NODE_SIZE + size, x);
      KeptTrans(m0, m1, mem, x, After(cs, x));
      chunks, wild := cs, last;
      Retagged(m0, mem, cs, start, end, wild, x, bins, lists, ex.Keys);
    }

    /** Writes the header and footer of the rest of a split chunk. */
    method Carve(found: nat, size: nat) returns (split: nat)
      requires Core(map[]) && found in chunks && chunks[found].size >= size + OVERHEAD
      modifies this`mem
      ensures split == found + size + OVERHEAD && Linked(Split(chunks, found, size).Keys)
      ensures TagsBut(mem, Split(chunks, found, size), found)
      ensures forall a :: a in chunks ==> a in old(mem).nodes && a in mem.nodes && mem.nodes[a] == old(mem).nodes[a]
      ensures split in mem.nodes && mem.nodes[split].size == chunks[found].size - size - OVERHEAD && mem.nodes[split].hole
      ensures forall a :: a in chunks && a != found ==> PayloadKept(old(mem), mem, a, chunks[a].size)
    {
      hide Tiling, ListsOk, AllSorted, Binned, Spread, PayloadKept, KeptBeyond, Tags, TagsBut;
      HeaderOf(mem, chunks, found);
      ghost var m0, cs := mem, Split(chunks, found, size);
      split := found + size + OVERHEAD;
      var rest := mem.nodes[found].size - size - OVERHEAD;
      var junk: Node := *;
      PutNodeKeeps(mem, split, junk.(hole := true, size := rest), split, After(chunks, found));
      mem := mem.PutNode(split, junk.(hole := true, size := rest));
      ghost var m1 := mem;
      PutFootKeeps(mem, split + NODE_SIZE + rest, split, split, After(chunks, found));
      mem := mem.PutFoot(split + NODE_SIZE + rest, split);
      KeptTrans(m0, m1, mem, split, After(chunks, found));
      SplitTags(m0, mem, chunks, start, end, wild, found, size);
      SameLinks(m0.nodes, mem.nodes, bins, lists, chunks.Keys);
      SplitTiles(chunks, start, end, wild, found, size);
      TilingSpread(cs, start, end, if found == wild then split else wild);
    }

    /** Splits the hole at found after size payload bytes; found stays in the bin it is in. */
    method SplitChunk(found: nat, size: nat)
      requires Core(map[]) && found in chunks && chunks[found].hole && chunks[found].size >= size + OVERHEAD
      modifies this`mem, this`bins, this`lists, this`chunks, this`wild
      ensures chunks == Split(old(chunks), found, size)
      ensures wild == if found == old(wild) then found + size + OVERHEAD else old(wild)
      ensures Core(map[found := BinIndex(old(chunks)[found].size)])
      ensures LiveKept(old(mem), old(chunks), mem, chunks, {found})
    {
      hide Tiling, ListsOk, SortedAt, AllSorted, Binned, AllIn, Spread, PayloadKept, KeptBeyond, TagsBut, Tags, OnlyLinks, NotElsewhere;
      ghost var none: map<nat, nat>, ex: map<nat, nat> := map[], map[found := BinIndex(chunks[found].size)];
      assert none.Keys == {} && ex.Keys == {found};
      ghost var m0, cs, last := mem, Split(chunks, found, size), if found == wild then found + size + OVERHEAD else wild;
      ghost var lists0 := lists;
      HeaderOf(mem, chunks, found);
      SplitTiles(chunks, start, end, wild, found, size);
      var split := Carve(found, size);
      ghost var m1 := mem;
      var b := GetBinIndex(mem.nodes[split].size);
      Unknown(lists, chunks, b, split);
      CarvedSorted(m0.nodes, m1.nodes, lists, chunks.Keys, b);
      var _ := AddNode(b, split, cs.Keys);
      ghost var m2 := mem;
      LinksKeepTagsBut(m1, m2, cs, start, end, last, found);
      LinkSizes(m1, m2, cs.Keys, []);
      SplitBins(lists0, lists, b, chunks, found, size);
      SplitSorted(m0.nodes, m2.nodes, lists0, lists, b, chunks.Keys, found);
      Resize(found, size, cs, last, ex);
      SplitLive(m0, m1, m2, mem, old(chunks), found, size);
    }

    /** Rewrites the hole flag of a chunk. */
    method Mark(x: nat, hole: bool, ghost ex: map<nat, nat>)
      requires Core(ex) && x in ex
      modifies this`mem, this`chunks
      ensures chunks == old(chunks)[x := Chunk(old(chunks)[x].size, hole)] && Core(ex)
      ensures forall a :: a in chunks && a != x ==> PayloadKept(old(mem), mem, a, chunks[a].size)
    {
      hide Tiling, ListsOk, AllSorted, AllIn, Spread, PayloadKept, KeptBeyond;
      ghost var m0, cs := mem, chunks[x := Chunk(chunks[x].size, hole)];
      HeaderOf(mem, chunks, x);
      MarkTiles(chunks, start, end, wild, x, hole);
      assert Apart(FootOf(cs, x), FOOT_SIZE, x, NODE_SIZE);
      PutNodeKeeps(mem, x, mem.nodes[x].(hole := hole), x, After(cs, x));
      mem := mem.PutNode(x, mem.nodes[x].(hole := hole));
      SameTagsBut(m0, chunks, cs, x);
      assert cs.Keys == chunks.Keys;
      MarkBins(lists, chunks, cs, ex, x);
      chunks := cs;
      Retagged(m0, mem, cs, start, end, wild, x, bins, lists, ex.Keys);
    }

    /** Clears the links of an allocated chunk. */
    method ClearLinks(x: nat)
      requires Core(map[]) && Live(chunks, x)
      modifies this`mem
      ensures Core(map[]) && LiveKept(old(mem), chunks, mem, chunks, {})
    {
      hide Tiling, ListsOk, AllSorted, Spread, PayloadKept, KeptBeyond, OnlyLinks, Tags, Binned, SortedExcept, AllIn;
      ghost var m0, none: map<nat, nat> := mem, map[];
      assert none.Keys == {};
      SetPrev(x, 0, chunks.Keys);
      ghost var m1 := mem;
      SetNext(x, 0, chunks.Keys);
      OnlyLinksTrans(m0, m1, mem, chunks.Keys);
      LinksKeepChunks(m0, mem, chunks, start, end, wild);
      LinkSizes(m0, mem, chunks.Keys, []);
      LiveUnlinked(m0.nodes, mem.nodes, bins, lists, chunks, x);
    }

    /** Every byte of the heap lies in exactly one mapped partition. */
    lemma {:induction false} EveryByteBacked(x: nat)
      requires Backed() && start <= x < end
      ensures exists i :: 0 <= i < |mapped| && mapped[i] <= x < mapped[i] + PARTITION_SIZE
      ensures forall i, j :: 0 <= i < j < |mapped| ==> mapped[i] + PARTITION_SIZE <= mapped[j]
    {
      var i := (x - start) / PARTITION_SIZE;
      assert i < |mapped| && mapped[i] == start + i * PARTITION_SIZE;
    }

    /** Maps n partitions from va on, in whatever portions the monitor grants them. */
    method MapPartitions(va: nat, n: nat)
      modifies this`mapped
      ensures |mapped| == |old(mapped)| + n
      ensures forall i :: 0 <= i < |old(mapped)| ==> mapped[i] == old(mapped)[i]
      ensures forall i :: 0 <= i < n ==> mapped[|old(mapped)| + i] == va + i * PARTITION_SIZE
    {
      var left, next := n, va;
      ghost var base := |mapped|;
      while left > 0
        invariant 0 <= left <= n && next == va + (n - left) * PARTITION_SIZE && |mapped| == base + (n - left)
        invariant forall i :: 0 <= i < base ==> mapped[i] == old(mapped)[i]
        invariant forall i :: base <= i < |mapped| ==> mapped[i] == va + (i - base) * PARTITION_SIZE
      {
        var granted :| 1 <= granted <= left;
        var first := next;
        for i := 0 to granted
          invariant |mapped| == base + (n - left) + i
          invariant forall j :: 0 <= j < base ==> mapped[j] == old(mapped)[j]
          invariant forall j :: base <= j < |mapped| ==> mapped[j] == va + (j - base) * PARTITION_SIZE
        {
          mapped := mapped + [first + i * PARTITION_SIZE];
        }
        left := left - granted;
        next := next + granted * PARTITION_SIZE;
      }
    }

    /** Maps the partitions the heap reaches into when it grows to the given end. */
    method MapUpTo(end': nat)
      requires Backed() && end <= end'
      modifies this`mapped
      ensures start + |mapped| * PARTITION_SIZE == PartitionUp(end')
      ensures forall i :: 0 <= i < |mapped| ==> mapped[i] == start + i * PARTITION_SIZE
    {
      ghost var n := |mapped|;
      MapPartitions(PartitionUp(end), (PartitionUp(end') - PartitionUp(end)) / PARTITION_SIZE);
      forall i | n <= i < |mapped|
        ensures mapped[i] == start + i * PARTITION_SIZE
      {
        assert mapped[n + (i - n)] == PartitionUp(end) + (i - n) * PARTITION_SIZE;
      }
    }

    /** Clears the footer of the last chunk and takes the chunk out of its bin. */
    method ReleaseWilderness() returns (w: nat)
      requires Core(map[]) && chunks[wild].hole
      modifies this`mem, this`bins, this`lists
      ensures w == wild && TagsBut(mem, chunks, wild) && Linked(chunks.Keys)
      ensures mem.nodes[wild].size == chunks[wild].size && mem.nodes[wild].hole
      ensures Binned(lists, chunks, map[wild := BIN_COUNT]) && AllSorted(mem.nodes, lists, {wild})
      ensures forall a :: a in chunks && a != wild ==> PayloadKept(old(mem), mem, a, chunks[a].size)
    {
      hide Tiling, ListsOk, AllSorted, Spread, PayloadKept, KeptBeyond, OnlyLinks, Tags, TagsBut, Binned, SortedExcept;
      ghost var m0, none: map<nat, nat> := mem, map[];
      assert none.Keys == {} && none[wild := BIN_COUNT] == map[wild := BIN_COUNT];
      WildAtEnd(chunks, start, end, wild);
      HeaderOf(mem, chunks, wild);
      w := mem.foots[end - FOOT_SIZE];
      PutFootKeeps(mem, w + NODE_SIZE + mem.nodes[w].size, 0, FootOf(chunks, wild), end);
      mem := mem.PutFoot(w + NODE_SIZE + mem.nodes[w].size, 0);
      ghost var m1, lists0 := mem, lists;
      FooterCleared(m0, m1, chunks, start, end, wild, bins, lists);
      var b := GetBinIndex(mem.nodes[w].size);
      InHome(lists, chunks, map[], wild, b);
      var k := RemoveNode(b, w, chunks.Keys);
      LinksKeepTagsBut(m1, mem, chunks, start, end, wild, wild);
      LinkSizes(m1, mem, chunks.Keys, []);
      UnbinBins(lists0, lists, b, wild, k, chunks, map[]);
      UnbinSorted(m0.nodes, mem.nodes, lists0, lists, b, k, {}, {wild}, chunks.Keys);
      OthersTrans(m0, m1, mem, chunks, wild);
    }

    /** Grows the last chunk and the heap by sz bytes, mapping the partitions this reaches into. */
    method Expand(sz: nat)
      requires Core(map[]) && chunks[wild].hole && Backed()
      modifies this`mem, this`bins, this`lists, this`chunks, this`wild, this`end, this`mapped
      ensures Core(map[]) && Backed() && wild == old(wild) && end == old(end) + sz
      ensures chunks == Grow(old(chunks), wild, sz)
      ensures LiveKept(old(mem), old(chunks), mem, chunks, {})
    {
      hide Tiling, ListsOk, AllSorted, Spread, PayloadKept, KeptBeyond, OnlyLinks, Tags, TagsBut, Binned, AllIn;
      hide RoundUp, PartitionUp;
      WildAtEnd(chunks, start, end, wild);
      MapUpTo(end + sz);
      ghost var m0, cs, ex: map<nat, nat> := mem, Grow(chunks, wild, sz), map[wild := BIN_COUNT];
      assert ex.Keys == {wild};
      GrowTiles(chunks, start, end, wild, sz);
      var w := ReleaseWilderness();
      ghost var m1 := mem;
      assert cs.Keys == chunks.Keys;
      TagsButGrown(m1, chunks, cs, wild);
      MarkBins(lists, chunks, cs, ex, wild);
      end := end + sz;
      Resize(w, mem.nodes[w].size + sz, cs, wild, ex);
      ghost var m2 := mem;
      Rebin(w);
      GrowLive(m0, m1, m2, mem, old(chunks), wild, sz);
    }

    /** The chunk that serves a request of this size is the last one and is too small to split. */
    ghost predicate Exhausts(size: nat)
      requires Core(map[])
      reads this
    {
      TakesLast(chunks, wild, lists, size) && chunks[wild].size - size <= OVERHEAD + MIN_ALLOC_SZ
    }

    /** A hole for a request, after growing the heap if none fits. */
    method FindHole(size: nat) returns (found: nat, index: nat)
      requires Valid()
      modifies this`mem, this`bins, this`lists, this`chunks, this`wild, this`end, this`mapped
      ensures Core(map[]) && Backed() && wild == old(wild) && chunks[wild].hole && chunks[wild].size >= MIN_WILDERNESS
      ensures found in chunks && chunks[found].hole && chunks[found].size >= size
      ensures index == BinIndex(chunks[found].size) && found in lists[index]
      ensures LiveKept(old(mem), old(chunks), mem, chunks, {})
      ensures found == wild && chunks[wild].size - size <= OVERHEAD + MIN_ALLOC_SZ <==> old(Exhausts(size))
      ensures if old(Fits(chunks, size))
              then end == old(end) && mapped == old(mapped) && chunks == old(chunks) && Smallest(chunks, size, found)
              else found == wild && end == old(end) + Shortage(old(chunks), old(wild), size)
      ensures Shortage(old(chunks), old(wild), size) >= 0 && (old(Fits(chunks, size)) ==> Shortage(old(chunks), old(wild), size) == 0)
      ensures !old(Fits(chunks, size)) ==>
                Shortage(old(chunks), old(wild), size) > 0 &&
                chunks == Grow(old(chunks), old(wild), Shortage(old(chunks), old(wild), size))
      ensures old(Fits(chunks, size)) ==> First(old(chunks), old(lists), found)
    {
      hide Tiling, ListsOk, AllSorted, Spread, PayloadKept, Tags, Binned, AllIn, Before, RoundUp, PartitionUp, Backed;
      WildAtEnd(chunks, start, end, wild);
      found, index := SearchFitNode(size);
      if found == 0 {
        HeaderOf(mem, chunks, wild);
        var w := mem.foots[end - FOOT_SIZE];
        Expand(size + 0x10000 - mem.nodes[w].size);
        found, index := SearchFitNode(size);
        assert chunks[wild].size == size + 0x10000;
      } else {
        ListDistinct(mem.nodes, bins, lists, index);
        LastTaken(chunks, wild, lists, size, index, found);
        LiveKeptRefl(mem, chunks, {});
      }
    }

    /** Splits the hole at found if what is left is worth it, and allocates it. */
    method Take(found: nat, index: nat, size: nat)
      requires Core(map[]) && found in chunks && chunks[found].hole && chunks[found].size >= size
      requires index == BinIndex(chunks[found].size) && found in lists[index] && chunks[wild].hole
      modifies this`mem, this`bins, this`lists, this`chunks, this`wild
      ensures Core(map[]) && Live(chunks, found) && size <= chunks[found].size <= size + OVERHEAD + MIN_ALLOC_SZ
      ensures LiveKept(old(mem), old(chunks), mem, chunks, {found})
      ensures chunks[wild].hole <==> !(found == old(wild) && old(chunks)[found].size - size <= OVERHEAD + MIN_ALLOC_SZ)
      ensures !chunks[wild].hole ==> wild == old(wild) && chunks[wild].size == old(chunks)[wild].size
      ensures if old(chunks)[found].size - size > OVERHEAD + MIN_ALLOC_SZ
              then && chunks == Split(old(chunks), found, size)[found := Chunk(size, false)]
                   && wild == (if found == old(wild) then found + size + OVERHEAD else old(wild))
              else chunks == old(chunks)[found := Chunk(old(chunks)[found].size, false)] && wild == old(wild)
    {
      hide Tiling, ListsOk, AllSorted, Spread, PayloadKept, Tags, Binned, AllIn;
      ghost var m0, cs0, ex: map<nat, nat> := mem, chunks, map[found := index];
      HeaderOf(mem, chunks, found);
      ExceptHome(lists, chunks, mem.nodes, found, index);
      if mem.nodes[found].size - size > OVERHEAD + MIN_ALLOC_SZ {
        SplitChunk(found, size);
      } else {
        LiveKeptRefl(mem, chunks, {found});
      }
      StillThere(lists, chunks, ex, found);
      ghost var m1, cs1 := mem, chunks;
      Mark(found, false, ex);
      ghost var m2 := mem;
      StillThere(lists, chunks, ex, found);
      Unbin(index, found, ex);
      NoLongerException(lists, chunks, mem.nodes, found, ex);
      MarkLive(m1, m2, mem, cs1, found, false);
      LiveKeptTrans(m0, cs0, m1, cs1, mem, chunks, {found});
    }

    /** Allocates size bytes. The result is the payload of a chunk that was not allocated before; what is
        allocated keeps its place and its contents. The heap stays valid exactly if the request does not
        use up the last chunk. */
    method Alloc(size: nat) returns (p: nat)
      requires Valid()
      modifies this
      ensures start == old(start) && Core(map[]) && Backed()
      ensures p >= NODE_SIZE && Live(chunks, p - NODE_SIZE) && !Live(old(chunks), p - NODE_SIZE)
      ensures size <= chunks[p - NODE_SIZE].size <= size + OVERHEAD + MIN_ALLOC_SZ
      ensures LiveKept(old(mem), old(chunks), mem, chunks, {p - NODE_SIZE})
      ensures old(Fits(chunks, size)) ==> Smallest(old(chunks), size, p - NODE_SIZE) && First(old(chunks), old(lists), p - NODE_SIZE)
      ensures Allocated(old(chunks), old(wild), old(end), chunks, wild, end, p - NODE_SIZE, size)
      ensures end == old(end) ==> mapped == old(mapped)
      ensures Valid() <==> p - NODE_SIZE != wild
      ensures Valid() <==> !old(Exhausts(size))
      ensures !Valid() ==> p - NODE_SIZE == wild
    {
      hide Tiling, ListsOk, AllSorted, Spread, PayloadKept, Tags, Binned, AllIn, RoundUp, PartitionUp;
      hide Backed, Exhausts, LiveKept, Fits, Smallest, Allocated, Shortage, First, Split;
      ghost var m0, cs0, w0, e0 := mem, chunks, wild, end;
      WildAtEnd(chunks, start, end, wild);
      ghost var sz := Shortage(cs0, w0, size);
      var found, index := FindHole(size);
      ghost var m1, cs1 := mem, chunks;
      LiveKeptMore(m0, cs0, m1, cs1, {found});
      Take(found, index, size);
      ghost var m2, cs2 := mem, chunks;
      LiveKeptTrans(m0, cs0, m1, cs1, m2, cs2, {found});
      ghost var topUp := TopUp(found);
      AllocatedSteps(cs0, start, e0, w0, size, found, sz, cs1, cs2, wild, topUp);
      LiveKeptTrans(m0, cs0, m2, cs2, mem, chunks, {found});
      p := found + NODE_SIZE;
    }

    /** Grows the last chunk to its minimum size if it is smaller, and clears the links of the allocated chunk. */
    method TopUp(found: nat) returns (ghost topUp: nat)
      requires Core(map[]) && Backed() && Live(chunks, found) && (chunks[wild].size < MIN_WILDERNESS ==> chunks[wild].hole)
      modifies this
      ensures start == old(start) && wild == old(wild) && Core(map[]) && Backed() && Live(chunks, found)
      ensures topUp == if old(chunks)[wild].size < MIN_WILDERNESS then MIN_WILDERNESS - old(chunks)[wild].size else 0
      ensures chunks == Grow(old(chunks), wild, topUp) && end == old(end) + topUp && (topUp == 0 ==> mapped == old(mapped))
      ensures LiveKept(old(mem), old(chunks), mem, chunks, {found})
    {
      hide Tiling, ListsOk, AllSorted, Spread, PayloadKept, Tags, Binned, AllIn, RoundUp, PartitionUp, Backed, LiveKept;
      ghost var m2, cs2 := mem, chunks;
      topUp := 0;
      WildAtEnd(chunks, start, end, wild);
      HeaderOf(mem, chunks, wild);
      var w := mem.foots[end - FOOT_SIZE];
      if mem.nodes[w].size < MIN_WILDERNESS {
        topUp := MIN_WILDERNESS - mem.nodes[w].size;
        Expand(MIN_WILDERNESS - mem.nodes[w].size);
      } else {
        LiveKeptRefl(mem, chunks, {});
        assert Grow(chunks, wild, 0) == chunks;
      }
      StillLive(m2, cs2, mem, chunks, found);
      ghost var m3, cs3 := mem, chunks;
      LiveKeptMore(m2, cs2, m3, cs3, {found});
      ClearLinks(found);
      LiveKeptMore(m3, cs3, mem, chunks, {found});
      LiveKeptTrans(m2, cs2, m3, cs3, mem, chunks, {found});
    }

    /** Joins an allocated chunk to the hole before it, which leaves its bin. */
    method MergeBack(prev: nat, head: nat)
      requires Core(map[]) && prev in chunks && chunks[prev].hole && After(chunks, prev) == head && Live(chunks, head)
      modifies this`mem, this`bins, this`lists, this`chunks, this`wild
      ensures chunks == Join(old(chunks), prev) && wild == (if head == old(wild) then prev else old(wild))
      ensures Core(map[prev := BIN_COUNT])
      ensures LiveKept(old(mem), old(chunks), mem, chunks, {head})
    {
      hide Tiling, ListsOk, AllSorted, Spread, PayloadKept, Tags, Binned, TagsBut;
      ghost var m0, ex: map<nat, nat>, none: map<nat, nat> := mem, map[prev := BIN_COUNT], map[];
      assert none[prev := BIN_COUNT] == ex;
      HeaderOf(mem, chunks, prev);
      HeaderOf(mem, chunks, head);
      var b := GetBinIndex(mem.nodes[prev].size);
      InHome(lists, chunks, map[], prev, b);
      Unbin(b, prev, map[]);
      ghost var m1, cs := mem, Join(chunks, prev);
      HeaderOf(mem, chunks, prev);
      HeaderOf(mem, chunks, head);
      JoinTiles(chunks, start, end, wild, prev);
      TilingSpread(cs, start, end, if head == wild then prev else wild);
      SameTagsBut(mem, chunks, cs, prev);
      DropBins(lists, chunks, cs, ex, ex, prev, head);
      Resize(prev, mem.nodes[prev].size + OVERHEAD + mem.nodes[head].size, cs, if head == wild then prev else wild, ex);
      JoinLive(m0, m1, mem, old(chunks), prev, head);
    }

    /** Writes the tags of a chunk that takes over the one after it. */
    method AbsorbNext(x: nat, next: nat, ghost cs: Chunks)
      requires x in cs && next == After(cs, x) && next in cs
      requires TagsAt(mem, cs, x) && TagsAt(mem, cs, next)
      modifies this`mem
      ensures var r := Join(cs, x);
              && KeptBeyond(old(mem), mem, x, After(r, x)) && TagsAt(mem, r, x)
              && mem.nodes[x].next == old(mem).nodes[x].next && mem.nodes[x].prev == old(mem).nodes[x].prev
    {
      hide KeptBeyond, Join, Mem.PutNode, Mem.PutFoot;
      ghost var r, hi := Join(cs, x), After(cs, next);
      Joined(cs, x);
      ghost var m0 := mem;
      var merged := mem.nodes[x].(size := mem.nodes[x].size + OVERHEAD + mem.nodes[next].size);
      var f := next + NODE_SIZE + mem.nodes[next].size;
      PutNodeKeeps(mem, x, merged, x, hi);
      NodeStays(mem, x, merged, f, 0, next);
      mem := mem.PutNode(x, merged);
      ghost var m1 := mem;
      PutFootKeeps(mem, f, 0, x, hi);
      NodeStays(mem, x, merged, f, 0, next);
      NodeStays(mem, x, merged, f, 0, x);
      mem := mem.PutFoot(f, 0);
      KeptTrans(m0, m1, mem, x, hi);
      ghost var m2 := mem;
      var cleared := mem.nodes[next].(size := 0, hole := false);
      PutNodeKeeps(mem, next, cleared, x, hi);
      NodeStays(mem, next, cleared, f, 0, x);
      mem := mem.PutNode(next, cleared);
      KeptTrans(m0, m2, mem, x, hi);
      ghost var m3 := mem;
      PutFootKeeps(mem, x + NODE_SIZE + mem.nodes[x].size, x, x, hi);
      NodeStays(mem, x, merged, f, x, x);
      mem := mem.PutFoot(x + NODE_SIZE + mem.nodes[x].size, x);
      KeptTrans(m0, m3, mem, x, hi);
    }

    /** Joins the hole after a chunk to it. The chunk at x is in no bin, and allocated only if it is head. */
    method MergeNext(x: nat, next: nat, ghost head: nat)
      requires Core(map[x := BIN_COUNT]) && next == After(chunks, x) && next in chunks && chunks[next].hole
      requires x == head || chunks[x].hole
      modifies this`mem, this`bins, this`lists, this`chunks, this`wild
      ensures chunks == Join(old(chunks), x) && wild == (if next == old(wild) then x else old(wild))
      ensures Core(map[x := BIN_COUNT])
      ensures LiveKept(old(mem), old(chunks), mem, chunks, {head})
    {
      hide Tiling, ListsOk, AllSorted, Spread, PayloadKept, Tags, Binned, TagsBut, TagsAt, KeptBeyond;
      ghost var m0, ex: map<nat, nat> := mem, map[x := BIN_COUNT];
      HeaderOf(mem, chunks, next);
      var b := GetBinIndex(mem.nodes[next].size);
      InHome(lists, chunks, ex, next, b);
      Unbin(b, next, ex);
      ghost var m1, cs, last := mem, Join(chunks, x), if next == wild then x else wild;
      ghost var ex' := ex[next := BIN_COUNT];
      JoinTiles(chunks, start, end, wild, x);
      TilingSpread(cs, start, end, last);
      SameTagsBut(mem, chunks, cs, x);
      DropBins(lists, chunks, cs, ex', ex, x, next);
      DropSorted(mem.nodes, lists, chunks, ex', ex, next);
      BothTagged(mem, chunks, x, next);
      AbsorbNext(x, next, chunks);
      chunks, wild := cs, last;
      Retagged(m1, mem, cs, start, end, wild, x, bins, lists, ex.Keys);
      JoinLiveNext(m0, m1, mem, old(chunks), x, next, head);
    }

    /** Marks a chunk that is in no bin as a hole and puts it into its bin. */
    method Retire(x: nat, ghost head: nat)
      requires Core(map[x := BIN_COUNT]) && (x == head || chunks[x].hole)
      modifies this`mem, this`bins, this`lists, this`chunks
      ensures Core(map[]) && chunks == old(chunks)[x := Chunk(old(chunks)[x].size, true)]
      ensures LiveKept(old(mem), old(chunks), mem, chunks, {head})
    {
      hide Core, PayloadKept;
      ghost var m0, cs0 := mem, chunks;
      ExceptionIsChunk(x);
      Mark(x, true, map[x := BIN_COUNT]);
      ghost var m1 := mem;
      Rebin(x);
      RetireLive(m0, m1, mem, cs0, chunks, x, head);
    }

    lemma {:induction false} ExceptionIsChunk(x: nat)
      requires Core(map[x := BIN_COUNT])
      ensures x in chunks
    {
      var ex: map<nat, nat> := map[x := BIN_COUNT];
      assert x in ex.Keys;
    }

    /** Frees an allocated chunk. Freeing an empty first chunk panics; otherwise the heap is valid again, the
        chunk is no longer allocated, and all other allocated chunks keep their place and contents. */
    method Free(p: nat) returns (panicked: bool, ghost home: nat)
      requires Valid() && p >= NODE_SIZE && Live(chunks, p - NODE_SIZE)
      modifies this`mem, this`bins, this`lists, this`chunks, this`wild
      ensures panicked <==> p - NODE_SIZE == start && old(chunks)[p - NODE_SIZE].size == 0
      ensures !panicked ==> Valid() && !Live(chunks, p - NODE_SIZE)
      ensures !panicked ==> LiveKept(old(mem), old(chunks), mem, chunks, {p - NODE_SIZE})
      ensures !panicked ==> Freed(old(chunks), chunks, start, p - NODE_SIZE, home)
    {
      hide Tiling, ListsOk, AllSorted, Spread, PayloadKept, Tags, Binned, AllIn, Backed, LiveKept, Freed, Join, FreedMap;
      var head := p - NODE_SIZE;
      home := head;
      ghost var m0, cs0, w0 := mem, chunks, wild;
      WildAtEnd(chunks, start, end, wild);
      HeaderOf(mem, chunks, head);
      if head == start {
        ExceptHome(lists, chunks, mem.nodes, head, BIN_COUNT);
        if mem.nodes[head].size == 0 {
          Mark(head, true, map[head := BIN_COUNT]);
          return true, home;
        }
        Retire(head, head);
        FreedFirst(cs0, start, end, wild);
        panicked := false;
      } else {
        home := FreeInner(head);
        panicked := false;
      }
    }

    /** Frees a chunk that is not the first. */
    method FreeInner(h: nat) returns (ghost home: nat)
      requires Valid() && Live(chunks, h) && h != start
      modifies this`mem, this`bins, this`lists, this`chunks, this`wild
      ensures Valid() && !Live(chunks, h)
      ensures LiveKept(old(mem), old(chunks), mem, chunks, {h})
      ensures Freed(old(chunks), chunks, start, h, home)
    {
      hide Tiling, ListsOk, AllSorted, Spread, PayloadKept, Tags, Binned, AllIn, Backed, LiveKept, Freed, Join;
      ghost var m0, cs0, w0 := mem, chunks, wild;
      HeaderOf(mem, chunks, h);
      NextChunk(chunks, start, end, wild, h);
      FooterBefore(mem, chunks, start, end, wild, h);
      var head := h;
      var next := head + NODE_SIZE + mem.nodes[head].size + FOOT_SIZE;
      var prev := mem.foots[head - FOOT_SIZE];
      HeaderOf(mem, chunks, prev);
      if mem.nodes[prev].hole {
        MergeBack(prev, head);
        head := prev;
      } else {
        ExceptHome(lists, chunks, mem.nodes, head, BIN_COUNT);
        LiveKeptRefl(mem, chunks, {h});
      }
      ghost var m1, cs1, w1 := mem, chunks, wild;
      AfterBack(cs0, start, end, w0, h, prev);
      HeaderOf(mem, chunks, next);
      if mem.nodes[next].hole {
        Joined(chunks, head);
        MergeNext(head, next, h);
      } else {
        LiveKeptRefl(mem, chunks, {h});
      }
      ghost var m2, cs2 := mem, chunks;
      LiveKeptTrans(m0, cs0, m1, cs1, m2, cs2, {h});
      Retire(head, h);
      LiveKeptTrans(m0, cs0, m2, cs2, mem, chunks, {h});
      FreedShape(cs0, start, end, w0, h, prev);
      home := head;
    }

    /** A client writes one byte of a payload it owns. */
    method Store(p: nat, i: nat, v: int)
      requires Core(map[]) && p >= NODE_SIZE && Live(chunks, p - NODE_SIZE) && i < chunks[p - NODE_SIZE].size
      modifies this`mem
      ensures Core(map[])
      ensures forall x :: x != p + i ==> SameByte(old(mem), mem, x)
      ensures p + i in mem.data && mem.data[p + i] == v
    {
      hide Tiling, ListsOk, AllSorted, Spread, Tags, Binned, AllIn, KeptBeyond;
      ghost var h, none: map<nat, nat>, ex: map<nat, nat> := p - NODE_SIZE, map[], map[p - NODE_SIZE := BIN_COUNT];
      assert none.Keys == {} && none[h := BIN_COUNT] == ex;
      ghost var m0 := mem;
      HeaderOf(mem, chunks, h);
      ExceptHome(lists, chunks, mem.nodes, h, BIN_COUNT);
      assert Apart(h, NODE_SIZE, p + i, 1) && Apart(FootOf(chunks, h), FOOT_SIZE, p + i, 1);
      PutByteKeeps(mem, p + i, v, h, After(chunks, h));
      mem := mem.PutByte(p + i, v);
      SameTagsBut(m0, chunks, chunks, h);
      Retagged(m0, mem, chunks, start, end, wild, h, bins, lists, ex.Keys);
      NoLongerException(lists, chunks, mem.nodes, h, none);
    }

    /** Allocates number * size bytes and clears them. */
    method Calloc(number: nat, size: nat) returns (p: nat)
      requires Valid()
      modifies this
      ensures start == old(start) && Core(map[]) && Backed()
      ensures p >= NODE_SIZE && Live(chunks, p - NODE_SIZE) && !Live(old(chunks), p - NODE_SIZE)
      ensures chunks[p - NODE_SIZE].size >= number * size
      ensures forall j :: p <= j < p + number * size ==> j in mem.data && mem.data[j] == 0
      ensures LiveKept(old(mem), old(chunks), mem, chunks, {p - NODE_SIZE})
      ensures Allocated(old(chunks), old(wild), old(end), chunks, wild, end, p - NODE_SIZE, number * size)
      ensures end == old(end) ==> mapped == old(mapped)
      ensures Valid() <==> !old(Exhausts(number * size))
      ensures !Valid() ==> p - NODE_SIZE == wild
    {
      hide Core, LiveKept, RoundUp, PartitionUp, Backed, Exhausts, Allocated;
      ghost var m0, cs0 := mem, chunks;
      p := Alloc(number * size);
      ghost var m1 := mem;
      Clear(p, number * size);
      LiveKeptTrans(m0, cs0, m1, chunks, mem, chunks, {p - NODE_SIZE});
    }

    /** Clears the first n bytes of a payload. */
    method Clear(p: nat, n: nat)
      requires Core(map[]) && p >= NODE_SIZE && Live(chunks, p - NODE_SIZE) && n <= chunks[p - NODE_SIZE].size
      modifies this`mem
      ensures Core(map[]) && LiveKept(old(mem), chunks, mem, chunks, {p - NODE_SIZE})
      ensures forall j :: p <= j < p + n ==> j in mem.data && mem.data[j] == 0
    {
      hide Core, LiveKept;
      ghost var h := p - NODE_SIZE;
      LiveKeptRefl(mem, chunks, {h});
      for i := 0 to n
        invariant Core(map[]) && LiveKept(old(mem), chunks, mem, chunks, {h})
        invariant forall j :: p <= j < p + i ==> j in mem.data && mem.data[j] == 0
      {
        ghost var m := mem;
        Store(p, i, 0);
        CoreTiles();
        StoreLive(m, mem, chunks, start, end, wild, h, i);
        LiveKeptTrans(old(mem), chunks, m, chunks, mem, chunks, {h});
        forall j | p <= j < p + i
          ensures j in mem.data && mem.data[j] == 0
        {
          assert SameByte(m, mem, j);
        }
      }
    }

    /** Whether the last chunk is allocated. */
    method LastTakenUp() returns (r: bool)
      requires Core(map[])
      ensures r <==> !chunks[wild].hole
    {
      WildAtEnd(chunks, start, end, wild);
      HeaderOf(mem, chunks, wild);
      r := !mem.nodes[mem.foots[end - FOOT_SIZE]].hole;
    }

    lemma {:induction false} CoreTiles()
      requires Core(map[])
      ensures Tiling(chunks, start, end, wild)
    {}
  }
}
