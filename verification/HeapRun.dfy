/** Whole runs of a heap client. */
module HeapRun {
  import opened HeapMem
  import opened HeapLayout
  import opened HeapBins
  import opened HeapModel

  datatype Op = AllocOp(size: nat) | CallocOp(number: nat, size: nat) | FreeOp(p: nat) | StoreOp(p: nat, i: nat, v: int)

  /** What a client may expect: the sizes of the blocks it owns, and the bytes with known contents. */
  datatype Ledger = Ledger(owned: map<nat, nat>, bytes: map<nat, int>)

  function Without(bytes: map<nat, int>, p: nat, n: nat): map<nat, int> {
    map x | x in bytes && !(p <= x < p + n) :: bytes[x]
  }

  predicate In(x: nat, p: nat, n: nat) {
    p <= x < p + n
  }

  function Zeroes(p: nat, n: nat): map<nat, int> {
    map x: nat | p <= x < p + n && In(x, p, n) :: 0
  }

  /** The ledger after an operation that returned p. Freeing or writing what is not owned does nothing. */
  function Record(l: Ledger, op: Op, p: nat): Ledger {
    match op
    case AllocOp(n) => Ledger(l.owned[p := n], Without(l.bytes, p, n))
    case CallocOp(k, n) => Ledger(l.owned[p := k * n], l.bytes + Zeroes(p, k * n))
    case FreeOp(q) => if q in l.owned then Ledger(l.owned - {q}, Without(l.bytes, q, l.owned[q])) else l
    case StoreOp(q, i, v) => if q in l.owned && i < l.owned[q] then l.(bytes := l.bytes[q + i := v]) else l
  }

  function Replay(ops: seq<Op>, results: seq<nat>): Ledger
    requires |results| == |ops|
  {
    if ops == [] then Ledger(map[], map[])
    else Record(Replay(ops[..|ops| - 1], results[..|ops| - 1]), ops[|ops| - 1], results[|ops| - 1])
  }

  /** Exactly the owned blocks are allocated, and memory holds the recorded bytes, all inside owned blocks. */
  ghost predicate Agrees(m: Mem, cs: Chunks, l: Ledger) {
    && (forall a: nat :: Live(cs, a) <==> a + NODE_SIZE in l.owned)
    && (forall p :: p in l.owned ==> p >= NODE_SIZE && p - NODE_SIZE in cs && l.owned[p] <= cs[p - NODE_SIZE].size)
    && (forall x :: x in l.bytes ==> x in m.data && m.data[x] == l.bytes[x])
    && (forall x :: x in l.bytes ==> Owned(l, x))
  }

  ghost predicate Owned(l: Ledger, x: nat) {
    exists p :: p in l.owned && p <= x < p + l.owned[p]
  }

  /** Owned blocks do not overlap. */
  ghost predicate Disjoint(l: Ledger) {
    forall p, q :: p in l.owned && q in l.owned && p != q ==> Apart(p, l.owned[p], q, l.owned[q])
  }

  lemma {:induction false} AgreesDisjoint(m: Mem, cs: Chunks, start: nat, end: nat, wild: nat, l: Ledger)
    requires Tiling(cs, start, end, wild) && Agrees(m, cs, l)
    ensures Disjoint(l)
  {
    forall p, q | p in l.owned && q in l.owned && p != q
      ensures Apart(p, l.owned[p], q, l.owned[q])
    {
      PayloadsApart(cs, start, end, wild, p - NODE_SIZE, q - NODE_SIZE);
    }
  }

  /** A recorded byte of a block that is kept is unchanged. */
  lemma {:induction false} ByteKept(m: Mem, cs: Chunks, m': Mem, cs': Chunks, l: Ledger, h: nat, x: nat)
    requires Agrees(m, cs, l) && LiveKept(m, cs, m', cs', {h}) && x in l.bytes
    ensures !(h + NODE_SIZE in l.owned && h + NODE_SIZE <= x < h + NODE_SIZE + l.owned[h + NODE_SIZE]) ==>
              x in m'.data && m'.data[x] == l.bytes[x]
  {
    assert Owned(l, x);
    var p :| p in l.owned && p <= x < p + l.owned[p];
    var a: nat := p - NODE_SIZE;
    assert Live(cs, a) <==> a + NODE_SIZE in l.owned;
    if a != h {
      assert PayloadKept(m, m', a, cs[a].size);
      assert SameByte(m, m', x);
    }
  }

  lemma {:induction false} AllocAgrees(m: Mem, cs: Chunks, m': Mem, cs': Chunks, l: Ledger, n: nat, p: nat)
    requires Agrees(m, cs, l) && p >= NODE_SIZE && LiveKept(m, cs, m', cs', {p - NODE_SIZE})
    requires Live(cs', p - NODE_SIZE) && !Live(cs, p - NODE_SIZE) && n <= cs'[p - NODE_SIZE].size
    ensures Agrees(m', cs', Record(l, AllocOp(n), p))
  {
    hide PayloadKept;
    var h: nat, l' := p - NODE_SIZE, Record(l, AllocOp(n), p);
    assert Live(cs, h) <==> h + NODE_SIZE in l.owned;
    forall x | x in l'.bytes
      ensures x in m'.data && m'.data[x] == l'.bytes[x] && Owned(l', x)
    {
      ByteKept(m, cs, m', cs', l, h, x);
      assert Owned(l, x);
      var q :| q in l.owned && q <= x < q + l.owned[q];
      assert q in l'.owned;
    }
    OwnedKept(m, cs, m', cs', l, l', h);
  }

  lemma {:induction false} CallocAgrees(m: Mem, cs: Chunks, m': Mem, cs': Chunks, l: Ledger, k: nat, n: nat, p: nat)
    requires Agrees(m, cs, l) && p >= NODE_SIZE && LiveKept(m, cs, m', cs', {p - NODE_SIZE})
    requires Live(cs', p - NODE_SIZE) && !Live(cs, p - NODE_SIZE) && k * n <= cs'[p - NODE_SIZE].size
    requires forall x :: p <= x < p + k * n ==> x in m'.data && m'.data[x] == 0
    ensures Agrees(m', cs', Record(l, CallocOp(k, n), p))
  {
    hide PayloadKept;
    var h: nat, l' := p - NODE_SIZE, Record(l, CallocOp(k, n), p);
    assert Live(cs, h) <==> h + NODE_SIZE in l.owned;
    forall x | x in l'.bytes
      ensures x in m'.data && m'.data[x] == l'.bytes[x] && Owned(l', x)
    {
      if x in Zeroes(p, k * n) {
        assert p in l'.owned;
      } else {
        ByteKept(m, cs, m', cs', l, h, x);
        assert Owned(l, x);
        var q :| q in l.owned && q <= x < q + l.owned[q];
        assert q in l'.owned;
      }
    }
    OwnedKept(m, cs, m', cs', l, l', h);
  }

  lemma {:induction false} FreeAgrees(m: Mem, cs: Chunks, m': Mem, cs': Chunks, l: Ledger, p: nat, r: nat)
    requires Agrees(m, cs, l) && p in l.owned && LiveKept(m, cs, m', cs', {p - NODE_SIZE})
    requires !Live(cs', p - NODE_SIZE)
    ensures Agrees(m', cs', Record(l, FreeOp(p), r))
  {
    hide PayloadKept;
    var h: nat, l' := p - NODE_SIZE, Record(l, FreeOp(p), r);
    forall x | x in l'.bytes
      ensures x in m'.data && m'.data[x] == l'.bytes[x] && Owned(l', x)
    {
      ByteKept(m, cs, m', cs', l, h, x);
      assert Owned(l, x);
      var q :| q in l.owned && q <= x < q + l.owned[q];
      assert q in l'.owned;
    }
    OwnedKept(m, cs, m', cs', l, l', h);
  }

  /** Outside one chunk the owned blocks are still the allocated chunks. */
  lemma {:induction false} OwnedKept(m: Mem, cs: Chunks, m': Mem, cs': Chunks, l: Ledger, l': Ledger, h: nat)
    requires Agrees(m, cs, l) && LiveKept(m, cs, m', cs', {h})
    requires forall p :: p != h + NODE_SIZE ==> (p in l.owned <==> p in l'.owned) && (p in l.owned ==> l'.owned[p] == l.owned[p])
    requires h + NODE_SIZE in l'.owned <==> Live(cs', h)
    requires h + NODE_SIZE in l'.owned ==> l'.owned[h + NODE_SIZE] <= cs'[h].size
    ensures forall a: nat :: Live(cs', a) <==> a + NODE_SIZE in l'.owned
    ensures forall p :: p in l'.owned ==> p >= NODE_SIZE && p - NODE_SIZE in cs' && l'.owned[p] <= cs'[p - NODE_SIZE].size
  {
    hide PayloadKept;
    forall a: nat
      ensures Live(cs', a) <==> a + NODE_SIZE in l'.owned
      ensures a + NODE_SIZE in l'.owned ==> l'.owned[a + NODE_SIZE] <= cs'[a].size
    {
      assert Live(cs, a) <==> a + NODE_SIZE in l.owned;
      assert a != h ==> (Live(cs, a) <==> Live(cs', a));
    }
    forall p | p in l'.owned
      ensures p >= NODE_SIZE && p - NODE_SIZE in cs' && l'.owned[p] <= cs'[p - NODE_SIZE].size
    {
      assert p != h + NODE_SIZE ==> p in l.owned;
      var a: nat := p - NODE_SIZE;
      assert Live(cs', a) <==> a + NODE_SIZE in l'.owned;
    }
  }

  lemma {:induction false} StoreAgrees(m: Mem, m': Mem, cs: Chunks, l: Ledger, p: nat, i: nat, v: int, r: nat)
    requires Agrees(m, cs, l) && p in l.owned && i < l.owned[p]
    requires forall x :: x != p + i ==> SameByte(m, m', x)
    requires p + i in m'.data && m'.data[p + i] == v
    ensures Agrees(m', cs, Record(l, StoreOp(p, i, v), r))
  {
    var l' := Record(l, StoreOp(p, i, v), r);
    forall x | x in l'.bytes
      ensures x in m'.data && m'.data[x] == l'.bytes[x] && Owned(l', x)
    {
      if x == p + i {
        assert p in l'.owned;
      } else {
        assert SameByte(m, m', x) && Owned(l, x);
        var q :| q in l.owned && q <= x < q + l.owned[q];
        assert q in l'.owned;
      }
    }
  }

  lemma {:induction false} ReplayStep(script: seq<Op>, results: seq<nat>, p: nat)
    requires |results| < |script|
    ensures var n := |results|;
            Replay(script[..n + 1], results + [p]) == Record(Replay(script[..n], results), script[n], p)
  {
    var n := |results|;
    assert script[..n + 1][..n] == script[..n] && (results + [p])[..n] == results;
  }

  /** How a run stands: going on, out of usable space after serving the last request from the last chunk,
      or stopped by a panic. */
  datatype Status = Running | Exhausted | Panicked

  lemma {:induction false} OwnedIsLive(m: Mem, cs: Chunks, l: Ledger, p: nat)
    requires Agrees(m, cs, l) && p in l.owned
    ensures p >= NODE_SIZE && Live(cs, p - NODE_SIZE) && l.owned[p] <= cs[p - NODE_SIZE].size
  {
    var a: nat := p - NODE_SIZE;
    assert Live(cs, a) <==> a + NODE_SIZE in l.owned;
  }

  method Step(heap: Heap, op: Op, ledger: Ledger) returns (status: Status, p: nat)
    requires heap.Valid() && Agrees(heap.mem, heap.chunks, ledger)
    modifies heap
    ensures heap.start == old(heap.start)
    ensures status.Panicked? <==>
              op.FreeOp? && op.p in ledger.owned && op.p - NODE_SIZE == heap.start && old(heap.chunks)[heap.start].size == 0
    ensures !status.Panicked? ==> heap.Core(map[]) && Agrees(heap.mem, heap.chunks, Record(ledger, op, p))
    ensures status.Running? ==> heap.Valid()
    ensures status.Exhausted? ==> !heap.chunks[heap.wild].hole
  {
    hide Agrees, LiveKept, HeapModel.Heap.Core, HeapModel.Heap.Backed, HeapModel.Heap.Exhausts;
    status, p := Running, 0;
    ghost var m, cs := heap.mem, heap.chunks;
    heap.CoreTiles();
    match op
    case AllocOp(n) =>
      p := heap.Alloc(n);
      AllocAgrees(m, cs, heap.mem, heap.chunks, ledger, n, p);
      var last := heap.LastTakenUp();
      status := if last then Exhausted else Running;
    case CallocOp(k, n) =>
      p := heap.Calloc(k, n);
      CallocAgrees(m, cs, heap.mem, heap.chunks, ledger, k, n, p);
      var last := heap.LastTakenUp();
      status := if last then Exhausted else Running;
    case FreeOp(q) =>
      if q in ledger.owned {
        OwnedIsLive(m, cs, ledger, q);
        var panicked, home := heap.Free(q);
        if panicked {
          status := Panicked;
        } else {
          FreeAgrees(m, cs, heap.mem, heap.chunks, ledger, q, p);
        }
      }
    case StoreOp(q, i, v) =>
      if q in ledger.owned && i < ledger.owned[q] {
        OwnedIsLive(m, cs, ledger, q);
        heap.Store(q, i, v);
        StoreAgrees(m, heap.mem, heap.chunks, ledger, q, i, v, p);
      }
  }

  /** Any script of client operations on a fresh heap, up to the point where the heap panics or its last chunk is
      used up: the owned blocks never overlap, and every byte reads as the client last wrote it. */
  method Run(script: seq<Op>, garbage: Mem) returns (heap: Heap, ledger: Ledger, results: seq<nat>, status: Status)
    ensures fresh(heap)
    ensures |results| <= |script| && ledger == Replay(script[..|results|], results)
    ensures status.Running? ==> |results| == |script| && heap.Valid()
    ensures status.Exhausted? ==> heap.Core(map[]) && !heap.chunks[heap.wild].hole
    ensures status.Panicked? ==> |results| < |script| && script[|results|] == FreeOp(heap.start + NODE_SIZE)
    ensures !status.Panicked? ==> Agrees(heap.mem, heap.chunks, ledger) && Disjoint(ledger)
  {
    hide Agrees, Record, Replay, Tiling, Disjoint, HeapModel.Heap.Core, HeapModel.Heap.Backed, HeapModel.Heap.Exhausts;
    heap := new Heap(garbage);
    ledger, results, status := Ledger(map[], map[]), [], Running;
    NothingOwned(heap.mem, heap.chunks);
    ReplayNothing(script[..0], results);
    while |results| < |script|
      invariant |results| <= |script| && ledger == Replay(script[..|results|], results) && fresh(heap)
      invariant status.Running? && heap.Valid() && Agrees(heap.mem, heap.chunks, ledger)
    {
      var p;
      status, p := Step(heap, script[|results|], ledger);
      if status.Panicked? {
        return;
      }
      ReplayStep(script, results, p);
      ledger := Record(ledger, script[|results|], p);
      results := results + [p];
      if status.Exhausted? {
        break;
      }
    }
    heap.CoreTiles();
    AgreesDisjoint(heap.mem, heap.chunks, heap.start, heap.end, heap.wild, ledger);
  }

  lemma {:induction false} ReplayNothing(ops: seq<Op>, results: seq<nat>)
    requires |ops| == |results| == 0
    ensures Replay(ops, results) == Ledger(map[], map[])
  {}

  lemma {:induction false} NothingOwned(m: Mem, cs: Chunks)
    requires forall a :: a in cs ==> cs[a].hole
    ensures Agrees(m, cs, Ledger(map[], map[]))
  {}
}
