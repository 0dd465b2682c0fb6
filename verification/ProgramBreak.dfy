/** The program break: pages from the U-mode pool up to the heap start, whole partitions beyond it. */
module ProgramBreak {
  import opened Arith
  import opened Sizes
  import opened PageTree
  import opened PagePool
  import opened PageTable

  const HEAP_START := 0x1_0000_0000
  const VA_SPACE := 0x80_0000_0000

  /** A mapped block: its address and size. */
  datatype Block = Block(va: nat, size: nat)

  /** The blocks follow one another from lo to hi. */
  ghost predicate Chain(log: seq<Block>, lo: nat, hi: nat) {
    if log == [] then lo == hi
    else var b := log[|log| - 1]; b.va + b.size == hi && b.size > 0 && Chain(log[..|log| - 1], lo, b.va)
  }

  ghost predicate Covers(log: seq<Block>, i: nat, x: nat) {
    i < |log| && log[i].va <= x < log[i].va + log[i].size
  }

  lemma {:induction false} ChainBounds(log: seq<Block>, lo: nat, hi: nat)
    requires Chain(log, lo, hi)
    ensures lo <= hi && forall i :: 0 <= i < |log| ==> lo <= log[i].va && log[i].va + log[i].size <= hi
  {
    if log != [] {
      ChainBounds(log[..|log| - 1], lo, log[|log| - 1].va);
    }
  }

  lemma {:induction false} ChainEnd(log: seq<Block>, lo: nat, hi: nat, hi': nat)
    requires Chain(log, lo, hi) && Chain(log, lo, hi')
    ensures hi == hi'
  {}

  /** Each address of a chain is in exactly one of its blocks. */
  lemma {:induction false} ExactlyOnce(log: seq<Block>, lo: nat, hi: nat, x: nat)
    requires Chain(log, lo, hi)
    ensures lo <= x < hi <==> exists i :: Covers(log, i, x)
    ensures forall i, j :: Covers(log, i, x) && Covers(log, j, x) ==> i == j
  {
    ChainBounds(log, lo, hi);
    if log != [] {
      var n, b := |log| - 1, log[|log| - 1];
      ChainBounds(log[..n], lo, b.va);
      ExactlyOnce(log[..n], lo, b.va, x);
      assert Covers(log, n, x) <==> b.va <= x < hi;
      forall i: nat | i < n
        ensures Covers(log, i, x) <==> Covers(log[..n], i, x)
      {}
    }
  }

  const PA_SPACE := 0x100_0000_0000_0000

  /** A leaf of the level for user data: readable and writable, not executable and not global. */
  ghost predicate UserRw(m: Option<Mapping>, level: nat) {
    && m.Some? && m.value.level == level
    && var e := m.value.pte; e.v && e.a && e.d && e.u && e.r && e.w && !e.x && !e.g
  }

  lemma {:induction false} BlockRange(x: nat, va: nat, level: nat)
    requires level <= 2 && x < VA_SPACE && va < VA_SPACE && va % BlockSize(level) == 0
    ensures SameBlock(x, va, level) <==> va <= x < va + BlockSize(level)
  {
    hide SameBlock;
    SameBlockIs(x, va, level);
  }

  // ----- The tables that the break needs -----

  const GIB := 0x4000_0000

  /** The end of what is mapped for a break: a whole page up to the heap start, a whole partition beyond it. */
  function FrontOf(brk: nat): (f: nat)
    requires brk > 0
  {
    if PageUp(brk) < HEAP_START then PageUp(brk) else PartitionUp(PageUp(brk))
  }

  /** The second-level tables for the gigabytes from the heap start up to number end. */
  ghost function GibTables(end: nat): set<seq<nat>> {
    set g | HEAP_START / GIB <= g < end :: [g]
  }

  function GibEnd(hi: nat): nat {
    (hi + GIB - 1) / GIB
  }

  lemma {:induction false} GibTablesNext(end: nat)
    requires HEAP_START / GIB <= end
    ensures GibTables(end + 1) == GibTables(end) + {[end]}
  {}

  lemma {:induction false} GibTablesCount(end: nat)
    ensures |GibTables(end)| == if end <= HEAP_START / GIB then 0 else end - HEAP_START / GIB
  {
    if end <= HEAP_START / GIB {
      assert GibTables(end) == {};
    } else {
      GibTablesCount(end - 1);
      GibTablesNext(end - 1);
      forall g | g < end - 1
        ensures [g] != [end - 1]
      {
        assert [g][0] != [end - 1][0];
      }
    }
  }

  /** The positions of the tables that the mapping of n blocks passes through. */
  ghost function Crossed(va: nat, n: nat, level: nat): set<seq<nat>> {
    if n == 0 then {} else Crossed(va, n - 1, level) + Prefixes(va + (n - 1) * BlockSize(level), level)
  }

  lemma {:induction false} CrossedMore(va: nat, i: nat, n: nat, level: nat)
    requires i <= n
    ensures Crossed(va, i, level) <= Crossed(va, n, level)
  {
    if i < n {
      CrossedMore(va, i, n - 1, level);
    }
  }

  /** The positions that matter to the break: second-level tables, and the third-level table below the heap start. */
  predicate Tracked(q: seq<nat>) {
    |q| == 1 || q == Path(HEAP_START - 1, 2)
  }

  ghost function TrackedOf(m: set<seq<nat>>): set<seq<nat>> {
    set q | q in m && Tracked(q)
  }

  /** Where the break maps blocks of a level: pages in the partition below the heap start, partitions from it on. */
  predicate Located(va: nat, end: nat, level: nat) {
    (level == 2 && HEAP_START - PARTITION_SIZE <= va && end <= HEAP_START) || (level == 1 && HEAP_START <= va && end <= VA_SPACE)
  }

  lemma {:induction false} BelowHeapStart(va: nat)
    requires HEAP_START - PARTITION_SIZE <= va < VA_SPACE
    ensures Path(va, 2) == Path(HEAP_START - 1, 2) <==> va < HEAP_START
    ensures va < HEAP_START ==> Path(va, 1) == Path(HEAP_START - 1, 1)
  {
    hide Path;
    SameBlockIs(va, HEAP_START - 1, 1);
    SameBlockIs(va, HEAP_START - 1, 0);
  }

  /** Mapping a block adds tracked tables only, and drops none. */
  lemma {:induction false} TrackedTables(va: nat, level: nat)
    requires Located(va, va + 1, level)
    ensures forall q :: q in Prefixes(va, level) ==> Tracked(q)
    ensures forall q :: Tracked(q) ==> !(Path(va, level + 1) <= q)
    ensures level == 2 ==> Prefixes(va, 2) == Prefixes(HEAP_START - 1, 2)
    ensures level == 1 ==> Prefixes(va, 1) == {[va / GIB]}
  {
    hide Path, Prefixes;
    PrefixesFew(va);
    PrefixesFew(HEAP_START - 1);
    BelowHeapStart(va);
    PathLength(va, level + 1);
    FirstSlot(va);
  }

  lemma {:induction false} TrackedMissing(m: set<seq<nat>>, va: nat, level: nat)
    requires Located(va, va + 1, level)
    ensures Prefixes(va, level) - m == Prefixes(va, level) - TrackedOf(m)
  {
    hide Tracked, Prefixes;
    TrackedTables(va, level);
  }

  lemma {:induction false} TrackedMapped(m: set<seq<nat>>, m': set<seq<nat>>, va: nat, level: nat)
    requires Located(va, va + 1, level)
    requires forall q :: q in m' <==> q in m + Prefixes(va, level) && !(Path(va, level + 1) <= q)
    ensures TrackedOf(m') == TrackedOf(m) + Prefixes(va, level)
  {
    hide Tracked, Prefixes, Path;
    TrackedTables(va, level);
  }

  lemma {:induction false} FirstSlot(va: nat)
    requires va < VA_SPACE
    ensures Path(va, 1) == [va / GIB]
  {
    assert Path(va, 0) == [];
    assert Path(va, 1) == Path(va, 0) + [Slot(va, 0)];
  }

  lemma {:induction false} CrossedPages(va: nat, n: nat)
    requires HEAP_START - PARTITION_SIZE <= va && va + n * PAGE_SIZE <= HEAP_START
    ensures Crossed(va, n, 2) == if n == 0 then {} else Prefixes(HEAP_START - 1, 2)
  {
    hide Prefixes;
    if n > 0 {
      CrossedPages(va, n - 1);
      TrackedTables(va + (n - 1) * PAGE_SIZE, 2);
    }
  }

  lemma {:induction false} CrossedPartitions(va: nat, n: nat)
    requires HEAP_START <= va && va % PARTITION_SIZE == 0 && va + n * PARTITION_SIZE <= VA_SPACE
    ensures GibTables(GibEnd(va + n * PARTITION_SIZE)) == GibTables(GibEnd(va)) + Crossed(va, n, 1)
  {
    hide Prefixes, GibTables, GibEnd;
    if n > 0 {
      var at := va + (n - 1) * PARTITION_SIZE;
      CrossedPartitions(va, n - 1);
      TrackedTables(at, 1);
      GibStep(at);
      UnionAssociates(GibTables(GibEnd(va)), Crossed(va, n - 1, 1), Prefixes(at, 1));
    } else {
      assert GibTables(GibEnd(va)) == GibTables(GibEnd(va)) + {};
    }
  }

  lemma {:induction false} UnionAssociates<T>(a: set<T>, b: set<T>, c: set<T>)
    ensures a + b + c == a + (b + c)
  {}

  lemma {:induction false} GibStep(at: nat)
    requires HEAP_START <= at && at % PARTITION_SIZE == 0
    ensures GibTables(GibEnd(at + PARTITION_SIZE)) == GibTables(GibEnd(at)) + {[at / GIB]}
  {
    assert GibEnd(at + PARTITION_SIZE) == at / GIB + 1;
    if at % GIB == 0 {
      assert GibEnd(at) == at / GIB;
      GibTablesNext(at / GIB);
    } else {
      assert GibEnd(at) == at / GIB + 1;
    }
  }

  // Counting what is missing of a set.

  lemma {:induction false} MissingMonotone<T>(a: set<T>, b: set<T>, t: set<T>)
    requires a <= b
    ensures |a - t| <= |b - t|
  {
    var x, y := a - t, b - t;
    assert y == x + (y - x);
  }

  lemma {:induction false} MissingSplit<T>(a: set<T>, b: set<T>, t: set<T>)
    ensures |(a + b) - t| == |a - t| + |b - (t + a)|
  {
    assert (a + b) - t == (a - t) + (b - (t + a));
  }

  class Brk {
    const table: Table
    const pool: Pool
    var brk: nat
    /** Where the break started, and the end of the range reserved for it. */
    ghost const first: nat
    ghost const limit: nat
    /** The blocks mapped for the break so far. */
    ghost var log: seq<Block>

    ghost predicate Ready()
      reads table, table.pool, pool
    {
      table.Valid() && table.pool.Valid() && pool.Valid() && pool != table.pool
    }

    /** The range [lo, hi) is mapped for the user, read and write, in blocks of one level. */
    ghost predicate Mapped(lo: nat, hi: nat, level: nat)
      reads table
    {
      forall x :: lo <= x < hi ==> UserRw(table.Translate(x), level)
    }

    /** The range is mapped so, to consecutive physical addresses from pa on. */
    ghost predicate MappedTo(lo: nat, hi: nat, level: nat, pa: int)
      reads table
    {
      forall x :: lo <= x < hi ==> UserRw(table.Translate(x), level) && Physical(table.Translate(x), x) == pa + (x - lo)
    }

    /** The pool byte for the break address x: the pool ends where the heap starts. */
    ghost function PoolAt(x: nat): int {
      pool.base * PAGE_SIZE + pool.size - (HEAP_START - x)
    }

    ghost predicate Unmapped(lo: nat, hi: nat)
      reads table
    {
      forall x :: lo <= x < hi ==> table.Translate(x) == None
    }

    constructor (table: Table, pool: Pool, ghost limit: nat)
      requires table.Valid() && pool.Valid() && pool != table.pool
      requires pool.Avail() % PAGE_SIZE == 0 && pool.Avail() < PARTITION_SIZE
      requires HEAP_START <= limit <= VA_SPACE && limit % PARTITION_SIZE == 0
      requires pool.base * PAGE_SIZE + pool.size <= PA_SPACE
      requires forall x :: HEAP_START - pool.Avail() <= x < limit ==> table.Translate(x) == None
      ensures Valid() && this.table == table && this.pool == pool && this.limit == limit
      ensures brk == first == HEAP_START - pool.Avail() && log == []
    {
      this.table, this.pool, this.limit := table, pool, limit;
      this.brk, this.first, this.log := HEAP_START - pool.Avail(), HEAP_START - pool.Avail(), [];
      new;
      hide Table.Valid, Table.Translate, FrontOf, PageUp, Made, Region, Required;
      FirstFront(pool.Avail());
      FreshRegion();
    }

    lemma {:induction false} FreshRegion()
      requires log == [] && first <= HEAP_START && forall x :: first <= x < limit ==> table.Translate(x) == None
      ensures Region(first) && Required(first) <= Made()
    {
      hide Table.Translate, UserRw, Physical, GibTables, GibEnd, Made;
      NoGibs(first, first);
    }

    /** The positions of the tables that matter to the break. */
    ghost function Made(): set<seq<nat>>
      reads table
    {
      TrackedOf(table.Made())
    }

    /** The tables needed for everything from the initial break up to a front. */
    ghost function Required(front: nat): set<seq<nat>> {
      (if first < HEAP_START && front > first then Prefixes(HEAP_START - 1, 2) else {}) + GibTables(GibEnd(front))
    }

    /** Whether the table pool can serve the tables needed for a front. */
    ghost predicate Affordable(front: nat)
      reads this, table, table.pool
      requires table.pool.Valid()
    {
      |Required(front) - Made()| * PAGE_SIZE <= table.pool.Avail()
    }

    /** Everything from the initial break up to the front is mapped exactly once, nothing beyond it is, and while
        pool pages are left they would just reach the heap start. */
    ghost predicate Valid()
      reads this, table, table.pool, pool
    {
      ValidAt(brk)
    }

    /** The invariant, for a break at b. */
    ghost predicate ValidAt(b: nat)
      reads this`log, table, table.pool, pool
    {
      && Ready() && b > 0 && first <= b && limit <= VA_SPACE && limit % PARTITION_SIZE == 0 && HEAP_START <= limit
      && pool.Avail() % PAGE_SIZE == 0 && pool.Avail() < PARTITION_SIZE && pool.base * PAGE_SIZE + pool.size <= PA_SPACE
      && HEAP_START - PARTITION_SIZE < first <= HEAP_START && first % PAGE_SIZE == 0 && HEAP_START - first <= pool.size
      && first <= FrontOf(b) <= limit
      && (if pool.Avail() > 0 then PageUp(b) + pool.Avail() == HEAP_START else PageUp(b) >= HEAP_START)
      && Region(FrontOf(b)) && Required(FrontOf(b)) <= Made()
    }

    /** A break can be lowered without harm exactly as long as the front stays. */
    lemma {:induction false} Lowered(b: nat, b': nat)
      requires ValidAt(b) && 0 < b' <= b
      ensures ValidAt(b') <==> first <= b' && FrontOf(b) <= FrontOf(b')
      ensures Required(FrontOf(b')) <= Made()
    {
      hide Table.Valid, Mapped, Unmapped, Chain, Required, Made, RoundUp;
      FrontMonotone(b', b);
      RequiredMore(FrontOf(b'), FrontOf(b));
      if ValidAt(b') {
        ChainEnd(log, first, FrontOf(b), FrontOf(b'));
      }
    }

    /** [first, front) is mapped exactly once, to the pages of the pool below the heap start and in partitions from
        there on, and the rest of the range is not mapped. */
    ghost predicate Region(front: nat)
      reads this`log, table
    {
      && MappedTo(first, if front < HEAP_START then front else HEAP_START, 2, PoolAt(first)) && Mapped(HEAP_START, front, 1)
      && Unmapped(front, limit) && Chain(log, first, front)
    }

    /** Every address from the initial break up to the break is mapped user read/write, by exactly one block. */
    lemma {:induction false} MappedOnce(x: nat)
      requires Valid() && first <= x < PageUp(brk)
      ensures UserRw(table.Translate(x), if x < HEAP_START then 2 else 1)
      ensures exists i :: Covers(log, i, x)
      ensures forall i, j :: Covers(log, i, x) && Covers(log, j, x) ==> i == j
    {
      hide Chain, Table.Valid;
      ExactlyOnce(log, first, FrontOf(brk), x);
    }

    /** Below the heap start every address of the break has a byte of the pool to itself. */
    lemma {:induction false} OwnByte(x: nat, y: nat)
      requires Valid() && first <= x < PageUp(brk) && first <= y < PageUp(brk) && x < y < HEAP_START
      ensures pool.base * PAGE_SIZE <= Physical(table.Translate(x), x) < Physical(table.Translate(y), y)
      ensures Physical(table.Translate(y), y) < pool.base * PAGE_SIZE + pool.size
      ensures Physical(table.Translate(y), y) - Physical(table.Translate(x), x) == y - x
    {
      hide Chain, Table.Valid, UserRw, Physical;
    }

    /** Maps one block that was not mapped, if its tables are there or can be made. */
    method MapOne(va: nat, pa: nat, level: nat) returns (ok: bool)
      requires Ready() && level <= 2 && va % BlockSize(level) == 0 && va < VA_SPACE && table.Translate(va) == None
      requires Located(va, va + 1, level) && pa % PAGE_SIZE == 0 && pa < PA_SPACE
      modifies this`log, table, table.pool
      ensures Ready()
      ensures ok <==> |Prefixes(va, level) - old(Made())| * PAGE_SIZE <= old(table.pool.Avail())
      ensures ok ==> table.pool.used == old(table.pool.used) + |Prefixes(va, level) - old(Made())|
      ensures ok ==> Made() == old(Made()) + Prefixes(va, level)
      ensures log == old(log) + if ok then [Block(va, BlockSize(level))] else []
      ensures forall x :: 0 <= x < VA_SPACE ==>
                            if ok && va <= x < va + BlockSize(level)
                            then UserRw(table.Translate(x), level) && Physical(table.Translate(x), x) == pa + (x - va)
                            else table.Translate(x) == old(table.Translate(x))
    {
      hide Physical, SameBlock, Table.Valid, Table.Translate, Table.Reached, Table.Made, BlockSize, Path, Prefixes, TrackedOf;
      ghost var made := table.Made();
      TrackedMissing(made, va, level);
      ok := table.MapPage(va, pa, Flags(true, true, false, true, false), level);
      forall x: nat | x < VA_SPACE
        ensures SameBlock(x, va, level) <==> va <= x < va + BlockSize(level)
      {
        BlockRange(x, va, level);
      }
      if ok {
        TrackedMapped(made, table.Made(), va, level);
        log := log + [Block(va, BlockSize(level))];
      }
    }

    /** Maps n blocks one after the other, up to end, exactly if the table pool can serve the tables they cross. */
    method MapBlocks(va: nat, pa: nat, n: nat, level: nat, ghost end: nat) returns (ok: bool)
      requires Ready() && level <= 2 && va % BlockSize(level) == 0 && va + n * BlockSize(level) == end <= VA_SPACE
      requires Unmapped(va, end) && Chain(log, first, va) && Located(va, end, level)
      requires pa % PAGE_SIZE == 0 && pa + (end - va) <= PA_SPACE
      modifies this`log, table, table.pool
      ensures Ready()
      ensures ok <==> |Crossed(va, n, level) - old(Made())| * PAGE_SIZE <= old(table.pool.Avail())
      ensures ok ==> table.pool.used == old(table.pool.used) + |Crossed(va, n, level) - old(Made())|
      ensures ok ==> Made() == old(Made()) + Crossed(va, n, level)
      ensures ok ==> MappedTo(va, end, level, pa) && Chain(log, first, end)
      ensures forall x :: 0 <= x < VA_SPACE && !(va <= x < end) ==> table.Translate(x) == old(table.Translate(x))
    {
      hide Table.Valid, Table.Translate, Chain, UserRw, Physical, Made, Crossed, Prefixes;
      ghost var size := BlockSize(level);
      ok := true;
      var at: nat := va;
      CrossedNone(va, level, Made());
      for i := 0 to n
        invariant Ready() && Chain(log, first, at) && va <= at <= end
        invariant at == va + i * BlockSize(level) && at % size == 0
        invariant Made() == old(Made()) + Crossed(va, i, level)
        invariant table.pool.used == old(table.pool.used) + |Crossed(va, i, level) - old(Made())|
        invariant MappedTo(va, at, level, pa)
        invariant forall x :: 0 <= x < VA_SPACE && !(va <= x < at) ==> table.Translate(x) == old(table.Translate(x))
      {
        Steps(va, i, n, BlockSize(level), end, at);
        PageAligned(pa, i, level);
        CrossedNext(va, i, n, level, at, old(Made()));
        ghost var log0 := log;
        ok := MapOne(at, pa + i * BlockSize(level), level);
        if !ok {
          return;
        }
        Extend(log0, first, at, BlockSize(level));
        at := at + BlockSize(level);
      }
    }

    /** Maps pages from the pool. */
    method MapFromPool(va: nat, size: nat) returns (ok: bool)
      requires Ready() && Region(va) && va % PAGE_SIZE == 0 && size % PAGE_SIZE == 0 && 0 < size <= pool.Avail()
      requires first <= va && HEAP_START - PARTITION_SIZE < va && va + size <= HEAP_START <= limit <= VA_SPACE
      requires Required(va) <= Made() && va + pool.Avail() == HEAP_START && pool.base * PAGE_SIZE + pool.size <= PA_SPACE
      modifies this`log, table, table.pool, pool
      ensures Ready() && pool.Avail() == old(pool.Avail()) - size
      ensures ok <==> old(Affordable(va + size))
      ensures ok ==> Region(va + size) && Paid(va + size, old(Made()), old(table.pool.used))
      ensures ok ==> forall x :: 0 <= x < VA_SPACE && !(va <= x < va + size) ==> table.Translate(x) == old(table.Translate(x))
    {
      hide Table.Valid, Table.Translate, Chain, UserRw, Physical, Made, Crossed, Prefixes, GibTables;
      var n := size / PAGE_SIZE;
      var page;
      ok, page := pool.Alloc(n);
      CrossedPages(va, n);
      NoGibs(va, va + size);
      OnlyNew(Required(va), Crossed(va, n, 2), Made());
      assert Required(va + size) == Required(va) + Crossed(va, n, 2);
      ok := MapBlocks(va, page * PAGE_SIZE, n, 2, va + size);
    }

    /** The tables for a front were made, and paid for from the pool. */
    ghost predicate Paid(front: nat, made: set<seq<nat>>, used: nat)
      reads table, table.pool
    {
      Made() == made + Required(front) && table.pool.used == used + |Required(front) - made|
    }

    /** Maps partitions that the monitor grants in full, at pa. */
    method MapOutsidePool(va: nat, size: nat, pa: nat) returns (ok: bool)
      requires Ready() && Region(va) && va % PARTITION_SIZE == 0 && size % PARTITION_SIZE == 0
      requires HEAP_START <= va && va + size <= limit <= VA_SPACE && first <= HEAP_START
      requires Required(va) <= Made() && pa % PAGE_SIZE == 0 && pa + size <= PA_SPACE
      modifies this`log, table, table.pool
      ensures Ready() && (ok <==> old(Affordable(va + size)))
      ensures ok ==> Region(va + size) && Paid(va + size, old(Made()), old(table.pool.used))
      ensures ok ==> MappedTo(va, va + size, 1, pa)
      ensures ok ==> forall x :: 0 <= x < VA_SPACE && !(va <= x < va + size) ==> table.Translate(x) == old(table.Translate(x))
    {
      hide Table.Valid, Table.Translate, Chain, UserRw, Physical, Made, Crossed, Prefixes, GibTables;
      ghost var n := size / PARTITION_SIZE;
      CrossedPartitions(va, n);
      OnlyNew(Required(va), Crossed(va, n, 1), Made());
      assert Required(va + size) == Required(va) + Crossed(va, n, 1);
      ok := MapBlocks(va, pa, size / PARTITION_SIZE, 1, va + size);
    }

    /** Maps as much as the pool can serve; returns the break from which partitions take over. */
    method UsePool(old': nat, new': nat) returns (ok: bool, next: nat)
      requires Ready() && new' > old' && old' % PAGE_SIZE == new' % PAGE_SIZE == pool.Avail() % PAGE_SIZE == 0
      requires first <= old' && pool.Avail() < PARTITION_SIZE
      requires pool.Avail() > 0 ==> Region(old') && old' + pool.Avail() == HEAP_START <= limit <= VA_SPACE
      requires pool.Avail() > 0 ==> Required(old') <= Made()
      requires pool.base * PAGE_SIZE + pool.size <= PA_SPACE
      modifies this`log, table, table.pool, pool
      ensures Ready() && next == if old(pool.Avail()) > 0 && new' > HEAP_START then HEAP_START else old'
      ensures old(pool.Avail()) > 0 ==> pool.Avail() == if new' < HEAP_START then HEAP_START - new' else 0
      ensures old(pool.Avail()) > 0 ==>
                var f := if new' < HEAP_START then new' else HEAP_START;
                && (ok <==> old(Affordable(f)))
                && (ok ==> Region(f) && Paid(f, old(Made()), old(table.pool.used)))
      ensures old(pool.Avail()) == 0 ==>
                && ok && pool.Avail() == 0 && Made() == old(Made()) && table.pool.used == old(table.pool.used)
                && forall f :: old(Region(f)) ==> Region(f)
      ensures ok ==>
                forall x :: 0 <= x < VA_SPACE && !(old' <= x < new' && x < HEAP_START) ==> table.Translate(x) == old(table.Translate(x))
    {
      hide Table.Valid, Table.Translate, Region, Made, Required;
      var remain, required := pool.Avail(), new' - old';
      ok, next := true, old';
      if remain > 0 {
        if required <= remain {
          ok := MapFromPool(old', required);
        } else {
          ok := MapFromPool(old', remain);
          next := old' + remain;
        }
      }
    }

    /** Queries the break, or sets it. Raising it succeeds exactly if the table pool can serve the tables that are
        missing, and then everything up to the new break is mapped exactly once. Lowering it changes nothing else,
        which keeps the invariant exactly if the front stays. */
    method SysBrk(newBrk: nat, grant: nat) returns (ok: bool, r: nat)
      requires Valid() && (newBrk > 0 ==> PartitionUp(PageUp(newBrk)) <= limit)
      requires grant % PAGE_SIZE == 0 && grant + (limit - HEAP_START) <= PA_SPACE
      modifies this`log, this`brk, table, table.pool, pool
      ensures r == if newBrk == 0 then old(brk) else newBrk
      ensures ok <==>
                newBrk == 0 || |Required(FrontOf(newBrk)) - old(Made())| * PAGE_SIZE <= old(table.pool.Avail())
      ensures ok ==> brk == r && Paid(FrontOf(r), old(Made()), old(table.pool.used))
      ensures ok ==> (Valid() <==> first <= r && old(FrontOf(brk)) <= FrontOf(r))
      ensures r <= old(brk) ==> log == old(log)
      ensures ok ==>
                var from := old(FrontOf(brk));
                && MappedTo(if from < HEAP_START then HEAP_START else from, FrontOf(r), 1, grant)
                && forall x :: 0 <= x < VA_SPACE && !(from <= x < FrontOf(r)) ==> table.Translate(x) == old(table.Translate(x))
    {
      hide Table.Valid, Table.Translate, Chain, UserRw, Physical, RoundUp, Region, Made, Required;
      ok, r := true, brk;
      AlreadyPaid(Required(FrontOf(brk)), Made());
      if newBrk != 0 {
        r := newBrk;
        if newBrk <= brk {
          PageUpMonotone(newBrk, brk);
          FrontMonotone(newBrk, brk);
          Lowered(brk, newBrk);
          AlreadyPaid(Required(FrontOf(newBrk)), Made());
        } else {
          PageUpMonotone(brk, newBrk);
          FrontMonotone(brk, newBrk);
        }
        if PageUp(newBrk) > PageUp(brk) {
          ok := RaiseBrk(newBrk, grant);
          if !ok {
            return;
          }
        }
        brk := newBrk;
      }
    }

    /** Maps what is missing below a higher break. */
    method RaiseBrk(newBrk: nat, grant: nat) returns (ok: bool)
      requires Valid() && 0 < brk < newBrk && PageUp(newBrk) > PageUp(brk) && PartitionUp(PageUp(newBrk)) <= limit
      requires grant % PAGE_SIZE == 0 && grant + (limit - HEAP_START) <= PA_SPACE
      modifies this`log, table, table.pool, pool
      ensures ok <==> old(Affordable(FrontOf(newBrk)))
      ensures ok ==> ValidAt(newBrk) && Paid(FrontOf(newBrk), old(Made()), old(table.pool.used))
      ensures ok ==>
                var from := FrontOf(brk);
                && MappedTo(if from < HEAP_START then HEAP_START else from, FrontOf(newBrk), 1, grant)
                && forall x :: 0 <= x < VA_SPACE && !(from <= x < FrontOf(newBrk)) ==>
                     table.Translate(x) == old(table.Translate(x))
    {
      hide Table.Valid, Table.Translate, Chain, UserRw, Physical, PageUp, PartitionUp, FrontOf, Region, Made, Required, MappedTo;
      FrontMonotone(brk, newBrk);
      FrontParts(brk);
      FrontParts(newBrk);
      PoolLeft(newBrk, first);
      ok := Raise(PageUp(brk), PageUp(newBrk), grant, FrontOf(brk), FrontOf(newBrk));
    }

    /** Maps what lies between two breaks rounded up to pages: first from the pool, then whole partitions. */
    method Raise(old': nat, new': nat, grant: nat, ghost from: nat, ghost to: nat) returns (ok: bool)
      requires Ready() && new' > old' > 0 && old' % PAGE_SIZE == new' % PAGE_SIZE == pool.Avail() % PAGE_SIZE == 0
      requires from == (if old' < HEAP_START then old' else PartitionUp(old'))
      requires to == (if new' < HEAP_START then new' else PartitionUp(new')) <= limit
      requires HEAP_START <= limit <= VA_SPACE && HEAP_START - PARTITION_SIZE < first <= old' && first <= HEAP_START
      requires if pool.Avail() > 0 then old' + pool.Avail() == HEAP_START else old' >= HEAP_START
      requires Region(from) && Required(from) <= Made() && pool.Avail() < PARTITION_SIZE
      requires pool.base * PAGE_SIZE + pool.size <= PA_SPACE
      requires grant % PAGE_SIZE == 0 && grant + (limit - HEAP_START) <= PA_SPACE
      modifies this`log, table, table.pool, pool
      ensures Ready() && pool.Avail() == if new' < HEAP_START then HEAP_START - new' else 0
      ensures ok <==> old(Affordable(to))
      ensures ok ==> Region(to) && Paid(to, old(Made()), old(table.pool.used))
      ensures ok ==> MappedTo(if from < HEAP_START then HEAP_START else from, to, 1, grant)
      ensures ok ==> forall x :: 0 <= x < VA_SPACE && !(from <= x < to) ==> table.Translate(x) == old(table.Translate(x))
    {
      hide Table.Valid, Table.Translate, Chain, UserRw, Physical, PartitionUp, Region, Made, Required;
      ghost var made := Made();
      ghost var middle := if pool.Avail() == 0 then from else if new' < HEAP_START then new' else HEAP_START;
      RaiseParts(old', new', pool.Avail() > 0);
      RequiredMore(middle, to);
      TwoStages(Required(middle), Required(to), made);
      AlreadyPaid(Required(from), made);
      var next;
      ok, next := UsePool(old', new');
      if !ok {
        return;
      }
      if PartitionUp(new') > PartitionUp(next) {
        ok := MapOutsidePool(PartitionUp(next), PartitionUp(new') - PartitionUp(next), grant);
      }
    }

    lemma {:induction false} RequiredMore(f: nat, f': nat)
      requires f <= f'
      ensures Required(f) <= Required(f')
    {
      assert GibEnd(f) <= GibEnd(f');
    }

    /** Moving the front to b and then to its goal costs as much as moving it there at once. */
    lemma {:induction false} RunCost(a: nat, b: nat, goal: nat, made: set<seq<nat>>)
      requires a <= b <= goal
      ensures var r, r' := Required(a), Required(b);
              && |r' - made| == |r - made| + |r' - (made + r)| && made + r + r' == made + r'
              && |r' - made| <= |Required(goal) - made|
    {
      hide Required;
      RequiredMore(a, b);
      RequiredMore(b, goal);
      TwoStages(Required(a), Required(b), made);
      MissingMonotone(Required(b), Required(goal), made);
    }

    /** Two tables for the pages below the heap start, if any are mapped, and one for each gigabyte from there on. */
    lemma {:induction false} RequiredCount(front: nat)
      ensures |Required(front)| == (if first < HEAP_START && front > first then 2 else 0)
                                 + (if front <= HEAP_START then 0 else (front + 0x3fff_ffff) / 0x4000_0000 - 4)
    {
      hide GibTables, Prefixes, Path;
      var a, b := Prefixes(HEAP_START - 1, 2), GibTables(GibEnd(front));
      PrefixesFew(HEAP_START - 1);
      FirstSlot(HEAP_START - 1);
      GibTablesCount(GibEnd(front));
      GibsApart(GibEnd(front), Path(HEAP_START - 1, 1), Path(HEAP_START - 1, 2));
      assert a * b == {};
      assert {} + b == b;
    }
  }

  lemma {:induction false} GibsApart(end: nat, p: seq<nat>, q: seq<nat>)
    requires p == [3] && |q| == 2
    ensures p !in GibTables(end) && q !in GibTables(end)
  {
    forall g | HEAP_START / GIB <= g < end
      ensures [g] != p && [g] != q
    {
      assert [g][0] != p[0] && |[g]| != |q|;
    }
  }

  lemma {:induction false} CrossedNone(va: nat, level: nat, m: set<seq<nat>>)
    ensures m == m + Crossed(va, 0, level) && |Crossed(va, 0, level) - m| == 0
  {}

  lemma {:induction false} CrossedNext(va: nat, i: nat, n: nat, level: nat, at: nat, m: set<seq<nat>>)
    requires i < n && at == va + i * BlockSize(level)
    ensures m + Crossed(va, i, level) + Prefixes(at, level) == m + Crossed(va, i + 1, level)
    ensures |Crossed(va, i + 1, level) - m| == |Crossed(va, i, level) - m| + |Prefixes(at, level) - (m + Crossed(va, i, level))|
    ensures |Crossed(va, i + 1, level) - m| <= |Crossed(va, n, level) - m|
  {
    hide Prefixes, BlockSize;
    var a, b := Crossed(va, i, level), Prefixes(at, level);
    assert Crossed(va, i + 1, level) == a + b;
    MissingSplit(a, b, m);
    CrossedMore(va, i + 1, n, level);
    MissingMonotone(a + b, Crossed(va, n, level), m);
  }

  lemma {:induction false} NoGibs(f: nat, f': nat)
    requires f <= HEAP_START && f' <= HEAP_START
    ensures GibTables(GibEnd(f)) == {} == GibTables(GibEnd(f'))
  {
    assert GibEnd(f) <= 4 && GibEnd(f') <= 4;
  }

  lemma {:induction false} OnlyNew<T>(r: set<T>, u: set<T>, m: set<T>)
    requires r <= m
    ensures (r + u) - m == u - m && m + (r + u) == m + u
  {}

  lemma {:induction false} AlreadyPaid<T>(r: set<T>, m: set<T>)
    requires r <= m
    ensures r - m == {} && |r - m| == 0 && m + r == m
  {
    assert r - m == {};
  }

  lemma {:induction false} TwoStages<T>(r: set<T>, r': set<T>, m: set<T>)
    requires r <= r'
    ensures |r' - m| == |r - m| + |r' - (m + r)| && m + r + r' == m + r' && r' <= m + r'
  {
    assert r + r' == r';
    MissingSplit(r, r', m);
  }

  // ----- Runs of the system call -----

  /** The break after a run of requests; a request of 0 is a query. */
  function After(brk: nat, requests: seq<nat>): (b: nat)
    ensures brk > 0 ==> b > 0
  {
    if requests == [] then brk
    else
      var n := |requests| - 1;
      if requests[n] == 0 then After(brk, requests[..n]) else requests[n]
  }

  /** No request lowers the front of the break, goes below its start or passes the end of the range. */
  predicate Rising(brk: nat, requests: seq<nat>, first: nat, limit: nat)
    requires brk > 0
  {
    requests == [] ||
    var n := |requests| - 1;
    && Rising(brk, requests[..n], first, limit)
    && (requests[n] > 0 ==>
          && first <= requests[n] && FrontOf(After(brk, requests[..n])) <= FrontOf(requests[n])
          && PartitionUp(PageUp(requests[n])) <= limit)
  }

  lemma {:induction false} RisingParts(brk: nat, requests: seq<nat>, first: nat, limit: nat, i: nat)
    requires brk > 0 && Rising(brk, requests, first, limit) && i <= |requests|
    ensures Rising(brk, requests[..i], first, limit)
    ensures FrontOf(After(brk, requests[..i])) <= FrontOf(After(brk, requests))
    decreases |requests|
  {
    hide FrontOf;
    if i == |requests| {
      assert requests[..i] == requests;
    } else {
      var n := |requests| - 1;
      RisingParts(brk, requests[..n], first, limit, i);
      assert requests[..n][..i] == requests[..i];
    }
  }

  lemma {:induction false} FrontMonotone(a: nat, b: nat)
    requires 0 < a <= b
    ensures FrontOf(a) <= FrontOf(b)
  {
    PageUpMonotone(a, b);
    PartitionUpMonotone(PageUp(a), PageUp(b));
  }

  /** A run of requests that never lowers the front succeeds exactly if the table pool can serve the tables for its
      last front, and then every request got the break it asked for. */
  method Run(b: Brk, requests: seq<nat>, grants: seq<nat>) returns (ok: bool, answers: seq<nat>)
    requires b.Valid() && Rising(b.brk, requests, b.first, b.limit) && |grants| == |requests|
    requires forall i :: 0 <= i < |grants| ==> grants[i] % PAGE_SIZE == 0 && grants[i] + (b.limit - HEAP_START) <= PA_SPACE
    modifies b`log, b`brk, b.table, b.table.pool, b.pool
    ensures ok <==>
              |b.Required(FrontOf(After(old(b.brk), requests))) - old(b.Made())| * PAGE_SIZE <= old(b.table.pool.Avail())
    ensures ok ==> b.Valid() && b.brk == After(old(b.brk), requests) && |answers| == |requests|
    ensures ok ==> b.Paid(FrontOf(b.brk), old(b.Made()), old(b.table.pool.used))
    ensures ok ==> forall i :: 0 <= i < |requests| ==> answers[i] == After(old(b.brk), requests[..i + 1])
    ensures ok ==>
              forall x :: FrontOf(old(b.brk)) <= x < FrontOf(b.brk) && HEAP_START <= x ==>
                Physical(b.table.Translate(x), x) == GrantAt(old(b.brk), requests, grants, x)
    ensures ok ==>
              forall x :: 0 <= x < VA_SPACE && !(FrontOf(old(b.brk)) <= x < FrontOf(b.brk)) ==>
                b.table.Translate(x) == old(b.table.Translate(x))
  {
    hide Brk.Region, Brk.Required, Brk.Made, Table.Valid, Table.Translate, Physical, UserRw, FrontOf, After, Rising, RoundUp, GrantAt;
    ghost var brk0, made, used := b.brk, b.Made(), b.table.pool.used;
    ok, answers := true, [];
    AlreadyPaid(b.Required(FrontOf(brk0)), made);
    AfterStart(brk0, requests);
    for i := 0 to |requests|
      invariant b.Valid() && b.brk == After(brk0, requests[..i]) && |answers| == i
      invariant b.Paid(FrontOf(b.brk), made, used) && FrontOf(brk0) <= FrontOf(b.brk)
      invariant forall k :: 0 <= k < i ==> answers[k] == After(brk0, requests[..k + 1])
      invariant forall x :: FrontOf(brk0) <= x < FrontOf(b.brk) && HEAP_START <= x ==>
                  Physical(b.table.Translate(x), x) == GrantAt(brk0, requests[..i], grants[..i], x)
      invariant forall x :: 0 <= x < VA_SPACE && !(FrontOf(brk0) <= x < FrontOf(b.brk)) ==>
                  b.table.Translate(x) == old(b.table.Translate(x))
    {
      AfterNext(brk0, requests, b.first, b.limit, i);
      b.RunCost(FrontOf(b.brk), FrontOf(After(brk0, requests[..i + 1])), FrontOf(After(brk0, requests)), made);
      var r;
      ghost var from := FrontOf(b.brk);
      label before:
      ok, r := b.SysBrk(requests[i], grants[i]);
      if !ok {
        return;
      }
      forall x | FrontOf(brk0) <= x < FrontOf(b.brk) && HEAP_START <= x
        ensures Physical(b.table.Translate(x), x) == GrantAt(brk0, requests[..i + 1], grants[..i + 1], x)
      {
        GrantNext(brk0, requests, grants, i, x, from, FrontOf(b.brk));
        if x < from {
          assert b.table.Translate(x) == old@before(b.table.Translate(x));
        }
      }
      answers := answers + [r];
    }
    assert requests[..|requests|] == requests && grants[..|grants|] == grants;
  }

  /** The physical address that a run gives to an address from the heap start on: the offset in the grant of the request
      that moved the front past it. */
  ghost function GrantAt(brk: nat, requests: seq<nat>, grants: seq<nat>, x: nat): int
    requires brk > 0 && |grants| == |requests|
  {
    if requests == [] then 0
    else
      var n := |requests| - 1;
      var from := FrontOf(After(brk, requests[..n]));
      var lo := if from < HEAP_START then HEAP_START else from;
      if lo <= x < FrontOf(After(brk, requests)) then grants[n] + (x - lo) else GrantAt(brk, requests[..n], grants[..n], x)
  }

  lemma {:induction false} GrantNext(brk: nat, requests: seq<nat>, grants: seq<nat>, i: nat, x: nat, from: nat, to: nat)
    requires brk > 0 && |grants| == |requests| && i < |requests|
    requires from == FrontOf(After(brk, requests[..i])) && to == FrontOf(After(brk, requests[..i + 1]))
    ensures from <= x < to && HEAP_START <= x ==>
              GrantAt(brk, requests[..i + 1], grants[..i + 1], x) ==
              grants[i] + (x - if from < HEAP_START then HEAP_START else from)
    ensures x < from ==> GrantAt(brk, requests[..i + 1], grants[..i + 1], x) == GrantAt(brk, requests[..i], grants[..i], x)
  {
    hide FrontOf, After;
    var q, g := requests[..i + 1], grants[..i + 1];
    assert |q| - 1 == i && q != [] && q[..i] == requests[..i] && g[..i] == grants[..i] && g[i] == grants[i];
  }

  lemma {:induction false} AfterStart(brk: nat, requests: seq<nat>)
    ensures After(brk, requests[..0]) == brk
  {}

  lemma {:induction false} AfterNext(brk: nat, requests: seq<nat>, first: nat, limit: nat, i: nat)
    requires brk > 0 && Rising(brk, requests, first, limit) && i < |requests|
    ensures FrontOf(After(brk, requests[..i])) <= FrontOf(After(brk, requests[..i + 1])) <= FrontOf(After(brk, requests))
    ensures After(brk, requests[..i + 1]) == if requests[i] == 0 then After(brk, requests[..i]) else requests[i]
    ensures requests[i] > 0 ==> first <= requests[i] && PartitionUp(PageUp(requests[i])) <= limit
  {
    hide FrontOf, RoundUp;
    RisingParts(brk, requests, first, limit, i + 1);
    assert requests[..i + 1][..i] == requests[..i];
  }

  /** Addresses less than a partition below the heap start round up to it. */
  lemma {:induction false} HeapStartRounds(a: nat, b: nat)
    requires 0 < a && 0 < b
    ensures HEAP_START - PARTITION_SIZE < a <= HEAP_START ==> PartitionUp(a) == HEAP_START
    ensures HEAP_START - PARTITION_SIZE < b <= HEAP_START ==> PartitionUp(b) == HEAP_START
  {}

  /** Where the pool stops and partitions take over when the break is raised. */
  lemma {:induction false} RaiseParts(old': nat, new': nat, pooled: bool)
    requires HEAP_START - PARTITION_SIZE < old' < new' && (pooled <==> old' < HEAP_START)
    ensures var next := if pooled && new' > HEAP_START then HEAP_START else old';
            var middle := if !pooled then PartitionUp(old') else if new' < HEAP_START then new' else HEAP_START;
            var to := if new' < HEAP_START then new' else PartitionUp(new');
            if PartitionUp(new') > PartitionUp(next)
            then && HEAP_START <= PartitionUp(next) == middle < to == PartitionUp(new')
                 && PartitionUp(next) % PARTITION_SIZE == 0 && (PartitionUp(new') - PartitionUp(next)) % PARTITION_SIZE == 0
            else to == middle
  {
    hide RoundUp;
    PartitionUpMonotone(old', new');
    HeapStartRounds(old', new');
    HeapStartRounds(HEAP_START, new');
  }

  lemma {:induction false} FrontParts(b: nat)
    requires b > 0
    ensures PageUp(b) > 0 && PageUp(b) % PAGE_SIZE == 0 && b <= PageUp(b)
    ensures FrontOf(b) == if PageUp(b) < HEAP_START then PageUp(b) else PartitionUp(PageUp(b))
  {
    hide RoundUp;
  }

  /** The front is the first page end not below the break, or from the heap start on the first partition end. */
  lemma {:induction false} FrontIs(b: nat)
    requires b > 0
    ensures b <= FrontOf(b)
    ensures FrontOf(b) < HEAP_START ==> FrontOf(b) % PAGE_SIZE == 0 && FrontOf(b) < b + PAGE_SIZE
    ensures FrontOf(b) >= HEAP_START ==> FrontOf(b) % PARTITION_SIZE == 0 && FrontOf(b) < b + PARTITION_SIZE
    ensures FrontOf(b) < HEAP_START <==> b <= HEAP_START - PAGE_SIZE
  {
    hide RoundUp;
    var p := PageUp(b);
    if p >= HEAP_START {
      var f := PartitionUp(p);
      var q := f / PARTITION_SIZE;
      assert f - PARTITION_SIZE == ((q - 1) * 0x200) * PAGE_SIZE;
      assert f - PARTITION_SIZE < p;
    }
  }

  lemma {:induction false} PoolLeft(b: nat, first: nat)
    requires 0 < b && HEAP_START - PARTITION_SIZE < first <= b
    ensures var left := if PageUp(b) < HEAP_START then HEAP_START - PageUp(b) else 0;
            left % PAGE_SIZE == 0 && left < PARTITION_SIZE
  {
    hide RoundUp;
  }

  lemma {:induction false} FirstFront(avail: nat)
    requires avail % PAGE_SIZE == 0 && avail < PARTITION_SIZE
    ensures var b := HEAP_START - avail; b % PAGE_SIZE == 0 && PageUp(b) == b == FrontOf(b)
  {}

  lemma {:induction false} PageUpMonotone(a: nat, b: nat)
    requires 0 < a <= b
    ensures PageUp(a) <= PageUp(b)
  {}

  lemma {:induction false} PartitionUpMonotone(a: nat, b: nat)
    requires 0 < a <= b
    ensures PartitionUp(a) <= PartitionUp(b)
  {}

  /** The pool that boot leaves: the rest of the partition in which the argument page ends. */
  lemma {:induction false} BootPool(argvEnd: nat)
    requires argvEnd > 0
    ensures var rest := PartitionUp(argvEnd) - argvEnd;
            (rest - rest % PAGE_SIZE) % PAGE_SIZE == 0 && rest - rest % PAGE_SIZE < PARTITION_SIZE
  {
    var rest := PartitionUp(argvEnd) - argvEnd;
    assert rest == rest / PAGE_SIZE * PAGE_SIZE + rest % PAGE_SIZE;
  }

  /** A pool of a whole partition or more would make some request that the pool can serve map partitions as well. */
  lemma {:induction false} PoolBelowPartition(brk: nat, avail: nat)
    requires 0 < brk && brk % PAGE_SIZE == 0 && brk + avail == HEAP_START
    ensures avail < PARTITION_SIZE <==> forall n :: brk < n <= HEAP_START ==> PartitionUp(n) <= PartitionUp(brk)
  {
    if avail < PARTITION_SIZE {
      forall n | brk < n <= HEAP_START
        ensures PartitionUp(n) <= PartitionUp(brk)
      {}
    } else {
      assert PartitionUp(HEAP_START) == HEAP_START;
      assert PartitionUp(brk) < HEAP_START;
    }
  }

  lemma {:induction false} Steps(va: nat, i: nat, n: nat, size: nat, end: nat, at: nat)
    requires i < n && size > 0 && va + n * size == end && at == va + i * size && at % size == 0
    ensures at + size <= end && at + size == va + (i + 1) * size && (at + size) % size == 0
  {
    MulLe(i + 1, n, size);
    assert (i + 1) * size == i * size + size;
    NextMultiple(at, size);
  }

  lemma {:induction false} PageAligned(pa: nat, i: nat, level: nat)
    requires pa % PAGE_SIZE == 0
    ensures (pa + i * BlockSize(level)) % PAGE_SIZE == 0
  {
    var q, k := pa / PAGE_SIZE, BlockSize(level) / PAGE_SIZE;
    assert BlockSize(level) == k * PAGE_SIZE && i * (k * PAGE_SIZE) == (i * k) * PAGE_SIZE;
    DivModUnique(pa + i * BlockSize(level), q + i * k, 0, PAGE_SIZE);
  }

  lemma {:induction false} NextMultiple(at: nat, size: nat)
    requires size > 0 && at % size == 0
    ensures (at + size) % size == 0
  {
    var q := at / size;
    assert at + size == (q + 1) * size + 0;
    DivModUnique(at + size, q + 1, 0, size);
  }

  lemma {:induction false} Extend(log: seq<Block>, lo: nat, hi: nat, size: nat)
    requires Chain(log, lo, hi) && size > 0
    ensures Chain(log + [Block(hi, size)], lo, hi + size)
  {
    assert (log + [Block(hi, size)])[..|log|] == log;
  }
}
