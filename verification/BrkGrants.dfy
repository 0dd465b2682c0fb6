/** Partitions for the program break that the monitor grants in several pieces. Each piece is mapped as if it were the
    whole request, so the later pieces run past its end. */
module BrkGrants {
  import opened Sizes
  import opened PageTree
  import opened PageTable
  import opened ProgramBreak

  /** A piece of consecutive partitions. */
  datatype Grant = Grant(pa: nat, count: nat)

  /** The number of partitions granted before piece i. */
  function Start(grants: seq<Grant>, i: nat): nat
    requires i <= |grants|
  {
    if i == 0 then 0 else Start(grants, i - 1) + grants[i - 1].count
  }

  /** The pieces make up n partitions of physical memory. */
  predicate Complete(grants: seq<Grant>, n: nat) {
    && Start(grants, |grants|) == n
    && forall i :: 0 <= i < |grants| ==>
         grants[i].count >= 1 && grants[i].pa % 0x1000 == 0 && grants[i].pa + n * PARTITION_SIZE <= 0x100_0000_0000_0000
  }

  lemma {:induction false} StartMonotone(grants: seq<Grant>, n: nat, i: nat, k: nat)
    requires Complete(grants, n) && i <= k <= |grants|
    ensures Start(grants, i) + (k - i) <= Start(grants, k)
  {
    if i < k {
      StartMonotone(grants, n, i, k - 1);
    }
  }

  /** Where partition j is if piece i is continued without end. */
  function Address(grants: seq<Grant>, i: nat, j: nat): nat
    requires i < |grants| && Start(grants, i) <= j
  {
    grants[i].pa + (j - Start(grants, i)) * PARTITION_SIZE
  }

  /** The physical address of partition j of the range after the first k pieces. */
  function Placed(grants: seq<Grant>, n: nat, k: nat, j: nat): Option<nat>
    requires k <= |grants|
  {
    if k == 0 then None
    else if Start(grants, k - 1) <= j < Start(grants, k - 1) + n then Some(Address(grants, k - 1, j))
    else Placed(grants, n, k - 1, j)
  }

  /** Partition j lies in piece i. */
  predicate InPiece(grants: seq<Grant>, i: nat, j: nat) {
    i < |grants| && Start(grants, i) <= j < Start(grants, i) + grants[i].count
  }

  lemma {:induction false} PlacedInside(grants: seq<Grant>, n: nat, k: nat, j: nat) returns (i: nat)
    requires Complete(grants, n) && k <= |grants| && j < Start(grants, k)
    ensures InPiece(grants, i, j) && Placed(grants, n, k, j) == Some(Address(grants, i, j))
  {
    hide Address;
    StartMonotone(grants, n, k, |grants|);
    if Start(grants, k - 1) <= j {
      i := k - 1;
    } else {
      i := PlacedInside(grants, n, k - 1, j);
    }
  }

  lemma {:induction false} PlacedBehind(grants: seq<Grant>, n: nat, k: nat, j: nat)
    requires Complete(grants, n) && 1 <= k <= |grants| && j >= n
    ensures Placed(grants, n, k, j).Some? <==> j < n + Start(grants, k - 1)
  {
    hide Address;
    StartMonotone(grants, n, k - 1, |grants|);
    if k > 1 {
      PlacedBehind(grants, n, k - 1, j);
      StartMonotone(grants, n, k - 2, k - 1);
    } else {
      assert Placed(grants, n, 0, j) == None;
    }
  }

  /** Inside the range every partition is placed in the piece it belongs to; behind it, partitions that were not
      granted are placed up to as many as came before the last piece. */
  lemma {:induction false} PlacedIs(grants: seq<Grant>, n: nat, j: nat) returns (i: nat)
    requires Complete(grants, n) && n > 0
    ensures |grants| > 0
    ensures j < n ==> InPiece(grants, i, j) && Placed(grants, n, |grants|, j) == Some(Address(grants, i, j))
    ensures j >= n ==> (Placed(grants, n, |grants|, j).Some? <==> j < n + Start(grants, |grants| - 1))
  {
    i := 0;
    if j < n {
      i := PlacedInside(grants, n, |grants|, j);
    } else {
      PlacedBehind(grants, n, |grants|, j);
    }
  }

  /** Nothing is placed behind the range exactly if the monitor grants it in one piece. */
  lemma {:induction false} OverrunExact(grants: seq<Grant>, n: nat)
    requires Complete(grants, n) && n > 0
    ensures (forall j: nat :: n <= j ==> Placed(grants, n, |grants|, j) == None) <==> |grants| == 1
  {
    var _ := PlacedIs(grants, n, n);
    StartMonotone(grants, n, 0, |grants| - 1);
    if |grants| == 1 {
      forall j: nat | n <= j
        ensures Placed(grants, n, |grants|, j) == None
      {
        var _ := PlacedIs(grants, n, j);
      }
    } else {
      assert Placed(grants, n, |grants|, n).Some?;
    }
  }

  /** What an address translates to if its partition is placed so. */
  ghost predicate Shown(m: Option<Mapping>, x: nat, at: Option<nat>, offset: nat) {
    match at
    case None => m == None
    case Some(pa) => UserRw(m, 1) && Physical(m, x) == pa + offset
  }

  /** The range of partitions at va translates as the sequence says. */
  ghost predicate Laid(table: Table, va: nat, m: seq<Option<nat>>)
    reads table
  {
    forall x {:trigger table.Translate(x)} :: va <= x < va + |m| * PARTITION_SIZE ==>
      Shown(table.Translate(x), x, m[(x - va) / PARTITION_SIZE], (x - va) % PARTITION_SIZE)
  }

  ghost predicate Outside(va: nat, n: nat, x: nat) {
    x < VA_SPACE && !(va <= x < va + n * PARTITION_SIZE)
  }

  /** Maps partition j of the range, if its table is there or can be made. */
  method PutPartition(table: Table, va: nat, ghost m: seq<Option<nat>>, j: nat, pa: nat) returns (ok: bool, ghost m': seq<Option<nat>>)
    requires table.Valid() && va % PARTITION_SIZE == 0 && HEAP_START <= va && va + |m| * PARTITION_SIZE <= VA_SPACE
    requires j < |m| && Laid(table, va, m) && pa % 0x1000 == 0 && pa + PARTITION_SIZE <= 0x100_0000_0000_0000
    modifies table`tables, table`place, table.pool
    ensures table.Valid() && m' == (if ok then m[j := Some(pa)] else m) && Laid(table, va, m')
    ensures forall x :: Outside(va, |m|, x) ==> table.Translate(x) == old(table.Translate(x))
    ensures var need := Prefixes(va + j * PARTITION_SIZE, 1) - TrackedOf(old(table.Made()));
            && (ok <==> |need| * PAGE_SIZE <= old(table.pool.Avail()))
            && (ok ==> table.pool.Valid() && table.pool.used == old(table.pool.used) + |need|)
            && (ok ==> TrackedOf(table.Made()) == TrackedOf(old(table.Made())) + Prefixes(va + j * PARTITION_SIZE, 1))
  {
    hide Table.Valid, Table.Translate, Table.Made, Path, SameBlock, Prefixes, Table.Reached, TrackedOf;
    var at := va + j * PARTITION_SIZE;
    ghost var made := table.Made();
    TrackedMissing(made, at, 1);
    assert (at - va) / PARTITION_SIZE == j && va <= at < va + |m| * PARTITION_SIZE;
    assert Shown(table.Translate(at), at, m[j], 0);
    ok := table.MapPage(at, pa, Flags(true, true, false, true, false), 1);
    if ok {
      TrackedMapped(made, table.Made(), at, 1);
    }
    m' := if ok then m[j := Some(pa)] else m;
    forall x: nat | x < VA_SPACE
      ensures SameBlock(x, at, 1) <==> at <= x < at + PARTITION_SIZE
    {
      BlockRange(x, at, 1);
    }
    forall x | va <= x < va + |m| * PARTITION_SIZE
      ensures Shown(table.Translate(x), x, m'[(x - va) / PARTITION_SIZE], (x - va) % PARTITION_SIZE)
    {
      InPartition(va, x, j, at);
    }
  }

  lemma {:induction false} InPartition(va: nat, x: nat, j: nat, at: nat)
    requires va <= x && at == va + j * PARTITION_SIZE
    ensures (x - va) / PARTITION_SIZE == j <==> at <= x < at + PARTITION_SIZE
    ensures at <= x < at + PARTITION_SIZE ==> (x - va) % PARTITION_SIZE == x - at
  {}

  /** The number of partitions mapped, counted from the start of the range. */
  function Reach(grants: seq<Grant>, n: nat): nat {
    if grants == [] then 0 else n + Start(grants, |grants| - 1)
  }

  /** The tables that the first h partitions of a range need were made, and paid for from the pool. */
  ghost predicate PaidFor(table: Table, va: nat, h: nat, made: set<seq<nat>>, used: nat)
    reads table, table.pool
  {
    && TrackedOf(table.Made()) == made + Crossed(va, h, 1)
    && table.pool.used == used + |Crossed(va, h, 1) - made|
  }

  lemma {:induction false} CrossedHas(va: nat, h: nat, j: nat)
    requires j < h
    ensures Prefixes(va + j * PARTITION_SIZE, 1) <= Crossed(va, h, 1)
  {
    hide Prefixes;
    if j < h - 1 {
      CrossedHas(va, h - 1, j);
    }
  }

  /** What one more partition costs, as a part of what the whole range costs. */
  lemma {:induction false} Cost(va: nat, h: nat, j: nat, total: nat, made: set<seq<nat>>)
    requires j <= h && j < total
    ensures var p, h' := Prefixes(va + j * PARTITION_SIZE, 1), if j == h then h + 1 else h;
            && made + Crossed(va, h, 1) + p == made + Crossed(va, h', 1)
            && |Crossed(va, h', 1) - made| == |Crossed(va, h, 1) - made| + |p - (made + Crossed(va, h, 1))|
            && (j == h ==> |Crossed(va, h', 1) - made| <= |Crossed(va, total, 1) - made|)
  {
    hide Prefixes, Crossed;
    if j == h {
      CrossedNext(va, h, total, 1, va + j * PARTITION_SIZE, made);
    } else {
      CrossedHas(va, h, j);
      AlreadyPaid(Prefixes(va + j * PARTITION_SIZE, 1), made + Crossed(va, h, 1));
    }
  }

  /** The loop of alloc_map_brk_outside_pool: every piece is mapped over n partitions. It succeeds exactly if the table
      pool can serve the tables for all it maps, and then the range and as much behind it as its own length translate
      as Placed says. */
  method MapGrants(table: Table, va: nat, n: nat, grants: seq<Grant>) returns (ok: bool)
    requires table.Valid() && va % PARTITION_SIZE == 0 && HEAP_START <= va && va + 2 * n * PARTITION_SIZE <= VA_SPACE
    requires Complete(grants, n)
    requires forall x :: va <= x < va + 2 * n * PARTITION_SIZE ==> table.Translate(x) == None
    modifies table`tables, table`place, table.pool
    ensures table.Valid()
    ensures ok <==> |Crossed(va, Reach(grants, n), 1) - TrackedOf(old(table.Made()))| * PAGE_SIZE <= old(table.pool.Avail())
    ensures ok ==> Laid(table, va, seq(2 * n, j requires 0 <= j => Placed(grants, n, |grants|, j)))
    ensures forall x :: Outside(va, 2 * n, x) ==> table.Translate(x) == old(table.Translate(x))
  {
    hide Table.Valid, Table.Translate, Table.Made, Laid, Outside, Start, Placed, Crossed, Prefixes, TrackedOf;
    ghost var m: seq<Option<nat>> := seq(2 * n, j => None);
    ghost var made, used := TrackedOf(table.Made()), table.pool.used;
    ghost var h: nat := 0;
    Empty(table, va, m);
    PlacedNone(grants, n);
    CrossedNone(va, 1, made);
    TablePool(table);
    ok := true;
    var left, at := n, 0;
    var k := 0;
    while left > 0
      invariant k <= |grants| && at == Start(grants, k) <= n && left + at == n && |m| == 2 * n
      invariant table.Valid() && table.pool.Valid() && Laid(table, va, m)
      invariant forall j :: 0 <= j < 2 * n ==> m[j] == Placed(grants, n, k, j)
      invariant forall x :: Outside(va, 2 * n, x) ==> table.Translate(x) == old(table.Translate(x))
      invariant PaidFor(table, va, h, made, used) && (if k == 0 then h == 0 else at <= h == n + Start(grants, k - 1))
    {
      var grant := NextGrant(grants, n, k);
      ok, m, h := MapPiece(table, va, n, grants, k, at, grant, m, h, made, used);
      if !ok {
        return;
      }
      left, at, k := left - grant.count, at + grant.count, k + 1;
    }
    AllPlaced(grants, n, k);
    assert m == seq(2 * n, j requires 0 <= j => Placed(grants, n, |grants|, j));
  }

  /** Maps one piece over n partitions. */
  method MapPiece(table: Table, va: nat, n: nat, grants: seq<Grant>, ghost k: nat, at: nat, grant: Grant,
                  ghost m0: seq<Option<nat>>, ghost h0: nat, ghost made: set<seq<nat>>, ghost used: nat)
    returns (ok: bool, ghost m: seq<Option<nat>>, ghost h: nat)
    requires table.Valid() && table.pool.Valid() && va % PARTITION_SIZE == 0 && HEAP_START <= va
    requires va + 2 * n * PARTITION_SIZE <= VA_SPACE && Complete(grants, n)
    requires k < |grants| && grant == grants[k] && at == Start(grants, k) < n && |m0| == 2 * n && Laid(table, va, m0)
    requires forall j :: 0 <= j < 2 * n ==> m0[j] == Placed(grants, n, k, j)
    requires PaidFor(table, va, h0, made, used) && (if k == 0 then h0 == 0 else at <= h0 == n + Start(grants, k - 1))
    modifies table`tables, table`place, table.pool
    ensures table.Valid() && |m| == 2 * n && (ok ==> table.pool.Valid() && Laid(table, va, m))
    ensures ok ==> forall j :: 0 <= j < 2 * n ==> m[j] == Placed(grants, n, k + 1, j)
    ensures forall x :: Outside(va, 2 * n, x) ==> table.Translate(x) == old(table.Translate(x))
    ensures ok ==> PaidFor(table, va, h, made, used) && at + grant.count <= h == n + at
    ensures !ok ==> |Crossed(va, Reach(grants, n), 1) - made| * PAGE_SIZE > old(table.pool.Avail() + (table.pool.used - used) * PAGE_SIZE)
  {
    hide Table.Valid, Table.Translate, Table.Made, Laid, Outside, Start, Placed, Crossed, Prefixes, TrackedOf, Reach, Complete, Address;
    m, h, ok := m0, h0, true;
    PlacedNone(grants, n);
    PieceEnds(grants, n, k);
    for i := 0 to n
      invariant |m| == 2 * n && table.Valid() && table.pool.Valid() && Laid(table, va, m)
      invariant forall j :: 0 <= j < 2 * n ==>
                  m[j] == if at <= j < at + i then Some(Address(grants, k, j)) else m0[j]
      invariant forall x :: Outside(va, 2 * n, x) ==> table.Translate(x) == old(table.Translate(x))
      invariant PaidFor(table, va, h, made, used) && h == if at + i <= h0 then h0 else at + i
    {
      Physically(grants, k, grant, n, i);
      Cost(va, h, at + i, Reach(grants, n), made);
      ok, m := PutPartition(table, va, m, at + i, grant.pa + i * PARTITION_SIZE);
      if !ok {
        return;
      }
      h := if at + i == h then h + 1 else h;
    }
    PlacedNext(grants, n, k, m0, m);
  }

  lemma {:induction false} PieceEnds(grants: seq<Grant>, n: nat, k: nat)
    requires Complete(grants, n) && k < |grants|
    ensures n + Start(grants, k) <= Reach(grants, n) && Start(grants, k) + grants[k].count <= n
    ensures k > 0 ==> Start(grants, k) <= n + Start(grants, k - 1) <= n + Start(grants, k)
  {
    StartMonotone(grants, n, k, |grants| - 1);
    StartMonotone(grants, n, k + 1, |grants|);
    if k > 0 {
      StartMonotone(grants, n, k, |grants|);
    }
  }

  lemma {:induction false} TablePool(table: Table)
    requires table.Valid()
    ensures table.pool.Valid()
  {}

  lemma {:induction false} Empty(table: Table, va: nat, m: seq<Option<nat>>)
    requires forall j :: 0 <= j < |m| ==> m[j] == None
    requires forall x :: va <= x < va + |m| * PARTITION_SIZE ==> table.Translate(x) == None
    ensures Laid(table, va, m)
  {
    hide Table.Translate;
  }

  lemma {:induction false} PlacedNone(grants: seq<Grant>, n: nat)
    ensures Start(grants, 0) == 0 && forall j :: Placed(grants, n, 0, j) == None
  {}

  method NextGrant(grants: seq<Grant>, n: nat, k: nat) returns (grant: Grant)
    requires Complete(grants, n) && k <= |grants| && Start(grants, k) < n
    ensures k < |grants| && grant == grants[k] && Start(grants, k + 1) == Start(grants, k) + grant.count <= n
  {
    StartMonotone(grants, n, k + 1, |grants|);
    grant := grants[k];
  }

  lemma {:induction false} Physically(grants: seq<Grant>, k: nat, grant: Grant, n: nat, i: nat)
    requires Complete(grants, n) && k < |grants| && grant == grants[k] && i < n
    ensures Address(grants, k, Start(grants, k) + i) == grant.pa + i * PARTITION_SIZE
    ensures (grant.pa + i * PARTITION_SIZE) % 0x1000 == 0
    ensures grant.pa + i * PARTITION_SIZE + PARTITION_SIZE <= 0x100_0000_0000_0000
  {}

  lemma {:induction false} PlacedNext(grants: seq<Grant>, n: nat, k: nat, m: seq<Option<nat>>, m': seq<Option<nat>>)
    requires k < |grants| && |m| == |m'| && forall j :: 0 <= j < |m| ==> m[j] == Placed(grants, n, k, j)
    requires forall j :: 0 <= j < |m| ==>
               m'[j] == if Start(grants, k) <= j < Start(grants, k) + n
                        then Some(Address(grants, k, j)) else m[j]
    ensures forall j :: 0 <= j < |m| ==> m'[j] == Placed(grants, n, k + 1, j)
  {}

  lemma {:induction false} AllPlaced(grants: seq<Grant>, n: nat, k: nat)
    requires Complete(grants, n) && k <= |grants| && Start(grants, k) == n
    ensures k == |grants|
  {
    StartMonotone(grants, n, k, |grants|);
  }
}
