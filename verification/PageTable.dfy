/** Mapping, unmapping and translating over Sv39 tables whose pages come from the S-mode pool. */
module PageTable {
  import opened Arith
  import opened Bits
  import opened Sizes
  import opened PageTree
  import opened PagePool

  datatype Flags = Flags(r: bool, w: bool, x: bool, u: bool, g: bool)

  const MASK_L0 := 0x1f_f000
  const MASK_L1 := 0x3fe0_0000
  const MASK_L2 := 0x7f_c000_0000

  class Table {
    const root: nat
    const pool: Pool
    var tables: Tables
    ghost var place: Places

    /** The tables are a tree of the root and pages handed out by the pool; pages not handed out yet are zero. */
    ghost predicate Valid()
      reads this, pool
    {
      && pool.Valid() && Tree(tables, place, root)
      && (forall q :: q in place && q != root ==> pool.base <= q < pool.base + pool.used)
      && (forall q :: pool.base + pool.used <= q && q * PAGE_SIZE < pool.base * PAGE_SIZE + pool.size ==>
            q in tables && tables[q] == seq(ENTRIES, k => ZERO))
      && !(pool.base <= root && root * PAGE_SIZE < pool.base * PAGE_SIZE + pool.size)
    }

    /** An empty root table over zeroed memory: nothing is mapped. */
    constructor (root: nat, pool: Pool, memory: Tables)
      requires pool.Valid() && root in memory && memory[root] == seq(ENTRIES, k => ZERO)
      requires forall q :: pool.base + pool.used <= q && q * PAGE_SIZE < pool.base * PAGE_SIZE + pool.size ==>
                 q in memory && memory[q] == seq(ENTRIES, k => ZERO)
      requires !(pool.base <= root && root * PAGE_SIZE < pool.base * PAGE_SIZE + pool.size)
      ensures Valid() && this.root == root && this.pool == pool
      ensures forall x :: Translate(x) == None
    {
      this.root, this.pool, this.tables, this.place := root, pool, memory, map[root := []];
      new;
      forall p: nat, i: nat
        ensures ChildOk(tables, place, p, i)
      {}
    }

    /** The leaf an address is mapped by, if any. */
    ghost function Translate(va: nat): Option<Mapping>
      reads this
    {
      Lookup(tables, root, va, 0)
    }

    /** The depth down to which the tables for an address exist. */
    ghost function Reached(page: nat, va: nat, depth: nat, level: nat): (d: nat)
      requires depth <= level
      reads this
      ensures depth <= d <= level
      decreases level - depth
    {
      if depth < level && page in tables && |tables[page]| == ENTRIES && tables[page][Slot(va, depth)].v
      then Reached(tables[page][Slot(va, depth)].ppn, va, depth + 1, level)
      else depth
    }

    /** The positions of the tables. */
    ghost function Made(): set<seq<nat>>
      reads this`place
    {
      place.Values
    }

    /** No leaf of a larger block maps the address. */
    ghost predicate NoLargerLeaf(va: nat, level: nat)
      reads this
    {
      Translate(va).Some? ==> Translate(va).value.level >= level
    }

    /** Adds a table below an entry that is not valid. */
    method AddTable(va: nat, page: nat, depth: nat) returns (ok: bool, next: nat)
      requires Valid() && depth < 2 && page in place && place[page] == Path(va, depth) && !tables[page][Slot(va, depth)].v
      modifies this`tables, this`place, pool
      ensures Valid()
      ensures ok <==> PAGE_SIZE <= old(pool.Avail())
      ensures pool.used == old(pool.used) + if ok then 1 else 0
      ensures ok ==> next in place && place[next] == Path(va, depth + 1) && tables[next] == seq(ENTRIES, k => ZERO)
      ensures ok ==> Path(va, depth + 1) !in old(Made()) && Made() == old(Made()) + {Path(va, depth + 1)}
      ensures forall x :: Translate(x) == old(Translate(x))
    {
      hide Tree, Lookup, Path, Slot;
      PlacedTable(page);
      InvalidIsZero(page, Slot(va, depth));
      if PAGE_SIZE <= pool.Avail() {
        NextFree();
      }
      ok, next := pool.Alloc(1);
      if ok {
        PathNext(va, depth);
        Link(page, Slot(va, depth), next);
      }
    }

    /** The page the pool hands out next is empty and not a table yet. */
    lemma {:induction false} NextFree()
      requires Valid() && PAGE_SIZE <= pool.Avail()
      ensures var q := pool.base + pool.used; q !in place && q in tables && tables[q] == seq(ENTRIES, k => ZERO)
    {
      var q := pool.base + pool.used;
      assert q * PAGE_SIZE < pool.base * PAGE_SIZE + pool.size;
    }

    /** Enters an empty page below an entry that is zero. */
    method Link(page: nat, i: nat, next: nat)
      requires Tree(tables, place, root) && page in place && i < ENTRIES && |place[page]| < 2
      requires page in tables && |tables[page]| == ENTRIES && tables[page][i] == ZERO
      requires next !in place && next in tables && tables[next] == seq(ENTRIES, k => ZERO)
      modifies this`tables, this`place
      ensures Tree(tables, place, root) && place == old(place)[next := old(place)[page] + [i]]
      ensures tables.Keys == old(tables.Keys) && forall q :: q in tables && q != page ==> tables[q] == old(tables[q])
      ensures old(place)[page] + [i] !in old(Made()) && Made() == old(Made()) + {old(place)[page] + [i]}
      ensures forall x :: Translate(x) == old(Translate(x))
    {
      hide Tree, Lookup;
      var e := tables[page][i].(ppn := next, v := true);
      forall x
        ensures Lookup(Write(tables, page, i, e), root, x, 0) == Lookup(tables, root, x, 0)
      {
        LookupGrown(tables, place, root, page, i, e, x);
      }
      GrowKeepsTree(tables, place, root, page, i, e);
      NotThere(tables, place, root, page, i);
      ValuesPlus(place, next, place[page] + [i]);
      tables := Write(tables, page, i, e);
      place := place[next := place[page] + [i]];
    }

    lemma {:induction false} InvalidIsZero(page: nat, i: nat)
      requires Valid() && page in place && i < ENTRIES && page in tables && |tables[page]| == ENTRIES && !tables[page][i].v
      ensures tables[page][i] == ZERO
    {
      assert ChildOk(tables, place, page, i);
    }

    /** Steps from a table to the next one on the path of an address. */
    lemma {:induction false} StepDown(va: nat, page: nat, depth: nat, level: nat)
      requires Valid() && depth < level <= 2 && page in place && place[page] == Path(va, depth) && NoLargerLeaf(va, level)
      requires tables[page][Slot(va, depth)].v
      ensures var next := tables[page][Slot(va, depth)].ppn; next in place && place[next] == Path(va, depth + 1)
    {
      LookupVia(tables, place, root, va, page, depth);
      assert ChildOk(tables, place, page, Slot(va, depth));
    }

    /** The table and slot of the entry for an address at the given level, adding missing tables if alloc is set. */
    method GetLeafPte(va: nat, level: nat, alloc: bool) returns (ok: bool, page: nat, slot: nat)
      requires Valid() && level <= 2 && NoLargerLeaf(va, level)
      modifies this`tables, this`place, pool
      ensures Valid() && slot == Slot(va, level)
      ensures forall x :: Translate(x) == old(Translate(x))
      ensures ok ==> page in place && place[page] == Path(va, level)
      ensures alloc ==> (ok <==> (level - old(Reached(root, va, 0, level))) * PAGE_SIZE <= old(pool.Avail()))
      ensures alloc && ok ==> Made() == old(Made()) + Prefixes(va, level)
      ensures alloc && ok ==> pool.used == old(pool.used) + (level - old(Reached(root, va, 0, level)))
      ensures !alloc ==> tables == old(tables) && place == old(place) && pool.used == old(pool.used)
      ensures !alloc ==> (ok <==> old(Reached(root, va, 0, level + 1)) == level + 1)
    {
      hide Tree, Made, Prefixes, Path;
      ghost var r := Reached(root, va, 0, level);
      var depth := 0;
      ok, page, slot := true, root, Slot(va, level);
      RootPlaced();
      ReachedMore(root, va, 0, level);
      PrefixesStart(va, Made());
      while depth < level
        invariant 0 <= depth <= level && Valid() && page in place && place[page] == Path(va, depth)
        invariant page in tables && |tables[page]| == ENTRIES
        invariant forall x :: Translate(x) == old(Translate(x))
        invariant Made() == old(Made()) + Prefixes(va, depth)
        invariant if depth <= r then tables == old(tables) && place == old(place) && pool.used == old(pool.used)
                                   && Reached(page, va, depth, level) == r
                                   && Reached(page, va, depth, level + 1) == old(Reached(root, va, 0, level + 1))
                  else alloc && tables[page] == seq(ENTRIES, k => ZERO) && pool.used == old(pool.used) + (depth - r)
      {
        var e := tables[page][Slot(va, depth)];
        if !e.v {
          if !alloc {
            return false, page, slot;
          }
          ok, page := AddTable(va, page, depth);
          if !ok {
            return;
          }
        } else {
          StepDown(va, page, depth, level);
          page := e.ppn;
          PlacedMade(page);
        }
        PlacedTable(page);
        PrefixesNext(va, depth, old(Made()), Made());
        depth := depth + 1;
      }
      ok := alloc || tables[page][slot].v;
    }

    /** Maps the block of va to the block at pa. Translation changes for the addresses of the block and for no other. */
    method MapPage(va: nat, pa: nat, flags: Flags, level: nat) returns (ok: bool)
      requires Valid() && level <= 2 && NoLargerLeaf(va, level) && (flags.r || flags.w || flags.x)
      modifies this`tables, this`place, pool
      ensures Valid() && pool.Valid()
      ensures ok <==> (level - old(Reached(root, va, 0, level))) * PAGE_SIZE <= old(pool.Avail())
      ensures ok <==> |Prefixes(va, level) - old(Made())| * PAGE_SIZE <= old(pool.Avail())
      ensures ok ==> pool.used == old(pool.used) + |Prefixes(va, level) - old(Made())|
      ensures ok ==> forall q :: q in Made() <==> q in old(Made()) + Prefixes(va, level) && !(Path(va, level + 1) <= q)
      ensures forall x :: Translate(x) == if ok && SameBlock(x, va, level) then Translate(va) else old(Translate(x))
      ensures ok ==> Translate(va).Some? && Translate(va).value.level == level
      ensures ok ==>
                var was, now := old(Translate(va)), Translate(va).value.pte;
                var there := was.Some? && was.value.level == level;
                && now.v && now.a && now.d && now.ppn == pa / 0x1000 % 0x1000_0000_0000
                && (now.r <==> flags.r || (there && was.value.pte.r))
                && (now.w <==> flags.w || (there && was.value.pte.w))
                && (now.x <==> flags.x || (there && was.value.pte.x))
                && (now.u <==> flags.u || (there && was.value.pte.u))
                && (now.g <==> flags.g || (there && was.value.pte.g))
      ensures ok && va % BlockSize(level) == 0 && pa % 0x1000 == 0 && pa < 0x100_0000_0000_0000 ==>
                forall x :: va <= x < va + BlockSize(level) ==> Physical(Translate(x), x) == pa + (x - va)
    {
      hide Tree, Lookup, Path, BlockSize, Made, Prefixes, SameBlock, Physical, Table.Reached, Slot;
      var page, slot;
      MissingIs(va, level);
      ok, page, slot := GetLeafPte(va, level, true);
      if ok {
        PutLeaf(va, pa, flags, level, page, slot);
      }
    }

    /** Enters a leaf for the block of va, adding the flags to those of a leaf that is there. */
    method PutLeaf(va: nat, pa: nat, flags: Flags, level: nat, page: nat, slot: nat)
      requires Valid() && level <= 2 && (flags.r || flags.w || flags.x)
      requires page in place && place[page] == Path(va, level) && slot == Slot(va, level)
      modifies this`tables, this`place
      ensures Valid() && (forall q :: q in Made() <==> q in old(Made()) && !(Path(va, level + 1) <= q))
      ensures forall x :: Translate(x) == if SameBlock(x, va, level) then Translate(va) else old(Translate(x))
      ensures Translate(va).Some? && Translate(va).value.level == level
      ensures var was, now := old(Translate(va)), Translate(va).value.pte;
              var there := was.Some? && was.value.level == level;
              && now.v && now.a && now.d && now.ppn == pa / 0x1000 % 0x1000_0000_0000
              && (now.r <==> flags.r || (there && was.value.pte.r))
              && (now.w <==> flags.w || (there && was.value.pte.w))
              && (now.x <==> flags.x || (there && was.value.pte.x))
              && (now.u <==> flags.u || (there && was.value.pte.u))
              && (now.g <==> flags.g || (there && was.value.pte.g))
      ensures va % BlockSize(level) == 0 && pa % 0x1000 == 0 && pa < 0x100_0000_0000_0000 ==>
                forall x :: va <= x < va + BlockSize(level) ==> Physical(Translate(x), x) == pa + (x - va)
    {
      hide Tree, Lookup, Path, BlockSize, Made, SameBlock, Physical, Slot;
      PlacedTable(page);
      EntryIs(va, level, page);
      var e := tables[page][slot];
      e := Pte(true, e.r || flags.r, e.w || flags.w, e.x || flags.x, e.u || flags.u, e.g || flags.g, true, true,
               pa / 0x1000 % 0x1000_0000_0000);
      PutEntry(va, level, page, slot, e);
      SameAsItself(va, level);
      Covered(va, pa, level, e);
    }

    /** Clears the entry for the block of va, or panics if there is none. Exactly that block is unmapped. */
    method UnmapPage(va: nat, level: nat) returns (ok: bool)
      requires Valid() && level <= 2 && NoLargerLeaf(va, level)
      modifies this`tables, this`place, pool
      ensures Valid() && pool.used == old(pool.used)
      ensures ok <==> old(Reached(root, va, 0, level + 1)) == level + 1
      ensures forall x :: Translate(x) == if ok && SameBlock(x, va, level) then None else old(Translate(x))
    {
      hide Tree, Lookup, Path;
      var page, slot;
      ok, page, slot := GetLeafPte(va, level, false);
      if ok {
        PutEntry(va, level, page, slot, ZERO);
      }
    }

    /** Writes a leaf or clears an entry. */
    method PutEntry(va: nat, level: nat, page: nat, slot: nat, e: Pte)
      requires Valid() && level <= 2 && page in place && place[page] == Path(va, level) && slot == Slot(va, level)
      requires e == ZERO || (e.v && IsLeaf(e))
      modifies this`tables, this`place
      ensures Valid() && (forall q :: q in Made() <==> q in old(Made()) && !(Path(va, level + 1) <= q))
      ensures forall x :: Translate(x) == if !SameBlock(x, va, level) then old(Translate(x))
                                          else if e == ZERO then None else Some(Mapping(level, e))
    {
      hide Tree, Lookup, Path, Through, SameBlock;
      PlacedTable(page);
      forall x
        ensures Lookup(Write(tables, page, slot, e), root, x, 0) ==
                if !SameBlock(x, va, level) then Lookup(tables, root, x, 0)
                else if e == ZERO then None else Some(Mapping(level, e))
      {
        LookupWritten(tables, place, root, page, slot, e, x);
        PathPlus(va, place[page], level, x);
      }
      PathLength(va, level);
      PathNext(va, level);
      PruneValues(place, place[page] + [slot]);
      WriteKeepsTree(tables, place, root, page, slot, e);
      tables, place := Write(tables, page, slot, e), Prune(place, place[page] + [slot]);
    }

    /** The tables that are missing for an address. */
    lemma {:induction false} MissingIs(va: nat, level: nat)
      requires Valid() && level <= 2 && NoLargerLeaf(va, level)
      ensures |Prefixes(va, level) - Made()| == level - Reached(root, va, 0, level)
    {
      hide Tree, Path, Lookup;
      RootPlaced();
      PathStart(va);
      hide Reached, Prefixes, Made;
      MissingBelow(va, root, 0, level);
      PrefixesFew(va);
      CountMissing(Made(), Path(va, 1), Path(va, 2), level, Reached(root, va, 0, level));
    }

    lemma {:induction false} MissingBelow(va: nat, page: nat, depth: nat, level: nat)
      requires Valid() && depth <= level <= 2 && NoLargerLeaf(va, level) && page in place && place[page] == Path(va, depth)
      ensures forall d :: depth < d <= level ==> (Path(va, d) in Made() <==> d <= Reached(page, va, depth, level))
      decreases level - depth
    {
      hide Tree, Lookup;
      PlacedTable(page);
      if depth < level {
        PathNext(va, depth);
        if tables[page][Slot(va, depth)].v {
          StepDown(va, page, depth, level);
          MissingBelow(va, tables[page][Slot(va, depth)].ppn, depth + 1, level);
        } else {
          NothingBelow(va, page, depth, level);
        }
      }
    }

    lemma {:induction false} NothingBelow(va: nat, page: nat, depth: nat, level: nat)
      requires Valid() && depth < level <= 2 && page in place && place[page] == Path(va, depth)
      requires page in tables && |tables[page]| == ENTRIES && !tables[page][Slot(va, depth)].v
      ensures forall d :: depth < d <= level ==> Path(va, d) !in Made()
    {
      hide Path;
      PathNext(va, depth);
      PathNext(va, depth + 1);
      NotThere(tables, place, root, page, Slot(va, depth));
      if depth + 1 < level && Path(va, depth + 2) in Made() {
        ParentFirst(va, depth + 1);
      }
    }

    lemma {:induction false} PlacedMade(page: nat)
      requires page in place
      ensures place[page] in Made()
    {}

    /** A table is there only if the one above it is. */
    lemma {:induction false} ParentFirst(va: nat, depth: nat)
      requires Valid() && Path(va, depth + 1) in Made()
      ensures Path(va, depth) in Made()
    {
      PathNext(va, depth);
      var q :| q in place && place[q] == Path(va, depth + 1);
      assert HasParent(tables, place, q);
      var p :| Points(tables, place, p, q);
      assert place[p] == Path(va, depth);
    }

    /** The entry found for an address, against what the address translates to. */
    lemma {:induction false} EntryIs(va: nat, level: nat, page: nat)
      requires Valid() && level <= 2 && page in place && place[page] == Path(va, level) && page in tables && |tables[page]| == ENTRIES
      ensures var e := tables[page][Slot(va, level)];
              if Translate(va).Some? && Translate(va).value.level == level then e == Translate(va).value.pte
              else e == ZERO || e == PointerTo(e.ppn)
    {
      LookupVia(tables, place, root, va, page, level);
      assert ChildOk(tables, place, page, Slot(va, level));
      if IsPointer(tables[page][Slot(va, level)]) {
        Deeper(tables, tables[page][Slot(va, level)].ppn, va, level + 1);
      }
    }

    lemma {:induction false} Covered(va: nat, pa: nat, level: nat, e: Pte)
      requires level <= 2 && e.ppn == pa / 0x1000 % 0x1000_0000_0000
      requires forall x :: SameBlock(x, va, level) ==> Translate(x) == Some(Mapping(level, e))
      ensures va % BlockSize(level) == 0 && pa % 0x1000 == 0 && pa < 0x100_0000_0000_0000 ==>
                forall x :: va <= x < va + BlockSize(level) ==> Physical(Translate(x), x) == pa + (x - va)
    {
      hide BlockSize, SameBlock;
      if va % BlockSize(level) == 0 && pa % 0x1000 == 0 && pa < 0x100_0000_0000_0000 {
        forall x | va <= x < va + BlockSize(level)
          ensures Physical(Translate(x), x) == pa + (x - va)
        {
          BlockOffset(va, x, level);
        }
      }
    }

    /** Walks the tables from the root; finds the leaf the address translates to. */
    method WalkPageTable(va: nat) returns (m: Option<Mapping>)
      requires Valid()
      ensures m == Translate(va)
    {
      hide Path;
      var offsets := [BitAnd(va, MASK_L2) / 0x4000_0000, BitAnd(va, MASK_L1) / 0x20_0000, BitAnd(va, MASK_L0) / 0x1000];
      MaskedSlots(va);
      var page := root;
      PathStart(va);
      for i := 0 to 3
        invariant i < 3 ==> page in place && place[page] == Path(va, i)
        invariant Translate(va) == Lookup(tables, page, va, i)
      {
        var e := tables[page][offsets[i]];
        if !e.v {
          return None;
        }
        if IsLeaf(e) {
          return Some(Mapping(i, e));
        }
        assert ChildOk(tables, place, page, offsets[i]);
        PathNext(va, i);
        page := e.ppn;
      }
      m := None;
    }

    /** The physical address of va, or 0 if it is not mapped. */
    method GetPa(va: nat) returns (pa: nat)
      requires Valid()
      ensures pa == Physical(Translate(va), va)
      ensures Translate(va) == None ==> pa == 0
      ensures Translate(va).Some? ==>
                var level, ppn := Translate(va).value.level, Translate(va).value.pte.ppn;
                pa == ppn * 0x1000 + va % (if level == 0 then 0x4000_0000 else if level == 1 then 0x20_0000 else 0x1000)
    {
      hide Lookup, Tree;
      var m := WalkPageTable(va);
      if m.None? {
        return 0;
      }
      Deeper(tables, root, va, 0);
      var ones := 12 + (2 - m.value.level) * 9;
      PowPositive(2, ones);
      var mask := Pow(2, ones) - 1;
      AndOnes(va, ones);
      AndSymmetric(mask, va);
      PowValues();
      pa := m.value.pte.ppn * 0x1000 + BitAnd(mask, va);
    }

    lemma {:induction false} RootPlaced()
      requires Valid()
      ensures root in place && place[root] == [] && root in tables && |tables[root]| == ENTRIES
    {}

    lemma {:induction false} PlacedTable(page: nat)
      requires Valid() && page in place
      ensures page in tables && |tables[page]| == ENTRIES
    {}

    lemma {:induction false} ReachedMore(page: nat, va: nat, depth: nat, level: nat)
      requires depth <= level
      ensures Reached(page, va, depth, level + 1) >= Reached(page, va, depth, level)
      ensures Reached(page, va, depth, level) < level ==> Reached(page, va, depth, level + 1) == Reached(page, va, depth, level)
      decreases level - depth
    {
      if depth < level && page in tables && |tables[page]| == ENTRIES && tables[page][Slot(va, depth)].v {
        ReachedMore(tables[page][Slot(va, depth)].ppn, va, depth + 1, level);
      }
    }
  }

  /** The positions of the tables between the root and the entry for an address. */
  ghost function Prefixes(va: nat, level: nat): set<seq<nat>> {
    if level == 0 then {} else Prefixes(va, level - 1) + {Path(va, level)}
  }

  lemma {:induction false} PrefixesStart(va: nat, made: set<seq<nat>>)
    ensures made == made + Prefixes(va, 0)
  {}

  lemma {:induction false} PrefixesNext(va: nat, depth: nat, made: set<seq<nat>>, made': set<seq<nat>>)
    requires made' == made + Prefixes(va, depth) + {Path(va, depth + 1)}
    ensures made' == made + Prefixes(va, depth + 1)
  {}

  lemma {:induction false} PrefixesFew(va: nat)
    ensures Prefixes(va, 0) == {} && Prefixes(va, 1) == {Path(va, 1)} && Prefixes(va, 2) == {Path(va, 1), Path(va, 2)}
    ensures |Path(va, 1)| == 1 && |Path(va, 2)| == 2
  {
    assert Prefixes(va, 2) == Prefixes(va, 1) + {Path(va, 2)};
    assert Prefixes(va, 1) == Prefixes(va, 0) + {Path(va, 1)};
  }

  /** Of two positions, one above the other, those that are missing. */
  lemma {:induction false} CountMissing(made: set<seq<nat>>, p: seq<nat>, q: seq<nat>, level: nat, reached: nat)
    requires level <= 2 && p != q && reached <= level
    requires level >= 1 ==> (p in made <==> 1 <= reached)
    requires level == 2 ==> (q in made <==> 2 <= reached)
    ensures |(if level == 0 then {} else if level == 1 then {p} else {p, q}) - made| == level - reached
  {
    var all := if level == 0 then {} else if level == 1 then {p} else {p, q};
    if reached == level {
      assert all - made == {};
    } else if reached + 1 == level {
      assert all - made == {if level == 1 then p else q};
    } else {
      assert all - made == {p, q};
    }
  }

  lemma {:induction false} PruneValues(place: Places, at: seq<nat>)
    ensures forall q :: q in Prune(place, at).Values <==> q in place.Values && !(at <= q)
  {
    var place' := Prune(place, at);
    forall q | q in place.Values && !(at <= q)
      ensures q in place'.Values
    {
      var k :| k in place && place[k] == q;
      assert place'[k] == q;
    }
  }

  lemma {:induction false} ValuesPlus(place: Places, page: nat, path: seq<nat>)
    requires page !in place
    ensures place[page := path].Values == place.Values + {path}
  {
    var place' := place[page := path];
    forall q | q in place.Values
      ensures q in place'.Values
    {
      var k :| k in place && place[k] == q;
      assert place'[k] == q;
    }
    assert place'[page] == path;
  }

  lemma {:induction false} SameAsItself(va: nat, level: nat)
    ensures SameBlock(va, va, level)
  {}

  lemma {:induction false} PathLength(va: nat, depth: nat)
    ensures |Path(va, depth)| == depth
  {}

  lemma {:induction false} Deeper(ts: Tables, page: nat, va: nat, depth: nat)
    ensures Lookup(ts, page, va, depth).Some? ==> depth <= Lookup(ts, page, va, depth).value.level <= 2
    decreases 3 - depth
  {
    if depth <= 2 && page in ts && |ts[page]| == ENTRIES {
      Deeper(ts, ts[page][Slot(va, depth)].ppn, va, depth + 1);
    }
  }

  lemma {:induction false} PathStart(va: nat)
    ensures Path(va, 0) == []
  {}

  lemma {:induction false} PathNext(va: nat, depth: nat)
    ensures Path(va, depth + 1) == Path(va, depth) + [Slot(va, depth)]
  {}

  lemma {:induction false} PowValues()
    ensures Pow(2, 9) == 512 && Pow(2, 12) == 0x1000 && Pow(2, 21) == 0x20_0000 && Pow(2, 30) == 0x4000_0000
  {
    assert Pow(2, 3) == 8;
    PowAdd(2, 3, 3);
    PowAdd(2, 6, 3);
    PowAdd(2, 9, 3);
    PowAdd(2, 12, 9);
    PowAdd(2, 21, 9);
  }

  lemma {:induction false} MaskedSlot(va: nat, k: nat, s: nat)
    requires s == Pow(2, k) && s > 0
    ensures BitAnd(va, 511 * s) / s == va / s % 512
  {
    hide BitAnd, Pow;
    PowValues();
    var q, r := va / s, va % s;
    assert va == q * s + r;
    AndShifted(q, r, 511, k);
    AndOnes(q, 9);
    DivModUnique(BitAnd(va, 511 * s), q % 512, 0, s);
  }

  /** The masks select the slots. */
  lemma {:induction false} MaskedSlots(va: nat)
    ensures BitAnd(va, MASK_L2) / 0x4000_0000 == Slot(va, 0)
    ensures BitAnd(va, MASK_L1) / 0x20_0000 == Slot(va, 1)
    ensures BitAnd(va, MASK_L0) / 0x1000 == Slot(va, 2)
  {
    hide BitAnd, Pow;
    PowValues();
    MaskedSlot(va, 30, 0x4000_0000);
    MaskedSlot(va, 21, 0x20_0000);
    MaskedSlot(va, 12, 0x1000);
  }

  lemma {:induction false} AndSymmetric(a: nat, b: nat)
    ensures BitAnd(a, b) == BitAnd(b, a)
    decreases a + b
  {
    if a > 0 || b > 0 {
      AndSymmetric(a / 2, b / 2);
    }
  }
}
