/** The bump pools of page_pool.c. */
module PagePool {
  import opened Sizes

  class Pool {
    /** The first page of the pool, and its size in bytes. */
    const base: nat
    const size: nat
    var used: nat

    ghost predicate Valid()
      reads this
    {
      used * PAGE_SIZE <= size
    }

    constructor (base: nat, size: nat)
      ensures Valid() && this.base == base && this.size == size && used == 0
    {
      this.base, this.size, this.used := base, size, 0;
    }

    /** The bytes that are left. */
    function Avail(): (n: nat)
      requires Valid()
      reads this
      ensures n + used * PAGE_SIZE == size
    {
      size - used * PAGE_SIZE
    }

    /** Hands out the next n pages, or panics if fewer are left. The pages handed out are exactly the next n,
        so no page is handed out twice. */
    method Alloc(n: nat) returns (ok: bool, page: nat)
      requires Valid()
      modifies this
      ensures Valid() && page == base + old(used)
      ensures ok <==> n * PAGE_SIZE <= old(Avail())
      ensures used == old(used) + if ok then n else 0
      ensures ok ==> page + n == base + used && (page + n) * PAGE_SIZE <= base * PAGE_SIZE + size
    {
      page := base + used;
      ok := (used + n) * PAGE_SIZE <= size;
      if ok {
        used := used + n;
      }
    }
  }
}
