/**
 * TMemoryPoolAllocator: a thin, allocator-shaped adapter over a pool that
 * each allocator owns by value. Placement construction, destruction,
 * `address`, `rebind` and the converting constructor are raw-storage
 * mechanics and are not part of this model.
 */
module MemoryPoolAllocator {
  import opened Options
  import opened MemoryPool

  class PoolAllocator {
    /** pool_: owned, never shared with another allocator. */
    const pool: Pool

    ghost predicate Valid()
      reads this, pool, pool.slots
    {
      pool.Valid()
    }

    /** The default constructor: a fresh pool with every slot free. */
    constructor (poolSize: nat)
      requires 1 <= poolSize
      ensures Valid() && fresh(pool) && fresh(pool.slots)
      ensures pool.size == poolSize && pool.live == {} && |pool.freeList| == poolSize
    {
      pool := new Pool(poolSize);
    }

    /**
     * The copy constructor copies nothing: the new allocator owns a fresh
     * pool of the same size, with every slot free, sharing no slot with
     * `other`.
     */
    constructor Copy(other: PoolAllocator)
      requires 1 <= other.pool.size
      ensures Valid() && fresh(pool) && fresh(pool.slots)
      ensures pool.size == other.pool.size && pool.live == {} && |pool.freeList| == pool.size
    {
      pool := new Pool(other.pool.size);
    }

    /** max_size: the pool's capacity, whatever has been allocated. */
    function MaxSize(): (n: nat)
      ensures n == pool.size
    {
      pool.size
    }

    /** operator==: no two allocators compare equal, not even one with itself. */
    function Equals(other: PoolAllocator): (r: bool)
      ensures !r
    {
      false
    }

    /** operator!=: the negation of `Equals`, so always true. */
    function NotEquals(other: PoolAllocator): (r: bool)
      ensures r
    {
      !Equals(other)
    }

    /** allocate(n): only single objects; the pool's next free slot, or null when exhausted. */
    method Allocate(n: nat) returns (p: Option<nat>)
      requires Valid() && n == 1
      modifies pool, pool.slots
      ensures Valid()
      ensures old(pool.freeList) == [] ==> p == None && pool.live == old(pool.live)
      ensures old(pool.freeList) != [] ==>
                && p == Some(old(pool.freeList)[0])
                && pool.freeList == old(pool.freeList)[1..]
                && pool.live == old(pool.live) + {p.value}
    {
      p := pool.Create();
    }

    /** deallocate(p, n): only single objects; `p` goes back on the head of the free list. */
    method Deallocate(p: Option<nat>, n: nat)
      requires Valid() && n == 1
      requires p.Some? ==> p.value in pool.live
      modifies pool, pool.slots
      ensures Valid()
      ensures p.None? ==> pool.freeList == old(pool.freeList) && pool.live == old(pool.live)
      ensures p.Some? ==> pool.freeList == [p.value] + old(pool.freeList)
                          && pool.live == old(pool.live) - {p.value}
    {
      pool.Deallocate(p);
    }
  }
}
