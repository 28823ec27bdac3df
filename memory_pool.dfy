/**
 * TMemoryPool: a fixed array of slots threaded into an intrusive,
 * singly-linked free list. A slot holds either a live object or the link
 * to the next free slot, never both; here that union is a tagged `Slot`.
 * The mutex around `create` and `deallocate` is left out: each call is one
 * atomic sequential step.
 */
module MemoryPool {
  import opened Options

  datatype Slot = Free(next: Option<nat>) | Live

  class Pool {
    /** PoolSize. */
    const size: nat
    const slots: array<Slot>
    /** firstAvailable_: the head of the free list. */
    var head: Option<nat>

    /** The free list as the chain from `head` spells it out. */
    ghost var freeList: seq<nat>
    /** The slots handed out by `Create` and not yet returned. */
    ghost var live: set<nat>

    /** The chain from `head` is `freeList`: in bounds, without duplicates, ending in null. */
    ghost predicate Chain()
      reads this, slots
    {
      && slots.Length == size
      && (forall k :: 0 <= k < |freeList| ==> freeList[k] < size)
      && Distinct(freeList)
      && head == (if freeList == [] then None else Some(freeList[0]))
      && Linked(slots[..], freeList)
    }

    /** The free list and the live set partition the slots. */
    ghost predicate Valid()
      reads this, slots
    {
      && Chain()
      && (forall s :: s in live ==> s < size && s !in freeList && slots[s] == Live)
      && (forall s :: 0 <= s < size && s !in freeList ==> s in live)
    }

    /** The pool constructor: slot i links to slot i + 1 and slot 0 is the head. */
    constructor (n: nat)
      requires 1 <= n
      ensures Valid() && fresh(slots)
      ensures size == n && live == {}
      ensures |freeList| == n && forall k :: 0 <= k < n ==> freeList[k] == k
    {
      size := n;
      slots := new Slot[n](_ => Live);
      head := Some(0);
      new;
      var i := 0;
      while i < n - 1
        invariant 0 <= i <= n - 1
        invariant forall k :: 0 <= k < i ==> slots[k] == Free(Some(k + 1))
        invariant head == Some(0)
      {
        slots[i] := Free(Some(i + 1));
        i := i + 1;
      }
      slots[n - 1] := Free(None);
      freeList := seq(n, k => k);
      live := {};
      assert |freeList| == n && freeList[0] == 0;
      forall s | 0 <= s < n
        ensures s in freeList
      {
        assert freeList[s] == s;
      }
    }

    /**
     * `create`: pop the head of the free list, or return null when the
     * list is empty. The slot handed out was not live before.
     */
    method Create() returns (p: Option<nat>)
      requires Valid()
      modifies this, slots
      ensures Valid()
      ensures old(freeList) == [] ==> p == None && freeList == [] && live == old(live)
      ensures old(freeList) != [] ==>
                && p == Some(old(freeList)[0])
                && freeList == old(freeList)[1..]
                && live == old(live) + {p.value}
      ensures p.Some? ==> p.value < size && p.value !in old(live)
    {
      if head.Some? {
        var s := head.value;
        LinkedPop(slots[..], freeList);
        head := slots[s].next;
        slots[s] := Live;
        freeList := freeList[1..];
        live := live + {s};
        p := Some(s);
      } else {
        p := None;
      }
    }

    /**
     * `deallocate`: push a live slot back on the head of the free list;
     * null is ignored. Double deallocation is not detected by the source,
     * so the slot must be live.
     */
    method Deallocate(p: Option<nat>)
      requires Valid()
      requires p.Some? ==> p.value in live
      modifies this, slots
      ensures Valid()
      ensures p.None? ==> freeList == old(freeList) && live == old(live)
      ensures p.Some? ==> freeList == [p.value] + old(freeList) && live == old(live) - {p.value}
    {
      if p.Some? {
        var s := p.value;
        assert s !in freeList;
        LinkedPush(slots[..], freeList, s);
        slots[s] := Free(head);
        head := p;
        freeList := [s] + freeList;
        live := live - {s};
      }
    }
  }

  /** No slot appears twice. */
  ghost predicate Distinct(fl: seq<nat>)
  {
    forall j, k :: 0 <= j < k < |fl| ==> fl[j] != fl[k]
  }

  /** Each slot of `fl` is free and links to the next one; the last links to null. */
  ghost predicate Linked(slots: seq<Slot>, fl: seq<nat>)
  {
    forall k :: 0 <= k < |fl| ==>
      fl[k] < |slots| && slots[fl[k]] == Free(if k + 1 < |fl| then Some(fl[k + 1]) else None)
  }

  lemma LinkedAt(slots: seq<Slot>, fl: seq<nat>, k: nat)
    requires Linked(slots, fl) && k < |fl|
    ensures fl[k] < |slots| && slots[fl[k]] == Free(if k + 1 < |fl| then Some(fl[k + 1]) else None)
  {
  }

  /** Taking the head slot out of the chain leaves the rest of it linked. */
  lemma LinkedPop(slots: seq<Slot>, fl: seq<nat>)
    requires Linked(slots, fl) && Distinct(fl) && fl != []
    ensures slots[fl[0]] == Free(if 1 < |fl| then Some(fl[1]) else None)
    ensures Linked(slots[fl[0] := Live], fl[1..])
  {
    var t := fl[1..];
    forall k | 0 <= k < |t|
      ensures t[k] < |slots| && slots[fl[0] := Live][t[k]] == Free(if k + 1 < |t| then Some(t[k + 1]) else None)
    {
      assert t[k] == fl[k + 1] != fl[0];
      LinkedAt(slots, fl, k + 1);
    }
    LinkedAt(slots, fl, 0);
    assert Linked(slots[fl[0] := Live], t);
  }

  /** Linking a slot that is not in the chain in front of its head. */
  lemma LinkedPush(slots: seq<Slot>, fl: seq<nat>, s: nat)
    requires Linked(slots, fl) && s < |slots| && s !in fl
    ensures Linked(slots[s := Free(if fl == [] then None else Some(fl[0]))], [s] + fl)
  {
    var t := [s] + fl;
    forall k | 0 <= k < |t|
      ensures t[k] < |slots|
      ensures slots[s := Free(if fl == [] then None else Some(fl[0]))][t[k]]
              == Free(if k + 1 < |t| then Some(t[k + 1]) else None)
    {
      if k > 0 {
        assert t[k] == fl[k - 1] != s;
        LinkedAt(slots, fl, k - 1);
      }
    }
    assert Linked(slots[s := Free(if fl == [] then None else Some(fl[0]))], t);
  }

  /**
   * From a fresh pool of `n` slots, `n` consecutive creates hand out the
   * slots 0, 1, ..., n - 1 in that order, and the next create returns null.
   */
  method DrainFreshPool(n: nat) returns (got: seq<nat>, last: Option<nat>)
    requires 1 <= n
    ensures |got| == n && forall k :: 0 <= k < n ==> got[k] == k
    ensures last == None
  {
    var pool := new Pool(n);
    got := [];
    while |got| < n
      invariant pool.Valid() && pool.size == n
      invariant |got| <= n && forall k :: 0 <= k < |got| ==> got[k] == k
      invariant |pool.freeList| == n - |got|
      invariant forall k :: 0 <= k < |pool.freeList| ==> pool.freeList[k] == |got| + k
    {
      var p := pool.Create();
      got := got + [p.value];
    }
    last := pool.Create();
  }

  /** LIFO reuse: a slot just deallocated is the one the next create returns. */
  method DeallocateThenCreate(pool: Pool, s: nat) returns (p: Option<nat>)
    requires pool.Valid() && s in pool.live
    modifies pool, pool.slots
    ensures pool.Valid() && p == Some(s) && pool.live == old(pool.live)
  {
    pool.Deallocate(Some(s));
    p := pool.Create();
  }
}
