/**
  The fixed node pool of nx_mem_pool.c.  Nodes are numbered; the pool's lock makes every
  method atomic.
 */
module MemPool {
  import opened Options

  /** Descending node numbers: nodes are pushed to the front as they are created. */
  function Fresh(n: nat): (r: seq<nat>)
    ensures |r| == n && forall i | 0 <= i < n :: r[i] == n - 1 - i
  {
    if n == 0 then [] else [n - 1] + Fresh(n - 1)
  }

  class Pool {
    const maxEntries: nat
    var freeList: seq<nat>
    var allocatedCnt: int
    /** Nodes given to kfree, in order. */
    var destroyed: seq<nat>
    /** The nodes handed out and not yet returned. */
    ghost var out: multiset<nat>

    /** Every node is either on the free list or handed out, exactly once. */
    ghost predicate Valid()
      reads this
    {
      && multiset(freeList) + out == multiset(Fresh(maxEntries))
      && allocatedCnt == |out|
    }

    /** nx_mem_pool_create, when every kmalloc succeeds. */
    constructor (maxEntries: nat)
      ensures Valid() && this.maxEntries == maxEntries && out == multiset{} && freeList == Fresh(maxEntries)
      ensures destroyed == []
    {
      this.maxEntries := maxEntries;
      allocatedCnt, out, destroyed := 0, multiset{}, [];
      freeList := [];
      new;
      var i := 0;
      while i < maxEntries
        invariant 0 <= i <= maxEntries && freeList == Fresh(i)
        invariant allocatedCnt == 0 && out == multiset{} && destroyed == []
      {
        freeList := [i] + freeList;
        i := i + 1;
      }
    }

    /** nx_mem_pool_alloc. */
    method Alloc() returns (node: Option<nat>)
      requires Valid()
      modifies this`freeList, this`allocatedCnt, this`out
      ensures Valid()
      ensures old(freeList) == [] ==> node.None? && freeList == [] && out == old(out)
      ensures old(freeList) != [] ==>
        node == Some(old(freeList)[0]) && freeList == old(freeList)[1..] && out == old(out) + multiset{old(freeList)[0]}
    {
      node := None;
      if freeList != [] {
        assert freeList == [freeList[0]] + freeList[1..];
        node := Some(freeList[0]);
        out := out + multiset{freeList[0]};
        freeList := freeList[1..];
        allocatedCnt := allocatedCnt + 1;
      }
    }

    /** nx_mem_pool_free.  It returns false where the C code calls BUG(). */
    method Free(node: nat) returns (inOrder: bool)
      requires Valid() && node in out
      modifies this`freeList, this`allocatedCnt, this`out
      ensures Valid() && inOrder
      ensures freeList == old(freeList) + [node] && out == old(out) - multiset{node}
    {
      freeList := freeList + [node];
      allocatedCnt := allocatedCnt - 1;
      out := out - multiset{node};
      inOrder := allocatedCnt >= 0;
    }

    /**
      nx_mem_pool_destroy.  It returns false where the C code calls BUG(); else every free node is
      given to kfree, from the front.
     */
    method Destroy() returns (inOrder: bool)
      requires Valid()
      modifies this`freeList, this`destroyed
      ensures inOrder <==> out == multiset{}
      ensures !inOrder ==> freeList == old(freeList) && destroyed == old(destroyed)
      ensures inOrder ==> freeList == [] && destroyed == old(destroyed) + old(freeList)
    {
      if allocatedCnt != 0 {
        return false;
      }
      while freeList != []
        invariant destroyed + freeList == old(destroyed) + old(freeList)
        decreases |freeList|
      {
        destroyed := destroyed + [freeList[0]];
        freeList := freeList[1..];
      }
      return true;
    }
  }

  /** What `Valid` says of one node: it is on the free list or handed out, not both, not twice. */
  lemma EachNodeOnce(free: seq<nat>, out: multiset<nat>, n: nat, x: nat)
    requires multiset(free) + out == multiset(Fresh(n))
    ensures multiset(free)[x] + out[x] == if x < n then 1 else 0
  {
    FreshOnce(n, x);
    assert (multiset(free) + out)[x] == multiset(Fresh(n))[x];
  }

  lemma {:induction false} FreshOnce(n: nat, x: nat)
    ensures multiset(Fresh(n))[x] == if x < n then 1 else 0
  {
    if n > 0 {
      FreshOnce(n - 1, x);
    }
  }
}
