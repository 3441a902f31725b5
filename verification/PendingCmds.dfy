/**
  The overflow queue for firmware commands: blocks of 64 descriptors that wait until the
  transmit ring has room (unm_pending_cmd_descs_t and its functions).
 */
module PendingCmds {
  import opened Options

  const BLOCK_SIZE := 64
  const ENOMEM := 12

  function Flatten<D>(blocks: seq<seq<D>>): seq<D> {
    if blocks == [] then [] else blocks[0] + Flatten(blocks[1..])
  }

  lemma {:induction false} FlattenAppend<D>(blocks: seq<seq<D>>, b: seq<D>)
    ensures Flatten(blocks + [b]) == Flatten(blocks) + b
  {
    if blocks == [] {
      assert [b][1..] == [];
    } else {
      FlattenAppend(blocks[1..], b);
      assert (blocks + [b])[1..] == blocks[1..] + [b];
    }
  }

  class Pending<D> {
    var cnt: nat
    /** Empty blocks, full blocks in order, and the block being filled (NULL is None). */
    var freeBlocks: nat
    var cmdList: seq<seq<D>>
    var curr: Option<seq<D>>
    /** Blocks ever allocated. */
    ghost var blocks: nat

    /** The waiting descriptors, oldest first. */
    function Queued(): seq<D>
      reads this
    {
      Flatten(cmdList) + Tail()
    }

    function Tail(): seq<D>
      reads this
    {
      match curr case None => [] case Some(b) => b
    }

    ghost predicate Valid()
      reads this
    {
      && (forall i | 0 <= i < |cmdList| :: |cmdList[i]| == BLOCK_SIZE)
      && (curr.Some? ==> 0 < |curr.value| < BLOCK_SIZE)
      && cnt == |Queued()|
      // no block is lost
      && blocks == freeBlocks + |cmdList| + (if curr.Some? then 1 else 0)
    }

    /** unm_init_pending_cmd_desc. */
    constructor ()
      ensures Valid() && Queued() == [] && blocks == 0
    {
      cnt, freeBlocks, cmdList, curr, blocks := 0, 0, [], None, 0;
    }

    /** nx_queue_pend_cmd_desc.  False is the branch that should never happen. */
    method QueueOne(d: D) returns (ok: bool)
      requires Valid()
      modifies this
      ensures Valid() && blocks == old(blocks)
      ensures ok == (old(curr).Some? || old(freeBlocks) > 0)
      ensures Queued() == if ok then old(Queued()) + [d] else old(Queued())
      ensures ok ==> |Tail()| == (|old(Tail())| + 1) % BLOCK_SIZE
      ensures freeBlocks == if old(curr).None? && ok then old(freeBlocks) - 1 else old(freeBlocks)
    {
      ghost var before := Queued();
      var block: seq<D>;
      if curr.Some? {
        block := curr.value;
      } else if freeBlocks > 0 {
        freeBlocks := freeBlocks - 1;
        block := [];
      } else {
        return false;
      }
      block := block + [d];
      assert Flatten(cmdList) + block == before + [d];
      if |block| == BLOCK_SIZE {
        FlattenAppend(cmdList, block);
        cmdList := cmdList + [block];
        curr := None;
        assert Flatten(cmdList) + [] == Flatten(cmdList);
      } else {
        curr := Some(block);
      }
      cnt := cnt + 1;
      ok := true;
    }

    /** nx_make_available_pend_cmd_desc; `alloc` says whether kmalloc would succeed. */
    method MakeAvailable(n: nat, alloc: bool) returns (rv: int)
      requires Valid() && n <= BLOCK_SIZE
      modifies this`freeBlocks, this`blocks
      ensures Valid() && Queued() == old(Queued())
      ensures rv == 0 || rv == -ENOMEM
      ensures rv == 0 <==> (curr.Some? && |curr.value| + n <= BLOCK_SIZE) || alloc || old(freeBlocks) > 0
      ensures rv == 0 ==> Fits(n) || freeBlocks > 0
    {
      if curr.Some? && |curr.value| <= BLOCK_SIZE - n {
        return 0;
      }
      if freeBlocks > 0 {
        return 0;
      }
      if alloc {
        freeBlocks := freeBlocks + 1;
        blocks := blocks + 1;
        return 0;
      }
      return -ENOMEM;
    }

    /** The block being filled has room for `n` more. */
    predicate Fits(n: nat)
      reads this
    {
      curr.Some? && |curr.value| + n <= BLOCK_SIZE
    }

    /** nx_queue_pend_cmd_desc_list: the whole batch is queued, or none of it. */
    method QueueList(ds: seq<D>, alloc: bool) returns (rv: int)
      requires Valid() && 0 < |ds| <= BLOCK_SIZE
      modifies this
      ensures Valid()
      ensures rv == 0 || rv == -ENOMEM
      ensures rv == 0 <==>
        (old(curr).Some? && |old(curr).value| + |ds| <= BLOCK_SIZE) || alloc || old(freeBlocks) > 0
      ensures Queued() == if rv == 0 then old(Queued()) + ds else old(Queued())
    {
      rv := MakeAvailable(|ds|, alloc);
      if rv != 0 {
        return;
      }
      ghost var before := Queued();
      assert before + ds[..0] == before;
      var i := 0;
      while i < |ds|
        invariant 0 <= i <= |ds| && Valid()
        invariant Queued() == before + ds[..i]
        invariant i < |ds| ==> Fits(|ds| - i) || freeBlocks > 0
      {
        var ok := QueueOne(ds[i]);
        assert ds[..i + 1] == ds[..i] + [ds[i]];
        assert before + ds[..i] + [ds[i]] == before + ds[..i + 1];
        i := i + 1;
      }
      assert ds[..i] == ds;
    }

    /** The oldest block, full or being filled, is there and has at most `length` commands. */
    predicate Fitting(length: nat)
      reads this
    {
      if cmdList != [] then length >= BLOCK_SIZE else curr.Some? && length >= |curr.value|
    }

    /** Where no block fits, not all that waits does, if anything waits. */
    lemma NothingFits(length: nat)
      requires Valid() && (length == 0 || !Fitting(length))
      ensures cmdList != [] ==> length < BLOCK_SIZE
      ensures cmdList == [] && curr.Some? ==> length < |curr.value|
      ensures Queued() == [] || |Queued()| > length
    {
      if cmdList != [] { assert |Queued()| == |cmdList[0]| + |Flatten(cmdList[1..])| + |Tail()|; }
    }

    /**
      unm_dequeue_pending_cmd_desc, with unm_free_pend_cmd_desc_block: the oldest block, if
      all of it fits.
     */
    method Dequeue(length: nat) returns (block: Option<seq<D>>)
      requires Valid()
      modifies this
      ensures Valid() && blocks == old(blocks)
      ensures block.Some? <==>
        if old(cmdList) != [] then length >= BLOCK_SIZE else old(curr).Some? && length >= |old(curr).value|
      ensures match block
        case None => Queued() == old(Queued()) && cmdList == old(cmdList) && curr == old(curr)
        case Some(b) => 0 < |b| <= length && old(Queued()) == b + Queued()
    {
      var b: seq<D>;
      if cmdList != [] {
        if length < BLOCK_SIZE {
          return None;
        }
        b := cmdList[0];
        assert Flatten(cmdList) + Tail() == b + (Flatten(cmdList[1..]) + Tail());
        cmdList := cmdList[1..];
      } else {
        if curr.None? || length < |curr.value| {
          return None;
        }
        b := curr.value;
        curr := None;
      }
      cnt := cnt - |b|;
      freeBlocks := freeBlocks + 1;
      return Some(b);
    }
  }
}
