/**
  The transmit ring (unm_nic_main.c): packet sends, firmware commands, the drain of queued
  commands and the completion reclaim share one circular ring.

  The senders hold the transmit lock; reclaim does not.  Its turns are therefore methods of
  their own that may fall between any two writes of a sender, whose half-written state
  (`Ahead`) they keep, and a sender may work with an old value of the reclaimed index
  (`seen`).  The card consumes in order and never beyond the producer.
 */
module TxRing {
  import opened Circular
  import opened Options
  import opened PendingCmds
  import opened TxPackets

  const MAX_STATUS_HANDLE := 128
  const EINVAL := 22

  datatype XmitResult = Sent | Busy | Dropped

  // ----- the histories -----

  /** The firmware commands among the descriptors written to the ring. */
  function Commands(descs: seq<Desc>): seq<Desc> {
    if descs == [] then []
    else Commands(descs[..|descs| - 1]) + (if descs[|descs| - 1].Firmware? then [descs[|descs| - 1]] else [])
  }

  /** The packets recorded in the buffer slots. */
  function Packets(skbs: seq<Option<nat>>): seq<nat> {
    if skbs == [] then []
    else Packets(skbs[..|skbs| - 1]) + (match skbs[|skbs| - 1] case None => [] case Some(s) => [s])
  }

  lemma {:induction false} CommandsAppend(a: seq<Desc>, b: seq<Desc>)
    ensures Commands(a + b) == Commands(a) + Commands(b)
  {
    if b == [] { assert a + b == a; } else {
      CommandsAppend(a, b[..|b| - 1]);
      assert (a + b)[..|a + b| - 1] == a + b[..|b| - 1];
    }
  }

  lemma {:induction false} CommandsPrefix(descs: seq<Desc>, i: nat)
    requires i <= |descs|
    ensures Commands(descs[..i]) <= Commands(descs)
  {
    if i < |descs| {
      var n := |descs| - 1;
      CommandsPrefix(descs[..n], i);
      assert descs[..n][..i] == descs[..i];
    } else {
      assert descs[..i] == descs;
    }
  }

  lemma {:induction false} PacketsPrefix(skbs: seq<Option<nat>>, i: nat)
    requires i <= |skbs|
    ensures Packets(skbs[..i]) <= Packets(skbs)
  {
    if i < |skbs| {
      var n := |skbs| - 1;
      PacketsPrefix(skbs[..n], i);
      assert skbs[..n][..i] == skbs[..i];
    } else {
      assert skbs[..i] == skbs;
    }
  }

  lemma {:induction false} AllCommands(b: seq<Desc>)
    requires AllFirmware(b)
    ensures Commands(b) == b
  {
    if b != [] { AllCommands(b[..|b| - 1]); }
  }

  lemma {:induction false} NoCommands(b: seq<Desc>)
    requires forall i | 0 <= i < |b| :: !b[i].Firmware?
    ensures Commands(b) == []
  {
    if b != [] { NoCommands(b[..|b| - 1]); }
  }

  ghost predicate AllFirmware(ds: seq<Desc>) { forall i | 0 <= i < |ds| :: ds[i].Firmware? }

  function NoSkbs(n: nat): (r: seq<Option<nat>>)
    ensures |r| == n && forall i | 0 <= i < n :: r[i] == None
  {
    seq(n, _ => None)
  }

  lemma {:induction false} PacketsAppendNone(a: seq<Option<nat>>, n: nat)
    ensures Packets(a + NoSkbs(n)) == Packets(a)
  {
    if n == 0 { assert a + NoSkbs(0) == a; } else {
      PacketsAppendNone(a, n - 1);
      assert (a + NoSkbs(n))[..|a| + n - 1] == a + NoSkbs(n - 1);
    }
  }

  // ----- room -----

  /** The room test of the senders, on slot numbers: refuse when it holds. */
  predicate NoRoom(producer: nat, need: nat, consumer: nat, n: nat) {
    producer + need >= if consumer <= producer then consumer + n else consumer
  }

  /** The drain's count of free slots. */
  function FreeSlots(producer: nat, consumer: nat, n: nat): int {
    if producer == consumer then n - 1
    else if producer > consumer then n - producer + consumer - 1
    else consumer - producer - 1
  }

  /** Both tests mean: keep one slot of the ring empty, counting from the index seen. */
  lemma RoomTests(seen: nat, head: nat, need: nat, n: nat)
    requires n > 0 && seen <= head < seen + n
    ensures NoRoom(At(head, n), need, At(seen, n), n) <==> head - seen + need >= n
    ensures FreeSlots(At(head, n), At(seen, n), n) == n - 1 - (head - seen)
  {
    hide At;
    SlotDistance(seen, head, n);
    if seen < head { NoCollision(seen, head, n); }
  }

  // ----- the ring -----

  /** The slots that are neither outstanding nor the producer's hold no packet. */
  ghost predicate RestEmpty(skbs: seq<Option<nat>>, head: nat, from: nat) {
    |skbs| > 0 && forall i | head < i < from + |skbs| :: skbs[At(i, |skbs|)] == None
  }

  class Adapter {
    const cmdDescHead: array<Desc>
    /** cmd_buf_arr[i].skb */
    const skbs: array<Option<nat>>
    const pending: Pending<Desc>
    var cmdProducer: nat
    var lastCmdConsumer: nat
    /** The word the card writes its consumer index to, and the producer register. */
    var cmdConsumer: nat
    var producerReg: nat
    /** Reclaim's locals while it runs. */
    var reclaiming: bool
    var cursor: nat
    var limit: nat
    /** Packets given to dev_kfree_skb_any by reclaim, and descriptors taken by the card. */
    var freed: seq<nat>
    var taken: seq<Desc>

    /** What has been written to each ring position, and how far each party has come. */
    ghost var descLog: seq<Desc>
    ghost var skbLog: seq<Option<nat>>
    ghost var last: nat
    ghost var done: nat
    ghost var target: nat
    /** Firmware commands and packets accepted. */
    ghost var submitted: seq<Desc>
    ghost var packets: seq<nat>

    ghost predicate Valid()
      reads this, cmdDescHead, skbs, pending
    {
      && cmdDescHead.Length == skbs.Length > 0
      && cmdDescHead as object != skbs
      && Indices() && RingIntact()
      && pending.Valid()
      // firmware commands: written, then queued, are the accepted ones in order
      && AllFirmware(pending.Queued())
      && Commands(descLog) + pending.Queued() == submitted
      // packets: freed, then outstanding, are the accepted ones in order
      && Packets(skbLog) == packets
      && Seen()
    }

    /** Reclaim has freed each packet it passed, and the card has taken what was written. */
    ghost predicate Seen()
      reads this
    {
      && done <= |skbLog| && freed == Packets(skbLog[..done])
      && |taken| <= |descLog| && taken == descLog[..|taken|]
    }

    /** last <= done <= target <= card <= head < last + N, and their slots. */
    ghost predicate Indices()
      reads this, cmdDescHead, skbs
    {
      var n := cmdDescHead.Length;
      && n > 0 && skbs.Length == n && |skbLog| == |descLog|
      && last <= done <= target <= |taken| <= |descLog| < last + n
      && cmdProducer == producerReg == At(|descLog|, n)
      && lastCmdConsumer == At(last, n) && cmdConsumer == At(|taken|, n)
      && cursor == At(done, n) && limit == At(target, n)
      && (!reclaiming ==> done == last)
    }

    ghost predicate RingIntact()
      reads this, cmdDescHead, skbs
    {
      && Window(cmdDescHead[..], descLog, last)
      && Window(skbs[..], skbLog, done) && RestEmpty(skbs[..], |skbLog|, done)
    }

    constructor (n: nat, blank: Desc)
      requires n > 1
      ensures Valid() && fresh(cmdDescHead) && fresh(skbs) && fresh(pending)
      ensures submitted == [] && packets == [] && descLog == []
    {
      cmdDescHead := new Desc[n](_ => blank);
      skbs := new Option<nat>[n](_ => None);
      var p := new Pending<Desc>();
      pending := p;
      cmdProducer, lastCmdConsumer, cmdConsumer, producerReg, cursor, limit := 0, 0, 0, 0, 0, 0;
      reclaiming, freed, taken := false, [], [];
      descLog, skbLog, last, done, target, submitted, packets := [], [], 0, 0, 0, [], [];
      new;
      DivModIs(0, n, 0, 0);
    }

    /** `w` has been written behind the announced descriptors, and `ks` into the packet slots. */
    ghost predicate Ahead(w: seq<Desc>, ks: seq<Option<nat>>, producer: nat)
      reads this, cmdDescHead, skbs
    {
      && Indices() && Seen() && |w| == |ks| && |descLog| + |w| < last + cmdDescHead.Length
      && producer == At(|descLog| + |w|, cmdDescHead.Length)
      && Window(cmdDescHead[..], descLog + w, last)
      && Window(skbs[..], skbLog + ks, done) && RestEmpty(skbs[..], |skbLog| + |ks|, done)
    }

    // ----- the card -----

    /** The card takes the next descriptor, possibly between two writes of a sender. */
    method CardTakes(ghost w: seq<Desc>, ghost ks: seq<Option<nat>>, ghost producer: nat)
      requires Ahead(w, ks, producer) && |taken| < |descLog|
      modifies this`taken, this`cmdConsumer
      ensures Ahead(w, ks, producer) && (old(Valid()) ==> Valid())
      ensures taken == old(taken) + [descLog[|old(taken)|]]
    {
      hide Flatten, Pending.Valid, Pending.Queued, Commands, Packets, RestEmpty, At;
      NextIsSuccessor(|taken|, cmdDescHead.Length);
      assert cmdDescHead[cmdConsumer] == (descLog + w)[|taken|] == descLog[|taken|];
      taken := taken + [cmdDescHead[cmdConsumer]];
      cmdConsumer := Next(cmdConsumer, cmdDescHead.Length);
    }

    // ----- reclaim: unm_process_cmd_ring in its steps -----

    // Each step may fall between two writes of a sender, whose state it keeps.

    method ReclaimBegin(ghost w: seq<Desc>, ghost ks: seq<Option<nat>>, ghost producer: nat)
      requires Ahead(w, ks, producer) && !reclaiming
      modifies this`reclaiming, this`cursor, this`limit, this`done, this`target
      ensures Ahead(w, ks, producer) && (old(Valid()) ==> Valid())
      ensures reclaiming && target == |taken| && done == last
    {
      hide Flatten, Pending.Valid, Pending.Queued, Commands, Packets, RestEmpty, At;
      reclaiming, cursor, limit := true, lastCmdConsumer, cmdConsumer;
      target := |taken|;
    }

    /** One turn: free the packet of the slot, if any.  The sender's slot is not touched. */
    method ReclaimOne(ghost w: seq<Desc>, ghost ks: seq<Option<nat>>, ghost producer: nat)
      requires Ahead(w, ks, producer) && reclaiming && cursor != limit
      modifies this`cursor, this`freed, this`done, skbs
      ensures Ahead(w, ks, producer) && (old(Valid()) ==> Valid())
      ensures done == old(done) + 1 <= target
      ensures freed == old(freed) + (match skbLog[old(done)] case None => [] case Some(s) => [s])
      ensures producer < skbs.Length && skbs[producer] == old(skbs[producer])
    {
      hide Flatten, Pending.Valid, Pending.Queued, Commands, Packets, At, Window, RestEmpty;
      var n := skbs.Length;
      NextIsSuccessor(done, n);
      SlotFreed(skbs[..], skbLog + ks, done);
      if Valid() { SlotFreed(skbs[..], skbLog, done); }
      NoCollision(done, |descLog| + |w|, n);
      assert (skbLog + ks)[done] == skbLog[done];
      PacketsStep(skbLog, done);
      if skbs[cursor].Some? {
        freed := freed + [skbs[cursor].value];
        skbs[cursor] := None;
      }
      assert skbs[..] == old(skbs[..])[At(old(done), n) := None];
      cursor := Next(cursor, n);
      done := done + 1;
    }

    method ReclaimEnd(ghost w: seq<Desc>, ghost ks: seq<Option<nat>>, ghost producer: nat) returns (all: bool)
      requires Ahead(w, ks, producer) && reclaiming
      modifies this`reclaiming, this`lastCmdConsumer, this`last
      ensures Ahead(w, ks, producer) && (old(Valid()) ==> Valid())
      ensures !reclaiming && last == done && (all <==> done == |taken|)
    {
      hide Flatten, Pending.Valid, Pending.Queued, Commands, Packets, RestEmpty, At, Window;
      WindowShrink(cmdDescHead[..], descLog + w, last, done);
      if Valid() { WindowShrink(cmdDescHead[..], descLog, last, done); }
      lastCmdConsumer, reclaiming := cursor, false;
      last := done;
      SlotDistance(done, |taken|, cmdDescHead.Length);
      all := lastCmdConsumer == cmdConsumer;
      if done < |taken| { NoCollision(done, |taken|, cmdDescHead.Length); }
    }

    /**
      What goes on while a sender is at work: any number of steps of the card and of reclaim.
      The senders below call it between any two of their writes.
     */
    method Meanwhile(ghost w: seq<Desc>, ghost ks: seq<Option<nat>>, ghost producer: nat)
      requires Ahead(w, ks, producer)
      modifies this`taken, this`cmdConsumer, this`reclaiming, this`cursor, this`limit
      modifies this`done, this`target, this`freed, this`lastCmdConsumer, this`last
      modifies skbs
      ensures Ahead(w, ks, producer) && (old(Valid()) ==> Valid())
      ensures old(last) <= last && producer < skbs.Length && skbs[producer] == old(skbs[producer])
    {
      hide Flatten, Pending.Valid, Pending.Queued, Commands, Packets, At, Window, RestEmpty;
      var turns: nat := *;
      ghost var valid := Valid();
      while turns > 0
        invariant Ahead(w, ks, producer) && (valid ==> Valid())
        invariant old(last) <= last && producer < skbs.Length && skbs[producer] == old(skbs[producer])
      {
        var card: bool, more: bool := *, *;
        if card {
          if cmdConsumer != producerReg {
            CardTakes(w, ks, producer);
          }
        } else if !reclaiming {
          ReclaimBegin(w, ks, producer);
        } else if more && cursor != limit {
          ReclaimOne(w, ks, producer);
        } else {
          var _ := ReclaimEnd(w, ks, producer);
        }
        turns := turns - 1;
      }
    }

    /** The whole of unm_process_cmd_ring when nothing runs in between. */
    method ProcessCmdRing() returns (all: bool)
      requires Valid() && !reclaiming
      modifies this`reclaiming, this`cursor, this`limit, this`done, this`target, this`freed
      modifies this`lastCmdConsumer, this`last, skbs
      ensures Valid() && !reclaiming
      ensures last == if |taken| <= old(last) + MAX_STATUS_HANDLE then |taken| else old(last) + MAX_STATUS_HANDLE
      ensures freed == Packets(skbLog[..last])
      ensures all <==> last == |taken|
    {
      hide Flatten, Pending.Valid, Pending.Queued, Commands, Packets, RestEmpty, At, Window;
      NothingAhead();
      ReclaimBegin([], NoSkbs(0), cmdProducer);
      var count := 0;
      while cursor != limit
        invariant Valid() && reclaiming && target == |taken| && done == old(last) + count && count < MAX_STATUS_HANDLE
        modifies this`cursor, this`freed, this`done, skbs
        decreases target - done
      {
        NothingAhead();
        ReclaimOne([], NoSkbs(0), cmdProducer);
        count := count + 1;
        if count >= MAX_STATUS_HANDLE {
          break;
        }
      }
      if cursor == limit { AtEnd(); }
      NothingAhead();
      all := ReclaimEnd([], NoSkbs(0), cmdProducer);
    }

    // ----- the senders -----

    /** What a sender may assume of the consumer index it has read: it may be old. */
    ghost predicate ReadEarlier(consumerSeen: nat, seen: nat)
      reads this, cmdDescHead
    {
      && cmdDescHead.Length > 0
      && seen <= last && |descLog| < seen + cmdDescHead.Length && consumerSeen == At(seen, cmdDescHead.Length)
    }

    /** Write one firmware command at `producer`. */
    method PutCommand(d: Desc, producer: nat, ghost w: seq<Desc>, ghost ks: seq<Option<nat>>) returns (producer': nat)
      requires Ahead(w, ks, producer) && |descLog| + |w| + 1 < last + cmdDescHead.Length
      modifies this`taken, this`cmdConsumer, this`reclaiming, this`cursor, this`limit
      modifies this`done, this`target, this`freed, this`lastCmdConsumer, this`last
      modifies cmdDescHead, skbs
      ensures Ahead(w + [d], ks + [None], producer') && old(last) <= last
    {
      hide At, Window, RestEmpty, Packets, Valid;
      Meanwhile(w, ks, producer);
      SkbStale(skbs[..], skbLog + ks, done, None);
      skbs[producer] := None;
      Meanwhile(w, ks, producer);
      ghost var n := cmdDescHead.Length;
      WindowPush(cmdDescHead[..], descLog + w, last, d);
      SkbPush(skbs[..], skbLog + ks, done, None);
      assert skbs[..][producer := None] == skbs[..];
      NextIsSuccessor(|descLog| + |w|, n);
      assert descLog + w + [d] == descLog + (w + [d]) && skbLog + ks + [None] == skbLog + (ks + [None]);
      cmdDescHead[producer] := d;
      producer' := Next(producer, cmdDescHead.Length);
    }

    /** Store the producer and tell the card. */
    method Publish(producer: nat, ghost w: seq<Desc>, ghost ks: seq<Option<nat>>,
                   ghost submitted': seq<Desc>, ghost packets': seq<nat>)
      requires cmdDescHead.Length == skbs.Length > 0 && cmdDescHead as object != skbs
      requires Ahead(w, ks, producer) && pending.Valid() && AllFirmware(pending.Queued())
      requires Commands(descLog + w) + pending.Queued() == submitted'
      requires Packets(skbLog + ks) == packets'
      modifies this`cmdProducer, this`producerReg, this`descLog, this`skbLog, this`submitted, this`packets
      ensures Valid()
      ensures descLog == old(descLog) + w && skbLog == old(skbLog) + ks
      ensures submitted == submitted' && packets == packets'
    {
      hide Flatten, Pending.Valid, Pending.Queued, Commands, Packets, At, Window, RestEmpty, AllFirmware;
      cmdProducer, producerReg := producer, producer;
      assert (skbLog + ks)[..done] == skbLog[..done];
      assert (descLog + w)[..|taken|] == descLog[..|taken|];
      descLog, skbLog := descLog + w, skbLog + ks;
      submitted, packets := submitted', packets';
    }

    /**
      nx_nic_send_cmd_descs.  A legal batch goes to the ring when nothing is queued and it fits,
      else it is queued, whole or not at all.
     */
    method SendCmdDescs(cmds: seq<Desc>, alloc: bool, consumerSeen: nat, ghost seen: nat) returns (rv: int)
      requires Valid() && AllFirmware(cmds) && ReadEarlier(consumerSeen, seen)
      modifies this`cmdProducer, this`producerReg, this`descLog, this`skbLog, this`submitted, this`packets
      modifies this`taken, this`cmdConsumer, this`reclaiming, this`cursor, this`limit
      modifies this`done, this`target, this`freed, this`lastCmdConsumer, this`last
      modifies cmdDescHead, skbs, pending
      ensures Valid() && packets == old(packets)
      ensures rv == -EINVAL <==> |cmds| == 0 || |cmds| > BLOCK_SIZE
      ensures rv == -ENOMEM <==>
        && 0 < |cmds| <= BLOCK_SIZE
        && (old(pending.Queued()) != [] || |old(descLog)| - seen + |cmds| >= cmdDescHead.Length)
        && !(old(pending.curr).Some? && |old(pending.curr).value| + |cmds| <= BLOCK_SIZE)
        && !alloc && old(pending.freeBlocks) == 0
      ensures submitted == if rv == 0 then old(submitted) + cmds else old(submitted)
      ensures descLog == if rv == 0 && old(pending.Queued()) == [] && |old(descLog)| - seen + |cmds| < cmdDescHead.Length
                         then old(descLog) + cmds else old(descLog)
      ensures rv == 0 || rv == -EINVAL || rv == -ENOMEM
    {
      hide Flatten, Pending.Queued, Commands, Packets, At, Window, RestEmpty, AllFirmware;
      var nr := |cmds|;
      if nr > BLOCK_SIZE || nr == 0 {
        return -EINVAL;
      }
      RoomTests(seen, |descLog|, nr, cmdDescHead.Length);
      if pending.cnt != 0 || NoRoom(cmdProducer, nr, consumerSeen, cmdDescHead.Length) {
        rv := pending.QueueList(cmds, alloc);
        if rv == 0 {
          FirmwareAppend(old(pending.Queued()), cmds);
          assert Commands(descLog) + (old(pending.Queued()) + cmds) == submitted + cmds;
          submitted := submitted + cmds;
        }
        return;
      }
      SendDirect(cmds);
      rv := 0;
    }

    /** The loop of nx_nic_send_cmd_descs over a batch that fits. */
    method SendDirect(cmds: seq<Desc>)
      requires Valid() && AllFirmware(cmds) && pending.Queued() == [] && |descLog| + |cmds| < last + cmdDescHead.Length
      modifies this`cmdProducer, this`producerReg, this`descLog, this`skbLog, this`submitted, this`packets
      modifies this`taken, this`cmdConsumer, this`reclaiming, this`cursor, this`limit
      modifies this`done, this`target, this`freed, this`lastCmdConsumer, this`last
      modifies cmdDescHead, skbs
      ensures Valid() && packets == old(packets) && submitted == old(submitted) + cmds && descLog == old(descLog) + cmds
    {
      hide Flatten, Pending.Valid, Pending.Queued, Commands, Packets, At, Window, RestEmpty, AllFirmware;
      NothingAhead();
      var producer := cmdProducer;
      var i := 0;
      while i < |cmds|
        invariant 0 <= i <= |cmds| && Ahead(cmds[..i], NoSkbs(i), producer) && old(last) <= last
        modifies this`taken, this`cmdConsumer, this`reclaiming, this`cursor, this`limit
        modifies this`done, this`target, this`freed, this`lastCmdConsumer, this`last
        modifies cmdDescHead, skbs
      {
        assert cmds[..i + 1] == cmds[..i] + [cmds[i]];
        assert NoSkbs(i + 1) == NoSkbs(i) + [None];
        producer := PutCommand(cmds[i], producer, cmds[..i], NoSkbs(i));
        i := i + 1;
      }
      assert cmds[..i] == cmds;
      CommandsAppend(descLog, cmds);
      AllCommands(cmds);
      PacketsAppendNone(skbLog, |cmds|);
      assert Commands(descLog) + cmds + [] == submitted + cmds;
      Publish(producer, cmds, NoSkbs(|cmds|), submitted + cmds, packets);
    }

    /**
      unm_proc_pending_cmd_desc: move queued blocks to the ring as long as the oldest fits.  A
      full block needs 64 slots, the one being filled as many as it holds.  It makes progress
      exactly when there is a block and it fits, and leaves nothing behind when all would fit.
     */
    method ProcPending(consumerSeen: nat, ghost seen: nat)
      requires Valid() && ReadEarlier(consumerSeen, seen)
      modifies this`cmdProducer, this`producerReg, this`descLog, this`skbLog, this`submitted, this`packets
      modifies this`taken, this`cmdConsumer, this`reclaiming, this`cursor, this`limit
      modifies this`done, this`target, this`freed, this`lastCmdConsumer, this`last
      modifies cmdDescHead, skbs, pending
      ensures Valid() && submitted == old(submitted) && packets == old(packets)
      ensures old(descLog) <= descLog && old(pending.Queued()) == descLog[|old(descLog)|..] + pending.Queued()
      ensures |descLog| - seen < cmdDescHead.Length
      ensures pending.cmdList != [] ==> |descLog| - seen + BLOCK_SIZE >= cmdDescHead.Length
      ensures pending.cmdList == [] && pending.curr.Some? ==>
              |descLog| - seen + |pending.curr.value| >= cmdDescHead.Length
      ensures |descLog| > |old(descLog)| <==>
              if old(pending.cmdList) != [] then |old(descLog)| - seen + BLOCK_SIZE < cmdDescHead.Length
              else old(pending.curr).Some? && |old(descLog)| - seen + |old(pending.curr).value| < cmdDescHead.Length
      ensures |old(descLog)| - seen + |old(pending.Queued())| < cmdDescHead.Length ==> pending.Queued() == []
    {
      hide Flatten, Pending.Valid, Pending.Queued, Commands, Packets, At, Window, RestEmpty, AllFirmware, Seen;
      ghost var queue := pending.Queued();
      NothingAhead();
      RoomTests(seen, |descLog|, 0, cmdDescHead.Length);
      ghost var w: seq<Desc>;
      var producer;
      producer, w := DrainBlocks(FreeSlots(cmdProducer, consumerSeen, cmdDescHead.Length), seen);
      if producer == cmdProducer {
        NothingWritten(w, producer);
        assert descLog + [] == descLog && skbLog + NoSkbs(0) == skbLog && [] + pending.Queued() == pending.Queued();
        assert descLog[|descLog|..] == [];
        return;
      }
      FirmwareSplit(queue, w, pending.Queued());
      CommandsAppend(descLog, w);
      AllCommands(w);
      PacketsAppendNone(skbLog, |w|);
      assert Commands(descLog) + (w + pending.Queued()) == Commands(descLog + w) + pending.Queued();
      assert (descLog + w)[|descLog|..] == w;
      Publish(producer, w, NoSkbs(|w|), submitted, packets);
    }

    /** The loop of the drain: `w` is what it writes behind the producer, block by block. */
    method DrainBlocks(length: int, ghost seen: nat) returns (producer: nat, ghost w: seq<Desc>)
      requires Ahead([], NoSkbs(0), cmdProducer) && pending.Valid()
      requires seen <= last && 0 <= length == cmdDescHead.Length - 1 - (|descLog| - seen)
      modifies this`taken, this`cmdConsumer, this`reclaiming, this`cursor, this`limit
      modifies this`done, this`target, this`freed, this`lastCmdConsumer, this`last
      modifies cmdDescHead, skbs, pending
      ensures Ahead(w, NoSkbs(|w|), producer) && pending.Valid() && old(last) <= last
      ensures old(pending.Queued()) == w + pending.Queued()
      ensures |descLog| + |w| - seen < cmdDescHead.Length
      ensures pending.cmdList != [] ==> |descLog| + |w| - seen + BLOCK_SIZE >= cmdDescHead.Length
      ensures pending.cmdList == [] && pending.curr.Some? ==>
              |descLog| + |w| - seen + |pending.curr.value| >= cmdDescHead.Length
      ensures w != [] <==>
              if old(pending.cmdList) != [] then |descLog| - seen + BLOCK_SIZE < cmdDescHead.Length
              else old(pending.curr).Some? && |descLog| - seen + |old(pending.curr).value| < cmdDescHead.Length
      ensures |descLog| - seen + |old(pending.Queued())| < cmdDescHead.Length ==> pending.Queued() == []
    {
      hide Flatten, Pending.Queued, Commands, Packets, At, Window, RestEmpty, AllFirmware, Indices, Seen;
      ghost var n, queue := cmdDescHead.Length, pending.Queued();
      producer, w := cmdProducer, [];
      var left, stop := length, false;
      while left != 0 && !stop
        invariant 0 <= left == n - 1 - (|descLog| + |w| - seen)
        invariant Ahead(w, NoSkbs(|w|), producer) && pending.Valid() && old(last) <= last
        invariant queue == w + pending.Queued()
        invariant w == [] ==> pending.cmdList == old(pending.cmdList) && pending.curr == old(pending.curr)
        invariant w != [] ==>
          if old(pending.cmdList) != [] then BLOCK_SIZE <= length else old(pending.curr).Some? && |old(pending.curr).value| <= length
        invariant stop ==> !pending.Fitting(left)
        modifies this`taken, this`cmdConsumer, this`reclaiming, this`cursor, this`limit
        modifies this`done, this`target, this`freed, this`lastCmdConsumer, this`last
        modifies cmdDescHead, skbs, pending
        decreases if stop then 0 else 1, left
      {
        var block := pending.Dequeue(left);
        if block.None? {
          stop := true;
        } else {
          FirmwareParts(queue, w, block.value, pending.Queued());
          producer := PutBlock(block.value, producer, w);
          left := left - |block.value|;
          w := w + block.value;
        }
      }
      pending.NothingFits(left);
    }

    /** With the card caught up, a drain with anything queued has a block that fits. */
    lemma EmptyRingDrains(seen: nat)
      requires Valid() && pending.Queued() != [] && seen == |descLog| && cmdDescHead.Length > BLOCK_SIZE
      ensures if pending.cmdList != [] then |descLog| - seen + BLOCK_SIZE < cmdDescHead.Length
              else pending.curr.Some? && |descLog| - seen + |pending.curr.value| < cmdDescHead.Length
    {
      hide Commands, Packets, At, Window, RestEmpty;
      assert [] + pending.Tail() == pending.Tail();
    }

    /** Write one block behind `w`. */
    method PutBlock(block: seq<Desc>, producer: nat, ghost w: seq<Desc>) returns (producer': nat)
      requires Ahead(w, NoSkbs(|w|), producer) && |descLog| + |w| + |block| < last + cmdDescHead.Length
      modifies this`taken, this`cmdConsumer, this`reclaiming, this`cursor, this`limit
      modifies this`done, this`target, this`freed, this`lastCmdConsumer, this`last
      modifies cmdDescHead, skbs
      ensures Ahead(w + block, NoSkbs(|w + block|), producer') && old(last) <= last
    {
      hide Flatten, Commands, Packets, At, Window, RestEmpty, Indices, Seen;
      producer' := producer;
      assert w + block[..0] == w;
      var i := 0;
      while i < |block|
        invariant 0 <= i <= |block| && Ahead(w + block[..i], NoSkbs(|w| + i), producer') && old(last) <= last
        modifies this`taken, this`cmdConsumer, this`reclaiming, this`cursor, this`limit
        modifies this`done, this`target, this`freed, this`lastCmdConsumer, this`last
        modifies cmdDescHead, skbs
      {
        assert w + block[..i] + [block[i]] == w + block[..i + 1];
        assert NoSkbs(|w| + i + 1) == NoSkbs(|w| + i) + [None];
        producer' := PutCommand(block[i], producer', w + block[..i], NoSkbs(|w| + i));
        i := i + 1;
      }
      assert block[..i] == block;
    }

    /** The drain's test for "nothing written" is right: it never writes a whole turn. */
    lemma NothingWritten(w: seq<Desc>, producer: nat)
      requires Ahead(w, NoSkbs(|w|), producer) && producer == cmdProducer
      ensures w == []
    {
      hide At, Window, RestEmpty, Commands, Packets;
      SameSlotSamePosition(|descLog|, |descLog| + |w|, cmdDescHead.Length);
    }

    /**
      unm_nic_xmit_frame for a packet with buffers `bufs` and `headers` header descriptors;
      mapping fails for buffer number `failAt`, if there is one.  A packet dropped then leaves its
      pointer in the producer's slot and nothing else; one dropped for lack of a carrier leaves
      nothing.
     */
    method XmitFrame(skb: nat, bufs: seq<Buf>, headers: nat, failAt: nat, carrier: bool,
                     consumerSeen: nat, ghost seen: nat)
      returns (r: XmitResult)
      requires Valid() && bufs != [] && headers <= 2 && ReadEarlier(consumerSeen, seen)
      modifies this`cmdProducer, this`producerReg, this`descLog, this`skbLog, this`submitted, this`packets
      modifies this`taken, this`cmdConsumer, this`reclaiming, this`cursor, this`limit
      modifies this`done, this`target, this`freed, this`lastCmdConsumer, this`last
      modifies cmdDescHead, skbs
      ensures Valid() && submitted == old(submitted)
      ensures r.Busy? <==> carrier && |old(descLog)| - seen + DescCount(|bufs|) + 2 >= cmdDescHead.Length
      ensures !r.Busy? ==> (r.Sent? <==> carrier && failAt >= |bufs|)
      ensures r.Sent? ==>
        && packets == old(packets) + [skb]
        && descLog == old(descLog) + PacketDescs(skb, |bufs|, bufs) + HeaderDescs(skb, headers)
        && skbLog == old(skbLog) + [Some(skb)] + NoSkbs(DescCount(|bufs|) + headers - 1)
      ensures !r.Sent? ==> packets == old(packets) && descLog == old(descLog) && skbLog == old(skbLog)
    {
      hide Flatten, Pending.Valid, Pending.Queued, Commands, Packets, At, Window, RestEmpty, AllFirmware, PacketDescs;
      if !carrier {
        return Dropped;
      }
      var k := cmdProducer;
      var noOfDesc := DescCount(|bufs|);
      RoomTests(seen, |descLog|, noOfDesc + 2, cmdDescHead.Length);
      if NoRoom(k, noOfDesc + 2, consumerSeen, cmdDescHead.Length) {
        return Busy;
      }
      var ok, producer := FillBuffers(skb, bufs, failAt);
      if !ok {
        return Dropped;
      }
      producer := PutHeaders(skb, headers, producer, PacketDescs(skb, |bufs|, bufs));
      PacketHasNoCommands(skb, |bufs|, bufs, headers);
      SendPacket(skb, producer, PacketDescs(skb, |bufs|, bufs) + HeaderDescs(skb, headers));
      assert old(descLog) + PacketDescs(skb, |bufs|, bufs) + HeaderDescs(skb, headers)
          == old(descLog) + (PacketDescs(skb, |bufs|, bufs) + HeaderDescs(skb, headers));
      r := Sent;
    }

    /** The same for a packet sender, which leaves the ring valid until it announces the packet. */
    method MeanwhilePacket()
      requires Valid()
      modifies this`taken, this`cmdConsumer, this`reclaiming, this`cursor, this`limit
      modifies this`done, this`target, this`freed, this`lastCmdConsumer, this`last
      modifies skbs
      ensures Valid() && old(last) <= last <= |descLog|
      ensures cmdProducer < skbs.Length && skbs[cmdProducer] == old(skbs[cmdProducer])
    {
      hide Flatten, Pending.Valid, Pending.Queued, Commands, Packets, At, Window, RestEmpty, AllFirmware;
      NothingAhead();
      Meanwhile([], NoSkbs(0), cmdProducer);
    }

    /** One write of a packet sender, to a slot behind what has been announced. */
    method PutDesc(slot: nat, d: Desc)
      requires Valid() && slot < cmdDescHead.Length && Window(cmdDescHead[..][slot := d], descLog, last)
      modifies cmdDescHead
      ensures Valid() && cmdDescHead[..] == old(cmdDescHead[..])[slot := d]
    {
      hide Flatten, Pending.Valid, Pending.Queued, Commands, Packets, At, Window, RestEmpty, AllFirmware;
      ghost var ring := cmdDescHead[..];
      cmdDescHead[slot] := d;
      assert cmdDescHead[..] == ring[slot := d];
    }

    lemma Bounds()
      requires Valid()
      ensures 0 < cmdDescHead.Length == skbs.Length && cmdProducer == At(|descLog|, cmdDescHead.Length)
      ensures last <= |descLog| < last + cmdDescHead.Length && Window(cmdDescHead[..], descLog, last)
    {}

    /** nx_nic_tso_copy_headers: the header descriptors behind the buffer descriptors `w`. */
    method PutHeaders(skb: nat, headers: nat, producer: nat, ghost w: seq<Desc>) returns (producer': nat)
      requires Valid() && |descLog| + |w| + headers < last + cmdDescHead.Length && headers <= 2
      requires producer == At(|descLog| + |w|, cmdDescHead.Length) && Window(cmdDescHead[..], descLog + w, last)
      modifies this`taken, this`cmdConsumer, this`reclaiming, this`cursor, this`limit
      modifies this`done, this`target, this`freed, this`lastCmdConsumer, this`last
      modifies cmdDescHead, skbs
      ensures Valid() && old(last) <= last && producer' == At(|descLog| + |w| + headers, cmdDescHead.Length)
      ensures skbs[cmdProducer] == old(skbs[cmdProducer])
      ensures Window(cmdDescHead[..], descLog + (w + HeaderDescs(skb, headers)), last)
    {
      hide Flatten, Pending.Valid, Pending.Queued, Commands, Packets, At, Window, RestEmpty, AllFirmware, Valid;
      Bounds();
      producer' := producer;
      assert w + HeaderDescs(skb, 0) == w;
      var i := 0;
      while i < headers
        invariant 0 <= i <= headers && Valid() && old(last) <= last
        invariant skbs[cmdProducer] == old(skbs[cmdProducer])
        invariant producer' == At(|descLog| + |w| + i, cmdDescHead.Length)
        invariant Window(cmdDescHead[..], descLog + (w + HeaderDescs(skb, i)), last)
        modifies this`taken, this`cmdConsumer, this`reclaiming, this`cursor, this`limit
        modifies this`done, this`target, this`freed, this`lastCmdConsumer, this`last
        modifies cmdDescHead, skbs
      {
        ghost var from := last;
        MeanwhilePacket();
        HeaderStep(cmdDescHead[..], descLog, w, skb, i, from, last, producer');
        PutDesc(producer', Headers(skb, i));
        producer' := Next(producer', cmdDescHead.Length);
        i := i + 1;
      }
    }

    /** The descriptors of the buffers, from the producer's slot on; the producer is not moved. */
    method FillBuffers(skb: nat, bufs: seq<Buf>, failAt: nat) returns (ok: bool, producer: nat)
      requires Valid() && bufs != [] && |descLog| + DescCount(|bufs|) < last + cmdDescHead.Length
      modifies this`taken, this`cmdConsumer, this`reclaiming, this`cursor, this`limit
      modifies this`done, this`target, this`freed, this`lastCmdConsumer, this`last
      modifies cmdDescHead, skbs
      ensures Valid() && old(last) <= last && skbs[cmdProducer] == Some(skb)
      ensures ok <==> failAt >= |bufs|
      ensures ok ==>
        && producer == At(|descLog| + DescCount(|bufs|), cmdDescHead.Length)
        && Window(cmdDescHead[..], descLog + PacketDescs(skb, |bufs|, bufs), last)
    {
      hide Flatten, Pending.Valid, Pending.Queued, Commands, Packets, At, Window, RestEmpty, AllFirmware, PacketDescs, Filling;
      producer := cmdProducer;
      FirstStep(cmdDescHead[..], descLog, skb, bufs, last);
      cmdDescHead[producer] := More(EMPTY);
      NothingAhead();
      Meanwhile([], NoSkbs(0), producer);
      SkbStale(skbs[..], skbLog, done, Some(skb));
      ghost var slots := skbs[..];
      skbs[producer] := Some(skb);
      assert skbs[..] == slots[producer := Some(skb)];
      NothingAhead();
      Meanwhile([], NoSkbs(0), producer);
      if failAt == 0 {
        return false, producer;
      }
      ghost var start := cmdDescHead[..];
      FirstStep(cmdDescHead[..], descLog, skb, bufs, last);
      cmdDescHead[producer] := Head(skb, |bufs|, EMPTY.Set(0, bufs[0]));
      assert cmdDescHead[..] == start[producer := Head(skb, |bufs|, EMPTY.Set(0, bufs[0]))];
      FillingIsWindow(cmdDescHead[..], descLog, skb, bufs, 1, last, producer);
      ok, producer := FillMore(skb, bufs, failAt, producer);
    }

    /** The fragment loop: four buffers to a descriptor. */
    method FillMore(skb: nat, bufs: seq<Buf>, failAt: nat, first: nat) returns (ok: bool, producer: nat)
      requires Valid() && bufs != [] && failAt > 0
      requires Filling(cmdDescHead[..], descLog, skb, bufs, 1, last, first)
      modifies this`taken, this`cmdConsumer, this`reclaiming, this`cursor, this`limit
      modifies this`done, this`target, this`freed, this`lastCmdConsumer, this`last
      modifies cmdDescHead, skbs
      ensures Valid() && (ok <==> failAt >= |bufs|)
      ensures old(last) <= last && skbs[cmdProducer] == old(skbs[cmdProducer])
      ensures ok ==>
        && producer == At(|descLog| + DescCount(|bufs|), cmdDescHead.Length)
        && Window(cmdDescHead[..], descLog + PacketDescs(skb, |bufs|, bufs), last)
    {
      hide Flatten, Pending.Valid, Pending.Queued, Commands, Packets, At, Window, RestEmpty, AllFirmware, PacketDescs;
      hide Valid, Filling;
      Bounds();
      ghost var f := |bufs|;
      producer := first;
      var i, k := 1, 1;
      while i < |bufs|
        invariant 1 <= i <= f && 1 <= k <= 4 && k % 4 == i % 4 && failAt >= i
        invariant Valid() && Filling(cmdDescHead[..], descLog, skb, bufs, i, last, producer)
        invariant old(last) <= last && skbs[cmdProducer] == old(skbs[cmdProducer])
        modifies this`taken, this`cmdConsumer, this`reclaiming, this`cursor, this`limit
        modifies this`done, this`target, this`freed, this`lastCmdConsumer, this`last
        modifies cmdDescHead, skbs
      {
        ghost var from := last;
        MeanwhilePacket();
        FillingShrinks(cmdDescHead[..], descLog, skb, bufs, i, from, last, producer);
        ghost var inHand := producer;
        if k == 4 {
          ClearNext(cmdDescHead[..], descLog, skb, bufs, i, last, producer);
          k := 0;
          producer := Next(producer, cmdDescHead.Length);
          PutDesc(producer, More(EMPTY));
          from := last;
          MeanwhilePacket();
          FillingShrinks(cmdDescHead[..], descLog, skb, bufs, i, from, last, inHand);
        }
        if failAt == i {
          return false, producer;
        }
        FillStep(cmdDescHead[..], descLog, skb, bufs, i, last, inHand);
        PutDesc(producer, SetSlot(cmdDescHead[producer], k, bufs[i]));
        i, k := i + 1, k + 1;
      }
      FilledIsPacket(cmdDescHead[..], descLog, skb, bufs, last, producer);
      producer := Next(producer, cmdDescHead.Length);
      ok := true;
    }

    /** The packet's first slot holds it; the slots of its other descriptors hold nothing. */
    method SendPacket(skb: nat, producer: nat, ghost w: seq<Desc>)
      requires Valid() && w != [] && Commands(w) == [] && skbs[cmdProducer] == Some(skb)
      requires |descLog| + |w| < last + cmdDescHead.Length
      requires producer == At(|descLog| + |w|, cmdDescHead.Length) && Window(cmdDescHead[..], descLog + w, last)
      modifies this`cmdProducer, this`producerReg, this`descLog, this`skbLog, this`submitted, this`packets
      modifies this`taken, this`cmdConsumer, this`reclaiming, this`cursor, this`limit
      modifies this`done, this`target, this`freed, this`lastCmdConsumer, this`last
      modifies skbs
      ensures Valid() && submitted == old(submitted) && packets == old(packets) + [skb]
      ensures descLog == old(descLog) + w && skbLog == old(skbLog) + [Some(skb)] + NoSkbs(|w| - 1)
    {
      hide Flatten, Pending.Valid, Pending.Queued, Commands, Packets, At, Window, RestEmpty, AllFirmware;
      ghost var ks, from := [Some(skb)] + NoSkbs(|w| - 1), last;
      NothingAhead();
      Meanwhile([], NoSkbs(0), cmdProducer);
      WindowShrink(cmdDescHead[..], descLog + w, from, last);
      SkbPacket(skbs[..], skbLog, done, Some(skb), |w|);
      CommandsAppend(descLog, w);
      assert Commands(descLog) + [] == Commands(descLog);
      PacketsAppendOne(skbLog, skb, |w| - 1);
      assert skbLog + ks == skbLog + [Some(skb)] + NoSkbs(|w| - 1);
      Publish(producer, w, ks, submitted, packets + [skb]);
    }

    /**
      The run so far, in any valid state.  The card has taken a prefix of the accepted firmware
      commands; reclaim has freed a prefix of the accepted packets, all of which lie before
      what the card has taken; and the outstanding slots hold the rest, all others nothing.
     */
    lemma Histories()
      requires Valid()
      ensures Commands(taken) <= submitted && freed <= packets
      ensures freed <= Packets(skbLog[..|taken|])
      ensures forall i | done <= i < |skbLog| :: skbs[At(i, skbs.Length)] == skbLog[i]
      ensures forall i | |skbLog| < i < done + skbs.Length :: skbs[At(i, skbs.Length)] == None
    {
      hide Flatten, Pending.Valid, Pending.Queued, Commands, Packets, At;
      CommandsPrefix(descLog, |taken|);
      PacketsPrefix(skbLog, done);
      PacketsPrefix(skbLog[..|taken|], done);
      assert skbLog[..|taken|][..done] == skbLog[..done];
    }

    /**
      Why reclaim needs no lock: no slot a sender may write while it holds a tested room is a
      slot reclaim may still clear.
     */
    lemma SendersAndReclaimAreDisjoint(consumerSeen: nat, seen: nat, need: nat, i: nat, j: nat)
      requires Valid() && ReadEarlier(consumerSeen, seen)
      requires !NoRoom(cmdProducer, need, consumerSeen, cmdDescHead.Length)
      requires done <= i < target && |descLog| <= j <= |descLog| + need
      ensures At(i, cmdDescHead.Length) != At(j, cmdDescHead.Length)
    {
      hide Flatten, Pending.Valid, Pending.Queued, Commands, Packets, Window, RestEmpty, At, NoRoom;
      RoomTests(seen, |descLog|, need, cmdDescHead.Length);
      NoCollision(i, j, cmdDescHead.Length);
    }

    lemma NothingAhead()
      requires Valid()
      ensures Ahead([], NoSkbs(0), cmdProducer)
    {
      hide Flatten, Pending.Valid, Pending.Queued, Commands, Packets, At, Window, RestEmpty;
      assert descLog + [] == descLog && skbLog + NoSkbs(0) == skbLog;
    }

    lemma AtEnd()
      requires Valid() && cursor == limit
      ensures done == target
    {
      SameSlotSamePosition(done, target, cmdDescHead.Length);
    }
  }

  lemma SlotFreed(ring: seq<Option<nat>>, log: seq<Option<nat>>, from: nat)
    requires Window(ring, log, from) && RestEmpty(ring, |log|, from) && from < |log| < from + |ring|
    ensures var ring' := ring[At(from, |ring|) := None];
      && ring[At(from, |ring|)] == log[from]
      && Window(ring', log, from + 1) && RestEmpty(ring', |log|, from + 1)
  {
    hide At;
    var n := |ring|;
    var ring' := ring[At(from, n) := None];
    forall i | from < i < from + n ensures At(i, n) != At(from, n) { NoCollision(from, i, n); }
    SameSlotNextTurn(from, n);
  }

  lemma PacketsStep(log: seq<Option<nat>>, i: nat)
    requires i < |log|
    ensures Packets(log[..i + 1]) == Packets(log[..i]) + (match log[i] case None => [] case Some(s) => [s])
  {
    assert log[..i + 1][..i] == log[..i];
  }

  lemma WindowShrink<A>(ring: seq<A>, log: seq<A>, from: nat, to: nat)
    requires Window(ring, log, from) && from <= to <= |log|
    ensures Window(ring, log, to)
  {}

  /** Recording the next slot, packet or none. */
  lemma SkbPush(ring: seq<Option<nat>>, log: seq<Option<nat>>, from: nat, x: Option<nat>)
    requires Window(ring, log, from) && RestEmpty(ring, |log|, from) && |log| - from < |ring|
    ensures var ring' := ring[At(|log|, |ring|) := x];
      Window(ring', log + [x], from) && RestEmpty(ring', |log| + 1, from)
  {
    hide At;
    var n := |ring|;
    WindowPush(ring, log, from, x);
    forall i | |log| < i < from + n ensures At(i, n) != At(|log|, n) { NoCollision(|log|, i, n); }
  }

  lemma FirmwareAppend(a: seq<Desc>, b: seq<Desc>)
    requires AllFirmware(a) && AllFirmware(b)
    ensures AllFirmware(a + b)
  {}

  /** The producer's slot may hold anything. */
  lemma SkbStale(ring: seq<Option<nat>>, log: seq<Option<nat>>, from: nat, x: Option<nat>)
    requires Window(ring, log, from) && RestEmpty(ring, |log|, from) && |log| - from < |ring|
    ensures var ring' := ring[At(|log|, |ring|) := x];
      Window(ring', log, from) && RestEmpty(ring', |log|, from)
  {
    hide At;
    var n := |ring|;
    forall i | from <= i < from + n && i != |log| ensures At(i, n) != At(|log|, n) {
      if i < |log| { NoCollision(i, |log|, n); } else { NoCollision(|log|, i, n); }
    }
  }

  /** A packet of `m` descriptors records itself once and leaves the other slots empty. */
  lemma SkbPacket(ring: seq<Option<nat>>, log: seq<Option<nat>>, from: nat, x: Option<nat>, m: nat)
    requires Window(ring, log, from) && RestEmpty(ring, |log|, from) && m > 0 && |log| + m <= from + |ring|
    requires ring[At(|log|, |ring|)] == x
    ensures Window(ring, log + ([x] + NoSkbs(m - 1)), from) && RestEmpty(ring, |log| + m, from)
  {
    hide At;
  }

  /** An intact longer log includes an intact shorter one. */
  lemma Behind<A>(ring: seq<A>, log: seq<A>, w: seq<A>, from: nat)
    requires Window(ring, log + w, from) && from <= |log|
    ensures Window(ring, log, from)
  {
    hide At;
    forall i | from <= i < |log| ensures ring[At(i, |ring|)] == log[i] { assert (log + w)[i] == log[i]; }
  }

  lemma PacketsAppendOne(log: seq<Option<nat>>, skb: nat, n: nat)
    ensures Packets(log + ([Some(skb)] + NoSkbs(n))) == Packets(log) + [skb]
  {
    var one := log + [Some(skb)];
    assert log + ([Some(skb)] + NoSkbs(n)) == one + NoSkbs(n);
    PacketsAppendNone(one, n);
    assert one[..|one| - 1] == log;
  }

  lemma PacketHasNoCommands(skb: nat, f: nat, bufs: seq<Buf>, headers: nat)
    ensures Commands(PacketDescs(skb, f, bufs) + HeaderDescs(skb, headers)) == []
  {
    NoCommands(PacketDescs(skb, f, bufs) + HeaderDescs(skb, headers));
  }

  lemma FirmwareParts(queue: seq<Desc>, w: seq<Desc>, b: seq<Desc>, rest: seq<Desc>)
    requires queue == w + (b + rest)
    ensures queue == (w + b) + rest
  {}

  lemma FirmwareSplit(queue: seq<Desc>, w: seq<Desc>, rest: seq<Desc>)
    requires AllFirmware(queue) && queue == w + rest
    ensures AllFirmware(w) && AllFirmware(rest)
  {
    forall i | 0 <= i < |rest| ensures rest[i].Firmware? { assert queue[|w| + i] == rest[i]; }
    forall i | 0 <= i < |w| ensures w[i].Firmware? { assert queue[i] == w[i]; }
  }

  // ----- filling in a packet's buffers -----

  function SetSlot(d: Desc, k: nat, b: Buf): Desc
    requires k < 4
  {
    if d.Head? || d.More? then d.(slots := d.slots.Set(k, b)) else d
  }

  /** The first `i` buffers are in the ring; `producer` is the slot of the descriptor in hand. */
  ghost predicate Filling(ring: seq<Desc>, log: seq<Desc>, skb: nat, bufs: seq<Buf>, i: nat, from: nat, producer: nat) {
    && 0 < i <= |bufs| && |ring| > 0
    && |log| + DescCount(|bufs|) < from + |ring| && from <= |log|
    && producer == At(|log| + DescCount(i) - 1, |ring|)
    && Window(ring, log + PacketDescs(skb, |bufs|, bufs[..i]), from)
  }

  lemma HeaderStep(ring: seq<Desc>, log: seq<Desc>, w: seq<Desc>, skb: nat, i: nat, from: nat, to: nat, producer: nat)
    requires Window(ring, log + (w + HeaderDescs(skb, i)), from) && from <= to <= |log|
    requires |log| + |w| + i < to + |ring| && |ring| > 0 && producer == At(|log| + |w| + i, |ring|)
    ensures var ring' := ring[producer := Headers(skb, i)];
      && Window(ring', log + (w + HeaderDescs(skb, i + 1)), to) && Window(ring', log, to)
    ensures Next(producer, |ring|) == At(|log| + |w| + (i + 1), |ring|)
  {
    hide At, Window;
    var longer := log + (w + HeaderDescs(skb, i));
    assert longer + [Headers(skb, i)] == log + (w + HeaderDescs(skb, i + 1));
    WindowShrink(ring, longer, from, to);
    WindowPush(ring, longer, to, Headers(skb, i));
    NextIsSuccessor(|longer|, |ring|);
    Behind(ring[producer := Headers(skb, i)], log, w + HeaderDescs(skb, i + 1), to);
  }

  /** The card and reclaim only free what is behind the packet. */
  lemma FillingShrinks(ring: seq<Desc>, log: seq<Desc>, skb: nat, bufs: seq<Buf>, i: nat, from: nat, to: nat, producer: nat)
    requires Filling(ring, log, skb, bufs, i, from, producer) && from <= to <= |log|
    ensures Filling(ring, log, skb, bufs, i, to, producer)
  {
    hide At, PacketDescs;
  }

  /** Clearing the next descriptor, before the packet has a buffer for it. */
  lemma ClearNext(ring: seq<Desc>, log: seq<Desc>, skb: nat, bufs: seq<Buf>, i: nat, from: nat, producer: nat)
    requires Filling(ring, log, skb, bufs, i, from, producer) && i < |bufs| && i % 4 == 0
    ensures Next(producer, |ring|) < |ring|
    ensures var ring' := ring[Next(producer, |ring|) := More(EMPTY)];
      Filling(ring', log, skb, bufs, i, from, producer) && Window(ring', log, from)
  {
    hide At, Window, PacketDescs;
    var w := PacketDescs(skb, |bufs|, bufs[..i]);
    assert |w| == DescCount(i);
    NextIsSuccessor(|log| + |w| - 1, |ring|);
    WindowPush(ring, log + w, from, More(EMPTY));
    var ring' := ring[Next(producer, |ring|) := More(EMPTY)];
    Behind(ring', log + w, [More(EMPTY)], from);
    Behind(ring', log, w, from);
  }

  lemma FirstStep(ring: seq<Desc>, log: seq<Desc>, skb: nat, bufs: seq<Buf>, from: nat)
    requires bufs != [] && Window(ring, log, from) && from <= |log| && |log| + DescCount(|bufs|) < from + |ring|
    ensures Window(ring[At(|log|, |ring|) := More(EMPTY)], log, from)
    ensures var ring' := ring[At(|log|, |ring|) := Head(skb, |bufs|, EMPTY.Set(0, bufs[0]))];
      Filling(ring', log, skb, bufs, 1, from, At(|log|, |ring|)) && Window(ring', log, from)
  {
    hide At, Window, PacketDescs;
    WindowPush(ring, log, from, More(EMPTY));
    Behind(ring[At(|log|, |ring|) := More(EMPTY)], log, [More(EMPTY)], from);
    var d := Head(skb, |bufs|, EMPTY.Set(0, bufs[0]));
    FirstBuffer(skb, |bufs|, bufs);
    WindowPush(ring, log, from, d);
    Behind(ring[At(|log|, |ring|) := d], log, [d], from);
  }

  lemma FillingIsWindow(ring: seq<Desc>, log: seq<Desc>, skb: nat, bufs: seq<Buf>, i: nat, from: nat, producer: nat)
    requires Filling(ring, log, skb, bufs, i, from, producer)
    ensures Window(ring, log, from) && producer < |ring|
  {
    hide At, Window, PacketDescs;
    Behind(ring, log, PacketDescs(skb, |bufs|, bufs[..i]), from);
  }

  lemma FilledIsPacket(ring: seq<Desc>, log: seq<Desc>, skb: nat, bufs: seq<Buf>, from: nat, producer: nat)
    requires Filling(ring, log, skb, bufs, |bufs|, from, producer)
    ensures Next(producer, |ring|) == At(|log| + DescCount(|bufs|), |ring|)
    ensures Window(ring, log + PacketDescs(skb, |bufs|, bufs), from)
  {
    hide At, Window, PacketDescs;
    assert bufs[..|bufs|] == bufs;
    NextIsSuccessor(|log| + DescCount(|bufs|) - 1, |ring|);
  }

  /** The ring after buffer `b`, number `i` of the packet, has been filled in. */
  function AfterFill(ring: seq<Desc>, i: nat, producer: nat, b: Buf): seq<Desc>
    requires producer < |ring| && (i % 4 == 0 ==> Next(producer, |ring|) < |ring|)
  {
    if i % 4 == 0 then ring[Next(producer, |ring|) := SetSlot(More(EMPTY), 0, b)]
    else ring[producer := SetSlot(ring[producer], i % 4, b)]
  }

  lemma FillStep(ring: seq<Desc>, log: seq<Desc>, skb: nat, bufs: seq<Buf>, i: nat, from: nat, producer: nat)
    requires Filling(ring, log, skb, bufs, i, from, producer) && i < |bufs|
    ensures producer < |ring| && (i % 4 == 0 ==> Next(producer, |ring|) < |ring|)
    ensures var ring' := AfterFill(ring, i, producer, bufs[i]);
      var producer' := if i % 4 == 0 then Next(producer, |ring|) else producer;
      Filling(ring', log, skb, bufs, i + 1, from, producer') && Window(ring', log, from)
  {
    hide At, Window, PacketDescs;
    var n, f := |ring|, |bufs|;
    var w := PacketDescs(skb, f, bufs[..i]);
    assert |w| == DescCount(i);
    NextBuffer(skb, f, bufs, i);
    NextIsSuccessor(|log| + |w| - 1, n);
    if i % 4 == 0 {
      var d := More(EMPTY.Set(0, bufs[i]));
      WindowPush(ring, log + w, from, d);
      assert log + w + [d] == log + (w + [d]);
    } else {
      var last := |w| - 1;
      var d := SetSlot(w[last], i % 4, bufs[i]);
      WindowSetLast(ring, log + w, from, d);
      assert (log + w)[|log| + last := d] == log + w[last := d];
      assert (log + w)[|log| + last] == w[last];
    }
    FillingIsWindow(AfterFill(ring, i, producer, bufs[i]), log, skb, bufs, i + 1, from,
                    if i % 4 == 0 then Next(producer, n) else producer);
  }

  lemma WindowSetLast<A>(ring: seq<A>, log: seq<A>, from: nat, x: A)
    requires Window(ring, log, from) && from < |log|
    ensures ring[At(|log| - 1, |ring|)] == log[|log| - 1]
    ensures Window(ring[At(|log| - 1, |ring|) := x], log[|log| - 1 := x], from)
  {
    hide At;
    forall i | from <= i < |log| - 1 ensures At(i, |ring|) != At(|log| - 1, |ring|) { NoCollision(i, |log| - 1, |ring|); }
  }
}
