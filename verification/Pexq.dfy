/**
  The PexQ doorbell queue (nx_pexq.c): a transactional batch enqueue into a circular
  message buffer, with completion requests inserted on the way and the batch split into
  doorbells.  Specified against the stream of `PexqLayout`.

  The completion threshold `t` is a parameter; the buffer has 32t messages and at most 8t
  may be pending, as nx_pexq.h derives them, where it is a power of two.  The spin lock makes
  every method atomic.
 */
module Pexq {
  import opened Bits
  import opened Circular
  import opened PexqLayout

  const MAX_PEXQ_DBELL := 4
  const MAX_MSGS_PER_DBELL := 255

  /** One doorbell write: first message slot and number of messages (8 bits in the word). */
  datatype Doorbell = Doorbell(slot: nat, count: nat)

  /** Success, or which of the three checks sent the caller to `failure`. */
  datatype Outcome = Success | NoFreeSlot | TooManyPending | TooManyDoorbells

  /**
    The doorbells announce positions `from` to `to` once, in order, in runs of 1 to 255
    messages that do not cross the end of the buffer.
   */
  ghost predicate Announce(bells: seq<Doorbell>, from: nat, to: nat, n: nat)
    requires n > 0
  {
    if bells == [] then from == to
    else
      var b := bells[|bells| - 1];
      && 1 <= b.count <= MAX_MSGS_PER_DBELL
      && from <= to - b.count
      && b.slot == At(to - b.count, n)
      && b.slot + b.count <= n
      && Announce(bells[..|bells| - 1], from, to - b.count, n)
  }

  lemma {:induction false} AnnounceAppend(a: seq<Doorbell>, b: seq<Doorbell>, from: nat, mid: nat, to: nat, n: nat)
    requires n > 0 && Announce(a, from, mid, n) && Announce(b, mid, to, n)
    ensures from <= to && Announce(a + b, from, to, n)
    decreases |b|
  {
    if b == [] {
      assert a + b == a;
      AnnounceForward(a, from, mid, n);
    } else {
      var last := b[|b| - 1];
      AnnounceAppend(a, b[..|b| - 1], from, mid, to - last.count, n);
      assert (a + b)[..|a + b| - 1] == a + b[..|b| - 1];
    }
  }

  lemma {:induction false} AnnounceForward(a: seq<Doorbell>, from: nat, to: nat, n: nat)
    requires n > 0 && Announce(a, from, to, n)
    ensures from <= to
  {}

  /** A doorbell the loop closes itself: it is full, or ends where the buffer does. */
  predicate Closed(b: Doorbell, n: nat) { b.count == 255 || b.slot + b.count == n }

  /** No doorbell could have taken one message more, but for the last. */
  predicate Tight(bells: seq<Doorbell>, n: nat) { forall i | 0 <= i < |bells| - 1 :: Closed(bells[i], n) }

  class PexqDbell<M> {
    const t: nat
    var qbuf: array<Slot<M>>
    var newIdx: nat
    var complIdx: nat
    var freeCnt: int
    var pendingCnt: int
    /** The host word the card's DMA writes. */
    var complIn: nat
    /** Doorbell register writes so far. */
    var bells: seq<Doorbell>

    /** Every message ever rung, by absolute position. */
    ghost var stream: seq<Slot<M>>
    /** Every user message of every accepted batch. */
    ghost var accepted: seq<M>
    /** Completions the driver has noticed, and completions the card has published. */
    ghost var done: nat
    ghost var published: nat

    ghost predicate Valid()
      reads this, qbuf
    {
      && t >= 2 && IsPow2(t)
      && qbuf.Length == BufMsgs(t)
      && done <= published <= |stream|
      && done % t == 0 && published % t == 0
      // new_idx = (compl_idx + pending) mod N, free + pending = N
      && newIdx == At(|stream|, BufMsgs(t))
      && complIdx == At(done, BufMsgs(t))
      && complIn == At(published, BufMsgs(t))
      && pendingCnt == |stream| - done < MaxPending(t)
      && freeCnt == BufMsgs(t) - pendingCnt
      // the pending slots still hold what was rung, in phase
      && Window(qbuf[..], stream, done)
      && InPhase(stream, 0, t)
      && Users(stream) == accepted
      && Announce(bells, 0, |stream|, BufMsgs(t))
    }

    constructor (t: nat, blank: Slot<M>)
      requires t >= 2 && IsPow2(t)
      ensures Valid() && fresh(qbuf) && this.t == t
      ensures stream == [] && accepted == [] && bells == []
    {
      this.t := t;
      qbuf := new Slot<M>[BufMsgs(t)](_ => blank);
      newIdx, complIdx, complIn := 0, 0, 0;
      freeCnt, pendingCnt := BufMsgs(t), 0;
      bells, stream, accepted, done, published := [], [], [], 0, 0;
    }

    /**
      The card.  It consumes in order and publishes only what a rung sync asked for, so the
      published position is the one after some sync beyond the last published position.
     */
    method CardPublish(idx: nat, ghost sync: nat)
      requires Valid()
      requires published <= sync < |stream| && stream[sync] == Sync(idx)
      modifies this`complIn, this`published
      ensures Valid() && published == sync + 1
    {
      assert SlotInPhase(stream[sync], 0 + sync, t);
      DivModStep(sync, t);
      complIn := idx;
      published := sync + 1;
    }

    /** pexq_update_pending_doorbell: true when completions were taken over. */
    method UpdatePending() returns (moved: bool)
      requires Valid()
      modifies this`complIdx, this`pendingCnt, this`freeCnt, this`done
      ensures Valid() && done == published
      ensures moved == (old(done) < published)
    {
      SlotDistance(done, published, BufMsgs(t));
      if complIn == complIdx {
        return false;
      }
      var cnt: int := complIn - complIdx;
      if complIn < complIdx {
        cnt := cnt + BufMsgs(t);
      }
      complIdx := complIn;
      pendingCnt := pendingCnt - cnt;
      freeCnt := freeCnt + cnt;
      done := published;
      return true;
    }

    /**
      nx_schedule_pexqdb.  All of the batch is rung or nothing is; and it is refused
      exactly when the published completions leave no room for it, or when it would need a fifth
      doorbell, which thresholds up to 95 exclude.
     */
    method Schedule(userMsgs: seq<M>) returns (outcome: Outcome)
      requires Valid()
      modifies this, qbuf
      ensures Valid() && qbuf == old(qbuf)
      ensures done == published == old(published)
      ensures outcome.Success? ==>
        && accepted == old(accepted) + userMsgs
        && stream == old(stream) + Layout(|old(stream)|, userMsgs, t)
        && exists rung :: bells == old(bells) + rung && Tight(rung, BufMsgs(t))
                          && Announce(rung, |old(stream)|, |stream|, BufMsgs(t))
      ensures !outcome.Success? ==>
        accepted == old(accepted) && stream == old(stream) && bells == old(bells)
      ensures outcome.Success? <==>
        Fits(|old(stream)|, published, |userMsgs|, t) && DoorbellsSuffice(|old(stream)|, |userMsgs|, t)
      ensures t <= 95 ==> (outcome.Success? <==> Fits(|old(stream)|, published, |userMsgs|, t))
      ensures 11 <= t <= 95 ==> outcome.Success? || outcome.TooManyPending?
    {
      var _ := UpdatePending();
      hide At, SyncAt, Layout, Window, InPhase, Users, Announce, Tight, IsPow2, Closings, Fits, DoorbellsSuffice;
      AdmittedMeans(|stream|, published, userMsgs, t);
      var msgIdx, localFree, localPending, log;
      outcome, msgIdx, localFree, localPending, log := Prepare(userMsgs);
      if outcome.Success? {
        ghost var before := bells;
        Commit(userMsgs, msgIdx, localFree, localPending, log);
        assert bells == before + log;
      }
    }

    /** The end of nx_schedule_pexqdb: take over the local copies and ring the doorbells. */
    method Commit(ghost userMsgs: seq<M>, msgIdx: nat, localFree: int, localPending: int, log: seq<Doorbell>)
      requires Valid()
      requires var w, n := Layout(|stream|, userMsgs, t), BufMsgs(t);
        && Window(qbuf[..], stream + w, done) && Announce(log, |stream|, |stream| + |w|, n)
        && msgIdx == At(|stream| + |w|, n)
        && localPending == pendingCnt + |w| < MaxPending(t) && localFree == n - localPending
      modifies this`newIdx, this`freeCnt, this`pendingCnt, this`bells, this`stream, this`accepted
      ensures Valid() && accepted == old(accepted) + userMsgs
      ensures stream == old(stream) + Layout(|old(stream)|, userMsgs, t)
      ensures bells == old(bells) + log
    {
      hide At, SyncAt, Layout, Window, InPhase, Users, Announce;
      ghost var h, w := |stream|, Layout(|stream|, userMsgs, t);
      LayoutCarriesBatch(h, userMsgs, t);
      AnnounceAppend(bells, log, 0, h, h + |w|, BufMsgs(t));
      UsersAppend(stream, w);
      InPhaseConcat(stream, w, t);
      newIdx, freeCnt, pendingCnt := msgIdx, localFree, localPending;
      bells := bells + log;
      stream := stream + w;
      accepted := accepted + userMsgs;
    }

    /** The write of the enqueue loop: a sync when one is due, else the next user message. */
    method PutMessage(msg: M, ghost rest: seq<M>, msgIdx: nat, localFree: int,
                      ghost whole: seq<Slot<M>>, ghost w: seq<Slot<M>>) returns (taken: bool)
      requires Valid() && rest != [] && msg == rest[0]
      requires Enqueued(qbuf[..], stream, done, whole, w, rest, t)
      requires var h := |stream| + |w|;
        msgIdx == At(h, BufMsgs(t)) && 0 <= localFree == BufMsgs(t) - (h - done) - 1
      modifies qbuf
      ensures var h := |stream| + |w|;
        && Enqueued(qbuf[..], stream, done, whole, w + [FirstSlot(h, rest, t)], AfterFirst(h, rest, t), t)
        && taken == !SyncPosition(h, t) && (!taken ==> !SyncPosition(h + 1, t))
    {
      hide AtThreshold, SyncPosition, At, IncrIdx, SyncAt, Layout, Window, InPhase, Users, Announce, AfterFirst;
      ghost var h := |stream| + |w|;
      FreeCountFindsPhase(h, done, t);
      EnqueueStep(qbuf[..], stream, done, whole, w, rest, t);
      SyncMsgIsNext<M>(h, t);
      if AtThreshold(localFree, t) {
        qbuf[msgIdx] := DmaSyncMsg(msgIdx, BufMsgs(t));
        taken := false;
      } else {
        qbuf[msgIdx] := User(msg);
        taken := true;
      }
    }

    /** The doorbell accounting of the enqueue loop, once message `k` of the batch is at `msgIdx`. */
    method LogMessage(msgIdx: nat, localPending: int, log: seq<Doorbell>, segStart: nat, inDbell: nat,
                      ghost h: nat, ghost k: nat)
      returns (outcome: Outcome, newMsgIdx: nat, log': seq<Doorbell>, segStart': nat, inDbell': nat)
      requires t >= 2 && msgIdx == At(h + k, BufMsgs(t)) && k < BufMsgs(t) && |log| < MAX_PEXQ_DBELL
      requires Logged(log, h, k, inDbell, segStart, BufMsgs(t))
      requires localPending - 1 - inDbell < MaxPending(t)
      ensures newMsgIdx == At(h + k + 1, BufMsgs(t))
      ensures outcome.Success? ==>
        && Logged(log', h, k + 1, inDbell', segStart', BufMsgs(t))
        && |log'| < MAX_PEXQ_DBELL && localPending - inDbell' < MaxPending(t)
      ensures outcome.TooManyPending? ==> localPending >= MaxPending(t)
      ensures outcome.TooManyDoorbells? ==>
        Closings(At(h, BufMsgs(t)), k + 1, BufMsgs(t)) == MAX_PEXQ_DBELL && localPending < MaxPending(t)
      ensures outcome != NoFreeSlot
    {
      hide At, IncrIdx, Announce;
      SyncMsgIsNext<M>(h + k, t);
      var n := BufMsgs(t);
      log', segStart', inDbell' := log, segStart, inDbell + 1;
      newMsgIdx := IncrIdx(msgIdx, 1, n);
      if newMsgIdx < msgIdx || inDbell' == MAX_MSGS_PER_DBELL {
        if localPending >= MaxPending(t) {
          outcome := TooManyPending;
          return;
        }
        LogClose(log, h, k, inDbell, segStart, n);
        log' := log + [Doorbell(segStart, inDbell')];
        segStart', inDbell' := newMsgIdx, 0;
        if |log'| == MAX_PEXQ_DBELL {
          outcome := TooManyDoorbells;
          return;
        }
      } else {
        LogExtend(log, h, k, inDbell, segStart, n);
      }
      outcome := Success;
    }

    /**
      The part of nx_schedule_pexqdb before it commits: write the messages into free slots
      and log the doorbells, working on local copies of the index and the counters.
     */
    method Prepare(userMsgs: seq<M>)
      returns (outcome: Outcome, msgIdx: nat, localFree: int, localPending: int, log: seq<Doorbell>)
      requires Valid() && done == published
      modifies qbuf
      ensures Window(qbuf[..], stream, done)
      ensures var w, n := Layout(|stream|, userMsgs, t), BufMsgs(t);
        && (outcome.Success? ==>
             && Window(qbuf[..], stream + w, done) && Announce(log, |stream|, |stream| + |w|, n) && Tight(log, n)
             && msgIdx == At(|stream| + |w|, n)
             && localPending == pendingCnt + |w| < MaxPending(t) && localFree == n - localPending)
        && (outcome.Success? <==>
             pendingCnt + |w| < MaxPending(t) && Closings(At(|stream|, n), |w|, n) < MAX_PEXQ_DBELL)
        && (11 <= t ==> outcome != NoFreeSlot)
        && (t <= 95 ==> outcome != TooManyDoorbells)
    {
      hide AtThreshold, SyncPosition, At, IncrIdx, SyncAt, Layout, Window, InPhase, Users, Announce, FirstSlot, Logged;
      hide IsPow2, Closings, Tight;
      var n := BufMsgs(t);
      msgIdx, localFree, localPending, log := newIdx, freeCnt, pendingCnt, [];
      var ii, inDbell: nat, segStart: nat := 0, 0, msgIdx;
      ghost var h: nat, w := |stream|, [];
      ghost var whole := Layout(h, userMsgs, t);
      EnqueueStart(qbuf[..], stream, done, userMsgs, t);
      LogStart(h, n);
      while ii < |userMsgs|
        invariant 0 <= ii <= |userMsgs|
        invariant localPending == pendingCnt + |w| && localFree == n - localPending >= 0
        invariant msgIdx == At(h + |w|, n)
        invariant Enqueued(qbuf[..], stream, done, whole, w, userMsgs[ii..], t)
        invariant Logged(log, h, |w|, inDbell, segStart, n)
        invariant localPending - inDbell < MaxPending(t) && |log| < MAX_PEXQ_DBELL
        modifies qbuf
        decreases |userMsgs| - ii, if SyncPosition(h + |w|, t) then 1 else 0
      {
        EnqueuedIsIntact(qbuf[..], stream, done, whole, w, userMsgs[ii..], t);
        LoggedMeans(log, h, |w|, inDbell, segStart, n);
        if localFree == 0 {
          return NoFreeSlot, msgIdx, localFree, localPending, log;
        }
        localFree := localFree - 1;
        ghost var rest := userMsgs[ii..];
        var taken := PutMessage(userMsgs[ii], rest, msgIdx, localFree, whole, w);
        ghost var first := FirstSlot(h + |w|, rest, t);
        ii := if taken then ii + 1 else ii;
        assert userMsgs[ii..] == AfterFirst(h + |w|, rest, t);
        ghost var k := |w|;
        w := w + [first];
        EnqueuedIsIntact(qbuf[..], stream, done, whole, w, userMsgs[ii..], t);
        localPending := localPending + 1;
        outcome, msgIdx, log, segStart, inDbell := LogMessage(msgIdx, localPending, log, segStart, inDbell, h, k);
        if !outcome.Success? {
          if outcome.TooManyDoorbells? {
            MoreClosings(At(h, n), |w|, |whole|, n);
            if t <= 95 { FewClosings(At(h, n), |w|, n); }
          }
          return;
        }
      }
      EnqueuedIsIntact(qbuf[..], stream, done, whole, w, userMsgs[ii..], t);
      EnqueueEnd(qbuf[..], stream, done, whole, w, userMsgs[ii..], t);
      LoggedMeans(log, h, |w|, inDbell, segStart, n);
      if inDbell != 0 {
        if localPending >= MaxPending(t) {
          return TooManyPending, msgIdx, localFree, localPending, log;
        }
        LogFlush(log, h, |w|, inDbell, segStart, n);
        log := log + [Doorbell(segStart, inDbell)];
      }
      outcome := Success;
    }
  }

  // ----- the enqueue loop, one message at a time -----

  /** `w` has been written after `stream`, and `rest` is what the batch still has to add. */
  ghost predicate Enqueued<M>(ring: seq<Slot<M>>, stream: seq<Slot<M>>, done: nat,
                              whole: seq<Slot<M>>, w: seq<Slot<M>>, rest: seq<M>, t: nat)
  {
    && t >= 2 && |ring| == BufMsgs(t)
    && Window(ring, stream + w, done)
    && whole == w + Layout(|stream| + |w|, rest, t)
  }

  ghost function FirstSlot<M>(h: nat, rest: seq<M>, t: nat): Slot<M>
    requires t >= 2 && rest != []
  {
    if SyncPosition(h, t) then SyncAt(h, t) else User(rest[0])
  }

  lemma EnqueueStart<M>(ring: seq<Slot<M>>, stream: seq<Slot<M>>, done: nat, msgs: seq<M>, t: nat)
    requires t >= 2 && |ring| == BufMsgs(t) && Window(ring, stream, done)
    ensures Enqueued(ring, stream, done, Layout(|stream|, msgs, t), [], msgs[0..], t)
  {
    hide Window, Layout;
    assert stream + [] == stream && msgs[0..] == msgs;
    assert [] + Layout(|stream|, msgs, t) == Layout(|stream|, msgs, t);
  }

  /** At any point the batch can be abandoned: what was pending is untouched. */
  lemma EnqueuedIsIntact<M>(ring: seq<Slot<M>>, stream: seq<Slot<M>>, done: nat,
                            whole: seq<Slot<M>>, w: seq<Slot<M>>, rest: seq<M>, t: nat)
    requires Enqueued(ring, stream, done, whole, w, rest, t) && done <= |stream|
    ensures Window(ring, stream, done)
    ensures |whole| >= |w| && (rest != [] ==> |whole| > |w|)
  {
    hide SyncPosition, At, SyncAt;
    forall i | done <= i < |stream|
      ensures ring[At(i, |ring|)] == stream[i]
    {
      assert (stream + w)[i] == stream[i];
    }
  }

  ghost function AfterFirst<M>(h: nat, rest: seq<M>, t: nat): seq<M>
    requires t >= 2 && rest != []
  {
    if SyncPosition(h, t) then rest else rest[1..]
  }

  lemma LayoutStep<M>(h: nat, rest: seq<M>, t: nat)
    requires t >= 2 && rest != []
    ensures Layout(h, rest, t) == [FirstSlot(h, rest, t)] + Layout(h + 1, AfterFirst(h, rest, t), t)
    ensures SyncPosition(h, t) ==> !SyncPosition(h + 1, t)
  {
    hide SyncPosition, SyncAt;
    SyncPhase(h, t);
  }

  lemma EnqueueStep<M>(ring: seq<Slot<M>>, stream: seq<Slot<M>>, done: nat,
                       whole: seq<Slot<M>>, w: seq<Slot<M>>, rest: seq<M>, t: nat)
    requires Enqueued(ring, stream, done, whole, w, rest, t) && rest != []
    requires |stream| + |w| - done < |ring|
    ensures var h := |stream| + |w|; var x := FirstSlot(h, rest, t);
      && Enqueued(ring[At(h, |ring|) := x], stream, done, whole, w + [x], AfterFirst(h, rest, t), t)
      && (SyncPosition(h, t) ==> !SyncPosition(h + 1, t))
  {
    hide Window, SyncPosition, At, Layout, FirstSlot, AfterFirst, BufMsgs;
    var h := |stream| + |w|;
    var x := FirstSlot(h, rest, t);
    assert |stream + w| == h;
    WindowPush(ring, stream + w, done, x);
    assert stream + w + [x] == stream + (w + [x]);
    LayoutStep(h, rest, t);
    var tail := Layout(h + 1, AfterFirst(h, rest, t), t);
    assert w + ([x] + tail) == (w + [x]) + tail;
  }

  lemma EnqueueEnd<M>(ring: seq<Slot<M>>, stream: seq<Slot<M>>, done: nat,
                      whole: seq<Slot<M>>, w: seq<Slot<M>>, rest: seq<M>, t: nat)
    requires Enqueued(ring, stream, done, whole, w, rest, t) && rest == []
    ensures whole == w && Window(ring, stream + w, done)
  {
    hide Window;
    assert w + [] == w;
  }

  /** The sync the code builds from the slot index is the sync of the stream position. */
  lemma SyncMsgIsNext<M>(h: nat, t: nat)
    requires t >= 2
    ensures var n := BufMsgs(t);
      && IncrIdx(At(h, n), 1, n) == At(h + 1, n) == Next(At(h, n), n)
      && DmaSyncMsg<M>(At(h, n), n) == SyncAt<M>(h, t)
  {
    var n := BufMsgs(t);
    NextIsSuccessor(h, n);
    if At(h, n) + 1 == n { DivModIs(n, n, 1, 0); } else { DivModIs(At(h, n) + 1, n, 0, At(h, n) + 1); }
  }

  // ----- the doorbell log -----

  /**
    After `k` messages, `log` announces all but the last `inDbell` of them, and those sit
    together from `segStart`.
   */
  ghost predicate Logged(log: seq<Doorbell>, h: nat, k: nat, inDbell: nat, segStart: nat, n: nat)
    requires n > 0
  {
    && inDbell < MAX_MSGS_PER_DBELL && inDbell <= k <= n
    && segStart + inDbell == At(h + k, n)
    && Announce(log, h, h + k - inDbell, n)
    && |log| == Closings(At(h, n), k, n) && inDbell == OpenCount(At(h, n), k, n)
    && forall i | 0 <= i < |log| :: Closed(log[i], n)
  }

  lemma LoggedMeans(log: seq<Doorbell>, h: nat, k: nat, inDbell: nat, segStart: nat, n: nat)
    requires n > 0 && Logged(log, h, k, inDbell, segStart, n)
    ensures inDbell < MAX_MSGS_PER_DBELL && inDbell <= k <= n
    ensures inDbell == 0 ==> Announce(log, h, h + k, n) && Tight(log, n)
    ensures |log| == Closings(At(h, n), k, n)
  {}

  lemma SlotFrom(h: nat, k: nat, n: nat)
    requires 0 < n && k < n
    ensures At(h + k, n) == if At(h, n) + k < n then At(h, n) + k else At(h, n) + k - n
  {
    var s, q := At(h, n), h / n;
    if s + k < n { DivModIs(h + k, n, q, s + k); } else { DivModIs(h + k, n, q + 1, s + k - n); }
  }

  lemma LogStart(h: nat, n: nat)
    requires n > 0
    ensures Logged([], h, 0, 0, At(h, n), n)
  {}

  lemma LogExtend(log: seq<Doorbell>, h: nat, k: nat, inDbell: nat, segStart: nat, n: nat)
    requires n >= 2 && Logged(log, h, k, inDbell, segStart, n) && k < n
    requires Next(At(h + k, n), n) != 0 && inDbell + 1 < MAX_MSGS_PER_DBELL
    ensures Logged(log, h, k + 1, inDbell + 1, segStart, n)
  {
    hide At, Announce, Closings, OpenCount;
    NextIsSuccessor(h + k, n);
    SlotFrom(h, k, n);
    ClosingStep(At(h, n), k, n);
    assert h + k + 1 == h + (k + 1);
  }

  lemma LogClose(log: seq<Doorbell>, h: nat, k: nat, inDbell: nat, segStart: nat, n: nat)
    requires n >= 2 && Logged(log, h, k, inDbell, segStart, n) && k < n
    requires Next(At(h + k, n), n) == 0 || inDbell + 1 == MAX_MSGS_PER_DBELL
    ensures Logged(log + [Doorbell(segStart, inDbell + 1)], h, k + 1, 0, At(h + k + 1, n), n)
  {
    hide At, Closings, OpenCount;
    NextIsSuccessor(h + k, n);
    SlotFrom(h, k, n);
    ClosingStep(At(h, n), k, n);
    assert h + k + 1 == h + (k + 1);
    SegmentStart(h + k, inDbell, segStart, n);
    var log' := log + [Doorbell(segStart, inDbell + 1)];
    assert log'[..|log'| - 1] == log;
    assert Announce(log', h, h + k + 1, n);
  }

  lemma LogFlush(log: seq<Doorbell>, h: nat, k: nat, inDbell: nat, segStart: nat, n: nat)
    requires n >= 2 && Logged(log, h, k, inDbell, segStart, n) && inDbell > 0
    ensures Announce(log + [Doorbell(segStart, inDbell)], h, h + k, n) && Tight(log + [Doorbell(segStart, inDbell)], n)
  {
    hide At;
    SegmentStart(h + k, inDbell, segStart, n);
    var log' := log + [Doorbell(segStart, inDbell)];
    assert log'[..|log'| - 1] == log;
    AnnounceForward(log, h, h + k - inDbell, n);
  }

  lemma SegmentStart(i: nat, back: nat, start: nat, n: nat)
    requires n > 0 && back <= i && start + back == At(i, n)
    ensures At(i - back, n) == start
  {
    DivModIs(i - back, n, i / n, start);
  }
}
