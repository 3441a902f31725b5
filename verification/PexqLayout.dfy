/**
  What the PexQ message stream looks like, stated without reference to the enqueue loop.

  The driver never numbers its messages; it decides from a free counter when to insert a
  completion request ("sync").  Here the stream is described by absolute positions: the
  threshold `t` alone decides which positions are syncs, and user message number `u` of the
  whole run of the driver always lives at position `Pos(u, t)`.
 */
module PexqLayout {
  import opened Bits
  import opened Circular

  /** One 64-byte queue message: a caller's message, or a request to publish an index. */
  datatype Slot<M> = User(msg: M) | Sync(publish: nat)

  /** NX_PEXQ_DBELL_MAX_PENDING and NX_PEXQ_DBELL_BUF_QMSGS in terms of the threshold. */
  function MaxPending(t: nat): nat { 8 * t }

  function BufMsgs(t: nat): nat { 4 * MaxPending(t) }

  /** NX_PEXQ_DBELL_INCR_IDX. */
  function IncrIdx(x: nat, y: nat, n: nat): nat
    requires n > 0
  {
    (x + y) % n
  }

  /** form_dma_sync_msg for the message slot `idx`: ask the card to publish the next index. */
  function DmaSyncMsg<M>(idx: nat, n: nat): Slot<M>
    requires n > 0
  {
    Sync(IncrIdx(idx, 1, n))
  }

  /** The enqueue loop's mask test on the free counter. */
  predicate AtThreshold(free: nat, t: nat)
    requires t > 0
  {
    BitAnd(free, t - 1) == 0
  }

  predicate SyncPosition(i: nat, t: nat)
    requires t > 0
  {
    i % t == t - 1
  }

  /** The sync at stream position `i` asks for the index of position `i + 1`. */
  function SyncAt<M>(i: nat, t: nat): Slot<M>
    requires t > 0
  {
    Sync(At(i + 1, BufMsgs(t)))
  }

  /** The stream positions taken by `msgs` when enqueuing starts at position `h`. */
  function Layout<M>(h: nat, msgs: seq<M>, t: nat): (r: seq<Slot<M>>)
    requires t >= 2
    decreases |msgs|, if SyncPosition(h, t) then 1 else 0
  {
    if msgs == [] then []
    else if SyncPosition(h, t) then
      SyncPhase(h, t);
      [SyncAt(h, t)] + Layout(h + 1, msgs, t)
    else [User(msgs[0])] + Layout(h + 1, msgs[1..], t)
  }

  /** The user messages of a stream, in order. */
  function Users<M>(s: seq<Slot<M>>): seq<M> {
    if s == [] then []
    else Users(s[..|s| - 1]) + match s[|s| - 1] case User(m) => [m] case Sync(_) => []
  }

  /** Syncs sit exactly at the sync positions and name the position after their own. */
  ghost predicate InPhase<M>(s: seq<Slot<M>>, from: nat, t: nat)
    requires t >= 2
  {
    forall i | 0 <= i < |s| :: SlotInPhase(s[i], from + i, t)
  }

  ghost predicate SlotInPhase<M>(slot: Slot<M>, position: nat, t: nat)
    requires t >= 2
  {
    if SyncPosition(position, t) then slot == SyncAt<M>(position, t) else slot.User?
  }

  /** User messages before position `i`, and the position of user message number `u`. */
  function UsersBefore(i: nat, t: nat): nat
    requires t >= 2
  {
    i - i / t
  }

  function Pos(u: nat, t: nat): nat
    requires t >= 2
  {
    u + u / (t - 1)
  }

  /** Ring slots a batch of `m` messages needs when the stream has length `h`. */
  function SlotsNeeded(h: nat, m: nat, t: nat): int
    requires t >= 2
  {
    if m == 0 then 0 else Pos(UsersBefore(h, t) + m - 1, t) + 1 - h
  }

  // ----- arithmetic of the phase -----

  lemma SyncPhase(h: nat, t: nat)
    requires t >= 2
    ensures SyncPosition(h, t) ==> (h + 1) % t == 0 && (h + 1) / t == h / t + 1 && !SyncPosition(h + 1, t)
    ensures !SyncPosition(h, t) ==> (h + 1) % t == h % t + 1 && (h + 1) / t == h / t
  {
    DivModStep(h, t);
  }

  /** The free counter finds the sync positions: the test the enqueue loop really makes. */
  lemma FreeCountFindsPhase(h: nat, done: nat, t: nat)
    requires t >= 2 && IsPow2(t) && done % t == 0 && done <= h < done + BufMsgs(t)
    ensures AtThreshold(BufMsgs(t) - (h - done) - 1, t) <==> SyncPosition(h, t)
  {
    var free := BufMsgs(t) - (h - done) - 1;
    MaskIsRemainder(free, t);
    FreeRemainder(h, done, t);
  }

  lemma FreeRemainder(h: nat, done: nat, t: nat)
    requires t >= 2 && done % t == 0 && done <= h < done + BufMsgs(t)
    ensures (BufMsgs(t) - (h - done) - 1) % t == 0 <==> SyncPosition(h, t)
  {
    var free := BufMsgs(t) - (h - done) - 1;
    var q, r := h / t, h % t;
    assert h == q * t + r && done == (done / t) * t;
    assert free == (31 + done / t - q) * t + (t - 1 - r);
    DivModIs(free, t, 31 + done / t - q, t - 1 - r);
  }

  // ----- the layout -----

  lemma {:induction false} UsersAppend<M>(a: seq<Slot<M>>, b: seq<Slot<M>>)
    ensures Users(a + b) == Users(a) + Users(b)
  {
    if b == [] {
      assert a + b == a;
    } else {
      var c := b[..|b| - 1];
      UsersAppend(a, c);
      assert (a + b)[..|a + b| - 1] == a + c;
    }
  }

  /** Nothing is lost, added or reordered, and the syncs are where the phase says. */
  lemma {:induction false} LayoutCarriesBatch<M>(h: nat, msgs: seq<M>, t: nat)
    requires t >= 2
    ensures Users(Layout(h, msgs, t)) == msgs
    ensures InPhase(Layout(h, msgs, t), h, t)
    decreases |msgs|, if SyncPosition(h, t) then 1 else 0
  {
    if msgs != [] {
      SyncPhase(h, t);
      var rest := if SyncPosition(h, t) then msgs else msgs[1..];
      var first: Slot<M> := if SyncPosition(h, t) then SyncAt(h, t) else User(msgs[0]);
      LayoutCarriesBatch(h + 1, rest, t);
      var tail := Layout(h + 1, rest, t);
      assert Layout(h, msgs, t) == [first] + tail;
      UsersAppend([first], tail);
      assert Users([first]) == match first case User(m) => [m] case Sync(_) => [] by {
        assert [first][..0] == [];
      }
      InPhaseCons(first, tail, h, t);
    }
  }

  lemma InPhaseCons<M>(first: Slot<M>, tail: seq<Slot<M>>, h: nat, t: nat)
    requires t >= 2 && SlotInPhase(first, h, t) && InPhase(tail, h + 1, t)
    ensures InPhase([first] + tail, h, t)
  {
    hide SlotInPhase, BufMsgs;
    var s := [first] + tail;
    forall i | 0 <= i < |s|
      ensures SlotInPhase(s[i], h + i, t)
    {
      if i > 0 { assert SlotInPhase(tail[i - 1], h + 1 + (i - 1), t); }
    }
  }

  lemma InPhaseConcat<M>(a: seq<Slot<M>>, b: seq<Slot<M>>, t: nat)
    requires t >= 2 && InPhase(a, 0, t) && InPhase(b, |a|, t)
    ensures InPhase(a + b, 0, t)
  {
    hide SlotInPhase, BufMsgs;
    forall i | 0 <= i < |a + b|
      ensures SlotInPhase((a + b)[i], 0 + i, t)
    {
      if i < |a| {
        assert SlotInPhase(a[i], 0 + i, t);
      } else {
        assert SlotInPhase(b[i - |a|], |a| + (i - |a|), t);
      }
    }
  }

  lemma UsersBeforeStart(t: nat)
    requires t >= 2
    ensures UsersBefore(0, t) == 0
  {
    DivModIs(0, t, 0, 0);
  }

  lemma UsersBeforeStep(h: nat, t: nat)
    requires t >= 2
    ensures SyncPosition(h, t) ==> UsersBefore(h + 1, t) == UsersBefore(h, t)
    ensures !SyncPosition(h, t) ==> UsersBefore(h + 1, t) == UsersBefore(h, t) + 1
    ensures !SyncPosition(h, t) ==> Pos(UsersBefore(h, t), t) == h
  {
    SyncPhase(h, t);
    QuotientBelow(h, t);
    QuotientBelow(h + 1, t);
    if !SyncPosition(h, t) {
      var q, r := h / t, h % t;
      assert h - q == q * (t - 1) + r;
      DivModIs(h - q, t - 1, q, r);
    }
  }

  lemma QuotientBelow(h: nat, t: nat)
    requires t >= 1
    ensures h / t <= h
  {}

  /** Closed form of the space a batch takes. */
  lemma {:induction false} LayoutLength<M>(h: nat, msgs: seq<M>, t: nat)
    requires t >= 2
    ensures |Layout(h, msgs, t)| == SlotsNeeded(h, |msgs|, t)
    decreases |msgs|, if SyncPosition(h, t) then 1 else 0
  {
    hide SyncPosition, SlotsNeeded;
    if msgs == [] {
      NothingNeeded(h, t);
    } else {
      SyncPhase(h, t);
      SlotsNeededStep(h, |msgs|, t);
      LayoutLength(h + 1, if SyncPosition(h, t) then msgs else msgs[1..], t);
    }
  }

  lemma NothingNeeded(h: nat, t: nat)
    requires t >= 2
    ensures SlotsNeeded(h, 0, t) == 0
  {}

  lemma SlotsNeededStep(h: nat, m: nat, t: nat)
    requires t >= 2 && m > 0
    ensures SlotsNeeded(h, m, t) == 1 + if SyncPosition(h, t) then SlotsNeeded(h + 1, m, t) else SlotsNeeded(h + 1, m - 1, t)
  {
    hide Pos, UsersBefore, SyncPosition;
    UsersBeforeStep(h, t);
  }

  /** Random access: user message number `u` of the whole stream lives at `Pos(u, t)`. */
  lemma {:induction false} UserAtPosition<M>(s: seq<Slot<M>>, u: nat, t: nat)
    requires t >= 2 && InPhase(s, 0, t) && u < |Users(s)|
    ensures Pos(u, t) < |s| && s[Pos(u, t)] == User(Users(s)[u])
  {
    hide Pos, UsersBefore, SyncPosition, BufMsgs, At;
    var h := |s| - 1;
    assert SlotInPhase(s[h], 0 + h, t);
    UsersBeforeStep(h, t);
    UserCount(s[..h], t);
    if u < |Users(s[..h])| {
      UserAtPosition(s[..h], u, t);
    }
  }

  lemma {:induction false} UserCount<M>(s: seq<Slot<M>>, t: nat)
    requires t >= 2 && InPhase(s, 0, t)
    ensures |Users(s)| == UsersBefore(|s|, t)
  {
    hide Pos, UsersBefore, SyncPosition, BufMsgs, At;
    if s == [] {
      UsersBeforeStart(t);
    } else {
      var h := |s| - 1;
      UserCount(s[..h], t);
      UsersBeforeStep(h, t);
      assert SlotInPhase(s[h], 0 + h, t);
    }
  }

  // ----- flow control -----

  /** The admission rule, in terms of what the card has completed. */
  predicate Fits(h: nat, done: nat, m: nat, t: nat)
    requires t >= 2
  {
    h - done + SlotsNeeded(h, m, t) < MaxPending(t)
  }

  /**
    How many doorbells the loop closes while it writes `k` messages from slot `s`: one at the end
    of the buffer, and one for every 255 messages on either side of it.
   */
  function Closings(s: nat, k: int, n: nat): int {
    if s + k < n then k / 255 else (n - s + 254) / 255 + (s + k - n) / 255
  }

  /** The messages of the doorbell that is still open then. */
  function OpenCount(s: nat, k: int, n: nat): int { if s + k < n then k % 255 else (s + k - n) % 255 }

  /** The log of four doorbells is long enough: its last entry is never closed inside the loop. */
  predicate DoorbellsSuffice(h: nat, m: nat, t: nat)
    requires t >= 2
  {
    Closings(At(h, BufMsgs(t)), SlotsNeeded(h, m, t), BufMsgs(t)) < 4
  }

  lemma ClosingStep(s: nat, k: nat, n: nat)
    requires s < n && k < n
    ensures var slot := if s + k < n then s + k else s + k - n;
      if Next(slot, n) == 0 || OpenCount(s, k, n) == 254
      then Closings(s, k + 1, n) == Closings(s, k, n) + 1 && OpenCount(s, k + 1, n) == 0
      else Closings(s, k + 1, n) == Closings(s, k, n) && OpenCount(s, k + 1, n) == OpenCount(s, k, n) + 1
  {}

  lemma MoreClosings(s: nat, k: nat, k': nat, n: nat)
    requires s < n && k <= k'
    ensures Closings(s, k, n) <= Closings(s, k', n)
  {}

  /** With thresholds up to 95 four doorbells are enough for every batch that fits. */
  lemma FourDoorbellsAreEnough(h: nat, done: nat, m: nat, t: nat)
    requires 2 <= t <= 95 && done <= h && Fits(h, done, m, t) && SlotsNeeded(h, m, t) >= 0
    ensures DoorbellsSuffice(h, m, t)
  {
    hide SlotsNeeded, At, Closings;
    FewClosings(At(h, BufMsgs(t)), SlotsNeeded(h, m, t), BufMsgs(t));
  }

  lemma FewClosings(s: nat, k: nat, n: nat)
    requires s < n && k < 760
    ensures Closings(s, k, n) < 4
  {}

  /** The two conditions in terms of the messages the batch puts into the ring. */
  lemma AdmittedMeans<M>(h: nat, done: nat, msgs: seq<M>, t: nat)
    requires t >= 2 && done <= h
    ensures var w, n := Layout(h, msgs, t), BufMsgs(t);
      && (Fits(h, done, |msgs|, t) <==> h - done + |w| < MaxPending(t))
      && (DoorbellsSuffice(h, |msgs|, t) <==> Closings(At(h, n), |w|, n) < 4)
    ensures t <= 95 && Fits(h, done, |msgs|, t) ==> DoorbellsSuffice(h, |msgs|, t)
  {
    hide SlotsNeeded, At, Closings, Layout;
    LayoutLength(h, msgs, t);
    if t <= 95 && Fits(h, done, |msgs|, t) { FourDoorbellsAreEnough(h, done, |msgs|, t); }
  }

  /** With larger ones they are not: a batch of 1013 messages that fits and is refused. */
  lemma FourDoorbellsAreNotEnough()
    ensures Fits(0, 0, 1013, 128) && !DoorbellsSuffice(0, 1013, 128)
  {
    assert SlotsNeeded(0, 1013, 128) == 1020;
  }

  /**
    A non-empty batch is admitted exactly when the user messages of the eight completion
    periods starting at `done` have room for it.
   */
  lemma AdmissionRule(h: nat, done: nat, m: nat, t: nat)
    requires t >= 2 && done % t == 0 && done <= h && m > 0
    ensures Fits(h, done, m, t) <==> UsersBefore(h, t) - UsersBefore(done, t) + m <= 8 * (t - 1)
  {
    var c := done / t;
    assert done == c * t;
    QuotientBelow(h, t);
    var x := UsersBefore(h, t) + m - 1 - c * (t - 1);
    assert UsersBefore(done, t) == c * (t - 1);
    UsersMonotone(done, h, t);
    assert x >= 0;
    var y := x / (t - 1);
    assert UsersBefore(h, t) + m - 1 == (c + y) * (t - 1) + x % (t - 1);
    DivModIs(UsersBefore(h, t) + m - 1, t - 1, c + y, x % (t - 1));
    assert h - done + SlotsNeeded(h, m, t) == x + y + 1;
    if x < 8 * (t - 1) { BelowMultiple(x, t - 1, 8); } else { AtLeastMultiple(x, t - 1, 8); }
  }

  lemma BelowMultiple(x: nat, d: nat, k: nat)
    requires d > 0 && x < k * d
    ensures x / d < k
  {}

  lemma AtLeastMultiple(x: nat, d: nat, k: nat)
    requires d > 0 && x >= k * d
    ensures x / d >= k
  {
    if x / d < k { BelowByMultiple(x / d - k, d); }
  }

  lemma BelowByMultiple(k: int, d: nat)
    requires k < 0
    ensures k * d <= -(d as int)
  {}

  lemma {:induction false} UsersMonotone(a: nat, b: nat, t: nat)
    requires t >= 2 && a <= b
    ensures UsersBefore(a, t) <= UsersBefore(b, t)
    decreases b - a
  {
    if a < b {
      UsersBeforeStep(a, t);
      QuotientBelow(b, t);
      QuotientBelow(a, t);
      UsersMonotone(a + 1, b, t);
    }
  }

  /**
    No wedge.  Once `t` messages are pending there is a pending sync; and when the card has
    answered every sync rung, fewer than `t` messages are pending and every batch of up to
    7(t-1) messages is admitted.
   */
  lemma NoWedge<M>(stream: seq<Slot<M>>, done: nat, t: nat)
    requires t >= 2 && InPhase(stream, 0, t) && done % t == 0 && done <= |stream|
    ensures |stream| - done >= t ==> exists i :: done <= i < |stream| && stream[i].Sync?
    ensures (forall i | done <= i < |stream| :: stream[i].User?) ==>
              |stream| - done < t && forall m: nat | m <= 7 * (t - 1) :: Fits(|stream|, done, m, t)
  {
    if |stream| - done >= t {
      var c := done / t;
      assert done + t - 1 == c * t + (t - 1);
      DivModIs(done + t - 1, t, c, t - 1);
      assert SlotInPhase(stream[done + t - 1], 0 + (done + t - 1), t);
      assert stream[done + t - 1].Sync?;
    } else {
      forall m: nat | m <= 7 * (t - 1)
        ensures Fits(|stream|, done, m, t)
      {
        if m > 0 {
          AdmissionRule(|stream|, done, m, t);
          UsersBetween(done, |stream|, t);
        }
      }
    }
  }

  lemma UsersBetween(done: nat, h: nat, t: nat)
    requires t >= 2 && done % t == 0 && done <= h < done + t
    ensures UsersBefore(h, t) - UsersBefore(done, t) == h - done < t
  {
    assert h == (done / t) * t + (h - done);
    DivModIs(h, t, done / t, h - done);
  }

  /** A batch of more than 8(t-1) messages is refused in every state, however idle the card. */
  lemma TooLargeIsNeverAdmitted(h: nat, done: nat, m: nat, t: nat)
    requires t >= 2 && done % t == 0 && done <= h && m > 8 * (t - 1)
    ensures !Fits(h, done, m, t)
  {
    AdmissionRule(h, done, m, t);
    UsersMonotone(done, h, t);
  }
}
