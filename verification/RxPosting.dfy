/**
  Returning receive buffers to the card (process_rxbuffer, nx_post_freed_rxbufs,
  unm_post_rx_buffers, nx_post_rx_descriptors) for one receive ring and any number of
  pollers, as an interleaved step system: each step is one locked section, or one access to
  shared state outside the lock.

  A buffer is its reference handle.  The card fetches posted descriptors in order and reports
  only handles it has fetched and not yet reported.
 */
module RxPosting {
  import opened Bits
  import opened Circular
  import opened Multisets

  /** A linked list of buffers with its separate count field (nx_free_rbufs_t). */
  datatype Rbufs = Rbufs(list: seq<nat>, count: int)

  /** The poster's locals: private list, producer, descriptors written so far. */
  datatype Job = Job(free: Rbufs, prod: nat, written: nat)

  datatype Pc =
    | Idle
    | AtLock               // nx_post_freed_rxbufs saw something to do
    | Writing(job: Job)    // in the loop of nx_post_rx_descriptors
    | Leaving(job: Job)    // out of the loop, count not yet adjusted
    | Spliced(job: Job)    // remainder given back
    | Stored(job: Job)     // producer stored
    | Rung                 // doorbell rung, posting flag still set

  datatype Poller = Poller(mine: Rbufs, pc: Pc)

  /**
    The last two lines are the card and the histories: handles fetched and not yet reported,
    how many descriptors have been fetched, announced and reported, and all posted handles.
   */
  datatype State = State(
    shared: Rbufs, posting: bool, producer: nat, doorbell: nat, pollers: seq<Poller>,
    desc: seq<nat>,
    onCard: multiset<nat>, fetched: nat, published: nat, returned: nat,
    posts: seq<nat>)

  datatype Step =
    | Report(p: nat, h: nat)   // the card reports h to poller p, which queues the buffer
    | Look(p: nat)             // unlocked test of the two counts
    | Lock(p: nat)             // nx_post_freed_rxbufs: splice, elect, take
    | PostDirect(p: nat)       // unm_post_rx_buffers: elect, take
    | WriteOne(p: nat)         // one turn of the loop, with a buffer
    | Leave(p: nat)            // list empty, or the allocation failed
    | GiveBack(p: nat)
    | StoreProducer(p: nat)
    | Ring(p: nat)
    | ClearPosting(p: nat)
    | Fetch                    // the card

  predicate Actor(s: State, p: nat) { p < |s.pollers| }

  predicate Enabled(s: State, step: Step) {
    match step
    case Report(p, h) => Actor(s, p) && s.pollers[p].pc.Idle? && h in s.onCard
    case Look(p) => Actor(s, p) && s.pollers[p].pc.Idle?
    case Lock(p) => Actor(s, p) && s.pollers[p].pc.AtLock?
    case PostDirect(p) => Actor(s, p) && s.pollers[p].pc.Idle?
    case WriteOne(p) => Actor(s, p) && s.pollers[p].pc.Writing? && s.pollers[p].pc.job.free.list != []
    case Leave(p) => Actor(s, p) && s.pollers[p].pc.Writing?
    case GiveBack(p) => Actor(s, p) && s.pollers[p].pc.Leaving?
    case StoreProducer(p) => Actor(s, p) && s.pollers[p].pc.Spliced?
    case Ring(p) => Actor(s, p) && s.pollers[p].pc.Stored?
    case ClearPosting(p) => Actor(s, p) && s.pollers[p].pc.Rung?
    case Fetch => s.fetched < s.published
  }

  function SetPc(s: State, p: nat, pc: Pc): State
    requires Actor(s, p)
  {
    s.(pollers := s.pollers[p := s.pollers[p].(pc := pc)])
  }

  /** nx_post_freed_rxbufs first adds the poller's own list to the shared one. */
  function Splice(s: State, p: nat): State
    requires Actor(s, p)
  {
    var q := s.pollers[p];
    if q.mine.list == [] then s
    else s.(shared := Rbufs(s.shared.list + q.mine.list, s.shared.count + q.mine.count),
            pollers := s.pollers[p := q.(mine := Rbufs([], 0))])
  }

  /** The end of both locked sections: become the poster if there is none and work to do. */
  function Elect(s: State, p: nat, work: bool): State
    requires Actor(s, p)
  {
    if !s.posting && work then
      SetPc(s, p, Writing(Job(s.shared, s.producer, 0))).(shared := Rbufs([], 0), posting := true)
    else SetPc(s, p, Idle)
  }

  function Do(s: State, step: Step): State
    requires Enabled(s, step) && |s.desc| > 0 && s.producer < |s.desc|
  {
    match step
    case Report(p, h) =>
      var q := s.pollers[p];
      s.(onCard := s.onCard - multiset{h}, returned := s.returned + 1,
         pollers := s.pollers[p := q.(mine := Rbufs(q.mine.list + [h], q.mine.count + 1))])
    case Look(p) =>
      if s.shared.count == 0 && s.pollers[p].mine.count == 0 then s else SetPc(s, p, AtLock)
    case Lock(p) =>
      var s1 := Splice(s, p);
      Elect(s1, p, s1.shared.count != 0)
    case PostDirect(p) => Elect(s, p, s.shared.list != [])
    case WriteOne(p) =>
      var job := s.pollers[p].pc.job;
      var h := job.free.list[0];
      SetPc(s, p, Writing(Job(Rbufs(job.free.list[1..], job.free.count), Next(job.prod, |s.desc|), job.written + 1)))
        .(desc := if job.prod < |s.desc| then s.desc[job.prod := h] else s.desc, posts := s.posts + [h])
    case Leave(p) => SetPc(s, p, Leaving(s.pollers[p].pc.job))
    case GiveBack(p) =>
      var job := s.pollers[p].pc.job;
      var left := Rbufs(job.free.list, job.free.count - job.written);
      SetPc(s, p, Spliced(Job(Rbufs([], left.count), job.prod, job.written)))
        .(shared := if left.list == [] then s.shared
                    else Rbufs(s.shared.list + left.list, s.shared.count + left.count))
    case StoreProducer(p) =>
      var job := s.pollers[p].pc.job;
      SetPc(s, p, Stored(job)).(producer := job.prod)
    case Ring(p) =>
      var job := s.pollers[p].pc.job;
      if job.written == 0 then SetPc(s, p, Rung)
      else SetPc(s, p, Rung).(doorbell := MaskedPredecessor(s.producer, |s.desc|), published := |s.posts|)
    case ClearPosting(p) => SetPc(s, p, Idle).(posting := false)
    case Fetch =>
      s.(onCard := s.onCard + multiset{s.desc[At(s.fetched, |s.desc|)]}, fetched := s.fetched + 1)
  }

  // ----- the invariant -----

  function Handles(n: nat): (r: seq<nat>)
    ensures |r| == n && forall i | 0 <= i < n :: r[i] == i
  {
    seq(n, i requires 0 <= i => i)
  }

  /** The buffers a poller holds: those it has collected, and those it is posting. */
  function Owned(q: Poller): multiset<nat> {
    multiset(q.mine.list) + (if q.pc.Writing? || q.pc.Leaving? then multiset(q.pc.job.free.list) else multiset{})
  }

  function Held(ps: seq<Poller>): multiset<nat> {
    if ps == [] then multiset{} else Held(ps[..|ps| - 1]) + Owned(ps[|ps| - 1])
  }

  /** Everything that is not with a poller: shared list, card, descriptors not yet fetched. */
  function Elsewhere(s: State): multiset<nat> {
    multiset(s.shared.list) + s.onCard + (if s.fetched <= |s.posts| then multiset(s.posts[s.fetched..]) else multiset{})
  }

  /** Each of the ring's buffers is in exactly one place. */
  predicate Conserved(s: State) {
    Held(s.pollers) + Elsewhere(s) == multiset(Handles(|s.desc|))
  }

  predicate Busy(pc: Pc) { !pc.Idle? && !pc.AtLock? }

  /** At most one poster, and the flag says whether there is one. */
  ghost predicate OnePoster(s: State) {
    && (s.posting <==> exists p :: 0 <= p < |s.pollers| && Busy(s.pollers[p].pc))
    && forall p, q | 0 <= p < |s.pollers| && 0 <= q < |s.pollers| && Busy(s.pollers[p].pc) && Busy(s.pollers[q].pc) :: p == q
  }

  /** Counts equal list lengths, except that the poster adjusts its count after the loop. */
  predicate CountsOk(s: State) {
    && s.shared.count == |s.shared.list|
    && forall p | 0 <= p < |s.pollers| :: s.pollers[p].mine.count == |s.pollers[p].mine.list|
  }

  predicate JobOk(s: State, pc: Pc)
    requires |s.desc| > 0
  {
    match pc
    case Writing(job) => job.free.count == |job.free.list| + job.written && Unannounced(s, job)
    case Leaving(job) => job.free.count == |job.free.list| + job.written && Unannounced(s, job)
    case Spliced(job) => Unannounced(s, job)
    case Stored(job) => Unannounced(s, job) && s.producer == job.prod
    case Rung => s.published == |s.posts| && s.producer == At(|s.posts|, |s.desc|)
    case _ => true
  }

  predicate Unannounced(s: State, job: Job)
    requires |s.desc| > 0
  {
    job.prod == At(|s.posts|, |s.desc|) && s.published + job.written == |s.posts|
  }

  /** The card side: nothing unfetched is overwritten, and the doorbell names the last slot. */
  ghost predicate RingOk(s: State) {
    && IsPow2(|s.desc|) && 0 < |s.desc| <= 0x8000_0000
    && s.producer < |s.desc|
    && s.returned + |s.onCard| == s.fetched <= s.published <= |s.posts|
    && Window(s.desc, s.posts, s.fetched)
    && (!s.posting ==> s.producer == At(|s.posts|, |s.desc|) && s.published == |s.posts|)
    && (s.published > 0 ==> s.doorbell == At(s.published - 1, |s.desc|))
  }

  ghost predicate Inv(s: State) {
    && RingOk(s) && Conserved(s) && OnePoster(s) && CountsOk(s)
    && forall p | 0 <= p < |s.pollers| :: JobOk(s, s.pollers[p].pc)
  }

  function Init(size: nat, pollers: nat): State
    requires size > 0
  {
    State(Rbufs(Handles(size), size), false, 0, 0, seq(pollers, _ => Poller(Rbufs([], 0), Idle)),
          seq(size, _ => 0), multiset{}, 0, 0, 0, [])
  }

  lemma {:induction false} HeldUpdate(ps: seq<Poller>, p: nat, q: Poller)
    requires p < |ps|
    ensures Held(ps[p := q]) + Owned(ps[p]) == Held(ps) + Owned(q)
  {
    hide Owned;
    var n, u := |ps| - 1, ps[p := q];
    if p == n {
      assert u[..n] == ps[..n];
    } else {
      assert u[..n] == ps[..n][p := q] && ps[..n][p] == ps[p] && u[n] == ps[n];
      HeldUpdate(ps[..n], p, q);
      AddBoth(Held(u[..n]), Held(ps[..n]), Owned(ps[p]), Owned(q), Owned(ps[n]));
    }
  }

  /** A step that changes one poller and what is elsewhere, losing and making nothing. */
  lemma StepConserves(s: State, s': State, p: nat)
    requires Actor(s, p) && |s'.pollers| == |s.pollers| && s'.pollers == s.pollers[p := s'.pollers[p]]
    requires |s'.desc| == |s.desc| && Conserved(s)
    requires Owned(s.pollers[p]) + Elsewhere(s) == Owned(s'.pollers[p]) + Elsewhere(s')
    ensures Conserved(s')
  {
    hide Owned, Elsewhere, Held, Handles;
    HeldUpdate(s.pollers, p, s'.pollers[p]);
    Exchange(Held(s.pollers), Held(s'.pollers), Owned(s.pollers[p]), Owned(s'.pollers[p]), Elsewhere(s), Elsewhere(s'));
  }

  // ----- every step keeps the invariant -----

  /** No other poller is busy while one is, so the others' jobs do not depend on the ring. */
  lemma OthersIdle(s: State, p: nat)
    requires OnePoster(s) && Actor(s, p) && Busy(s.pollers[p].pc)
    ensures s.posting && forall q | 0 <= q < |s.pollers| && q != p :: !Busy(s.pollers[q].pc)
  {}

  lemma NobodyBusy(s: State)
    requires OnePoster(s) && !s.posting
    ensures forall q | 0 <= q < |s.pollers| :: !Busy(s.pollers[q].pc)
  {}

  /** A step of one poller that leaves it as busy or as idle as it was. */
  lemma PollerStep(s: State, s': State, p: nat)
    requires Inv(s) && Actor(s, p) && |s'.pollers| == |s.pollers| && s'.pollers == s.pollers[p := s'.pollers[p]]
    requires |s'.desc| == |s.desc| && s'.posting == s.posting && Busy(s'.pollers[p].pc) == Busy(s.pollers[p].pc)
    requires Owned(s.pollers[p]) + Elsewhere(s) == Owned(s'.pollers[p]) + Elsewhere(s')
    requires s'.shared.count == |s'.shared.list| && s'.pollers[p].mine.count == |s'.pollers[p].mine.list|
    requires RingOk(s') && JobOk(s', s'.pollers[p].pc)
    requires Busy(s.pollers[p].pc) || (s'.posts == s.posts && s'.producer == s.producer && s'.published == s.published)
    ensures Inv(s')
  {
    hide Owned, Elsewhere, Held, Handles, RingOk;
    StepConserves(s, s', p);
    if Busy(s.pollers[p].pc) { OthersIdle(s, p); assert Busy(s'.pollers[p].pc); }
    forall q | 0 <= q < |s'.pollers| && q != p ensures s'.pollers[q] == s.pollers[q] {}
    if s.posting {
      var q :| 0 <= q < |s.pollers| && Busy(s.pollers[q].pc);
      assert Busy(s'.pollers[q].pc);
    }
  }

  lemma ReportMoves(s: State, p: nat, h: nat)
    requires Enabled(s, Report(p, h)) && 0 < |s.desc| && s.producer < |s.desc|
    ensures var s' := Do(s, Report(p, h));
      && Owned(s.pollers[p]) + Elsewhere(s) == Owned(s'.pollers[p]) + Elsewhere(s')
      && |s.onCard| == |s'.onCard| + 1
  {
    var s' := Do(s, Report(p, h));
    assert s.onCard == s'.onCard + multiset{h};
  }

  lemma ReportStep(s: State, p: nat, h: nat)
    requires Inv(s) && Enabled(s, Report(p, h))
    ensures Inv(Do(s, Report(p, h)))
  {
    hide Owned, Elsewhere, Held, Handles, Conserved, Window, At, MaskedPredecessor;
    ReportMoves(s, p, h);
    PollerStep(s, Do(s, Report(p, h)), p);
  }

  lemma LookStep(s: State, p: nat)
    requires Inv(s) && Enabled(s, Look(p))
    ensures Inv(Do(s, Look(p)))
  {
    hide Owned, Elsewhere, Held, Handles, Conserved, Window, At, MaskedPredecessor;
    LookMoves(s, p);
    if Do(s, Look(p)) != s { PollerStep(s, Do(s, Look(p)), p); }
  }

  lemma LookMoves(s: State, p: nat)
    requires Enabled(s, Look(p)) && 0 < |s.desc| && s.producer < |s.desc|
    ensures var s' := Do(s, Look(p));
      Owned(s.pollers[p]) + Elsewhere(s) == Owned(s'.pollers[p]) + Elsewhere(s')
  {}

  /** Becoming the poster: the shared list becomes private in one locked section. */
  lemma ElectMoves(s: State, p: nat, work: bool)
    requires Actor(s, p) && !Busy(s.pollers[p].pc)
    ensures var s' := Elect(s, p, work);
      Owned(s.pollers[p]) + Elsewhere(s) == Owned(s'.pollers[p]) + Elsewhere(s')
  {}

  lemma ElectStep(s: State, p: nat, work: bool)
    requires Inv(s) && Actor(s, p) && !Busy(s.pollers[p].pc)
    ensures Inv(Elect(s, p, work))
  {
    hide Owned, Elsewhere, Held, Handles, Conserved, Window, At, MaskedPredecessor;
    ElectMoves(s, p, work);
    var s' := Elect(s, p, work);
    if !s.posting && work {
      NobodyBusy(s);
      StepConserves(s, s', p);
      assert Busy(s'.pollers[p].pc);
      forall q | 0 <= q < |s'.pollers| && q != p ensures s'.pollers[q] == s.pollers[q] {}
    } else {
      PollerStep(s, s', p);
    }
  }

  lemma SpliceMoves(s: State, p: nat)
    requires Actor(s, p)
    ensures var s' := Splice(s, p);
      Owned(s.pollers[p]) + Elsewhere(s) == Owned(s'.pollers[p]) + Elsewhere(s')
  {
    assert multiset(s.shared.list + s.pollers[p].mine.list) == multiset(s.shared.list) + multiset(s.pollers[p].mine.list);
  }

  lemma LockStep(s: State, p: nat)
    requires Inv(s) && Enabled(s, Lock(p))
    ensures Inv(Do(s, Lock(p)))
  {
    hide Owned, Elsewhere, Held, Handles, Conserved, Window, At, MaskedPredecessor;
    SpliceMoves(s, p);
    var s1 := Splice(s, p);
    if s1 != s { PollerStep(s, s1, p); }
    ElectStep(s1, p, s1.shared.count != 0);
  }

  lemma DirectStep(s: State, p: nat)
    requires Inv(s) && Enabled(s, PostDirect(p))
    ensures Inv(Do(s, PostDirect(p)))
  {
    hide Inv, Elect;
    ElectStep(s, p, s.shared.list != []);
  }

  /** While a buffer is in hand, fewer than the whole ring's descriptors are unfetched. */
  lemma RoomInRing(s: State, p: nat)
    requires Conserved(s) && Enabled(s, WriteOne(p)) && s.fetched <= |s.posts|
    ensures |s.posts| - s.fetched < |s.desc|
  {
    hide Held, Handles, Owned;
    HeldIncludes(s.pollers, p);
    var unfetched := multiset(s.posts[s.fetched..]);
    assert |Held(s.pollers) + Elsewhere(s)| == |multiset(Handles(|s.desc|))| == |s.desc|;
    OwnedByWriter(s.pollers[p]);
    assert |Elsewhere(s)| >= |unfetched|;
  }

  lemma OwnedByWriter(q: Poller)
    requires q.pc.Writing? && q.pc.job.free.list != []
    ensures |Owned(q)| >= 1
  {}

  lemma {:induction false} HeldIncludes(ps: seq<Poller>, p: nat)
    requires p < |ps|
    ensures |Held(ps)| >= |Owned(ps[p])|
  {
    hide Owned;
    if p < |ps| - 1 { HeldIncludes(ps[..|ps| - 1], p); }
  }

  lemma WriteMoves(s: State, p: nat)
    requires Enabled(s, WriteOne(p)) && 0 < |s.desc| && s.producer < |s.desc| && s.fetched <= |s.posts|
    ensures var s' := Do(s, WriteOne(p));
      Owned(s.pollers[p]) + Elsewhere(s) == Owned(s'.pollers[p]) + Elsewhere(s')
  {
    var free := s.pollers[p].pc.job.free.list;
    assert free == [free[0]] + free[1..];
    assert (s.posts + [free[0]])[s.fetched..] == s.posts[s.fetched..] + [free[0]];
  }

  lemma WriteStep(s: State, p: nat)
    requires Inv(s) && Enabled(s, WriteOne(p))
    ensures Inv(Do(s, WriteOne(p)))
  {
    hide Owned, Elsewhere, Held, Handles, Conserved, Window, At, MaskedPredecessor;
    WriteMoves(s, p);
    RoomInRing(s, p);
    OthersIdle(s, p);
    WindowPush(s.desc, s.posts, s.fetched, s.pollers[p].pc.job.free.list[0]);
    NextIsSuccessor(|s.posts|, |s.desc|);
    PollerStep(s, Do(s, WriteOne(p)), p);
  }

  lemma LeaveMoves(s: State, p: nat)
    requires Enabled(s, Leave(p)) && 0 < |s.desc| && s.producer < |s.desc| && s.fetched <= |s.posts|
    ensures var s' := Do(s, Leave(p));
      Owned(s.pollers[p]) + Elsewhere(s) == Owned(s'.pollers[p]) + Elsewhere(s')
  {
  }

  lemma LeaveStep(s: State, p: nat)
    requires Inv(s) && Enabled(s, Leave(p))
    ensures Inv(Do(s, Leave(p)))
  {
    hide Owned, Elsewhere, Held, Handles, Conserved, Window, At, MaskedPredecessor;
    LeaveMoves(s, p);
    PollerStep(s, Do(s, Leave(p)), p);
  }

  lemma GiveBackMoves(s: State, p: nat)
    requires Enabled(s, GiveBack(p)) && 0 < |s.desc| && s.producer < |s.desc| && s.fetched <= |s.posts|
    ensures var s' := Do(s, GiveBack(p));
      Owned(s.pollers[p]) + Elsewhere(s) == Owned(s'.pollers[p]) + Elsewhere(s')
  {
    var left := s.pollers[p].pc.job.free.list;
    assert multiset(s.shared.list + left) == multiset(s.shared.list) + multiset(left);
  }

  lemma GiveBackStep(s: State, p: nat)
    requires Inv(s) && Enabled(s, GiveBack(p))
    ensures Inv(Do(s, GiveBack(p)))
  {
    hide Owned, Elsewhere, Held, Handles, Conserved, Window, At, MaskedPredecessor;
    GiveBackMoves(s, p);
    PollerStep(s, Do(s, GiveBack(p)), p);
  }

  lemma StoreProducerMoves(s: State, p: nat)
    requires Enabled(s, StoreProducer(p)) && 0 < |s.desc| && s.producer < |s.desc| && s.fetched <= |s.posts|
    ensures var s' := Do(s, StoreProducer(p));
      Owned(s.pollers[p]) + Elsewhere(s) == Owned(s'.pollers[p]) + Elsewhere(s')
  {
  }

  lemma StoreProducerStep(s: State, p: nat)
    requires Inv(s) && Enabled(s, StoreProducer(p))
    ensures Inv(Do(s, StoreProducer(p)))
  {
    hide Owned, Elsewhere, Held, Handles, Conserved, Window, At, MaskedPredecessor;
    StoreProducerMoves(s, p);
    OthersIdle(s, p);
    PollerStep(s, Do(s, StoreProducer(p)), p);
  }

  lemma RingMoves(s: State, p: nat)
    requires Enabled(s, Ring(p)) && 0 < |s.desc| && s.producer < |s.desc| && s.fetched <= |s.posts|
    ensures var s' := Do(s, Ring(p));
      Owned(s.pollers[p]) + Elsewhere(s) == Owned(s'.pollers[p]) + Elsewhere(s')
  {
  }

  lemma RingStep(s: State, p: nat)
    requires Inv(s) && Enabled(s, Ring(p))
    ensures Inv(Do(s, Ring(p)))
  {
    hide Owned, Elsewhere, Held, Handles, Conserved, Window, At, MaskedPredecessor;
    RingMoves(s, p);
    OthersIdle(s, p);
    if s.pollers[p].pc.job.written > 0 {
      PredecessorForPow2(s.producer, |s.desc|);
      PreviousSlot(|s.posts|, |s.desc|);
    }
    PollerStep(s, Do(s, Ring(p)), p);
  }

  lemma PreviousSlot(i: nat, n: nat)
    requires 0 < n && 0 < i
    ensures At(i - 1, n) == if At(i, n) == 0 then n - 1 else At(i, n) - 1
  {
    NextIsSuccessor(i - 1, n);
  }

  lemma ClearPostingMoves(s: State, p: nat)
    requires Enabled(s, ClearPosting(p)) && 0 < |s.desc| && s.producer < |s.desc|
    ensures var s' := Do(s, ClearPosting(p));
      Owned(s.pollers[p]) + Elsewhere(s) == Owned(s'.pollers[p]) + Elsewhere(s')
  {}

  lemma ClearPostingStep(s: State, p: nat)
    requires Inv(s) && Enabled(s, ClearPosting(p))
    ensures Inv(Do(s, ClearPosting(p)))
  {
    hide Owned, Elsewhere, Held, Handles, Conserved, Window, At, MaskedPredecessor;
    var s' := Do(s, ClearPosting(p));
    OthersIdle(s, p);
    ClearPostingMoves(s, p);
    StepConserves(s, s', p);
    forall q | 0 <= q < |s'.pollers| && q != p ensures s'.pollers[q] == s.pollers[q] {}
  }

  /** The card fetches the handle that was posted under that number. */
  lemma FetchGets(s: State)
    requires RingOk(s) && s.fetched < s.published
    ensures s.desc[At(s.fetched, |s.desc|)] == s.posts[s.fetched]
    ensures Window(s.desc, s.posts, s.fetched + 1)
  {
    hide MaskedPredecessor, At;
  }

  lemma FetchMoves(s: State)
    requires s.fetched < |s.posts| && 0 < |s.desc| && s.producer < |s.desc| && s.fetched < s.published
    requires s.desc[At(s.fetched, |s.desc|)] == s.posts[s.fetched]
    ensures Elsewhere(Do(s, Fetch)) == Elsewhere(s)
  {
    hide At;
    FirstOut(s.posts, s.fetched);
    Regroup(multiset(s.shared.list), s.onCard, s.posts[s.fetched], multiset(s.posts[s.fetched + 1..]));
  }

  lemma FirstOut(posts: seq<nat>, i: nat)
    requires i < |posts|
    ensures multiset(posts[i..]) == multiset{posts[i]} + multiset(posts[i + 1..])
  {
    assert posts[i..] == [posts[i]] + posts[i + 1..];
  }

  lemma Regroup(a: multiset<nat>, b: multiset<nat>, h: nat, c: multiset<nat>)
    ensures a + b + (multiset{h} + c) == a + (b + multiset{h}) + c
  {}

  lemma FetchStep(s: State)
    requires Inv(s) && Enabled(s, Fetch)
    ensures Inv(Do(s, Fetch))
  {
    hide Owned, Elsewhere, Held, Handles, Window, At, MaskedPredecessor;
    FetchGets(s);
    FetchMoves(s);
    assert Do(s, Fetch).pollers == s.pollers;
  }

  lemma StepKeepsInv(s: State, step: Step)
    requires Inv(s) && Enabled(s, step)
    ensures Inv(Do(s, step))
  {
    hide Inv, Do;
    match step {
      case Report(p, h) => ReportStep(s, p, h);
      case Look(p) => LookStep(s, p);
      case Lock(p) => LockStep(s, p);
      case PostDirect(p) => DirectStep(s, p);
      case WriteOne(p) => WriteStep(s, p);
      case Leave(p) => LeaveStep(s, p);
      case GiveBack(p) => GiveBackStep(s, p);
      case StoreProducer(p) => StoreProducerStep(s, p);
      case Ring(p) => RingStep(s, p);
      case ClearPosting(p) => ClearPostingStep(s, p);
      case Fetch => FetchStep(s);
    }
  }

  // ----- all runs -----

  function After(size: nat, pollers: nat, steps: seq<Step>): State
    requires size > 0
  {
    if steps == [] then Init(size, pollers)
    else
      var s := After(size, pollers, steps[..|steps| - 1]);
      var step := steps[|steps| - 1];
      if |s.desc| > 0 && s.producer < |s.desc| && Enabled(s, step) then Do(s, step) else s
  }

  ghost predicate IsRun(size: nat, pollers: nat, steps: seq<Step>)
    requires size > 0
  {
    forall i | 0 <= i < |steps| :: Enabled(After(size, pollers, steps[..i]), steps[i])
  }

  lemma InitInv(size: nat, pollers: nat)
    requires IsPow2(size) && 0 < size <= 0x8000_0000
    ensures Inv(Init(size, pollers))
  {
    hide Handles, Held, Elsewhere, Conserved, Owned, IsPow2;
    InitConserved(size, pollers);
    DivModIs(0, size, 0, 0);
  }

  lemma InitConserved(size: nat, pollers: nat)
    requires 0 < size
    ensures Conserved(Init(size, pollers))
  {
    hide Handles;
    var s := Init(size, pollers);
    NothingHeld(s.pollers);
    assert s.posts[0..] == [];
  }

  lemma {:induction false} NothingHeld(ps: seq<Poller>)
    requires forall p | 0 <= p < |ps| :: ps[p] == Poller(Rbufs([], 0), Idle)
    ensures Held(ps) == multiset{}
  {
    if ps != [] { NothingHeld(ps[..|ps| - 1]); }
  }

  /** The last step of a run. */
  lemma LastStep(size: nat, pollers: nat, steps: seq<Step>)
    requires size > 0 && IsRun(size, pollers, steps) && steps != []
    ensures var n := |steps| - 1;
      && IsRun(size, pollers, steps[..n]) && Enabled(After(size, pollers, steps[..n]), steps[n])
      && (CanDo(After(size, pollers, steps[..n]), steps[n]) ==>
          After(size, pollers, steps) == Do(After(size, pollers, steps[..n]), steps[n]))
  {
    hide Do, Enabled;
    var n := |steps| - 1;
    forall i | 0 <= i < n ensures Enabled(After(size, pollers, steps[..n][..i]), steps[..n][i]) {
      assert steps[..n][..i] == steps[..i];
    }
  }

  /** The invariant holds after every interleaving of every number of pollers and the card. */
  lemma {:induction false} RunKeepsInv(size: nat, pollers: nat, steps: seq<Step>)
    requires IsPow2(size) && 0 < size <= 0x8000_0000 && IsRun(size, pollers, steps)
    ensures Inv(After(size, pollers, steps)) && |After(size, pollers, steps).desc| == size
  {
    hide Inv, Do;
    if steps == [] {
      InitInv(size, pollers);
    } else {
      var n := |steps| - 1;
      LastStep(size, pollers, steps);
      RunKeepsInv(size, pollers, steps[..n]);
      var s := After(size, pollers, steps[..n]);
      assert |s.desc| > 0 && s.producer < |s.desc| by { RingInBounds(s); }
      StepKeepsInv(s, steps[n]);
      RingKeepsSize(s, steps[n]);
    }
  }

  lemma RingInBounds(s: State)
    requires Inv(s)
    ensures |s.desc| > 0 && s.producer < |s.desc|
  {}

  lemma RingKeepsSize(s: State, step: Step)
    requires Enabled(s, step) && |s.desc| > 0 && s.producer < |s.desc|
    ensures |Do(s, step).desc| == |s.desc|
  {}

  /** Where a buffer can be. */
  function InPlaces(s: State, h: nat): nat {
    Held(s.pollers)[h] + multiset(s.shared.list)[h] + s.onCard[h] +
    (if s.fetched <= |s.posts| then multiset(s.posts[s.fetched..])[h] else 0)
  }

  /**
    In every reachable state each buffer is in exactly one place, there is at most one poster
    and the flag says so, and the descriptors posted and not reported never exceed the ring.
   */
  lemma EachBufferInOnePlace(size: nat, pollers: nat, steps: seq<Step>, h: nat)
    requires IsPow2(size) && 0 < size <= 0x8000_0000 && IsRun(size, pollers, steps)
    ensures var s := After(size, pollers, steps);
      && InPlaces(s, h) == (if h < size then 1 else 0)
      && OnePoster(s) && CountsOk(s)
      && |s.posts| - s.returned <= size
  {
    hide Held, Do, Window, At;
    RunKeepsInv(size, pollers, steps);
    var s := After(size, pollers, steps);
    HandleOnce(size, h);
    assert (Held(s.pollers) + Elsewhere(s))[h] == multiset(Handles(size))[h];
    assert |Held(s.pollers) + Elsewhere(s)| == |multiset(Handles(size))| == size;
    assert |Elsewhere(s)| >= |s.onCard| + |multiset(s.posts[s.fetched..])|;
  }

  lemma {:induction false} HandleOnce(n: nat, h: nat)
    ensures multiset(Handles(n))[h] == if h < n then 1 else 0
  {
    if n > 0 {
      HandleOnce(n - 1, h);
      assert Handles(n) == Handles(n - 1) + [n - 1];
    }
  }

  /**
    A descriptor is written only over one the card has fetched, the next fetch gets the handle
    posted under that number, and the doorbell names the slot before the announced end.
   */
  ghost predicate RingIsSafe(s: State) {
    && |s.desc| > 0
    && (forall p: nat, i: nat | Enabled(s, WriteOne(p)) && s.fetched <= i < |s.posts| ::
          At(i, |s.desc|) != s.pollers[p].pc.job.prod)
    && (s.fetched < s.published <= |s.posts| ==> s.desc[At(s.fetched, |s.desc|)] == s.posts[s.fetched])
    && (s.published > 0 ==> s.doorbell == At(s.published - 1, |s.desc|))
  }

  lemma NoOverwrite(size: nat, pollers: nat, steps: seq<Step>)
    requires IsPow2(size) && 0 < size <= 0x8000_0000 && IsRun(size, pollers, steps)
    ensures RingIsSafe(After(size, pollers, steps))
  {
    hide Inv, Do;
    RunKeepsInv(size, pollers, steps);
    InvMeansSafe(After(size, pollers, steps));
  }

  lemma InvMeansSafe(s: State)
    requires Inv(s)
    ensures RingIsSafe(s)
  {
    hide Held, Elsewhere, Owned, Handles, At;
    forall p: nat, i: nat | Enabled(s, WriteOne(p)) && s.fetched <= i < |s.posts|
      ensures At(i, |s.desc|) != s.pollers[p].pc.job.prod
    {
      RoomInRing(s, p);
      assert JobOk(s, s.pollers[p].pc);
      NoCollision(i, |s.posts|, |s.desc|);
    }
  }

  // ----- who becomes the poster -----

  /** What the poller's lock section finds on the shared list, once it has added its own buffers. */
  function Joined(s: State, p: nat): seq<nat>
    requires Actor(s, p)
  {
    s.shared.list + s.pollers[p].mine.list
  }

  /**
    nx_post_freed_rxbufs: the poller becomes the poster, with all buffers there are and an empty
    shared list behind it, exactly when there is no poster and there are buffers; otherwise its
    own buffers join the shared ones.
   */
  lemma LockElects(s: State, p: nat)
    requires Inv(s) && Enabled(s, Lock(p))
    ensures var s', all := Do(s, Lock(p)), s.shared.list + s.pollers[p].mine.list;
      if !s.posting && all != [] then
        s' == s.(posting := true, shared := Rbufs([], 0),
                 pollers := s.pollers[p := Poller(Rbufs([], 0), Writing(Job(Rbufs(all, |all|), s.producer, 0)))])
      else
        s' == s.(shared := Rbufs(all, |all|), pollers := s.pollers[p := Poller(Rbufs([], 0), Idle)])
  {
    hide Inv;
    RingInBounds(s);
    CountsMean(s);
    assert s.pollers[p].mine.list == [] ==> s.shared.list + s.pollers[p].mine.list == s.shared.list;
  }

  /** unm_post_rx_buffers: the same with the shared list alone. */
  lemma PostDirectElects(s: State, p: nat)
    requires Inv(s) && Enabled(s, PostDirect(p))
    ensures var s', all := Do(s, PostDirect(p)), s.shared.list;
      if !s.posting && all != [] then
        s' == s.(posting := true, shared := Rbufs([], 0),
                 pollers := s.pollers[p := Poller(s.pollers[p].mine, Writing(Job(Rbufs(all, |all|), s.producer, 0)))])
      else s' == s
  {
    assert s.shared == Rbufs(s.shared.list, |s.shared.list|);
    assert s.pollers[p].pc == Idle;
    assert s.pollers[p := s.pollers[p]] == s.pollers;
  }

  /** A poller goes to the lock exactly when it sees a buffer, shared or its own. */
  lemma LookSees(s: State, p: nat)
    requires Inv(s) && Enabled(s, Look(p))
    ensures Do(s, Look(p)) ==
      if s.shared.list + s.pollers[p].mine.list == [] then s
      else s.(pollers := s.pollers[p := Poller(s.pollers[p].mine, AtLock)])
  {
    assert s.pollers[p].mine.count == |s.pollers[p].mine.list|;
  }

  // ----- what a poster brings about -----

  predicate CanDo(s: State, step: Step) { |s.desc| > 0 && s.producer < |s.desc| && Enabled(s, step) }

  /** `steps` can follow from `s`. */
  predicate CanRun(s: State, steps: seq<Step>)
    decreases |steps|
  {
    steps == [] || (CanDo(s, steps[0]) && CanRun(Do(s, steps[0]), steps[1..]))
  }

  function Exec(s: State, steps: seq<Step>): State
    requires CanRun(s, steps)
    decreases |steps|
  {
    if steps == [] then s else Exec(Do(s, steps[0]), steps[1..])
  }

  lemma OneMore(s: State, step: Step, rest: seq<Step>)
    requires CanDo(s, step) && CanRun(Do(s, step), rest)
    ensures CanRun(s, [step] + rest) && Exec(s, [step] + rest) == Exec(Do(s, step), rest)
  {
    hide Do;
    assert ([step] + rest)[1..] == rest;
  }

  /** The poster `p` leaves the loop after `k` more buffers and does the rest of its job. */
  function Round(p: nat, k: nat): seq<Step> {
    if k > 0 then [WriteOne(p)] + Round(p, k - 1)
    else [Leave(p)] + ([GiveBack(p)] + ([StoreProducer(p)] + ([Ring(p)] + ([ClearPosting(p)] + []))))
  }

  /** `s'` is `s` after `p` has posted `out` and given `left` back. */
  ghost predicate Posted(s: State, s': State, p: nat, out: seq<nat>, left: seq<nat>)
    requires Actor(s, p)
  {
    && Inv(s') && !s'.posting && s'.posts == s.posts + out && s'.published == |s'.posts|
    && s'.shared.list == s.shared.list + left
    && s'.pollers == s.pollers[p := Poller(s.pollers[p].mine, Idle)]
    && s'.fetched == s.fetched && s'.returned == s.returned && s'.onCard == s.onCard
  }

  /** The end of a job, all buffers given back. */
  lemma JobEnds(s: State, p: nat)
    requires Inv(s) && Actor(s, p) && s.pollers[p].pc.Spliced?
    ensures var tail := [StoreProducer(p)] + ([Ring(p)] + ([ClearPosting(p)] + []));
      CanRun(s, tail) && Posted(s, Exec(s, tail), p, [], [])
  {
    hide Inv, CanRun, Exec, MaskedPredecessor, At;
    var s1 := TakeStep(s, StoreProducer(p));
    var s2 := TakeStep(s1, Ring(p));
    var s3 := TakeStep(s2, ClearPosting(p));
    NoneLeft(s3);
    OneMore(s2, ClearPosting(p), []);
    OneMore(s1, Ring(p), [ClearPosting(p)] + []);
    OneMore(s, StoreProducer(p), [Ring(p)] + ([ClearPosting(p)] + []));
    NotPosting(s3);
  }

  /** The state after a step, which keeps the invariant. */
  lemma TakeStep(s: State, step: Step) returns (s': State)
    requires Inv(s) && Enabled(s, step)
    ensures CanDo(s, step) && s' == Do(s, step) && Inv(s') && |s'.pollers| == |s.pollers|
  {
    hide Do, Inv;
    RingInBounds(s);
    StepKeepsInv(s, step);
    s' := Do(s, step);
    SamePollers(s, step);
  }

  lemma SamePollers(s: State, step: Step)
    requires CanDo(s, step)
    ensures |Do(s, step).pollers| == |s.pollers|
  {
    hide At, MaskedPredecessor, Next, Elect;
    match step {
      case Lock(p) => ElectSamePollers(Splice(s, p), p, Splice(s, p).shared.count != 0);
      case PostDirect(p) => ElectSamePollers(s, p, s.shared.list != []);
      case _ =>
    }
  }

  lemma ElectSamePollers(s: State, p: nat, work: bool)
    requires Actor(s, p)
    ensures |Elect(s, p, work).pollers| == |s.pollers|
  {}

  lemma NoneLeft(s: State)
    ensures CanRun(s, []) && Exec(s, []) == s
  {}

  lemma NotPosting(s: State)
    requires Inv(s) && !s.posting
    ensures s.published == |s.posts|
  {}

  /**
    A poster in the loop can post any number `k` of its buffers, in order, and what it does not
    post is back on the shared list, in order; it ends with the producer stored, the doorbell
    rung and the flag cleared, without any other party.
   */
  lemma {:induction false} RoundPosts(s: State, p: nat, k: nat)
    requires Inv(s) && Actor(s, p) && s.pollers[p].pc.Writing? && k <= |s.pollers[p].pc.job.free.list|
    ensures var list := s.pollers[p].pc.job.free.list;
      CanRun(s, Round(p, k)) && Posted(s, Exec(s, Round(p, k)), p, list[..k], list[k..])
    decreases k
  {
    hide Inv, CanRun, Exec, At;
    var list := s.pollers[p].pc.job.free.list;
    if k > 0 {
      var s' := TakeStep(s, WriteOne(p));
      RoundPosts(s', p, k - 1);
      OneMore(s, WriteOne(p), Round(p, k - 1));
      assert list[..k] == [list[0]] + list[1..][..k - 1] && list[k..] == list[1..][k - 1..];
      assert s.posts + [list[0]] + list[1..][..k - 1] == s.posts + list[..k];
    } else {
      RoundEnds(s, p);
      assert list[..0] == [] && list[0..] == list;
    }
  }

  lemma RoundEnds(s: State, p: nat)
    requires Inv(s) && Actor(s, p) && s.pollers[p].pc.Writing?
    ensures CanRun(s, Round(p, 0)) && Posted(s, Exec(s, Round(p, 0)), p, [], s.pollers[p].pc.job.free.list)
  {
    hide Inv, CanRun, Exec, At;
    var s1 := TakeStep(s, Leave(p));
    var s2 := TakeStep(s1, GiveBack(p));
    JobEnds(s2, p);
    var tail := [StoreProducer(p)] + ([Ring(p)] + ([ClearPosting(p)] + []));
    OneMore(s1, GiveBack(p), tail);
    OneMore(s, Leave(p), [GiveBack(p)] + tail);
    assert s.posts + [] == s.posts;
  }

  /** Steps of one poller only. */
  predicate By(p: nat, step: Step) {
    match step
    case Report(q, _) => false
    case Fetch => false
    case _ => step.p == p
  }

  lemma {:induction false} RoundIsBy(p: nat, k: nat)
    ensures forall i | 0 <= i < |Round(p, k)| :: By(p, Round(p, k)[i])
  {
    if k > 0 { RoundIsBy(p, k - 1); }
  }

  lemma {:induction false} ExecIsAfter(size: nat, pollers: nat, steps: seq<Step>, more: seq<Step>)
    requires size > 0 && IsRun(size, pollers, steps) && CanRun(After(size, pollers, steps), more)
    ensures IsRun(size, pollers, steps + more)
    ensures After(size, pollers, steps + more) == Exec(After(size, pollers, steps), more)
    decreases |more|
  {
    hide Do, Enabled, IsRun, After;
    if more == [] {
      assert steps + more == steps;
    } else {
      Extend(size, pollers, steps, more[0]);
      ExecIsAfter(size, pollers, steps + [more[0]], more[1..]);
      assert steps + [more[0]] + more[1..] == steps + more;
    }
  }

  lemma Extend(size: nat, pollers: nat, steps: seq<Step>, step: Step)
    requires size > 0 && IsRun(size, pollers, steps) && CanDo(After(size, pollers, steps), step)
    ensures IsRun(size, pollers, steps + [step])
    ensures After(size, pollers, steps + [step]) == Do(After(size, pollers, steps), step)
  {
    hide Do, Enabled;
    var longer := steps + [step];
    assert longer[..|steps|] == steps;
    forall i | 0 <= i < |longer| ensures Enabled(After(size, pollers, longer[..i]), longer[i]) {
      if i < |steps| { assert longer[..i] == steps[..i]; }
    }
  }

  /**
    Progress.  In every reachable state in which nobody is posting and there are buffers to post,
    on the shared list or with an idle poller, that poller alone can post them: the shared ones
    first, then its own, in order, announced to the card to the last.  If allocation fails after
    `k` of them, the others are on the shared list, in order.
   */
  lemma BuffersGoBackToCard(size: nat, pollers: nat, steps: seq<Step>, p: nat, k: nat)
    requires IsPow2(size) && 0 < size <= 0x8000_0000 && IsRun(size, pollers, steps)
    requires var s := After(size, pollers, steps);
      Actor(s, p) && !s.posting && s.pollers[p].pc.Idle? && 0 < |Joined(s, p)| && k <= |Joined(s, p)|
    ensures var s := After(size, pollers, steps); var more := [Look(p)] + ([Lock(p)] + Round(p, k));
      && IsRun(size, pollers, steps + more) && (forall i | 0 <= i < |more| :: By(p, more[i]))
      && var s' := After(size, pollers, steps + more);
      && s'.posts == s.posts + Joined(s, p)[..k] && s'.published == |s'.posts| && !s'.posting
      && s'.shared.list == Joined(s, p)[k..] && s'.pollers == s.pollers[p := Poller(Rbufs([], 0), Idle)]
  {
    hide Inv, Do, IsRun, After, CanRun, Exec, Round;
    RunKeepsInv(size, pollers, steps);
    var s := After(size, pollers, steps);
    LookSees(s, p);
    var s1 := TakeStep(s, Look(p));
    LockElects(s1, p);
    var s2 := TakeStep(s1, Lock(p));
    RoundPosts(s2, p, k);
    OneMore(s1, Lock(p), Round(p, k));
    OneMore(s, Look(p), [Lock(p)] + Round(p, k));
    ExecIsAfter(size, pollers, steps, [Look(p)] + ([Lock(p)] + Round(p, k)));
    RoundIsBy(p, k);
  }

  /** The same through unm_post_rx_buffers, for the shared list. */
  lemma SharedListGoesBackToCard(size: nat, pollers: nat, steps: seq<Step>, p: nat, k: nat)
    requires IsPow2(size) && 0 < size <= 0x8000_0000 && IsRun(size, pollers, steps)
    requires var s := After(size, pollers, steps);
      Actor(s, p) && !s.posting && s.pollers[p].pc.Idle? && 0 < |s.shared.list| && k <= |s.shared.list|
    ensures var s := After(size, pollers, steps); var more := [PostDirect(p)] + Round(p, k);
      && IsRun(size, pollers, steps + more) && (forall i | 0 <= i < |more| :: By(p, more[i]))
      && var s' := After(size, pollers, steps + more);
      && s'.posts == s.posts + s.shared.list[..k] && s'.published == |s'.posts| && !s'.posting
      && s'.shared.list == s.shared.list[k..] && s'.pollers == s.pollers
  {
    hide Inv, Do, IsRun, After, CanRun, Exec, Round;
    RunKeepsInv(size, pollers, steps);
    var s := After(size, pollers, steps);
    var s1 := TakeStep(s, PostDirect(p));
    PostDirectElects(s, p);
    RoundPosts(s1, p, k);
    OneMore(s, PostDirect(p), Round(p, k));
    ExecIsAfter(size, pollers, steps, [PostDirect(p)] + Round(p, k));
    RoundIsBy(p, k);
    assert s.pollers[p := Poller(s.pollers[p].mine, Idle)] == s.pollers;
  }

  /** `more` are steps of `p` alone after which it no longer posts, and nobody does. */
  ghost predicate Finishes(s: State, more: seq<Step>, p: nat) {
    && CanRun(s, more) && (forall i | 0 <= i < |more| :: By(p, more[i]))
    && var s' := Exec(s, more);
    && Inv(s') && !s'.posting && Actor(s', p) && s'.pollers[p].pc.Idle?
    && s'.posts == s.posts && s'.published == |s'.posts|
  }

  lemma FinishesLater(s: State, step: Step, more: seq<Step>, p: nat)
    requires CanDo(s, step) && By(p, step) && Do(s, step).posts == s.posts && Finishes(Do(s, step), more, p)
    ensures Finishes(s, [step] + more, p)
  {
    hide Do, Inv, CanRun, Exec;
    OneMore(s, step, more);
  }

  /** From wherever a poster is, it can finish alone and leave the flag clear. */
  lemma PosterCanFinish(s: State, p: nat) returns (more: seq<Step>)
    requires Inv(s) && Actor(s, p) && Busy(s.pollers[p].pc)
    ensures Finishes(s, more, p)
    decreases var pc := s.pollers[p].pc;
      if pc.Rung? then 0 else if pc.Stored? then 1 else if pc.Spliced? then 2 else if pc.Leaving? then 3 else 4
  {
    hide Inv, Finishes, Do;
    var step := NextOf(s.pollers[p].pc, p);
    var s' := TakeStep(s, step);
    TowardsIdle(s, p);
    if s'.pollers[p].pc.Idle? {
      more := [];
      NothingToFinish(s', p);
    } else {
      more := PosterCanFinish(s', p);
    }
    FinishesLater(s, step, more, p);
    more := [step] + more;
  }

  /** The step that follows in nx_post_rx_descriptors, when no more buffers are posted. */
  function NextOf(pc: Pc, p: nat): Step {
    match pc
    case Writing(_) => Leave(p)
    case Leaving(_) => GiveBack(p)
    case Spliced(_) => StoreProducer(p)
    case Stored(_) => Ring(p)
    case _ => ClearPosting(p)
  }

  lemma TowardsIdle(s: State, p: nat)
    requires Actor(s, p) && Busy(s.pollers[p].pc) && CanDo(s, NextOf(s.pollers[p].pc, p))
    ensures By(p, NextOf(s.pollers[p].pc, p))
    ensures var s' := Do(s, NextOf(s.pollers[p].pc, p));
      && |s'.pollers| == |s.pollers| && s'.posts == s.posts
      && match s.pollers[p].pc
         case Writing(_) => s'.pollers[p].pc.Leaving?
         case Leaving(_) => s'.pollers[p].pc.Spliced?
         case Spliced(_) => s'.pollers[p].pc.Stored?
         case Stored(_) => s'.pollers[p].pc.Rung?
         case _ => s'.pollers[p].pc.Idle? && !s'.posting
  {}

  lemma NothingToFinish(s: State, p: nat)
    requires Inv(s) && !s.posting && Actor(s, p) && s.pollers[p].pc.Idle?
    ensures Finishes(s, [], p)
  {}

  // ----- one poller keeps the order -----

  /** The handles the card has reported, in order. */
  function Reported(steps: seq<Step>): seq<nat> {
    if steps == [] then []
    else Reported(steps[..|steps| - 1]) + (match steps[|steps| - 1] case Report(_, h) => [h] case _ => [])
  }

  function InHand(pc: Pc): seq<nat> {
    match pc case Writing(job) => job.free.list case Leaving(job) => job.free.list case _ => []
  }

  /** Posted, in hand, shared and collected, one after the other, are all buffers as they came in. */
  ghost predicate InOrder(s: State, came: seq<nat>) {
    && |s.pollers| == 1 && |s.desc| > 0 && s.producer < |s.desc|
    && s.posts + InHand(s.pollers[0].pc) + s.shared.list + s.pollers[0].mine.list == came
    && (InHand(s.pollers[0].pc) != [] ==> s.shared.list == [])
    && s.shared.count == |s.shared.list| && s.pollers[0].mine.count == |s.pollers[0].mine.list|
  }

  lemma StepKeepsOrder(s: State, step: Step, came: seq<nat>)
    requires InOrder(s, came) && Inv(s) && Enabled(s, step)
    ensures InOrder(Do(s, step), came + (match step case Report(_, h) => [h] case _ => []))
  {
    hide Inv, Do;
    var s' := TakeStep(s, step);
    RingInBounds(s');
    CountsMean(s');
    assert step.Report? || came + [] == came;
    match step {
      case Report(_, h) => ReportOrder(s, h, came);
      case Look(_) => LookSees(s, 0);
      case Lock(_) => LockOrder(s, came);
      case PostDirect(_) => PostDirectElects(s, 0);
      case WriteOne(_) => WriteOrder(s, came);
      case GiveBack(_) => GiveBackOrder(s, came);
      case _ => QuietOrder(s, step);
    }
  }

  lemma CountsMean(s: State)
    requires Inv(s)
    ensures s.shared.count == |s.shared.list|
    ensures forall p | 0 <= p < |s.pollers| :: s.pollers[p].mine.count == |s.pollers[p].mine.list|
  {}

  lemma ReportOrder(s: State, h: nat, came: seq<nat>)
    requires InOrder(s, came) && Enabled(s, Report(0, h))
    ensures var s' := Do(s, Report(0, h));
      && |s'.pollers| == 1 && s'.shared == s.shared && s'.pollers[0].pc == s.pollers[0].pc
      && s'.posts + InHand(s'.pollers[0].pc) + s'.shared.list + s'.pollers[0].mine.list == came + [h]
  {
    hide InHand;
    var front, mine := s.posts + InHand(s.pollers[0].pc) + s.shared.list, s.pollers[0].mine.list;
    assert front + (mine + [h]) == (front + mine) + [h];
  }

  lemma LockOrder(s: State, came: seq<nat>)
    requires InOrder(s, came) && Inv(s) && Enabled(s, Lock(0))
    ensures InOrder(Do(s, Lock(0)), came)
  {
    hide Inv, Do;
    RingInBounds(s);
    LockElects(s, 0);
    assert s.posts + [] + s.shared.list + s.pollers[0].mine.list == s.posts + (s.shared.list + s.pollers[0].mine.list);
    assert s.posts + (s.shared.list + s.pollers[0].mine.list) + [] + [] == came;
    assert s.posts + [] + (s.shared.list + s.pollers[0].mine.list) + [] == came;
  }

  lemma WriteOrder(s: State, came: seq<nat>)
    requires InOrder(s, came) && Enabled(s, WriteOne(0))
    ensures var s' := Do(s, WriteOne(0));
      && |s'.pollers| == 1 && s'.shared == s.shared && s'.pollers[0].mine == s.pollers[0].mine
      && s'.posts + InHand(s'.pollers[0].pc) + s'.shared.list + s'.pollers[0].mine.list == came
  {
    var free := s.pollers[0].pc.job.free.list;
    assert s.posts + free == s.posts + [free[0]] + free[1..];
  }

  lemma GiveBackOrder(s: State, came: seq<nat>)
    requires InOrder(s, came) && Enabled(s, GiveBack(0))
    ensures var s' := Do(s, GiveBack(0));
      && |s'.pollers| == 1 && InHand(s'.pollers[0].pc) == []
      && s'.posts + [] + s'.shared.list + s'.pollers[0].mine.list == came
  {
    var left := s.pollers[0].pc.job.free.list;
    assert s.posts + left + [] == s.posts + [] + left;
    assert left != [] ==> s.shared.list + left == left;
  }

  lemma QuietOrder(s: State, step: Step)
    requires |s.pollers| == 1 && CanDo(s, step)
    requires step.Leave? || step.StoreProducer? || step.Ring? || step.ClearPosting? || step.Fetch?
    ensures var s' := Do(s, step);
      && |s'.pollers| == 1 && InHand(s'.pollers[0].pc) == InHand(s.pollers[0].pc)
      && s'.posts == s.posts && s'.shared == s.shared && s'.pollers[0].mine == s.pollers[0].mine
  {}

  lemma StartsInOrder(size: nat)
    requires size > 0
    ensures InOrder(After(size, 1, []), Handles(size) + Reported([]))
  {
    hide Handles;
    assert [] + [] + Handles(size) + [] == Handles(size) + [];
  }

  lemma OrderMeans(s: State, came: seq<nat>)
    requires InOrder(s, came)
    ensures s.posts <= came
  {}

  /**
    With a single poller the card gets its buffers back in the order in which it reported them,
    behind the initial ones, however often allocation fails.
   */
  lemma {:induction false} SinglePollerKeepsOrder(size: nat, steps: seq<Step>)
    requires IsPow2(size) && 0 < size <= 0x8000_0000 && IsRun(size, 1, steps)
    ensures InOrder(After(size, 1, steps), Handles(size) + Reported(steps))
    ensures After(size, 1, steps).posts <= Handles(size) + Reported(steps)
  {
    hide Inv, Do, Handles, Enabled, InOrder, IsRun;
    if steps == [] {
      hide After;
      StartsInOrder(size);
    } else {
      var n := |steps| - 1;
      LastStep(size, 1, steps);
      hide After;
      SinglePollerKeepsOrder(size, steps[..n]);
      RunKeepsInv(size, 1, steps[..n]);
      RingInBounds(After(size, 1, steps[..n]));
      var h := match steps[n] case Report(_, h) => [h] case _ => [];
      StepKeepsOrder(After(size, 1, steps[..n]), steps[n], Handles(size) + Reported(steps[..n]));
      assert Handles(size) + Reported(steps[..n]) + h == Handles(size) + (Reported(steps[..n]) + h);
    }
    OrderMeans(After(size, 1, steps), Handles(size) + Reported(steps));
  }
}
