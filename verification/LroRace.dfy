/**
  The LRO flow table under concurrency (unm_nic_lro.c).  Adding a flow, the card's response and
  the removal of a context take the bucket lock and the pool lock in separate sections, so they
  interleave; each step below is one locked section or one answer of nx_nic_send_cmd_descs.

  A class stands for a bucket and a flow: keys of one class find each other in the table, and at
  most one node of a class is there.  The card responds only for flows it has been asked for
  and not yet responded for.
 */
module LroRace {
  import opened MemPool
  import opened Options

  /** Where one caller is: adding a flow, or about to return a node to the pool. */
  datatype Pc =
    | Idle
    | Allocated(node: nat, cls: nat)
    | Requesting(node: nat, cls: nat)    // in the table, request not answered
    | RollingBack(node: nat, cls: nat)   // the request failed
    | MustFree(node: nat)

  /** `flows` says, per class, for how many flows the card still may respond. */
  datatype State = State(free: seq<nat>, allocatedCnt: int, table: seq<Option<nat>>, threads: seq<Pc>, flows: seq<nat>)

  datatype Step =
    | Begin(p: nat, cls: nat)      // nx_mem_pool_alloc
    | Insert(p: nat)               // nx_hash_tbl_insert
    | SendOk(p: nat)
    | SendFails(p: nat)
    | RollbackDelete(p: nat)       // nx_hash_tbl_delete by key
    | FreeNode(p: nat)             // nx_mem_pool_free
    | Response(p: nat, cls: nat)   // nx_handle_lro_response up to its delete
    | CtxDelete(cls: nat)          // nx_lro_delete_ctx_lro, or nx_hash_tbl_destroy, for one node

  predicate Enabled(s: State, step: Step) {
    match step
    case Begin(p, cls) => p < |s.threads| && s.threads[p].Idle? && cls < |s.table|
    case Insert(p) => p < |s.threads| && s.threads[p].Allocated? && s.threads[p].cls < |s.table|
    case SendOk(p) => p < |s.threads| && s.threads[p].Requesting? && s.threads[p].cls < |s.flows|
    case SendFails(p) => p < |s.threads| && s.threads[p].Requesting?
    case RollbackDelete(p) => p < |s.threads| && s.threads[p].RollingBack? && s.threads[p].cls < |s.table|
    case FreeNode(p) => p < |s.threads| && s.threads[p].MustFree?
    case Response(p, cls) =>
      p < |s.threads| && s.threads[p].Idle? && cls < |s.table| && cls < |s.flows| && s.flows[cls] > 0
    case CtxDelete(cls) => cls < |s.table| && s.table[cls].Some?
  }

  function Goto(s: State, p: nat, pc: Pc): State
    requires p < |s.threads|
  {
    s.(threads := s.threads[p := pc])
  }

  function Link(s: State, cls: nat, entry: Option<nat>): State
    requires cls < |s.table|
  {
    s.(table := s.table[cls := entry])
  }

  function Do(s: State, step: Step): State
    requires Enabled(s, step)
  {
    match step
    case Begin(p, cls) =>
      if s.free == [] then s
      else Goto(s, p, Allocated(s.free[0], cls)).(free := s.free[1..], allocatedCnt := s.allocatedCnt + 1)
    case Insert(p) =>
      var pc := s.threads[p];
      if s.table[pc.cls].Some? then Goto(s, p, MustFree(pc.node))
      else Link(Goto(s, p, Requesting(pc.node, pc.cls)), pc.cls, Some(pc.node))
    case SendOk(p) =>
      var cls := s.threads[p].cls;
      Goto(s, p, Idle).(flows := s.flows[cls := s.flows[cls] + 1])
    case SendFails(p) => Goto(s, p, RollingBack(s.threads[p].node, s.threads[p].cls))
    case RollbackDelete(p) =>
      var pc := s.threads[p];
      Link(Goto(s, p, MustFree(pc.node)), pc.cls, None)
    case FreeNode(p) =>
      Goto(s, p, Idle).(free := s.free + [s.threads[p].node], allocatedCnt := s.allocatedCnt - 1)
    case Response(p, cls) =>
      var s' := s.(flows := s.flows[cls := s.flows[cls] - 1]);
      (match s.table[cls] case None => s' case Some(n) => Link(Goto(s', p, MustFree(n)), cls, None))
    case CtxDelete(cls) =>
      Link(s, cls, None).(free := s.free + [s.table[cls].value], allocatedCnt := s.allocatedCnt - 1)
  }

  /** The rollback deletes by key, and does not look at what it has deleted. */
  predicate Misses(s: State, step: Step) {
    step.RollbackDelete? && Enabled(s, step) && s.table[s.threads[step.p].cls] != Some(s.threads[step.p].node)
  }

  // ----- where a node is -----

  function Holds(pc: Pc): Option<nat> {
    match pc case Allocated(n, _) => Some(n) case MustFree(n) => Some(n) case _ => None
  }

  function Held(threads: seq<Pc>): (r: seq<Option<nat>>)
    ensures |r| == |threads|
  {
    seq(|threads|, i requires 0 <= i < |threads| => Holds(threads[i]))
  }

  function Count(cells: seq<Option<nat>>, x: nat): nat {
    if cells == [] then 0
    else Count(cells[..|cells| - 1], x) + Is(cells[|cells| - 1], x)
  }

  function Is(cell: Option<nat>, x: nat): nat { if cell == Some(x) then 1 else 0 }

  /** In how many places node `x` is: free list, table, and callers that own it. */
  function Places(s: State, x: nat): nat {
    multiset(s.free)[x] + Count(s.table, x) + Count(Held(s.threads), x)
  }

  ghost predicate Owned(s: State, nodes: nat) {
    && s.allocatedCnt == nodes - |s.free|
    && forall x: nat :: Places(s, x) == if x < nodes then 1 else 0
  }

  lemma {:induction false} CountUpdate(cells: seq<Option<nat>>, i: nat, v: Option<nat>, x: nat)
    requires i < |cells|
    ensures Count(cells[i := v], x) + Is(cells[i], x) == Count(cells, x) + Is(v, x)
  {
    var n := |cells| - 1;
    if i == n {
      assert cells[i := v][..n] == cells[..n];
    } else {
      assert cells[i := v][..n] == cells[..n][i := v];
      CountUpdate(cells[..n], i, v, x);
    }
  }

  lemma HeldUpdate(threads: seq<Pc>, p: nat, pc: Pc, x: nat)
    requires p < |threads|
    ensures Count(Held(threads[p := pc]), x) + Is(Holds(threads[p]), x) == Count(Held(threads), x) + Is(Holds(pc), x)
  {
    assert Held(threads[p := pc]) == Held(threads)[p := Holds(pc)];
    CountUpdate(Held(threads), p, Holds(pc), x);
  }

  lemma FirstFree(free: seq<nat>, x: nat)
    requires free != []
    ensures multiset(free)[x] == multiset(free[1..])[x] + Is(Some(free[0]), x)
  {
    assert free == [free[0]] + free[1..];
  }

  lemma TablePlaces(s: State, s': State, p: nat, cls: nat, x: nat)
    requires p < |s.threads| && cls < |s.table| && |s'.threads| == |s.threads| && |s'.table| == |s.table|
    requires s'.threads == s.threads[p := s'.threads[p]] && s'.table == s.table[cls := s'.table[cls]]
    ensures Places(s', x) - multiset(s'.free)[x] + Is(Holds(s.threads[p]), x) + Is(s.table[cls], x) ==
            Places(s, x) - multiset(s.free)[x] + Is(Holds(s'.threads[p]), x) + Is(s'.table[cls], x)
  {
    hide Count, Held, Holds, Is;
    HeldUpdate(s.threads, p, s'.threads[p], x);
    CountUpdate(s.table, cls, s'.table[cls], x);
  }

  lemma ThreadPlaces(s: State, s': State, p: nat, x: nat)
    requires p < |s.threads| && |s'.threads| == |s.threads|
    requires s'.threads == s.threads[p := s'.threads[p]] && s'.table == s.table
    ensures Places(s', x) - multiset(s'.free)[x] + Is(Holds(s.threads[p]), x) ==
            Places(s, x) - multiset(s.free)[x] + Is(Holds(s'.threads[p]), x)
  {
    hide Count, Held, Holds, Is;
    HeldUpdate(s.threads, p, s'.threads[p], x);
  }

  /** What one step does to the places of a node: nothing, unless a rollback misses. */
  lemma StepPlaces(s: State, step: Step, x: nat)
    requires Enabled(s, step)
    ensures Places(Do(s, step), x) == Places(s, x) +
      if !Misses(s, step) then 0
      else Is(Some(s.threads[step.p].node), x) - Is(s.table[s.threads[step.p].cls], x)
  {
    hide Places;
    var s' := Do(s, step);
    match step {
      case Begin(p, cls) => if s.free != [] { ThreadPlaces(s, s', p, x); FirstFree(s.free, x); }
      case Insert(p) =>
        if s.table[s.threads[p].cls].Some? { ThreadPlaces(s, s', p, x); } else { TablePlaces(s, s', p, s.threads[p].cls, x); }
      case SendOk(p) => ThreadPlaces(s, s', p, x);
      case SendFails(p) => ThreadPlaces(s, s', p, x);
      case RollbackDelete(p) => TablePlaces(s, s', p, s.threads[p].cls, x);
      case FreeNode(p) => ThreadPlaces(s, s', p, x);
      case Response(p, cls) => if s.table[cls].Some? { TablePlaces(s, s', p, cls, x); } else { ThreadPlaces(s, s', p, x); }
      case CtxDelete(cls) => EntryFreed(s, cls, x);
    }
  }

  lemma EntryFreed(s: State, cls: nat, x: nat)
    requires Enabled(s, CtxDelete(cls))
    ensures Places(Do(s, CtxDelete(cls)), x) == Places(s, x)
  {
    hide Count, Held;
    CountUpdate(s.table, cls, None, x);
  }

  /** One step keeps every node in one place exactly when it is not a rollback that misses. */
  lemma StepOwnsExactlyWhen(s: State, step: Step, nodes: nat)
    requires Owned(s, nodes) && Enabled(s, step)
    ensures Owned(Do(s, step), nodes) <==> !Misses(s, step)
  {
    hide Places;
    forall x: nat ensures !Misses(s, step) ==> Places(Do(s, step), x) == Places(s, x) { StepPlaces(s, step, x); }
    if Misses(s, step) { StepPlaces(s, step, s.threads[step.p].node); }
  }

  /** A missed rollback: its node is in two places, and the node it unlinked instead is in none. */
  lemma MissedRollback(s: State, step: Step, nodes: nat)
    requires Owned(s, nodes) && Misses(s, step) && s.threads[step.p].node < nodes
    ensures var pc := s.threads[step.p];
      && Places(Do(s, step), pc.node) == 2
      && (s.table[pc.cls].Some? && s.table[pc.cls].value < nodes ==> Places(Do(s, step), s.table[pc.cls].value) == 0)
  {
    hide Places;
    var pc := s.threads[step.p];
    StepPlaces(s, step, pc.node);
    if s.table[pc.cls].Some? { StepPlaces(s, step, s.table[pc.cls].value); }
  }

  // ----- all runs -----

  function Init(nodes: nat, classes: nat, threads: nat): State {
    State(Fresh(nodes), 0, seq(classes, _ => None), seq(threads, _ => Idle), seq(classes, _ => 0))
  }

  function After(nodes: nat, classes: nat, threads: nat, steps: seq<Step>): State {
    if steps == [] then Init(nodes, classes, threads)
    else
      var s := After(nodes, classes, threads, steps[..|steps| - 1]);
      if Enabled(s, steps[|steps| - 1]) then Do(s, steps[|steps| - 1]) else s
  }

  ghost predicate IsRun(nodes: nat, classes: nat, threads: nat, steps: seq<Step>) {
    forall i | 0 <= i < |steps| :: Enabled(After(nodes, classes, threads, steps[..i]), steps[i])
  }

  ghost predicate NoneMisses(nodes: nat, classes: nat, threads: nat, steps: seq<Step>) {
    forall i | 0 <= i < |steps| :: !Misses(After(nodes, classes, threads, steps[..i]), steps[i])
  }

  ghost predicate AlwaysOwned(nodes: nat, classes: nat, threads: nat, steps: seq<Step>) {
    forall i | 0 <= i <= |steps| :: Owned(After(nodes, classes, threads, steps[..i]), nodes)
  }

  lemma {:induction false} CountNone(cells: seq<Option<nat>>, x: nat)
    requires forall i | 0 <= i < |cells| :: cells[i] == None
    ensures Count(cells, x) == 0
  {
    if cells != [] { CountNone(cells[..|cells| - 1], x); }
  }

  lemma InitOwned(nodes: nat, classes: nat, threads: nat)
    ensures Owned(Init(nodes, classes, threads), nodes)
  {
    var s := Init(nodes, classes, threads);
    forall x: nat ensures Places(s, x) == if x < nodes then 1 else 0 {
      FreshOnce(nodes, x);
      CountNone(s.table, x);
      CountNone(Held(s.threads), x);
    }
  }

  /** The last step of a run. */
  lemma LastStep(nodes: nat, classes: nat, threads: nat, steps: seq<Step>)
    requires IsRun(nodes, classes, threads, steps) && steps != []
    ensures var n := |steps| - 1;
      && IsRun(nodes, classes, threads, steps[..n]) && Enabled(After(nodes, classes, threads, steps[..n]), steps[n])
      && After(nodes, classes, threads, steps) == Do(After(nodes, classes, threads, steps[..n]), steps[n])
  {
    hide Enabled, Do;
    var n := |steps| - 1;
    forall i | 0 <= i < n ensures Enabled(After(nodes, classes, threads, steps[..n][..i]), steps[..n][i]) {
      assert steps[..n][..i] == steps[..i];
    }
  }

  lemma NoneMissesSplit(nodes: nat, classes: nat, threads: nat, steps: seq<Step>)
    requires steps != []
    ensures var n := |steps| - 1;
      NoneMisses(nodes, classes, threads, steps) <==>
      NoneMisses(nodes, classes, threads, steps[..n]) && !Misses(After(nodes, classes, threads, steps[..n]), steps[n])
  {
    hide Misses, After;
    var n := |steps| - 1;
    assert forall i | 0 <= i < n :: steps[..n][..i] == steps[..i] && steps[..n][i] == steps[i];
  }

  lemma AlwaysOwnedSplit(nodes: nat, classes: nat, threads: nat, steps: seq<Step>)
    requires steps != []
    ensures var n := |steps| - 1;
      AlwaysOwned(nodes, classes, threads, steps) <==>
      AlwaysOwned(nodes, classes, threads, steps[..n]) && Owned(After(nodes, classes, threads, steps), nodes)
  {
    hide Owned, After;
    var n := |steps| - 1;
    assert steps[..|steps|] == steps;
    assert forall i | 0 <= i <= n :: steps[..n][..i] == steps[..i];
  }

  /**
    In a run every node is always in exactly one place, exactly when no rollback ever misses:
    whenever a rollback deletes, the table still holds the very node it inserted.
   */
  lemma {:induction false} RunOwnsExactlyWhen(nodes: nat, classes: nat, threads: nat, steps: seq<Step>)
    requires IsRun(nodes, classes, threads, steps)
    ensures AlwaysOwned(nodes, classes, threads, steps) <==> NoneMisses(nodes, classes, threads, steps)
  {
    hide Enabled, Do, Misses, Owned, IsRun;
    hide After;
    if steps == [] {
      NoSteps(nodes, classes, threads);
      InitOwned(nodes, classes, threads);
    } else {
      var n := |steps| - 1;
      LastStep(nodes, classes, threads, steps);
      NoneMissesSplit(nodes, classes, threads, steps);
      AlwaysOwnedSplit(nodes, classes, threads, steps);
      hide NoneMisses;
      RunOwnsExactlyWhen(nodes, classes, threads, steps[..n]);
      if AlwaysOwned(nodes, classes, threads, steps[..n]) {
        assert steps[..n][..n] == steps[..n];
        StepOwnsExactlyWhen(After(nodes, classes, threads, steps[..n]), steps[n], nodes);
      }
    }
  }

  /** While every node is in one place, the pool's counter is never negative: no BUG. */
  lemma OwnedMeansNoBug(s: State, nodes: nat)
    requires Owned(s, nodes)
    ensures 0 <= s.allocatedCnt <= nodes
  {
    forall x: nat ensures multiset(s.free)[x] <= multiset(Fresh(nodes))[x] {
      FreshOnce(nodes, x);
      assert Places(s, x) == if x < nodes then 1 else 0;
    }
    assert multiset(s.free) <= multiset(Fresh(nodes));
    Fewer(multiset(s.free), multiset(Fresh(nodes)));
    assert |multiset(s.free)| == |s.free| && |multiset(Fresh(nodes))| == nodes;
  }

  lemma Fewer(a: multiset<nat>, b: multiset<nat>)
    requires a <= b
    ensures |a| <= |b|
  {
    assert b == a + (b - a);
  }

  lemma RunTo(nodes: nat, classes: nat, threads: nat, steps: seq<Step>, step: Step, before: State, after: State)
    returns (longer: seq<Step>)
    requires IsRun(nodes, classes, threads, steps) && After(nodes, classes, threads, steps) == before
    requires Enabled(before, step) && Do(before, step) == after
    ensures IsRun(nodes, classes, threads, longer) && After(nodes, classes, threads, longer) == after
  {
    hide Enabled, Do;
    longer := steps + [step];
    assert longer[..|steps|] == steps;
    forall i | 0 <= i < |longer| ensures Enabled(After(nodes, classes, threads, longer[..i]), longer[i]) {
      if i < |steps| { assert longer[..i] == steps[..i]; }
    }
  }

  /** One node, one class, one caller: the context is removed while the request is under way. */
  lemma RemovedMeanwhile() returns (steps: seq<Step>)
    ensures IsRun(1, 1, 1, steps) && After(1, 1, 1, steps) == State([0], 0, [None], [Requesting(0, 0)], [0])
  {
    hide IsRun, After;
    var s0, s1 := State([0], 0, [None], [Idle], [0]), State([], 1, [None], [Allocated(0, 0)], [0]);
    var s2 := State([], 1, [Some(0)], [Requesting(0, 0)], [0]);
    assert Init(1, 1, 1) == s0;
    NoSteps(1, 1, 1);
    steps := RunTo(1, 1, 1, [], Begin(0, 0), s0, s1);
    steps := RunTo(1, 1, 1, steps, Insert(0), s1, s2);
    steps := RunTo(1, 1, 1, steps, CtxDelete(0), s2, State([0], 0, [None], [Requesting(0, 0)], [0]));
  }

  /** The request then turns out to have failed: the node is freed twice, and BUG is reached. */
  lemma NodeIsFreedTwice()
    ensures exists steps :: IsRun(1, 1, 1, steps) && After(1, 1, 1, steps) == State([0, 0], -1, [None], [Idle], [0])
  {
    hide IsRun, After;
    var s3, s4 := State([0], 0, [None], [Requesting(0, 0)], [0]), State([0], 0, [None], [RollingBack(0, 0)], [0]);
    var s5 := State([0], 0, [None], [MustFree(0)], [0]);
    var steps := RemovedMeanwhile();
    steps := RunTo(1, 1, 1, steps, SendFails(0), s3, s4);
    steps := RunTo(1, 1, 1, steps, RollbackDelete(0), s4, s5);
    steps := RunTo(1, 1, 1, steps, FreeNode(0), s5, State([0, 0], -1, [None], [Idle], [0]));
  }

  // ----- entries and what the card knows -----

  /**
    A response empties its class and leaves the node that was there with the caller, which will
    free it; with no entry the caller has nothing to free.  No other class is touched, and the
    card has one flow less to respond for.
   */
  lemma ResponseTakesEntry(s: State, p: nat, cls: nat)
    requires Enabled(s, Response(p, cls))
    ensures var s' := Do(s, Response(p, cls));
      && |s'.table| == |s.table| && s'.table[cls] == None
      && (forall c | 0 <= c < |s.table| && c != cls :: s'.table[c] == s.table[c])
      && |s'.threads| == |s.threads| && Holds(s'.threads[p]) == s.table[cls]
      && (s'.threads[p].MustFree? <==> s.table[cls].Some?)
      && (forall q | 0 <= q < |s.threads| && q != p :: s'.threads[q] == s.threads[q])
      && s'.free == s.free && |s'.flows| == |s.flows| && s'.flows[cls] == s.flows[cls] - 1
  {}

  /** A caller inserts exactly into an empty class; otherwise it has its node to free. */
  lemma InsertTakesClass(s: State, p: nat)
    requires Enabled(s, Insert(p))
    ensures var s', cls, n := Do(s, Insert(p)), s.threads[p].cls, s.threads[p].node;
      && |s'.table| == |s.table| && |s'.threads| == |s.threads| && s'.free == s.free
      && (forall c | 0 <= c < |s.table| && c != cls :: s'.table[c] == s.table[c])
      && (s.table[cls] == None ==> s'.table[cls] == Some(n) && s'.threads[p] == Requesting(n, cls))
      && (s.table[cls] != None ==> s'.table == s.table && s'.threads[p] == MustFree(n))
  {}

  /** The entry of class `cls` is one whose request is still under way, or has failed. */
  ghost predicate Unsettled(s: State, cls: nat)
    requires cls < |s.table|
  {
    exists p :: 0 <= p < |s.threads| && s.table[cls].Some? &&
      (s.threads[p] == Requesting(s.table[cls].value, cls) || s.threads[p] == RollingBack(s.table[cls].value, cls))
  }

  /** Every settled entry is one the card may still respond for, so that it can be removed. */
  ghost predicate Known(s: State) {
    && |s.flows| == |s.table|
    && forall cls | 0 <= cls < |s.table| && s.table[cls].Some? :: s.flows[cls] > 0 || Unsettled(s, cls)
  }

  lemma StepKeepsKnown(s: State, step: Step)
    requires Known(s) && Enabled(s, step)
    ensures Known(Do(s, step))
  {
    var s' := Do(s, step);
    forall cls | 0 <= cls < |s'.table| && s'.table[cls].Some? ensures s'.flows[cls] > 0 || Unsettled(s', cls) {
      if step.Insert? && s.threads[step.p].cls == cls && s.table[cls] == None {
        assert s'.threads[step.p] == Requesting(s'.table[cls].value, cls);
      } else {
        assert s'.table[cls] == s.table[cls];
        if s.flows[cls] == 0 {
          var p :| 0 <= p < |s.threads| &&
            (s.threads[p] == Requesting(s.table[cls].value, cls) || s.threads[p] == RollingBack(s.table[cls].value, cls));
          assert s'.flows[cls] > 0
            || s'.threads[p] == Requesting(s.table[cls].value, cls) || s'.threads[p] == RollingBack(s.table[cls].value, cls);
        }
      }
    }
  }

  /** No entry is stuck: in every run, what stays in the table the card can still have removed. */
  lemma {:induction false} EntriesAreKnown(nodes: nat, classes: nat, threads: nat, steps: seq<Step>)
    requires IsRun(nodes, classes, threads, steps)
    ensures Known(After(nodes, classes, threads, steps))
  {
    if steps != [] {
      hide Known, Enabled, Do, IsRun;
      var n := |steps| - 1;
      LastStep(nodes, classes, threads, steps);
      EntriesAreKnown(nodes, classes, threads, steps[..n]);
      StepKeepsKnown(After(nodes, classes, threads, steps[..n]), steps[n]);
    }
  }

  // ----- teardown -----

  /** The nodes in a list of cells. */
  function Cells(cells: seq<Option<nat>>): multiset<nat> {
    if cells == [] then multiset{}
    else Cells(cells[..|cells| - 1]) + (match cells[|cells| - 1] case None => multiset{} case Some(x) => multiset{x})
  }

  lemma {:induction false} CountIsCells(cells: seq<Option<nat>>, x: nat)
    ensures Count(cells, x) == Cells(cells)[x]
  {
    if cells != [] { CountIsCells(cells[..|cells| - 1], x); }
  }

  lemma {:induction false} NoCells(cells: seq<Option<nat>>)
    ensures Cells(cells) == multiset{} <==> forall i | 0 <= i < |cells| :: cells[i] == None
  {
    if cells != [] {
      NoCells(cells[..|cells| - 1]);
      if cells[|cells| - 1].Some? { assert cells[|cells| - 1].value in Cells(cells); }
      assert Cells(cells[..|cells| - 1]) <= Cells(cells);
    }
  }

  /** The pool's counter counts the nodes in the table and those that callers own. */
  lemma CounterIsOwners(s: State, nodes: nat)
    requires Owned(s, nodes)
    ensures s.allocatedCnt == |Cells(s.table)| + |Cells(Held(s.threads))|
  {
    hide Count, Cells, Held;
    var all := multiset(s.free) + Cells(s.table) + Cells(Held(s.threads));
    forall x: nat ensures all[x] == multiset(Fresh(nodes))[x] {
      CountIsCells(s.table, x);
      CountIsCells(Held(s.threads), x);
      FreshOnce(nodes, x);
      assert Places(s, x) == if x < nodes then 1 else 0;
    }
    assert all == multiset(Fresh(nodes));
    assert |all| == |s.free| + |Cells(s.table)| + |Cells(Held(s.threads))|;
  }

  /** What unm_cleanup_lro finds when it comes to nx_mem_pool_destroy. */
  predicate PoolDestroyHitsBug(s: State) { s.allocatedCnt != 0 }

  /**
    When teardown reaches the pool's BUG although every node is in one place: exactly if a node
    has been added behind it, or a caller is between two sections with a node in hand.
   */
  lemma TeardownHitsBugExactlyWhen(s: State, nodes: nat)
    requires Owned(s, nodes)
    ensures PoolDestroyHitsBug(s) <==>
      || (exists cls :: 0 <= cls < |s.table| && s.table[cls].Some?)
      || (exists p :: 0 <= p < |s.threads| && (s.threads[p].Allocated? || s.threads[p].MustFree?))
  {
    hide Cells, Places, Owned;
    CounterIsOwners(s, nodes);
    NoCells(s.table);
    NoCells(Held(s.threads));
    assert forall p | 0 <= p < |s.threads| :: Held(s.threads)[p] == Holds(s.threads[p]);
  }

  /** Such a run: a caller has its node and has not inserted it when the empty table is destroyed. */
  lemma TeardownTooEarly()
    ensures exists steps ::
              && IsRun(1, 1, 1, steps) && After(1, 1, 1, steps).table == [None]
              && Owned(After(1, 1, 1, steps), 1) && PoolDestroyHitsBug(After(1, 1, 1, steps))
  {
    hide IsRun, After, Owned;
    var s0, s1 := State([0], 0, [None], [Idle], [0]), State([], 1, [None], [Allocated(0, 0)], [0]);
    assert Init(1, 1, 1) == s0;
    NoSteps(1, 1, 1);
    var steps := RunTo(1, 1, 1, [], Begin(0, 0), s0, s1);
    InitOwned(1, 1, 1);
    StepOwnsExactlyWhen(s0, Begin(0, 0), 1);
  }

  lemma NoSteps(nodes: nat, classes: nat, threads: nat)
    ensures IsRun(nodes, classes, threads, []) && After(nodes, classes, threads, []) == Init(nodes, classes, threads)
  {}
}
