/**
  The device state register and the three kinds of recovery that claim it: transmit-timeout
  tasks of every PCI function, the PCI error (AER) handlers of every function, and the one
  firmware watchdog, which belongs to function 0.

  The threads interleave freely; each step below is one locked section or one register write
  of the code.  The API lock is assumed to be obtained, the temperature check to pass.
 */
module DeviceReset {

  datatype Reg = Ready | TxTimeout | Reset | Aer | Failed

  /** Where unm_watchdog_task_fw_reset is; `Stopped` means its timer is not re-armed. */
  datatype Watchdog =
    | Sleeping
    | Passed            // first look at the register done
    | TimeoutSeen       // second look found TX_TIMEOUT
    | TimeoutRecovery
    | Checking          // second look found something else; firmware about to be checked
    | ResetGranted      // nx_dev_request_reset succeeded
    | ResetRecovery
    | Stopped

  /**
    The AER handlers of one function.  Recovering lasts from error_detected to slot_reset,
    Recovered from there to resume; a function whose slot_reset fails is Disconnected, and gets
    no resume.
   */
  datatype AerHandler = Idle | Recovering | Recovered | Disconnected

  datatype State = State(reg: Reg, wd: Watchdog, aer: seq<AerHandler>)

  datatype Step =
    | TxTimeoutTask                    // nx_dev_request_tx_timeout, from any function
    | AerDetected(f: nat)              // nx_dev_request_aer in error_detected
    | AerSlotReset(f: nat)
    | AerSlotResetFails(f: nat)        // PCI_ERS_RESULT_DISCONNECT
    | AerResume(f: nat)                // nx_clear_aer_state in resume
    | WdFirstLook
    | WdQuiet                          // no automatic reset, old firmware, or firmware alive
    | WdSecondLook
    | WdTooManyLoads                   // check_fw_reset_failure, or a fatal error
    | WdStartRecovery
    | WdRequestReset
    | WdFinish

  predicate Unfinished(h: AerHandler) { h == Recovering || h == Disconnected }

  /**
    When a step can happen.  With `barrier`, PCI error recovery resumes a function only when
    every function has come through slot_reset, as the error-recovery core of the kernel does.
   */
  predicate Enabled(s: State, step: Step, barrier: bool) {
    match step
    case TxTimeoutTask => true
    case AerDetected(f) => f < |s.aer| && s.aer[f] == Idle
    case AerSlotReset(f) => f < |s.aer| && s.aer[f] == Recovering
    case AerSlotResetFails(f) => f < |s.aer| && s.aer[f] == Recovering
    case AerResume(f) =>
      && f < |s.aer| && !Unfinished(s.aer[f])
      && (barrier ==> !AerActive(s))
    case WdFirstLook => s.wd == Sleeping
    case WdQuiet => s.wd == Passed || s.wd == Checking
    case WdSecondLook => s.wd == Passed
    case WdTooManyLoads => s.wd == TimeoutSeen || s.wd == ResetGranted
    case WdStartRecovery => s.wd == TimeoutSeen || s.wd == ResetGranted
    case WdRequestReset => s.wd == Checking
    case WdFinish => s.wd == TimeoutRecovery || s.wd == ResetRecovery
  }

  function Do(s: State, step: Step): State {
    match step
    case TxTimeoutTask => if s.reg == Ready then s.(reg := TxTimeout) else s
    case AerDetected(f) =>
      if f >= |s.aer| then s
      else if s.reg == Aer then s.(aer := s.aer[f := Recovering])
      else if f != 0 || s.reg != Ready then s
      else s.(reg := Aer, aer := s.aer[f := Recovering])
    case AerSlotReset(f) => if f < |s.aer| then s.(aer := s.aer[f := Recovered]) else s
    case AerSlotResetFails(f) => if f < |s.aer| then s.(aer := s.aer[f := Disconnected]) else s
    case AerResume(f) =>
      if f >= |s.aer| then s
      else s.(reg := if s.reg == Aer then Ready else s.reg, aer := s.aer[f := Idle])
    case WdFirstLook => s.(wd := if s.reg == Ready || s.reg == TxTimeout then Passed else Sleeping)
    case WdQuiet => s.(wd := Sleeping)
    case WdSecondLook => s.(wd := if s.reg == TxTimeout then TimeoutSeen else Checking)
    case WdTooManyLoads => s.(reg := if s.wd == ResetGranted then Failed else s.reg, wd := Stopped)
    case WdStartRecovery => s.(wd := if s.wd == TimeoutSeen then TimeoutRecovery else ResetRecovery)
    case WdRequestReset =>
      if s.reg == Reset then s.(wd := ResetGranted)
      else if s.reg != Ready then s.(wd := Sleeping)
      else s.(reg := Reset, wd := ResetGranted)
    case WdFinish => s.(reg := Ready, wd := Sleeping)
  }

  function Init(functions: nat): State { State(Ready, Sleeping, seq(functions, _ => Idle)) }

  function After(functions: nat, steps: seq<Step>): State {
    if steps == [] then Init(functions) else Do(After(functions, steps[..|steps| - 1]), steps[|steps| - 1])
  }

  ghost predicate IsRun(functions: nat, steps: seq<Step>, barrier: bool) {
    forall i | 0 <= i < |steps| :: Enabled(After(functions, steps[..i]), steps[i], barrier)
  }

  // ----- what must hold -----

  /** Granted and not finished; the timeout recovery is granted to a task and done by the watchdog. */
  predicate TimeoutActive(s: State) { s.reg == TxTimeout || s.wd == TimeoutSeen || s.wd == TimeoutRecovery }

  predicate ResetActive(s: State) { s.wd == ResetGranted || s.wd == ResetRecovery }

  /** A function has been detached and not been brought up again. */
  predicate AerActive(s: State) { exists f | 0 <= f < |s.aer| :: Unfinished(s.aer[f]) }

  /** The longer reading: a function has not been resumed. */
  predicate AerHeld(s: State) { exists f | 0 <= f < |s.aer| :: s.aer[f] != Idle }

  predicate Apart(timeout: bool, reset: bool, aer: bool) {
    !(timeout && reset) && !(timeout && aer) && !(reset && aer)
  }

  predicate NoOverlap(s: State) { Apart(TimeoutActive(s), ResetActive(s), AerActive(s)) }

  predicate NoOverlapUntilResume(s: State) { Apart(TimeoutActive(s), ResetActive(s), AerHeld(s)) }

  /** A step may start a recovery only from Ready, or join the AER recovery that is active. */
  predicate GrantIsLegal(s: State, s': State) {
    && (s'.reg != s.reg && s'.reg in {TxTimeout, Reset, Aer} ==> s.reg == Ready)
    && (ResetActive(s') && !ResetActive(s) ==> s.reg == Ready)
    && (AerActive(s') && !AerActive(s) ==> s.reg == Ready || s.reg == Aer)
    && (TimeoutActive(s') && !TimeoutActive(s) ==> s.reg == Ready)
  }

  /** Once the register says Failed it says so for good; a stopped watchdog leaves it stuck. */
  predicate StaysDown(s: State, s': State) {
    && (s.reg == Failed ==> s'.reg == Failed)
    && (s.wd == Stopped ==> s'.wd == Stopped && s'.reg == s.reg)
  }

  /** Every active recovery owns the register: timeout and reset always, ... */
  predicate WatchdogInv(s: State) {
    && (s.wd == TimeoutSeen || s.wd == TimeoutRecovery ==> s.reg == TxTimeout)
    && (ResetActive(s) <==> s.reg == Reset)
    && (s.reg == Failed ==> s.wd == Stopped)
    && (s.wd == Stopped ==> s.reg == Failed || s.reg == TxTimeout)
  }

  /** ... AER when resume waits, or when there is only one function. */
  predicate Inv(s: State) { WatchdogInv(s) && (AerActive(s) ==> s.reg == Aer) }

  predicate Orderly(functions: nat, barrier: bool) { barrier || functions <= 1 }

  lemma StepKeepsWatchdogInv(s: State, step: Step, barrier: bool)
    requires WatchdogInv(s) && Enabled(s, step, barrier)
    ensures WatchdogInv(Do(s, step)) && StaysDown(s, Do(s, step)) && |Do(s, step).aer| == |s.aer|
  {}

  lemma StepKeepsInv(s: State, step: Step, barrier: bool)
    requires Inv(s) && Enabled(s, step, barrier) && Orderly(|s.aer|, barrier)
    ensures Inv(Do(s, step)) && GrantIsLegal(s, Do(s, step)) && StaysDown(s, Do(s, step))
  {
    var s' := Do(s, step);
    StepKeepsWatchdogInv(s, step, barrier);
    match step {
      case AerDetected(f) => if s'.aer != s.aer { assert Unfinished(s'.aer[f]); }
      case AerSlotReset(f) => assert Unfinished(s.aer[f]);
      case AerSlotResetFails(f) => assert Unfinished(s.aer[f]);
      case AerResume(f) => OthersKept(s, s', f);
      case _ =>
    }
  }

  lemma OthersKept(s: State, s': State, f: nat)
    requires f < |s.aer| == |s'.aer| && s'.aer == s.aer[f := s'.aer[f]] && !Unfinished(s'.aer[f])
    ensures AerActive(s') ==> AerActive(s) && |s.aer| > 1
  {
    if AerActive(s') {
      var g :| 0 <= g < |s'.aer| && Unfinished(s'.aer[g]);
      assert Unfinished(s.aer[g]);
    }
  }

  lemma LastStep(functions: nat, steps: seq<Step>, barrier: bool)
    requires IsRun(functions, steps, barrier) && steps != []
    ensures var n := |steps| - 1;
      && IsRun(functions, steps[..n], barrier) && Enabled(After(functions, steps[..n]), steps[n], barrier)
      && After(functions, steps) == Do(After(functions, steps[..n]), steps[n])
  {
    hide Enabled, Do;
    var n := |steps| - 1;
    forall i | 0 <= i < n ensures Enabled(After(functions, steps[..n][..i]), steps[..n][i], barrier) {
      assert steps[..n][..i] == steps[..i];
    }
  }

  lemma {:induction false} RunKeepsInv(functions: nat, steps: seq<Step>, barrier: bool)
    requires IsRun(functions, steps, barrier)
    ensures WatchdogInv(After(functions, steps)) && |After(functions, steps).aer| == functions
    ensures Orderly(functions, barrier) ==> Inv(After(functions, steps))
  {
    if steps != [] {
      var n := |steps| - 1;
      LastStep(functions, steps, barrier);
      RunKeepsInv(functions, steps[..n], barrier);
      var s := After(functions, steps[..n]);
      StepKeepsWatchdogInv(s, steps[n], barrier);
      if Orderly(functions, barrier) { StepKeepsInv(s, steps[n], barrier); }
    }
  }

  /** Safety of all runs: recoveries never overlap, are granted legally, and Failed is final. */
  lemma Safety(functions: nat, steps: seq<Step>, step: Step, barrier: bool)
    requires Orderly(functions, barrier)
    requires IsRun(functions, steps, barrier) && Enabled(After(functions, steps), step, barrier)
    ensures var s, s' := After(functions, steps), Do(After(functions, steps), step);
      NoOverlap(s) && NoOverlap(s') && GrantIsLegal(s, s') && StaysDown(s, s')
  {
    RunKeepsInv(functions, steps, barrier);
    StepKeepsInv(After(functions, steps), step, barrier);
  }

  /** A function whose slot_reset failed keeps the register at AER for good. */
  lemma DisconnectedSticks(functions: nat, steps: seq<Step>, step: Step, f: nat)
    requires IsRun(functions, steps, true) && Enabled(After(functions, steps), step, true)
    requires f < |After(functions, steps).aer| && After(functions, steps).aer[f] == Disconnected
    ensures After(functions, steps).reg == Aer && Do(After(functions, steps), step).reg == Aer
    ensures f < |Do(After(functions, steps), step).aer| && Do(After(functions, steps), step).aer[f] == Disconnected
  {
    RunKeepsInv(functions, steps, true);
    var s := After(functions, steps);
    assert Unfinished(s.aer[f]);
  }

  // ----- exactly when -----

  lemma Extend(functions: nat, steps: seq<Step>, step: Step, barrier: bool)
    requires IsRun(functions, steps, barrier) && Enabled(After(functions, steps), step, barrier)
    ensures IsRun(functions, steps + [step], barrier)
    ensures After(functions, steps + [step]) == Do(After(functions, steps), step)
  {
    var longer := steps + [step];
    assert longer[..|steps|] == steps;
    forall i | 0 <= i < |longer| ensures Enabled(After(functions, longer[..i]), longer[i], barrier) {
      if i < |steps| { assert longer[..i] == steps[..i]; }
    }
  }

  lemma ExtendBy(functions: nat, steps: seq<Step>, step: Step, barrier: bool, before: State, expected: State)
    returns (longer: seq<Step>)
    requires IsRun(functions, steps, barrier) && After(functions, steps) == before
    requires Enabled(before, step, barrier) && Do(before, step) == expected
    ensures longer == steps + [step]
    ensures IsRun(functions, longer, barrier) && After(functions, longer) == expected
  {
    longer := steps + [step];
    Extend(functions, steps, step, barrier);
  }

  lemma NoSteps(functions: nat, barrier: bool)
    ensures IsRun(functions, [], barrier) && After(functions, []) == Init(functions)
  {}

  /** Two functions recover from an AER, both after the other, and neither is resumed yet. */
  lemma TwoRecover(functions: nat, barrier: bool) returns (steps: seq<Step>)
    requires functions >= 2
    ensures IsRun(functions, steps, barrier)
    ensures After(functions, steps) ==
      State(Aer, Sleeping, Init(functions).aer[0 := Recovering][1 := Recovering])
  {
    hide IsRun, After;
    var aer := Init(functions).aer;
    NoSteps(functions, barrier);
    var s0, s1 := Init(functions), State(Aer, Sleeping, aer[0 := Recovering]);
    var s2 := State(Aer, Sleeping, aer[0 := Recovering][1 := Recovering]);
    steps := ExtendBy(functions, [], AerDetected(0), barrier, s0, s1);
    steps := ExtendBy(functions, steps, AerDetected(1), barrier, s1, s2);
  }

  /**
    The barrier is needed.  The first of two functions resumes and makes the register Ready
    while the second is still recovering, and the watchdog is granted a reset.
   */
  lemma OverlapWithoutBarrier(functions: nat)
    requires functions >= 2
    ensures exists steps :: IsRun(functions, steps, false) && !NoOverlap(After(functions, steps))
  {
    hide IsRun, After;
    var steps := TwoRecover(functions, false);
    var two := Init(functions).aer[0 := Recovering][1 := Recovering];
    var s0, s1 := State(Aer, Sleeping, two), State(Aer, Sleeping, two[0 := Recovered]);
    var left := two[0 := Recovered][0 := Idle];
    steps := ExtendBy(functions, steps, AerSlotReset(0), false, s0, s1);
    steps := ExtendBy(functions, steps, AerResume(0), false, s1, State(Ready, Sleeping, left));
    steps := ExtendBy(functions, steps, WdFirstLook, false, State(Ready, Sleeping, left), State(Ready, Passed, left));
    steps := ExtendBy(functions, steps, WdSecondLook, false, State(Ready, Passed, left), State(Ready, Checking, left));
    steps := ExtendBy(functions, steps, WdRequestReset, false, State(Ready, Checking, left), State(Reset, ResetGranted, left));
    assert Unfinished(left[1]);
  }

  /** No overlap in any run: exactly when resume waits, or there is at most one function. */
  lemma NoOverlapExactlyWhen(functions: nat, barrier: bool)
    ensures (forall steps | IsRun(functions, steps, barrier) :: NoOverlap(After(functions, steps)))
            <==> Orderly(functions, barrier)
  {
    hide IsRun, After;
    if Orderly(functions, barrier) {
      forall steps | IsRun(functions, steps, barrier) ensures NoOverlap(After(functions, steps)) {
        RunKeepsInv(functions, steps, barrier);
      }
    } else {
      OverlapWithoutBarrier(functions);
    }
  }

  /**
    In the longer reading two functions do overlap, barrier or not: both have come through
    slot_reset, the first to be resumed makes the register Ready, and a timeout is granted.
   */
  lemma OverlapBeforeResume(functions: nat, barrier: bool)
    requires functions >= 2
    ensures exists steps :: IsRun(functions, steps, barrier) && !NoOverlapUntilResume(After(functions, steps))
  {
    hide IsRun, After;
    var steps := TwoRecover(functions, barrier);
    var two := Init(functions).aer[0 := Recovering][1 := Recovering];
    var done := two[0 := Recovered][1 := Recovered];
    var s0, s1 := State(Aer, Sleeping, two), State(Aer, Sleeping, two[0 := Recovered]);
    var s2, s3 := State(Aer, Sleeping, done), State(Ready, Sleeping, done[0 := Idle]);
    steps := ExtendBy(functions, steps, AerSlotReset(0), barrier, s0, s1);
    steps := ExtendBy(functions, steps, AerSlotReset(1), barrier, s1, s2);
    steps := ExtendBy(functions, steps, AerResume(0), barrier, s2, s3);
    steps := ExtendBy(functions, steps, TxTimeoutTask, barrier, s3, s3.(reg := TxTimeout));
    assert s3.aer[1] != Idle;
  }

  /** No overlap up to resume in any run: exactly when there is at most one function. */
  lemma NoOverlapUntilResumeExactlyWhen(functions: nat, barrier: bool)
    ensures (forall steps | IsRun(functions, steps, barrier) :: NoOverlapUntilResume(After(functions, steps)))
            <==> functions <= 1
  {
    hide IsRun, After;
    if functions <= 1 {
      forall steps | IsRun(functions, steps, barrier) ensures NoOverlapUntilResume(After(functions, steps)) {
        RunKeepsInv(functions, steps, barrier);
        OnlyFunctionHolds(functions, steps, barrier);
      }
    } else {
      OverlapBeforeResume(functions, barrier);
    }
  }

  lemma {:induction false} OnlyFunctionHolds(functions: nat, steps: seq<Step>, barrier: bool)
    requires IsRun(functions, steps, barrier) && functions <= 1
    ensures AerHeld(After(functions, steps)) ==> After(functions, steps).reg == Aer
  {
    if steps != [] {
      var n := |steps| - 1;
      LastStep(functions, steps, barrier);
      OnlyFunctionHolds(functions, steps[..n], barrier);
      RunKeepsInv(functions, steps[..n], barrier);
      OnlyFunctionStep(After(functions, steps[..n]), steps[n], barrier);
    }
  }

  lemma OnlyFunctionStep(s: State, step: Step, barrier: bool)
    requires WatchdogInv(s) && |s.aer| <= 1 && Enabled(s, step, barrier) && (AerHeld(s) ==> s.reg == Aer)
    ensures AerHeld(Do(s, step)) ==> Do(s, step).reg == Aer
  {
    if |s.aer| == 1 && s.aer[0] != Idle { assert AerHeld(s); }
  }

  // ----- a watchdog that gives up -----

  /**
    Where a run leaves the register once the watchdog has given up: Failed exactly if it gave
    up with a granted reset in hand, else at the transmit timeout nobody will handle.
   */
  lemma {:induction false} GivenUp(functions: nat, steps: seq<Step>, i: nat, barrier: bool)
    requires IsRun(functions, steps, barrier) && i < |steps| && steps[i] == WdTooManyLoads
    ensures After(functions, steps).wd == Stopped
    ensures After(functions, steps).reg ==
      if After(functions, steps[..i]).wd == ResetGranted then Failed else TxTimeout
  {
    var n := |steps| - 1;
    hide IsRun, After, Enabled, Do, WatchdogInv;
    LastStep(functions, steps, barrier);
    RunKeepsInv(functions, steps[..n], barrier);
    if i < n {
      assert steps[..n][..i] == steps[..i];
      GivenUp(functions, steps[..n], i, barrier);
      StepKeepsWatchdogInv(After(functions, steps[..n]), steps[n], barrier);
    } else {
      GiveUpStep(After(functions, steps[..n]), barrier);
    }
  }

  lemma GiveUpStep(s: State, barrier: bool)
    requires WatchdogInv(s) && Enabled(s, WdTooManyLoads, barrier)
    ensures Do(s, WdTooManyLoads).wd == Stopped
    ensures Do(s, WdTooManyLoads).reg == if s.wd == ResetGranted then Failed else TxTimeout
  {}

  lemma StoppedStep(s: State, step: Step, barrier: bool)
    requires Enabled(s, step, barrier)
    ensures Do(s, step).wd == Stopped <==> s.wd == Stopped || step == WdTooManyLoads
  {}

  /** The run that leaves TX_TIMEOUT in the register for good. */
  lemma TimeoutIsLeft(functions: nat, barrier: bool)
    ensures exists steps :: IsRun(functions, steps, barrier) &&
              After(functions, steps) == State(TxTimeout, Stopped, Init(functions).aer)
  {
    hide IsRun, After;
    var s := Init(functions);
    NoSteps(functions, barrier);
    var s1 := s.(reg := TxTimeout);
    var steps := ExtendBy(functions, [], TxTimeoutTask, barrier, s, s1);
    steps := ExtendBy(functions, steps, WdFirstLook, barrier, s1, s1.(wd := Passed));
    steps := ExtendBy(functions, steps, WdSecondLook, barrier, s1.(wd := Passed), s1.(wd := TimeoutSeen));
    steps := ExtendBy(functions, steps, WdTooManyLoads, barrier, s1.(wd := TimeoutSeen), s1.(wd := Stopped));
  }

  /** The watchdog is stopped exactly when it has given up. */
  lemma {:induction false} StoppedExactlyWhen(functions: nat, steps: seq<Step>, barrier: bool)
    requires IsRun(functions, steps, barrier)
    ensures After(functions, steps).wd == Stopped <==> WdTooManyLoads in steps
  {
    if steps != [] {
      var n := |steps| - 1;
      hide IsRun, Enabled, Do, After;
      LastStep(functions, steps, barrier);
      StoppedExactlyWhen(functions, steps[..n], barrier);
      StoppedStep(After(functions, steps[..n]), steps[n], barrier);
      assert steps == steps[..n] + [steps[n]];
    }
  }

  // ----- claims, ends, and coming back to READY -----

  /**
    When a recovery is granted: a timeout and a reset exactly from Ready; an AER recovery exactly
    from Ready, to function 0, or into one that is there.
   */
  lemma GrantedExactlyWhen(s: State, f: nat, barrier: bool)
    requires WatchdogInv(s)
    ensures !TimeoutActive(s) ==> (TimeoutActive(Do(s, TxTimeoutTask)) <==> s.reg == Ready)
    ensures s.wd == Checking ==> (ResetActive(Do(s, WdRequestReset)) <==> s.reg == Ready)
    ensures s.reg != Ready ==> Do(s, TxTimeoutTask) == s && (s.wd == Checking ==> Do(s, WdRequestReset).reg == s.reg)
    ensures Enabled(s, AerDetected(f), barrier) ==>
      var s' := Do(s, AerDetected(f));
      && (|s'.aer| == |s.aer| && s'.aer[f] == Recovering <==> s.reg == Aer || (s.reg == Ready && f == 0))
      && (s'.aer[f] == Recovering ==> s'.reg == Aer) && (s'.aer[f] != Recovering ==> s' == s)
  {}

  /** What the watchdog makes of its two looks at the register. */
  lemma LooksExactlyWhen(s: State, barrier: bool)
    ensures Enabled(s, WdFirstLook, barrier) ==> (Do(s, WdFirstLook).wd == Passed <==> s.reg in {Ready, TxTimeout})
    ensures Enabled(s, WdSecondLook, barrier) ==> (Do(s, WdSecondLook).wd == TimeoutSeen <==> s.reg == TxTimeout)
    ensures Do(s, WdFirstLook).reg == s.reg == Do(s, WdSecondLook).reg
  {}

  /** Where a recovery ends: timeout and reset leave Ready, and so does a resume after an AER. */
  lemma RecoveryEnds(s: State, f: nat, barrier: bool)
    requires WatchdogInv(s)
    ensures Enabled(s, WdFinish, barrier) ==>
      && (s.reg == TxTimeout || s.reg == Reset)
      && Do(s, WdFinish) == State(Ready, Sleeping, s.aer)
    ensures Enabled(s, AerResume(f), barrier) ==>
      && Do(s, AerResume(f)).reg == (if s.reg == Aer then Ready else s.reg)
      && Do(s, AerResume(f)).aer == s.aer[f := Idle]
  {}

  predicate SomeDisconnected(s: State) { exists f | 0 <= f < |s.aer| :: s.aer[f] == Disconnected }

  /** The register says Aer only while a function is not idle. */
  lemma {:induction false} AerHasHolder(functions: nat, steps: seq<Step>, barrier: bool)
    requires IsRun(functions, steps, barrier)
    ensures After(functions, steps).reg == Aer ==> AerHeld(After(functions, steps))
  {
    if steps != [] {
      var n := |steps| - 1;
      LastStep(functions, steps, barrier);
      AerHasHolder(functions, steps[..n], barrier);
      HolderStep(After(functions, steps[..n]), steps[n], barrier);
    }
  }

  lemma HolderStep(s: State, step: Step, barrier: bool)
    requires Enabled(s, step, barrier) && (s.reg == Aer ==> AerHeld(s))
    ensures Do(s, step).reg == Aer ==> AerHeld(Do(s, step))
  {
    var s' := Do(s, step);
    if s'.reg == Aer {
      match step {
        case AerDetected(f) => if s'.aer != s.aer { assert s'.aer[f] == Recovering; }
        case AerSlotReset(f) => assert s'.aer[f] != Idle;
        case AerSlotResetFails(f) => assert s'.aer[f] != Idle;
        case _ =>
      }
    }
  }

  function CountRecovering(aer: seq<AerHandler>): nat {
    if aer == [] then 0 else CountRecovering(aer[..|aer| - 1]) + (if aer[|aer| - 1] == Recovering then 1 else 0)
  }

  lemma {:induction false} OneRecovered(aer: seq<AerHandler>, f: nat)
    requires f < |aer| && aer[f] == Recovering
    ensures CountRecovering(aer[f := Recovered]) + 1 == CountRecovering(aer)
  {
    var n := |aer| - 1;
    if f == n {
      assert aer[f := Recovered][..n] == aer[..n];
    } else {
      assert aer[f := Recovered][..n] == aer[..n][f := Recovered];
      OneRecovered(aer[..n], f);
    }
  }

  /** An AER recovery without a disconnected function can end: slot_reset for all, then resume. */
  lemma AerCanEnd(functions: nat, steps: seq<Step>) returns (longer: seq<Step>)
    requires IsRun(functions, steps, true) && After(functions, steps).reg == Aer
    requires !SomeDisconnected(After(functions, steps)) && AerHeld(After(functions, steps))
    ensures steps <= longer && IsRun(functions, longer, true) && After(functions, longer).reg == Ready
    decreases CountRecovering(After(functions, steps).aer)
  {
    hide IsRun, After;
    var s := After(functions, steps);
    if AerActive(s) {
      var f :| 0 <= f < |s.aer| && Unfinished(s.aer[f]);
      assert s.aer[f] != Disconnected;
      OneRecovered(s.aer, f);
      var s' := Do(s, AerSlotReset(f));
      assert s'.aer[f] != Idle;
      longer := ExtendBy(functions, steps, AerSlotReset(f), true, s, s');
      longer := AerCanEnd(functions, longer);
    } else {
      var f :| 0 <= f < |s.aer| && s.aer[f] != Idle;
      longer := ExtendBy(functions, steps, AerResume(f), true, s, Do(s, AerResume(f)));
    }
  }

  /** A watchdog that has been granted a recovery, or finds one to do, can bring it to its end. */
  lemma WatchdogCanEnd(functions: nat, steps: seq<Step>) returns (longer: seq<Step>)
    requires IsRun(functions, steps, true)
    requires var s := After(functions, steps); WatchdogInv(s) && s.wd != Stopped && (s.reg == TxTimeout || s.reg == Reset)
    ensures steps <= longer && IsRun(functions, longer, true) && After(functions, longer).reg == Ready
    decreases match After(functions, steps).wd
      case Checking => 5 case Sleeping => 4 case Passed => 3 case TimeoutSeen => 2 case ResetGranted => 2 case _ => 1
  {
    hide IsRun, After;
    var s := After(functions, steps);
    var step := match s.wd
      case Checking => WdQuiet case Sleeping => WdFirstLook case Passed => WdSecondLook
      case TimeoutSeen => WdStartRecovery case ResetGranted => WdStartRecovery case _ => WdFinish;
    longer := ExtendBy(functions, steps, step, true, s, Do(s, step));
    if step != WdFinish {
      StepKeepsWatchdogInv(s, step, true);
      longer := WatchdogCanEnd(functions, longer);
    }
  }

  lemma {:induction false} StuckStays(functions: nat, steps: seq<Step>, longer: seq<Step>)
    requires IsRun(functions, longer, true) && steps <= longer && IsRun(functions, steps, true)
    requires After(functions, steps).wd == Stopped || SomeDisconnected(After(functions, steps))
    ensures After(functions, longer).wd == Stopped || SomeDisconnected(After(functions, longer))
    ensures After(functions, longer).reg != Ready
    decreases |longer|
  {
    hide IsRun, After;
    RunKeepsInv(functions, longer, true);
    if longer == steps {
      StuckIsNotReady(After(functions, steps));
    } else {
      var n := |longer| - 1;
      LastStep(functions, longer, true);
      RunKeepsInv(functions, longer[..n], true);
      StuckStays(functions, steps, longer[..n]);
      var s := After(functions, longer[..n]);
      StepKeepsWatchdogInv(s, longer[n], true);
      if s.wd != Stopped {
        var f :| 0 <= f < |s.aer| && s.aer[f] == Disconnected;
        assert Unfinished(s.aer[f]);
        assert Do(s, longer[n]).aer[f] == Disconnected;
      }
      StuckIsNotReady(After(functions, longer));
    }
  }

  lemma StuckIsNotReady(s: State)
    requires Inv(s) && (s.wd == Stopped || SomeDisconnected(s))
    ensures s.reg != Ready
  {
    if SomeDisconnected(s) {
      var f :| 0 <= f < |s.aer| && s.aer[f] == Disconnected;
      assert Unfinished(s.aer[f]);
    }
  }

  /**
    Whether the device can come back.  From a reachable state the register can become Ready again
    exactly when the watchdog has not given up and no function's slot_reset has failed.
   */
  lemma ReadyAgainExactlyWhen(functions: nat, steps: seq<Step>)
    requires IsRun(functions, steps, true)
    ensures (exists longer :: steps <= longer && IsRun(functions, longer, true) && After(functions, longer).reg == Ready)
            <==> After(functions, steps).wd != Stopped && !SomeDisconnected(After(functions, steps))
  {
    hide IsRun, After;
    RunKeepsInv(functions, steps, true);
    var s := After(functions, steps);
    if s.wd == Stopped || SomeDisconnected(s) {
      forall longer | steps <= longer && IsRun(functions, longer, true) ensures After(functions, longer).reg != Ready {
        StuckStays(functions, steps, longer);
      }
    } else if s.reg == Aer {
      AerHasHolder(functions, steps, true);
      var longer := AerCanEnd(functions, steps);
    } else if s.reg != Ready {
      var longer := WatchdogCanEnd(functions, steps);
    }
  }
}
