/** The cached system state: what one check does to it, to the failure counter, to the
    extended-state latch and to the restart index, and which hooks it issues. */
module StateChecks {
  import opened Bytes
  import opened Outcomes
  import Poller

  datatype SystemState = SystemState(adsState: uint16, deviceState: uint16)

  datatype ExtendedState = ExtendedState(adsState: uint16, deviceState: uint16, restartIndex: uint16)

  /** The hooks in the order in which they are issued. */
  datatype Hook =
    | StateChange(newState: SystemState, oldState: Option<SystemState>)
    | Unreachable(failures: nat)
    | Restarted(previousIndex: uint16, restartIndex: uint16)
    | ConnectionBroken

  datatype Monitor = Monitor(
    currentState: Option<SystemState>,
    extendedStateSupported: Option<bool>,
    lastRestartIndex: Option<uint16>,
    consecutiveReadFailures: nat,
    hooks: seq<Hook>)

  const INITIAL := Monitor(None, None, None, 0, [])

  /** What ReadTcSystemExtendedState and ReadTcSystemState would answer; None is an error. */
  datatype Target = Target(extended: Option<ExtendedState>, basic: Option<SystemState>)

  datatype Step =
    | Check(target: Target)
    | Connected(initialState: Option<SystemState>)
    | Disconnected
    | ConnectionLost

  // ----------------------------------------------------------------- A check

  /** The state read, the restart index if it came from the extended state, and the latch. */
  datatype Reading = Reading(state: Option<SystemState>, restartIndex: Option<uint16>, supported: Option<bool>)

  function Read(supported: Option<bool>, target: Target): Reading {
    if supported == Some(false) then Reading(target.basic, None, supported)
    else
      match target.extended
      case Some(e) => Reading(Some(SystemState(e.adsState, e.deviceState)), Some(e.restartIndex), Some(true))
      case None =>
        if supported == Some(true) then Reading(None, None, supported) else Reading(target.basic, None, Some(false))
  }

  function Lose(m: Monitor, reason: Hook): Monitor {
    m.(currentState := None, hooks := m.hooks + [reason])
  }

  function Fail(m: Monitor, max: int): Monitor {
    var failures := m.consecutiveReadFailures + 1;
    if failures >= max then Lose(m.(consecutiveReadFailures := 0), Unreachable(failures))
    else m.(consecutiveReadFailures := failures)
  }

  /** A successful read, compared with the state and the index that were cached when the
      check began. */
  function Succeed(m: Monitor, state: SystemState, index: Option<uint16>,
                   oldState: Option<SystemState>, oldIndex: Option<uint16>): Monitor
  {
    var m := m.(consecutiveReadFailures := 0, currentState := Some(state));
    var changed := m.(hooks := m.hooks + [StateChange(state, oldState)]);
    if oldState == None || oldState.value.adsState != state.adsState then changed
    else if index.Some? && oldIndex.Some? && index != oldIndex
    then Lose(changed, Restarted(oldIndex.value, index.value))
    else m
  }

  /** checkState of the current poller, from the fields that it `saw` at its begin. */
  function CheckFrom(m: Monitor, max: int, saw: Monitor, target: Target): Monitor {
    var r := Read(saw.extendedStateSupported, target);
    var m := m.(extendedStateSupported := if r.supported != saw.extendedStateSupported then r.supported
                                          else m.extendedStateSupported,
                lastRestartIndex := if r.restartIndex.Some? then r.restartIndex else m.lastRestartIndex);
    if r.state == None then Fail(m, max)
    else Succeed(m, r.state.value, r.restartIndex, saw.currentState, saw.lastRestartIndex)
  }

  function Next(m: Monitor, max: int, step: Step): Monitor {
    match step
    case Check(target) => CheckFrom(m, max, m, target)
    case Connected(None) => m
    case Connected(Some(s)) => m.(currentState := Some(s), hooks := m.hooks + [StateChange(s, None)])
    case Disconnected => m.(currentState := None, consecutiveReadFailures := 0)
    case ConnectionLost => Lose(m, ConnectionBroken)
  }

  /** The last step of a run comes last. */
  function Exec(max: int, steps: seq<Step>): Monitor {
    if steps == [] then INITIAL
    else Next(Exec(max, steps[..|steps| - 1]), max, steps[|steps| - 1])
  }

  // ------------------------------------------------------- Failure tolerance

  predicate Fails(m: Monitor, step: Step) {
    step.Check? && Read(m.extendedStateSupported, step.target).state == None
  }

  /** The failed checks since the last one that succeeded and since the last Disconnect. */
  function Streak(max: int, steps: seq<Step>): nat {
    if steps == [] then 0
    else
      var before := steps[..|steps| - 1];
      match steps[|steps| - 1]
      case Check(_) => if Fails(Exec(max, before), steps[|steps| - 1]) then Streak(max, before) + 1 else 0
      case Disconnected => 0
      case _ => Streak(max, before)
  }

  function Limit(max: int): nat
    ensures Limit(max) > 0
  {
    if max < 1 then 1 else max
  }

  lemma ModStep(n: nat, m: nat)
    requires m > 0
    ensures (n + 1) % m == if n % m == m - 1 then 0 else n % m + 1
  {
    var q, r := n / m, n % m;
    assert n == q * m + r;
    if r == m - 1 {
      assert n + 1 == (q + 1) * m;
      DivisionIs(n + 1, q + 1, 0, m);
    } else {
      DivisionIs(n + 1, q, r + 1, m);
    }
  }

  /** Over every run the counter is the streak of failures modulo the limit. */
  lemma {:induction false} CounterIsStreak(max: int, steps: seq<Step>)
    ensures Exec(max, steps).consecutiveReadFailures == Streak(max, steps) % Limit(max)
  {
    if steps == [] {
      DivisionIs(0, 0, 0, Limit(max));
    } else {
      var before := steps[..|steps| - 1];
      CounterIsStreak(max, before);
      ModStep(Streak(max, before), Limit(max));
      DivisionIs(0, 0, 0, Limit(max));
    }
  }

  /** The hooks that a step issues. */
  function Issued(m: Monitor, max: int, step: Step): seq<Hook>
    ensures Next(m, max, step).hooks == m.hooks + Issued(m, max, step)
  {
    HooksGrow(m, max, step);
    Next(m, max, step).hooks[|m.hooks|..]
  }

  lemma HooksGrow(m: Monitor, max: int, step: Step)
    ensures m.hooks <= Next(m, max, step).hooks
  {
  }

  lemma IssuedIs(m: Monitor, max: int, step: Step, hooks: seq<Hook>)
    requires Next(m, max, step).hooks == m.hooks + hooks
    ensures Issued(m, max, step) == hooks
  {
  }

  /** A step issues a report of unreachability, or changes, or nothing. */
  lemma IssuedBy(m: Monitor, max: int, step: Step)
    ensures var hooks := Issued(m, max, step);
      if Fails(m, step) then
        hooks == if m.consecutiveReadFailures + 1 >= max then [Unreachable(m.consecutiveReadFailures + 1)] else []
      else
        && (step.Check? ==> hooks == CheckHooks(m, step.target))
        && (step.Disconnected? ==> hooks == [])
        && (step.ConnectionLost? ==> hooks == [ConnectionBroken])
        && (step.Connected? ==> |hooks| <= 1 && forall h :: h in hooks ==> h.StateChange?)
  {
    var hooks :=
      match step
      case Check(target) =>
        if Fails(m, step)
        then if m.consecutiveReadFailures + 1 >= max then [Unreachable(m.consecutiveReadFailures + 1)] else []
        else CheckHooks(m, target)
      case Connected(None) => []
      case Connected(Some(s)) => [StateChange(s, None)]
      case Disconnected => []
      case ConnectionLost => [ConnectionBroken];
    assert Next(m, max, step).hooks == m.hooks + hooks;
    IssuedIs(m, max, step, hooks);
  }

  function CheckHooks(m: Monitor, target: Target): seq<Hook>
    requires !Fails(m, Check(target))
  {
    var r := Read(m.extendedStateSupported, target);
    var change := StateChange(r.state.value, m.currentState);
    if m.currentState == None || m.currentState.value.adsState != r.state.value.adsState then [change]
    else if r.restartIndex.Some? && m.lastRestartIndex.Some? && r.restartIndex != m.lastRestartIndex
    then [change, Restarted(m.lastRestartIndex.value, r.restartIndex.value)]
    else []
  }

  /** A check reports the target unreachable exactly when it fails and its failure is the
      Limit-th, or 2 * Limit-th, and so on, of an unbroken streak; the report then counts
      Limit failures and is the only hook. */
  lemma UnreachableExactly(max: int, steps: seq<Step>, step: Step)
    ensures var m := Exec(max, steps);
      && m.consecutiveReadFailures < Limit(max)
      && (if Fails(m, step) && Streak(max, steps + [step]) % Limit(max) == 0
          then Issued(m, max, step) == [Unreachable(Limit(max))]
          else forall h :: h in Issued(m, max, step) ==> !h.Unreachable?)
  {
    var m := Exec(max, steps);
    CounterIsStreak(max, steps);
    if Fails(m, step) {
      StreakGrows(max, steps, step);
    }
    FailureIssues(m, max, step, Streak(max, steps));
  }

  lemma StreakGrows(max: int, steps: seq<Step>, step: Step)
    requires Fails(Exec(max, steps), step)
    ensures Streak(max, steps + [step]) == Streak(max, steps) + 1
  {
    assert (steps + [step])[..|steps|] == steps;
  }

  lemma FailureIssues(m: Monitor, max: int, step: Step, streak: nat)
    requires m.consecutiveReadFailures == streak % Limit(max)
    ensures if Fails(m, step) && (streak + 1) % Limit(max) == 0
            then Issued(m, max, step) == [Unreachable(Limit(max))]
            else forall h :: h in Issued(m, max, step) ==> !h.Unreachable?
  {
    ModStep(streak, Limit(max));
    IssuedBy(m, max, step);
  }

  // ------------------------------------------------- What a check leaves behind

  /** The extended read answers. */
  predicate ReadsExtended(m: Monitor, target: Target) {
    m.extendedStateSupported != Some(false) && target.extended.Some?
  }

  /** The basic read is made, because the extended one is known not to be supported or has
      just failed for the first time, and answers. */
  predicate ReadsBasic(m: Monitor, target: Target) {
    && target.basic.Some?
    && (m.extendedStateSupported == Some(false) || (m.extendedStateSupported == None && target.extended == None))
  }

  /** The extended read shows another restart index in an unchanged AdsState. */
  predicate SeesRestart(m: Monitor, target: Target) {
    && ReadsExtended(m, target)
    && m.lastRestartIndex.Some? && m.lastRestartIndex.value != target.extended.value.restartIndex
    && m.currentState.Some? && m.currentState.value.adsState == target.extended.value.adsState
  }

  /** All that the end of a check makes of the client `m` and announces, when the check
      `saw` the client as it was at its begin: `m'` is what it leaves. */
  predicate EndsAs(m: Monitor, saw: Monitor, m': Monitor, max: int, target: Target) {
    && m'.extendedStateSupported == (if saw.extendedStateSupported.Some? then m.extendedStateSupported
                                     else Some(target.extended.Some?))
    && m'.lastRestartIndex == (if ReadsExtended(saw, target) then Some(target.extended.value.restartIndex)
                               else m.lastRestartIndex)
    && if ReadsExtended(saw, target) then
         var e := target.extended.value;
         Succeeds(m, saw, m', SystemState(e.adsState, e.deviceState),
                  if SeesRestart(saw, target) then [Restarted(saw.lastRestartIndex.value, e.restartIndex)] else [])
       else if ReadsBasic(saw, target) then Succeeds(m, saw, m', target.basic.value, [])
       else
         var failures := m.consecutiveReadFailures + 1;
         && m'.consecutiveReadFailures == (if failures >= max then 0 else failures)
         && m'.currentState == (if failures >= max then None else m.currentState)
         && m'.hooks == m.hooks + if failures >= max then [Unreachable(failures)] else []
  }

  /** The check read `state`, and reports a restart or nothing behind the change. */
  predicate Succeeds(m: Monitor, saw: Monitor, m': Monitor, state: SystemState, restart: seq<Hook>) {
    && m'.consecutiveReadFailures == 0
    && m'.currentState == (if restart == [] then Some(state) else None)
    && m'.hooks == m.hooks
         + (if restart != [] || saw.currentState == None || saw.currentState.value.adsState != state.adsState
            then [StateChange(state, saw.currentState)] else [])
         + restart
  }

  lemma CheckEndsAs(m: Monitor, max: int, saw: Monitor, target: Target)
    ensures EndsAs(m, saw, CheckFrom(m, max, saw, target), max, target)
  {
    var supported := if saw.extendedStateSupported.Some? then m.extendedStateSupported else Some(target.extended.Some?);
    YesNoOrUnknown(saw.extendedStateSupported);
    if ReadsExtended(saw, target) {
      var e := target.extended.value;
      var index := Some(e.restartIndex);
      SuccessEndsAs(m, m.(extendedStateSupported := supported, lastRestartIndex := index), saw,
                    SystemState(e.adsState, e.deviceState), index);
    } else if ReadsBasic(saw, target) {
      SuccessEndsAs(m, m.(extendedStateSupported := supported), saw, target.basic.value, None);
    } else {
      assert Read(saw.extendedStateSupported, target).state == None;
    }
  }

  lemma YesNoOrUnknown(b: Option<bool>)
    ensures b == None || b == Some(true) || b == Some(false)
  {
    if b.Some? {
      assert b == if b.value then Some(true) else Some(false);
    }
  }

  lemma SuccessEndsAs(m: Monitor, read: Monitor, saw: Monitor, state: SystemState, index: Option<uint16>)
    requires read.hooks == m.hooks
    ensures var m' := Succeed(read, state, index, saw.currentState, saw.lastRestartIndex);
      var restarted := index.Some? && saw.lastRestartIndex.Some? && index != saw.lastRestartIndex
                       && saw.currentState.Some? && saw.currentState.value.adsState == state.adsState;
      && Succeeds(m, saw, m', state, if restarted then [Restarted(saw.lastRestartIndex.value, index.value)] else [])
      && m'.extendedStateSupported == read.extendedStateSupported && m'.lastRestartIndex == read.lastRestartIndex
  {
    var change := StateChange(state, saw.currentState);
    assert m.hooks + [] + [] == m.hooks;
    assert m.hooks + [change] + [] == m.hooks + [change];
  }

  /** In every run, all that a check leaves in the client and all that it announces. */
  lemma CheckExactly(max: int, steps: seq<Step>, target: Target)
    ensures var m := Exec(max, steps); EndsAs(m, m, Exec(max, steps + [Check(target)]), max, target)
  {
    var m := Exec(max, steps);
    ExecSnoc(max, steps, Check(target));
    CheckEndsAs(m, max, m, target);
  }

  /** And all that connecting, disconnecting and losing the connection do. */
  lemma ConnectionExactly(max: int, steps: seq<Step>, initial: SystemState)
    ensures var m := Exec(max, steps);
      && Exec(max, steps + [Connected(None)]) == m
      && Exec(max, steps + [Connected(Some(initial))])
           == m.(currentState := Some(initial), hooks := m.hooks + [StateChange(initial, None)])
      && Exec(max, steps + [Disconnected]) == m.(currentState := None, consecutiveReadFailures := 0)
      && Exec(max, steps + [ConnectionLost]) == m.(currentState := None, hooks := m.hooks + [ConnectionBroken])
  {
    ExecSnoc(max, steps, Connected(None));
    ExecSnoc(max, steps, Connected(Some(initial)));
    ExecSnoc(max, steps, Disconnected);
    ExecSnoc(max, steps, ConnectionLost);
  }

  // ------------------------------------------------------ Latch and restarts

  lemma {:induction false} ExecSnoc(max: int, steps: seq<Step>, step: Step)
    ensures Exec(max, steps + [step]) == Next(Exec(max, steps), max, step)
  {
  }

  /** Once known, whether the extended state is supported never changes again. */
  lemma {:induction false} LatchIsFinal(max: int, steps: seq<Step>, after: seq<Step>)
    requires Exec(max, steps).extendedStateSupported.Some?
    ensures Exec(max, steps + after).extendedStateSupported == Exec(max, steps).extendedStateSupported
  {
    if after == [] {
      assert steps + after == steps;
    } else {
      var n := |after| - 1;
      assert steps + after == (steps + after[..n]) + [after[n]];
      LatchIsFinal(max, steps, after[..n]);
      ExecSnoc(max, steps + after[..n], after[n]);
      LatchStep(Exec(max, steps + after[..n]), max, after[n]);
    }
  }

  lemma LatchStep(m: Monitor, max: int, step: Step)
    requires m.extendedStateSupported.Some?
    ensures Next(m, max, step).extendedStateSupported == m.extendedStateSupported
  {
    match step
    case Check(target) =>
      var supported := m.extendedStateSupported.value;
      assert m.extendedStateSupported == if supported then Some(true) else Some(false);
    case Connected(None) =>
    case Connected(Some(_)) =>
    case Disconnected =>
    case ConnectionLost =>
  }

  /** The restart indices of all successful extended reads of a run. */
  function Indices(max: int, steps: seq<Step>): seq<uint16> {
    if steps == [] then []
    else
      var n := |steps| - 1;
      Indices(max, steps[..n]) + IndexRead(Exec(max, steps[..n]), steps[n])
  }

  function IndexRead(m: Monitor, step: Step): seq<uint16> {
    if step.Check? && m.extendedStateSupported != Some(false) && step.target.extended.Some?
    then [step.target.extended.value.restartIndex]
    else []
  }

  function LastIndex(indices: seq<uint16>): Option<uint16> {
    if indices == [] then None else Some(indices[|indices| - 1])
  }

  lemma {:induction false} IndexIsLast(max: int, steps: seq<Step>)
    ensures Exec(max, steps).lastRestartIndex == LastIndex(Indices(max, steps))
  {
    if steps != [] {
      var n := |steps| - 1;
      IndexIsLast(max, steps[..n]);
      IndexStep(Exec(max, steps[..n]), max, steps[n]);
    }
  }

  lemma IndexStep(m: Monitor, max: int, step: Step)
    ensures var read := IndexRead(m, step);
      Next(m, max, step).lastRestartIndex == if read == [] then m.lastRestartIndex else Some(read[|read| - 1])
  {
  }

  /** A check reports a restart exactly when its extended read succeeds with an index other
      than that of the last successful one, while a state with the same AdsState is cached. */
  lemma RestartedExactly(max: int, steps: seq<Step>, step: Step)
    ensures var m := Exec(max, steps); var read := IndexRead(m, step); var last := LastIndex(Indices(max, steps));
      if read != [] && last.Some? && last.value != read[0]
         && m.currentState.Some? && m.currentState.value.adsState == step.target.extended.value.adsState
      then
        var e := step.target.extended.value;
        Issued(m, max, step) == [StateChange(SystemState(e.adsState, e.deviceState), m.currentState),
                                 Restarted(last.value, e.restartIndex)]
      else forall h :: h in Issued(m, max, step) ==> !h.Restarted?
  {
    IndexIsLast(max, steps);
    IssuedBy(Exec(max, steps), max, step);
  }

  function Restarts(hooks: seq<Hook>): nat {
    if hooks == [] then 0
    else Restarts(hooks[..|hooks| - 1]) + if hooks[|hooks| - 1].Restarted? then 1 else 0
  }

  function Changes(indices: seq<uint16>): nat {
    if |indices| < 2 then 0
    else
      var n := |indices| - 1;
      Changes(indices[..n]) + if indices[n] != indices[n - 1] then 1 else 0
  }

  lemma {:induction false} RestartsAppend(a: seq<Hook>, b: seq<Hook>)
    ensures Restarts(a + b) == Restarts(a) + Restarts(b)
  {
    if b == [] {
      assert a + b == a;
    } else {
      var n := |b| - 1;
      assert (a + b)[..|a + b| - 1] == a + b[..n];
      RestartsAppend(a, b[..n]);
    }
  }

  /** No change of the index is reported twice: a run has no more reports than changes. */
  lemma {:induction false} RestartsAreChanges(max: int, steps: seq<Step>)
    ensures Restarts(Exec(max, steps).hooks) <= Changes(Indices(max, steps))
  {
    if steps != [] {
      var n := |steps| - 1;
      var before, step := steps[..n], steps[n];
      var m := Exec(max, before);
      RestartsAreChanges(max, before);
      RestartsAppend(m.hooks, Issued(m, max, step));
      RestartedExactly(max, before, step);
      var indices, read := Indices(max, before), IndexRead(m, step);
      if read != [] {
        assert (indices + read)[..|indices|] == indices;
        AtMostOneRestart(m, max, step);
      } else {
        assert indices + read == indices;
        NoRestart(Issued(m, max, step));
      }
      if LastIndex(indices).None? || read == [] || LastIndex(indices).value == read[0] {
        NoRestart(Issued(m, max, step));
      }
    }
  }

  lemma {:induction false} NoRestart(hooks: seq<Hook>)
    requires forall h :: h in hooks ==> !h.Restarted?
    ensures Restarts(hooks) == 0
  {
    if hooks != [] {
      NoRestart(hooks[..|hooks| - 1]);
    }
  }

  lemma AtMostOneRestart(m: Monitor, max: int, step: Step)
    ensures Restarts(Issued(m, max, step)) <= 1
  {
    IssuedBy(m, max, step);
    var hooks := Issued(m, max, step);
    if |hooks| == 2 {
      NoRestart(hooks[..1]);
    } else {
      assert |hooks| > 0 ==> hooks[..|hooks| - 1] == [];
    }
  }

  /** One failed extended read while the latch is open ends restart detection for good. */
  lemma {:induction false} FirstFailureEndsDetection(max: int, steps: seq<Step>, target: Target, after: seq<Step>)
    requires Exec(max, steps).extendedStateSupported == None && target.extended == None
    ensures Restarts(Exec(max, steps + [Check(target)] + after).hooks)
         == Restarts(Exec(max, steps + [Check(target)]).hooks)
  {
    var start := steps + [Check(target)];
    ExecSnoc(max, steps, Check(target));
    if after == [] {
      assert start + after == start;
    } else {
      var n := |after| - 1;
      var before := start + after[..n];
      assert start + after == before + [after[n]];
      FirstFailureEndsDetection(max, steps, target, after[..n]);
      LatchIsFinal(max, start, after[..n]);
      ExecSnoc(max, before, after[n]);
      UndetectedStep(max, before, after[n]);
    }
  }

  lemma UndetectedStep(max: int, steps: seq<Step>, step: Step)
    requires Exec(max, steps).extendedStateSupported == Some(false)
    ensures Restarts(Next(Exec(max, steps), max, step).hooks) == Restarts(Exec(max, steps).hooks)
  {
    var m := Exec(max, steps);
    RestartedExactly(max, steps, step);
    NoRestart(Issued(m, max, step));
    RestartsAppend(m.hooks, Issued(m, max, step));
  }

  // ------------------------------------------------- Events replay to the cache

  /** An event with an old state directly follows the event that announced its AdsState. */
  predicate Chained(hooks: seq<Hook>) {
    hooks != [] ==>
      var n := |hooks| - 1;
      && Chained(hooks[..n])
      && (hooks[n].StateChange? && hooks[n].oldState.Some? ==> Announces(hooks[..n], hooks[n].oldState.value.adsState))
  }

  /** The last hook announced this AdsState. */
  predicate Announces(hooks: seq<Hook>, adsState: uint16) {
    hooks != [] && hooks[|hooks| - 1].StateChange? && hooks[|hooks| - 1].newState.adsState == adsState
  }

  predicate Synced(m: Monitor) {
    m.currentState.Some? ==> Announces(m.hooks, m.currentState.value.adsState)
  }

  lemma ChainedSnoc(hooks: seq<Hook>, hook: Hook)
    requires Chained(hooks)
    requires hook.StateChange? && hook.oldState.Some? ==> Announces(hooks, hook.oldState.value.adsState)
    ensures Chained(hooks + [hook])
  {
    assert (hooks + [hook])[..|hooks|] == hooks;
  }

  /** In every run the cached state is the one last announced, and the events link up. */
  lemma {:induction false} EventsReplayToCache(max: int, steps: seq<Step>)
    ensures var m := Exec(max, steps); Chained(m.hooks) && Synced(m)
  {
    if steps != [] {
      var n := |steps| - 1;
      EventsReplayToCache(max, steps[..n]);
      StepReplays(Exec(max, steps[..n]), max, steps[n]);
    }
  }

  lemma StepReplays(m: Monitor, max: int, step: Step)
    requires Chained(m.hooks) && Synced(m)
    ensures var m' := Next(m, max, step); Chained(m'.hooks) && Synced(m')
  {
    match step
    case Connected(None) =>
    case Connected(Some(s)) => ChainedSnoc(m.hooks, StateChange(s, None));
    case Disconnected =>
    case ConnectionLost => LossReplays(m, ConnectionBroken);
    case Check(target) => OverlapKeepsReplayIff(m, max, m, target);
  }

  lemma LossReplays(m: Monitor, reason: Hook)
    requires Chained(m.hooks) && !reason.StateChange?
    ensures var m' := Lose(m, reason); Chained(m'.hooks) && Synced(m')
  {
  }

  /** A check that began in any other state keeps the replay if and only if it fails, or
      had seen no state, or the state that it had seen is still the one announced last. */
  lemma OverlapKeepsReplayIff(m: Monitor, max: int, saw: Monitor, target: Target)
    requires Chained(m.hooks) && Synced(m)
    ensures var m' := CheckFrom(m, max, saw, target);
      Chained(m'.hooks) && Synced(m') <==>
        || Read(saw.extendedStateSupported, target).state == None
        || saw.currentState == None
        || Announces(m.hooks, saw.currentState.value.adsState)
  {
    var r := Read(saw.extendedStateSupported, target);
    if r.state == None {
      ChainedSnoc(m.hooks, Unreachable(m.consecutiveReadFailures + 1));
    } else {
      SuccessKeepsReplayIff(m, r.state.value, r.restartIndex, saw.currentState, saw.lastRestartIndex);
    }
  }

  lemma SuccessKeepsReplayIff(m: Monitor, state: SystemState, index: Option<uint16>,
                              oldState: Option<SystemState>, oldIndex: Option<uint16>)
    requires Chained(m.hooks)
    ensures var m' := Succeed(m, state, index, oldState, oldIndex);
      Chained(m'.hooks) && Synced(m') <==> oldState == None || Announces(m.hooks, oldState.value.adsState)
  {
    var change := StateChange(state, oldState);
    var hooks := m.hooks + [change];
    ChainedIff(m.hooks, change);
    if index.Some? && oldIndex.Some? {
      ChainedIff(hooks, Restarted(oldIndex.value, index.value));
    }
  }

  lemma ChainedIff(hooks: seq<Hook>, hook: Hook)
    ensures Chained(hooks + [hook]) <==>
      Chained(hooks) && (hook.StateChange? && hook.oldState.Some? ==> Announces(hooks, hook.oldState.value.adsState))
  {
    assert (hooks + [hook])[..|hooks|] == hooks;
  }

  /** So a check that began before the connection was lost and ends after it, finding the
      state it had seen, caches a state that nothing announced since. */
  lemma OverlappingCheckBreaksReplay(max: int, steps: seq<Step>, state: SystemState, lost: Step)
    requires Exec(max, steps).currentState == Some(state) && lost == ConnectionLost
    ensures var saw, m := Exec(max, steps), Exec(max, steps + [lost]);
      forall target :: Read(saw.extendedStateSupported, target).state.Some? ==>
        var m' := CheckFrom(m, max, saw, target); !(Chained(m'.hooks) && Synced(m'))
  {
    var saw, m := Exec(max, steps), Exec(max, steps + [lost]);
    ExecSnoc(max, steps, lost);
    EventsReplayToCache(max, steps + [lost]);
    forall target | Read(saw.extendedStateSupported, target).state.Some?
      ensures var m' := CheckFrom(m, max, saw, target); !(Chained(m'.hooks) && Synced(m'))
    {
      OverlapKeepsReplayIff(m, max, saw, target);
    }
  }

  // ------------------------------------------------------ Overlapping checks

  /** A client while checks are under way: for each the fields that it read at its begin. */
  datatype Overlap = Overlap(m: Monitor, saw: map<nat, Monitor>)

  datatype Move =
    | CheckBegin(check: nat)
    | CheckEnd(check: nat, target: Target)
    | Whole(step: Step)

  function After(s: Overlap, max: int, move: Move): Overlap {
    match move
    case CheckBegin(k) => s.(saw := s.saw[k := s.m])
    case CheckEnd(k, target) =>
      if k !in s.saw then s else Overlap(CheckFrom(s.m, max, s.saw[k], target), s.saw - {k})
    case Whole(step) => s.(m := Next(s.m, max, step))
  }

  function Interleave(max: int, moves: seq<Move>): Overlap {
    if moves == [] then Overlap(INITIAL, map[])
    else After(Interleave(max, moves[..|moves| - 1]), max, moves[|moves| - 1])
  }

  predicate Replays(m: Monitor) {
    Chained(m.hooks) && Synced(m)
  }

  predicate AlwaysReplays(max: int, moves: seq<Move>) {
    Replays(Interleave(max, moves).m) && (moves != [] ==> AlwaysReplays(max, moves[..|moves| - 1]))
  }

  /** A check that ends here fails, or had seen no state, or the state that it had seen
      is still the one announced last. */
  predicate EndFits(s: Overlap, move: Move) {
    move.CheckEnd? && move.check in s.saw ==>
      var saw := s.saw[move.check];
      || Read(saw.extendedStateSupported, move.target).state == None
      || saw.currentState == None
      || Announces(s.m.hooks, saw.currentState.value.adsState)
  }

  predicate AllEndsFit(max: int, moves: seq<Move>) {
    moves != [] ==>
      var front := moves[..|moves| - 1];
      AllEndsFit(max, front) && EndFits(Interleave(max, front), moves[|moves| - 1])
  }

  lemma MoveReplaysIff(s: Overlap, max: int, move: Move)
    requires Replays(s.m)
    ensures Replays(After(s, max, move).m) <==> EndFits(s, move)
  {
    match move
    case CheckBegin(_) =>
    case CheckEnd(k, target) =>
      if k in s.saw {
        OverlapKeepsReplayIff(s.m, max, s.saw[k], target);
      }
    case Whole(step) => StepReplays(s.m, max, step);
  }

  /** In every interleaving of checks that begin and end anywhere, the events replay to
      the cache at every point if and only if each check that ends fits. */
  lemma {:induction false} OverlapReplaysIff(max: int, moves: seq<Move>)
    ensures AlwaysReplays(max, moves) <==> AllEndsFit(max, moves)
  {
    if moves != [] {
      var front := moves[..|moves| - 1];
      OverlapReplaysIff(max, front);
      if AlwaysReplays(max, front) {
        MoveReplaysIff(Interleave(max, front), max, moves[|moves| - 1]);
      }
    }
  }

  /** In every interleaving, what the begin of a check notes and what its end leaves; the
      other steps are those of the monitor. */
  lemma OverlapExactly(max: int, moves: seq<Move>, k: nat, target: Target, step: Step)
    ensures var s := Interleave(max, moves);
      Interleave(max, moves + [Whole(step)]) == s.(m := Next(s.m, max, step))
    ensures var s := Interleave(max, moves);
      var begun, ended := Interleave(max, moves + [CheckBegin(k)]), Interleave(max, moves + [CheckEnd(k, target)]);
      && begun == s.(saw := s.saw[k := s.m])
      && if k in s.saw then EndsAs(s.m, s.saw[k], ended.m, max, target) && ended.saw == s.saw - {k} else ended == s
  {
    var s := Interleave(max, moves);
    assert (moves + [CheckBegin(k)])[..|moves|] == moves && (moves + [CheckEnd(k, target)])[..|moves|] == moves;
    assert (moves + [Whole(step)])[..|moves|] == moves;
    if k in s.saw {
      CheckEndsAs(s.m, max, s.saw[k], target);
    }
  }

  // ------------------------------------------------------- The client's fields

  class Client {
    const maxConsecutiveReadFailures: int
    const poller: Poller.StatePoller
    var currentState: Option<SystemState>
    var extendedStateSupported: Option<bool>
    var lastRestartIndex: Option<uint16>
    var consecutiveReadFailures: nat
    ghost var hooks: seq<Hook>

    ghost function Abstract(): Monitor
      reads this
    {
      Monitor(currentState, extendedStateSupported, lastRestartIndex, consecutiveReadFailures, hooks)
    }

    constructor (max: int, interval: int)
      ensures Abstract() == INITIAL && maxConsecutiveReadFailures == max
      ensures fresh(poller) && poller.Abstract() == Poller.INITIAL
    {
      maxConsecutiveReadFailures := max;
      poller := new Poller.StatePoller(interval);
      currentState, extendedStateSupported, lastRestartIndex := None, None, None;
      consecutiveReadFailures, hooks := 0, [];
    }

    method InvokeStateChangeHook(newState: SystemState, oldState: Option<SystemState>)
      modifies this`hooks
      ensures hooks == old(hooks) + [StateChange(newState, oldState)]
    {
      hooks := hooks + [StateChange(newState, oldState)];
    }

    method InvokeConnectionLostHook(ghost reason: Hook)
      modifies this`currentState, this`hooks
      ensures Abstract() == Lose(old(Abstract()), reason)
    {
      currentState := None;
      hooks := hooks + [reason];
    }

    /** The reads of checkState, which fall back to the basic state only while it is not
        known whether the extended one is supported. */
    method ReadState(extendedSupported: Option<bool>, target: Target)
      returns (newState: Option<SystemState>, newRestartIndex: Option<uint16>)
      modifies this`extendedStateSupported, this`lastRestartIndex
      ensures var r := Read(extendedSupported, target);
        && newState == r.state && newRestartIndex == r.restartIndex
        && extendedStateSupported == (if r.supported != extendedSupported then r.supported
                                      else old(extendedStateSupported))
        && lastRestartIndex == if r.restartIndex.Some? then r.restartIndex else old(lastRestartIndex)
    {
      newState, newRestartIndex := None, None;
      if extendedSupported == None || extendedSupported.value {
        if target.extended == None {
          if extendedSupported == None {
            extendedStateSupported := Some(false);
            newState := target.basic;
          }
        } else {
          if extendedSupported == None {
            extendedStateSupported := Some(true);
          }
          var extState := target.extended.value;
          newState := Some(SystemState(extState.adsState, extState.deviceState));
          newRestartIndex := Some(extState.restartIndex);
          lastRestartIndex := newRestartIndex;
        }
      } else {
        newState := target.basic;
      }
    }

    /** A check that a fired timer starts: nothing unless its poller is current; then one
        atomic step of the monitor, and the poller goes on unless a loss was reported. */
    method CheckState(ghost timer: nat, pollerID: nat, target: Target)
      requires Poller.Is(poller.Abstract(), timer, Poller.Fired) && poller.runs[timer].pollerID == pollerID
      modifies this, poller
      ensures var entered := Poller.Next(old(poller.Abstract()), Poller.Enter(timer));
        var before, after := old(Abstract()), Next(old(Abstract()), maxConsecutiveReadFailures, Check(target));
        if pollerID != old(poller.statePollerID) then poller.Abstract() == entered && Abstract() == before
        else
          && Abstract() == after
          && poller.Abstract() == Poller.Next(entered, if ReportsLoss(before, after) then Poller.ReportLoss(timer)
                                                       else Poller.Reschedule(timer))
    {
      var valid := poller.EnterCheck(timer, pollerID);
      if !valid {
        return;
      }
      FinishCheck(timer, pollerID, currentState, extendedStateSupported, lastRestartIndex, target);
    }

    /** The rest of a check that read these fields at its begin; others may have changed
        them, and the poller, since. */
    method FinishCheck(ghost timer: nat, pollerID: nat, oldState: Option<SystemState>,
                       extendedSupported: Option<bool>, oldRestartIndex: Option<uint16>, target: Target)
      requires Poller.Is(poller.Abstract(), timer, Poller.Reading) && poller.runs[timer].pollerID == pollerID
      modifies this, poller
      ensures var saw := Monitor(oldState, extendedSupported, oldRestartIndex, 0, []);
        var before, after := old(Abstract()), CheckFrom(old(Abstract()), maxConsecutiveReadFailures, saw, target);
        && Abstract() == after
        && poller.Abstract() == Poller.Next(old(poller.Abstract()), if ReportsLoss(before, after)
                                                                    then Poller.ReportLoss(timer)
                                                                    else Poller.Reschedule(timer))
    {
      var newState, newRestartIndex := ReadState(extendedSupported, target);
      if newState == None {
        consecutiveReadFailures := consecutiveReadFailures + 1;
        if consecutiveReadFailures >= maxConsecutiveReadFailures {
          var count := consecutiveReadFailures;
          consecutiveReadFailures := 0;
          InvokeConnectionLostHook(Unreachable(count));
          poller.EndWithLoss(timer);
          return;
        }
        poller.ScheduleNextStateCheck(timer, pollerID);
        return;
      }
      consecutiveReadFailures := 0;
      currentState := newState;
      if oldState == None {
        InvokeStateChangeHook(newState.value, None);
      } else if newState.value.adsState != oldState.value.adsState {
        InvokeStateChangeHook(newState.value, oldState);
      } else if newRestartIndex != None && oldRestartIndex != None && newRestartIndex.value != oldRestartIndex.value {
        InvokeStateChangeHook(newState.value, oldState);
        InvokeConnectionLostHook(Restarted(oldRestartIndex.value, newRestartIndex.value));
        poller.EndWithLoss(timer);
        return;
      }
      poller.ScheduleNextStateCheck(timer, pollerID);
    }

    /** The end of Connect: the initial state, if it can be read, and a new poller. */
    method FinishConnect(initialState: Option<SystemState>)
      modifies this, poller
      ensures Abstract() == Next(old(Abstract()), maxConsecutiveReadFailures, Connected(initialState))
      ensures poller.Abstract() == if poller.statePollingInterval <= 0 then old(poller.Abstract())
                                   else Poller.Next(old(poller.Abstract()), Poller.Start)
    {
      if initialState != None {
        currentState := initialState;
        InvokeStateChangeHook(initialState.value, None);
      }
      if poller.statePollingInterval > 0 {
        poller.StartStatePoller();
      }
    }

    /** Disconnect of an established connection. */
    method Disconnect()
      modifies this, poller
      ensures Abstract() == Next(old(Abstract()), maxConsecutiveReadFailures, Disconnected)
      ensures poller.Abstract() == Poller.Next(old(poller.Abstract()), Poller.Stop)
    {
      poller.StopStatePoller();
      currentState := None;
      consecutiveReadFailures := 0;
    }
  }

  /** Between the two, a lost connection was reported. */
  predicate ReportsLoss(before: Monitor, after: Monitor) {
    |after.hooks| > |before.hooks| && !after.hooks[|after.hooks| - 1].StateChange?
  }
}
