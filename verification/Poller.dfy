/** The generations of the state poller: timers and the checks they turn into, under
    every interleaving of start, stop, timers that fire and checks that go on. */
module Poller {
  import opened Outcomes

  /** A timer that has not fired; a check that has not yet looked at the poller ID; one
      that found it current and is reading the state. */
  datatype Phase = Armed | Fired | Reading

  datatype Run = Run(pollerID: nat, phase: Phase)

  /** `runs` are the armed timers and the unfinished checks, by the number of the timer;
      `losses` the poller IDs whose check reported a lost connection, in order. */
  datatype State = State(
    statePollerID: nat,
    statePollerTimer: Option<nat>,
    runs: map<nat, Run>,
    timers: nat,
    losses: seq<nat>)

  const INITIAL := State(0, None, map[], 0, [])

  /** Each step is one critical section of statePollerMutex, or the end of a check. */
  datatype Step =
    | Start
    | Stop
    | Fire(timer: nat)
    | Enter(timer: nat)
    | Reschedule(timer: nat)
    | ReportLoss(timer: nat)

  predicate Is(s: State, timer: nat, phase: Phase) {
    timer in s.runs && s.runs[timer].phase == phase
  }

  /** Timer.Stop of the stored timer: no effect on one that has fired. */
  function Stopped(s: State): map<nat, Run> {
    if s.statePollerTimer.Some? && Is(s, s.statePollerTimer.value, Armed)
    then s.runs - {s.statePollerTimer.value}
    else s.runs
  }

  /** time.AfterFunc, stored. */
  function AfterFunc(s: State, pollerID: nat): State {
    s.(statePollerTimer := Some(s.timers), runs := s.runs[s.timers := Run(pollerID, Armed)], timers := s.timers + 1)
  }

  function Next(s: State, step: Step): State {
    match step
    case Start =>
      AfterFunc(s.(runs := Stopped(s), statePollerID := s.statePollerID + 1), s.statePollerID + 1)
    case Stop =>
      s.(runs := Stopped(s), statePollerTimer := None, statePollerID := s.statePollerID + 1)
    case Fire(t) =>
      if Is(s, t, Armed) then s.(runs := s.runs[t := s.runs[t].(phase := Fired)]) else s
    case Enter(t) =>
      if !Is(s, t, Fired) then s
      else if s.runs[t].pollerID != s.statePollerID then s.(runs := s.runs - {t})
      else s.(runs := s.runs[t := s.runs[t].(phase := Reading)])
    case Reschedule(t) =>
      if !Is(s, t, Reading) then s
      else
        var pollerID := s.runs[t].pollerID;
        var ended := s.(runs := s.runs - {t});
        if pollerID != s.statePollerID then ended else AfterFunc(ended, pollerID)
    case ReportLoss(t) =>
      if !Is(s, t, Reading) then s
      else s.(runs := s.runs - {t}, losses := s.losses + [s.runs[t].pollerID])
  }

  function Exec(s: State, steps: seq<Step>): State
    decreases |steps|
  {
    if steps == [] then s else Exec(Next(s, steps[0]), steps[1..])
  }

  // ------------------------------------------------------------ Invariant

  predicate Distinct(ids: seq<nat>) {
    forall i, j :: 0 <= i < j < |ids| ==> ids[i] != ids[j]
  }

  ghost predicate Valid(s: State) {
    && (forall t :: t in s.runs ==> t < s.timers && s.runs[t].pollerID <= s.statePollerID)
    && (forall t :: Is(s, t, Armed) ==> s.statePollerTimer == Some(t) && s.runs[t].pollerID == s.statePollerID)
    && (forall t, u :: t in s.runs && u in s.runs && s.runs[t].pollerID == s.runs[u].pollerID ==> t == u)
    && (forall t :: t in s.runs ==> s.runs[t].pollerID !in s.losses)
    && (forall id :: id in s.losses ==> id <= s.statePollerID)
    && Distinct(s.losses)
  }

  lemma NextValid(s: State, step: Step)
    requires Valid(s)
    ensures Valid(Next(s, step))
  {
    match step
    case Start => StartValid(s);
    case Stop => StoppedValid(s);
    case Fire(t) => PhaseValid(s, t, Fired);
    case Enter(t) => EndValid(s, t); PhaseValid(s, t, Reading);
    case Reschedule(t) => RescheduleValid(s, t);
    case ReportLoss(t) => LossValid(s, t);
  }

  lemma StartValid(s: State)
    requires Valid(s)
    ensures Valid(Next(s, Start))
  {
  }

  lemma RescheduleValid(s: State, t: nat)
    requires Valid(s)
    ensures Valid(Next(s, Reschedule(t)))
  {
    EndValid(s, t);
    if Is(s, t, Reading) && s.runs[t].pollerID == s.statePollerID {
      ArmValid(s.(runs := s.runs - {t}));
    }
  }

  lemma PhaseValid(s: State, t: nat, phase: Phase)
    requires Valid(s) && phase != Armed
    ensures t in s.runs ==> Valid(s.(runs := s.runs[t := s.runs[t].(phase := phase)]))
  {
  }

  lemma LossValid(s: State, t: nat)
    requires Valid(s)
    ensures Valid(Next(s, ReportLoss(t)))
  {
  }

  lemma EndValid(s: State, t: nat)
    requires Valid(s)
    ensures Valid(s.(runs := s.runs - {t}))
  {
  }

  lemma StoppedValid(s: State)
    requires Valid(s)
    ensures Valid(s.(runs := Stopped(s), statePollerID := s.statePollerID + 1))
    ensures Valid(s.(runs := Stopped(s), statePollerTimer := None, statePollerID := s.statePollerID + 1))
  {
    StoppedLeavesNoneArmed(s);
  }

  /** An ID that nothing holds any more may arm a timer. */
  lemma ArmValid(s: State)
    requires Valid(s) && s.statePollerID !in s.losses
    requires forall t :: t in s.runs ==> s.runs[t].pollerID != s.statePollerID
    ensures Valid(AfterFunc(s, s.statePollerID))
  {
  }

  lemma StoppedLeavesNoneArmed(s: State)
    requires Valid(s)
    ensures forall t :: t in Stopped(s) ==> t in s.runs && s.runs[t] == Stopped(s)[t] && s.runs[t].phase != Armed
  {
    forall t | t in Stopped(s) ensures s.runs[t].phase != Armed {
      assert Is(s, t, Armed) ==> s.statePollerTimer == Some(t);
    }
  }

  lemma {:induction false} ExecValid(s: State, steps: seq<Step>)
    requires Valid(s)
    ensures Valid(Exec(s, steps))
    decreases |steps|
  {
    if steps != [] {
      NextValid(s, steps[0]);
      ExecValid(Next(s, steps[0]), steps[1..]);
    }
  }

  // ------------------------------------------------------------- Theorems

  function Holding(s: State, id: nat): set<nat> {
    set t | t in s.runs && s.runs[t].pollerID == id
  }

  function ArmedTimers(s: State): set<nat> {
    set t | t in s.runs && s.runs[t].phase == Armed
  }

  /** In every run at most one timer is armed, it is the stored one and carries the
      current ID; and of every ID there is at most one armed timer, unfinished check or
      reported loss, counted together. */
  lemma {:induction false} PollerIsUnique(steps: seq<Step>, id: nat)
    ensures var s := Exec(INITIAL, steps);
      && (forall t :: t in ArmedTimers(s) ==> s.statePollerTimer == Some(t) && s.runs[t].pollerID == s.statePollerID)
      && |ArmedTimers(s)| <= 1
      && |Holding(s, id)| + multiset(s.losses)[id] <= 1
  {
    var s := Exec(INITIAL, steps);
    ExecValid(INITIAL, steps);
    forall t | t in ArmedTimers(s) ensures Is(s, t, Armed) {
    }
    AtMostOne(ArmedTimers(s));
    AtMostOne(Holding(s, id));
    DistinctCount(s.losses, id);
    if id in s.losses {
      assert Holding(s, id) == {};
    }
  }

  lemma AtMostOne(a: set<nat>)
    requires forall t, u :: t in a && u in a ==> t == u
    ensures |a| <= 1
  {
    if a != {} {
      var t :| t in a;
      assert a == {t};
    }
  }

  lemma {:induction false} DistinctCount(ids: seq<nat>, id: nat)
    requires Distinct(ids)
    ensures multiset(ids)[id] == if id in ids then 1 else 0
  {
    if ids != [] {
      var n := |ids| - 1;
      assert ids == ids[..n] + [ids[n]];
      DistinctCount(ids[..n], id);
    }
  }

  lemma {:induction false} ExecSplit(s: State, a: seq<Step>, b: seq<Step>)
    ensures Exec(s, a + b) == Exec(Exec(s, a), b)
    decreases |a|
  {
    if a == [] {
      assert a + b == b;
    } else {
      assert (a + b)[0] == a[0] && (a + b)[1..] == a[1..] + b;
      ExecSplit(Next(s, a[0]), a[1..], b);
    }
  }

  /** Nothing of `before` is new, nothing waits to read: the poller is on its way out. */
  ghost predicate Draining(before: State, s: State) {
    && s.statePollerID >= before.statePollerID && s.statePollerTimer == None
    && (forall t :: t in s.runs ==> t in before.runs && Later(before.runs[t], s.runs[t])
                                    && s.runs[t].pollerID < before.statePollerID)
    && before.losses <= s.losses
    && (forall i :: |before.losses| <= i < |s.losses| ==> WasReading(before, s.losses[i]))
  }

  predicate Later(a: Run, b: Run) {
    a.pollerID == b.pollerID && b.phase != Armed && (b.phase == Reading ==> a.phase == Reading)
  }

  ghost predicate WasReading(s: State, id: nat) {
    exists t :: Is(s, t, Reading) && s.runs[t].pollerID == id
  }

  lemma DrainingStep(before: State, s: State, step: Step)
    requires Valid(s) && Draining(before, s) && step != Start
    ensures Draining(before, Next(s, step))
  {
    match step
    case Stop => StoppedLeavesNoneArmed(s);
    case Fire(_) =>
    case Enter(_) =>
    case Reschedule(_) =>
    case ReportLoss(t) =>
      if Is(s, t, Reading) {
        assert Is(before, t, Reading);
        assert WasReading(before, s.runs[t].pollerID);
      }
  }

  lemma {:induction false} DrainingRun(before: State, s: State, steps: seq<Step>)
    requires Valid(s) && Draining(before, s) && Start !in steps
    ensures Draining(before, Exec(s, steps))
    decreases |steps|
  {
    if steps != [] {
      DrainingStep(before, s, steps[0]);
      NextValid(s, steps[0]);
      DrainingRun(before, Next(s, steps[0]), steps[1..]);
    }
  }

  /** After Stop and until the next Start, in every interleaving: no timer is armed, no
      further check goes on to read, and only checks that were reading may still report. */
  lemma {:induction false} StopHolds(steps: seq<Step>, after: seq<Step>)
    requires Start !in after
    ensures var before := Exec(INITIAL, steps + [Stop]); Draining(before, Exec(INITIAL, steps + [Stop] + after))
  {
    var s := Exec(INITIAL, steps);
    var before := Exec(INITIAL, steps + [Stop]);
    ExecValid(INITIAL, steps);
    ExecValid(INITIAL, steps + [Stop]);
    ExecSplit(INITIAL, steps, [Stop]);
    assert Exec(s, [Stop]) == Next(s, Stop);
    StoppedLeavesNoneArmed(s);
    ExecSplit(INITIAL, steps + [Stop], after);
    DrainingRun(before, before, after);
  }

  /** Something still holds the current ID, or its loss was reported. */
  ghost predicate Alive(s: State) {
    s.statePollerID in s.losses || exists t :: t in s.runs && s.runs[t].pollerID == s.statePollerID
  }

  lemma AliveStep(s: State, step: Step)
    requires Valid(s) && step != Stop && (step == Start || Alive(s))
    ensures Alive(Next(s, step))
  {
    var s' := Next(s, step);
    if step == Start {
      assert s'.runs[s.timers].pollerID == s'.statePollerID;
    } else if s.statePollerID in s.losses {
      assert s'.statePollerID in s'.losses;
    } else {
      var t :| t in s.runs && s.runs[t].pollerID == s.statePollerID;
      assert t in s'.runs || s'.statePollerID in s'.losses || s.timers in s'.runs;
    }
  }

  lemma {:induction false} AliveRun(s: State, steps: seq<Step>)
    requires Valid(s) && Alive(s) && Stop !in steps
    ensures Alive(Exec(s, steps))
    decreases |steps|
  {
    if steps != [] {
      AliveStep(s, steps[0]);
      NextValid(s, steps[0]);
      AliveRun(Next(s, steps[0]), steps[1..]);
    }
  }

  /** A poller that was started and not stopped never goes silent: of its ID there is
      exactly one armed timer, unfinished check or reported loss. */
  lemma {:induction false} StartedPollerNeverStalls(steps: seq<Step>, after: seq<Step>)
    requires Stop !in after
    ensures var s := Exec(INITIAL, steps + [Start] + after);
      |Holding(s, s.statePollerID)| + multiset(s.losses)[s.statePollerID] == 1
  {
    var before := Exec(INITIAL, steps);
    var started := Exec(INITIAL, steps + [Start]);
    ExecValid(INITIAL, steps);
    ExecValid(INITIAL, steps + [Start]);
    ExecSplit(INITIAL, steps, [Start]);
    assert Exec(before, [Start]) == Next(before, Start);
    AliveStep(before, Start);
    ExecSplit(INITIAL, steps + [Start], after);
    AliveRun(started, after);
    var s := Exec(INITIAL, steps + [Start] + after);
    PollerIsUnique(steps + [Start] + after, s.statePollerID);
    if s.statePollerID !in s.losses {
      var t :| t in s.runs && s.runs[t].pollerID == s.statePollerID;
      assert t in Holding(s, s.statePollerID);
    }
  }

  /** Every check that is reading when its poller is stopped may still report the loss. */
  lemma {:induction false} StoppedCheckReports(steps: seq<Step>, t: nat)
    requires Is(Exec(INITIAL, steps), t, Reading)
    ensures var s := Exec(INITIAL, steps);
      Exec(INITIAL, steps + [Stop] + [ReportLoss(t)]).losses == s.losses + [s.runs[t].pollerID]
  {
    var s := Exec(INITIAL, steps);
    ExecSplit(INITIAL, steps, [Stop]);
    ExecSplit(INITIAL, steps + [Stop], [ReportLoss(t)]);
    var stopped := Next(s, Stop);
    assert Exec(s, [Stop]) == stopped;
    assert Is(stopped, t, Reading) && stopped.runs[t] == s.runs[t];
    assert Exec(stopped, [ReportLoss(t)]) == Next(stopped, ReportLoss(t));
  }

  /** `after` is a continuation without a start in which a loss is reported. */
  predicate ReportsAfterStop(steps: seq<Step>, after: seq<Step>) {
    Start !in after && Exec(INITIAL, steps + [Stop] + after).losses != Exec(INITIAL, steps).losses
  }

  /** A stopped poller can still report a loss if and only if one of its checks was
      reading when it was stopped. */
  lemma {:induction false} StopReportsIff(steps: seq<Step>)
    ensures (exists after :: ReportsAfterStop(steps, after)) <==> (exists t :: Is(Exec(INITIAL, steps), t, Reading))
  {
    var s := Exec(INITIAL, steps);
    ExecSplit(INITIAL, steps, [Stop]);
    var before := Exec(INITIAL, steps + [Stop]);
    assert Exec(s, [Stop]) == Next(s, Stop) == before;
    if t :| Is(s, t, Reading) {
      StoppedCheckReports(steps, t);
      assert ReportsAfterStop(steps, [ReportLoss(t)]);
    }
    if after :| ReportsAfterStop(steps, after) {
      StopHolds(steps, after);
      var losses := Exec(INITIAL, steps + [Stop] + after).losses;
      assert |losses| > |before.losses|;
      assert WasReading(before, losses[|before.losses|]);
      var t :| Is(before, t, Reading);
      assert Is(s, t, Reading);
    }
  }

  /** In every run an armed timer fires, its check enters, and when it reports no loss it
      arms the next timer for the same ID. */
  lemma TimerGoesOn(steps: seq<Step>, t: nat)
    requires Is(Exec(INITIAL, steps), t, Armed)
    ensures var s := Exec(INITIAL, steps); var s' := Exec(INITIAL, steps + [Fire(t), Enter(t), Reschedule(t)]);
      && s'.runs == (s.runs - {t})[s.timers := Run(s.statePollerID, Armed)]
      && s'.statePollerTimer == Some(s.timers) && s'.timers == s.timers + 1
      && s'.statePollerID == s.statePollerID && s'.losses == s.losses
  {
    var s := Exec(INITIAL, steps);
    ExecValid(INITIAL, steps);
    ExecSplit(INITIAL, steps, [Fire(t), Enter(t), Reschedule(t)]);
    var id := s.runs[t].pollerID;
    var s1 := Next(s, Fire(t));
    var s2 := Next(s1, Enter(t));
    assert s1.runs[t] == Run(id, Fired) && s2.runs[t] == Run(id, Reading);
    ThreeSteps(s, Fire(t), Enter(t), Reschedule(t));
    assert s2.runs - {t} == s.runs - {t};
  }

  lemma ThreeSteps(s: State, a: Step, b: Step, c: Step)
    ensures Exec(s, [a, b, c]) == Next(Next(Next(s, a), b), c)
  {
    assert [a, b, c][1..] == [b, c] && [b, c][1..] == [c];
    assert Exec(Next(Next(s, a), b), [c]) == Next(Next(Next(s, a), b), c);
  }

  /** A check of a stale poller ends where it begins, or when it would reschedule. */
  lemma StaleCheckEnds(s: State, t: nat)
    requires t in s.runs && s.runs[t].pollerID != s.statePollerID
    ensures s.runs[t].phase == Fired ==> Next(s, Enter(t)) == s.(runs := s.runs - {t})
    ensures s.runs[t].phase == Reading ==> Next(s, Reschedule(t)) == s.(runs := s.runs - {t})
  {
  }

  /** One such run: the poller of ID 1 is stopped while it reads. */
  lemma {:induction false} StoppedCheckStillReports()
    ensures var s := Exec(INITIAL, [Start, Fire(0), Enter(0), Stop, ReportLoss(0)]);
      s.losses == [1] && s.statePollerID == 2
  {
  }

  // -------------------------------------------------- The poller of a client

  class StatePoller {
    const statePollingInterval: int
    var statePollerID: nat
    var statePollerTimer: Option<nat>
    ghost var runs: map<nat, Run>
    var timers: nat
    ghost var losses: seq<nat>

    ghost function Abstract(): State
      reads this
    {
      State(statePollerID, statePollerTimer, runs, timers, losses)
    }

    constructor (interval: int)
      ensures Abstract() == INITIAL && statePollingInterval == interval
    {
      statePollingInterval := interval;
      statePollerID, statePollerTimer, runs, timers, losses := 0, None, map[], 0, [];
    }

    /** Timer.Stop */
    method StopTimer(timer: nat)
      modifies this`runs
      ensures runs == if Is(old(Abstract()), timer, Armed) then old(runs) - {timer} else old(runs)
    {
      if Is(Abstract(), timer, Armed) {
        runs := runs - {timer};
      }
    }

    /** time.AfterFunc */
    method NewTimer(pollerID: nat) returns (timer: nat)
      modifies this`runs, this`timers
      ensures timer == old(timers) && timers == old(timers) + 1
      ensures runs == old(runs)[timer := Run(pollerID, Armed)]
    {
      timer := timers;
      runs := runs[timer := Run(pollerID, Armed)];
      timers := timers + 1;
    }

    method StartStatePoller()
      modifies this
      ensures Abstract() == if statePollingInterval <= 0 then old(Abstract()) else Next(old(Abstract()), Start)
    {
      if statePollingInterval <= 0 {
        return;
      }
      if statePollerTimer != None {
        StopTimer(statePollerTimer.value);
      }
      statePollerID := statePollerID + 1;
      var pollerID := statePollerID;
      var timer := NewTimer(pollerID);
      statePollerTimer := Some(timer);
    }

    method StopStatePoller()
      modifies this
      ensures Abstract() == Next(old(Abstract()), Stop)
    {
      if statePollerTimer != None {
        StopTimer(statePollerTimer.value);
        statePollerTimer := None;
      }
      statePollerID := statePollerID + 1;
    }

    /** The guard at the start of checkState. */
    method EnterCheck(ghost timer: nat, pollerID: nat) returns (valid: bool)
      requires Is(Abstract(), timer, Fired) && runs[timer].pollerID == pollerID
      modifies this
      ensures Abstract() == Next(old(Abstract()), Enter(timer))
      ensures valid <==> Is(Abstract(), timer, Reading)
    {
      if pollerID != statePollerID {
        runs := runs - {timer};
        return false;
      }
      runs := runs[timer := Run(pollerID, Reading)];
      return true;
    }

    /** The check returns after it invoked the hook. */
    ghost method EndWithLoss(timer: nat)
      modifies this`runs, this`losses
      ensures Abstract() == Next(old(Abstract()), ReportLoss(timer))
    {
      if Is(Abstract(), timer, Reading) {
        losses := losses + [runs[timer].pollerID];
        runs := runs - {timer};
      }
    }

    method ScheduleNextStateCheck(ghost timer: nat, pollerID: nat)
      requires Is(Abstract(), timer, Reading) && runs[timer].pollerID == pollerID
      modifies this
      ensures Abstract() == Next(old(Abstract()), Reschedule(timer))
    {
      runs := runs - {timer};
      if pollerID != statePollerID {
        return;
      }
      var next := NewTimer(pollerID);
      statePollerTimer := Some(next);
    }
  }
}
