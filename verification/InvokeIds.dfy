/** Matching responses to requests by invoke ID, under every interleaving of calls,
    timeouts and arriving packets. */
module InvokeIds {
  import opened Bytes
  import opened Outcomes
  import opened AmsPacket

  const COMMAND_NOTIFICATION: uint16 := 8

  /** A call is named by the channel it makes. It waits, has received a packet (by its
      number in the order of arrival), or has given up: timeout or a failed write. */
  datatype Phase = Waiting | Answered(packet: nat) | GaveUp

  datatype Call = Call(invokeId: uint32, phase: Phase)

  /** What a call returned with; None stands for every error of its own. */
  datatype Return = Return(invokeId: uint32, packet: Option<nat>)

  /** `requests` and `invokeID` are the client's; the rest is the history around it:
      unfinished calls, sends blocked on a channel, packets arrived and received. */
  datatype State = State(
    invokeID: uint32,
    requests: map<uint32, nat>,
    channels: nat,
    calls: map<nat, Call>,
    sends: map<nat, nat>,
    arrived: seq<Packet>,
    received: map<nat, nat>,
    outcomes: map<nat, Return>)

  const INITIAL := State(0, map[], 0, map[], map[], [], map[], map[])

  /** Each step is one critical section of the mutex, one rendezvous on a channel, or the
      end of a wait. */
  datatype Step =
    | Begin
    | Arrive(packet: Packet)
    | Rendezvous(number: nat)
    | GiveUp(channel: nat)
    | Finish(channel: nat)

  function NextId(s: State): uint32 {
    (s.invokeID + 1) % TWO32
  }

  function Next(s: State, step: Step): State {
    match step
    case Begin =>
      var id := NextId(s);
      s.(invokeID := id, requests := s.requests[id := s.channels], channels := s.channels + 1,
         calls := s.calls[s.channels := Call(id, Waiting)])
    case Arrive(p) =>
      var s' := s.(arrived := s.arrived + [p]);
      if p.command == COMMAND_NOTIFICATION || p.invokeId !in s.requests then s'
      else s'.(sends := s.sends[|s.arrived| := s.requests[p.invokeId]])
    case Rendezvous(n) =>
      if n in s.sends && IsWaiting(s, s.sends[n]) then
        var c := s.sends[n];
        s.(sends := s.sends - {n}, received := s.received[n := c],
           calls := s.calls[c := s.calls[c].(phase := Answered(n))])
      else s
    case GiveUp(c) =>
      if IsWaiting(s, c) then s.(calls := s.calls[c := s.calls[c].(phase := GaveUp)]) else s
    case Finish(c) =>
      if c in s.calls && s.calls[c].phase != Waiting then
        var call := s.calls[c];
        s.(requests := s.requests - {call.invokeId}, calls := s.calls - {c},
           outcomes := s.outcomes[c := Return(call.invokeId, Taken(call.phase))])
      else s
  }

  predicate IsWaiting(s: State, c: nat) {
    c in s.calls && s.calls[c].phase == Waiting
  }

  function Taken(phase: Phase): Option<nat> {
    match phase
    case Answered(n) => Some(n)
    case _ => None
  }

  function Exec(s: State, steps: seq<Step>): State
    decreases |steps|
  {
    if steps == [] then s else Exec(Next(s, steps[0]), steps[1..])
  }

  /** No ID is allocated while a call that has it is unfinished. */
  predicate Guarded(s: State, steps: seq<Step>)
    decreases |steps|
  {
    steps != [] ==>
      && (steps[0] == Begin ==> NextId(s) !in s.requests)
      && Guarded(Next(s, steps[0]), steps[1..])
  }

  // ------------------------------------------------------------ Invariants

  /** The invoke ID of the call that made channel `c`, the c-th of the client. */
  function IdOf(c: nat): uint32 {
    (c + 1) % TWO32
  }

  /** `requests` holds exactly the unfinished calls, each under its ID. */
  ghost predicate Registered(s: State) {
    && (forall c :: c in s.calls ==> s.calls[c].invokeId in s.requests && s.requests[s.calls[c].invokeId] == c)
    && (forall id :: id in s.requests ==> s.requests[id] in s.calls && s.calls[s.requests[id]].invokeId == id)
  }

  /** IDs are handed out in the order of the calls. */
  ghost predicate Numbered(s: State) {
    && s.invokeID == s.channels % TWO32
    && (forall c :: c in s.calls ==> c < s.channels && s.calls[c].invokeId == IdOf(c) && c !in s.outcomes)
    && (forall c :: c in s.outcomes ==> c < s.channels && s.outcomes[c].invokeId == IdOf(c))
    && (forall id :: id in s.requests ==> s.requests[id] < s.channels && IdOf(s.requests[id]) == id)
  }

  /** Packets go to calls with their ID. */
  ghost predicate Addressed(s: State) {
    && (forall n :: n in s.sends ==> n < |s.arrived| && Fits(s, s.arrived[n], s.sends[n]))
    && (forall n :: n in s.received ==> n < |s.arrived| && Fits(s, s.arrived[n], s.received[n]))
  }

  /** Each packet is in at most one place. */
  ghost predicate Placed(s: State) {
    && (forall n :: n in s.sends ==> n < |s.arrived| && n !in s.received && s.sends[n] < s.channels)
    && (forall n :: n in s.received ==> n < |s.arrived| && s.received[n] < s.channels && !IsWaiting(s, s.received[n]))
    && (forall n, m :: n in s.received && m in s.received && s.received[n] == s.received[m] ==> n == m)
    && (forall c :: c in s.calls && s.calls[c].phase.Answered? ==> Holds(s, c, s.calls[c].phase.packet))
    && (forall c :: c in s.outcomes && s.outcomes[c].packet.Some? ==> Holds(s, c, s.outcomes[c].packet.value))
  }

  ghost predicate Matched(s: State) {
    Addressed(s) && Placed(s)
  }

  predicate Fits(s: State, p: Packet, c: nat) {
    c < s.channels && p.invokeId == IdOf(c) && p.command != COMMAND_NOTIFICATION
  }

  predicate Holds(s: State, c: nat, n: nat) {
    n in s.received && s.received[n] == c
  }

  lemma NextIdOf(s: State)
    requires s.invokeID == s.channels % TWO32
    ensures NextId(s) == IdOf(s.channels)
  {
  }

  lemma SameId(a: nat, b: nat)
    ensures IdOf(a) == IdOf(b) <==> (b - a) % TWO32 == 0
  {
  }

  lemma NumberedStep(s: State, step: Step)
    requires Numbered(s)
    ensures Numbered(Next(s, step))
  {
    match step
    case Begin => BeginNumbered(s);
    case Arrive(_) =>
    case Rendezvous(n) => RendezvousNumbered(s, n);
    case GiveUp(c) => GiveUpNumbered(s, c);
    case Finish(c) => FinishNumbered(s, c);
  }

  lemma RendezvousNumbered(s: State, n: nat)
    requires Numbered(s)
    ensures Numbered(Next(s, Rendezvous(n)))
  {
  }

  lemma GiveUpNumbered(s: State, c: nat)
    requires Numbered(s)
    ensures Numbered(Next(s, GiveUp(c)))
  {
  }

  lemma FinishNumbered(s: State, c: nat)
    requires Numbered(s)
    ensures Numbered(Next(s, Finish(c)))
  {
  }

  lemma BeginNumbered(s: State)
    requires Numbered(s)
    ensures Numbered(Next(s, Begin))
  {
    NextIdOf(s);
  }

  lemma AddressedStep(s: State, step: Step)
    requires Numbered(s) && Addressed(s)
    ensures Addressed(Next(s, step))
  {
    match step
    case Begin =>
    case Arrive(p) => ArriveAddressed(s, p);
    case Rendezvous(_) =>
    case GiveUp(_) =>
    case Finish(_) =>
  }

  lemma ArriveAddressed(s: State, p: Packet)
    requires Addressed(s)
    requires p.command != COMMAND_NOTIFICATION && p.invokeId in s.requests ==> Fits(s, p, s.requests[p.invokeId])
    ensures Addressed(Next(s, Arrive(p)))
  {
    var s' := Next(s, Arrive(p));
    forall n | n in s'.sends ensures n < |s'.arrived| && Fits(s', s'.arrived[n], s'.sends[n]) {
      if n in s.sends {
        assert Fits(s, s.arrived[n], s.sends[n]);
      }
    }
    forall n | n in s'.received ensures n < |s'.arrived| && Fits(s', s'.arrived[n], s'.received[n]) {
      assert Fits(s, s.arrived[n], s.received[n]);
    }
  }

  lemma PlacedStep(s: State, step: Step)
    requires Numbered(s) && Placed(s)
    ensures Placed(Next(s, step))
  {
    match step
    case Begin => BeginPlaced(s);
    case Arrive(p) => ArrivePlaced(s, p);
    case Rendezvous(n) => RendezvousPlaced(s, n);
    case GiveUp(c) => GiveUpPlaced(s, c);
    case Finish(c) => FinishPlaced(s, c);
  }

  lemma BeginPlaced(s: State)
    requires Placed(s)
    ensures Placed(Next(s, Begin))
  {
  }

  lemma ArrivePlaced(s: State, p: Packet)
    requires Placed(s) && (p.invokeId in s.requests ==> s.requests[p.invokeId] < s.channels)
    ensures Placed(Next(s, Arrive(p)))
  {
    var s' := Next(s, Arrive(p));
    assert s'.received == s.received && s'.calls == s.calls && s'.outcomes == s.outcomes;
    forall c | c in s'.calls && s'.calls[c].phase.Answered? ensures Holds(s', c, s'.calls[c].phase.packet) {
      assert Holds(s, c, s.calls[c].phase.packet);
    }
    forall c | c in s'.outcomes && s'.outcomes[c].packet.Some? ensures Holds(s', c, s'.outcomes[c].packet.value) {
      assert Holds(s, c, s.outcomes[c].packet.value);
    }
  }

  lemma RendezvousPlaced(s: State, n: nat)
    requires Placed(s)
    ensures Placed(Next(s, Rendezvous(n)))
  {
  }

  lemma GiveUpPlaced(s: State, c: nat)
    requires Placed(s)
    ensures Placed(Next(s, GiveUp(c)))
  {
  }

  lemma FinishPlaced(s: State, c: nat)
    requires Placed(s)
    ensures Placed(Next(s, Finish(c)))
  {
  }

  lemma RegisteredStep(s: State, step: Step)
    requires Numbered(s) && Registered(s)
    requires step == Begin ==> NextId(s) !in s.requests
    ensures Registered(Next(s, step))
  {
    match step
    case Begin =>
    case Arrive(_) =>
    case Rendezvous(_) =>
    case GiveUp(_) =>
    case Finish(_) =>
  }

  /** The guard is what `requests` needs: a call that gets the ID of an unfinished one
      takes its entry away. */
  lemma BeginKeepsRequestsIff(s: State)
    requires Numbered(s) && Registered(s)
    ensures Registered(Next(s, Begin)) <==> NextId(s) !in s.requests
  {
    if NextId(s) !in s.requests {
      RegisteredStep(s, Begin);
    } else {
      var c := s.requests[NextId(s)];
      var s' := Next(s, Begin);
      assert c in s'.calls && s'.calls[c].invokeId == NextId(s) && s'.requests[NextId(s)] != c;
    }
  }

  /** The next ID is taken exactly when some unfinished call is a multiple of 2^32 calls old. */
  lemma GuardIsAge(s: State)
    requires Numbered(s) && Registered(s)
    ensures NextId(s) in s.requests <==> exists c :: c in s.calls && (s.channels - c) % TWO32 == 0
  {
    NextIdOf(s);
    if NextId(s) in s.requests {
      var c := s.requests[NextId(s)];
      SameId(c, s.channels);
      assert c in s.calls;
    }
    forall c | c in s.calls && (s.channels - c) % TWO32 == 0
      ensures NextId(s) in s.requests
    {
      SameId(c, s.channels);
      assert s.calls[c].invokeId == NextId(s);
    }
  }

  lemma {:induction false} ExecSound(s: State, steps: seq<Step>)
    requires Numbered(s) && Matched(s)
    ensures Numbered(Exec(s, steps)) && Matched(Exec(s, steps))
    decreases |steps|
  {
    if steps != [] {
      NumberedStep(s, steps[0]);
      AddressedStep(s, steps[0]);
      PlacedStep(s, steps[0]);
      ExecSound(Next(s, steps[0]), steps[1..]);
    }
  }

  lemma {:induction false} ExecRegistered(s: State, steps: seq<Step>)
    requires Numbered(s) && Registered(s) && Guarded(s, steps)
    ensures Registered(Exec(s, steps))
    decreases |steps|
  {
    if steps != [] {
      NumberedStep(s, steps[0]);
      RegisteredStep(s, steps[0]);
      ExecRegistered(Next(s, steps[0]), steps[1..]);
    }
  }

  // -------------------------------------------------------------- Theorems

  /** As long as no ID is reallocated while it is pending, `requests` holds exactly the
      unfinished calls, each on its own channel. */
  lemma RequestsAreTheUnfinishedCalls(steps: seq<Step>)
    requires Guarded(INITIAL, steps)
    ensures var s := Exec(INITIAL, steps);
      && Registered(s)
      && (forall c, d :: c in s.calls && d in s.calls && c != d ==> s.calls[c].invokeId != s.calls[d].invokeId)
      && |s.requests| == |s.calls|
  {
    ExecRegistered(INITIAL, steps);
    var s := Exec(INITIAL, steps);
    SameSize(s.requests, s.calls);
  }

  lemma {:induction false} SameSize(requests: map<uint32, nat>, calls: map<nat, Call>)
    requires forall c :: c in calls ==> calls[c].invokeId in requests && requests[calls[c].invokeId] == c
    requires forall id :: id in requests ==> requests[id] in calls && calls[requests[id]].invokeId == id
    ensures |requests| == |calls|
    decreases |calls|
  {
    if calls == map[] {
      assert requests == map[];
    } else {
      var c :| c in calls;
      var id := calls[c].invokeId;
      SameSize(requests - {id}, calls - {c});
      assert (requests - {id}).Keys == requests.Keys - {id} && (calls - {c}).Keys == calls.Keys - {c};
    }
  }

  /** In every run, guarded or not: a call that returns a packet returns one that arrived
      with its own invoke ID, no two calls return the same packet, and no packet is at
      once returned and still on its way. */
  lemma ResponsesMatch(steps: seq<Step>, c: nat, d: nat)
    ensures var s := Exec(INITIAL, steps);
      c in s.outcomes && s.outcomes[c].packet.Some? ==>
        var n := s.outcomes[c].packet.value;
        && n < |s.arrived| && s.arrived[n].invokeId == s.outcomes[c].invokeId == IdOf(c)
        && s.arrived[n].command != COMMAND_NOTIFICATION
        && n !in s.sends
        && (d in s.outcomes && d != c ==> s.outcomes[d].packet != Some(n))
  {
    ExecSound(INITIAL, steps);
  }

  lemma {:induction false} ExecSplit(s: State, a: seq<Step>, b: seq<Step>)
    ensures Exec(s, a + b) == Exec(Exec(s, a), b)
    decreases |a|
  {
    if a == [] {
      assert a + b == b;
    } else {
      assert (a + b)[0] == a[0] && (a + b)[1..] == a[1..] + b;
      ExecSplit(Next(s, a[0]), a[1..], b);
    }
  }

  /** Packet `n` is bound to what `requests` held when it arrived. */
  predicate BoundTo(s: State, n: nat, holder: Option<nat>) {
    && n < |s.arrived|
    && (n in s.sends ==> holder == Some(s.sends[n]))
    && (n in s.received ==> holder == Some(s.received[n]))
  }

  lemma {:induction false} BoundRun(s: State, n: nat, holder: Option<nat>, steps: seq<Step>)
    requires BoundTo(s, n, holder)
    ensures BoundTo(Exec(s, steps), n, holder)
    decreases |steps|
  {
    if steps != [] {
      BoundRun(Next(s, steps[0]), n, holder, steps[1..]);
    }
  }

  /** Every entry of `requests` belongs to an unfinished call with that ID. Guarded or
      not, every step keeps this half of Registered. */
  ghost predicate Owned(s: State) {
    forall id :: id in s.requests ==> s.requests[id] in s.calls && s.calls[s.requests[id]].invokeId == id
  }

  lemma OwnedStep(s: State, step: Step)
    requires Numbered(s) && Owned(s)
    ensures Owned(Next(s, step))
  {
    match step
    case Begin =>
    case Arrive(_) =>
    case Rendezvous(_) =>
    case GiveUp(_) =>
    case Finish(_) =>
  }

  lemma {:induction false} ExecOwned(s: State, steps: seq<Step>)
    requires Numbered(s) && Owned(s)
    ensures Owned(Exec(s, steps))
    decreases |steps|
  {
    if steps != [] {
      NumberedStep(s, steps[0]);
      OwnedStep(s, steps[0]);
      ExecOwned(Next(s, steps[0]), steps[1..]);
    }
  }

  /** In every run: a packet reaches nobody but a call that had its invoke ID and was
      unfinished when it arrived. A late response never reaches a call that began after
      it, not even one with the same ID. */
  lemma LateResponsesAreDropped(before: seq<Step>, p: Packet, after: seq<Step>)
    ensures var s, t := Exec(INITIAL, before), Exec(INITIAL, before + [Arrive(p)] + after);
      var n := |s.arrived|;
      n in t.received ==>
        && p.command != COMMAND_NOTIFICATION
        && t.received[n] in s.calls && s.calls[t.received[n]].invokeId == p.invokeId
  {
    var s := Exec(INITIAL, before);
    var n := |s.arrived|;
    ExecSound(INITIAL, before);
    ExecOwned(INITIAL, before);
    ExecSplit(INITIAL, before + [Arrive(p)], after);
    ExecSplit(INITIAL, before, [Arrive(p)]);
    var s' := Next(s, Arrive(p));
    assert Exec(s, [Arrive(p)]) == s';
    var holder := ArrivalBinds(s, p);
    BoundRun(s', n, holder, after);
  }

  lemma ArrivalBinds(s: State, p: Packet) returns (holder: Option<nat>)
    requires Placed(s) && Owned(s)
    ensures BoundTo(Next(s, Arrive(p)), |s.arrived|, holder)
    ensures holder.Some? ==>
      && p.command != COMMAND_NOTIFICATION
      && holder.value in s.calls && s.calls[holder.value].invokeId == p.invokeId
  {
    var known := p.command != COMMAND_NOTIFICATION && p.invokeId in s.requests;
    holder := if known then Some(s.requests[p.invokeId]) else None;
  }

  /** In every run a response to one call is returned by another only if the two are a
      multiple of 2^32 calls apart. */
  lemma ForeignResponsesAreFarApart(steps: seq<Step>, c: nat, d: nat)
    ensures var s := Exec(INITIAL, steps);
      c in s.outcomes && s.outcomes[c].packet.Some? ==>
        && s.outcomes[c].packet.value < |s.arrived|
        && (s.arrived[s.outcomes[c].packet.value].invokeId == IdOf(d) ==> (c - d) % TWO32 == 0)
  {
    ResponsesMatch(steps, c, c);
    SameId(d, c);
  }

  // ------------------------------------------------- Calls get their answers

  /** A response with the ID of a waiting call is handed to it: it arrives, the call takes
      it from its channel and returns it, and its entry in `requests` is gone. */
  lemma WaitingCallIsAnswered(s: State, c: nat, p: Packet)
    requires Numbered(s) && Registered(s) && IsWaiting(s, c)
    requires p.command != 8 && p.invokeId == s.calls[c].invokeId
    ensures var n := |s.arrived|; var t := Exec(s, [Arrive(p), Rendezvous(n), Finish(c)]);
      && t.arrived == s.arrived + [p]
      && t.outcomes == s.outcomes[c := Return(p.invokeId, Some(n))]
      && t.calls == s.calls - {c} && t.requests == s.requests - {p.invokeId}
      && t.sends == s.sends - {n}
  {
    AnsweredFrom(s, c, p);
  }

  lemma AnsweredFrom(s: State, c: nat, p: Packet)
    requires IsWaiting(s, c) && p.command != 8 && p.invokeId == s.calls[c].invokeId
    requires p.invokeId in s.requests && s.requests[p.invokeId] == c
    ensures var n := |s.arrived|; var t := Exec(s, [Arrive(p), Rendezvous(n), Finish(c)]);
      && t.arrived == s.arrived + [p]
      && t.outcomes == s.outcomes[c := Return(p.invokeId, Some(n))]
      && t.calls == s.calls - {c} && t.requests == s.requests - {p.invokeId}
      && t.sends == s.sends - {n}
  {
    var n := |s.arrived|;
    var s1 := s.(arrived := s.arrived + [p], sends := s.sends[n := c]);
    var answered := Call(p.invokeId, Answered(n));
    var s2 := s1.(sends := s1.sends - {n}, received := s.received[n := c], calls := s.calls[c := answered]);
    assert Next(s, Arrive(p)) == s1;
    RendezvousAnswers(s1, n, c);
    FinishReturns(s2, c);
    ThreeSteps(s, Arrive(p), Rendezvous(n), Finish(c));
    SetAndRemoved(s.sends, n, c);
    SetAndRemoved(s.calls, c, answered);
  }

  lemma RendezvousAnswers(s: State, n: nat, c: nat)
    requires n in s.sends && s.sends[n] == c && IsWaiting(s, c)
    ensures Next(s, Rendezvous(n)) == s.(sends := s.sends - {n}, received := s.received[n := c],
                                         calls := s.calls[c := Call(s.calls[c].invokeId, Answered(n))])
  {
  }

  lemma FinishReturns(s: State, c: nat)
    requires c in s.calls && s.calls[c].phase != Waiting
    ensures var call := s.calls[c];
      Next(s, Finish(c)) == s.(requests := s.requests - {call.invokeId}, calls := s.calls - {c},
                               outcomes := s.outcomes[c := Return(call.invokeId, Taken(call.phase))])
  {
  }

  lemma SetAndRemoved<K, V>(m: map<K, V>, k: K, v: V)
    ensures m[k := v] - {k} == m - {k}
  {
  }

  lemma ThreeSteps(s: State, a: Step, b: Step, c: Step)
    ensures Exec(s, [a, b, c]) == Next(Next(Next(s, a), b), c)
  {
    assert [a, b, c][1..] == [b, c] && [b, c][1..] == [c];
    assert Exec(Next(Next(s, a), b), [c]) == Next(Next(Next(s, a), b), c);
  }

  /** So in every run in which no ID is reallocated while it is pending. */
  lemma ResponsesAreDelivered(steps: seq<Step>, c: nat, p: Packet)
    requires Guarded(INITIAL, steps) && IsWaiting(Exec(INITIAL, steps), c)
    requires p.command != 8 && p.invokeId == Exec(INITIAL, steps).calls[c].invokeId
    ensures var n := |Exec(INITIAL, steps).arrived|;
      var t := Exec(INITIAL, steps + [Arrive(p), Rendezvous(n), Finish(c)]);
      c in t.outcomes && t.outcomes[c] == Return(p.invokeId, Some(n)) && n < |t.arrived| && t.arrived[n] == p
  {
    var s := Exec(INITIAL, steps);
    ExecRegistered(INITIAL, steps);
    ExecSound(INITIAL, steps);
    ExecSplit(INITIAL, steps, [Arrive(p), Rendezvous(|s.arrived|), Finish(c)]);
    WaitingCallIsAnswered(s, c, p);
  }

  /** A call that gives up returns no packet and leaves no entry, so that what arrives
      for it later is sent to nobody. */
  lemma GivenUpCallReturnsNothing(s: State, c: nat, p: Packet)
    requires Numbered(s) && IsWaiting(s, c) && p.invokeId == s.calls[c].invokeId
    ensures var t := Exec(s, [GiveUp(c), Finish(c), Arrive(p)]);
      && t.outcomes == s.outcomes[c := Return(p.invokeId, None)]
      && t.calls == s.calls - {c} && t.requests == s.requests - {p.invokeId}
      && t.sends == s.sends && t.received == s.received
  {
    var s1 := s.(calls := s.calls[c := Call(p.invokeId, GaveUp)]);
    assert Next(s, GiveUp(c)) == s1;
    SetAndRemoved(s.calls, c, s1.calls[c]);
    ThreeSteps(s, GiveUp(c), Finish(c), Arrive(p));
  }

  // --------------------------------------------------- The client's methods

  /** The response that a packet becomes. */
  datatype Response = AdsError(errorCode: uint32) | Data(data: seq<byte>)

  class Client {
    var invokeID: uint32
    var requests: map<uint32, nat>
    var channels: nat
    ghost var history: State

    /** The history with the client's fields as they are. */
    ghost function Abstract(): State
      reads this
    {
      history.(invokeID := invokeID, requests := requests, channels := channels)
    }

    constructor ()
      ensures Abstract() == INITIAL
    {
      invokeID, requests, channels, history := 0, map[], 0, INITIAL;
    }

    method GetInvokeID() returns (id: uint32, channel: nat)
      modifies this
      ensures Abstract() == Next(old(Abstract()), Begin)
      ensures id == NextId(old(Abstract())) && channel == old(channels)
    {
      invokeID := (invokeID + 1) % TWO32;
      id := invokeID;
      channel := channels;
      channels := channels + 1;
      requests := requests[id := channel];
      history := history.(calls := history.calls[channel := Call(id, Waiting)]);
    }

    /** The deferred clean-up of send. */
    method RemoveInvokeId(id: uint32, ghost channel: nat)
      requires channel in history.calls && history.calls[channel].invokeId == id
      requires history.calls[channel].phase != Waiting
      modifies this
      ensures Abstract() == Next(old(Abstract()), Finish(channel))
    {
      requests := requests - {id};
      ghost var returned := Return(id, Taken(history.calls[channel].phase));
      history := history.(calls := history.calls - {channel}, outcomes := history.outcomes[channel := returned]);
    }

    /** What the receive loop does with a parsed packet: the channel to send on, if any. */
    method Route(packet: Packet) returns (target: Option<(nat, Response)>)
      modifies this`history
      ensures Abstract() == Next(old(Abstract()), Arrive(packet))
      ensures target.Some? <==> packet.command != 8 && packet.invokeId in old(requests)
      ensures target.Some? ==> target.value.0 == old(requests)[packet.invokeId]
      ensures match target
        case None => Abstract().sends == old(Abstract()).sends
        case Some((channel, response)) =>
          && Abstract().sends == old(Abstract()).sends[|old(history.arrived)| := channel]
          && response == if packet.errorCode != 0 then AdsError(packet.errorCode) else Data(packet.data)
    {
      history := history.(arrived := history.arrived + [packet]);
      if packet.command == COMMAND_NOTIFICATION {
        return None;
      }
      if packet.invokeId !in requests {
        return None;
      }
      var channel := requests[packet.invokeId];
      history := history.(sends := history.sends[|history.arrived| - 1 := channel]);
      if packet.errorCode != 0 {
        return Some((channel, AdsError(packet.errorCode)));
      }
      return Some((channel, Data(packet.data)));
    }
  }
}
