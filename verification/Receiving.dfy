/** The receive loops of a client, one for each connection it has made, and the buffer
    that they share. */
module Receiving {
  import opened Bytes
  import opened Outcomes
  import opened AmsPacket
  import opened Framing

  /** Connections are numbered as they are made. `reading` are those with a live
      receive loop; `streams[c]` is what the loop of `c` took in. */
  datatype Session = Session(
    conn: nat,
    buffer: seq<byte>,
    dispatched: seq<seq<byte>>,
    lost: seq<nat>,
    reading: set<nat>,
    streams: seq<seq<byte>>)

  datatype Step =
    | Connect(registered: bool)           // port registration may fail: no loop is started
    | Read(captured: nat, chunk: seq<byte>)
    | ReadError(captured: nat)

  /** No connection yet: number 0 stands for it. */
  const INITIAL := Session(0, [], [], [], {}, [[]])

  /** A read is taken in by the code's own loop; if that never ends, the receive loop of
      its connection takes no further step. */
  function Apply(s: Session, step: Step): Session {
    match step
    case Connect(registered) =>
      var newConn := |s.streams|;
      s.(conn := newConn, buffer := [], streams := s.streams + [[]],
         reading := if registered then s.reading + {newConn} else s.reading)
    case Read(c, chunk) =>
      if c !in s.reading then s
      else if c != s.conn || c >= |s.streams| then s.(reading := s.reading - {c})
      else
        var d := Drain(s.buffer + chunk);
        s.(buffer := d.rest, dispatched := s.dispatched + d.packets,
           streams := s.streams[c := s.streams[c] + chunk],
           reading := if d.ends then s.reading else s.reading - {c})
    case ReadError(c) =>
      if c !in s.reading then s
      else s.(reading := s.reading - {c}, lost := if c == s.conn then s.lost + [c] else s.lost)
  }

  function Run(steps: seq<Step>): Session {
    if steps == [] then INITIAL else Apply(Run(steps[..|steps| - 1]), steps[|steps| - 1])
  }

  // ---------------------------------------------------------------- Every run

  /** The buffer is an end of the current connection's own stream; a connection whose
      loss was reported has no live loop, and none is reported twice. */
  predicate Apart(s: Session) {
    && s.conn == |s.streams| - 1
    && EndOf(s.buffer, s.streams[s.conn])
    && (forall c :: c in s.reading ==> c < |s.streams|)
    && (forall c :: c in s.lost ==> c < |s.streams| && c !in s.reading)
    && (forall i, j :: 0 <= i < j < |s.lost| ==> s.lost[i] != s.lost[j])
  }

  predicate EndOf(t: seq<byte>, s: seq<byte>) {
    |t| <= |s| && s[|s| - |t|..] == t
  }

  lemma DrainKeepsEnd(buffer: seq<byte>, stream: seq<byte>, chunk: seq<byte>)
    requires EndOf(buffer, stream)
    ensures EndOf(Drain(buffer + chunk).rest, stream + chunk)
  {
    DrainPartition(buffer + chunk);
    EndOfLonger(buffer, stream, chunk, Flatten(Drain(buffer + chunk).packets), Drain(buffer + chunk).rest);
  }

  lemma EndOfLonger(buffer: seq<byte>, stream: seq<byte>, chunk: seq<byte>, taken: seq<byte>, rest: seq<byte>)
    requires EndOf(buffer, stream) && taken + rest == buffer + chunk
    ensures EndOf(rest, stream + chunk)
  {
    var before := stream[..|stream| - |buffer|];
    assert stream + chunk == before + (buffer + chunk) == (before + taken) + rest;
  }

  lemma StepKeepsApart(s: Session, step: Step)
    requires Apart(s)
    ensures Apart(Apply(s, step))
  {
    match step
    case Connect(_) =>
    case Read(c, chunk) =>
      if c in s.reading && c == s.conn {
        DrainKeepsEnd(s.buffer, s.streams[c], chunk);
      }
    case ReadError(c) =>
  }

  /** Over every run of connects, reads and errors, whatever lengths are declared, the
      buffer holds only bytes of the current connection, and each connection's loss is
      reported at most once, by its own loop. */
  lemma {:induction false} StreamsStayApart(steps: seq<Step>)
    ensures Apart(Run(steps))
  {
    if steps != [] {
      StreamsStayApart(steps[..|steps| - 1]);
      StepKeepsApart(Run(steps[..|steps| - 1]), steps[|steps| - 1]);
    }
  }

  lemma RunSnoc(steps: seq<Step>, step: Step)
    ensures Run(steps + [step]) == Apply(Run(steps), step)
  {
    assert (steps + [step])[..|steps|] == steps;
  }

  /** In every run: a connect makes a new connection with an empty buffer, and a loop that
      reads it exactly when its port was registered. */
  lemma ConnectStartsLoop(steps: seq<Step>, registered: bool)
    ensures var s, t := Run(steps), Run(steps + [Connect(registered)]);
      && t.streams == s.streams + [[]] && t.conn == |s.streams| && t.conn !in s.reading
      && t.buffer == [] && t.dispatched == s.dispatched && t.lost == s.lost
      && t.reading == if registered then s.reading + {t.conn} else s.reading
  {
    StreamsStayApart(steps);
    RunSnoc(steps, Connect(registered));
  }

  /** In every run: the loop of the active connection takes in what it reads, cuts packets
      off and goes on; when its read fails it ends and its loss is reported, for the first
      time. A loop that is not the active one's only ends. */
  lemma LoopReads(steps: seq<Step>, c: nat, chunk: seq<byte>)
    requires c in Run(steps).reading
    ensures var s := Run(steps); var read, failed := Run(steps + [Read(c, chunk)]), Run(steps + [ReadError(c)]);
      if c == s.conn then
        var d := Drain(s.buffer + chunk);
        && c < |s.streams| && c !in s.lost
        && read == Session(c, d.rest, s.dispatched + d.packets, s.lost,
                           if d.ends then s.reading else s.reading - {c}, s.streams[c := s.streams[c] + chunk])
        && failed == s.(reading := s.reading - {c}, lost := s.lost + [c])
      else read == failed == s.(reading := s.reading - {c})
  {
    StreamsStayApart(steps);
    RunSnoc(steps, Read(c, chunk));
    RunSnoc(steps, ReadError(c));
  }

  /** Nothing of a replaced connection has changed. */
  predicate Silent(s: Session, t: Session, c: nat) {
    && c < t.conn && c < |s.streams| && c < |t.streams| && t.streams[c] == s.streams[c]
    && (c in t.lost <==> c in s.lost)
  }

  lemma SilentStep(s: Session, t: Session, c: nat, step: Step)
    requires Apart(t) && Silent(s, t, c)
    ensures Silent(s, Apply(t, step), c)
  {
  }

  /** Once its connection is replaced, a loop writes nothing and reports nothing in
      whatever follows. */
  lemma {:induction false} StaleLoopIsSilent(steps: seq<Step>, after: seq<Step>, c: nat)
    requires c < Run(steps).conn
    ensures Silent(Run(steps), Run(steps + after), c)
  {
    if after == [] {
      StreamsStayApart(steps);
      assert steps + after == steps;
    } else {
      var front, last := after[..|after| - 1], after[|after| - 1];
      StaleLoopIsSilent(steps, front, c);
      SilentSnoc(Run(steps), steps + front, c, last);
      assert steps + after == (steps + front) + [last];
    }
  }

  lemma SilentSnoc(s: Session, steps: seq<Step>, c: nat, step: Step)
    requires Silent(s, Run(steps), c)
    ensures Silent(s, Run(steps + [step]), c)
  {
    StreamsStayApart(steps);
    SilentStep(s, Run(steps), c, step);
    RunSnoc(steps, step);
  }

  // -------------------------------------------------- Whose packets these are

  /** The packets of every connection's own stream, connection after connection. */
  function AllPackets(streams: seq<seq<byte>>): seq<seq<byte>> {
    if streams == [] then []
    else AllPackets(streams[..|streams| - 1]) + Packets(streams[|streams| - 1])
  }

  /** Every packet so far is one that its connection sent, and the loop is not caught in
      a packet of wrapped length. */
  predicate Isolated(s: Session) {
    Apart(s) && Parsed(s.streams, s.dispatched, s.buffer)
  }

  predicate Parsed(streams: seq<seq<byte>>, dispatched: seq<seq<byte>>, buffer: seq<byte>) {
    && streams != []
    && !Stuck(buffer)
    && buffer == Residue(streams[|streams| - 1])
    && dispatched == AllPackets(streams)
  }

  /** Every read is one that a connection can deliver, and every stream declares lengths
      that the code can add in 32 bits. */
  predicate SafeRun(steps: seq<Step>) {
    && (forall i :: 0 <= i < |steps| && steps[i].Read? ==> |steps[i].chunk| <= READ_SIZE)
    && SafeStreams(Run(steps).streams)
  }

  predicate SafeStreams(streams: seq<seq<byte>>) {
    forall c :: 0 <= c < |streams| ==> SafeLengths(streams[c])
  }

  lemma SafeBefore(s: Session, step: Step)
    requires SafeStreams(Apply(s, step).streams)
    ensures SafeStreams(s.streams)
  {
    var s' := Apply(s, step);
    forall c | 0 <= c < |s.streams| ensures SafeLengths(s.streams[c]) {
      assert SafeLengths(s'.streams[c]);
      if step.Read? && s'.streams[c] != s.streams[c] {
        SafePrefix(s.streams[c], step.chunk);
      }
    }
  }

  lemma LastStreamGrows(streams: seq<seq<byte>>, chunk: seq<byte>, more: seq<seq<byte>>)
    requires streams != []
    requires Packets(streams[|streams| - 1] + chunk) == Packets(streams[|streams| - 1]) + more
    ensures AllPackets(streams[|streams| - 1 := streams[|streams| - 1] + chunk]) == AllPackets(streams) + more
  {
    var last := |streams| - 1;
    var before, taken := AllPackets(streams[..last]), Packets(streams[last]);
    assert streams[last := streams[last] + chunk][..last] == streams[..last];
    assert before + (taken + more) == (before + taken) + more;
  }

  /** What a read makes of the residue of its stream is right if and only if it fits. */
  lemma ReadExtendsStreamIff(streams: seq<seq<byte>>, dispatched: seq<seq<byte>>, chunk: seq<byte>,
                             arrived: seq<byte>, d: Drained)
    requires streams != [] && dispatched == AllPackets(streams)
    requires arrived == Residue(streams[|streams| - 1]) + chunk && d == Drain(arrived)
    ensures var grown := streams[|streams| - 1 := streams[|streams| - 1] + chunk];
      Parsed(grown, dispatched + d.packets, d.rest) <==> AllFit32(arrived)
  {
    FramesAppend(streams[|streams| - 1], chunk);
    LastStreamGrows(streams, chunk, Packets(arrived));
    SamePrefix(dispatched, d.packets, Packets(arrived));
    DrainIsFramesIff(arrived);
    LoopEndsIff(arrived);
  }

  /** A read of the active loop is taken in as the format defines it. */
  predicate StepFits(s: Session, step: Step) {
    step.Read? && step.captured in s.reading && step.captured == s.conn ==> AllFit32(s.buffer + step.chunk)
  }

  lemma NewStreamParsed(streams: seq<seq<byte>>, dispatched: seq<seq<byte>>, buffer: seq<byte>)
    requires Parsed(streams, dispatched, buffer)
    ensures Parsed(streams + [[]], dispatched, [])
  {
    assert (streams + [[]])[..|streams|] == streams;
    assert dispatched + [] == dispatched;
  }

  lemma StepIsolatedIff(s: Session, step: Step)
    requires Isolated(s)
    ensures Isolated(Apply(s, step)) <==> StepFits(s, step)
  {
    var s' := Apply(s, step);
    StepKeepsApart(s, step);
    match step
    case Connect(_) => NewStreamParsed(s.streams, s.dispatched, s.buffer);
    case Read(c, chunk) =>
      if c in s.reading && c == s.conn {
        ReadExtendsStreamIff(s.streams, s.dispatched, chunk, s.buffer + chunk, Drain(s.buffer + chunk));
      }
    case ReadError(c) =>
  }

  predicate AlwaysIsolated(steps: seq<Step>) {
    Isolated(Run(steps)) && (steps != [] ==> AlwaysIsolated(steps[..|steps| - 1]))
  }

  predicate RunFits(steps: seq<Step>) {
    steps != [] ==>
      var front := steps[..|steps| - 1];
      RunFits(front) && StepFits(Run(front), steps[|steps| - 1])
  }

  /** At every point of a run the buffer holds the unfinished end of the current
      connection's stream, and the packets handed on are those of each connection's
      stream parsed by itself, in order, if and only if no length wraps at any read. */
  lemma {:induction false} AlwaysIsolatedIff(steps: seq<Step>)
    ensures AlwaysIsolated(steps) <==> RunFits(steps)
  {
    if steps == [] {
      assert AllPackets([[]]) == AllPackets([]) + Packets([]);
    } else {
      var n := |steps| - 1;
      AlwaysIsolatedIff(steps[..n]);
      if AlwaysIsolated(steps[..n]) {
        StepIsolatedIff(Run(steps[..n]), steps[n]);
      }
    }
  }

  /** So it is in every run of reads that a connection can deliver and of lengths that
      leave room for one. */
  lemma {:induction false} ConnectionsAreIsolated(steps: seq<Step>)
    requires SafeRun(steps)
    ensures AlwaysIsolated(steps)
  {
    AlwaysIsolatedIff(steps);
    if steps != [] {
      var n := |steps| - 1;
      SafeBefore(Run(steps[..n]), steps[n]);
      ConnectionsAreIsolated(steps[..n]);
      SafeStepFits(Run(steps[..n]), steps[n]);
      AlwaysIsolatedIff(steps[..n]);
    }
  }

  lemma SafeStepFits(s: Session, step: Step)
    requires s.conn == |s.streams| - 1 && s.buffer == Residue(s.streams[s.conn])
    requires SafeStreams(Apply(s, step).streams)
    requires step.Read? ==> |step.chunk| <= READ_SIZE
    ensures StepFits(s, step)
  {
    if step.Read? && step.captured in s.reading && step.captured == s.conn {
      assert SafeLengths(Apply(s, step).streams[s.conn]);
      ReadFits(s.streams[s.conn], step.chunk);
    }
  }

  // ------------------------------------------------------------ The receiver

  class Receiver {
    var conn: nat                         // the active connection
    var connections: nat
    var receiveBuffer: seq<byte>
    ghost var dispatched: seq<seq<byte>>  // packets handed on, in order
    ghost var lost: seq<nat>              // connections whose loss was reported
    ghost var reading: set<nat>
    ghost var streams: seq<seq<byte>>

    ghost function Abstract(): Session
      reads this
    {
      Session(conn, receiveBuffer, dispatched, lost, reading, streams)
    }

    ghost predicate Valid()
      reads this
    {
      connections == |streams| && conn < |streams|
    }

    constructor ()
      ensures Valid() && Abstract() == INITIAL
    {
      conn, connections, receiveBuffer := 0, 1, [];
      dispatched, lost, reading, streams := [], [], {}, [[]];
    }

    /** processReceiveBuffer, whenever it ends. */
    method ProcessReceiveBuffer()
      requires Drain(receiveBuffer).ends
      modifies this`receiveBuffer, this`dispatched
      ensures dispatched == old(dispatched) + Drain(old(receiveBuffer)).packets
      ensures receiveBuffer == Drain(old(receiveBuffer)).rest
    {
      ghost var todo := Drain(receiveBuffer);
      ghost var whole := todo;
      assert dispatched + todo.packets == old(dispatched) + whole.packets;
      while true
        invariant todo == Drain(receiveBuffer) && todo.ends && todo.rest == whole.rest
        invariant dispatched + todo.packets == old(dispatched) + whole.packets
        decreases |receiveBuffer|
      {
        CheckBound(receiveBuffer);
        var total := CheckTcpPacketLength(receiveBuffer);
        if total.IsFailure() {
          assert dispatched + [] == dispatched;
          return;
        }
        var fullPacket := receiveBuffer[..total.value];
        receiveBuffer := receiveBuffer[total.value..];
        ghost var later := Drain(receiveBuffer);
        assert dispatched + ([fullPacket] + later.packets) == (dispatched + [fullPacket]) + later.packets;
        dispatched := dispatched + [fullPacket];
        todo := later;
      }
    }

    /** One successful Read in the receive loop of connection `captured`. */
    method HandleRead(captured: nat, chunk: seq<byte>) returns (goesOn: bool)
      requires Valid() && captured in reading
      requires captured == conn ==> Drain(receiveBuffer + chunk).ends
      modifies this
      ensures Valid() && Abstract() == Apply(old(Abstract()), Read(captured, chunk))
      ensures goesOn <==> captured in reading
    {
      if conn != captured {
        reading := reading - {captured};
        return false;
      }
      receiveBuffer := receiveBuffer + chunk;
      streams := streams[captured := streams[captured] + chunk];
      ProcessReceiveBuffer();
      goesOn := true;
    }

    /** A failed Read: every loop ends, that of the active connection reports the loss. */
    method HandleReadError(captured: nat)
      requires Valid() && captured in reading
      modifies this
      ensures Valid() && Abstract() == Apply(old(Abstract()), ReadError(captured))
    {
      reading := reading - {captured};
      if conn == captured {
        lost := lost + [captured];
      }
    }

    /** Connect up to the start of the receive loop. */
    method Reconnect(registered: bool)
      requires Valid()
      modifies this
      ensures Valid() && Abstract() == Apply(old(Abstract()), Connect(registered))
    {
      conn := connections;
      connections := connections + 1;
      receiveBuffer := [];
      streams := streams + [[]];
      if registered {
        reading := reading + {conn};
      }
    }

    /** The receive loop of the active connection, read after read, as long as each ends. */
    method ReceiveAll(chunks: seq<seq<byte>>)
      requires Valid() && conn in reading && receiveBuffer == [] && streams[conn] == []
      requires Receive(chunks).ends
      modifies this
      ensures Valid() && conn == old(conn) && conn in reading && streams[conn] == Flatten(chunks)
      ensures dispatched == old(dispatched) + Receive(chunks).packets
      ensures receiveBuffer == Receive(chunks).rest
    {
      ghost var before := dispatched;
      var i := 0;
      ghost var done := Receive(chunks[..0]);
      assert before + [] == before;
      while i < |chunks|
        invariant 0 <= i <= |chunks|
        invariant Valid() && conn == old(conn) && conn in reading && streams[conn] == Flatten(chunks[..i])
        invariant done == Receive(chunks[..i]) && done.ends
        invariant dispatched == before + done.packets && receiveBuffer == done.rest
      {
        ghost var more := Drain(receiveBuffer + chunks[i]);
        FlattenNext(chunks, i);
        ReceiveNext(chunks, i);
        ReceiveEndsBefore(chunks, i + 1);
        ActiveRead(Abstract(), chunks[i]);
        SplitPackets(before, done.packets, more.packets);
        var goesOn := HandleRead(conn, chunks[i]);
        done := Receive(chunks[..i + 1]);
        i := i + 1;
      }
      assert chunks[..i] == chunks;
    }
  }

  lemma ActiveRead(s: Session, chunk: seq<byte>)
    requires s.conn in s.reading && s.conn < |s.streams| && Drain(s.buffer + chunk).ends
    ensures var s', d := Apply(s, Read(s.conn, chunk)), Drain(s.buffer + chunk);
      && s'.conn == s.conn && s'.reading == s.reading && s'.buffer == d.rest
      && s'.dispatched == s.dispatched + d.packets
      && |s'.streams| == |s.streams| && s'.streams[s.conn] == s.streams[s.conn] + chunk
  {
  }

  lemma SplitPackets(a: seq<seq<byte>>, b: seq<seq<byte>>, c: seq<seq<byte>>)
    ensures a + (b + c) == (a + b) + c
  {
  }

  lemma FlattenNext(chunks: seq<seq<byte>>, i: nat)
    requires i < |chunks|
    ensures Flatten(chunks[..i + 1]) == Flatten(chunks[..i]) + chunks[i]
  {
    assert chunks[..i + 1] == chunks[..i] + [chunks[i]];
    FlattenSnoc(chunks[..i], chunks[i]);
  }

  // ------------------------------------------- When a read is not one step

  /** The receive loop looks at the active connection before it writes to the buffer, and
      holds what it has read in between. `current` are the packets handed on since the
      active connection was made. */
  datatype Split = Split(
    conn: nat,
    buffer: seq<byte>,
    current: seq<seq<byte>>,
    streams: seq<seq<byte>>,
    reading: set<nat>,
    held: map<nat, seq<byte>>)

  datatype SplitStep =
    | Replace(registered: bool)
    | Check(captured: nat, chunk: seq<byte>)
    | Write(captured: nat)
    | Fail(captured: nat)

  const SPLIT_INITIAL := Split(0, [], [], [[]], {}, map[])

  function Advance(s: Split, step: SplitStep): Split {
    match step
    case Replace(registered) =>
      s.(conn := |s.streams|, buffer := [], current := [], streams := s.streams + [[]],
         reading := if registered then s.reading + {|s.streams|} else s.reading)
    case Check(c, chunk) =>
      if c !in s.reading || c in s.held then s
      else if c != s.conn then s.(reading := s.reading - {c})
      else s.(held := s.held[c := chunk])
    case Write(c) =>
      if c !in s.held || c >= |s.streams| then s
      else
        var d := Drain(s.buffer + s.held[c]);
        s.(buffer := d.rest, current := s.current + d.packets, held := s.held - {c},
           streams := s.streams[c := s.streams[c] + s.held[c]],
           reading := if d.ends then s.reading else s.reading - {c})
    case Fail(c) =>
      if c in s.held then s else s.(reading := s.reading - {c})
  }

  function Play(steps: seq<SplitStep>): Split {
    if steps == [] then SPLIT_INITIAL else Advance(Play(steps[..|steps| - 1]), steps[|steps| - 1])
  }

  /** What was handed on since the active connection was made, and the buffer, are that
      connection's own stream. */
  predicate Own(s: Split) {
    s.conn < |s.streams| && Flatten(s.current) + s.buffer == s.streams[s.conn]
  }

  predicate AlwaysOwn(steps: seq<SplitStep>) {
    Own(Play(steps)) && (steps != [] ==> AlwaysOwn(steps[..|steps| - 1]))
  }

  /** A loop that writes bytes is the active connection's at that moment. */
  predicate WritesOwn(s: Split, step: SplitStep) {
    step.Write? && step.captured in s.held && s.held[step.captured] != [] ==> step.captured == s.conn
  }

  predicate AllWriteOwn(steps: seq<SplitStep>) {
    steps != [] ==>
      var front := steps[..|steps| - 1];
      AllWriteOwn(front) && WritesOwn(Play(front), steps[|steps| - 1])
  }

  predicate HeldKnown(s: Split) {
    && s.conn == |s.streams| - 1
    && (forall c :: c in s.held ==> c < |s.streams|)
    && (forall c :: c in s.reading ==> c < |s.streams|)
  }

  lemma {:induction false} PlayKnown(steps: seq<SplitStep>)
    ensures HeldKnown(Play(steps))
  {
    if steps != [] {
      PlayKnown(steps[..|steps| - 1]);
    }
  }

  lemma {:induction false} FlattenAppend(a: seq<seq<byte>>, b: seq<seq<byte>>)
    ensures Flatten(a + b) == Flatten(a) + Flatten(b)
  {
    if a == [] {
      assert a + b == b;
    } else {
      assert (a + b)[1..] == a[1..] + b;
      FlattenAppend(a[1..], b);
    }
  }

  /** A write puts its bytes behind all that the buffer took in, whoever's they are. */
  lemma WriteAppends(current: seq<seq<byte>>, buffer: seq<byte>, chunk: seq<byte>)
    ensures var d := Drain(buffer + chunk);
      Flatten(current + d.packets) + d.rest == (Flatten(current) + buffer) + chunk
  {
    var d := Drain(buffer + chunk);
    DrainPartition(buffer + chunk);
    FlattenAppend(current, d.packets);
    Shift(Flatten(current), Flatten(d.packets), d.rest, buffer, chunk);
  }

  lemma Shift(front: seq<byte>, taken: seq<byte>, rest: seq<byte>, buffer: seq<byte>, chunk: seq<byte>)
    requires taken + rest == buffer + chunk
    ensures (front + taken) + rest == (front + buffer) + chunk
  {
    assert (front + taken) + rest == front + (taken + rest);
    assert (front + buffer) + chunk == front + (buffer + chunk);
  }

  lemma OwnStepIff(s: Split, step: SplitStep)
    requires HeldKnown(s) && Own(s)
    ensures Own(Advance(s, step)) <==> WritesOwn(s, step)
  {
    match step
    case Replace(_) =>
    case Check(_, _) =>
    case Write(c) =>
      if c in s.held {
        WriteAppends(s.current, s.buffer, s.held[c]);
        if c != s.conn {
          assert Advance(s, step).streams[s.conn] == s.streams[s.conn];
        }
      }
    case Fail(_) =>
  }

  /** Packets and buffer belong to the active connection at every point of a run if and
      only if each write of bytes is by the active connection's loop. */
  lemma {:induction false} AlwaysOwnIff(steps: seq<SplitStep>)
    ensures AlwaysOwn(steps) <==> AllWriteOwn(steps)
  {
    if steps != [] {
      var front := steps[..|steps| - 1];
      AlwaysOwnIff(front);
      PlayKnown(front);
      if AlwaysOwn(front) {
        OwnStepIff(Play(front), steps[|steps| - 1]);
      }
    }
  }

  lemma PlaySnoc(steps: seq<SplitStep>, step: SplitStep)
    ensures Play(steps + [step]) == Advance(Play(steps), step)
  {
    assert (steps + [step])[..|steps|] == steps;
  }

  /** In every such run a loop that has read holds its bytes if its connection is the
      active one and ends otherwise; a failed read ends it. */
  lemma CheckHoldsIff(steps: seq<SplitStep>, c: nat, chunk: seq<byte>)
    requires c in Play(steps).reading && c !in Play(steps).held
    ensures var s := Play(steps); var checked, failed := Play(steps + [Check(c, chunk)]), Play(steps + [Fail(c)]);
      && (c in checked.held <==> c == s.conn) && (c in checked.reading <==> c == s.conn)
      && checked == (if c == s.conn then s.(held := s.held[c := chunk]) else failed)
      && failed == s.(reading := s.reading - {c})
  {
    PlaySnoc(steps, Check(c, chunk));
    PlaySnoc(steps, Fail(c));
  }

  lemma ConnStep(s: Split, step: SplitStep)
    requires HeldKnown(s)
    ensures Advance(s, step).conn == if step.Replace? then s.conn + 1 else s.conn
  {
  }

  function Replacements(steps: seq<SplitStep>): nat {
    if steps == [] then 0
    else Replacements(steps[..|steps| - 1]) + if steps[|steps| - 1].Replace? then 1 else 0
  }

  /** And a loop that passed its check, so that its connection was the active one, still is
      the active connection's when it comes to write if and only if no Connect fell in
      between: each one makes a connection of its own. */
  lemma {:induction false} WriteIsOwnIff(before: seq<SplitStep>, between: seq<SplitStep>)
    ensures Play(before + between).conn == Play(before).conn + Replacements(between)
    ensures Play(before + between).conn == Play(before).conn <==> Replacements(between) == 0
  {
    if between == [] {
      assert before + between == before;
    } else {
      var front, last := between[..|between| - 1], between[|between| - 1];
      WriteIsOwnIff(before, front);
      PlayKnown(before + front);
      ConnStep(Play(before + front), last);
      PlaySnoc(before + front, last);
      assert before + between == (before + front) + [last];
    }
  }
}
