/** Cutting a TCP stream into packets, whatever pieces it arrives in: as it should be
    done, as the code does it in 32 bits, and exactly when the two agree. */
module Framing {
  import opened Bytes
  import opened Outcomes
  import opened AmsPacket

  /** Bytes that one Read of the connection can deliver. */
  const READ_SIZE := 4096

  /** A whole packet is at the front of the stream. */
  predicate Complete(s: seq<byte>) {
    && |s| >= TCP_HEADER_LENGTH
    && Declared(s) >= AMS_HEADER_LENGTH
    && |s| >= TCP_HEADER_LENGTH + Declared(s)
  }

  function FrameLength(s: seq<byte>): nat
    requires |s| >= TCP_HEADER_LENGTH
  {
    TCP_HEADER_LENGTH + Declared(s)
  }

  /** The packets of a stream in order, and what is left over. A stream that declares
      less than an AMS header is left over for good. */
  function Frames(s: seq<byte>): (r: (seq<seq<byte>>, seq<byte>))
    ensures !Complete(r.1)
  {
    if Complete(s) then
      var (packets, rest) := Frames(s[FrameLength(s)..]);
      ([s[..FrameLength(s)]] + packets, rest)
    else ([], s)
  }

  function Packets(s: seq<byte>): seq<seq<byte>> {
    Frames(s).0
  }

  function Residue(s: seq<byte>): seq<byte> {
    Frames(s).1
  }

  // ------------------------------------------------------- Chunk invariance

  /** Nothing of a stream is lost or added: its packets and residue make it up. */
  lemma {:induction false} FramesPartition(s: seq<byte>)
    ensures Flatten(Packets(s)) + Residue(s) == s
    ensures forall i :: 0 <= i < |Packets(s)| ==>
      |Packets(s)[i]| >= MIN_PACKET_LENGTH && |Packets(s)[i]| == FrameLength(Packets(s)[i])
  {
    if Complete(s) {
      var n := FrameLength(s);
      FramesPartition(s[n..]);
      assert s[..n][2..6] == s[2..6];
      assert Packets(s) == [s[..n]] + Packets(s[n..]);
      assert Flatten(Packets(s)) == s[..n] + Flatten(Packets(s[n..]));
      assert s == s[..n] + s[n..];
    }
  }

  function Flatten(parts: seq<seq<byte>>): seq<byte> {
    if parts == [] then [] else parts[0] + Flatten(parts[1..])
  }

  /** Parsing what has arrived and later the rest is parsing everything at once. */
  lemma {:induction false} FramesAppend(a: seq<byte>, b: seq<byte>)
    ensures Packets(a + b) == Packets(a) + Packets(Residue(a) + b)
    ensures Residue(a + b) == Residue(Residue(a) + b)
    decreases |a|
  {
    if Complete(a) {
      var n := FrameLength(a);
      assert (a + b)[2..6] == a[2..6];
      assert (a + b)[..n] == a[..n] && (a + b)[n..] == a[n..] + b;
      FramesAppend(a[n..], b);
    }
  }

  /** One read after another: the packets given out and the bytes kept. */
  function Feed(chunks: seq<seq<byte>>): (seq<seq<byte>>, seq<byte>) {
    if chunks == [] then ([], [])
    else
      var (packets, kept) := Feed(chunks[..|chunks| - 1]);
      var arrived := kept + chunks[|chunks| - 1];
      (packets + Packets(arrived), Residue(arrived))
  }

  lemma {:induction false} FlattenSnoc(chunks: seq<seq<byte>>, last: seq<byte>)
    ensures Flatten(chunks + [last]) == Flatten(chunks) + last
  {
    if chunks == [] {
      assert Flatten([last]) == last + Flatten([]);
    } else {
      assert (chunks + [last])[1..] == chunks[1..] + [last];
      FlattenSnoc(chunks[1..], last);
    }
  }

  /** However the stream is cut into reads, the packets and the rest are those of the
      whole stream parsed in one go. */
  lemma {:induction false} ChunkInvariance(chunks: seq<seq<byte>>)
    ensures Feed(chunks) == Frames(Flatten(chunks))
  {
    if chunks != [] {
      var front, last := chunks[..|chunks| - 1], chunks[|chunks| - 1];
      ChunkInvariance(front);
      assert chunks == front + [last];
      FlattenSnoc(front, last);
      FramesAppend(Flatten(front), last);
    }
  }

  // ------------------------------------------------------ What the code does

  /** What processReceiveBuffer hands on, what it keeps, and whether it ever ends. */
  datatype Drained = Drained(packets: seq<seq<byte>>, rest: seq<byte>, ends: bool)

  lemma CheckBound(s: seq<byte>)
    ensures CheckTcpPacketLength(s).Ok? ==> CheckTcpPacketLength(s).value <= |s|
  {
  }

  /** The loop of processReceiveBuffer. A length that wraps to zero takes nothing from
      the buffer, so the loop stays where it is. */
  function Drain(s: seq<byte>): Drained
    decreases |s|
  {
    CheckBound(s);
    var total := CheckTcpPacketLength(s);
    if !total.Ok? then Drained([], s, true)
    else if total.value == 0 then Drained([], s, false)
    else
      var later := Drain(s[total.value..]);
      later.(packets := [s[..total.value]] + later.packets)
  }

  /** Whatever lengths it declares, no byte of the buffer is lost or added. */
  lemma {:induction false} DrainPartition(s: seq<byte>)
    ensures Flatten(Drain(s).packets) + Drain(s).rest == s
    decreases |s|
  {
    CheckBound(s);
    var total := CheckTcpPacketLength(s);
    if total.Ok? && total.value > 0 {
      var first, next := s[..total.value], s[total.value..];
      var later := Drain(next);
      DrainPartition(next);
      FirstPacket(s, first, next, total.value);
      FlattenCons(first, later.packets);
      Cover(s, first, Flatten(later.packets), later.rest, next);
    }
  }

  lemma FirstPacket(s: seq<byte>, first: seq<byte>, next: seq<byte>, n: uint32)
    requires 0 < n <= |s| && CheckTcpPacketLength(s) == Ok(n) && first == s[..n] && next == s[n..]
    ensures s == first + next
    ensures Drain(s).packets == [first] + Drain(next).packets && Drain(s).rest == Drain(next).rest
  {
  }

  lemma FlattenCons(part: seq<byte>, parts: seq<seq<byte>>)
    ensures Flatten([part] + parts) == part + Flatten(parts)
  {
    assert ([part] + parts)[1..] == parts;
  }

  lemma Cover(s: seq<byte>, first: seq<byte>, taken: seq<byte>, rest: seq<byte>, later: seq<byte>)
    requires s == first + later && taken + rest == later
    ensures (first + taken) + rest == s
  {
  }

  /** After `n` rounds the loop still goes on. */
  predicate Looping(s: seq<byte>, n: nat) {
    CheckBound(s);
    n > 0 ==> CheckTcpPacketLength(s).Ok? && Looping(s[CheckTcpPacketLength(s).value..], n - 1)
  }

  /** The header length and this declared length add up to zero in 32 bits. */
  predicate Stuck(s: seq<byte>) {
    |s| >= TCP_HEADER_LENGTH && Declared(s) == TWO32 - TCP_HEADER_LENGTH
  }

  lemma StuckIff(s: seq<byte>)
    ensures Stuck(s) <==> CheckTcpPacketLength(s) == Ok(0)
  {
    if |s| >= TCP_HEADER_LENGTH && Declared(s) >= AMS_HEADER_LENGTH && !Stuck(s) {
      assert TotalLength(Declared(s)) != 0;
    }
  }

  lemma {:induction false} StuckLoops(s: seq<byte>, n: nat)
    requires Stuck(s)
    ensures Looping(s, n)
  {
    if n > 0 {
      StuckIff(s);
      assert s[0..] == s;
      StuckLoops(s, n - 1);
    }
  }

  lemma {:induction false} DrainLoops(s: seq<byte>, n: nat)
    requires !Drain(s).ends
    ensures Looping(s, n) && Stuck(Drain(s).rest)
    decreases |s|
  {
    StuckIff(s);
    if Stuck(s) {
      StuckLoops(s, n);
    } else {
      DrainLoops(s[CheckTcpPacketLength(s).value..], if n > 0 then n - 1 else 0);
    }
  }

  lemma {:induction false} DrainEnds(s: seq<byte>) returns (n: nat)
    requires Drain(s).ends
    ensures !Looping(s, n) && !Stuck(Drain(s).rest)
    decreases |s|
  {
    StuckIff(s);
    if CheckTcpPacketLength(s).Ok? {
      n := DrainEnds(s[CheckTcpPacketLength(s).value..]);
      n := n + 1;
    } else {
      n := 1;
    }
  }

  /** The loop ends if and only if it comes to no packet that declares 2^32 - 6 bytes. */
  lemma LoopEndsIff(s: seq<byte>)
    ensures (exists n: nat :: !Looping(s, n)) <==> !Stuck(Drain(s).rest)
    ensures (exists n: nat :: !Looping(s, n)) <==> Drain(s).ends
  {
    if Drain(s).ends {
      var n := DrainEnds(s);
    } else {
      forall n: nat ensures Looping(s, n) {
        DrainLoops(s, n);
      }
      DrainLoops(s, 0);
    }
  }

  // --------------------------------------------- When the code agrees with it

  /** The front of the stream declares too little to be a packet. */
  predicate Parked(s: seq<byte>) {
    |s| >= TCP_HEADER_LENGTH && Declared(s) < AMS_HEADER_LENGTH
  }

  /** The length check of the code is right about the front of a buffer. */
  predicate LengthChecked(s: seq<byte>) {
    CheckTcpPacketLength(s) == if Complete(s) then Ok(FrameLength(s))
                               else if Parked(s) then Err(InvalidLength)
                               else Err(HeaderError.InsufficientData)
  }

  /** The header has not arrived, or declares too little, or the declared length does
      not wrap and neither does the size of the buffer behind it; or both wrap and the
      buffer still looks too short. */
  predicate Fits32(s: seq<byte>) {
    || |s| < TCP_HEADER_LENGTH || Parked(s)
    || (Declared(s) <= TWO32 - 7 && (|s| < FrameLength(s) || |s| % TWO32 >= FrameLength(s)))
    || (Declared(s) > TWO32 - 7 && |s| < FrameLength(s) && |s| % TWO32 < FrameLength(s) - TWO32)
  }

  lemma CheckIsRightIff(s: seq<byte>)
    ensures LengthChecked(s) <==> Fits32(s)
  {
  }

  /** At every packet boundary of the buffer. */
  predicate AllFit32(s: seq<byte>) {
    Fits32(s) && (Complete(s) ==> AllFit32(s[FrameLength(s)..]))
  }

  /** The loop of the code cuts a buffer as it should if and only if no length wraps at
      any packet boundary. */
  lemma {:induction false} DrainIsFramesIff(s: seq<byte>)
    ensures Drain(s) == Drained(Packets(s), Residue(s), true) <==> AllFit32(s)
    decreases |s|
  {
    CheckIsRightIff(s);
    CheckBound(s);
    if Complete(s) {
      var n := FrameLength(s);
      DrainIsFramesIff(s[n..]);
      if Fits32(s) {
        SameHead(s[..n], Drain(s[n..]).packets, Packets(s[n..]));
      } else if CheckTcpPacketLength(s).Ok? && CheckTcpPacketLength(s).value > 0 {
        assert Drain(s).packets[0] == s[..CheckTcpPacketLength(s).value];
        assert Packets(s)[0] == s[..n];
      }
    }
  }

  lemma SameHead(x: seq<byte>, a: seq<seq<byte>>, b: seq<seq<byte>>)
    ensures [x] + a == [x] + b <==> a == b
  {
    if [x] + a == [x] + b {
      assert a == ([x] + a)[1..] == ([x] + b)[1..] == b;
    }
  }

  /** Every length that the stream declares at a packet boundary leaves room, in 32
      bits, for the header and for one more read behind an unfinished packet. */
  predicate SafeLengths(s: seq<byte>) {
    |s| >= TCP_HEADER_LENGTH && Declared(s) >= AMS_HEADER_LENGTH ==>
      && FrameLength(s) + READ_SIZE <= TWO32
      && (|s| >= FrameLength(s) ==> SafeLengths(s[FrameLength(s)..]))
  }

  /** Beyond that the check can go wrong: a buffer that has grown past 2^32 bytes
      looks short. A packet of 2^32 - 4095 bytes is missed when it lacks one byte and
      the next read is a full one. */
  lemma OverlongBufferIsMisread(s: seq<byte>)
    requires |s| == TWO32 && Declared(s) == TWO32 - 4101
    ensures Complete(s) && CheckTcpPacketLength(s) == Err(HeaderError.InsufficientData)
  {
  }

  lemma {:induction false} SafePrefix(a: seq<byte>, b: seq<byte>)
    requires SafeLengths(a + b)
    ensures SafeLengths(a)
    decreases |a|
  {
    if |a| >= TCP_HEADER_LENGTH {
      assert (a + b)[2..6] == a[2..6];
      if Complete(a) {
        assert (a + b)[FrameLength(a)..] == a[FrameLength(a)..] + b;
        SafePrefix(a[FrameLength(a)..], b);
      }
    }
  }

  /** After the packets of a prefix the stream is still safe, and what is kept of the
      prefix leaves room for a read. */
  lemma {:induction false} SafeResidue(a: seq<byte>, b: seq<byte>)
    requires SafeLengths(a + b)
    ensures SafeLengths(Residue(a) + b)
    ensures Parked(Residue(a)) || |Residue(a)| + READ_SIZE < TWO32
    decreases |a|
  {
    if |a| >= TCP_HEADER_LENGTH {
      assert (a + b)[2..6] == a[2..6];
      if Complete(a) {
        assert (a + b)[FrameLength(a)..] == a[FrameLength(a)..] + b;
        SafeResidue(a[FrameLength(a)..], b);
      }
    }
  }

  lemma ParkedStays(a: seq<byte>, b: seq<byte>)
    requires Parked(a)
    ensures Parked(a + b) && Frames(a + b) == ([], a + b)
  {
    assert (a + b)[2..6] == a[2..6];
  }

  lemma {:induction false} SafeFits(s: seq<byte>)
    requires SafeLengths(s) && (|s| < TWO32 || Parked(s))
    ensures AllFit32(s)
    decreases |s|
  {
    if Complete(s) {
      assert |s| % TWO32 == |s|;
      SafeFits(s[FrameLength(s)..]);
    }
  }

  /** One read after another, as the code takes them in. */
  function Receive(chunks: seq<seq<byte>>): Drained {
    if chunks == [] then Drained([], [], true)
    else
      var before := Receive(chunks[..|chunks| - 1]);
      if !before.ends then before
      else
        var d := Drain(before.rest + chunks[|chunks| - 1]);
        d.(packets := before.packets + d.packets)
  }

  lemma {:induction false} ReceiveEndsBefore(chunks: seq<seq<byte>>, n: nat)
    requires n <= |chunks| && Receive(chunks).ends
    ensures Receive(chunks[..n]).ends
    decreases |chunks|
  {
    if n == |chunks| {
      assert chunks[..n] == chunks;
    } else {
      var front := chunks[..|chunks| - 1];
      assert front[..n] == chunks[..n];
      ReceiveEndsBefore(front, n);
    }
  }

  lemma ReceiveNext(chunks: seq<seq<byte>>, i: nat)
    requires i < |chunks| && Receive(chunks[..i]).ends
    ensures var before, d := Receive(chunks[..i]), Drain(Receive(chunks[..i]).rest + chunks[i]);
      Receive(chunks[..i + 1]) == Drained(before.packets + d.packets, d.rest, d.ends)
  {
    assert chunks[..i + 1][..i] == chunks[..i];
  }

  /** After every read the code has handed on and kept what it should. */
  predicate AlwaysRight(chunks: seq<seq<byte>>) {
    && Receive(chunks) == Drained(Packets(Flatten(chunks)), Residue(Flatten(chunks)), true)
    && (chunks != [] ==> AlwaysRight(chunks[..|chunks| - 1]))
  }

  /** At every read, what was kept and what arrives fits 32 bits at each boundary. */
  predicate AlwaysFits(chunks: seq<seq<byte>>) {
    chunks != [] ==>
      var front := chunks[..|chunks| - 1];
      AlwaysFits(front) && AllFit32(Residue(Flatten(front)) + chunks[|chunks| - 1])
  }

  /** The code agrees with a one-shot parse after every read if and only if no length
      wraps at any of them. */
  lemma {:induction false} AlwaysRightIff(chunks: seq<seq<byte>>)
    ensures AlwaysRight(chunks) <==> AlwaysFits(chunks)
  {
    if chunks != [] {
      var front, last := chunks[..|chunks| - 1], chunks[|chunks| - 1];
      AlwaysRightIff(front);
      if AlwaysRight(front) {
        NextReadIff(front, last);
        assert chunks == front + [last];
      }
    }
  }

  lemma NextReadIff(front: seq<seq<byte>>, last: seq<byte>)
    requires Receive(front) == Drained(Packets(Flatten(front)), Residue(Flatten(front)), true)
    ensures var all := Flatten(front + [last]);
      (Receive(front + [last]) == Drained(Packets(all), Residue(all), true))
        <==> AllFit32(Residue(Flatten(front)) + last)
  {
    var kept := Residue(Flatten(front)) + last;
    assert (front + [last])[..|front|] == front;
    FlattenSnoc(front, last);
    FramesAppend(Flatten(front), last);
    DrainIsFramesIff(kept);
    SamePrefix(Packets(Flatten(front)), Drain(kept).packets, Packets(kept));
  }

  lemma SamePrefix<T>(x: seq<T>, a: seq<T>, b: seq<T>)
    ensures x + a == x + b <==> a == b
  {
    if x + a == x + b {
      assert a == (x + a)[|x|..] == (x + b)[|x|..] == b;
    }
  }

  predicate ShortReads(chunks: seq<seq<byte>>) {
    forall i :: 0 <= i < |chunks| ==> |chunks[i]| <= 4096
  }

  /** However a stream of safe lengths is cut into reads, the code hands on and keeps
      what a parse of the whole stream in one go gives. */
  lemma {:induction false} ReceivedAsAWhole(chunks: seq<seq<byte>>)
    requires ShortReads(chunks) && SafeLengths(Flatten(chunks))
    ensures AlwaysRight(chunks)
  {
    AlwaysRightIff(chunks);
    if chunks != [] {
      var front, last := chunks[..|chunks| - 1], chunks[|chunks| - 1];
      assert chunks == front + [last];
      FlattenSnoc(front, last);
      SafePrefix(Flatten(front), last);
      ReceivedAsAWhole(front);
      AlwaysRightIff(front);
      ReadFits(Flatten(front), last);
    }
  }

  /** Behind the packets of a safe stream one more read fits. */
  lemma ReadFits(stream: seq<byte>, chunk: seq<byte>)
    requires SafeLengths(stream + chunk) && |chunk| <= READ_SIZE
    ensures AllFit32(Residue(stream) + chunk)
  {
    SafeResidue(stream, chunk);
    if Parked(Residue(stream)) {
      ParkedStays(Residue(stream), chunk);
    }
    SafeFits(Residue(stream) + chunk);
  }
}
