/** AMS/TCP and AMS headers: building them and taking a packet apart. */
module AmsPacket {
  import opened Bytes
  import opened Outcomes
  import NetId

  const TCP_HEADER_LENGTH := 6
  const AMS_HEADER_LENGTH := 32
  const MIN_PACKET_LENGTH := TCP_HEADER_LENGTH + AMS_HEADER_LENGTH
  const STATE_FLAG_ADS_COMMAND: uint16 := 4
  const TCP_PORT_AMS_COMMAND: uint16 := 0
  const TWO32 := 0x1_0000_0000

  datatype AmsAddress = AmsAddress(netId: string, port: uint16)

  datatype Packet = Packet(
    targetNetId: string,
    targetPort: uint16,
    sourceNetId: string,
    sourcePort: uint16,
    command: uint16,
    stateFlags: uint16,
    dataLength: uint32,
    errorCode: uint32,
    invokeId: uint32,
    data: seq<byte>)

  datatype HeaderError = InsufficientData | InvalidLength

  type Header = Outcome<seq<byte>, NetId.NetIdError>

  // --------------------------------------------------------------- Building

  function TcpHeader(command: uint16, dataLength: uint32): (h: seq<byte>)
    ensures |h| == TCP_HEADER_LENGTH
  {
    LE(command, 2) + LE(dataLength, 4)
  }

  /** The two addresses, 16 bytes. */
  function AddressBytes(target: seq<byte>, targetPort: uint16, source: seq<byte>, sourcePort: uint16): (h: seq<byte>)
    requires |target| == 6 && |source| == 6
    ensures |h| == 16
  {
    target + LE(targetPort, 2) + source + LE(sourcePort, 2)
  }

  /** Command, flags, length, error code and invoke ID, 16 bytes. */
  function CommandBytes(command: uint16, flags: uint16, dataLength: uint32, errorCode: uint32, invokeId: uint32)
    : (h: seq<byte>)
    ensures |h| == 16
  {
    LE(command, 2) + LE(flags, 2) + LE(dataLength, 4) + LE(errorCode, 4) + LE(invokeId, 4)
  }

  function HeaderBytes(target: seq<byte>, targetPort: uint16, source: seq<byte>, sourcePort: uint16,
                       command: uint16, dataLength: uint32, invokeId: uint32): (h: seq<byte>)
    requires |target| == 6 && |source| == 6
    ensures |h| == AMS_HEADER_LENGTH
  {
    AddressBytes(target, targetPort, source, sourcePort)
      + CommandBytes(command, STATE_FLAG_ADS_COMMAND, dataLength, 0, invokeId)
  }

  function AmsHeader(target: AmsAddress, source: AmsAddress, command: uint16, dataLength: uint32, invokeId: uint32)
    : (r: Header)
    ensures r.Ok? ==> |r.value| == AMS_HEADER_LENGTH
  {
    var t :- NetId.Parse(target.netId);
    var s :- NetId.Parse(source.netId);
    Ok(HeaderBytes(t, target.port, s, source.port, command, dataLength, invokeId))
  }

  /** A header and its payload behind the TCP header. */
  function Framed(h: seq<byte>, data: seq<byte>): seq<byte> {
    TcpHeader(TCP_PORT_AMS_COMMAND, (AMS_HEADER_LENGTH + |data|) % TWO32) + h + data
  }

  /** The bytes that `send` writes to the connection. */
  function Frame(target: AmsAddress, source: AmsAddress, command: uint16, invokeId: uint32, data: seq<byte>): Header {
    var h :- AmsHeader(target, source, command, |data| % TWO32, invokeId);
    Ok(Framed(h, data))
  }

  lemma FrameOf(target: AmsAddress, t: seq<byte>, source: AmsAddress, s: seq<byte>, command: uint16, invokeId: uint32,
                data: seq<byte>)
    requires NetId.Parse(target.netId) == Ok(t) && NetId.Parse(source.netId) == Ok(s) && |data| < TWO32
    ensures |t| == |s| == 6
    ensures Frame(target, source, command, invokeId, data)
         == Ok(Framed(HeaderBytes(t, target.port, s, source.port, command, |data|, invokeId), data))
  {
    assert |data| % TWO32 == |data|;
  }

  /** copy, PutUint16 and PutUint32 into the slice of `buf` at `pos`. */
  method PutBytes(buf: array<byte>, pos: nat, b: seq<byte>)
    requires pos + |b| <= buf.Length
    modifies buf
    ensures buf[..pos + |b|] == old(buf[..pos]) + b
  {
    forall k | 0 <= k < |b| {
      buf[pos + k] := b[k];
    }
  }

  method BuildAmsTcpHeader(command: uint16, dataLength: uint32) returns (h: seq<byte>)
    ensures h == TcpHeader(command, dataLength)
  {
    var buf := new byte[TCP_HEADER_LENGTH](_ => 0);
    PutBytes(buf, 0, LE(command, 2));
    PutBytes(buf, 2, LE(dataLength, 4));
    h := buf[..];
    assert h == buf[..6];
  }

  method BuildAmsHeader(target: AmsAddress, source: AmsAddress, command: uint16, dataLength: uint32, invokeId: uint32)
    returns (r: Header)
    ensures r == AmsHeader(target, source, command, dataLength, invokeId)
  {
    var targetNetId := NetId.AmsNetIdStrToByteArray(target.netId);
    if targetNetId.IsFailure() {
      return targetNetId;
    }
    var sourceNetId := NetId.AmsNetIdStrToByteArray(source.netId);
    if sourceNetId.IsFailure() {
      return sourceNetId;
    }
    var h := FillAmsHeader(targetNetId.value, target.port, sourceNetId.value, source.port,
                           command, dataLength, invokeId);
    r := Ok(h);
  }

  /** Fills the 32 bytes from front to back. */
  method FillAmsHeader(target: seq<byte>, targetPort: uint16, source: seq<byte>, sourcePort: uint16,
                       command: uint16, dataLength: uint32, invokeId: uint32)
    returns (h: seq<byte>)
    requires |target| == 6 && |source| == 6
    ensures h == HeaderBytes(target, targetPort, source, sourcePort, command, dataLength, invokeId)
  {
    var buf := new byte[AMS_HEADER_LENGTH](_ => 0);
    ghost var addresses := AddressBytes(target, targetPort, source, sourcePort);
    PutBytes(buf, 0, target);
    PutBytes(buf, 6, LE(targetPort, 2));
    PutBytes(buf, 8, source);
    PutBytes(buf, 14, LE(sourcePort, 2));
    assert buf[..16] == addresses;
    FillCommand(buf, addresses, command, dataLength, invokeId);
    h := buf[..];
    assert h == buf[..32];
  }

  method FillCommand(buf: array<byte>, ghost addresses: seq<byte>,
                     command: uint16, dataLength: uint32, invokeId: uint32)
    requires buf.Length == AMS_HEADER_LENGTH && buf[..16] == addresses
    modifies buf
    ensures buf[..32] == addresses + CommandBytes(command, STATE_FLAG_ADS_COMMAND, dataLength, 0, invokeId)
  {
    ghost var c, f, d, i := LE(command, 2), LE(STATE_FLAG_ADS_COMMAND, 2), LE(dataLength, 4), LE(invokeId, 4);
    PutBytes(buf, 16, LE(command, 2));
    PutBytes(buf, 18, LE(STATE_FLAG_ADS_COMMAND, 2));
    PutBytes(buf, 20, LE(dataLength, 4));
    PutBytes(buf, 24, LE(0, 4));
    PutBytes(buf, 28, LE(invokeId, 4));
    assert buf[..32] == addresses + c + f + d + LE(0, 4) + i;
    Reassociate(addresses, c, f, d, LE(0, 4), i);
  }

  lemma Reassociate(a: seq<byte>, c: seq<byte>, f: seq<byte>, d: seq<byte>, e: seq<byte>, i: seq<byte>)
    ensures a + c + f + d + e + i == a + (c + f + d + e + i)
  {
  }

  // ---------------------------------------------------------------- Parsing

  /** The length that an AMS/TCP header declares for what follows it. */
  function Declared(data: seq<byte>): (n: uint32)
    requires |data| >= TCP_HEADER_LENGTH
  {
    FromLEBound(data[2..6]);
    Pow256Values();
    FromLE(data[2..6])
  }

  /** `AMSTCPHeaderLength + packetLength` in uint32 arithmetic. */
  function TotalLength(declared: uint32): uint32 {
    (TCP_HEADER_LENGTH + declared) % TWO32
  }

  function U16(b: seq<byte>): (n: uint16)
    requires |b| == 2
  {
    FromLEBound(b);
    Pow256Values();
    FromLE(b)
  }

  function U32(b: seq<byte>): (n: uint32)
    requires |b| == 4
  {
    FromLEBound(b);
    Pow256Values();
    FromLE(b)
  }

  /** CheckTCPPacketLength: the length of the packet at the front of the buffer. The
      length of the buffer is compared as a uint32 too. */
  function CheckTcpPacketLength(data: seq<byte>): Outcome<uint32, HeaderError> {
    if |data| < TCP_HEADER_LENGTH then Err(InsufficientData)
    else if Declared(data) < AMS_HEADER_LENGTH then Err(InvalidLength)
    else if |data| % TWO32 < TotalLength(Declared(data)) then Err(InsufficientData)
    else Ok(TotalLength(Declared(data)))
  }

  /** CheckPacket: the checks of ParsePacket alone. */
  function CheckPacket(data: seq<byte>): Outcome<(), HeaderError> {
    if |data| < MIN_PACKET_LENGTH then Err(InsufficientData)
    else if Declared(data) < AMS_HEADER_LENGTH then Err(InvalidLength)
    else if |data| % TWO32 < TotalLength(Declared(data)) then Err(InsufficientData)
    else Ok(())
  }

  /** ParsePacket; slicing the payload out panics when it ends behind the data. */
  function ParsePacket(data: seq<byte>): Outcome<Packet, HeaderError> {
    var _ :- CheckPacket(data);
    var n := Declared(data);
    var ams := data[TCP_HEADER_LENGTH..];
    if n > |ams| then Panic
    else
      Ok(PacketOf(ams[..AMS_HEADER_LENGTH], ams[AMS_HEADER_LENGTH..n]))
  }

  function PacketOf(h: seq<byte>, data: seq<byte>): Packet
    requires |h| == AMS_HEADER_LENGTH
  {
    Packet(
      NetId.Print(h[0..6]), U16(h[6..8]), NetId.Print(h[8..14]), U16(h[14..16]),
      U16(h[16..18]), U16(h[18..20]), U32(h[20..24]), U32(h[24..28]), U32(h[28..32]), data)
  }

  lemma ReadsBack16(n: uint16)
    ensures U16(LE(n, 2)) == n
  {
    Pow256Values();
    LERoundTrip(n, 2);
  }

  lemma ReadsBack32(n: uint32)
    ensures U32(LE(n, 4)) == n
  {
    Pow256Values();
    LERoundTrip(n, 4);
  }

  lemma AddressSlices(t: seq<byte>, tp: seq<byte>, s: seq<byte>, sp: seq<byte>, c: seq<byte>)
    requires |t| == |s| == 6 && |tp| == |sp| == 2
    ensures var h := t + tp + s + sp + c;
      h[0..6] == t && h[6..8] == tp && h[8..14] == s && h[14..16] == sp
  {
  }

  lemma CommandSlices(a: seq<byte>, command: seq<byte>, flags: seq<byte>, dataLength: seq<byte>,
                      errorCode: seq<byte>, invokeId: seq<byte>)
    requires |a| == 16 && |command| == |flags| == 2 && |dataLength| == |errorCode| == |invokeId| == 4
    ensures var h := a + (command + flags + dataLength + errorCode + invokeId);
      h[16..18] == command && h[18..20] == flags && h[20..24] == dataLength && h[24..28] == errorCode
      && h[28..32] == invokeId
  {
  }

  lemma HeaderFields(t: seq<byte>, tp: uint16, s: seq<byte>, sp: uint16,
                     command: uint16, flags: uint16, dataLength: uint32, errorCode: uint32, invokeId: uint32)
    requires |t| == 6 && |s| == 6
    ensures var h := AddressBytes(t, tp, s, sp) + CommandBytes(command, flags, dataLength, errorCode, invokeId);
      && |h| == AMS_HEADER_LENGTH
      && h[0..6] == t && U16(h[6..8]) == tp && h[8..14] == s && U16(h[14..16]) == sp
      && U16(h[16..18]) == command && U16(h[18..20]) == flags
      && U32(h[20..24]) == dataLength && U32(h[24..28]) == errorCode && U32(h[28..32]) == invokeId
  {
    var a, c := AddressBytes(t, tp, s, sp), CommandBytes(command, flags, dataLength, errorCode, invokeId);
    AddressSlices(t, LE(tp, 2), s, LE(sp, 2), c);
    CommandSlices(a, LE(command, 2), LE(flags, 2), LE(dataLength, 4), LE(errorCode, 4), LE(invokeId, 4));
    ReadsBack16(tp);
    ReadsBack16(sp);
    ReadsBack16(command);
    ReadsBack16(flags);
    ReadsBack32(dataLength);
    ReadsBack32(errorCode);
    ReadsBack32(invokeId);
  }

  /** Whatever the header says, parsing takes each of its fields and the payload as they
      stand in the frame: NetIDs at bytes 6 and 14, ports behind them, then command,
      flags, length, error code and invoke ID. */
  lemma AnyFrameParses(t: seq<byte>, tp: uint16, s: seq<byte>, sp: uint16, command: uint16, flags: uint16,
                       dataLength: uint32, errorCode: uint32, invokeId: uint32, data: seq<byte>)
    requires |t| == 6 && |s| == 6 && |data| <= TWO32 - 39
    ensures var f := Framed(AddressBytes(t, tp, s, sp) + CommandBytes(command, flags, dataLength, errorCode, invokeId),
                            data);
      && CheckTcpPacketLength(f) == Ok(|f|)
      && ParsePacket(f) == Ok(Packet(NetId.Print(t), tp, NetId.Print(s), sp, command, flags, dataLength, errorCode,
                                     invokeId, data))
  {
    var h := AddressBytes(t, tp, s, sp) + CommandBytes(command, flags, dataLength, errorCode, invokeId);
    HeaderFields(t, tp, s, sp, command, flags, dataLength, errorCode, invokeId);
    FrameParses(h, data);
  }

  /** The bytes of a request frame, each number with its lowest byte first. */
  lemma FrameBytes(t: seq<byte>, tp: uint16, s: seq<byte>, sp: uint16, command: uint16, invokeId: uint32,
                   data: seq<byte>)
    requires |t| == 6 && |s| == 6 && |data| <= TWO32 - 39
    ensures var f := Framed(HeaderBytes(t, tp, s, sp, command, |data|, invokeId), data);
      && |f| == 38 + |data|
      && f[0..2] == [0, 0] && Weighted(f[2..6]) == 32 + |data|
      && f[6..12] == t && Weighted(f[12..14]) == tp && f[14..20] == s && Weighted(f[20..22]) == sp
      && Weighted(f[22..24]) == command && f[24..26] == [4, 0] && Weighted(f[26..30]) == |data|
      && f[30..34] == [0, 0, 0, 0] && Weighted(f[34..38]) == invokeId && f[38..] == data
  {
    var n: uint32 := 32 + |data|;
    var h := HeaderBytes(t, tp, s, sp, command, |data|, invokeId);
    assert (AMS_HEADER_LENGTH + |data|) % TWO32 == n;
    TcpBytes(n);
    HeaderWeights(t, tp, s, sp, command, |data|, invokeId);
    ShiftedSlices(TcpHeader(TCP_PORT_AMS_COMMAND, n), h, data);
  }

  lemma TcpBytes(n: uint32)
    ensures var h := TcpHeader(TCP_PORT_AMS_COMMAND, n); h[0..2] == [0, 0] && Weighted(h[2..6]) == n
  {
    Pow256Values();
    LEIsWeighted(n, 4);
    assert LE(0, 2) == [0, 0];
    assert TcpHeader(TCP_PORT_AMS_COMMAND, n)[2..6] == LE(n, 4);
  }

  lemma HeaderWeights(t: seq<byte>, tp: uint16, s: seq<byte>, sp: uint16, command: uint16, dataLength: uint32,
                      invokeId: uint32)
    requires |t| == 6 && |s| == 6
    ensures var h := HeaderBytes(t, tp, s, sp, command, dataLength, invokeId);
      && h[0..6] == t && Weighted(h[6..8]) == tp && h[8..14] == s && Weighted(h[14..16]) == sp
      && Weighted(h[16..18]) == command && h[18..20] == [4, 0] && Weighted(h[20..24]) == dataLength
      && h[24..28] == [0, 0, 0, 0] && Weighted(h[28..32]) == invokeId
  {
    var h := HeaderBytes(t, tp, s, sp, command, dataLength, invokeId);
    HeaderFields(t, tp, s, sp, command, STATE_FLAG_ADS_COMMAND, dataLength, 0, invokeId);
    FromLEIsWeighted(h[6..8]);
    FromLEIsWeighted(h[14..16]);
    FromLEIsWeighted(h[16..18]);
    FromLEIsWeighted(h[20..24]);
    FromLEIsWeighted(h[28..32]);
    SmallBytes(h[18..20], h[24..28]);
  }

  lemma SmallBytes(flags: seq<byte>, zeros: seq<byte>)
    requires |flags| == 2 && U16(flags) == 4 && |zeros| == 4 && U32(zeros) == 0
    ensures flags == [4, 0] && zeros == [0, 0, 0, 0]
  {
    FromLERoundTrip(flags);
    FromLERoundTrip(zeros);
  }

  lemma ShiftedSlices(front: seq<byte>, h: seq<byte>, data: seq<byte>)
    requires |front| == 6 && |h| == AMS_HEADER_LENGTH
    ensures var f := front + h + data;
      && |f| == 38 + |data| && f[0..2] == front[0..2] && f[2..6] == front[2..6]
      && f[6..12] == h[0..6] && f[12..14] == h[6..8] && f[14..20] == h[8..14] && f[20..22] == h[14..16]
      && f[22..24] == h[16..18] && f[24..26] == h[18..20] && f[26..30] == h[20..24] && f[30..34] == h[24..28]
      && f[34..38] == h[28..32] && f[38..] == data
  {
  }

  /** Any bytes: a packet parses exactly when it has its 38 bytes of headers, declares at
      least the 32 of one, and holds what it declares, in a length that also looks long
      enough in 32 bits; where only that is so, slicing the payload out panics. */
  lemma ParsesIff(data: seq<byte>)
    ensures |data| < 38 ==> ParsePacket(data) == Err(InsufficientData)
    ensures |data| >= 38 ==>
      var n := Weighted(data[2..6]);
      if n < 32 then ParsePacket(data) == Err(InvalidLength)
      else if |data| % 0x1_0000_0000 < (6 + n) % 0x1_0000_0000 then ParsePacket(data) == Err(InsufficientData)
      else if |data| < 6 + n then ParsePacket(data) == Panic
      else ParsePacket(data).Ok? && ParsePacket(data).value.data == data[38..6 + n]
  {
    if |data| >= 38 {
      FromLEIsWeighted(data[2..6]);
      PayloadIs(data, Declared(data));
    }
  }

  lemma PayloadIs(data: seq<byte>, n: nat)
    requires |data| >= 38
    ensures 32 <= n <= |data| - 6 ==> data[TCP_HEADER_LENGTH..][AMS_HEADER_LENGTH..n] == data[38..6 + n]
  {
  }

  /** Parsing what `send` built returns every field and the payload; an address comes
      back as it was exactly when its NetID is spelt canonically. */
  lemma SentFrameParses(target: AmsAddress, source: AmsAddress, command: uint16, invokeId: uint32, data: seq<byte>)
    requires NetId.Parse(target.netId).Ok? && NetId.Parse(source.netId).Ok?
    requires |data| <= TWO32 - 39
    ensures var f := Frame(target, source, command, invokeId, data);
      && f.Ok? && CheckTcpPacketLength(f.value) == Ok(|f.value|)
      && var p := ParsePacket(f.value);
         && p.Ok?
         && p.value.targetPort == target.port && p.value.sourcePort == source.port
         && p.value.command == command && p.value.stateFlags == 4
         && p.value.dataLength == |data| && p.value.errorCode == 0 && p.value.invokeId == invokeId
         && p.value.data == data
         && (p.value.targetNetId == target.netId <==> NetId.Canonical(target.netId))
         && (p.value.sourceNetId == source.netId <==> NetId.Canonical(source.netId))
  {
    var t, s := NetId.Parse(target.netId).value, NetId.Parse(source.netId).value;
    FrameOf(target, t, source, s, command, invokeId, data);
    RequestParses(t, target.port, s, source.port, command, invokeId, data);
    NetId.PrintParseIff(target.netId);
    NetId.PrintParseIff(source.netId);
  }

  /** Whatever header follows the TCP header, framing hands it and the payload back. */
  lemma FrameParses(h: seq<byte>, data: seq<byte>)
    requires |h| == AMS_HEADER_LENGTH && |data| <= TWO32 - 39
    ensures var f := Framed(h, data);
      CheckTcpPacketLength(f) == Ok(|f|) && ParsePacket(f) == Ok(PacketOf(h, data))
  {
    var n := AMS_HEADER_LENGTH + |data|;
    assert n % TWO32 == n;
    ReadsBack32(n);
    FrameSlices(LE(TCP_PORT_AMS_COMMAND, 2), LE(n, 4), h, data);
  }

  lemma FrameSlices(command: seq<byte>, length: seq<byte>, h: seq<byte>, data: seq<byte>)
    requires |command| == 2 && |length| == 4 && |h| == AMS_HEADER_LENGTH
    ensures var f := command + length + h + data;
      && f[2..6] == length
      && f[TCP_HEADER_LENGTH..][..AMS_HEADER_LENGTH] == h
      && f[TCP_HEADER_LENGTH..][AMS_HEADER_LENGTH..AMS_HEADER_LENGTH + |data|] == data
  {
  }

  /** The frame around a header for these two NetIDs is parsed into its fields. */
  lemma RequestParses(t: seq<byte>, tp: uint16, s: seq<byte>, sp: uint16, command: uint16, invokeId: uint32,
                      data: seq<byte>)
    requires |t| == 6 && |s| == 6 && |data| <= TWO32 - 39
    ensures var f := Framed(HeaderBytes(t, tp, s, sp, command, |data|, invokeId), data);
      && CheckTcpPacketLength(f) == Ok(|f|)
      && ParsePacket(f) == Ok(Packet(NetId.Print(t), tp, NetId.Print(s), sp, command, STATE_FLAG_ADS_COMMAND,
                                     |data|, 0, invokeId, data))
  {
    var h := HeaderBytes(t, tp, s, sp, command, |data|, invokeId);
    FrameParses(h, data);
    HeaderFields(t, tp, s, sp, command, STATE_FLAG_ADS_COMMAND, |data|, 0, invokeId);
  }

  /** A frame of the form that `send` writes: command 0, request flags, no error, and
      both lengths right. */
  predicate IsRequestFrame(f: seq<byte>) {
    && |f| >= MIN_PACKET_LENGTH && |f| < TWO32
    && f[0..2] == LE(TCP_PORT_AMS_COMMAND, 2) && Declared(f) == |f| - TCP_HEADER_LENGTH
    && var h := f[TCP_HEADER_LENGTH..MIN_PACKET_LENGTH];
       U16(h[18..20]) == STATE_FLAG_ADS_COMMAND && U32(h[20..24]) == |f| - MIN_PACKET_LENGTH && U32(h[24..28]) == 0
  }

  /** The other direction: a request frame is rebuilt from its parsed fields. */
  lemma ParsedFrameRebuilds(f: seq<byte>)
    requires IsRequestFrame(f)
    ensures var p := ParsePacket(f);
      && p.Ok?
      && Frame(AmsAddress(p.value.targetNetId, p.value.targetPort), AmsAddress(p.value.sourceNetId, p.value.sourcePort),
               p.value.command, p.value.invokeId, p.value.data) == Ok(f)
  {
    var h, data := f[TCP_HEADER_LENGTH..MIN_PACKET_LENGTH], f[MIN_PACKET_LENGTH..];
    ParsedParts(f);
    var p := PacketOf(h, data);
    NetId.ParsePrint(h[0..6]);
    NetId.ParsePrint(h[8..14]);
    FrameOf(AmsAddress(p.targetNetId, p.targetPort), h[0..6], AmsAddress(p.sourceNetId, p.sourcePort), h[8..14],
            p.command, p.invokeId, p.data);
    FramedParts(f);
  }

  /** A request frame is the frame around its own header fields. */
  lemma FramedParts(f: seq<byte>)
    requires IsRequestFrame(f)
    ensures var (h, data) := (f[TCP_HEADER_LENGTH..MIN_PACKET_LENGTH], f[MIN_PACKET_LENGTH..]);
      Framed(HeaderBytes(h[0..6], U16(h[6..8]), h[8..14], U16(h[14..16]), U16(h[16..18]), |data|, U32(h[28..32])), data)
        == f
  {
    var h, data := f[TCP_HEADER_LENGTH..MIN_PACKET_LENGTH], f[MIN_PACKET_LENGTH..];
    ReframedIs(f);
    RequestRebuilds(h, |data|);
  }

  lemma ReframedIs(f: seq<byte>)
    requires IsRequestFrame(f)
    ensures Framed(f[TCP_HEADER_LENGTH..MIN_PACKET_LENGTH], f[MIN_PACKET_LENGTH..]) == f
  {
    ParsedParts(f);
    CutInThree(f);
    assert (AMS_HEADER_LENGTH + |f[MIN_PACKET_LENGTH..]|) % TWO32 == Declared(f);
  }

  lemma CutInThree(f: seq<byte>)
    requires |f| >= MIN_PACKET_LENGTH
    ensures f == f[..6] + f[TCP_HEADER_LENGTH..MIN_PACKET_LENGTH] + f[MIN_PACKET_LENGTH..]
  {
  }

  lemma RequestRebuilds(h: seq<byte>, n: uint32)
    requires |h| == AMS_HEADER_LENGTH
    requires U16(h[18..20]) == STATE_FLAG_ADS_COMMAND && U32(h[20..24]) == n && U32(h[24..28]) == 0
    ensures HeaderBytes(h[0..6], U16(h[6..8]), h[8..14], U16(h[14..16]), U16(h[16..18]), n, U32(h[28..32])) == h
  {
    HeaderRebuilds(h);
  }

  /** What parsing cuts a request frame into. */
  lemma ParsedParts(f: seq<byte>)
    requires IsRequestFrame(f)
    ensures ParsePacket(f) == Ok(PacketOf(f[TCP_HEADER_LENGTH..MIN_PACKET_LENGTH], f[MIN_PACKET_LENGTH..]))
    ensures TcpHeader(TCP_PORT_AMS_COMMAND, Declared(f)) == f[..6]
  {
    var ams := f[TCP_HEADER_LENGTH..];
    assert ams[..AMS_HEADER_LENGTH] == f[TCP_HEADER_LENGTH..MIN_PACKET_LENGTH];
    assert ams[AMS_HEADER_LENGTH..Declared(f)] == f[MIN_PACKET_LENGTH..];
    FromLERoundTrip(f[2..6]);
    assert f[0..2] + f[2..6] == f[..6];
  }

  lemma HeaderRebuilds(h: seq<byte>)
    requires |h| == AMS_HEADER_LENGTH
    ensures AddressBytes(h[0..6], U16(h[6..8]), h[8..14], U16(h[14..16]))
          + CommandBytes(U16(h[16..18]), U16(h[18..20]), U32(h[20..24]), U32(h[24..28]), U32(h[28..32])) == h
  {
    FromLERoundTrip(h[6..8]);
    FromLERoundTrip(h[14..16]);
    FromLERoundTrip(h[16..18]);
    FromLERoundTrip(h[18..20]);
    FromLERoundTrip(h[20..24]);
    FromLERoundTrip(h[24..28]);
    FromLERoundTrip(h[28..32]);
    assert h[0..6] + h[6..8] + h[8..14] + h[14..16] == h[..16];
    assert h[16..18] + h[18..20] + h[20..24] + h[24..28] + h[28..32] == h[16..];
  }

  /** A length that CheckTCPPacketLength accepts cuts off a packet that ParsePacket
      accepts exactly when the declared length leaves room for the header in 32 bits.
      Above that the sum wraps to less than a header. */
  lemma AcceptedFrameParsesIff(data: seq<byte>)
    requires CheckTcpPacketLength(data).Ok?
    ensures var n := CheckTcpPacketLength(data).value;
      && n <= |data|
      && (Declared(data) <= TWO32 - 7 <==> ParsePacket(data[..n]).Ok?)
      && (Declared(data) <= TWO32 - 7 <==> n == TCP_HEADER_LENGTH + Declared(data))
      && (Declared(data) > TWO32 - 7 ==> n < TCP_HEADER_LENGTH)
  {
    var n := CheckTcpPacketLength(data).value;
    if Declared(data) <= TWO32 - 7 {
      assert data[..n][2..6] == data[2..6];
    }
  }
}
