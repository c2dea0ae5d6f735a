# A verified model of the ADS client

The repository is a client for Beckhoff ADS over AMS/TCP. This project models its
logic in Dafny and proves what its pieces promise to each other. Sockets, timers and
goroutines become steps that happen in any order; everything else is modelled branch
by branch, with uint8, uint16, uint32 and uint64 arithmetic where it can wrap, and with
Go panics as an outcome of their own.

Each part has a specification in functions, the imperative code as methods and classes
proved against it, and theorems about the specification.

| files | part |
|---|---|
| `Outcomes.dfy`, `Bytes.dfy` | results that are a value, an error or a panic; little-endian numbers |
| `AdsTypes.dfy`, `Serializer.dfy`, `SerializerMethods.dfy` | the typed value codec: specification, and the code on buffers, arrays and a shared cursor |
| `SerializerTheorems.dfy`, `ImageTheorems.dfy` | its lengths, its round trip, padding, read-modify-write, row-major order, strings |
| `Primitives.dfy`, `Structure.dfy` | exactly what encodes, to which bytes, and what any bytes are decoded to |
| `TypeBuilder.dfy`, `TypeContent.dfy`, `Resolution.dfy` | resolution of named declarations into type trees: their layout, their content, and when it ends |
| `NetId.dfy`, `AmsPacket.dfy` | NetIDs and the AMS/TCP and AMS headers, built and parsed |
| `Framing.dfy` | cutting the TCP stream into packets: as the format defines it, as the code does it in 32 bits, and when the two agree |
| `Receiving.dfy` | the receive loops of successive connections on one buffer |
| `Readers.dfy`, `DataTypeParser.dfy`, `DataTypeMethods.dfy`, `DataTypeFormat.dfy` | the recursive data type parser on a reader whose short reads succeed; its format |
| `Symbols.dfy`, `SymbolTable.dfy` | the symbol parser, its format, and the walk over an uploaded table |
| `Flags.dfy`, `ShortData.dfy` | the flag words bit by bit, and what the parsers make of any bytes, cut short or not |
| `Notifications.dfy` | notification packets, time stamps and delivery |
| `Poller.dfy`, `StateChecks.dfy` | generations of the state poller; state cache, failure counter, latch, restart index |
| `InvokeIds.dfy` | responses matched to requests |

`dafny verify dfyconfig.toml` checks everything.

## How runs are modelled

A concurrent part is a state, a set of steps and a function from a state and a step to
the next state; a step that cannot happen changes nothing. A run is any sequence of
steps, and a theorem about runs quantifies over all of them. Where a mutex guards the
state a step is one critical section; otherwise it is one rendezvous on a channel, the
end of a wait, or what is listed below. The class beside the machine has the fields of
the Go struct, and the contract of each method names the step that it makes.

- Receiving: a read of the receive loop, with the packets that the code then cuts off, is
  one step; so is a read error, and the part of `Connect` that replaces the connection,
  empties the buffer and starts the loop, which captures its connection in that step. The
  code takes no mutex for any of these. `Split` has the check of the connection and the
  write to the buffer as two steps, and `AlwaysOwnIff` and `WriteIsOwnIff` say exactly
  which interleavings are safe. A read on which the code never stops cutting is the last
  step of its loop.
- Poller: timers and checks are interleaved freely, including timers that fire while they
  are being stopped. Poller IDs do not wrap in the model.
- State checks: in the runs of `Monitor` a check is one step; in those of `Overlap` its
  begin, which reads the fields, and its end, which writes them in whatever state the
  client is by then, are two.
- Invoke IDs: a call is named by the channel that it makes. A response may wait on a
  channel for ever, as an unbuffered Go channel allows, and any number of receive loops may do so.

## Where the code differs from its documentation

The model follows the code.

- STRING (`pkg/ads/ads-serializer/doc.go:203-206`): said to be cut to Size-1 bytes and
  terminated. The code copies up to Size bytes and keeps no terminator free; see `StringSurvivesIff`.
- WSTRING: written as UTF-16, read as single bytes; see `WideStringReadsFirstCharacter`.
- Arrays of structs are decoded but cannot be encoded; see `ArrayOfStructsIsNotEncoded`.
- `MaxConsecutiveReadFailures` (`pkg/ads/client.go:88-91`): said to default to 2;
  `LoadDefaults` sets 1. The theorems hold for every limit; one below 1 acts like 1.
- `StatePollingInterval` (`pkg/ads/client.go:82-85`): said to disable monitoring at 0;
  `LoadDefaults` turns 0 into two seconds, so only a negative interval reaches the guard.
- Leaving Run mode is said to trigger OnConnectionLost; only OnStateChange is issued.
- The comment field of a symbol (`pkg/ads/ads-symbol/parse.go:34`): said to be
  unterminated; the parser reads a terminating byte.
- `CheckTCPPacketLength` compares in 32 bits. Declared lengths above 2^32-7 wrap, and a
  buffer of 2^32 bytes or more looks short; `CheckIsRightIff` and `AlwaysRightIff` say
  exactly when it is right. At 2^32-6 the length wraps to zero and the loop never ends;
  `LoopEndsIff` says that this is the only case.
- A declared length below 32 parks the stream: nothing behind it is ever parsed.

## Model

| member | source | states |
|---|---|---|
| Bytes.FromLEIsWeighted | pkg/ads/ads-primitives/read.go:41-136 | A number is the sum of its bytes, each weighing 256 times as much as the one before it |
| SerializerTheorems.RoundTrip | pkg/ads/ads-serializer/deserialize.go:37-120 | For every well-formed type (structs of distinct, disjoint fields; arrays whose size is the element width) and every value that encodes, decoding any buffer that holds the encoding at the type's offset gives the canonical value: numbers in the Go type of the PLC type, BIT as bool, surplus map keys and array elements gone |
| SerializerTheorems.FieldsRoundTrip | pkg/ads/ads-serializer/deserialize.go:44-55 | Reading the fields one by one yields exactly the canonical fields, added to what was read before |
| SerializerTheorems.ArrayRoundTrip | pkg/ads/ads-serializer/deserialize.go:58-82 | From any index of any dimension, reading yields the canonical items and moves the cursor by exactly the bytes that writing produced |
| SerializerTheorems.PrimitiveRoundTrip | pkg/ads/ads-serializer/serialize.go:171-342 | A primitive decoded from the front of any buffer that starts with its encoding is the canonical value |
| SerializerTheorems.SerializedLength | pkg/ads/ads-serializer/serialize.go:39-168 | Every successful encoding has the number of bytes that the layout of its type prescribes: declared size, largest field end, sum of the fields, or elements times width |
| SerializerTheorems.PlaceFrame | pkg/ads/ads-serializer/serialize.go:112-121 | Copying fields to their offsets leaves every byte alone that no field covers |
| SerializerTheorems.PlaceHolds | pkg/ads/ads-serializer/serialize.go:112-121 | Disjoint fields all stand at their offsets in the end, whatever their order |
| SerializerTheorems.ConcatHolds | pkg/ads/ads-serializer/serialize.go:83-98 | In the sequential form of a struct without offsets, disjoint fields are found at offset 0, where Deserialize looks |
| ImageTheorems.EncodedNumberIsKept | pkg/ads/ads-serializer/convert.go:11-213 | Narrowing is checked: an integer or bit that encodes is decoded to the same mathematical number, whatever follows it |
| ImageTheorems.PaddingIsZero | pkg/ads/ads-serializer/serialize.go:83-121 | Bytes of a struct image that no field covers are zero |
| ImageTheorems.CanonicalReencodes | pkg/ads/ads-serializer/serialize.go:39-342 | Encoding the canonical value gives the very bytes of the original value |
| ImageTheorems.DeserializedElement | pkg/ads/ads-serializer/deserialize.go:58-82 | For any number of dimensions and for struct elements too, the element at a multi-index is the decoding at Size times the row-major linear index; an element that cannot be decoded is nil |
| ImageTheorems.SerializedElement | pkg/ads/ads-serializer/serialize.go:136-167 | The encoding holds the element at a multi-index at its width times the same linear index |
| ImageTheorems.StringSurvivesIff | pkg/ads/ads-primitives/write.go:113-123 | A STRING comes back whatever follows it if and only if it has no zero byte and is shorter than its field |
| ImageTheorems.ReadModifyWrite | pkg/ads/ads-serializer/serialize.go:48-122 | Decoding an image, replacing one struct field and encoding again succeeds exactly when the new field value encodes; it changes only the bytes of that field, which become the encoding of the new value |
| ImageTheorems.ArrayEncodesIff | pkg/ads/ads-serializer/serialize.go:48-342 | Some value of a non-empty array type encodes if and only if its code is a primitive's, whether the type has sub-items or not |
| ImageTheorems.SubItemsAreIgnored | pkg/ads/ads-serializer/serialize.go:136-163 | An array is encoded without a look at the sub-items of its type |
| ImageTheorems.ArrayOfStructsIsNotEncoded | pkg/ads/ads-serializer/serialize.go:48-168 | No array with the code of a struct, and none with a struct value for an element, is ever encoded, except that VOID writes nothing; both are decoded |
| ImageTheorems.WideStringReadsFirstCharacter | pkg/ads/ads-serializer/deserialize.go:113-114 | A WSTRING of ASCII characters is read back as its first character, or as nothing when it has none or the field is under four bytes; it survives if and only if it is empty, or has one character and the field has room |
| Primitives.EncodesIff | pkg/ads/ads-serializer/convert.go:11-252 | For every type code a Go value encodes if and only if the table says so, which gives accepted types and ranges in figures; a value that does not is refused, a code that is not in the table is unsupported |
| Primitives.IntegerBytes | pkg/ads/ads-serializer/serialize.go:191-270 | The bytes of an encoded integer are the number, lowest byte first, in two's complement |
| Primitives.BitBytes | pkg/ads/ads-serializer/serialize.go:173-192 | A VOID takes no byte, a BIT one: 1 for true and the int 1, 0 otherwise |
| Primitives.Real32IsKept | pkg/ads/ads-serializer/convert.go:216-232 | A float32 is read back bit for bit, a float64 as Go narrows it, an int as Go converts it, a boolean as 1.0 or 0.0 |
| Primitives.Real64IsKept | pkg/ads/ads-serializer/convert.go:236-252 | The same for REAL64: a float64 bit for bit, a float32 as Go widens it |
| Primitives.StringBytes | pkg/ads/ads-primitives/write.go:113-123 | Byte by byte: what fits of the string, then zeros; 80 bytes when no size is declared |
| Primitives.WideStringBytes | pkg/ads/ads-serializer/serialize.go:305-331 | Byte by byte: the runes cut to 16 bits, low byte first, as many as leave two bytes free, then zeros; 160 bytes when no size is declared |
| Primitives.DecodesAs | pkg/ads/ads-serializer/deserialize.go:92-120 | Whatever the bytes: too few are an error, otherwise the value has the Go type of the code and is the number that the bytes stand for; a BIT is true unless its byte is 0 |
| Primitives.DecodesRest | pkg/ads/ads-serializer/deserialize.go:88-120 | A VOID is nil, a string of either kind ends before its first zero byte or with the data, other codes are unsupported |
| Structure.SerializesIff | pkg/ads/ads-serializer/serialize.go:39-342 | A value encodes if and only if it has the shape of the type: a map with an encodable value for every field and room for them in the declared size, a slice with enough encodable items in every dimension, or an accepted primitive |
| Structure.FirstBadField | pkg/ads/ads-serializer/serialize.go:61-81 | The first field that is missing or does not encode decides the error |
| Structure.FirstBadItem | pkg/ads/ads-serializer/serialize.go:137-161 | The first item that does not encode decides the error, and a slice that is too short panics there |
| Structure.WrongShape | pkg/ads/ads-serializer/serialize.go:50-145 | A value that is no map, no slice or no nested slice, and a struct without room, are errors of their own |
| Structure.OffsetBytes | pkg/ads/ads-serializer/serialize.go:100-121 | Each byte of a struct with offsets is that of the last field that covers it, overlapping or not, or zero |
| Structure.SequentialBytes | pkg/ads/ads-serializer/serialize.go:83-98 | In a struct without offsets each field begins where the ones before it end, and zeros follow |
| Structure.StructDecodes | pkg/ads/ads-serializer/deserialize.go:43-55 | A struct, also as an element of an array, decodes if and only if all its fields do, to the map of their names to their values |
| Structure.FirstUndecodable | pkg/ads/ads-serializer/deserialize.go:44-55 | The first field that does not decode decides the error |
| Structure.LeafDecodes | pkg/ads/ads-serializer/deserialize.go:85-120 | What has no sub-items is read by its code at its offset, which panics behind the data |
| Structure.ArrayDecodesIff | pkg/ads/ads-serializer/deserialize.go:58-82 | Decoding an array is never an error; it panics if and only if the position of some element cannot be looked at, and otherwise gives slices as long as its dimensions |
| Structure.ArrayOfStructsElement | pkg/ads/ads-serializer/deserialize.go:44-82 | The element at a multi-index of an array of structs is the canonical form of the struct whose encoded fields stand at Size times its linear index |
| SerializerMethods.SerializeValue | pkg/ads/ads-serializer/serialize.go:39-342 | The recursive encoder with its buffers and loops computes the specification Serialize, errors and panics included |
| SerializerMethods.SerializeSubItems | pkg/ads/ads-serializer/serialize.go:61-81 | The field loop collects the encodings in order, stops at the first missing or failing field, and finds out whether a field has an offset |
| SerializerMethods.LayOutByOffset | pkg/ads/ads-serializer/serialize.go:100-121 | The loops for the size and for copying the fields in place compute the specified layout |
| SerializerMethods.LayOutInOrder | pkg/ads/ads-serializer/serialize.go:83-98 | Sequential layout: fields one after the other, padded to the declared size, an error when they exceed it |
| SerializerMethods.WriteDimension | pkg/ads/ads-serializer/serialize.go:136-163 | The closure appends exactly the encoding of its dimension to the shared buffer |
| SerializerMethods.DeserializeValue | pkg/ads/ads-serializer/deserialize.go:37-120 | The decoder with its growing map and slices computes the specification Deserialize |
| SerializerMethods.ArrayReader.ConvertDimension | pkg/ads/ads-serializer/deserialize.go:61-80 | The closure on the shared dataPos returns the values of its dimension and leaves dataPos where the specification says |
| TypeBuilder.BuildKeepsLayout | pkg/ads/client_data_types.go:35-77 | In an acyclic, size-consistent environment every declared type resolves, and at the root and at every field the product of the array lengths times Size is the declared size |
| TypeBuilder.EncodingHasDeclaredSize | pkg/ads/client_data_types.go:24-77 | Whatever encodes on a resolved type takes exactly the declared number of bytes |
| TypeBuilder.BuiltIsWellFormed | pkg/ads/client_data_types.go:35-77 | Resolved types meet the conditions of the round trip when no array of structs and no WSTRING is declared |
| TypeBuilder.ResolvedRoundTrip | pkg/ads/client_data_types.go:24-77 | Values encoded on a resolved type are decoded from any buffer that holds them |
| TypeContent.BuildCarries | pkg/ads/client_data_types.go:24-77 | Where no declaration leads back to itself, resolution succeeds if and only if all names it leads to are declared, and fails with one that is not; the tree carries code, type name, size and dimensions of the declarations down to the leaves, and name, offset and comment of the line that declares a field |
| Resolution.BuildDataType | pkg/ads/client_data_types.go:24-77 | Whenever resolution ends, the recursive method and its loop return the specified tree or the error of the first unknown name |
| Resolution.ResolutionEndsIff | pkg/ads/client_data_types.go:35-77 | Resolution of a name ends if and only if no chain of requests, each made by resolving the one before, comes to a name twice; what lies behind a field that fails is not requested |
| Resolution.ResolveIsBuild | pkg/ads/client_data_types.go:35-77 | On acyclic declarations the result is the tree that the layout theorems speak of |
| NetId.ParsePrint | pkg/ads/utils/amsNetId.go:15-38 | Every 6-byte NetID is parsed back from its printed form |
| NetId.PrintParseIff | pkg/ads/utils/amsNetId.go:15-38 | A string that parses prints back as itself if and only if its six parts are plain decimal bytes; signs, leading zeros and numbers over 255 are accepted and lost |
| NetId.AmsNetIdStrToByteArray | pkg/ads/utils/amsNetId.go:15-29 | The loop over the parts computes the specified bytes or the error of the first bad part |
| NetId.ByteArrayToAmsNetIdStr | pkg/ads/utils/amsNetId.go:32-38 | The loop over the bytes computes the specified string |
| NetId.AtoiIff | pkg/ads/utils/amsNetId.go:20-26 | Exactly the digit strings, with a sign or without, that fit 64 bits are numbers, and their value |
| NetId.ParseIff | pkg/ads/utils/amsNetId.go:15-29 | A NetID parses if and only if it has six parts that are numbers; its bytes are these modulo 256; the first bad part decides the error |
| AmsPacket.BuildAmsTcpHeader | pkg/ads/ams-builder/build.go:35-40 | The buffer filled in place is the specified 6-byte header |
| AmsPacket.BuildAmsHeader | pkg/ads/ams-builder/build.go:73-100 | The buffer filled in place is the specified 32-byte header, or the error of a bad NetID |
| AmsPacket.SentFrameParses | pkg/ads/client_send.go:29-42 | For all addresses and payloads up to 2^32-39 bytes, parsing the frame that send builds returns every field and the payload; a NetID comes back as it was if and only if it is canonical |
| AmsPacket.ParsedFrameRebuilds | pkg/ads/ams-header/parse.go:51-98 | Every request frame is rebuilt byte for byte from its parsed fields |
| AmsPacket.AcceptedFrameParsesIff | pkg/ads/client_buffer.go:136-144 | A packet cut off by CheckTCPPacketLength parses if and only if its declared length is at most 2^32-7; above that the uint32 sum wraps to less than a header |
| AmsPacket.AnyFrameParses | pkg/ads/ams-header/parse.go:51-98 | Whatever the header says, every field and the payload of the parsed packet are those of the frame, flags and error code included |
| AmsPacket.FrameBytes | pkg/ads/ams-builder/build.go:35-100 | The bytes of a request frame: command 0, both lengths, the addresses, flags 4 and error code 0, each number lowest byte first |
| AmsPacket.ParsesIff | pkg/ads/ams-header/parse.go:51-141 | On any bytes: exactly when a packet parses, when each error is returned, and when slicing the payload panics |
| Framing.FramesPartition | pkg/ads/client_buffer.go:70-81 | Packets and residue make up the stream, each packet is at least 38 bytes and as long as it declares |
| Framing.FramesAppend | pkg/ads/client_buffer.go:61-66 | Parsing what has arrived and later the rest is parsing everything at once |
| Framing.OverlongBufferIsMisread | pkg/ads/ams-header/parse.go:136-138 | A buffer of 2^32 bytes looks too short for a packet that it contains |
| Framing.ChunkInvariance | pkg/ads/client_buffer.go:61-109 | The cut that the format defines, without machine arithmetic: however a stream is split into reads, packets and rest are those of the whole stream |
| Framing.DrainPartition | pkg/ads/client_buffer.go:70-81 | Whatever lengths are declared, the packets that the loop of the code cuts off and what it keeps make up the buffer |
| Framing.LoopEndsIff | pkg/ads/client_buffer.go:70-81 | The loop of the code ends if and only if it comes to no packet that declares 2^32-6 bytes, whose length wraps to zero |
| Framing.CheckIsRightIff | pkg/ads/ams-header/parse.go:124-141 | The uint32 length check agrees with the packet being there if and only if an arithmetic condition on the declared length and the buffer size holds |
| Framing.DrainIsFramesIff | pkg/ads/client_buffer.go:70-81 | The loop of the code cuts a buffer as the format defines if and only if that condition holds at every packet boundary |
| Framing.AlwaysRightIff | pkg/ads/client_buffer.go:61-109 | Read after read, the code agrees with a one-shot parse of what has arrived if and only if the condition holds at every read |
| Framing.ReceivedAsAWhole | pkg/ads/client_buffer.go:31-66 | However a stream of safe lengths is cut into reads of up to 4096 bytes, the code has handed on and kept, after every read, what a one-shot parse gives |
| Framing.SafeResidue | pkg/ads/client_buffer.go:61-66 | On a stream of safe lengths, what a read leaves in the buffer always has room for the next read |
| Receiving.Receiver.ProcessReceiveBuffer | pkg/ads/client_buffer.go:70-110 | On every buffer on which it ends, the loop hands on and keeps what the specification of its uint32 arithmetic says |
| Receiving.Receiver.HandleRead | pkg/ads/client_buffer.go:54-66 | The method is the Read step: a loop whose connection was replaced ends, that of the active one takes the bytes in |
| Receiving.Receiver.HandleReadError | pkg/ads/client_buffer.go:35-51 | The method is the ReadError step of its loop |
| Receiving.Receiver.Reconnect | pkg/ads/client_connect.go:24-40 | The method is the Connect step: new connection, empty buffer, and a loop if the port was registered |
| Receiving.Receiver.ReceiveAll | pkg/ads/client_buffer.go:31-67 | On a fresh connection, as long as each read ends, the receive loop hands on and keeps what the code gives for the reads together: with ReceivedAsAWhole, what a one-shot parse gives on streams of safe lengths |
| Receiving.StreamsStayApart | pkg/ads/client_buffer.go:16-67 | Over every run of connects, reads and errors, whatever lengths are declared, the buffer is an end of the current connection's own stream, and each connection's loss is reported at most once |
| Receiving.ConnectionsAreIsolated | pkg/ads/client_buffer.go:16-67 | Over every run of reads of up to 4096 bytes and safe lengths, at every point the packets handed on are those of each connection's stream parsed by itself, in order |
| Receiving.AlwaysIsolatedIff | pkg/ads/client_buffer.go:16-67 | Over every run, whatever lengths are declared: at every point the buffer is the unfinished end of the current stream and the packets handed on are those of each connection's stream parsed by itself, if and only if no length wraps at any read |
| Receiving.AlwaysOwnIff | pkg/ads/client_buffer.go:54-66 | With the check of the connection and the write to the buffer as two steps: what is handed on and kept since Connect is the active connection's stream at every point of a run if and only if each write of bytes is by the active connection's loop |
| Receiving.WriteIsOwnIff | pkg/ads/client_buffer.go:54-62 | A connection that was the active one at the check still is at the write if and only if no Connect came in between |
| Receiving.StaleLoopIsSilent | pkg/ads/client_buffer.go:45-59 | Once its connection is replaced, a loop neither takes bytes in nor reports a loss in any continuation |
| Receiving.ConnectStartsLoop | pkg/ads/client_connect.go:24-40 | In every run a connect makes a new connection with an empty buffer, with a loop exactly when the port was registered, and leaves packets and losses alone |
| Receiving.LoopReads | pkg/ads/client_buffer.go:31-66 | In every run the loop of the active connection takes in what it reads, cuts its packets off, and reports its failed read; any other loop only ends |
| DataTypeParser.ParseSubItem | pkg/ads/ads-datatype/parse.go:165-191 | A sub-item is parsed in a zero-extended buffer that may be longer than its parent; what it leaves is no more significant than what it was given, which is why parsing ends |
| DataTypeParser.FrontSuffix | pkg/ads/ads-datatype/parse.go:45-114 | A sub-item count other than zero makes the bytes behind it strictly less significant: the measure of termination |
| DataTypeParser.ChildSignificant | pkg/ads/ads-datatype/parse.go:169-185 | The two reads of a sub-item, zeros included, are no more significant than the bytes they come from |
| DataTypeFormat.ParseInvertsEncode | pkg/ads/ads-datatype/parse.go:45-127 | For every well-formed type tree, whatever fills up the entries at any depth, parsing its encoding returns all names, bounds, sub-items, GUID, attributes, enum values, extended flags and enum extensions, skips copy mask, methods and deref GUIDs exactly, and leaves exactly what fills up the outer entry and what follows it |
| DataTypeFormat.SectionsInvert | pkg/ads/ads-datatype/parse.go:196-254 | The optional sections are inverted for every combination of flags |
| DataTypeFormat.EnumValueRecoveredIff | pkg/ads/ads-datatype/parse.go:347-365 | The value of an enumeration constant comes back if and only if it is not negative or fills eight bytes |
| DataTypeFormat.StringInvertsIff | pkg/ads/ads-datatype/parse.go:139-146 | A string is read back if and only if it is shorter than 65535 bytes; at that length the parser panics |
| DataTypeFormat.MethodSkipsIff | pkg/ads/ads-datatype/parse.go:287-290 | A method entry is skipped exactly unless it has no body and ends the data |
| DataTypeFormat.EnumInvertsIff | pkg/ads/ads-datatype/parse.go:334-369 | An enumeration constant is read back exactly unless its type has no bytes and it ends the data |
| DataTypeMethods.ReadDataType | pkg/ads/ads-datatype/parse.go:45-127 | The parser with its reader and loops computes the specification on every byte sequence, and terminates on every one |
| DataTypeMethods.ReadSubItems | pkg/ads/ads-datatype/parse.go:165-193 | The sub-item loop computes the specified list or the first error |
| DataTypeMethods.ReadOptions | pkg/ads/ads-datatype/parse.go:196-254 | The optional sections, read one after the other, fill in what the specification says |
| DataTypeMethods.ExtendEnumInfos | pkg/ads/ads-datatype/parse.go:400-446 | The constants completed in place are the specified ones |
| DataTypeMethods.SkipMethodInfos | pkg/ads/ads-datatype/parse.go:277-293 | Method entries are skipped one by one by their declared lengths, with the uint32 subtraction that may wrap |
| DataTypeMethods.NestingIsBounded | pkg/ads/ads-datatype/parse.go:165-193 | Data that parses nests at most one level per 45 bytes up to the last byte that is not zero |
| Flags.AnnouncedByBits | pkg/ads/ads-datatype/parse.go:196-254 | Each of the eight optional sections is announced by one binary digit of the flags, whatever the others are |
| Flags.SymbolBits | pkg/ads/ads-symbol/parse.go:112-136 | A symbol has its GUID under bit 3, its attributes under bit 12 and its number of dimensions in the upper 16 bits |
| ShortData.ReaderReads | pkg/ads/ads-datatype/parse.go:139-191 | The three ways of reading: all or an error, zeros for what is missing, and no further than the end |
| ShortData.FrontParsesIff | pkg/ads/ads-datatype/parse.go:45-114 | On any bytes the part in front of the sub-items parses if and only if the data is as long as its own lengths say and none of them is 65535 |
| ShortData.EntryReads | pkg/ads/ads-datatype/parse.go:165-185 | A sub-item needs a length of at least 4 and a byte behind it; what it lacks is zeros |
| ShortData.SubItemsParseIff | pkg/ads/ads-datatype/parse.go:165-193 | On any bytes the sub-items parse if and only if their entries are there and each parses by itself, to what it parses to |
| ShortData.DeclarationParsesIff | pkg/ads/ads-datatype/parse.go:45-127 | Behind any front and on any bytes, a declaration parses if and only if each entry that it counts is there and parses by itself and the announced sections parse behind them; its fields are what these parse to |
| ShortData.ListRunsOut | pkg/ads/ads-datatype/parse.go:277-446 | A counted list of any section whose items run out is an error |
| ShortData.MissingSections | pkg/ads/ads-datatype/parse.go:196-254 | At the end of the data every announced section is an error except the copy mask and the extra data of no constants |
| ShortData.CutShortIsPadded | pkg/ads/ads-datatype/parse.go:256-275 | A GUID or short string that is cut short is read as if zeros followed it |
| ShortData.HexDigits | pkg/ads/ads-datatype/parse.go:256-270 | A GUID is printed as two lower-case hexadecimal digits for each byte, the high one first |
| ShortData.EnumValueIs | pkg/ads/ads-datatype/parse.go:347-365 | The value of a constant of any width is its first eight bytes, lowest first, in two's complement |
| ShortData.SymbolParsesIff | pkg/ads/ads-symbol/parse.go:37-103 | On any bytes a symbol parses if and only if it has 30 bytes and those of its three strings; otherwise which of the two is missing decides the error |
| ShortData.TextReads | pkg/ads/ads-symbol/parse.go:85-107 | A string of a symbol ends at its first zero byte, and what follows begins where its length says |
| ShortData.BoundsAvailable | pkg/ads/ads-symbol/parse.go:112-123 | There are as many bounds as whole ones in the data, and one that is cut short uses the data up |
| ShortData.AllAvailable | pkg/ads/ads-symbol/parse.go:140-160 | Attributes are read up to the first that is cut short, and none before it is left out |
| ShortData.SampleCutShort | pkg/ads/client_subscriptions.go:290-308 | The payload of a sample that is cut short is filled up with zeros; where nothing of it is there, reading fails |
| Symbols.ReadSymbol | pkg/ads/ads-symbol/parse.go:37-164 | The symbol parser with its reader computes the specification: the fixed part can fail, what follows the strings never does |
| Symbols.ReadBounds | pkg/ads/ads-symbol/parse.go:113-123 | The bounds that are there are read; one that is cut short ends the list and uses up the data |
| Symbols.ReadAttributeList | pkg/ads/ads-symbol/parse.go:136-160 | The attributes that are there are read; one that is cut short ends the list |
| SymbolTable.ParseInvertsEncode | pkg/ads/ads-symbol/parse.go:37-164 | Parsing the encoding of a well-formed symbol gives it back, bounds, GUID and attributes included, whatever fills up its entry |
| SymbolTable.UploadSymbols | pkg/ads/client_symbols.go:73-86 | The walk returns the symbols of exactly the specified entries, and terminates on every blob |
| SymbolTable.EntriesPartition | pkg/ads/client_symbols.go:73-86 | The visited entries are consecutive, gap-free, non-empty slices of a prefix, and behind them the walk has a reason to stop |
| SymbolTable.EntryAt | pkg/ads/client_symbols.go:75-84 | Each entry begins where the ones before it end and is as long as it says there |
| SymbolTable.UploadReturnsAll | pkg/ads/client_symbols.go:73-86 | For a table of any number of well-formed symbols the upload returns all of them in order |
| SymbolTable.EntriesAreFiltered | pkg/ads/client_symbols.go:80-84 | Every entry that parses is returned in its place, and every other passed over |
| Notifications.FiletimeIsExact | pkg/ads/client_subscriptions.go:318-327 | For every uint64 the time is the exact number of nanoseconds from the Unix epoch, which is the leap-year count of days from 1601 to 1970 later, also before 1970 where the subtraction wraps |
| Notifications.ParseNotificationPacket | pkg/ads/client_subscriptions.go:249-314 | The nested loops over the reader compute the specified stamps or the first error |
| Notifications.ParseInvertsEncodeIff | pkg/ads/client_subscriptions.go:249-314 | Parsing recovers every encoded list of stamps if and only if the data does not end in a sample without payload; then the whole packet is lost |
| Notifications.HandleNotification | pkg/ads/client_subscriptions.go:330-361 | The nested loops start the specified jobs, none when parsing fails; the subscriptions may change between any two lookups |
| Notifications.DeliveredInOrder | pkg/ads/client_subscriptions.go:344-361 | One job for each sample whose handle is known when it is looked up and no other, in wire order, with its own payload and time |
| Notifications.EncodedSamplesAreDelivered | pkg/ads/client_subscriptions.go:330-361 | From packet to callbacks: every encoded sample whose handle is known when it is looked up starts one job, in order, with its own payload and time; none does when the data ends in an empty sample |
| Poller.PollerIsUnique | pkg/ads/client_state.go:21-75 | In every interleaving of start, stop, firing timers and checks: at most one timer is armed, it is the stored one with the current ID, and of every ID there is at most one armed timer, unfinished check or reported loss |
| Poller.StopHolds | pkg/ads/client_state.go:49-75 | After a stop and until the next start no timer is armed, no further check goes on to read, and only checks already reading may report a loss |
| Poller.StartedPollerNeverStalls | pkg/ads/client_state.go:21-75 | A poller that was started and not stopped always has exactly one armed timer, unfinished check or reported loss of its ID, in every interleaving |
| Poller.StatePoller.StartStatePoller | pkg/ads/client_state.go:21-45 | Start stops the stored timer, takes a new ID, arms and stores one timer; nothing when the interval is not positive |
| Poller.StatePoller.StopStatePoller | pkg/ads/client_state.go:49-61 | Stop disarms the stored timer and takes a new ID |
| Poller.StatePoller.ScheduleNextStateCheck | pkg/ads/client_state.go:213-229 | A check re-arms exactly when its ID is still current |
| Poller.StoppedCheckReports | pkg/ads/client_state.go:202-210 | Every check that is reading when its poller is stopped may still report the loss |
| Poller.StopReportsIff | pkg/ads/client_state.go:49-75 | A stopped poller can still report a loss before the next start if and only if one of its checks was reading at the stop |
| Poller.TimerGoesOn | pkg/ads/client_state.go:65-75 | In every run an armed timer fires, its check enters, and when it reports no loss it arms and stores the next timer for the same ID |
| Poller.StaleCheckEnds | pkg/ads/client_state.go:65-72 | A check of a stale poller ends where it begins or where it would reschedule |
| StateChecks.Client.FinishConnect | pkg/ads/client_connect.go:56-77 | Connect caches and announces the initial state and starts the poller |
| StateChecks.Client.Disconnect | pkg/ads/client_connect.go:83-93 | Disconnect stops the poller and clears the cached state and the counter |
| StateChecks.CounterIsStreak | pkg/ads/client_state.go:149-171 | Over every run the counter is the streak of failed checks modulo the limit |
| StateChecks.UnreachableExactly | pkg/ads/client_state.go:149-171 | The target is reported unreachable exactly at each limit-th failure of an unbroken streak, with that count |
| StateChecks.LatchIsFinal | pkg/ads/client_state.go:93-124 | Once it is known whether the extended state is supported, no run changes it |
| StateChecks.RestartedExactly | pkg/ads/client_state.go:192-206 | A restart is reported exactly when an extended read succeeds with another index than the last successful one while a state with the same AdsState is cached |
| StateChecks.RestartsAreChanges | pkg/ads/client_state.go:192-206 | A run reports no more restarts than its restart index changes: no change is reported twice |
| StateChecks.FirstFailureEndsDetection | pkg/ads/client_state.go:100-107 | One failed extended read while the latch is open ends restart detection for good |
| StateChecks.EventsReplayToCache | pkg/ads/client_state.go:173-206 | In every run of atomic checks the cached AdsState is the one announced last, and an event with an old state directly follows the event that announced it |
| StateChecks.Client.CheckState | pkg/ads/client_state.go:65-210 | A check of a stale poller does nothing; one of the current poller that nothing interrupts is one step of the monitor, and it reschedules exactly when it reported no loss |
| StateChecks.Client.FinishCheck | pkg/ads/client_state.go:77-210 | The same from fields read at the begin of the check, when anything may have happened to the client and the poller since |
| StateChecks.Client.ReadState | pkg/ads/client_state.go:92-146 | The reads, their fallback, the latch and the restart index follow from the latch read at the begin |
| StateChecks.OverlapKeepsReplayIff | pkg/ads/client_state.go:77-79 | A check that began in any other state keeps the events and the cache together if and only if it fails, had seen no state, or had seen the AdsState that is still the last one announced |
| StateChecks.OverlapReplaysIff | pkg/ads/client_state.go:65-210 | In every interleaving of checks whose begin and end are steps of their own with each other and with Connect and Disconnect, cache and events agree at every point if and only if each check that ends fails, had seen no state, or had seen the AdsState still announced last |
| StateChecks.OverlappingCheckBreaksReplay | pkg/ads/client_state.go:77-80 | In every run: a check that began before the connection was lost and succeeds after it caches a state that the events do not lead to |
| StateChecks.CheckExactly | pkg/ads/client_state.go:77-210 | In every run, all that a check leaves behind: cached state, latch, restart index, counter and hooks, from what the two reads answer |
| StateChecks.OverlapExactly | pkg/ads/client_state.go:77-210 | In every interleaving, what the begin of a check notes and all that its end leaves behind, from what it noted and what the client is by then |
| StateChecks.ConnectionExactly | pkg/ads/client_connect.go:56-93 | In every run, all that connecting, disconnecting and losing the connection leave behind |
| InvokeIds.RequestsAreTheUnfinishedCalls | pkg/ads/client_send_utils.go:4-22 | As long as no ID is reallocated while it is pending, requests holds exactly the unfinished calls, each on its own channel |
| InvokeIds.BeginKeepsRequestsIff | pkg/ads/client_send_utils.go:4-12 | Allocating an ID keeps requests right if and only if no unfinished call has it |
| InvokeIds.GuardIsAge | pkg/ads/client_send_utils.go:6-7 | The next ID is taken if and only if some unfinished call is a multiple of 2^32 calls old |
| InvokeIds.ResponsesMatch | pkg/ads/client_buffer.go:93-108 | In every run a call returns only a packet with its own invoke ID, no two calls return the same packet, and none is returned and still under way |
| InvokeIds.LateResponsesAreDropped | pkg/ads/client_send.go:51-61 | In every run a packet reaches only a call that was already unfinished when it arrived and that has its invoke ID, never one that began later |
| InvokeIds.ForeignResponsesAreFarApart | pkg/ads/client_buffer.go:93-108 | In every run a packet that carries the ID of another call is returned only by calls a multiple of 2^32 calls away from it |
| InvokeIds.Client.GetInvokeID | pkg/ads/client_send_utils.go:4-12 | The next ID in uint32 arithmetic, a fresh channel, and their entry in requests |
| InvokeIds.Client.RemoveInvokeId | pkg/ads/client_send_utils.go:16-22 | The deferred clean-up removes the entry of its own ID |
| InvokeIds.Client.Route | pkg/ads/client_buffer.go:86-108 | Exactly a packet that is no notification and whose ID is in requests is sent on, to the channel of the ID: the data, or the error when the code is not zero |
| InvokeIds.WaitingCallIsAnswered | pkg/ads/client_buffer.go:86-108 | A response with the ID of a waiting call arrives, is taken from its channel and returned by exactly that call, whose entry is removed |
| InvokeIds.ResponsesAreDelivered | pkg/ads/client_send.go:42-61 | In every run in which no pending ID is reallocated, a response with the ID of a waiting call is returned by it |
| InvokeIds.GivenUpCallReturnsNothing | pkg/ads/client_send.go:49-61 | A call that gives up returns no packet and leaves no entry: what arrives for it later is sent to nobody |

## Left out

- Receiving.Receiver.ProcessReceiveBuffer: says nothing about a buffer on which the loop never ends, which `LoopEndsIff` singles out.
- Receiving.Receiver.HandleRead: the same, for the buffer and the bytes that arrive.
- Receiving.Receiver.ReceiveAll: for reads that end, for the same reason.
- Receiving.ConnectionsAreIsolated: for runs of safe lengths; `AlwaysIsolatedIff` is the exact condition.
- Receiving.StreamsStayApart: the check of the connection and the write behind it are one step, which `AlwaysOwnIff` splits; so are the statements of `Connect` on connection and buffer and the capture of the connection by the new loop, which stay whole in both machines although the goroutine may start later.
- Resolution.BuildDataType: says nothing about names whose resolution does not end, which `ResolutionEndsIff` singles out.
- DataTypeFormat.ParseInvertsEncode: excludes strings of 65535 bytes, method entries without a body and enumeration constants without bytes; `StringInvertsIff`, `MethodSkipsIff` and `EnumInvertsIff` say exactly when each of these is read back.
- ImageTheorems.WideStringReadsFirstCharacter: for strings of ASCII characters; others are read up to the first zero byte among their UTF-16 code units.
- InvokeIds.RequestsAreTheUnfinishedCalls: assumes that no ID is reallocated while it is pending, which the client does not check; `GuardIsAge` says when that holds.
- InvokeIds.ResponsesAreDelivered: the same; and it shows that the response can be taken, not that the call is scheduled before its timeout.
- TypeContent.BuildCarries: for declarations that do not lead back to themselves.
- StateChecks.EventsReplayToCache: checks are atomic steps; `OverlapReplaysIff` is the exact condition for checks that overlap anything.
- TypeBuilder.BuildKeepsLayout: the server's answers are a map from names to declarations; the request behind each answer is not modelled.
- Floating point: REAL32 and REAL64 are bit patterns; the conversions between numbers and floating point, and the decoding of strings into runes, are parameters (`GoConversions`).
- Conversion of typed Go slices to `[]any` by reflection: values start as trees.
- A data type's subscription and symbol commands, the request builders and response parsers of fixed layout (ads-header, ads-requests, ads-errors, ads-stateinfo): field by field, without a harder property.
- `convertDataType`, which copies fields, and the fields of a declaration that layout does not depend on.
- Memory: slices made from declared counts and lengths are not bounded by what a machine can allocate.
- Sockets, dialing, port registration, timing, mutexes and panic recovery beyond the steps above; hook bodies and logging. A hook that is not set issues no event; the model logs it as if it were set.
- Liveness of send and receive: a receive loop can block on a channel whose call timed out.
- Callbacks themselves: `HandleNotification` gives the jobs that are started, not the order in which goroutines run them.
- The command line program, PLC projects, flag names and error texts.
