/** Symbol declarations: their parser, their format, and the walk over an uploaded table. */
module Symbols {
  import opened Bytes
  import opened Outcomes
  import opened Readers
  import DataTypeParser
  import Serializer

  type ArrayBound = DataTypeParser.ArrayBound
  type Attribute = DataTypeParser.Attribute

  const FLAG_TYPE_GUID: uint32 := 0x8
  const FLAG_ATTRIBUTES: uint32 := 0x1000

  datatype Head = Head(
    indexGroup: uint32,
    indexOffset: uint32,
    size: uint32,
    dataType: uint32,
    flags: uint32,
    nameLength: uint16,
    typeLength: uint16,
    commentLength: uint16)

  datatype Symbol = Symbol(
    head: Head,
    name: GoString,
    typeName: GoString,
    comment: GoString,
    arrayInfo: seq<ArrayBound>,
    typeGuid: string,
    attributes: seq<Attribute>)

  /** The upper half of the flags. */
  function ArrayDimension(flags: uint32): uint16 {
    flags / 0x1_0000
  }

  function Has(flags: uint32, flag: uint32): bool
    requires flag > 0
  {
    DataTypeParser.Has(flags, flag)
  }

  // ----------------------------------------------------------------- Parsing

  function ParseHead(s: seq<byte>): Parsed<Head> {
    var (indexGroup, s) :- ReadU32(s);
    var (indexOffset, s) :- ReadU32(s);
    var (size, s) :- ReadU32(s);
    var (dataType, s) :- ReadU32(s);
    var (flags, s) :- ReadU32(s);
    var (nameLength, s) :- ReadU16(s);
    var (typeLength, s) :- ReadU16(s);
    var (commentLength, s) :- ReadU16(s);
    Ok((Head(indexGroup, indexOffset, size, dataType, flags, nameLength, typeLength, commentLength), s))
  }

  /** A buffer one byte longer than the string, cut at its first zero byte. */
  function ParseText(s: seq<byte>, length: nat): Parsed<GoString> {
    var (buf, s) :- Take(s, length + 1);
    Ok((Serializer.ReadString(buf), s))
  }

  /** The bounds that are there; a bound cut short ends the list and the data. */
  function ParseBounds(s: seq<byte>, n: nat): (seq<ArrayBound>, seq<byte>)
    decreases n
  {
    if n == 0 then ([], s)
    else
      match DataTypeParser.ParseArrayBound(s)
      case Ok((bound, s1)) =>
        var (rest, s2) := ParseBounds(s1, n - 1);
        ([bound] + rest, s2)
      case _ => ([], [])
  }

  function ParseGuid(s: seq<byte>): (string, seq<byte>) {
    match Fill(s, 16)
    case Ok((guid, s1)) => (DataTypeParser.Hex(guid), s1)
    case _ => ("", s)
  }

  /** A name or value in a buffer that Reader.Read fills. */
  function FillText(s: seq<byte>, length: nat): Parsed<GoString> {
    var (buf, s) :- Fill(s, length + 1);
    Ok((Serializer.ReadString(buf), s))
  }

  function ParseAttribute(s: seq<byte>): Parsed<Attribute> {
    var (nameLength, s) :- ReadU8(s);
    var (valueLength, s) :- ReadU8(s);
    var (name, s) :- FillText(s, nameLength);
    var (value, s) :- FillText(s, valueLength);
    Ok((DataTypeParser.Attribute(name, value), s))
  }

  /** Up to `n` items, until one is cut short or fewer than two bytes are left. */
  function Available<T>(p: seq<byte> -> Parsed<T>, n: nat, s: seq<byte>): seq<T>
    decreases n
  {
    if n == 0 || |s| < 2 then []
    else
      match p(s)
      case Ok((x, s1)) => [x] + Available(p, n - 1, s1)
      case _ => []
  }

  function ParseAttributes(s: seq<byte>): seq<Attribute> {
    match ReadU16(s)
    case Ok((count, s1)) => Available(ParseAttribute, count, s1)
    case _ => []
  }

  function ParseTexts(s: seq<byte>, head: Head): Parsed<(GoString, GoString, GoString)> {
    if |s| < head.nameLength + 1 + (head.typeLength + 1) + (head.commentLength + 1) then Err(InsufficientData)
    else
      var (name, s) :- ParseText(s, head.nameLength);
      var (typeName, s) :- ParseText(s, head.typeLength);
      var (comment, s) :- ParseText(s, head.commentLength);
      Ok(((name, typeName, comment), s))
  }

  /** What follows the strings never makes parsing fail. */
  function ParseTail(s: seq<byte>, flags: uint32): (seq<ArrayBound>, string, seq<Attribute>) {
    var (arrayInfo, s) := ParseBounds(s, ArrayDimension(flags));
    var (guid, s) := if Has(flags, FLAG_TYPE_GUID) then ParseGuid(s) else ("", s);
    (arrayInfo, guid, if Has(flags, FLAG_ATTRIBUTES) then ParseAttributes(s) else [])
  }

  function ParseSymbol(data: seq<byte>): Outcome<Symbol, ParseError> {
    if |data| < 30 then Err(InvalidSymbolLength)
    else
      var (_, s) :- ReadU32(data);
      var (head, s) :- ParseHead(s);
      var ((name, typeName, comment), s) :- ParseTexts(s, head);
      var (arrayInfo, guid, attributes) := ParseTail(s, head.flags);
      Ok(Symbol(head, name, typeName, comment, arrayInfo, guid, attributes))
  }

  // ------------------------------------------------- The parser and its reader

  method ReadHead(reader: Reader) returns (r: Outcome<Head, ParseError>)
    modifies reader
    ensures Ran(ParseHead(old(reader.rest)), r, reader.rest)
  {
    var indexGroup := reader.U32();
    if indexGroup.IsFailure() { return indexGroup.PropagateFailure(); }
    var indexOffset := reader.U32();
    if indexOffset.IsFailure() { return indexOffset.PropagateFailure(); }
    var size := reader.U32();
    if size.IsFailure() { return size.PropagateFailure(); }
    var dataType := reader.U32();
    if dataType.IsFailure() { return dataType.PropagateFailure(); }
    var flags := reader.U32();
    if flags.IsFailure() { return flags.PropagateFailure(); }
    var nameLength := reader.U16();
    if nameLength.IsFailure() { return nameLength.PropagateFailure(); }
    var typeLength := reader.U16();
    if typeLength.IsFailure() { return typeLength.PropagateFailure(); }
    var commentLength := reader.U16();
    if commentLength.IsFailure() { return commentLength.PropagateFailure(); }
    r := Ok(Head(indexGroup.value, indexOffset.value, size.value, dataType.value, flags.value,
                 nameLength.value, typeLength.value, commentLength.value));
  }

  method ReadText(reader: Reader, length: nat) returns (r: Outcome<GoString, ParseError>)
    modifies reader
    ensures Ran(ParseText(old(reader.rest), length), r, reader.rest)
  {
    var buf := reader.Full(length + 1);
    if buf.IsFailure() {
      return buf;
    }
    r := Ok(Serializer.ReadString(buf.value));
  }

  /** Once the length is checked, no read can fail. */
  method ReadTexts(reader: Reader, head: Head) returns (r: Outcome<(GoString, GoString, GoString), ParseError>)
    modifies reader
    ensures Ran(ParseTexts(old(reader.rest), head), r, reader.rest)
  {
    var requiredLen := (head.nameLength + 1) + (head.typeLength + 1) + (head.commentLength + 1);
    if |reader.rest| < requiredLen {
      return Err(InsufficientData);
    }
    var name := ReadText(reader, head.nameLength);
    var typeName := ReadText(reader, head.typeLength);
    var comment := ReadText(reader, head.commentLength);
    r := Ok((name.value, typeName.value, comment.value));
  }

  /** Both reads of a bound; a failed one leaves nothing. */
  method ReadBound(reader: Reader) returns (r: Option<ArrayBound>)
    modifies reader
    ensures match DataTypeParser.ParseArrayBound(old(reader.rest))
      case Ok((bound, s)) => r == Some(bound) && reader.rest == s
      case _ => r == None && reader.rest == []
  {
    var startIndex := reader.I32();
    if startIndex.IsFailure() {
      return None;
    }
    var length := reader.U32();
    if length.IsFailure() {
      return None;
    }
    r := Some(DataTypeParser.ArrayBound(startIndex.value, length.value));
  }

  method ReadBounds(reader: Reader, arrayDimension: nat) returns (bounds: seq<ArrayBound>)
    modifies reader
    ensures (bounds, reader.rest) == ParseBounds(old(reader.rest), arrayDimension)
  {
    bounds := [];
    var i := 0;
    ghost var left: nat, todo := arrayDimension, ParseBounds(reader.rest, arrayDimension);
    ghost var whole := todo;
    assert [] + todo.0 == todo.0;
    while i < arrayDimension
      invariant 0 <= i <= arrayDimension && left == arrayDimension - i
      invariant todo == ParseBounds(reader.rest, left) && whole == (bounds + todo.0, todo.1)
    {
      ghost var s := reader.rest;
      var entry := ReadBound(reader);
      if entry == None {
        assert bounds + [] == bounds;
        return;
      }
      ghost var fewer: nat := left - 1;
      BoundsStep(bounds, left, fewer, s);
      todo := ParseBounds(reader.rest, fewer);
      bounds := bounds + [entry.value];
      left := fewer;
      i := i + 1;
    }
    assert bounds + [] == bounds;
  }

  lemma BoundsStep(front: seq<ArrayBound>, n: nat, fewer: nat, s: seq<byte>)
    requires n == fewer + 1 && DataTypeParser.ParseArrayBound(s).Ok?
    ensures var (bound, s1) := DataTypeParser.ParseArrayBound(s).value;
      && front + ParseBounds(s, n).0 == (front + [bound]) + ParseBounds(s1, fewer).0
      && ParseBounds(s, n).1 == ParseBounds(s1, fewer).1
  {
    var (bound, s1) := DataTypeParser.ParseArrayBound(s).value;
    var rest := ParseBounds(s1, fewer).0;
    assert front + ([bound] + rest) == (front + [bound]) + rest;
  }

  method ReadFilledText(reader: Reader, length: nat) returns (r: Outcome<GoString, ParseError>)
    modifies reader
    ensures Ran(FillText(old(reader.rest), length), r, reader.rest)
  {
    var buf := reader.Read(length + 1);
    if buf.IsFailure() {
      return buf;
    }
    r := Ok(Serializer.ReadString(buf.value));
  }

  method ReadAttribute(reader: Reader) returns (r: Outcome<Attribute, ParseError>)
    modifies reader
    ensures Ran(ParseAttribute(old(reader.rest)), r, reader.rest)
  {
    var nameLength := reader.U8();
    if nameLength.IsFailure() {
      return nameLength.PropagateFailure();
    }
    var valueLength := reader.U8();
    if valueLength.IsFailure() {
      return valueLength.PropagateFailure();
    }
    var name := ReadFilledText(reader, nameLength.value);
    if name.IsFailure() {
      return name.PropagateFailure();
    }
    var value := ReadFilledText(reader, valueLength.value);
    if value.IsFailure() {
      return value.PropagateFailure();
    }
    r := Ok(DataTypeParser.Attribute(name.value, value.value));
  }

  method ReadAttributeList(reader: Reader, attrCount: nat) returns (attributes: seq<Attribute>)
    modifies reader
    ensures attributes == Available(ParseAttribute, attrCount, old(reader.rest))
  {
    attributes := [];
    var i := 0;
    ghost var left: nat, todo := attrCount, Available(ParseAttribute, attrCount, reader.rest);
    ghost var whole := todo;
    assert [] + todo == todo;
    while i < attrCount && |reader.rest| >= 2
      invariant 0 <= i <= attrCount && left == attrCount - i
      invariant todo == Available(ParseAttribute, left, reader.rest) && whole == attributes + todo
    {
      ghost var s := reader.rest;
      var attribute := ReadAttribute(reader);
      ghost var fewer: nat := left - 1;
      AvailableStep(ParseAttribute, attributes, left, fewer, s, attribute, reader.rest);
      if attribute.IsFailure() {
        return;
      }
      todo := Available(ParseAttribute, fewer, reader.rest);
      attributes := attributes + [attribute.value];
      left := fewer;
      i := i + 1;
    }
    assert attributes + [] == attributes;
  }

  lemma AvailableStep<T>(p: seq<byte> -> Parsed<T>, front: seq<T>, n: nat, fewer: nat, s: seq<byte>,
                         r: Outcome<T, ParseError>, rest: seq<byte>)
    requires n == fewer + 1 && |s| >= 2 && Ran(p(s), r, rest)
    ensures r.Ok? ==> front + Available(p, n, s) == (front + [r.value]) + Available(p, fewer, rest)
    ensures !r.Ok? ==> front + Available(p, n, s) == front
  {
    if r.Ok? {
      var tail := Available(p, fewer, rest);
      assert front + ([r.value] + tail) == (front + [r.value]) + tail;
    }
  }

  method ReadTail(reader: Reader, flags: uint32)
    returns (arrayInfo: seq<ArrayBound>, guid: string, attributes: seq<Attribute>)
    modifies reader
    ensures (arrayInfo, guid, attributes) == ParseTail(old(reader.rest), flags)
  {
    arrayInfo := ReadBounds(reader, ArrayDimension(flags));
    guid := "";
    if Has(flags, FLAG_TYPE_GUID) {
      var buf := reader.Read(16);
      if buf.Ok? {
        guid := DataTypeParser.Hex(buf.value);
      }
    }
    attributes := [];
    if Has(flags, FLAG_ATTRIBUTES) && |reader.rest| >= 2 {
      var attrCount := reader.U16();
      attributes := ReadAttributeList(reader, attrCount.value);
    }
  }

  method ReadSymbol(data: seq<byte>) returns (r: Outcome<Symbol, ParseError>)
    ensures r == ParseSymbol(data)
  {
    if |data| < 30 {
      return Err(InvalidSymbolLength);
    }
    var reader := new Reader(data);
    var _ := reader.U32();
    var head := ReadHead(reader);
    if head.IsFailure() {
      return head.PropagateFailure();
    }
    var texts := ReadTexts(reader, head.value);
    if texts.IsFailure() {
      return texts.PropagateFailure();
    }
    var arrayInfo, guid, attributes := ReadTail(reader, head.value.flags);
    r := Ok(Symbol(head.value, texts.value.0, texts.value.1, texts.value.2, arrayInfo, guid, attributes));
  }
}
