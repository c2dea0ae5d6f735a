/** Parsing of a data type declaration, which nests. */
module DataTypeParser {
  import opened Bytes
  import opened Outcomes
  import opened Readers

  const FLAG_TYPE_GUID: uint32 := 0x80
  const FLAG_COPY_MASK: uint32 := 0x200
  const FLAG_METHOD_INFOS: uint32 := 0x800
  const FLAG_ATTRIBUTES: uint32 := 0x1000
  const FLAG_ENUM_INFOS: uint32 := 0x2000
  const FLAG_DEREF_TYPE_ITEM: uint32 := 0x1000_0000
  const FLAG_EXTENDED_ENUM_INFOS: uint32 := 0x2000_0000
  const FLAG_EXTENDED_FLAGS: uint32 := 0x8000_0000

  predicate Has(flags: uint32, flag: uint32)
    requires flag > 0
  {
    flags / flag % 2 == 1
  }

  /** Which optional sections the flags announce. */
  datatype Announced = Announced(
    guid: bool,
    copyMask: bool,
    methods: bool,
    attributes: bool,
    enums: bool,
    extendedFlags: bool,
    deRefs: bool,
    enumExtras: bool)

  function AnnouncedBy(flags: uint32): Announced {
    Announced(Has(flags, FLAG_TYPE_GUID), Has(flags, FLAG_COPY_MASK), Has(flags, FLAG_METHOD_INFOS),
              Has(flags, FLAG_ATTRIBUTES), Has(flags, FLAG_ENUM_INFOS), Has(flags, FLAG_EXTENDED_FLAGS),
              Has(flags, FLAG_DEREF_TYPE_ITEM), Has(flags, FLAG_EXTENDED_ENUM_INFOS))
  }

  datatype ArrayBound = ArrayBound(startIndex: int32, length: uint32)

  datatype Attribute = Attribute(name: GoString, value: GoString)

  datatype EnumInfo = EnumInfo(name: GoString, value: int64, comment: GoString, attributes: seq<Attribute>)

  /** adsdatatype.DataType without the fields that parsing never sets. */
  datatype DataType = DataType(
    head: Head,
    name: GoString,
    typeName: GoString,
    comment: GoString,
    arrayInfo: seq<ArrayBound>,
    subItems: seq<DataType>,
    options: Options)

  /** The fixed-size fields. */
  datatype Head = Head(
    version: uint32,
    hashValue: uint32,
    typeHash: uint32,
    size: uint32,
    offset: uint32,
    code: uint32,
    flags: uint32,
    nameLength: uint16,
    typeLength: uint16,
    commentLength: uint16,
    arrayDim: uint16,
    subItemCount: uint16)

  /** What the optional sections fill in. */
  datatype Options = Options(
    guid: string,
    attributes: seq<Attribute>,
    enumInfo: seq<EnumInfo>,
    extendedFlags: uint32)

  const NO_OPTIONS := Options("", [], [], 0)

  // ------------------------------------------------------------ Fixed part

  function ParseHead(s: seq<byte>): Parsed<Head> {
    var (version, s) :- ReadU32(s);
    var (hashValue, s) :- ReadU32(s);
    var (typeHash, s) :- ReadU32(s);
    var (size, s) :- ReadU32(s);
    var (offset, s) :- ReadU32(s);
    var (code, s) :- ReadU32(s);
    var (flags, s) :- ReadU32(s);
    var (nameLength, s) :- ReadU16(s);
    var (typeLength, s) :- ReadU16(s);
    var (commentLength, s) :- ReadU16(s);
    var (arrayDim, s) :- ReadU16(s);
    var (subItemCount, s) :- ReadU16(s);
    Ok((Head(version, hashValue, typeHash, size, offset, code, flags,
             nameLength, typeLength, commentLength, arrayDim, subItemCount), s))
  }

  /** parseString. The buffer has `length + 1` bytes in uint16 arithmetic, so at 65535
      it is empty and cutting the string out of it panics. */
  function ParseString(s: seq<byte>, length: uint16): Parsed<GoString> {
    var (buf, s) :- Take(s, (length + 1) % 0x1_0000);
    if length > |buf| then Panic else Ok((buf[..length], s))
  }

  function ParseArrayBound(s: seq<byte>): Parsed<ArrayBound> {
    var (startIndex, s) :- ReadI32(s);
    var (length, s) :- ReadU32(s);
    Ok((ArrayBound(startIndex, length), s))
  }

  // ------------------------------------------------------ Optional sections

  function HexDigit(n: nat): char
    requires n < 16
  {
    if n < 10 then '0' + n as char else 'a' + (n - 10) as char
  }

  /** fmt.Sprintf("%x", b) */
  function Hex(b: seq<byte>): string {
    if b == [] then "" else [HexDigit(b[0] / 16), HexDigit(b[0] % 16)] + Hex(b[1..])
  }

  /** A string in a buffer one byte longer, filled by Reader.Read. */
  function FillString(s: seq<byte>, length: uint8): Parsed<GoString> {
    var (buf, s) :- Fill(s, length + 1);
    Ok((buf[..length], s))
  }

  function ParseTypeGuid(s: seq<byte>): Parsed<string> {
    var (guid, s) :- Fill(s, 16);
    Ok((Hex(guid), s))
  }

  function SkipMethod(s: seq<byte>): Parsed<()> {
    var (entryLength, s) :- ReadU32(s);
    var (_, s) :- Fill(s, (entryLength - 4) % 0x1_0000_0000);
    Ok(((), s))
  }

  function ParseMethodInfos(s: seq<byte>): Parsed<seq<()>> {
    var (count, s) :- ReadU16(s);
    Repeat(SkipMethod, count, s)
  }

  function ParseAttribute(s: seq<byte>): Parsed<Attribute> {
    var (nameLength, s) :- ReadU8(s);
    var (valueLength, s) :- ReadU8(s);
    var (name, s) :- FillString(s, nameLength);
    var (value, s) :- FillString(s, valueLength);
    Ok((Attribute(name, value), s))
  }

  function ParseAttributes(s: seq<byte>): Parsed<seq<Attribute>> {
    var (count, s) :- ReadU16(s);
    Repeat(ParseAttribute, count, s)
  }

  /** The value of an enumeration constant: its first eight bytes as an unsigned
      number, turned into an int64. */
  function EnumValue(b: seq<byte>): int64 {
    var low := if |b| < 8 then b else b[..8];
    FromLEBound(low + Zeros(8 - |low|));
    Pow256Values();
    FromTwosComplement(FromLE(low + Zeros(8 - |low|)), 8)
  }

  function ParseEnumInfo(size: uint32): seq<byte> -> Parsed<EnumInfo> {
    (s: seq<byte>) =>
      var (nameLength, s) :- ReadU8(s);
      var (name, s) :- FillString(s, nameLength);
      var (value, s) :- Fill(s, size);
      Ok((EnumInfo(name, EnumValue(value), [], []), s))
  }

  function ParseEnumInfos(s: seq<byte>, size: uint32): Parsed<seq<EnumInfo>> {
    var (count, s) :- ReadU16(s);
    Repeat(ParseEnumInfo(size), count, s)
  }

  function SkipGuid(s: seq<byte>): Parsed<()> {
    var (_, s) :- Fill(s, 16);
    Ok(((), s))
  }

  function ParseDeRefTypeItem(s: seq<byte>): Parsed<seq<()>> {
    var (count, s) :- ReadU16(s);
    Repeat(SkipGuid, count, s)
  }

  /** Comment and attributes of one enumeration constant; the entry length is not used. */
  function ParseExtendedEnumInfo(s: seq<byte>): Parsed<(GoString, seq<Attribute>)> {
    var (_, s) :- ReadU16(s);
    var (commentLength, s) :- ReadU8(s);
    var (attributeCount, s) :- ReadU8(s);
    var (comment, s) :- FillString(s, commentLength);
    var (attributes, s) :- Repeat(ParseAttribute, attributeCount, s);
    Ok(((comment, attributes), s))
  }

  function Extend(infos: seq<EnumInfo>, extras: seq<(GoString, seq<Attribute>)>): seq<EnumInfo>
    requires |infos| == |extras|
  {
    if infos == [] then []
    else [infos[0].(comment := extras[0].0, attributes := extras[0].1)] + Extend(infos[1..], extras[1..])
  }

  /** parseOptionalFields: the sections that the flags announce, in this order. */
  function ParseOptions(s: seq<byte>, has: Announced, size: uint32): Parsed<Options> {
    var (guid, s) :- if has.guid then ParseTypeGuid(s) else Ok(("", s));
    var s := if has.copyMask then Skip(s, size) else s;
    var (_, s) :- if has.methods then ParseMethodInfos(s) else Ok(([], s));
    ParseListOptions(s, has, size, guid)
  }

  function ParseListOptions(s: seq<byte>, has: Announced, size: uint32, guid: string): Parsed<Options> {
    var (attributes, s) :- if has.attributes then ParseAttributes(s) else Ok(([], s));
    var (enumInfo, s) :- if has.enums then ParseEnumInfos(s, size) else Ok(([], s));
    ParseExtendedOptions(s, has, guid, attributes, enumInfo)
  }

  function ParseExtendedOptions(s: seq<byte>, has: Announced, guid: string, attributes: seq<Attribute>,
                                enumInfo: seq<EnumInfo>): Parsed<Options>
  {
    var (extendedFlags, s) :- if has.extendedFlags then ReadU32(s) else Ok((0, s));
    var (_, s) :- if has.deRefs then ParseDeRefTypeItem(s) else Ok(([], s));
    if has.enumExtras then
      var (extras, s) :- Repeat(ParseExtendedEnumInfo, |enumInfo|, s);
      Ok((Options(guid, attributes, Extend(enumInfo, extras), extendedFlags), s))
    else Ok((Options(guid, attributes, enumInfo, extendedFlags), s))
  }

  // ------------------------------------------------------------ Termination

  /** The length up to the last byte that is not zero. A sub-item may be parsed in a
      buffer longer than its parent's, but what exceeds the parent is zeros. */
  function Significant(s: seq<byte>): (n: nat)
    ensures n <= |s|
    ensures forall k :: n <= k < |s| ==> s[k] == 0
    ensures n > 0 ==> s[n - 1] != 0
  {
    if s == [] then 0 else if s[|s| - 1] != 0 then |s| else Significant(s[..|s| - 1])
  }

  lemma SignificantBound(s: seq<byte>, m: nat)
    requires forall k :: m <= k < |s| ==> s[k] == 0
    ensures Significant(s) <= m
  {
  }

  lemma SuffixSignificant(t: seq<byte>, s: seq<byte>)
    requires SuffixOf(t, s)
    ensures Significant(t) <= Significant(s)
    ensures |t| < |s| && Significant(s) > 0 ==> Significant(t) < Significant(s)
  {
    var d := |s| - |t|;
    var m := if Significant(s) < d then 0 else Significant(s) - d;
    forall k | m <= k < |t| ensures t[k] == 0 {
      assert t[k] == s[d + k];
    }
    SignificantBound(t, m);
  }

  /** What two reads of a sub-item take, zero-extended, is no more significant than
      the bytes they took it from. */
  lemma ChildSignificant(s: seq<byte>, n: nat, m: nat)
    requires Fill(s, n).Ok? && Fill(Fill(s, n).value.1, m).Ok?
    ensures var (a, s1) := Fill(s, n).value; var (b, s2) := Fill(s1, m).value;
      Significant(a + b) <= Significant(s) && SuffixOf(s1, s) && SuffixOf(s2, s)
  {
    var (a, s1) := Fill(s, n).value;
    var (b, s2) := Fill(s1, m).value;
    assert |s| >= n && s1 == s[n..];
    forall k | Significant(s) <= k < |a + b| ensures (a + b)[k] == 0 {
      if n <= k < |s| {
        assert s1[k - n] == s[k];
      }
    }
    SignificantBound(a + b, Significant(s));
  }

  lemma TakeSuffix(s: seq<byte>, n: nat)
    ensures Take(s, n).Ok? ==> SuffixOf(Take(s, n).value.1, s)
  {
  }

  /** The fixed part and the strings leave a suffix; a sub-item count is not zero only
      if some byte is not. */
  lemma HeadSuffix(s: seq<byte>)
    requires ParseHead(s).Ok?
    ensures SuffixOf(ParseHead(s).value.1, s)
    ensures ParseHead(s).value.0.subItemCount > 0 ==> Significant(s) > 0
  {
    var (h, r) := ParseHead(s).value;
    assert r == s[38..];
    assert s[36..38] == s[4..][4..][4..][4..][4..][4..][4..][2..][2..][2..][2..][..2];
    assert h.subItemCount == FromLE(s[36..38]);
    if Significant(s) == 0 {
      assert s[36..38] == [0, 0];
      assert FromLE([0, 0]) == 0 by {
        assert [0, 0][1..] == [0];
      }
    }
  }

  lemma {:induction false} ArraySuffix(n: nat, s: seq<byte>)
    requires Repeat(ParseArrayBound, n, s).Ok?
    ensures SuffixOf(Repeat(ParseArrayBound, n, s).value.1, s)
  {
    if n > 0 {
      var s1 := ParseArrayBound(s).value.1;
      assert s1 == s[8..];
      ArraySuffix(n - 1, s1);
      SuffixTransitive(Repeat(ParseArrayBound, n, s).value.1, s1, s);
    }
  }

  /** Everything in front of the sub-items. */
  function ParseFront(data: seq<byte>): Parsed<DataType> {
    if |data| < 4 then Err(InsufficientData)
    else
      var (_, s) :- ReadU32(data);
      var (head, s) :- ParseHead(s);
      var (name, s) :- ParseString(s, head.nameLength);
      var (typeName, s) :- ParseString(s, head.typeLength);
      var (comment, s) :- ParseString(s, head.commentLength);
      var (arrayInfo, s) :- Repeat(ParseArrayBound, head.arrayDim, s);
      Ok((DataType(head, name, typeName, comment, arrayInfo, [], NO_OPTIONS), s))
  }

  lemma StringSuffix(s: seq<byte>, length: uint16)
    requires ParseString(s, length).Ok?
    ensures SuffixOf(ParseString(s, length).value.1, s)
  {
    TakeSuffix(s, (length + 1) % 0x1_0000);
  }

  lemma FrontSuffix(data: seq<byte>)
    requires ParseFront(data).Ok?
    ensures var (d, s) := ParseFront(data).value;
      d.head.subItemCount > 0 ==> Significant(s) < Significant(data)
  {
    var s0 := ReadU32(data).value.1;
    var (h, s1) := ParseHead(s0).value;
    var s2 := ParseString(s1, h.nameLength).value.1;
    var s3 := ParseString(s2, h.typeLength).value.1;
    var s4 := ParseString(s3, h.commentLength).value.1;
    var s5 := Repeat(ParseArrayBound, h.arrayDim, s4).value.1;
    HeadSuffix(s0);
    StringSuffix(s1, h.nameLength);
    StringSuffix(s2, h.typeLength);
    StringSuffix(s3, h.commentLength);
    ArraySuffix(h.arrayDim, s4);
    SuffixTransitive(s5, s4, s3);
    SuffixTransitive(s5, s3, s2);
    SuffixTransitive(s5, s2, s1);
    SuffixTransitive(s5, s1, s0);
    assert SuffixOf(s0, data) && |s0| < |data|;
    SuffixSignificant(s5, s0);
    SuffixSignificant(s0, data);
  }

  /** The buffer of the next sub-item: the length it declares and the bytes behind it. */
  function ReadEntry(s: seq<byte>): (r: Parsed<seq<byte>>)
    ensures r.Ok? ==> Significant(r.value.0) <= Significant(s) && Significant(r.value.1) <= Significant(s)
  {
    var (length, s1) :- Fill(s, 4);
    FromLEBound(length);
    Pow256Values();
    var entryLength := FromLE(length);
    if entryLength < 4 then Err(InvalidEntryLength)
    else
      var (body, s2) :- Fill(s1, entryLength - 4);
      ChildSignificant(s, 4, entryLength - 4);
      SuffixSignificant(s2, s);
      Ok((length + body, s2))
  }

  // ------------------------------------------------------------ The parser

  function ParseDataType(data: seq<byte>): Parsed<DataType>
    decreases Significant(data), 2
  {
    var (front, s) :- ParseFront(data);
    FrontSuffix(data);
    var (subItems, s) :- ParseSubItems(s, front.head.subItemCount, Significant(data));
    var (options, s) :- ParseOptions(s, AnnouncedBy(front.head.flags), front.head.size);
    Ok((front.(subItems := subItems, options := options), s))
  }

  function ParseSubItems(s: seq<byte>, n: nat, ghost bound: nat): (r: Parsed<seq<DataType>>)
    requires n > 0 ==> Significant(s) < bound
    ensures r.Ok? ==> |r.value.0| == n
    decreases bound, 1, n
  {
    if n == 0 then Ok(([], s))
    else
      var (first, s1) :- ParseSubItem(s, bound);
      var (rest, s2) :- ParseSubItems(s1, n - 1, bound);
      Ok(([first] + rest, s2))
  }

  /** A sub-item is parsed in a buffer of the length it declares. */
  function ParseSubItem(s: seq<byte>, ghost bound: nat): (r: Parsed<DataType>)
    requires Significant(s) < bound
    ensures r.Ok? ==> Significant(r.value.1) <= Significant(s)
    decreases bound, 0
  {
    var (entry, s1) :- ReadEntry(s);
    var (d, _) :- ParseDataType(entry);
    Ok((d, s1))
  }
}
