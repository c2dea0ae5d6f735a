/** The documented wire format of a data type declaration, and that parsing inverts it. */
module DataTypeFormat {
  import opened Bytes
  import opened Outcomes
  import opened Readers
  import opened DataTypeParser

  /** One enumeration constant: its value as it stands in memory, and what the
      extended section says about it, the length of that entry included. */
  datatype WireEnum = WireEnum(
    name: GoString,
    value: seq<byte>,
    entryLength: uint16,
    comment: GoString,
    attributes: seq<Attribute>)

  /** A declaration as the server writes it, sections that a parser skips and whatever
      fills up its entry included. */
  datatype Wire = Wire(
    head: Head,
    name: GoString,
    typeName: GoString,
    comment: GoString,
    arrayInfo: seq<ArrayBound>,
    subItems: seq<Wire>,
    sections: Sections,
    padding: seq<byte>)

  datatype Sections = Sections(
    guid: seq<byte>,
    copyMask: seq<byte>,
    methods: seq<seq<byte>>,
    attributes: seq<Attribute>,
    enums: seq<WireEnum>,
    extendedFlags: uint32,
    deRefs: seq<seq<byte>>)

  // ------------------------------------------------------------- The format

  function PutHead(h: Head, k: seq<byte>): seq<byte> {
    PutUint(h.version, 4, PutUint(h.hashValue, 4, PutUint(h.typeHash, 4, PutUint(h.size, 4,
      PutUint(h.offset, 4, PutUint(h.code, 4, PutUint(h.flags, 4, PutLengths(h, k))))))))
  }

  function PutLengths(h: Head, k: seq<byte>): seq<byte> {
    PutUint(h.nameLength, 2, PutUint(h.typeLength, 2, PutUint(h.commentLength, 2,
      PutUint(h.arrayDim, 2, PutUint(h.subItemCount, 2, k)))))
  }

  function PutString(s: GoString, k: seq<byte>): seq<byte> {
    Put(s + [0], k)
  }

  function PutArrayBound(b: ArrayBound, k: seq<byte>): seq<byte> {
    PutI32(b.startIndex, PutUint(b.length, 4, k))
  }

  function PutMethod(body: seq<byte>, k: seq<byte>): seq<byte> {
    PutUint(|body| + 4, 4, Put(body, k))
  }

  function PutAttribute(a: Attribute, k: seq<byte>): seq<byte> {
    PutUint(|a.name|, 1, PutUint(|a.value|, 1, PutString(a.name, PutString(a.value, k))))
  }

  function PutEnum(e: WireEnum, k: seq<byte>): seq<byte> {
    PutUint(|e.name|, 1, PutString(e.name, Put(e.value, k)))
  }

  /** The entry length may be any number: the parser does not look at it. */
  function PutEnumExtra(e: WireEnum, k: seq<byte>): seq<byte> {
    PutUint(e.entryLength, 2, PutUint(|e.comment|, 1, PutUint(|e.attributes|, 1,
      PutString(e.comment, PutAll(PutAttribute, e.attributes, k)))))
  }

  function PutSections(x: Sections, has: Announced, k: seq<byte>): seq<byte> {
    var k := PutLists(x, has, k);
    var k := if has.methods then PutUint(|x.methods|, 2, PutAll(PutMethod, x.methods, k)) else k;
    var k := if has.copyMask then Put(x.copyMask, k) else k;
    if has.guid then Put(x.guid, k) else k
  }

  function PutLists(x: Sections, has: Announced, k: seq<byte>): seq<byte> {
    var k := PutExtended(x, has, k);
    var k := if has.enums then PutUint(|x.enums|, 2, PutAll(PutEnum, x.enums, k)) else k;
    if has.attributes then PutUint(|x.attributes|, 2, PutAll(PutAttribute, x.attributes, k)) else k
  }

  function PutExtended(x: Sections, has: Announced, k: seq<byte>): seq<byte> {
    var k := if has.enumExtras then PutAll(PutEnumExtra, x.enums, k) else k;
    var k := if has.deRefs then PutUint(|x.deRefs|, 2, PutAll(Put, x.deRefs, k)) else k;
    if has.extendedFlags then PutUint(x.extendedFlags, 4, k) else k
  }

  function PutBody(w: Wire, k: seq<byte>): seq<byte>
    decreases w, 1
  {
    var k := PutSections(w.sections, AnnouncedBy(w.head.flags), k);
    var k := PutSubItems(w.subItems, k);
    PutHead(w.head, PutString(w.name, PutString(w.typeName, PutString(w.comment,
      PutAll(PutArrayBound, w.arrayInfo, k)))))
  }

  function PutSubItems(subs: seq<Wire>, k: seq<byte>): seq<byte>
    decreases subs, 0
  {
    if subs == [] then k else Put(Encode(subs[0]), PutSubItems(subs[1..], k))
  }

  function PutWire(w: Wire, length: nat, k: seq<byte>): seq<byte>
    decreases w, 2
  {
    PutUint(length, 4, PutBody(w, k))
  }

  /** The body and the padding behind their total length. */
  function Encode(w: Wire): seq<byte>
    decreases w, 3
  {
    PutWire(w, |PutBody(w, w.padding)| + 4, w.padding)
  }

  // ---------------------------------------------------------- Well-formedness

  predicate ShortAttribute(a: Attribute) {
    |a.name| < 256 && |a.value| < 256
  }

  predicate ShortEnum(e: WireEnum, size: uint32) {
    |e.name| < 256 && |e.value| == size && size > 0
  }

  predicate ShortEnums(enums: seq<WireEnum>, size: uint32) {
    enums == [] || (ShortEnum(enums[0], size) && ShortEnums(enums[1..], size))
  }

  predicate ShortEnumExtra(e: WireEnum) {
    |e.comment| < 256 && |e.attributes| < 256 && All(ShortAttribute, e.attributes)
  }

  predicate ShortMethod(body: seq<byte>) {
    0 < |body| < 0xFFFF_FFFC
  }

  predicate IsGuid(b: seq<byte>) {
    |b| == 16
  }

  /** `p` holds of every element. */
  predicate All<T>(p: T -> bool, xs: seq<T>) {
    xs == [] || (p(xs[0]) && All(p, xs[1..]))
  }

  /** Counts and lengths fit their fields. */
  predicate SectionsFit(x: Sections, has: Announced, size: uint32) {
    && |x.guid| == 16
    && |x.copyMask| == size
    && |x.methods| < 0x1_0000 && All(ShortMethod, x.methods)
    && ListsFit(x, has, size)
  }

  predicate ListsFit(x: Sections, has: Announced, size: uint32) {
    && |x.attributes| < 0x1_0000 && All(ShortAttribute, x.attributes)
    && |x.enums| < 0x1_0000 && ShortEnums(x.enums, size)
    && ExtendedFits(x, has)
  }

  predicate ExtendedFits(x: Sections, has: Announced) {
    && All(ShortEnumExtra, x.enums)
    && (has.enumExtras && !has.enums ==> x.enums == [])
    && |x.deRefs| < 0x1_0000 && All(IsGuid, x.deRefs)
  }

  predicate FrontFits(w: Wire) {
    && |w.name| == w.head.nameLength < 0xFFFF
    && |w.typeName| == w.head.typeLength < 0xFFFF
    && |w.comment| == w.head.commentLength < 0xFFFF
    && |w.arrayInfo| == w.head.arrayDim
  }

  predicate WellFormed(w: Wire)
    decreases w, 1
  {
    && FrontFits(w)
    && SectionsFit(w.sections, AnnouncedBy(w.head.flags), w.head.size)
    && |PutBody(w, w.padding)| + 4 < 0x1_0000_0000
    && |w.subItems| == w.head.subItemCount
    && AllWellFormed(w.subItems)
  }

  predicate AllWellFormed(subs: seq<Wire>)
    decreases subs, 0
  {
    subs == [] || (WellFormed(subs[0]) && AllWellFormed(subs[1..]))
  }

  // ------------------------------------------------------- What is recovered

  function EnumsOf(enums: seq<WireEnum>, extended: bool): (r: seq<EnumInfo>)
    ensures |r| == |enums|
  {
    if enums == [] then []
    else
      var e := enums[0];
      [EnumInfo(e.name, EnumValue(e.value), if extended then e.comment else [], if extended then e.attributes else [])]
        + EnumsOf(enums[1..], extended)
  }

  function OptionsOf(x: Sections, has: Announced): Options {
    Options(
      if has.guid then Hex(x.guid) else "",
      if has.attributes then x.attributes else [],
      if has.enums then EnumsOf(x.enums, has.enumExtras) else [],
      if has.extendedFlags then x.extendedFlags else 0)
  }

  function DataTypeOf(w: Wire): DataType
    decreases w, 1
  {
    DataType(w.head, w.name, w.typeName, w.comment, w.arrayInfo, SubItemsOf(w.subItems),
             OptionsOf(w.sections, AnnouncedBy(w.head.flags)))
  }

  function SubItemsOf(subs: seq<Wire>): seq<DataType>
    decreases subs, 0
  {
    if subs == [] then [] else [DataTypeOf(subs[0])] + SubItemsOf(subs[1..])
  }

  // ------------------------------------------------- Sections are inverted

  lemma StringInverts(s: GoString, k: seq<byte>)
    requires |s| < 0xFFFF
    ensures ParseString(PutString(s, k), |s|) == Ok((s, k))
  {
    TakePut(s + [0], k);
    assert (s + [0])[..|s|] == s;
  }

  /** The one length that does not fit: `length + 1` wraps to 0 and the parser panics. */
  lemma StringInvertsIff(s: GoString, k: seq<byte>)
    requires |s| < 0x1_0000
    ensures var r := ParseString(PutString(s, k), |s|);
      (r == Ok((s, k)) <==> |s| < 0xFFFF) && (|s| == 0xFFFF ==> r == Panic)
  {
    if |s| < 0xFFFF {
      StringInverts(s, k);
    }
  }

  lemma FillStringInverts(s: GoString, k: seq<byte>)
    requires |s| < 256
    ensures FillString(PutString(s, k), |s|) == Ok((s, k))
  {
    FillPut(s + [0], k);
    assert (s + [0])[..|s|] == s;
  }

  lemma {:induction false} ArrayBoundsInvert(xs: seq<ArrayBound>, k: seq<byte>)
    ensures Repeat(ParseArrayBound, |xs|, PutAll(PutArrayBound, xs, k)) == Ok((xs, k))
  {
    if xs != [] {
      var rest := PutAll(PutArrayBound, xs[1..], k);
      ArrayBoundsInvert(xs[1..], k);
      ReadPutI32(xs[0].startIndex, PutUint(xs[0].length, 4, rest));
      ReadPut32(xs[0].length, rest);
      RepeatPutStep(ParseArrayBound, PutArrayBound, xs, k);
    }
  }

  lemma MethodsInvert(methods: seq<seq<byte>>, k: seq<byte>)
    requires |methods| < 0x1_0000 && All(ShortMethod, methods)
    ensures var r := ParseMethodInfos(PutUint(|methods|, 2, PutAll(PutMethod, methods, k)));
      r.Ok? && r.value.1 == k
  {
    ReadPut16(|methods|, PutAll(PutMethod, methods, k));
    SkipMethods(methods, k);
  }

  lemma {:induction false} SkipMethods(methods: seq<seq<byte>>, k: seq<byte>)
    requires All(ShortMethod, methods)
    ensures var r := Repeat(SkipMethod, |methods|, PutAll(PutMethod, methods, k));
      r.Ok? && r.value.1 == k
  {
    if methods != [] {
      MethodSkips(methods[0], PutAll(PutMethod, methods[1..], k));
      SkipMethods(methods[1..], k);
    }
  }

  lemma MethodSkips(body: seq<byte>, k: seq<byte>)
    requires ShortMethod(body)
    ensures SkipMethod(PutMethod(body, k)) == Ok(((), k))
  {
    ReadPut32(|body| + 4, Put(body, k));
    assert (|body| + 4 - 4) % 0x1_0000_0000 == |body|;
    FillPut(body, k);
  }

  /** A method without a body is skipped unless it ends the data. */
  lemma MethodSkipsIff(body: seq<byte>, k: seq<byte>)
    requires |body| < 0xFFFF_FFFC
    ensures SkipMethod(PutMethod(body, k)) == Ok(((), k)) <==> body != [] || k != []
  {
    if body != [] {
      MethodSkips(body, k);
    } else {
      ReadPut32(4, Put(body, k));
      assert Put(body, k) == k;
    }
  }

  lemma AttributeInverts(a: Attribute, k: seq<byte>)
    requires ShortAttribute(a)
    ensures ParseAttribute(PutAttribute(a, k)) == Ok((a, k))
  {
    var strings := PutString(a.name, PutString(a.value, k));
    ReadPut8(|a.name|, PutUint(|a.value|, 1, strings));
    ReadPut8(|a.value|, strings);
    FillStringInverts(a.name, PutString(a.value, k));
    FillStringInverts(a.value, k);
  }

  lemma {:induction false} AttributesInvert(xs: seq<Attribute>, k: seq<byte>)
    requires All(ShortAttribute, xs)
    ensures Repeat(ParseAttribute, |xs|, PutAll(PutAttribute, xs, k)) == Ok((xs, k))
  {
    if xs != [] {
      AttributesInvert(xs[1..], k);
      AttributeInverts(xs[0], PutAll(PutAttribute, xs[1..], k));
      RepeatPutStep(ParseAttribute, PutAttribute, xs, k);
    }
  }

  lemma {:induction false} EnumsInvert(enums: seq<WireEnum>, size: uint32, k: seq<byte>)
    requires ShortEnums(enums, size)
    ensures Repeat(ParseEnumInfo(size), |enums|, PutAll(PutEnum, enums, k)) == Ok((EnumsOf(enums, false), k))
  {
    if enums != [] {
      EnumInverts(enums[0], size, PutAll(PutEnum, enums[1..], k));
      EnumsInvert(enums[1..], size, k);
    }
  }

  lemma EnumInverts(e: WireEnum, size: uint32, k: seq<byte>)
    requires ShortEnum(e, size)
    ensures ParseEnumInfo(size)(PutEnum(e, k)) == Ok((EnumInfo(e.name, EnumValue(e.value), [], []), k))
  {
    var value := Put(e.value, k);
    ReadPut8(|e.name|, PutString(e.name, value));
    FillStringInverts(e.name, value);
    FillPut(e.value, k);
  }

  /** A constant of a type without bytes is read unless it ends the data. */
  lemma EnumInvertsIff(e: WireEnum, size: uint32, k: seq<byte>)
    requires |e.name| < 256 && |e.value| == size
    ensures ParseEnumInfo(size)(PutEnum(e, k)) == Ok((EnumInfo(e.name, EnumValue(e.value), [], []), k))
      <==> size > 0 || k != []
  {
    if size > 0 {
      EnumInverts(e, size, k);
    } else {
      ReadPut8(|e.name|, PutString(e.name, Put(e.value, k)));
      FillStringInverts(e.name, Put(e.value, k));
      assert Put(e.value, k) == k;
    }
  }

  lemma ExtraInverts(e: WireEnum, k: seq<byte>)
    requires ShortEnumExtra(e)
    ensures ParseExtendedEnumInfo(PutEnumExtra(e, k)) == Ok(((e.comment, e.attributes), k))
  {
    var attributes := PutAll(PutAttribute, e.attributes, k);
    var strings := PutString(e.comment, attributes);
    ReadPut16(e.entryLength, PutUint(|e.comment|, 1, PutUint(|e.attributes|, 1, strings)));
    ReadPut8(|e.comment|, PutUint(|e.attributes|, 1, strings));
    ReadPut8(|e.attributes|, strings);
    FillStringInverts(e.comment, attributes);
    AttributesInvert(e.attributes, k);
  }

  lemma {:induction false} ExtrasInvert(enums: seq<WireEnum>, k: seq<byte>)
    requires All(ShortEnumExtra, enums)
    ensures var r := Repeat(ParseExtendedEnumInfo, |enums|, PutAll(PutEnumExtra, enums, k));
      r.Ok? && r.value.1 == k && Extend(EnumsOf(enums, false), r.value.0) == EnumsOf(enums, true)
  {
    if enums != [] {
      ExtraInverts(enums[0], PutAll(PutEnumExtra, enums[1..], k));
      ExtrasInvert(enums[1..], k);
    }
  }

  lemma {:induction false} DeRefsInvert(guids: seq<seq<byte>>, k: seq<byte>)
    requires All(IsGuid, guids)
    ensures var r := Repeat(SkipGuid, |guids|, PutAll(Put, guids, k));
      r.Ok? && r.value.1 == k
  {
    if guids != [] {
      FillPut(guids[0], PutAll(Put, guids[1..], k));
      DeRefsInvert(guids[1..], k);
    }
  }

  lemma ExtendedInverts(x: Sections, has: Announced, k: seq<byte>, guid: string, attributes: seq<Attribute>)
    requires ExtendedFits(x, has)
    ensures var enums := if has.enums then EnumsOf(x.enums, false) else [];
      ParseExtendedOptions(PutExtended(x, has, k), has, guid, attributes, enums)
        == Ok((OptionsOf(x, has).(guid := guid, attributes := attributes), k))
  {
    var k1 := if has.enumExtras then PutAll(PutEnumExtra, x.enums, k) else k;
    var guids := PutAll(Put, x.deRefs, k1);
    var k2 := if has.deRefs then PutUint(|x.deRefs|, 2, guids) else k1;
    ReadPut32(x.extendedFlags, k2);
    ReadPut16(|x.deRefs|, guids);
    DeRefsInvert(x.deRefs, k1);
    ExtrasInvert(x.enums, k);
  }

  lemma AttributeSectionInverts(xs: seq<Attribute>, k: seq<byte>)
    requires |xs| < 0x1_0000 && All(ShortAttribute, xs)
    ensures ParseAttributes(PutUint(|xs|, 2, PutAll(PutAttribute, xs, k))) == Ok((xs, k))
  {
    ReadPut16(|xs|, PutAll(PutAttribute, xs, k));
    AttributesInvert(xs, k);
  }

  lemma EnumSectionInverts(enums: seq<WireEnum>, size: uint32, k: seq<byte>)
    requires |enums| < 0x1_0000 && ShortEnums(enums, size)
    ensures ParseEnumInfos(PutUint(|enums|, 2, PutAll(PutEnum, enums, k)), size) == Ok((EnumsOf(enums, false), k))
  {
    ReadPut16(|enums|, PutAll(PutEnum, enums, k));
    EnumsInvert(enums, size, k);
  }

  lemma ListsInvert(x: Sections, has: Announced, size: uint32, k: seq<byte>, guid: string)
    requires ListsFit(x, has, size)
    ensures ParseListOptions(PutLists(x, has, k), has, size, guid) == Ok((OptionsOf(x, has).(guid := guid), k))
  {
    var k1 := PutExtended(x, has, k);
    var k2 := if has.enums then PutUint(|x.enums|, 2, PutAll(PutEnum, x.enums, k1)) else k1;
    var attributes := if has.attributes then x.attributes else [];
    var enums := if has.enums then EnumsOf(x.enums, false) else [];
    AnnouncedAttributes(x.attributes, has.attributes, k2);
    AnnouncedEnums(x.enums, has.enums, size, k1);
    ListOptionsFrom(PutLists(x, has, k), has, size, guid, attributes, k2, enums, k1);
    ExtendedInverts(x, has, k, guid, attributes);
  }

  lemma AnnouncedAttributes(xs: seq<Attribute>, announced: bool, k: seq<byte>)
    requires |xs| < 0x1_0000 && All(ShortAttribute, xs)
    ensures var s := if announced then PutUint(|xs|, 2, PutAll(PutAttribute, xs, k)) else k;
      (if announced then ParseAttributes(s) else Ok(([], s))) == Ok((if announced then xs else [], k))
  {
    AttributeSectionInverts(xs, k);
  }

  lemma AnnouncedEnums(xs: seq<WireEnum>, announced: bool, size: uint32, k: seq<byte>)
    requires |xs| < 0x1_0000 && ShortEnums(xs, size)
    ensures var s := if announced then PutUint(|xs|, 2, PutAll(PutEnum, xs, k)) else k;
      (if announced then ParseEnumInfos(s, size) else Ok(([], s)))
        == Ok((if announced then EnumsOf(xs, false) else [], k))
  {
    EnumSectionInverts(xs, size, k);
  }

  lemma ListOptionsFrom(s: seq<byte>, has: Announced, size: uint32, guid: string,
                        attributes: seq<Attribute>, s1: seq<byte>, enums: seq<EnumInfo>, s2: seq<byte>)
    requires (if has.attributes then ParseAttributes(s) else Ok(([], s))) == Ok((attributes, s1))
    requires (if has.enums then ParseEnumInfos(s1, size) else Ok(([], s1))) == Ok((enums, s2))
    ensures ParseListOptions(s, has, size, guid) == ParseExtendedOptions(s2, has, guid, attributes, enums)
  {
  }

  lemma SkipPut(b: seq<byte>, k: seq<byte>)
    ensures Skip(Put(b, k), |b|) == k
  {
  }

  lemma SectionsInvert(x: Sections, has: Announced, size: uint32, k: seq<byte>)
    requires SectionsFit(x, has, size)
    ensures ParseOptions(PutSections(x, has, k), has, size) == Ok((OptionsOf(x, has), k))
  {
    var guid := if has.guid then Hex(x.guid) else "";
    var k3 := PutLists(x, has, k);
    var k4 := if has.methods then PutUint(|x.methods|, 2, PutAll(PutMethod, x.methods, k3)) else k3;
    var k5 := if has.copyMask then Put(x.copyMask, k4) else k4;
    FillPut(x.guid, k5);
    SkipPut(x.copyMask, k4);
    MethodsInvert(x.methods, k3);
    OptionsFrom(PutSections(x, has, k), has, size, guid, k5, k4, k3);
    ListsInvert(x, has, size, k, guid);
  }

  lemma OptionsFrom(s: seq<byte>, has: Announced, size: uint32, guid: string,
                    s1: seq<byte>, s2: seq<byte>, s3: seq<byte>)
    requires (if has.guid then ParseTypeGuid(s) else Ok(("", s))) == Ok((guid, s1))
    requires (if has.copyMask then Skip(s1, size) else s1) == s2
    requires has.methods ==> ParseMethodInfos(s2).Ok? && ParseMethodInfos(s2).value.1 == s3
    requires !has.methods ==> s3 == s2
    ensures ParseOptions(s, has, size) == ParseListOptions(s3, has, size, guid)
  {
  }

  // -------------------------------------------------- The tree is inverted

  function ParseLengths(s: seq<byte>): Parsed<(uint16, uint16, uint16, uint16, uint16)> {
    var (name, s) :- ReadU16(s);
    var (typeName, s) :- ReadU16(s);
    var (comment, s) :- ReadU16(s);
    var (arrayDim, s) :- ReadU16(s);
    var (subItemCount, s) :- ReadU16(s);
    Ok(((name, typeName, comment, arrayDim, subItemCount), s))
  }

  lemma LengthsInvert(h: Head, k: seq<byte>)
    ensures ParseLengths(PutLengths(h, k))
         == Ok(((h.nameLength, h.typeLength, h.commentLength, h.arrayDim, h.subItemCount), k))
  {
    var k1 := PutUint(h.subItemCount, 2, k);
    var k2 := PutUint(h.arrayDim, 2, k1);
    var k3 := PutUint(h.commentLength, 2, k2);
    var k4 := PutUint(h.typeLength, 2, k3);
    ReadPut16(h.subItemCount, k);
    ReadPut16(h.arrayDim, k1);
    ReadPut16(h.commentLength, k2);
    ReadPut16(h.typeLength, k3);
    ReadPut16(h.nameLength, k4);
  }

  lemma HeadInverts(h: Head, k: seq<byte>)
    ensures ParseHead(PutHead(h, k)) == Ok((h, k))
  {
    var k1 := PutLengths(h, k);
    var k2 := PutUint(h.flags, 4, k1);
    var k3 := PutUint(h.code, 4, k2);
    var k4 := PutUint(h.offset, 4, k3);
    var k5 := PutUint(h.size, 4, k4);
    var k6 := PutUint(h.typeHash, 4, k5);
    var k7 := PutUint(h.hashValue, 4, k6);
    LengthsInvert(h, k);
    ReadPut32(h.flags, k1);
    ReadPut32(h.code, k2);
    ReadPut32(h.offset, k3);
    ReadPut32(h.size, k4);
    ReadPut32(h.typeHash, k5);
    ReadPut32(h.hashValue, k6);
    ReadPut32(h.version, k7);
  }

  /** Everything in front of the sub-items. */
  function FrontOf(w: Wire, length: nat, k: seq<byte>): seq<byte> {
    PutUint(length, 4, PutHead(w.head, PutString(w.name, PutString(w.typeName, PutString(w.comment,
      PutAll(PutArrayBound, w.arrayInfo, k))))))
  }

  lemma FrontInverts(w: Wire, length: uint32, k: seq<byte>)
    requires FrontFits(w)
    ensures ParseFront(FrontOf(w, length, k))
         == Ok((DataType(w.head, w.name, w.typeName, w.comment, w.arrayInfo, [], NO_OPTIONS), k))
  {
    var k1 := PutAll(PutArrayBound, w.arrayInfo, k);
    var k2 := PutString(w.comment, k1);
    var k3 := PutString(w.typeName, k2);
    var k4 := PutString(w.name, k3);
    ReadPut32(length, PutHead(w.head, k4));
    HeadInverts(w.head, k4);
    StringInverts(w.name, k3);
    StringInverts(w.typeName, k2);
    StringInverts(w.comment, k1);
    ArrayBoundsInvert(w.arrayInfo, k);
  }

  lemma {:induction false} WireInverts(w: Wire, length: uint32, k: seq<byte>)
    requires WellFormed(w)
    ensures ParseDataType(PutWire(w, length, k)) == Ok((DataTypeOf(w), k))
    decreases w, 1
  {
    var has := AnnouncedBy(w.head.flags);
    var k1 := PutSections(w.sections, has, k);
    var k2 := PutSubItems(w.subItems, k1);
    var data := PutWire(w, length, k);
    WireShape(w, length, k);
    WireFits(w);
    FrontInverts(w, length, k2);
    FrontSuffix(data);
    SubItemsInvert(w.subItems, k1, Significant(data));
    WireSectionsInvert(w, k);
    Assemble(data, DataType(w.head, w.name, w.typeName, w.comment, w.arrayInfo, [], NO_OPTIONS), k2,
             SubItemsOf(w.subItems), k1, OptionsOf(w.sections, has), k);
  }

  lemma WireFits(w: Wire)
    requires WellFormed(w)
    ensures FrontFits(w) && |PutBody(w, w.padding)| + 4 < 0x1_0000_0000
    ensures |w.subItems| == w.head.subItemCount && AllWellFormed(w.subItems)
  {
  }

  lemma WireSectionsInvert(w: Wire, k: seq<byte>)
    requires WellFormed(w)
    ensures var has := AnnouncedBy(w.head.flags);
      ParseOptions(PutSections(w.sections, has, k), has, w.head.size) == Ok((OptionsOf(w.sections, has), k))
  {
    SectionsInvert(w.sections, AnnouncedBy(w.head.flags), w.head.size, k);
  }

  lemma WireShape(w: Wire, length: nat, k: seq<byte>)
    ensures PutWire(w, length, k)
         == FrontOf(w, length, PutSubItems(w.subItems, PutSections(w.sections, AnnouncedBy(w.head.flags), k)))
  {
  }

  /** A declaration whose parts parse is parsed into them. */
  lemma Assemble(data: seq<byte>, front: DataType, s1: seq<byte>, subItems: seq<DataType>, s2: seq<byte>,
                 options: Options, s3: seq<byte>)
    requires ParseFront(data) == Ok((front, s1))
    requires front.head.subItemCount > 0 ==> Significant(s1) < Significant(data)
    requires ParseSubItems(s1, front.head.subItemCount, Significant(data)) == Ok((subItems, s2))
    requires ParseOptions(s2, AnnouncedBy(front.head.flags), front.head.size) == Ok((options, s3))
    ensures ParseDataType(data) == Ok((front.(subItems := subItems, options := options), s3))
  {
  }

  lemma {:induction false} SubItemsInvert(subs: seq<Wire>, k: seq<byte>, bound: nat)
    requires AllWellFormed(subs)
    requires |subs| > 0 ==> Significant(PutSubItems(subs, k)) < bound
    ensures ParseSubItems(PutSubItems(subs, k), |subs|, bound) == Ok((SubItemsOf(subs), k))
    decreases subs, 0
  {
    if subs != [] {
      EntryRead(subs[0], PutSubItems(subs[1..], k));
      var length := EncodedWith(subs[0], []);
      WireInverts(subs[0], length, subs[0].padding);
      SubItemsInvert(subs[1..], k, bound);
    }
  }

  /** The two reads of a sub-item give back its encoding. */
  lemma EntryRead(w: Wire, rest: seq<byte>)
    requires |PutBody(w, w.padding)| + 4 < 0x1_0000_0000
    ensures ReadEntry(Put(Encode(w), rest)) == Ok((Encode(w), rest))
  {
    var length, body := EntryParts(w);
    LengthRead(length, body, rest);
  }

  lemma EntryParts(w: Wire) returns (length: uint32, body: seq<byte>)
    requires |PutBody(w, w.padding)| + 4 < 0x1_0000_0000
    ensures body == PutBody(w, w.padding) && body != [] && length == |body| + 4
    ensures Encode(w) == PutUint(length, 4, body)
  {
    body := PutBody(w, w.padding);
    length := |body| + 4;
    BodyNotEmpty(w, w.padding);
  }

  lemma LengthRead(length: uint32, body: seq<byte>, rest: seq<byte>)
    requires length == |body| + 4 && body != []
    ensures ReadEntry(Put(PutUint(length, 4, body), rest)) == Ok((PutUint(length, 4, body), rest))
  {
    var prefix := LE(length, 4);
    Pow256Values();
    LERoundTrip(length, 4);
    PrefixedRead(prefix, body, rest);
  }

  lemma PrefixedRead(prefix: seq<byte>, body: seq<byte>, rest: seq<byte>)
    requires |prefix| == 4 && FromLE(prefix) == |body| + 4 && body != []
    ensures ReadEntry((prefix + body) + rest) == Ok((prefix + body, rest))
  {
    TwoReads(prefix, body, rest);
  }

  lemma TwoReads(a: seq<byte>, b: seq<byte>, rest: seq<byte>)
    requires a != [] && b != []
    ensures Fill((a + b) + rest, |a|) == Ok((a, b + rest))
    ensures Fill(b + rest, |b|) == Ok((b, rest))
    ensures (a + b)[|a|..] == b && (a + b)[..|a|] == a
  {
    assert (a + b) + rest == a + (b + rest);
    FillPut(a, b + rest);
    FillPut(b, rest);
  }

  lemma BodyNotEmpty(w: Wire, k: seq<byte>)
    ensures PutBody(w, k) != []
  {
  }

  // ------------------------------------------------- Trailing bytes

  /** An item encoder only puts bytes in front. */
  ghost predicate Prefixes<T(!new)>(put: (T, seq<byte>) -> seq<byte>) {
    forall x: T, a: seq<byte>, b: seq<byte> :: put(x, a + b) == put(x, a) + b
  }

  lemma {:induction false} PutAllAppend<T(!new)>(put: (T, seq<byte>) -> seq<byte>, xs: seq<T>,
                                                 a: seq<byte>, b: seq<byte>)
    requires Prefixes(put)
    ensures PutAll(put, xs, a + b) == PutAll(put, xs, a) + b
  {
    if xs != [] {
      PutAllAppend(put, xs[1..], a, b);
    }
  }

  lemma PutAppend(front: seq<byte>, a: seq<byte>, b: seq<byte>)
    ensures Put(front, a + b) == Put(front, a) + b
  {
  }

  lemma UintAppend(n: nat, w: nat, a: seq<byte>, b: seq<byte>)
    ensures PutUint(n, w, a + b) == PutUint(n, w, a) + b
  {
  }

  lemma BytesPrefix()
    ensures Prefixes(Put)
  {
    forall front: seq<byte>, a: seq<byte>, b: seq<byte> ensures Put(front, a + b) == Put(front, a) + b {
      PutAppend(front, a, b);
    }
  }

  lemma ArrayBoundsPrefix()
    ensures Prefixes(PutArrayBound)
  {
    forall x: ArrayBound, a: seq<byte>, b: seq<byte> ensures PutArrayBound(x, a + b) == PutArrayBound(x, a) + b {
      UintAppend(x.length, 4, a, b);
      Pow256Values();
      UintAppend(TwosComplement(x.startIndex, 4), 4, PutUint(x.length, 4, a), b);
    }
  }

  lemma MethodsPrefix()
    ensures Prefixes(PutMethod)
  {
    forall x: seq<byte>, a: seq<byte>, b: seq<byte> ensures PutMethod(x, a + b) == PutMethod(x, a) + b {
      PutAppend(x, a, b);
      UintAppend(|x| + 4, 4, Put(x, a), b);
    }
  }

  lemma AttributesPrefix()
    ensures Prefixes(PutAttribute)
  {
    forall x: Attribute, a: seq<byte>, b: seq<byte> ensures PutAttribute(x, a + b) == PutAttribute(x, a) + b {
      var a1 := PutString(x.value, a);
      var a2 := PutString(x.name, a1);
      PutAppend(x.value + [0], a, b);
      PutAppend(x.name + [0], a1, b);
      UintAppend(|x.value|, 1, a2, b);
      UintAppend(|x.name|, 1, PutUint(|x.value|, 1, a2), b);
    }
  }

  lemma EnumsPrefix()
    ensures Prefixes(PutEnum)
  {
    forall x: WireEnum, a: seq<byte>, b: seq<byte> ensures PutEnum(x, a + b) == PutEnum(x, a) + b {
      PutAppend(x.value, a, b);
      PutAppend(x.name + [0], Put(x.value, a), b);
      UintAppend(|x.name|, 1, PutString(x.name, Put(x.value, a)), b);
    }
  }

  lemma EnumExtrasPrefix()
    ensures Prefixes(PutEnumExtra)
  {
    AttributesPrefix();
    forall x: WireEnum, a: seq<byte>, b: seq<byte> ensures PutEnumExtra(x, a + b) == PutEnumExtra(x, a) + b {
      var a1 := PutAll(PutAttribute, x.attributes, a);
      var a2 := PutString(x.comment, a1);
      var a3 := PutUint(|x.attributes|, 1, a2);
      PutAllAppend(PutAttribute, x.attributes, a, b);
      PutAppend(x.comment + [0], a1, b);
      UintAppend(|x.attributes|, 1, a2, b);
      UintAppend(|x.comment|, 1, a3, b);
      UintAppend(x.entryLength, 2, PutUint(|x.comment|, 1, a3), b);
    }
  }

  lemma ExtendedAppend(x: Sections, has: Announced, a: seq<byte>, b: seq<byte>)
    ensures PutExtended(x, has, a + b) == PutExtended(x, has, a) + b
  {
    EnumExtrasPrefix();
    BytesPrefix();
    PutAllAppend(PutEnumExtra, x.enums, a, b);
    var a1 := if has.enumExtras then PutAll(PutEnumExtra, x.enums, a) else a;
    PutAllAppend(Put, x.deRefs, a1, b);
    UintAppend(|x.deRefs|, 2, PutAll(Put, x.deRefs, a1), b);
    var a2 := if has.deRefs then PutUint(|x.deRefs|, 2, PutAll(Put, x.deRefs, a1)) else a1;
    UintAppend(x.extendedFlags, 4, a2, b);
  }

  lemma ListsAppend(x: Sections, has: Announced, a: seq<byte>, b: seq<byte>)
    ensures PutLists(x, has, a + b) == PutLists(x, has, a) + b
  {
    ExtendedAppend(x, has, a, b);
    EnumsPrefix();
    AttributesPrefix();
    var a1 := PutExtended(x, has, a);
    PutAllAppend(PutEnum, x.enums, a1, b);
    UintAppend(|x.enums|, 2, PutAll(PutEnum, x.enums, a1), b);
    var a2 := if has.enums then PutUint(|x.enums|, 2, PutAll(PutEnum, x.enums, a1)) else a1;
    PutAllAppend(PutAttribute, x.attributes, a2, b);
    UintAppend(|x.attributes|, 2, PutAll(PutAttribute, x.attributes, a2), b);
  }

  lemma SectionsAppend(x: Sections, has: Announced, a: seq<byte>, b: seq<byte>)
    ensures PutSections(x, has, a + b) == PutSections(x, has, a) + b
  {
    ListsAppend(x, has, a, b);
    MethodsPrefix();
    var a1 := PutLists(x, has, a);
    PutAllAppend(PutMethod, x.methods, a1, b);
    UintAppend(|x.methods|, 2, PutAll(PutMethod, x.methods, a1), b);
    var a2 := if has.methods then PutUint(|x.methods|, 2, PutAll(PutMethod, x.methods, a1)) else a1;
    PutAppend(x.copyMask, a2, b);
    PutAppend(x.guid, if has.copyMask then Put(x.copyMask, a2) else a2, b);
  }

  lemma {:induction false} SubItemsAppend(subs: seq<Wire>, a: seq<byte>, b: seq<byte>)
    ensures PutSubItems(subs, a + b) == PutSubItems(subs, a) + b
  {
    if subs != [] {
      SubItemsAppend(subs[1..], a, b);
      PutAppend(Encode(subs[0]), PutSubItems(subs[1..], a), b);
    }
  }

  lemma HeadAppend(h: Head, a: seq<byte>, b: seq<byte>)
    ensures PutHead(h, a + b) == PutHead(h, a) + b
  {
    var front := PutHead(h, []);
    HeadPrefix(h, a);
    HeadPrefix(h, a + b);
    assert front + (a + b) == (front + a) + b;
  }

  lemma HeadPrefix(h: Head, k: seq<byte>)
    ensures PutHead(h, k) == PutHead(h, []) + k
  {
  }

  lemma WireAppend(w: Wire, length: nat, k: seq<byte>)
    ensures PutWire(w, length, k) == PutWire(w, length, []) + k
  {
    var has := AnnouncedBy(w.head.flags);
    var a1 := PutSections(w.sections, has, []);
    var a2 := PutSubItems(w.subItems, a1);
    var a3 := PutAll(PutArrayBound, w.arrayInfo, a2);
    var a4 := PutString(w.comment, a3);
    var a5 := PutString(w.typeName, a4);
    var a6 := PutString(w.name, a5);
    assert [] + k == k;
    SectionsAppend(w.sections, has, [], k);
    SubItemsAppend(w.subItems, a1, k);
    ArrayBoundsPrefix();
    PutAllAppend(PutArrayBound, w.arrayInfo, a2, k);
    PutAppend(w.comment + [0], a3, k);
    PutAppend(w.typeName + [0], a4, k);
    PutAppend(w.name + [0], a5, k);
    HeadAppend(w.head, a6, k);
    UintAppend(length, 4, PutHead(w.head, a6), k);
  }

  /** The length that an encoding starts with. */
  lemma EncodedWith(w: Wire, k: seq<byte>) returns (length: uint32)
    requires WellFormed(w)
    ensures Encode(w) + k == PutWire(w, length, w.padding + k) && Encode(w) == PutWire(w, length, w.padding)
  {
    WireFits(w);
    var body: seq<byte>;
    length, body := EntryParts(w);
    PaddingAppend(w, length, w.padding, k);
  }

  lemma PaddingAppend(w: Wire, length: nat, padding: seq<byte>, k: seq<byte>)
    ensures PutWire(w, length, padding) + k == PutWire(w, length, padding + k)
  {
    WireAppend(w, length, padding);
    WireAppend(w, length, padding + k);
    Regroup(PutWire(w, length, []), padding, k);
  }

  lemma Regroup(a: seq<byte>, b: seq<byte>, c: seq<byte>)
    ensures (a + b) + c == a + (b + c)
  {
  }

  /** Parsing inverts the format: for every well-formed declaration and any bytes
      behind it, all sub-items and sections come back, those that are skipped are
      skipped exactly, padding at any depth does not matter, and what is left over is
      the declaration's own padding and the bytes behind it. */
  lemma ParseInvertsEncode(w: Wire, trailing: seq<byte>)
    requires WellFormed(w)
    ensures ParseDataType(Encode(w) + trailing) == Ok((DataTypeOf(w), w.padding + trailing))
  {
    var length := EncodedWith(w, trailing);
    WireInverts(w, length, w.padding + trailing);
  }

  /** The value of an enumeration constant stored in `w` bytes comes back exactly when
      it is not negative or fills all eight bytes: shorter ones are not sign-extended. */
  lemma EnumValueRecoveredIff(v: int64, w: nat)
    requires w == 1 || w == 2 || w == 4 || w == 8
    requires 0 <= 2 * v + Pow256(w) < 2 * Pow256(w)
    ensures EnumValue(LE(TwosComplement(v, w), w)) == v <==> (0 <= v || w == 8)
  {
    Pow256Values();
    var n := TwosComplement(v, w);
    LERoundTrip(n, w);
    var b := LE(n, w);
    ZerosOnTop(b, 8 - w);
    assert w == 8 ==> b[..8] == b;
    assert EnumValue(b) == FromTwosComplement(n, 8);
  }

  /** Zero bytes on top do not change a number. */
  lemma {:induction false} ZerosOnTop(b: seq<byte>, n: nat)
    ensures FromLE(b + Zeros(n)) == FromLE(b)
  {
    if b == [] {
      assert b + Zeros(n) == Zeros(n);
      ZerosAreZero(n);
    } else {
      assert (b + Zeros(n))[1..] == b[1..] + Zeros(n);
      ZerosOnTop(b[1..], n);
    }
  }

  lemma {:induction false} ZerosAreZero(n: nat)
    ensures FromLE(Zeros(n)) == 0
  {
    if n > 0 {
      assert Zeros(n)[1..] == Zeros(n - 1);
      ZerosAreZero(n - 1);
    }
  }
}
