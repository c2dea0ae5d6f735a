/** The data type parser as the source runs it: one reader that every section advances,
    and lists that grow in loops. */
module DataTypeMethods {
  import opened Bytes
  import opened Outcomes
  import opened Readers
  import opened DataTypeParser

  method ReadHead(reader: Reader) returns (r: Outcome<Head, ParseError>)
    modifies reader
    ensures Ran(ParseHead(old(reader.rest)), r, reader.rest)
  {
    var version := reader.U32();
    if version.IsFailure() { return version.PropagateFailure(); }
    var hashValue := reader.U32();
    if hashValue.IsFailure() { return hashValue.PropagateFailure(); }
    var typeHash := reader.U32();
    if typeHash.IsFailure() { return typeHash.PropagateFailure(); }
    var size := reader.U32();
    if size.IsFailure() { return size.PropagateFailure(); }
    var offset := reader.U32();
    if offset.IsFailure() { return offset.PropagateFailure(); }
    var code := reader.U32();
    if code.IsFailure() { return code.PropagateFailure(); }
    var flags := reader.U32();
    if flags.IsFailure() { return flags.PropagateFailure(); }
    var nameLength := reader.U16();
    if nameLength.IsFailure() { return nameLength.PropagateFailure(); }
    var typeLength := reader.U16();
    if typeLength.IsFailure() { return typeLength.PropagateFailure(); }
    var commentLength := reader.U16();
    if commentLength.IsFailure() { return commentLength.PropagateFailure(); }
    var arrayDim := reader.U16();
    if arrayDim.IsFailure() { return arrayDim.PropagateFailure(); }
    var subItemCount := reader.U16();
    if subItemCount.IsFailure() { return subItemCount.PropagateFailure(); }
    r := Ok(Head(version.value, hashValue.value, typeHash.value, size.value, offset.value, code.value, flags.value,
                 nameLength.value, typeLength.value, commentLength.value, arrayDim.value, subItemCount.value));
  }

  method ReadString(reader: Reader, length: uint16) returns (r: Outcome<GoString, ParseError>)
    modifies reader
    ensures Ran(ParseString(old(reader.rest), length), r, reader.rest)
  {
    var buf := reader.Full((length + 1) % 0x1_0000);
    if buf.IsFailure() {
      return buf;
    }
    if length > |buf.value| {
      return Panic;
    }
    r := Ok(buf.value[..length]);
  }

  method ReadShortString(reader: Reader, length: uint8) returns (r: Outcome<GoString, ParseError>)
    modifies reader
    ensures Ran(FillString(old(reader.rest), length), r, reader.rest)
  {
    var buf := reader.Read(length + 1);
    if buf.IsFailure() {
      return buf;
    }
    r := Ok(buf.value[..length]);
  }

  method ReadArrayBound(reader: Reader) returns (r: Outcome<ArrayBound, ParseError>)
    modifies reader
    ensures Ran(ParseArrayBound(old(reader.rest)), r, reader.rest)
  {
    var startIndex := reader.I32();
    if startIndex.IsFailure() {
      return startIndex.PropagateFailure();
    }
    var length := reader.U32();
    if length.IsFailure() {
      return length.PropagateFailure();
    }
    r := Ok(ArrayBound(startIndex.value, length.value));
  }

  method ReadArrayInfo(reader: Reader, arrayDim: nat) returns (r: Outcome<seq<ArrayBound>, ParseError>)
    modifies reader
    ensures Ran(Repeat(ParseArrayBound, arrayDim, old(reader.rest)), r, reader.rest)
  {
    var bounds: seq<ArrayBound> := [];
    var i := 0;
    ghost var whole := Repeat(ParseArrayBound, arrayDim, reader.rest);
    OntoNone(whole);
    ghost var left: nat, todo: Parsed<seq<ArrayBound>> := arrayDim, whole;
    while i < arrayDim
      invariant 0 <= i <= arrayDim && left == arrayDim - i
      invariant todo == Repeat(ParseArrayBound, left, reader.rest) && whole == Onto(bounds, todo)
    {
      ghost var s := reader.rest;
      var bound := ReadArrayBound(reader);
      ghost var fewer: nat := left - 1;
      OntoStep(ParseArrayBound, bounds, left, fewer, s, bound, reader.rest);
      if bound.IsFailure() {
        return bound.PropagateFailure();
      }
      todo := Repeat(ParseArrayBound, fewer, reader.rest);
      assert whole == Onto(bounds + [bound.value], todo);
      bounds := bounds + [bound.value];
      left := fewer;
      i := i + 1;
    }
    assert bounds + [] == bounds;
    r := Ok(bounds);
  }

  method ReadAttribute(reader: Reader) returns (r: Outcome<Attribute, ParseError>)
    modifies reader
    ensures Ran(ParseAttribute(old(reader.rest)), r, reader.rest)
  {
    var nameLength := reader.U8();
    if nameLength.IsFailure() {
      return nameLength.PropagateFailure();
    }
    var valueLength := reader.U8();
    if valueLength.IsFailure() {
      return valueLength.PropagateFailure();
    }
    var name := ReadShortString(reader, nameLength.value);
    if name.IsFailure() {
      return name.PropagateFailure();
    }
    var value := ReadShortString(reader, valueLength.value);
    if value.IsFailure() {
      return value.PropagateFailure();
    }
    r := Ok(Attribute(name.value, value.value));
  }

  method ReadAttributeList(reader: Reader, count: nat) returns (r: Outcome<seq<Attribute>, ParseError>)
    modifies reader
    ensures Ran(Repeat(ParseAttribute, count, old(reader.rest)), r, reader.rest)
  {
    var attributes: seq<Attribute> := [];
    var i := 0;
    ghost var whole := Repeat(ParseAttribute, count, reader.rest);
    OntoNone(whole);
    ghost var left: nat, todo: Parsed<seq<Attribute>> := count, whole;
    while i < count
      invariant 0 <= i <= count && left == count - i
      invariant todo == Repeat(ParseAttribute, left, reader.rest) && whole == Onto(attributes, todo)
    {
      ghost var s := reader.rest;
      var attribute := ReadAttribute(reader);
      ghost var fewer: nat := left - 1;
      OntoStep(ParseAttribute, attributes, left, fewer, s, attribute, reader.rest);
      if attribute.IsFailure() {
        return attribute.PropagateFailure();
      }
      todo := Repeat(ParseAttribute, fewer, reader.rest);
      assert whole == Onto(attributes + [attribute.value], todo);
      attributes := attributes + [attribute.value];
      left := fewer;
      i := i + 1;
    }
    assert attributes + [] == attributes;
    r := Ok(attributes);
  }

  method ReadAttributes(reader: Reader) returns (r: Outcome<seq<Attribute>, ParseError>)
    modifies reader
    ensures Ran(ParseAttributes(old(reader.rest)), r, reader.rest)
  {
    var count := reader.U16();
    if count.IsFailure() {
      return count.PropagateFailure();
    }
    r := ReadAttributeList(reader, count.value);
  }

  method SkipMethodInfo(reader: Reader) returns (r: Outcome<(), ParseError>)
    modifies reader
    ensures Ran(SkipMethod(old(reader.rest)), r, reader.rest)
  {
    var entryLength := reader.U32();
    if entryLength.IsFailure() {
      return entryLength.PropagateFailure();
    }
    var n: int := entryLength.value;
    var body := reader.Read((n - 4) % 0x1_0000_0000);
    if body.IsFailure() {
      return body.PropagateFailure();
    }
    r := Ok(());
  }

  method SkipMethodInfos(reader: Reader) returns (r: Outcome<seq<()>, ParseError>)
    modifies reader
    ensures Ran(ParseMethodInfos(old(reader.rest)), r, reader.rest)
  {
    var count := reader.U16();
    if count.IsFailure() {
      return count.PropagateFailure();
    }
    var skipped: seq<()> := [];
    var i := 0;
    ghost var whole := Repeat(SkipMethod, count.value, reader.rest);
    OntoNone(whole);
    ghost var left: nat, todo: Parsed<seq<()>> := count.value, whole;
    while i < count.value
      invariant 0 <= i <= count.value && left == count.value - i
      invariant todo == Repeat(SkipMethod, left, reader.rest) && whole == Onto(skipped, todo)
    {
      ghost var s := reader.rest;
      var body := SkipMethodInfo(reader);
      ghost var fewer: nat := left - 1;
      OntoStep(SkipMethod, skipped, left, fewer, s, body, reader.rest);
      if body.IsFailure() {
        return body.PropagateFailure();
      }
      todo := Repeat(SkipMethod, fewer, reader.rest);
      assert whole == Onto(skipped + [()], todo);
      skipped := skipped + [()];
      left := fewer;
      i := i + 1;
    }
    assert skipped + [] == skipped;
    r := Ok(skipped);
  }

  method ReadEnumInfo(reader: Reader, size: uint32) returns (r: Outcome<EnumInfo, ParseError>)
    modifies reader
    ensures Ran(ParseEnumInfo(size)(old(reader.rest)), r, reader.rest)
  {
    var nameLength := reader.U8();
    if nameLength.IsFailure() {
      return nameLength.PropagateFailure();
    }
    var name := ReadShortString(reader, nameLength.value);
    if name.IsFailure() {
      return name.PropagateFailure();
    }
    var value := reader.Read(size);
    if value.IsFailure() {
      return value.PropagateFailure();
    }
    r := Ok(EnumInfo(name.value, EnumValue(value.value), [], []));
  }

  method ReadEnumInfos(reader: Reader, size: uint32) returns (r: Outcome<seq<EnumInfo>, ParseError>)
    modifies reader
    ensures Ran(ParseEnumInfos(old(reader.rest), size), r, reader.rest)
  {
    var count := reader.U16();
    if count.IsFailure() {
      return count.PropagateFailure();
    }
    var infos: seq<EnumInfo> := [];
    var i := 0;
    ghost var whole := Repeat(ParseEnumInfo(size), count.value, reader.rest);
    OntoNone(whole);
    ghost var left: nat, todo: Parsed<seq<EnumInfo>> := count.value, whole;
    while i < count.value
      invariant 0 <= i <= count.value && left == count.value - i
      invariant todo == Repeat(ParseEnumInfo(size), left, reader.rest) && whole == Onto(infos, todo)
    {
      ghost var s := reader.rest;
      var info := ReadEnumInfo(reader, size);
      ghost var fewer: nat := left - 1;
      OntoStep(ParseEnumInfo(size), infos, left, fewer, s, info, reader.rest);
      if info.IsFailure() {
        return info.PropagateFailure();
      }
      todo := Repeat(ParseEnumInfo(size), fewer, reader.rest);
      assert whole == Onto(infos + [info.value], todo);
      infos := infos + [info.value];
      left := fewer;
      i := i + 1;
    }
    assert infos + [] == infos;
    r := Ok(infos);
  }

  method SkipOneGuid(reader: Reader) returns (r: Outcome<(), ParseError>)
    modifies reader
    ensures Ran(SkipGuid(old(reader.rest)), r, reader.rest)
  {
    var guid := reader.Read(16);
    if guid.IsFailure() {
      return guid.PropagateFailure();
    }
    r := Ok(());
  }

  method SkipDeRefTypeItem(reader: Reader) returns (r: Outcome<seq<()>, ParseError>)
    modifies reader
    ensures Ran(ParseDeRefTypeItem(old(reader.rest)), r, reader.rest)
  {
    var count := reader.U16();
    if count.IsFailure() {
      return count.PropagateFailure();
    }
    var skipped: seq<()> := [];
    var i := 0;
    ghost var whole := Repeat(SkipGuid, count.value, reader.rest);
    OntoNone(whole);
    ghost var left: nat, todo: Parsed<seq<()>> := count.value, whole;
    while i < count.value
      invariant 0 <= i <= count.value && left == count.value - i
      invariant todo == Repeat(SkipGuid, left, reader.rest) && whole == Onto(skipped, todo)
    {
      ghost var s := reader.rest;
      var guid := SkipOneGuid(reader);
      ghost var fewer: nat := left - 1;
      OntoStep(SkipGuid, skipped, left, fewer, s, guid, reader.rest);
      if guid.IsFailure() {
        return guid.PropagateFailure();
      }
      todo := Repeat(SkipGuid, fewer, reader.rest);
      assert whole == Onto(skipped + [()], todo);
      skipped := skipped + [()];
      left := fewer;
      i := i + 1;
    }
    assert skipped + [] == skipped;
    r := Ok(skipped);
  }

  method ReadExtendedEnumInfo(reader: Reader) returns (r: Outcome<(GoString, seq<Attribute>), ParseError>)
    modifies reader
    ensures Ran(ParseExtendedEnumInfo(old(reader.rest)), r, reader.rest)
  {
    var entryLength := reader.U16();
    if entryLength.IsFailure() {
      return entryLength.PropagateFailure();
    }
    var commentLength := reader.U8();
    if commentLength.IsFailure() {
      return commentLength.PropagateFailure();
    }
    var attributeCount := reader.U8();
    if attributeCount.IsFailure() {
      return attributeCount.PropagateFailure();
    }
    var comment := ReadShortString(reader, commentLength.value);
    if comment.IsFailure() {
      return comment.PropagateFailure();
    }
    var attributes := ReadAttributeList(reader, attributeCount.value);
    if attributes.IsFailure() {
      return attributes.PropagateFailure();
    }
    r := Ok((comment.value, attributes.value));
  }

  lemma {:induction false} ExtendSnoc(infos: seq<EnumInfo>, extras: seq<(GoString, seq<Attribute>)>,
                                      info: EnumInfo, extra: (GoString, seq<Attribute>))
    requires |infos| == |extras|
    ensures Extend(infos + [info], extras + [extra])
         == Extend(infos, extras) + [info.(comment := extra.0, attributes := extra.1)]
  {
    if infos != [] {
      assert (infos + [info])[1..] == infos[1..] + [info] && (extras + [extra])[1..] == extras[1..] + [extra];
      ExtendSnoc(infos[1..], extras[1..], info, extra);
    }
  }

  function ExtendedSoFar(infos: seq<EnumInfo>, extras: seq<(GoString, seq<Attribute>)>): (r: seq<EnumInfo>)
    requires |extras| <= |infos|
    ensures |r| == |infos|
    ensures |extras| < |infos| ==> r[|extras|] == infos[|extras|]
  {
    ExtendLength(infos[..|extras|], extras);
    Extend(infos[..|extras|], extras) + infos[|extras|..]
  }

  lemma ExtendOneMore(infos: seq<EnumInfo>, extras: seq<(GoString, seq<Attribute>)>,
                      extra: (GoString, seq<Attribute>))
    requires |extras| < |infos|
    ensures ExtendedSoFar(infos, extras + [extra])
         == ExtendedSoFar(infos, extras)[|extras| := infos[|extras|].(comment := extra.0, attributes := extra.1)]
  {
    var i := |extras|;
    var done := Extend(infos[..i], extras);
    var x := infos[i].(comment := extra.0, attributes := extra.1);
    assert infos[..i + 1] == infos[..i] + [infos[i]];
    ExtendLength(infos[..i], extras);
    ExtendSnoc(infos[..i], extras, infos[i], extra);
    assert Extend(infos[..i + 1], extras + [extra]) == done + [x];
    PutInPlace(infos, done, x);
  }

  lemma PutInPlace(infos: seq<EnumInfo>, done: seq<EnumInfo>, x: EnumInfo)
    requires |done| < |infos|
    ensures (done + infos[|done|..])[|done| := x] == (done + [x]) + infos[|done| + 1..]
  {
  }

  lemma ExtendedAll(infos: seq<EnumInfo>, extras: seq<(GoString, seq<Attribute>)>)
    requires |extras| == |infos|
    ensures ExtendedSoFar(infos, extras) == Extend(infos, extras)
  {
    var all := Extend(infos, extras);
    assert infos[..|extras|] == infos && all + [] == all;
  }

  /** Completes the enumeration constants in place, one after the other. */
  method ExtendEnumInfos(reader: Reader, enumInfo: seq<EnumInfo>) returns (r: Outcome<seq<EnumInfo>, ParseError>)
    modifies reader
    ensures match Repeat(ParseExtendedEnumInfo, |enumInfo|, old(reader.rest))
      case Ok((extras, s)) => r == Ok(Extend(enumInfo, extras)) && reader.rest == s
      case Err(e) => r == Err(e)
      case Panic => r == Panic
  {
    var infos := enumInfo;
    ghost var extras: seq<(GoString, seq<Attribute>)> := [];
    var i := 0;
    ghost var whole := Repeat(ParseExtendedEnumInfo, |enumInfo|, reader.rest);
    OntoNone(whole);
    ghost var left: nat, todo: Parsed<seq<(GoString, seq<Attribute>)>> := |enumInfo|, whole;
    while i < |enumInfo|
      invariant 0 <= i <= |enumInfo| && left == |enumInfo| - i && |extras| == i
      invariant infos == ExtendedSoFar(enumInfo, extras)
      invariant todo == Repeat(ParseExtendedEnumInfo, left, reader.rest) && whole == Onto(extras, todo)
    {
      ghost var s := reader.rest;
      var extra := ReadExtendedEnumInfo(reader);
      ghost var fewer: nat := left - 1;
      OntoStep(ParseExtendedEnumInfo, extras, left, fewer, s, extra, reader.rest);
      if extra.IsFailure() {
        return extra.PropagateFailure();
      }
      todo := Repeat(ParseExtendedEnumInfo, fewer, reader.rest);
      assert whole == Onto(extras + [extra.value], todo);
      left := fewer;
      ExtendOneMore(enumInfo, extras, extra.value);
      infos := infos[i := infos[i].(comment := extra.value.0, attributes := extra.value.1)];
      extras := extras + [extra.value];
      i := i + 1;
    }
    ExtendedAll(enumInfo, extras);
    assert extras + [] == extras;
    r := Ok(infos);
  }

  lemma {:induction false} ExtendLength(infos: seq<EnumInfo>, extras: seq<(GoString, seq<Attribute>)>)
    requires |infos| == |extras|
    ensures |Extend(infos, extras)| == |infos|
  {
    if infos != [] {
      ExtendLength(infos[1..], extras[1..]);
    }
  }

  method ReadOptions(reader: Reader, has: Announced, size: uint32) returns (r: Outcome<Options, ParseError>)
    modifies reader
    ensures Ran(ParseOptions(old(reader.rest), has, size), r, reader.rest)
  {
    var guid := "";
    if has.guid {
      var b := reader.Read(16);
      if b.IsFailure() {
        return b.PropagateFailure();
      }
      guid := Hex(b.value);
    }
    if has.copyMask {
      reader.Seek(size);
    }
    if has.methods {
      var skipped := SkipMethodInfos(reader);
      if skipped.IsFailure() {
        return skipped.PropagateFailure();
      }
    }
    r := ReadListOptions(reader, has, size, guid);
  }

  method ReadListOptions(reader: Reader, has: Announced, size: uint32, guid: string)
    returns (r: Outcome<Options, ParseError>)
    modifies reader
    ensures Ran(ParseListOptions(old(reader.rest), has, size, guid), r, reader.rest)
  {
    var attributes: seq<Attribute> := [];
    if has.attributes {
      var list := ReadAttributes(reader);
      if list.IsFailure() {
        return list.PropagateFailure();
      }
      attributes := list.value;
    }
    var enumInfo: seq<EnumInfo> := [];
    if has.enums {
      var list := ReadEnumInfos(reader, size);
      if list.IsFailure() {
        return list.PropagateFailure();
      }
      enumInfo := list.value;
    }
    r := ReadExtendedOptions(reader, has, guid, attributes, enumInfo);
  }

  method ReadExtendedOptions(reader: Reader, has: Announced, guid: string, attributes: seq<Attribute>,
                             enumInfo: seq<EnumInfo>)
    returns (r: Outcome<Options, ParseError>)
    modifies reader
    ensures Ran(ParseExtendedOptions(old(reader.rest), has, guid, attributes, enumInfo), r, reader.rest)
  {
    var extendedFlags: uint32 := 0;
    if has.extendedFlags {
      var n := reader.U32();
      if n.IsFailure() {
        return n.PropagateFailure();
      }
      extendedFlags := n.value;
    }
    if has.deRefs {
      var skipped := SkipDeRefTypeItem(reader);
      if skipped.IsFailure() {
        return skipped.PropagateFailure();
      }
    }
    var infos := enumInfo;
    if has.enumExtras {
      var extended := ExtendEnumInfos(reader, enumInfo);
      if extended.IsFailure() {
        return extended.PropagateFailure();
      }
      infos := extended.value;
    }
    r := Ok(Options(guid, attributes, infos, extendedFlags));
  }

  method ReadFront(reader: Reader) returns (r: Outcome<DataType, ParseError>)
    modifies reader
    ensures Ran(ParseFront(old(reader.rest)), r, reader.rest)
  {
    if |reader.rest| < 4 {
      return Err(InsufficientData);
    }
    var _ := reader.U32();
    var head := ReadHead(reader);
    if head.IsFailure() {
      return head.PropagateFailure();
    }
    var name := ReadString(reader, head.value.nameLength);
    if name.IsFailure() {
      return name.PropagateFailure();
    }
    var typeName := ReadString(reader, head.value.typeLength);
    if typeName.IsFailure() {
      return typeName.PropagateFailure();
    }
    var comment := ReadString(reader, head.value.commentLength);
    if comment.IsFailure() {
      return comment.PropagateFailure();
    }
    var arrayInfo := ReadArrayInfo(reader, head.value.arrayDim);
    if arrayInfo.IsFailure() {
      return arrayInfo.PropagateFailure();
    }
    r := Ok(DataType(head.value, name.value, typeName.value, comment.value, arrayInfo.value, [], NO_OPTIONS));
  }

  /** ParseDataType terminates on every byte sequence: the measure is the length up to
      the last byte that is not zero. */
  method ReadDataType(data: seq<byte>) returns (r: Outcome<DataType, ParseError>)
    ensures r == Result(ParseDataType(data))
    decreases Significant(data), 2
  {
    var reader := new Reader(data);
    var front := ReadFront(reader);
    if front.IsFailure() {
      return front;
    }
    FrontSuffix(data);
    var head := front.value.head;
    var subItems := ReadSubItems(reader, head.subItemCount, Significant(data));
    if subItems.IsFailure() {
      return subItems.PropagateFailure();
    }
    var options := ReadOptions(reader, AnnouncedBy(head.flags), head.size);
    if options.IsFailure() {
      return options.PropagateFailure();
    }
    r := Ok(front.value.(subItems := subItems.value, options := options.value));
  }

  /** Reads a length and a buffer of that length. */
  method ReadSubItemBuffer(reader: Reader) returns (r: Outcome<seq<byte>, ParseError>)
    modifies reader
    ensures Ran(ReadEntry(old(reader.rest)), r, reader.rest)
  {
    var length := reader.Read(4);
    if length.IsFailure() {
      return length;
    }
    FromLEBound(length.value);
    Pow256Values();
    var entryLength := FromLE(length.value);
    if entryLength < 4 {
      return Err(InvalidEntryLength);
    }
    var body := reader.Read(entryLength - 4);
    if body.IsFailure() {
      return body;
    }
    r := Ok(length.value + body.value);
  }

  method ReadSubItem(reader: Reader, ghost bound: nat) returns (r: Outcome<DataType, ParseError>)
    requires Significant(reader.rest) < bound
    modifies reader
    ensures Ran(ParseSubItem(old(reader.rest), bound), r, reader.rest)
    decreases bound, 0
  {
    var entry := ReadSubItemBuffer(reader);
    if entry.IsFailure() {
      return entry.PropagateFailure();
    }
    r := ReadDataType(entry.value);
  }

  method ReadSubItems(reader: Reader, n: nat, ghost bound: nat) returns (r: Outcome<seq<DataType>, ParseError>)
    requires n > 0 ==> Significant(reader.rest) < bound
    modifies reader
    ensures Ran(ParseSubItems(old(reader.rest), n, bound), r, reader.rest)
    decreases bound, 1
  {
    var subItems: seq<DataType> := [];
    var i := 0;
    ghost var whole := ParseSubItems(reader.rest, n, bound);
    OntoNone(whole);
    ghost var left: nat, todo: Parsed<seq<DataType>> := n, whole;
    while i < n
      invariant 0 <= i <= n && left == n - i
      invariant left > 0 ==> Significant(reader.rest) < bound
      invariant todo == ParseSubItems(reader.rest, left, bound) && whole == Onto(subItems, todo)
    {
      ghost var s := reader.rest;
      var subItem := ReadSubItem(reader, bound);
      ghost var fewer: nat := left - 1;
      SubItemStep(subItems, left, fewer, bound, s, subItem, reader.rest);
      if subItem.IsFailure() {
        return subItem.PropagateFailure();
      }
      todo := ParseSubItems(reader.rest, fewer, bound);
      assert whole == Onto(subItems + [subItem.value], todo);
      subItems := subItems + [subItem.value];
      left := fewer;
      i := i + 1;
    }
    assert subItems + [] == subItems;
    r := Ok(subItems);
  }

  lemma SubItemStep(front: seq<DataType>, n: nat, fewer: nat, bound: nat, s: seq<byte>,
                    r: Outcome<DataType, ParseError>, rest: seq<byte>)
    requires n == fewer + 1 && Significant(s) < bound && Ran(ParseSubItem(s, bound), r, rest)
    ensures r.Ok? ==> Significant(rest) < bound
    ensures r.Ok? ==>
      Onto(front, ParseSubItems(s, n, bound)) == Onto(front + [r.value], ParseSubItems(rest, fewer, bound))
    ensures r.Err? ==> Onto(front, ParseSubItems(s, n, bound)) == Err(r.error)
    ensures r.Panic? ==> Onto(front, ParseSubItems(s, n, bound)) == Panic
  {
    if r.Ok? {
      FirstSubItem(n, fewer, bound, s);
      OntoOnto(front, r.value, ParseSubItems(rest, fewer, bound));
    } else {
      NoFirstSubItem(n, bound, s);
    }
  }

  lemma FirstSubItem(n: nat, fewer: nat, bound: nat, s: seq<byte>)
    requires n == fewer + 1 && Significant(s) < bound && ParseSubItem(s, bound).Ok?
    ensures Significant(ParseSubItem(s, bound).value.1) < bound
    ensures ParseSubItems(s, n, bound)
         == Onto([ParseSubItem(s, bound).value.0], ParseSubItems(ParseSubItem(s, bound).value.1, fewer, bound))
  {
    var rest := ParseSubItem(s, bound).value.1;
    assert Significant(rest) < bound;
    var todo := ParseSubItems(rest, n - 1, bound);
    assert n - 1 == fewer;
    assert todo == ParseSubItems(rest, fewer, bound);
  }

  lemma NoFirstSubItem(n: nat, bound: nat, s: seq<byte>)
    requires n > 0 && Significant(s) < bound && !ParseSubItem(s, bound).Ok?
    ensures ParseSubItems(s, n, bound) == ParseSubItem(s, bound).PropagateFailure()
  {
  }

  // ------------------------------------------------------------- Nesting

  function Depth(d: DataType): (n: nat)
    ensures n > 0
    decreases d, 1
  {
    1 + DepthOfAll(d.subItems)
  }

  function DepthOfAll(ds: seq<DataType>): nat
    decreases ds, 0
  {
    if ds == [] then 0
    else
      var rest := DepthOfAll(ds[1..]);
      if Depth(ds[0]) > rest then Depth(ds[0]) else rest
  }

  lemma DeeperOf(d: DataType, ds: seq<DataType>)
    ensures DepthOfAll([d] + ds) == if Depth(d) > DepthOfAll(ds) then Depth(d) else DepthOfAll(ds)
  {
    assert ([d] + ds)[1..] == ds;
  }

  lemma StringTakesByte(s: seq<byte>, length: uint16)
    requires ParseString(s, length).Ok?
    ensures |ParseString(s, length).value.1| < |s|
  {
  }

  /** In front of the sub-items stand 42 bytes and three strings of at least one. */
  lemma FrontTakes45(data: seq<byte>)
    requires ParseFront(data).Ok? && ParseFront(data).value.0.head.subItemCount > 0
    ensures Significant(ParseFront(data).value.1) + 45 <= Significant(data)
         || Significant(ParseFront(data).value.1) == 0
  {
    var s0 := ReadU32(data).value.1;
    var (h, s1) := ParseHead(s0).value;
    var s2 := ParseString(s1, h.nameLength).value.1;
    var s3 := ParseString(s2, h.typeLength).value.1;
    var s4 := ParseString(s3, h.commentLength).value.1;
    var s5 := Repeat(ParseArrayBound, h.arrayDim, s4).value.1;
    HeadSuffix(s0);
    HeadTakes38(s0);
    StringSuffix(s1, h.nameLength);
    StringSuffix(s2, h.typeLength);
    StringSuffix(s3, h.commentLength);
    StringTakesByte(s1, h.nameLength);
    StringTakesByte(s2, h.typeLength);
    StringTakesByte(s3, h.commentLength);
    ArraySuffix(h.arrayDim, s4);
    SuffixTransitive(s5, s4, s3);
    SuffixTransitive(s5, s3, s2);
    SuffixTransitive(s5, s2, s1);
    SuffixTransitive(s5, s1, s0);
    assert SuffixOf(s0, data);
    SuffixTransitive(s5, s0, data);
    SuffixLoses(s5, data);
  }

  lemma HeadTakes38(s: seq<byte>)
    requires ParseHead(s).Ok?
    ensures |ParseHead(s).value.1| == |s| - 38
  {
  }

  lemma SuffixLoses(t: seq<byte>, s: seq<byte>)
    requires SuffixOf(t, s)
    ensures Significant(t) == 0 || Significant(t) + (|s| - |t|) <= Significant(s)
  {
    if Significant(t) > 0 {
      var k := Significant(t) - 1;
      assert t[k] == s[|s| - |t| + k];
    }
  }

  lemma {:induction false} ZeroValue(b: seq<byte>)
    requires forall k :: 0 <= k < |b| ==> b[k] == 0
    ensures FromLE(b) == 0
  {
    if b != [] {
      ZeroValue(b[1..]);
    }
  }

  /** Zeros declare no sub-item. */
  lemma NoEntryInZeros(s: seq<byte>)
    requires ReadEntry(s).Ok?
    ensures Significant(s) > 0
  {
    if Significant(s) == 0 {
      var length := Fill(s, 4).value.0;
      ZeroValue(length);
    }
  }

  lemma FirstEntryCosts(data: seq<byte>)
    requires ParseFront(data).Ok? && ParseFront(data).value.0.head.subItemCount > 0
    requires ReadEntry(ParseFront(data).value.1).Ok?
    ensures Significant(ParseFront(data).value.1) + 45 <= Significant(data)
  {
    FrontTakes45(data);
    NoEntryInZeros(ParseFront(data).value.1);
  }

  /** Every level of nesting costs 45 bytes up to the last one that is not zero: data
      that parses cannot nest deeper than that, whatever lengths it declares. */
  lemma {:induction false} NestingIsBounded(data: seq<byte>)
    requires ParseDataType(data).Ok?
    ensures 45 * (Depth(ParseDataType(data).value.0) - 1) <= Significant(data)
    decreases Significant(data), 1
  {
    var (front, s) := ParseFront(data).value;
    FrontSuffix(data);
    var n := front.head.subItemCount;
    var items := ParseSubItems(s, n, Significant(data)).value.0;
    assert ParseDataType(data).value.0.subItems == items;
    SubItemNesting(s, n, Significant(data), items);
    if n > 0 {
      FirstEntryCosts(data);
    }
  }

  lemma {:induction false} SubItemNesting(s: seq<byte>, n: nat, bound: nat, items: seq<DataType>)
    requires (n > 0 ==> Significant(s) < bound) && ParseSubItems(s, n, bound).Ok?
    requires items == ParseSubItems(s, n, bound).value.0
    ensures 45 * (DepthOfAll(items) - 1) <= Significant(s)
    decreases bound, 0, n
  {
    if n > 0 {
      var fewer := n - 1;
      if !ParseSubItem(s, bound).Ok? {
        NoFirstSubItem(n, bound, s);
      }
      var (first, s1) := ParseSubItem(s, bound).value;
      FirstSubItem(n, fewer, bound, s);
      var rest := ParseSubItems(s1, fewer, bound);
      assert items == [first] + rest.value.0;
      NestingIsBounded(ReadEntry(s).value.0);
      SubItemNesting(s1, fewer, bound, rest.value.0);
      DeeperOf(first, rest.value.0);
    }
  }
}
