/** Serialize and Deserialize as the source runs them: buffers that are appended to,
    a result filled in place, a shared read position. */
module SerializerMethods {
  import opened Bytes
  import opened Outcomes
  import opened AdsTypes
  import opened Serializer

  /** bytes.Buffer, as far as the serializer writes to it. */
  class ByteBuffer {
    var contents: seq<byte>

    constructor ()
      ensures contents == []
    {
      contents := [];
    }

    method Write(d: seq<byte>)
      modifies this
      ensures contents == old(contents) + d
    {
      contents := contents + d;
    }
  }

  /** copy(dst[off:off+len(d)], d) */
  method CopyInto(dst: array<byte>, off: nat, d: seq<byte>)
    requires off + |d| <= dst.Length
    modifies dst
    ensures dst[..] == Blit(old(dst[..]), off, d)
  {
    var k := 0;
    while k < |d|
      invariant 0 <= k <= |d|
      invariant forall j :: 0 <= j < dst.Length ==>
        dst[j] == if off <= j < off + k then d[j - off] else old(dst[j])
    {
      dst[off + k] := d[k];
      k := k + 1;
    }
  }

  /** `parts` and then what the remaining fields give. */
  function Prepend(parts: seq<seq<byte>>, r: Outcome<seq<seq<byte>>, CodecError>): Outcome<seq<seq<byte>>, CodecError> {
    match r
    case Ok(rest) => Ok(parts + rest)
    case Err(e) => Err(e)
    case Panic => Panic
  }

  /** The fields of a struct in declaration order, and whether one has an offset. */
  method SerializeSubItems(go: GoConversions, m: map<GoString, Value>, subs: seq<AdsDataType>)
    returns (r: Outcome<seq<seq<byte>>, CodecError>, hasExplicitOffsets: bool)
    ensures r == SerializeFields(go, m, subs)
    ensures r.Ok? ==> hasExplicitOffsets == HasExplicitOffsets(subs)
    decreases subs
  {
    var serialized: seq<seq<byte>> := [];
    hasExplicitOffsets := false;
    var i := 0;
    assert subs[0..] == subs;
    assert forall rest: seq<seq<byte>> :: [] + rest == rest;
    while i < |subs|
      invariant 0 <= i <= |subs|
      invariant |serialized| == i
      invariant SerializeFields(go, m, subs) == Prepend(serialized, SerializeFields(go, m, subs[i..]))
      invariant hasExplicitOffsets == HasExplicitOffsets(subs[..i])
    {
      assert subs[i..][0] == subs[i] && subs[i..][1..] == subs[i + 1..];
      if subs[i].name !in m {
        return Err(MissingField(subs[i].name)), hasExplicitOffsets;
      }
      var field := SerializeValue(go, m[subs[i].name], subs[i], false);
      if field.IsFailure() {
        return field.PropagateFailure(), hasExplicitOffsets;
      }
      assert forall rest: seq<seq<byte>> :: serialized + ([field.value] + rest) == (serialized + [field.value]) + rest;
      serialized := serialized + [field.value];
      assert subs[..i + 1] == subs[..i] + [subs[i]];
      if subs[i].offset != 0 {
        hasExplicitOffsets := true;
        assert subs[..i + 1][i].offset != 0;
      } else if hasExplicitOffsets {
        var j :| 0 <= j < i && subs[..i][j].offset != 0;
        assert subs[..i + 1][j].offset != 0;
      }
      i := i + 1;
    }
    assert subs[..i] == subs && serialized + [] == serialized;
    r := Ok(serialized);
  }

  /** Assembles a struct: field after field, or every field at its offset. */
  method LayOut(t: AdsDataType, parts: seq<seq<byte>>, hasExplicitOffsets: bool) returns (r: Encoded)
    requires |t.subItems| == |parts| && hasExplicitOffsets == HasExplicitOffsets(t.subItems)
    ensures r == Layout(t, parts)
  {
    if !hasExplicitOffsets {
      r := LayOutInOrder(t, parts);
    } else {
      r := LayOutByOffset(t, parts);
    }
  }

  method LayOutInOrder(t: AdsDataType, parts: seq<seq<byte>>) returns (r: Encoded)
    requires |t.subItems| == |parts| && !HasExplicitOffsets(t.subItems)
    ensures r == Layout(t, parts)
  {
    var buf := new ByteBuffer();
    var i := 0;
    while i < |parts|
      invariant 0 <= i <= |parts|
      invariant buf.contents + Concat(parts[i..]) == Concat(parts)
    {
      assert parts[i..][1..] == parts[i + 1..];
      buf.Write(parts[i]);
      i := i + 1;
    }
    assert buf.contents == Concat(parts);
    if t.size == 0 {
      return Ok(buf.contents);
    }
    if |buf.contents| > t.size {
      return Err(StructTooSmall(|buf.contents|));
    }
    var result := new byte[t.size](_ => 0);
    CopyInto(result, 0, buf.contents);
    r := Ok(result[..]);
    assert result[..] == Concat(parts) + Zeros(t.size - |Concat(parts)|);
  }

  method LayOutByOffset(t: AdsDataType, parts: seq<seq<byte>>) returns (r: Encoded)
    requires |t.subItems| == |parts| && HasExplicitOffsets(t.subItems)
    ensures r == Layout(t, parts)
  {
    var subs := t.subItems;
    var resultSize: nat := t.size;
    var i := 0;
    if resultSize == 0 {
      while i < |subs|
        invariant 0 <= i <= |subs|
        invariant LargestEnd(subs, parts)
               == if resultSize > LargestEnd(subs[i..], parts[i..]) then resultSize else LargestEnd(subs[i..], parts[i..])
      {
        assert subs[i..][1..] == subs[i + 1..] && parts[i..][1..] == parts[i + 1..];
        var end := subs[i].offset + |parts[i]|;
        if end > resultSize {
          resultSize := end;
        }
        i := i + 1;
      }
    }
    var result := new byte[resultSize](_ => 0);
    assert result[..] == Zeros(resultSize);
    i := 0;
    while i < |subs|
      invariant 0 <= i <= |subs|
      invariant Layout(t, parts) == Place(subs[i..], parts[i..], result[..])
    {
      assert subs[i..][1..] == subs[i + 1..] && parts[i..][1..] == parts[i + 1..];
      var start, end := subs[i].offset, subs[i].offset + |parts[i]|;
      if end > result.Length {
        return Err(StructTooSmall(end));
      }
      CopyInto(result, start, parts[i]);
      i := i + 1;
    }
    r := Ok(result[..]);
  }

  method SerializeValue(go: GoConversions, value: Value, t: AdsDataType, isArrayItem: bool) returns (r: Encoded)
    ensures r == Serialize(go, value, t, isArrayItem)
    decreases t, if isArrayItem then 0 else 2
  {
    if IsStruct(t) {
      if !value.Map? {
        return Err(InvalidStructValue);
      }
      var parts, hasExplicitOffsets := SerializeSubItems(go, value.fields, t.subItems);
      if parts.IsFailure() {
        return parts.PropagateFailure();
      }
      r := LayOut(t, parts.value, hasExplicitOffsets);
    } else if |t.arrayInfo| > 0 && !isArrayItem {
      if !value.Slice? {
        return Err(InvalidArrayValue);
      }
      var buf := new ByteBuffer();
      var done := WriteDimension(go, t, 0, value.elems, buf);
      if done.IsFailure() {
        return done.PropagateFailure();
      }
      r := Ok(buf.contents);
      assert buf.contents == WriteArray(go, t, 0, value.elems, 0).value;
    } else {
      r := EncodePrimitive(go, value, t);
    }
  }

  /** A writer that should give `w` ended with `r` and took the buffer from `before`
      to `after`. */
  predicate Appended(w: Encoded, r: Outcome<(), CodecError>, before: seq<byte>, after: seq<byte>) {
    match w
    case Ok(bytes) => r == Ok(()) && after == before + bytes
    case Err(e) => r == Err(e)
    case Panic => r == Panic
  }

  /** The writeArray closure: appends the elements of one dimension to `buf`. */
  method WriteDimension(go: GoConversions, t: AdsDataType, dim: nat, arr: seq<Value>, buf: ByteBuffer)
    returns (r: Outcome<(), CodecError>)
    requires dim < |t.arrayInfo|
    modifies buf
    ensures Appended(WriteArray(go, t, dim, arr, 0), r, old(buf.contents), buf.contents)
    decreases t, 1, |t.arrayInfo| - dim, 1
  {
    var i := 0;
    ghost var start := buf.contents;
    ghost var whole := WriteArray(go, t, dim, arr, 0);
    ghost var done: seq<byte>, todo := [], whole;
    JoinNone(whole);
    while i < t.arrayInfo[dim].length
      invariant 0 <= i <= t.arrayInfo[dim].length
      invariant buf.contents == start + done
      invariant todo == WriteArray(go, t, dim, arr, i) && whole == Join(done, todo)
    {
      if i >= |arr| {
        return Panic;
      }
      DimensionStep(go, t, dim, arr, i);
      r := WriteIndex(go, t, dim, arr[i], buf);
      if r.IsFailure() {
        return;
      }
      ghost var item := WriteArrayItem(go, t, dim, arr[i]).value;
      todo := WriteArray(go, t, dim, arr, i + 1);
      JoinStep(done, item, todo);
      Regroup(start, done, item);
      done := done + item;
      i := i + 1;
    }
    assert done + [] == done;
    r := Ok(());
  }

  lemma DimensionStep(go: GoConversions, t: AdsDataType, dim: nat, arr: seq<Value>, i: nat)
    requires dim < |t.arrayInfo| && i < t.arrayInfo[dim].length && i < |arr|
    ensures var item := WriteArrayItem(go, t, dim, arr[i]);
      WriteArray(go, t, dim, arr, i)
        == if item.Ok? then Join(item.value, WriteArray(go, t, dim, arr, i + 1)) else item
  {
  }

  lemma JoinNone(w: Encoded)
    ensures Join([], w) == w
  {
    if w.Ok? {
      assert [] + w.value == w.value;
    }
  }

  lemma Regroup(a: seq<byte>, b: seq<byte>, c: seq<byte>)
    ensures (a + b) + c == a + (b + c)
  {
  }

  /** `front` and then what is still to come. */
  function Join(front: seq<byte>, w: Encoded): Encoded {
    match w
    case Ok(bytes) => Ok(front + bytes)
    case Err(e) => Err(e)
    case Panic => Panic
  }

  lemma JoinStep(front: seq<byte>, item: seq<byte>, rest: Encoded)
    ensures Join(front, Join(item, rest)) == Join(front + item, rest)
  {
    if rest.Ok? {
      assert front + (item + rest.value) == (front + item) + rest.value;
    }
  }

  /** The body of the closure's loop: a nested dimension, or an element. */
  method WriteIndex(go: GoConversions, t: AdsDataType, dim: nat, item: Value, buf: ByteBuffer)
    returns (r: Outcome<(), CodecError>)
    requires dim < |t.arrayInfo|
    modifies buf
    ensures Appended(WriteArrayItem(go, t, dim, item), r, old(buf.contents), buf.contents)
    decreases t, 1, |t.arrayInfo| - dim, 0
  {
    if dim + 1 < |t.arrayInfo| {
      if !item.Slice? {
        return Err(InvalidNestedArray);
      }
      r := WriteDimension(go, t, dim + 1, item.elems, buf);
    } else {
      var element := SerializeValue(go, item, t, true);
      if element.IsFailure() {
        return element.PropagateFailure();
      }
      buf.Write(element.value);
      r := Ok(());
    }
  }

  method DeserializeValue(data: seq<byte>, t: AdsDataType, isArrayItem: bool) returns (r: Decoded)
    ensures r == Deserialize(data, t, isArrayItem)
    decreases t, if isArrayItem then 0 else 2
  {
    if (|t.arrayInfo| == 0 || isArrayItem) && |t.subItems| > 0 {
      if t.offset > |data| {
        return Panic;
      }
      var here := data[t.offset..];
      var result: map<GoString, Value> := map[];
      var i := 0;
      while i < |t.subItems|
        invariant 0 <= i <= |t.subItems|
        invariant DeserializeFields(here, t.subItems, map[]) == DeserializeFields(here, t.subItems[i..], result)
      {
        assert t.subItems[i..][1..] == t.subItems[i + 1..];
        var value := DeserializeValue(here, t.subItems[i], false);
        if value.IsFailure() {
          return value;
        }
        result := result[t.subItems[i].name := value.value];
        i := i + 1;
      }
      r := Ok(Map(result));
    } else if |t.arrayInfo| > 0 && !isArrayItem {
      var reader := new ArrayReader(data, t);
      var elems := reader.ConvertDimension(0);
      if elems.IsFailure() {
        return elems.PropagateFailure();
      }
      r := Ok(Slice(elems.value));
    } else if t.offset > |data| {
      r := Panic;
    } else {
      r := DecodePrimitive(data[t.offset..], t.code);
    }
  }

  /** The convertArrayDimension closure and the position it shares over all
      dimensions. */
  class ArrayReader {
    const data: seq<byte>
    const dataType: AdsDataType
    var dataPos: nat

    constructor (data: seq<byte>, dataType: AdsDataType)
      ensures this.data == data && this.dataType == dataType && dataPos == 0
    {
      this.data := data;
      this.dataType := dataType;
      dataPos := 0;
    }

    method ConvertDimension(dim: nat) returns (temp: Outcome<seq<Value>, CodecError>)
      requires dim < |dataType.arrayInfo|
      modifies this
      ensures match ReadArray(data, dataType, dim, old(dataPos), 0)
        case Ok((values, end)) => temp == Ok(values) && dataPos == end
        case Panic => temp == Panic
      decreases dataType, 1, |dataType.arrayInfo| - dim
    {
      var info := dataType.arrayInfo;
      var values: seq<Value> := [];
      var i := 0;
      ghost var whole := ReadArray(data, dataType, dim, dataPos, 0);
      assert whole.Ok? ==> [] + whole.value.0 == whole.value.0;
      while i < info[dim].length
        invariant 0 <= i <= info[dim].length && |values| == i
        invariant var rest := ReadArray(data, dataType, dim, dataPos, i);
          && whole.Ok? == rest.Ok?
          && (whole.Ok? ==> whole.value == (values + rest.value.0, rest.value.1))
      {
        ghost var before := values;
        if dim + 1 < |info| {
          // Nested dimension: the position moves inside the recursive call.
          var nested := ConvertDimension(dim + 1);
          if nested.IsFailure() {
            return nested;
          }
          values := values + [Slice(nested.value)];
        } else {
          if dataPos > |data| {
            return Panic;
          }
          var value := DeserializeValue(data[dataPos..], dataType, true);
          if value.Panic? {
            return Panic;
          }
          values := values + [if value.Ok? then value.value else Nil];
          dataPos := dataPos + dataType.size;
        }
        assert forall rest: seq<Value> :: before + ([values[i]] + rest) == values + rest;
        i := i + 1;
      }
      assert values + [] == values;
      temp := Ok(values);
    }
  }
}
