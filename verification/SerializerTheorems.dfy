/** What an encoding looks like, and that Deserialize undoes Serialize. */
module SerializerTheorems {
  import opened Bytes
  import opened Outcomes
  import opened AdsTypes
  import opened Serializer

  // ---------------------------------------------------------------- Lengths

  /** Bytes of one index of dimension `dim` when an element takes `w`. */
  function ItemBytes(info: seq<ArrayInfo>, dim: nat, w: nat): nat
    requires dim < |info|
    decreases |info| - dim
  {
    if dim + 1 < |info| then info[dim + 1].length * ItemBytes(info, dim + 1, w) else w
  }

  lemma MulAssoc(a: int, b: int, c: int)
    ensures a * (b * c) == (a * b) * c
  {
  }

  lemma MulStep(n: int, w: int)
    ensures n * w == w + (n - 1) * w
  {
  }

  lemma ProductStep(info: seq<ArrayInfo>, dim: nat)
    requires dim < |info|
    ensures Product(info[dim..]) == info[dim].length * Stride(info, dim)
  {
    assert info[dim..][1..] == info[dim + 1..];
  }

  /** The bytes of one index are its elements times their width. */
  lemma {:induction false} ItemBytesIsStride(info: seq<ArrayInfo>, dim: nat, w: nat)
    requires dim < |info|
    ensures ItemBytes(info, dim, w) == Stride(info, dim) * w
    decreases |info| - dim
  {
    if dim + 1 < |info| {
      ItemBytesIsStride(info, dim + 1, w);
      ProductStep(info, dim + 1);
      MulAssoc(info[dim + 1].length, Stride(info, dim + 1), w);
    } else {
      assert info[dim + 1..] == [];
    }
  }

  lemma ArrayByteSize(t: AdsDataType)
    requires |t.arrayInfo| > 0
    ensures ByteSize(t) == t.arrayInfo[0].length * ItemBytes(t.arrayInfo, 0, ElementWidth(t))
  {
    ItemBytesIsStride(t.arrayInfo, 0, ElementWidth(t));
    ProductStep(t.arrayInfo, 0);
    assert t.arrayInfo[0..] == t.arrayInfo;
    MulAssoc(t.arrayInfo[0].length, Stride(t.arrayInfo, 0), ElementWidth(t));
  }

  /** Every successful encoding of a type takes the bytes its layout says. */
  lemma {:induction false} SerializedLength(go: GoConversions, v: Value, t: AdsDataType)
    requires Serialize(go, v, t, false).Ok?
    ensures |Serialize(go, v, t, false).value| == ByteSize(t)
    decreases t, 2
  {
    if IsStruct(t) {
      var parts := SerializeFields(go, v.fields, t.subItems).value;
      FieldLengths(go, v.fields, t.subItems);
      LayoutLength(t, parts);
    } else if |t.arrayInfo| > 0 {
      ArrayLength(go, t, 0, v.elems, 0);
      ArrayByteSize(t);
    }
  }

  lemma LayoutLength(t: AdsDataType, parts: seq<seq<byte>>)
    requires IsStruct(t) && Sized(t.subItems, parts) && Layout(t, parts).Ok?
    ensures |Layout(t, parts).value| == ByteSize(t)
  {
    ConcatLength(t.subItems, parts);
    LargestEndIsMaxEnd(t.subItems, parts);
  }

  lemma {:induction false} FieldLengths(go: GoConversions, m: map<GoString, Value>, subs: seq<AdsDataType>)
    requires SerializeFields(go, m, subs).Ok?
    ensures Sized(subs, SerializeFields(go, m, subs).value)
    ensures var parts := SerializeFields(go, m, subs).value;
      forall i :: 0 <= i < |subs| ==>
        subs[i].name in m && Serialize(go, m[subs[i].name], subs[i], false) == Ok(parts[i])
    decreases subs
  {
    if subs != [] {
      SerializedLength(go, m[subs[0].name], subs[0]);
      FieldLengths(go, m, subs[1..]);
      var parts := SerializeFields(go, m, subs).value;
      var rest := SerializeFields(go, m, subs[1..]).value;
      forall i | 0 <= i < |subs|
        ensures subs[i].name in m && Serialize(go, m[subs[i].name], subs[i], false) == Ok(parts[i])
        ensures |parts[i]| == ByteSize(subs[i])
      {
        if i > 0 {
          assert subs[i] == subs[1..][i - 1] && parts[i] == rest[i - 1];
        }
      }
    }
  }

  lemma {:induction false} ArrayLength(go: GoConversions, t: AdsDataType, dim: nat, arr: seq<Value>, i: nat)
    requires dim < |t.arrayInfo| && i <= t.arrayInfo[dim].length
    requires WriteArray(go, t, dim, arr, i).Ok?
    ensures |WriteArray(go, t, dim, arr, i).value|
         == (t.arrayInfo[dim].length - i) * ItemBytes(t.arrayInfo, dim, ElementWidth(t))
    decreases t, 1, |t.arrayInfo| - dim, t.arrayInfo[dim].length - i
  {
    if i < t.arrayInfo[dim].length {
      var left, w := t.arrayInfo[dim].length - i, ItemBytes(t.arrayInfo, dim, ElementWidth(t));
      ArrayItemLength(go, t, dim, arr[i]);
      ArrayLength(go, t, dim, arr, i + 1);
      var (item, rest) := (WriteArrayItem(go, t, dim, arr[i]).value, WriteArray(go, t, dim, arr, i + 1).value);
      assert WriteArray(go, t, dim, arr, i).value == item + rest;
      assert |item + rest| == w + (left - 1) * w;
      MulStep(left, w);
    }
  }

  lemma {:induction false} ArrayItemLength(go: GoConversions, t: AdsDataType, dim: nat, item: Value)
    requires dim < |t.arrayInfo|
    requires WriteArrayItem(go, t, dim, item).Ok?
    ensures |WriteArrayItem(go, t, dim, item).value| == ItemBytes(t.arrayInfo, dim, ElementWidth(t))
    decreases t, 1, |t.arrayInfo| - dim, 0
  {
    if dim + 1 < |t.arrayInfo| {
      ArrayLength(go, t, dim + 1, item.elems, 0);
    }
  }

  lemma {:induction false} ConcatLength(subs: seq<AdsDataType>, parts: seq<seq<byte>>)
    requires Sized(subs, parts)
    ensures |Concat(parts)| == SumSizes(subs)
  {
    if subs != [] {
      ConcatLength(subs[1..], parts[1..]);
    }
  }

  lemma {:induction false} LargestEndIsMaxEnd(subs: seq<AdsDataType>, parts: seq<seq<byte>>)
    requires Sized(subs, parts)
    ensures LargestEnd(subs, parts) == MaxEnd(subs)
  {
    if subs != [] {
      LargestEndIsMaxEnd(subs[1..], parts[1..]);
    }
  }

  // ---------------------------------------------------------- Struct layout

  /** Fields share no byte. A field without bytes is disjoint from everything. */
  predicate Disjoint(a: AdsDataType, b: AdsDataType) {
    || ByteSize(a) == 0 || ByteSize(b) == 0
    || a.offset + ByteSize(a) <= b.offset
    || b.offset + ByteSize(b) <= a.offset
  }

  predicate DisjointFields(subs: seq<AdsDataType>) {
    forall i, j :: 0 <= i < j < |subs| ==> Disjoint(subs[i], subs[j])
  }

  predicate DistinctNames(subs: seq<AdsDataType>) {
    forall i, j :: 0 <= i < j < |subs| ==> subs[i].name != subs[j].name
  }

  /** `k` lies in the bytes of a field. */
  predicate Covers(f: AdsDataType, k: nat) {
    f.offset <= k < f.offset + ByteSize(f)
  }

  predicate Sized(subs: seq<AdsDataType>, parts: seq<seq<byte>>) {
    |subs| == |parts| && forall i :: 0 <= i < |subs| ==> |parts[i]| == ByteSize(subs[i])
  }

  /** Placing fields leaves every byte alone that none of them covers. */
  lemma {:induction false} PlaceFrame(subs: seq<AdsDataType>, parts: seq<seq<byte>>, img: seq<byte>, k: nat)
    requires Sized(subs, parts) && Place(subs, parts, img).Ok? && k < |img|
    requires forall i :: 0 <= i < |subs| ==> !Covers(subs[i], k)
    ensures Place(subs, parts, img).value[k] == img[k]
  {
    if subs != [] {
      assert !Covers(subs[0], k);
      PlaceFrame(subs[1..], parts[1..], Blit(img, subs[0].offset, parts[0]), k);
    }
  }

  /** Disjoint fields all end up at their offsets. */
  lemma {:induction false} PlaceHolds(subs: seq<AdsDataType>, parts: seq<seq<byte>>, img: seq<byte>, i: nat)
    requires Sized(subs, parts) && Place(subs, parts, img).Ok? && i < |subs|
    requires DisjointFields(subs)
    ensures HoldsAt(Place(subs, parts, img).value, subs[i].offset, parts[i])
  {
    var img' := Blit(img, subs[0].offset, parts[0]);
    if i > 0 {
      PlaceHolds(subs[1..], parts[1..], img', i - 1);
    } else {
      var r := Place(subs, parts, img).value;
      forall k | subs[0].offset <= k < subs[0].offset + |parts[0]|
        ensures r[k] == img'[k]
      {
        forall j | 0 <= j < |subs[1..]| ensures !Covers(subs[1..][j], k) {
          assert Disjoint(subs[0], subs[j + 1]);
        }
        PlaceFrame(subs[1..], parts[1..], img', k);
      }
      assert r[subs[0].offset..subs[0].offset + |parts[0]|] == img'[subs[0].offset..subs[0].offset + |parts[0]|];
    }
  }

  /** Without offsets only one of the disjoint fields has bytes, so the
      sequential form puts every field at offset 0 too. */
  lemma {:induction false} ConcatHolds(subs: seq<AdsDataType>, parts: seq<seq<byte>>, i: nat)
    requires Sized(subs, parts) && i < |subs|
    requires DisjointFields(subs) && !HasExplicitOffsets(subs)
    ensures HoldsAt(Concat(parts), 0, parts[i])
  {
    if i > 0 {
      assert !HasExplicitOffsets(subs[1..]);
      ConcatHolds(subs[1..], parts[1..], i - 1);
      assert Disjoint(subs[0], subs[i]) && subs[0].offset == 0 && subs[i].offset == 0;
      assert parts[0] == [] || parts[i] == [];
      if parts[0] == [] {
        assert Concat(parts) == Concat(parts[1..]);
      }
    }
  }

  /** An image that Layout builds carries every field at its offset. */
  lemma LayoutHolds(t: AdsDataType, parts: seq<seq<byte>>, i: nat)
    requires Sized(t.subItems, parts) && i < |t.subItems|
    requires DisjointFields(t.subItems) && Layout(t, parts).Ok?
    ensures HoldsAt(Layout(t, parts).value, t.subItems[i].offset, parts[i])
  {
    if HasExplicitOffsets(t.subItems) {
      var n := if t.size == 0 then LargestEnd(t.subItems, parts) else t.size;
      PlaceHolds(t.subItems, parts, Zeros(n), i);
    } else {
      ConcatHolds(t.subItems, parts, i);
      assert t.subItems[i].offset == 0;
      var all, r := Concat(parts), Layout(t, parts).value;
      assert r[..|parts[i]|] == all[..|parts[i]|];
    }
  }

  // -------------------------------------------------------- Typed round trip

  /** Types that can make the round trip: fields with distinct names that share no
      byte, and arrays of elements whose declared size is their width. */
  predicate WellFormed(t: AdsDataType) {
    if |t.subItems| > 0 then
      && |t.arrayInfo| == 0
      && DistinctNames(t.subItems)
      && DisjointFields(t.subItems)
      && forall i :: 0 <= i < |t.subItems| ==> WellFormed(t.subItems[i])
    else
      && t.code != ADST_WSTRING
      && (|t.arrayInfo| > 0 ==> t.size == ElementWidth(t))
  }

  /** Every STRING in the value is free of zero bytes and leaves room for one. */
  predicate Fits(v: Value, t: AdsDataType)
    decreases t, 2
  {
    if IsStruct(t) then v.Map? ==> FieldsFit(v.fields, t.subItems)
    else if |t.arrayInfo| > 0 then v.Slice? ==> ItemsFit(v.elems, t, 0)
    else StringFits(v, t)
  }

  predicate StringFits(v: Value, t: AdsDataType) {
    t.code == ADST_STRING && v.Str? ==> 0 !in v.s && |v.s| < StringWidth(t)
  }

  predicate FieldsFit(m: map<GoString, Value>, subs: seq<AdsDataType>)
    decreases subs
  {
    subs == [] || ((subs[0].name in m ==> Fits(m[subs[0].name], subs[0])) && FieldsFit(m, subs[1..]))
  }

  predicate ItemsFit(arr: seq<Value>, t: AdsDataType, dim: nat)
    requires dim < |t.arrayInfo|
    decreases t, 1, |t.arrayInfo| - dim
  {
    forall i :: 0 <= i < |arr| ==> ItemFits(arr[i], t, dim)
  }

  predicate ItemFits(item: Value, t: AdsDataType, dim: nat)
    requires dim < |t.arrayInfo|
    decreases t, 1, |t.arrayInfo| - dim, 0
  {
    if dim + 1 < |t.arrayInfo| then item.Slice? ==> ItemsFit(item.elems, t, dim + 1)
    else StringFits(item, t)
  }

  /** The value that a reader gets: numbers in the Go type of the PLC type with the
      same mathematical value, BIT as a boolean, surplus keys and elements gone. */
  function Canonical(go: GoConversions, v: Value, t: AdsDataType): Value
    decreases t, 2
  {
    if IsStruct(t) then
      if v.Map? then Map(CanonicalFields(go, v.fields, t.subItems)) else Nil
    else if |t.arrayInfo| > 0 then
      if v.Slice? then Slice(CanonicalItems(go, v.elems, t, 0, 0)) else Nil
    else CanonicalPrimitive(go, v, t)
  }

  function CanonicalPrimitive(go: GoConversions, v: Value, t: AdsDataType): Value {
    if t.code == ADST_VOID then Nil
    else if t.code == ADST_BIT then Bool(v == Bool(true) || v == Int(1))
    else if SignedWidth(t.code) > 0 then
      match ToSigned(v, SignedWidth(t.code))
      case Some(i) => SignedValue(t.code, i)
      case None => Nil
    else if UnsignedWidth(t.code) > 0 then
      match ToUnsigned(v, UnsignedWidth(t.code))
      case Some(n) => UnsignedValue(t.code, n)
      case None => Nil
    else if t.code == ADST_REAL32 && ToFloat32(go, v).Some? then Float32(ToFloat32(go, v).value)
    else if t.code == ADST_REAL64 && ToFloat64(go, v).Some? then Float64(ToFloat64(go, v).value)
    else v
  }

  function CanonicalFields(go: GoConversions, m: map<GoString, Value>, subs: seq<AdsDataType>): map<GoString, Value>
    decreases subs
  {
    if subs == [] then map[]
    else
      var rest := CanonicalFields(go, m, subs[1..]);
      if subs[0].name in m then rest[subs[0].name := Canonical(go, m[subs[0].name], subs[0])] else rest
  }

  function CanonicalItems(go: GoConversions, arr: seq<Value>, t: AdsDataType, dim: nat, i: nat): seq<Value>
    requires dim < |t.arrayInfo| && i <= t.arrayInfo[dim].length
    decreases t, 1, |t.arrayInfo| - dim, t.arrayInfo[dim].length - i
  {
    if i >= t.arrayInfo[dim].length || i >= |arr| then []
    else [CanonicalItem(go, arr[i], t, dim)] + CanonicalItems(go, arr, t, dim, i + 1)
  }

  function CanonicalItem(go: GoConversions, item: Value, t: AdsDataType, dim: nat): Value
    requires dim < |t.arrayInfo|
    decreases t, 1, |t.arrayInfo| - dim, 0
  {
    if dim + 1 < |t.arrayInfo| then
      if item.Slice? then Slice(CanonicalItems(go, item.elems, t, dim + 1, 0)) else Nil
    else CanonicalPrimitive(go, item, t)
  }

  lemma {:induction false} ReadStringStopsAtZero(s: GoString, rest: seq<byte>)
    requires 0 !in s
    ensures ReadString(s + [0] + rest) == s
  {
    if s == [] {
      assert s + [0] + rest == [0] + rest;
    } else {
      assert s[0] in s;
      assert (s + [0] + rest)[1..] == s[1..] + [0] + rest;
      ReadStringStopsAtZero(s[1..], rest);
    }
  }

  /** A primitive read from the front of a buffer that starts with its encoding. */
  lemma PrimitiveRoundTrip(go: GoConversions, v: Value, t: AdsDataType, data: seq<byte>)
    requires EncodePrimitive(go, v, t).Ok? && HoldsAt(data, 0, EncodePrimitive(go, v, t).value)
    requires StringFits(v, t) && t.code != ADST_WSTRING
    ensures DecodePrimitive(data, t.code) == Ok(CanonicalPrimitive(go, v, t))
  {
    Pow256Values();
    var bytes := EncodePrimitive(go, v, t).value;
    if SignedWidth(t.code) > 0 {
      var w := SignedWidth(t.code);
      LERoundTrip(TwosComplement(ToSigned(v, w).value, w), w);
    } else if UnsignedWidth(t.code) > 0 {
      LERoundTrip(ToUnsigned(v, UnsignedWidth(t.code)).value, UnsignedWidth(t.code));
    } else if t.code == ADST_REAL32 {
      LERoundTrip(ToFloat32(go, v).value, 4);
    } else if t.code == ADST_REAL64 {
      LERoundTrip(ToFloat64(go, v).value, 8);
    } else if t.code == ADST_STRING {
      assert data == (v.s + Zeros(StringWidth(t) - |v.s|)) + data[|bytes|..];
      PaddedStringRead(v.s, Zeros(StringWidth(t) - |v.s|), data[|bytes|..]);
    }
  }

  lemma PaddedStringRead(text: GoString, pad: seq<byte>, rest: seq<byte>)
    requires 0 !in text && |pad| > 0 && pad[0] == 0
    ensures ReadString((text + pad) + rest) == text
  {
    assert (text + pad) + rest == text + [0] + (pad[1..] + rest);
    ReadStringStopsAtZero(text, pad[1..] + rest);
  }

  /** Deserialize undoes Serialize: in any buffer that carries the encoding at the
      type's own offset it finds the canonical form of the value. */
  lemma {:induction false} RoundTrip(go: GoConversions, v: Value, t: AdsDataType, data: seq<byte>)
    requires WellFormed(t) && Fits(v, t)
    requires Serialize(go, v, t, false).Ok?
    requires HoldsAt(data, t.offset, Serialize(go, v, t, false).value)
    ensures Deserialize(data, t, false) == Ok(Canonical(go, v, t))
    decreases t, 2
  {
    var bytes := Serialize(go, v, t, false).value;
    var here := data[t.offset..];
    assert here[..|bytes|] == bytes;
    if IsStruct(t) {
      var parts := SerializeFields(go, v.fields, t.subItems).value;
      FieldLengths(go, v.fields, t.subItems);
      forall i | 0 <= i < |t.subItems|
        ensures HoldsAt(here, t.subItems[i].offset, parts[i])
      {
        LayoutHolds(t, parts, i);
        HoldsAtNested(data, t.offset, bytes, t.subItems[i].offset, parts[i]);
      }
      FieldsRoundTrip(go, v.fields, t.subItems, parts, here, map[]);
      assert map[] + CanonicalFields(go, v.fields, t.subItems) == CanonicalFields(go, v.fields, t.subItems);
    } else if |t.arrayInfo| > 0 {
      ArrayRoundTrip(go, t, 0, v.elems, 0, data, 0);
    } else {
      PrimitiveRoundTrip(go, v, t, here);
    }
  }

  lemma {:induction false} FieldsRoundTrip(go: GoConversions, m: map<GoString, Value>, subs: seq<AdsDataType>,
                                           parts: seq<seq<byte>>, data: seq<byte>, acc: map<GoString, Value>)
    requires SerializeFields(go, m, subs) == Ok(parts)
    requires FieldsFit(m, subs) && DistinctNames(subs)
    requires forall i :: 0 <= i < |subs| ==> WellFormed(subs[i])
    requires forall i :: 0 <= i < |subs| ==> HoldsAt(data, subs[i].offset, parts[i])
    ensures DeserializeFields(data, subs, acc) == Ok(acc + CanonicalFields(go, m, subs))
    decreases subs
  {
    if subs == [] {
      assert acc + map[] == acc;
    } else {
      assert HoldsAt(data, subs[0].offset, parts[0]);
      RoundTrip(go, m[subs[0].name], subs[0], data);
      var acc' := acc[subs[0].name := Canonical(go, m[subs[0].name], subs[0])];
      FieldsRoundTrip(go, m, subs[1..], parts[1..], data, acc');
      CanonicalKeys(go, m, subs[1..], subs[0].name);
      assert acc' + CanonicalFields(go, m, subs[1..]) == acc + CanonicalFields(go, m, subs);
    }
  }

  /** Canonical fields carry the names of the fields only. */
  lemma {:induction false} CanonicalKeys(go: GoConversions, m: map<GoString, Value>, subs: seq<AdsDataType>,
                                         n: GoString)
    requires forall i :: 0 <= i < |subs| ==> subs[i].name != n
    ensures n !in CanonicalFields(go, m, subs)
  {
    if subs != [] {
      CanonicalKeys(go, m, subs[1..], n);
    }
  }

  /** The bytes of the array start at the offset after `pos`, and reading advances
      exactly over them. */
  lemma {:induction false} ArrayRoundTrip(go: GoConversions, t: AdsDataType, dim: nat, arr: seq<Value>, i: nat,
                                          data: seq<byte>, pos: nat)
    requires dim < |t.arrayInfo| && i <= t.arrayInfo[dim].length
    requires t.subItems == [] && WellFormed(t) && ItemsFit(arr, t, dim)
    requires WriteArray(go, t, dim, arr, i).Ok?
    requires HoldsAt(data, t.offset + pos, WriteArray(go, t, dim, arr, i).value)
    ensures ReadArray(data, t, dim, pos, i)
         == Ok((CanonicalItems(go, arr, t, dim, i), pos + |WriteArray(go, t, dim, arr, i).value|))
    decreases t, 1, |t.arrayInfo| - dim, t.arrayInfo[dim].length - i
  {
    if i < t.arrayInfo[dim].length {
      var first := WriteArrayItem(go, t, dim, arr[i]).value;
      var rest := WriteArray(go, t, dim, arr, i + 1).value;
      HoldsAtSplit(data, t.offset + pos, first, rest);
      ArrayItemRoundTrip(go, t, dim, arr[i], data, pos);
      ArrayRoundTrip(go, t, dim, arr, i + 1, data, pos + |first|);
    }
  }

  lemma {:induction false} ArrayItemRoundTrip(go: GoConversions, t: AdsDataType, dim: nat, item: Value,
                                              data: seq<byte>, pos: nat)
    requires dim < |t.arrayInfo|
    requires t.subItems == [] && WellFormed(t) && ItemFits(item, t, dim)
    requires WriteArrayItem(go, t, dim, item).Ok?
    requires HoldsAt(data, t.offset + pos, WriteArrayItem(go, t, dim, item).value)
    ensures ReadArrayItem(data, t, dim, pos)
         == Ok((CanonicalItem(go, item, t, dim), pos + |WriteArrayItem(go, t, dim, item).value|))
    decreases t, 1, |t.arrayInfo| - dim, 0
  {
    if dim + 1 < |t.arrayInfo| {
      ArrayRoundTrip(go, t, dim + 1, item.elems, 0, data, pos);
    } else {
      assert WriteArrayItem(go, t, dim, item) == Serialize(go, item, t, true) == EncodePrimitive(go, item, t);
      ElementRoundTrip(go, t, item, data, pos);
    }
  }

  lemma ElementRoundTrip(go: GoConversions, t: AdsDataType, item: Value, data: seq<byte>, pos: nat)
    requires t.subItems == [] && t.code != ADST_WSTRING && StringFits(item, t)
    requires EncodePrimitive(go, item, t).Ok?
    requires HoldsAt(data, t.offset + pos, EncodePrimitive(go, item, t).value)
    ensures pos <= |data| && Deserialize(data[pos..], t, true) == Ok(CanonicalPrimitive(go, item, t))
  {
    HoldsAtDrop(data, pos, t.offset, EncodePrimitive(go, item, t).value);
    PrimitiveRoundTrip(go, item, t, data[pos..][t.offset..]);
  }
}
