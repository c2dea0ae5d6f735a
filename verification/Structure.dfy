/** Exactly which values of structs and arrays encode, to which bytes, and what any bytes
    are decoded to, struct by struct and element by element. */
module Structure {
  import opened Bytes
  import opened Outcomes
  import opened AdsTypes
  import opened Serializer
  import opened SerializerTheorems
  import opened ImageTheorems
  import Primitives

  // ------------------------------------------------------- Which values encode

  /** A map with an encodable value for each field, in a struct that has room for them; a
      slice with enough encodable items; or a value that the primitive takes. */
  predicate Encodes(v: Value, t: AdsDataType)
    decreases t, 2
  {
    if IsStruct(t) then v.Map? && FieldsEncodable(v.fields, t.subItems) && HasRoom(t)
    else if |t.arrayInfo| > 0 then v.Slice? && ItemsEncodable(v.elems, t, 0, 0)
    else Primitives.Accepts(v, t.code)
  }

  predicate FieldsEncodable(m: map<GoString, Value>, subs: seq<AdsDataType>)
    decreases subs
  {
    subs != [] ==> subs[0].name in m && Encodes(m[subs[0].name], subs[0]) && FieldsEncodable(m, subs[1..])
  }

  /** A declared size is at least the sum of the fields, or, when there are offsets, the
      end of each. */
  predicate HasRoom(t: AdsDataType) {
    t.size != 0 ==>
      if HasExplicitOffsets(t.subItems)
      then forall i :: 0 <= i < |t.subItems| ==> t.subItems[i].offset + ByteSize(t.subItems[i]) <= t.size
      else SumSizes(t.subItems) <= t.size
  }

  /** Items from `i` on; more than the dimension has are never looked at. */
  predicate ItemsEncodable(arr: seq<Value>, t: AdsDataType, dim: nat, i: nat)
    requires dim < |t.arrayInfo| && i <= t.arrayInfo[dim].length
    decreases t, 1, |t.arrayInfo| - dim, t.arrayInfo[dim].length - i
  {
    i < t.arrayInfo[dim].length ==>
      i < |arr| && ItemEncodable(arr[i], t, dim) && ItemsEncodable(arr, t, dim, i + 1)
  }

  predicate ItemEncodable(item: Value, t: AdsDataType, dim: nat)
    requires dim < |t.arrayInfo|
    decreases t, 1, |t.arrayInfo| - dim, 0
  {
    if dim + 1 < |t.arrayInfo| then item.Slice? && ItemsEncodable(item.elems, t, dim + 1, 0)
    else Primitives.Accepts(item, t.code)
  }

  /** Exactly these values encode. */
  lemma {:induction false} SerializesIff(go: GoConversions, v: Value, t: AdsDataType)
    ensures Serialize(go, v, t, false).Ok? <==> Encodes(v, t)
    decreases t, 2
  {
    if IsStruct(t) {
      if v.Map? {
        FieldsSerializeIff(go, v.fields, t.subItems);
        if SerializeFields(go, v.fields, t.subItems).Ok? {
          FieldLengths(go, v.fields, t.subItems);
          LayoutIff(t, SerializeFields(go, v.fields, t.subItems).value);
        }
      }
    } else if |t.arrayInfo| > 0 {
      if v.Slice? {
        ItemsSerializeIff(go, v.elems, t, 0, 0);
      }
    } else {
      Primitives.EncodesIff(go, v, t);
    }
  }

  lemma {:induction false} FieldsSerializeIff(go: GoConversions, m: map<GoString, Value>, subs: seq<AdsDataType>)
    ensures SerializeFields(go, m, subs).Ok? <==> FieldsEncodable(m, subs)
    decreases subs
  {
    if subs != [] && subs[0].name in m {
      SerializesIff(go, m[subs[0].name], subs[0]);
      FieldsSerializeIff(go, m, subs[1..]);
    }
  }

  lemma {:induction false} ItemsSerializeIff(go: GoConversions, arr: seq<Value>, t: AdsDataType, dim: nat, i: nat)
    requires dim < |t.arrayInfo| && i <= t.arrayInfo[dim].length
    ensures WriteArray(go, t, dim, arr, i).Ok? <==> ItemsEncodable(arr, t, dim, i)
    decreases t, 1, |t.arrayInfo| - dim, t.arrayInfo[dim].length - i
  {
    if i < t.arrayInfo[dim].length && i < |arr| {
      ItemSerializesIff(go, arr[i], t, dim);
      ItemsSerializeIff(go, arr, t, dim, i + 1);
    }
  }

  lemma {:induction false} ItemSerializesIff(go: GoConversions, item: Value, t: AdsDataType, dim: nat)
    requires dim < |t.arrayInfo|
    ensures WriteArrayItem(go, t, dim, item).Ok? <==> ItemEncodable(item, t, dim)
    decreases t, 1, |t.arrayInfo| - dim, 0
  {
    if dim + 1 < |t.arrayInfo| {
      if item.Slice? {
        ItemsSerializeIff(go, item.elems, t, dim + 1, 0);
      }
    } else {
      Primitives.EncodesIff(go, item, t);
      assert Serialize(go, item, t, true) == EncodePrimitive(go, item, t);
    }
  }

  lemma LayoutIff(t: AdsDataType, parts: seq<seq<byte>>)
    requires IsStruct(t) && Sized(t.subItems, parts)
    ensures Layout(t, parts).Ok? <==> HasRoom(t)
  {
    ConcatLength(t.subItems, parts);
    if HasExplicitOffsets(t.subItems) {
      var n := if t.size == 0 then LargestEnd(t.subItems, parts) else t.size;
      PlaceIff(t.subItems, parts, Zeros(n));
      LargestEndHolds(t.subItems, parts);
      assert t.size != 0 ==> (HasRoom(t) <==> EndsWithin(t.subItems, t.size));
    }
  }

  predicate EndsWithin(subs: seq<AdsDataType>, n: nat) {
    forall i :: 0 <= i < |subs| ==> subs[i].offset + ByteSize(subs[i]) <= n
  }

  lemma {:induction false} PlaceIff(subs: seq<AdsDataType>, parts: seq<seq<byte>>, img: seq<byte>)
    requires Sized(subs, parts)
    ensures Place(subs, parts, img).Ok? <==> EndsWithin(subs, |img|)
  {
    if subs != [] {
      var end := subs[0].offset + |parts[0]|;
      if end <= |img| {
        PlaceIff(subs[1..], parts[1..], Blit(img, subs[0].offset, parts[0]));
        EndsWithinCons(subs, |img|);
      }
    }
  }

  lemma EndsWithinCons(subs: seq<AdsDataType>, n: nat)
    requires subs != []
    ensures EndsWithin(subs, n) <==> subs[0].offset + ByteSize(subs[0]) <= n && EndsWithin(subs[1..], n)
  {
    if subs[0].offset + ByteSize(subs[0]) <= n && EndsWithin(subs[1..], n) {
      forall i | 0 <= i < |subs| ensures subs[i].offset + ByteSize(subs[i]) <= n {
        assert i > 0 ==> subs[i] == subs[1..][i - 1];
      }
    }
  }

  lemma {:induction false} LargestEndHolds(subs: seq<AdsDataType>, parts: seq<seq<byte>>)
    requires Sized(subs, parts)
    ensures EndsWithin(subs, LargestEnd(subs, parts))
  {
    if subs != [] {
      LargestEndHolds(subs[1..], parts[1..]);
      EndsWithinCons(subs, LargestEnd(subs, parts));
    }
  }

  /** The fields are encoded in order, and the first that is missing or does not encode
      decides the error. */
  lemma {:induction false} FirstBadField(go: GoConversions, m: map<GoString, Value>, subs: seq<AdsDataType>, i: nat)
    requires i < |subs|
    requires forall j :: 0 <= j < i ==> subs[j].name in m && Serialize(go, m[subs[j].name], subs[j], false).Ok?
    ensures var r := SerializeFields(go, m, subs);
      if subs[i].name !in m then r == Err(MissingField(subs[i].name))
      else
        var e := Serialize(go, m[subs[i].name], subs[i], false);
        (e.Err? ==> r == Err(e.error)) && (e.Panic? ==> r.Panic?)
  {
    if i > 0 {
      assert subs[0].name in m && Serialize(go, m[subs[0].name], subs[0], false).Ok?;
      forall j | 0 <= j < i - 1
        ensures subs[1..][j].name in m && Serialize(go, m[subs[1..][j].name], subs[1..][j], false).Ok?
      {
        assert subs[1..][j] == subs[j + 1];
      }
      FirstBadField(go, m, subs[1..], i - 1);
    }
  }

  // ----------------------------------------------------------- To which bytes

  /** The last field that covers the byte, if any does. */
  function LastCover(subs: seq<AdsDataType>, k: nat): (r: Option<nat>)
    ensures r.Some? ==> r.value < |subs| && Covers(subs[r.value], k)
    ensures r.Some? ==> forall j :: r.value < j < |subs| ==> !Covers(subs[j], k)
    ensures r.None? ==> forall j :: 0 <= j < |subs| ==> !Covers(subs[j], k)
  {
    if subs == [] then None
    else if Covers(subs[|subs| - 1], k) then Some(|subs| - 1)
    else LastCover(subs[..|subs| - 1], k)
  }

  /** Fields that overlap overwrite each other in the order of their declaration. */
  lemma {:induction false} PlacedByte(subs: seq<AdsDataType>, parts: seq<seq<byte>>, img: seq<byte>, k: nat)
    requires Sized(subs, parts) && Place(subs, parts, img).Ok? && k < |img|
    ensures var c := LastCover(subs, k);
      Place(subs, parts, img).value[k] == if c.Some? then parts[c.value][k - subs[c.value].offset] else img[k]
  {
    var c := LastCover(subs, k);
    if c.None? {
      PlaceFrame(subs, parts, img, k);
    } else {
      PlacedLast(subs, parts, img, k, c.value);
    }
  }

  lemma {:induction false} PlacedLast(subs: seq<AdsDataType>, parts: seq<seq<byte>>, img: seq<byte>, k: nat, i: nat)
    requires Sized(subs, parts) && Place(subs, parts, img).Ok? && k < |img|
    requires i < |subs| && Covers(subs[i], k) && forall j :: i < j < |subs| ==> !Covers(subs[j], k)
    ensures Place(subs, parts, img).value[k] == parts[i][k - subs[i].offset]
  {
    var next := Blit(img, subs[0].offset, parts[0]);
    if i > 0 {
      PlacedLast(subs[1..], parts[1..], next, k, i - 1);
    } else {
      PlaceFrame(subs[1..], parts[1..], next, k);
      assert next[subs[0].offset..subs[0].offset + |parts[0]|][k - subs[0].offset] == next[k];
    }
  }

  /** Without offsets each field follows the ones before it. */
  lemma {:induction false} ConcatAt(subs: seq<AdsDataType>, parts: seq<seq<byte>>, i: nat)
    requires Sized(subs, parts) && i < |subs|
    ensures HoldsAt(Concat(parts), SumSizes(subs[..i]), parts[i])
  {
    if i == 0 {
      HoldsAtFront(parts[0], Concat(parts[1..]));
      assert subs[..0] == [];
    } else {
      ConcatAt(subs[1..], parts[1..], i - 1);
      HoldsAtAfter(parts[0], Concat(parts[1..]), SumSizes(subs[1..][..i - 1]), parts[i]);
      assert subs[..i][1..] == subs[1..][..i - 1] && subs[..i][0] == subs[0];
    }
  }

  /** The bytes of a struct with offsets: at each the last field that covers it, or zero. */
  lemma OffsetBytes(go: GoConversions, m: map<GoString, Value>, t: AdsDataType, k: nat)
    requires IsStruct(t) && HasExplicitOffsets(t.subItems) && Serialize(go, Map(m), t, false).Ok?
    requires k < |Serialize(go, Map(m), t, false).value|
    ensures var (img, c) := (Serialize(go, Map(m), t, false).value, LastCover(t.subItems, k));
      if c.None? then img[k] == 0
      else
        var f := t.subItems[c.value];
        && f.name in m && Serialize(go, m[f.name], f, false).Ok?
        && k - f.offset < |Serialize(go, m[f.name], f, false).value|
        && img[k] == Serialize(go, m[f.name], f, false).value[k - f.offset]
  {
    var parts := SerializeFields(go, m, t.subItems).value;
    FieldLengths(go, m, t.subItems);
    LayoutByte(t, parts, k);
  }

  lemma LayoutByte(t: AdsDataType, parts: seq<seq<byte>>, k: nat)
    requires HasExplicitOffsets(t.subItems) && Sized(t.subItems, parts) && Layout(t, parts).Ok?
    requires k < |Layout(t, parts).value|
    ensures var c := LastCover(t.subItems, k);
      Layout(t, parts).value[k] == if c.Some? then parts[c.value][k - t.subItems[c.value].offset] else 0
  {
    var n := if t.size == 0 then LargestEnd(t.subItems, parts) else t.size;
    PlacedByte(t.subItems, parts, Zeros(n), k);
  }

  /** The bytes of a struct without offsets: its fields one after the other, then zeros. */
  lemma SequentialBytes(go: GoConversions, m: map<GoString, Value>, t: AdsDataType, i: nat, k: nat)
    requires IsStruct(t) && !HasExplicitOffsets(t.subItems) && Serialize(go, Map(m), t, false).Ok?
    requires i < |t.subItems| && SumSizes(t.subItems) <= k
    ensures var (img, f) := (Serialize(go, Map(m), t, false).value, t.subItems[i]);
      && f.name in m && Serialize(go, m[f.name], f, false).Ok?
      && HoldsAt(img, SumSizes(t.subItems[..i]), Serialize(go, m[f.name], f, false).value)
      && (k < |img| ==> img[k] == 0)
  {
    var parts := SerializeFields(go, m, t.subItems).value;
    FieldLengths(go, m, t.subItems);
    ConcatLength(t.subItems, parts);
    ConcatAt(t.subItems, parts, i);
    HoldsLonger(Concat(parts), Layout(t, parts).value, SumSizes(t.subItems[..i]), parts[i]);
  }

  lemma HoldsLonger(a: seq<byte>, b: seq<byte>, at: nat, part: seq<byte>)
    requires HoldsAt(a, at, part) && a <= b
    ensures HoldsAt(b, at, part)
  {
    assert b[at..at + |part|] == a[at..at + |part|];
  }

  // -------------------------------------------------- What bytes are decoded to

  /** A type that is no array, or an element of one: a primitive is read at its offset. */
  lemma LeafDecodes(data: seq<byte>, t: AdsDataType, isArrayItem: bool)
    requires t.subItems == [] && (isArrayItem || t.arrayInfo == [])
    ensures Deserialize(data, t, isArrayItem)
         == if t.offset > |data| then Panic else DecodePrimitive(data[t.offset..], t.code)
  {
  }

  /** A struct, also as an element of an array, is decoded exactly when each of its fields
      is, behind its offset, to the map of their names to their values. */
  lemma StructDecodes(data: seq<byte>, t: AdsDataType, isArrayItem: bool)
    requires |t.subItems| > 0 && (isArrayItem || t.arrayInfo == [])
    ensures var d := Deserialize(data, t, isArrayItem);
      if t.offset > |data| then d == Panic
      else
        && (d.Ok? <==> forall i :: 0 <= i < |t.subItems| ==> Deserialize(data[t.offset..], t.subItems[i], false).Ok?)
        && (d.Ok? ==>
              && d.value.Map?
              && (forall n :: n in d.value.fields <==> HasField(t.subItems, n))
              && (DistinctNames(t.subItems) ==> forall i :: 0 <= i < |t.subItems| ==>
                    Deserialize(data[t.offset..], t.subItems[i], false) == Ok(d.value.fields[t.subItems[i].name])))
  {
    if t.offset <= |data| {
      FieldsDecodeIff(data[t.offset..], t.subItems, map[]);
      if DeserializeFields(data[t.offset..], t.subItems, map[]).Ok? {
        FieldNames(data[t.offset..], t.subItems, map[]);
        if DistinctNames(t.subItems) {
          forall i | 0 <= i < |t.subItems|
            ensures var m := DeserializeFields(data[t.offset..], t.subItems, map[]).value;
              t.subItems[i].name in m
              && Deserialize(data[t.offset..], t.subItems[i], false) == Ok(m[t.subItems[i].name])
          {
            FieldValue(data[t.offset..], t.subItems, map[], i);
          }
        }
      }
    }
  }

  lemma {:induction false} FieldsDecodeIff(data: seq<byte>, subs: seq<AdsDataType>, m: map<GoString, Value>)
    ensures DeserializeFields(data, subs, m).Ok? <==>
      forall i :: 0 <= i < |subs| ==> Deserialize(data, subs[i], false).Ok?
  {
    if subs != [] {
      var first := Deserialize(data, subs[0], false);
      if first.Ok? {
        FieldsDecodeIff(data, subs[1..], m[subs[0].name := first.value]);
        forall i | 0 <= i < |subs| && forall j :: 0 <= j < |subs[1..]| ==> Deserialize(data, subs[1..][j], false).Ok?
          ensures Deserialize(data, subs[i], false).Ok?
        {
          assert i > 0 ==> subs[i] == subs[1..][i - 1];
        }
        forall j | 0 <= j < |subs[1..]| ensures subs[1..][j] == subs[j + 1] {
        }
      }
    }
  }

  predicate HasField(subs: seq<AdsDataType>, n: GoString) {
    exists i :: 0 <= i < |subs| && subs[i].name == n
  }

  lemma HasFieldCons(subs: seq<AdsDataType>, n: GoString)
    requires subs != []
    ensures HasField(subs, n) <==> n == subs[0].name || HasField(subs[1..], n)
  {
    if i :| 0 <= i < |subs| && subs[i].name == n && i > 0 {
      assert subs[1..][i - 1].name == n;
    }
    if j :| 0 <= j < |subs[1..]| && subs[1..][j].name == n {
      assert subs[j + 1].name == n;
    }
  }

  lemma {:induction false} FieldNames(data: seq<byte>, subs: seq<AdsDataType>, m: map<GoString, Value>)
    requires DeserializeFields(data, subs, m).Ok?
    ensures forall n :: n in DeserializeFields(data, subs, m).value <==> n in m || HasField(subs, n)
  {
    if subs != [] {
      var m' := m[subs[0].name := Deserialize(data, subs[0], false).value];
      FieldNames(data, subs[1..], m');
      forall n ensures HasField(subs, n) <==> n == subs[0].name || HasField(subs[1..], n) {
        HasFieldCons(subs, n);
      }
    }
  }

  /** The first field that cannot be decoded decides how decoding a struct fails. */
  lemma {:induction false} FirstUndecodable(data: seq<byte>, subs: seq<AdsDataType>, m: map<GoString, Value>, i: nat)
    requires i < |subs| && forall j :: 0 <= j < i ==> Deserialize(data, subs[j], false).Ok?
    ensures var (d, r) := (Deserialize(data, subs[i], false), DeserializeFields(data, subs, m));
      (d.Err? ==> r == Err(d.error)) && (d.Panic? ==> r.Panic?)
  {
    if i > 0 {
      assert Deserialize(data, subs[0], false).Ok?;
      forall j | 0 <= j < i - 1 ensures Deserialize(data, subs[1..][j], false).Ok? {
        assert subs[1..][j] == subs[j + 1];
      }
      FirstUndecodable(data, subs[1..], m[subs[0].name := Deserialize(data, subs[0], false).value], i - 1);
    }
  }

  lemma {:induction false} FieldValue(data: seq<byte>, subs: seq<AdsDataType>, m: map<GoString, Value>, i: nat)
    requires DeserializeFields(data, subs, m).Ok? && DistinctNames(subs) && i < |subs|
    ensures var r := DeserializeFields(data, subs, m).value;
      subs[i].name in r && Deserialize(data, subs[i], false) == Ok(r[subs[i].name])
  {
    var m' := m[subs[0].name := Deserialize(data, subs[0], false).value];
    if i > 0 {
      FieldValue(data, subs[1..], m', i - 1);
    } else {
      OtherFieldsKeep(data, subs[1..], m', subs[0].name);
    }
  }

  lemma {:induction false} OtherFieldsKeep(data: seq<byte>, subs: seq<AdsDataType>, m: map<GoString, Value>, n: GoString)
    requires DeserializeFields(data, subs, m).Ok? && n in m
    requires forall i :: 0 <= i < |subs| ==> subs[i].name != n
    ensures var r := DeserializeFields(data, subs, m).value; n in r && r[n] == m[n]
  {
    if subs != [] {
      OtherFieldsKeep(data, subs[1..], m[subs[0].name := Deserialize(data, subs[0], false).value], n);
    }
  }

  /** A struct element of an array round-trips: bytes that hold its encoded fields at
      their offsets are decoded to the canonical map, whatever array the type is of. */
  lemma StructElementRoundTrip(go: GoConversions, m: map<GoString, Value>, t: AdsDataType, data: seq<byte>,
                               parts: seq<seq<byte>>)
    requires |t.subItems| > 0 && DistinctNames(t.subItems)
    requires forall i :: 0 <= i < |t.subItems| ==> WellFormed(t.subItems[i])
    requires SerializeFields(go, m, t.subItems) == Ok(parts) && FieldsFit(m, t.subItems)
    requires t.offset <= |data|
    requires forall i :: 0 <= i < |t.subItems| ==> HoldsAt(data[t.offset..], t.subItems[i].offset, parts[i])
    ensures Deserialize(data, t, true) == Ok(Map(CanonicalFields(go, m, t.subItems)))
  {
    FieldsRoundTrip(go, m, t.subItems, parts, data[t.offset..], map[]);
    assert map[] + CanonicalFields(go, m, t.subItems) == CanonicalFields(go, m, t.subItems);
  }

  /** So in any buffer the struct at a multi-index of an array is the one whose encoded
      fields stand `at` Size times its linear index, behind the offset of the type. */
  lemma ArrayOfStructsElement(go: GoConversions, m: map<GoString, Value>, t: AdsDataType, data: seq<byte>,
                              parts: seq<seq<byte>>, ix: seq<nat>, at: nat)
    requires |t.arrayInfo| > 0 && InBounds(t.arrayInfo, 0, ix) && Deserialize(data, t, false).Ok?
    requires |t.subItems| > 0 && DistinctNames(t.subItems)
    requires forall i :: 0 <= i < |t.subItems| ==> WellFormed(t.subItems[i])
    requires SerializeFields(go, m, t.subItems) == Ok(parts) && FieldsFit(m, t.subItems)
    requires at == LinearIndex(t.arrayInfo, 0, ix) * t.size && at + t.offset <= |data|
    requires forall i :: 0 <= i < |t.subItems| ==> HoldsAt(data, at + t.offset + t.subItems[i].offset, parts[i])
    ensures At(Deserialize(data, t, false).value, ix) == Some(Map(CanonicalFields(go, m, t.subItems)))
  {
    DeserializedElement(data, t, ix);
    StructElementAt(go, m, t, data, parts, at);
  }

  lemma StructElementAt(go: GoConversions, m: map<GoString, Value>, t: AdsDataType, data: seq<byte>,
                        parts: seq<seq<byte>>, at: nat)
    requires |t.subItems| > 0 && DistinctNames(t.subItems)
    requires forall i :: 0 <= i < |t.subItems| ==> WellFormed(t.subItems[i])
    requires SerializeFields(go, m, t.subItems) == Ok(parts) && FieldsFit(m, t.subItems)
    requires at + t.offset <= |data|
    requires forall i :: 0 <= i < |t.subItems| ==> HoldsAt(data, at + t.offset + t.subItems[i].offset, parts[i])
    ensures Deserialize(data[at..], t, true) == Ok(Map(CanonicalFields(go, m, t.subItems)))
  {
    forall i | 0 <= i < |t.subItems| ensures HoldsAt(data[at..][t.offset..], t.subItems[i].offset, parts[i]) {
      HoldsShifted(data, at, t.offset, t.subItems[i].offset, parts[i]);
    }
    StructElementRoundTrip(go, m, t, data[at..], parts);
  }

  lemma HoldsShifted(data: seq<byte>, a: nat, b: nat, c: nat, part: seq<byte>)
    requires a + b <= |data| && HoldsAt(data, a + b + c, part)
    ensures HoldsAt(data[a..][b..], c, part)
  {
    assert data[a..][b..][c..c + |part|] == data[a + b + c..a + b + c + |part|];
  }

  // ---------------------------------------------------------- Whole arrays

  /** The element at this position can be looked at; if it cannot be decoded it is nil. */
  predicate Readable(data: seq<byte>, t: AdsDataType, at: nat) {
    at <= |data| && !Deserialize(data[at..], t, true).Panic?
  }

  /** Slices as long as the dimensions, down to the elements. */
  predicate Shaped(v: Value, info: seq<ArrayInfo>, dim: nat)
    requires dim <= |info|
    decreases |info| - dim
  {
    dim < |info| ==>
      v.Slice? && |v.elems| == info[dim].length && forall i :: 0 <= i < |v.elems| ==> Shaped(v.elems[i], info, dim + 1)
  }

  lemma {:induction false} ReadArrayShape(data: seq<byte>, t: AdsDataType, dim: nat, pos: nat, i: nat)
    requires dim < |t.arrayInfo| && i <= t.arrayInfo[dim].length && ReadArray(data, t, dim, pos, i).Ok?
    ensures var elems := ReadArray(data, t, dim, pos, i).value.0;
      |elems| == t.arrayInfo[dim].length - i
      && forall k :: 0 <= k < |elems| ==> Shaped(elems[k], t.arrayInfo, dim + 1)
    decreases |t.arrayInfo| - dim, 1, t.arrayInfo[dim].length - i
  {
    if i < t.arrayInfo[dim].length {
      var (first, next) := ReadArrayItem(data, t, dim, pos).value;
      if dim + 1 < |t.arrayInfo| {
        ReadArrayShape(data, t, dim + 1, pos, 0);
      }
      assert Shaped(first, t.arrayInfo, dim + 1);
      ReadArrayShape(data, t, dim, next, i + 1);
    }
  }

  /** An item that cannot be looked at, with its index from `i` on. */
  lemma {:induction false} Unreadable(data: seq<byte>, t: AdsDataType, dim: nat, pos: nat, i: nat) returns (ix: seq<nat>)
    requires dim < |t.arrayInfo| && i <= t.arrayInfo[dim].length && !ReadArray(data, t, dim, pos, i).Ok?
    ensures InBounds(t.arrayInfo, dim, ix) && ix != [] && ix[0] >= i && InBounds(t.arrayInfo, dim + 1, ix[1..])
    ensures !Readable(data, t, pos + Times(ix[0] - i, ItemBytes(t.arrayInfo, dim, t.size))
                                   + BytePosition(t.arrayInfo, dim + 1, ix[1..], t.size))
    decreases |t.arrayInfo| - dim, 1, t.arrayInfo[dim].length - i
  {
    var w := ItemBytes(t.arrayInfo, dim, t.size);
    if ReadArrayItem(data, t, dim, pos).Ok? {
      ReadArrayItemEnd(data, t, dim, pos);
      ix := Unreadable(data, t, dim, pos + w, i + 1);
      assert Times(ix[0] - i, w) == w + Times(ix[0] - (i + 1), w);
    } else {
      var inner := UnreadableItem(data, t, dim, pos);
      ix := [i] + inner;
      assert ix[1..] == inner;
    }
  }

  lemma {:induction false} UnreadableItem(data: seq<byte>, t: AdsDataType, dim: nat, pos: nat) returns (ix: seq<nat>)
    requires dim < |t.arrayInfo| && !ReadArrayItem(data, t, dim, pos).Ok?
    ensures InBounds(t.arrayInfo, dim + 1, ix)
    ensures !Readable(data, t, pos + BytePosition(t.arrayInfo, dim + 1, ix, t.size))
    decreases |t.arrayInfo| - dim, 0
  {
    if dim + 1 < |t.arrayInfo| {
      ix := Unreadable(data, t, dim + 1, pos, 0);
    } else {
      ix := [];
    }
  }

  /** Decoding an array gives an error for no bytes at all; it panics exactly when the
      position of some element cannot be looked at, and otherwise gives slices as long as
      the dimensions. */
  lemma ArrayDecodesIff(data: seq<byte>, t: AdsDataType)
    requires |t.arrayInfo| > 0
    ensures var d := Deserialize(data, t, false);
      && !d.Err?
      && (d.Ok? <==> forall ix :: InBounds(t.arrayInfo, 0, ix) ==>
                       Readable(data, t, LinearIndex(t.arrayInfo, 0, ix) * t.size))
      && (d.Ok? ==> Shaped(d.value, t.arrayInfo, 0))
  {
    if Deserialize(data, t, false).Ok? {
      ReadArrayShape(data, t, 0, 0, 0);
      forall ix | InBounds(t.arrayInfo, 0, ix) ensures Readable(data, t, LinearIndex(t.arrayInfo, 0, ix) * t.size) {
        DeserializedElement(data, t, ix);
      }
    } else {
      var ix := Unreadable(data, t, 0, 0, 0);
      BytePositionIsLinear(t.arrayInfo, 0, ix, t.size);
      assert BytePosition(t.arrayInfo, 0, ix, t.size)
          == Times(ix[0], ItemBytes(t.arrayInfo, 0, t.size)) + BytePosition(t.arrayInfo, 1, ix[1..], t.size);
    }
  }

  /** On the way out, the first item that is missing or does not encode decides: Go panics
      on an index that a slice does not have. */
  lemma {:induction false} FirstBadItem(go: GoConversions, t: AdsDataType, dim: nat, arr: seq<Value>, i: nat, k: nat)
    requires dim < |t.arrayInfo| && i <= k < t.arrayInfo[dim].length && k <= |arr|
    requires forall j :: i <= j < k ==> WriteArrayItem(go, t, dim, arr[j]).Ok?
    ensures var r := WriteArray(go, t, dim, arr, i);
      if k == |arr| then r == Panic
      else
        var e := WriteArrayItem(go, t, dim, arr[k]);
        (e.Err? ==> r == Err(e.error)) && (e.Panic? ==> r.Panic?)
    decreases k - i
  {
    if i < k {
      FirstBadItem(go, t, dim, arr, i + 1, k);
    }
  }

  /** A value of the wrong shape is an error of its own, and so is a struct without room. */
  lemma WrongShape(go: GoConversions, v: Value, t: AdsDataType, dim: nat)
    ensures IsStruct(t) && !v.Map? ==> Serialize(go, v, t, false) == Err(InvalidStructValue)
    ensures |t.arrayInfo| > 0 && !v.Slice? ==> Serialize(go, v, t, false) == Err(InvalidArrayValue)
    ensures dim + 1 < |t.arrayInfo| && !v.Slice? ==> WriteArrayItem(go, t, dim, v) == Err(InvalidNestedArray)
    ensures IsStruct(t) && v.Map? && SerializeFields(go, v.fields, t.subItems).Ok? && !HasRoom(t) ==>
      Serialize(go, v, t, false).Err? && Serialize(go, v, t, false).error.StructTooSmall?
  {
    if IsStruct(t) && v.Map? && SerializeFields(go, v.fields, t.subItems).Ok? {
      var parts := SerializeFields(go, v.fields, t.subItems).value;
      FieldLengths(go, v.fields, t.subItems);
      LayoutIff(t, parts);
      PlaceFails(t.subItems, parts, Zeros(if t.size == 0 then LargestEnd(t.subItems, parts) else t.size));
    }
  }

  lemma {:induction false} PlaceFails(subs: seq<AdsDataType>, parts: seq<seq<byte>>, img: seq<byte>)
    requires |subs| == |parts|
    ensures var r := Place(subs, parts, img); !r.Ok? ==> r.Err? && r.error.StructTooSmall? && r.error.needed > |img|
  {
    if subs != [] && subs[0].offset + |parts[0]| <= |img| {
      PlaceFails(subs[1..], parts[1..], Blit(img, subs[0].offset, parts[0]));
    }
  }
}
