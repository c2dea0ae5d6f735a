/** Reading an image, changing a field and writing it back; the order of array
    elements; and the strings that survive. */
module ImageTheorems {
  import opened Bytes
  import opened Outcomes
  import opened AdsTypes
  import opened Serializer
  import opened SerializerTheorems

  // ---------------------------------------------------- Read, modify, write

  /** Without offsets every byte of the fields belongs to a field at offset 0. */
  lemma {:induction false} ConcatCovered(subs: seq<AdsDataType>, parts: seq<seq<byte>>, k: nat)
    requires Sized(subs, parts) && DisjointFields(subs) && !HasExplicitOffsets(subs)
    requires k < |Concat(parts)|
    ensures exists i :: 0 <= i < |subs| && Covers(subs[i], k)
  {
    assert subs != [] && subs[0].offset == 0;
    if k < |parts[0]| {
      assert Covers(subs[0], k);
    } else {
      assert !HasExplicitOffsets(subs[1..]);
      ConcatCovered(subs[1..], parts[1..], k - |parts[0]|);
      var j :| 0 <= j < |subs[1..]| && Covers(subs[1..][j], k - |parts[0]|);
      assert Disjoint(subs[0], subs[j + 1]) && subs[j + 1].offset == 0;
      assert Covers(subs[j + 1], k);
    }
  }

  /** Padding: bytes of a struct image that no field covers are zero. */
  lemma PaddingIsZero(t: AdsDataType, parts: seq<seq<byte>>, k: nat)
    requires Sized(t.subItems, parts) && DisjointFields(t.subItems)
    requires Layout(t, parts).Ok? && k < |Layout(t, parts).value|
    requires forall i :: 0 <= i < |t.subItems| ==> !Covers(t.subItems[i], k)
    ensures Layout(t, parts).value[k] == 0
  {
    if HasExplicitOffsets(t.subItems) {
      var n := if t.size == 0 then LargestEnd(t.subItems, parts) else t.size;
      PlaceFrame(t.subItems, parts, Zeros(n), k);
    } else if k < |Concat(parts)| {
      ConcatCovered(t.subItems, parts, k);
    }
  }

  lemma ByteOf(data: seq<byte>, at: nat, part: seq<byte>, k: nat)
    requires HoldsAt(data, at, part) && at <= k < at + |part|
    ensures data[k] == part[k - at]
  {
    assert data[at..at + |part|][k - at] == data[k];
  }

  /** Two images of a struct agree on a byte unless a field that differs covers it. */
  lemma LayoutsAgree(t: AdsDataType, p: seq<seq<byte>>, q: seq<seq<byte>>, changed: nat, k: nat)
    requires Sized(t.subItems, p) && Sized(t.subItems, q) && DisjointFields(t.subItems)
    requires Layout(t, p).Ok? && Layout(t, q).Ok?
    requires k < |Layout(t, p).value| == |Layout(t, q).value|
    requires changed < |p| && !Covers(t.subItems[changed], k)
    requires forall i :: 0 <= i < |p| && i != changed ==> p[i] == q[i]
    ensures Layout(t, p).value[k] == Layout(t, q).value[k]
  {
    if i :| 0 <= i < |t.subItems| && Covers(t.subItems[i], k) {
      LayoutHolds(t, p, i);
      LayoutHolds(t, q, i);
      ByteOf(Layout(t, p).value, t.subItems[i].offset, p[i], k);
      ByteOf(Layout(t, q).value, t.subItems[i].offset, q[i], k);
    } else {
      PaddingIsZero(t, p, k);
      PaddingIsZero(t, q, k);
    }
  }

  lemma PrimitiveCanonical(go: GoConversions, v: Value, t: AdsDataType)
    requires EncodePrimitive(go, v, t).Ok?
    ensures EncodePrimitive(go, CanonicalPrimitive(go, v, t), t) == EncodePrimitive(go, v, t)
  {
    Pow256Values();
    if SignedWidth(t.code) > 0 {
      var w := SignedWidth(t.code);
      assert ToSigned(SignedValue(t.code, ToSigned(v, w).value), w) == ToSigned(v, w);
    } else if UnsignedWidth(t.code) > 0 {
      var w := UnsignedWidth(t.code);
      assert ToUnsigned(UnsignedValue(t.code, ToUnsigned(v, w).value), w) == ToUnsigned(v, w);
    }
  }

  /** The integer that a Go value stands for; a boolean counts as 0 or 1. */
  function Number(v: Value): Option<int> {
    match v
    case Bool(b) => Some(if b then 1 else 0)
    case Int(i) => Some(i)
    case Int8(i) => Some(i)
    case Int16(i) => Some(i)
    case Int32(i) => Some(i)
    case Int64(i) => Some(i)
    case Uint8(n) => Some(n)
    case Uint16(n) => Some(n)
    case Uint32(n) => Some(n)
    case Uint64(n) => Some(n)
    case _ => None
  }

  /** Narrowing is checked: an integer or bit that encodes is read back as the same number. */
  lemma EncodedNumberIsKept(go: GoConversions, v: Value, t: AdsDataType, rest: seq<byte>)
    requires SignedWidth(t.code) > 0 || UnsignedWidth(t.code) > 0 || t.code == ADST_BIT
    requires EncodePrimitive(go, v, t).Ok?
    ensures var d := DecodePrimitive(EncodePrimitive(go, v, t).value + rest, t.code);
      d.Ok? && Number(v).Some? && Number(d.value) == Number(v)
  {
    var bytes := EncodePrimitive(go, v, t).value;
    assert HoldsAt(bytes + rest, 0, bytes);
    PrimitiveRoundTrip(go, v, t, bytes + rest);
    Pow256Values();
  }

  /** What a reader gets encodes to the image it was read from. */
  lemma {:induction false} CanonicalReencodes(go: GoConversions, v: Value, t: AdsDataType)
    requires WellFormed(t) && Serialize(go, v, t, false).Ok?
    ensures Serialize(go, Canonical(go, v, t), t, false) == Serialize(go, v, t, false)
    decreases t, 2
  {
    if IsStruct(t) {
      var m := CanonicalFields(go, v.fields, t.subItems);
      FieldsReencode(go, v.fields, t.subItems, m);
    } else if |t.arrayInfo| > 0 {
      CanonicalItemsReencode(go, v.elems, t, 0, 0, Canonical(go, v, t).elems);
    } else {
      PrimitiveCanonical(go, v, t);
    }
  }

  lemma {:induction false} CanonicalFieldAt(go: GoConversions, m: map<GoString, Value>, subs: seq<AdsDataType>, i: nat)
    requires i < |subs| && DistinctNames(subs) && subs[i].name in m
    ensures subs[i].name in CanonicalFields(go, m, subs)
    ensures CanonicalFields(go, m, subs)[subs[i].name] == Canonical(go, m[subs[i].name], subs[i])
  {
    if i > 0 {
      CanonicalFieldAt(go, m, subs[1..], i - 1);
    }
  }

  lemma {:induction false} FieldsReencode(go: GoConversions, m: map<GoString, Value>, subs: seq<AdsDataType>,
                                          c: map<GoString, Value>)
    requires SerializeFields(go, m, subs).Ok? && DistinctNames(subs)
    requires forall i :: 0 <= i < |subs| ==> WellFormed(subs[i])
    requires c == CanonicalFields(go, m, subs)
    ensures SerializeFields(go, c, subs) == SerializeFields(go, m, subs)
    decreases subs, 1
  {
    FieldLengths(go, m, subs);
    forall i | 0 <= i < |subs|
      ensures subs[i].name in c
      ensures Serialize(go, c[subs[i].name], subs[i], false) == Serialize(go, m[subs[i].name], subs[i], false)
    {
      CanonicalFieldAt(go, m, subs, i);
      CanonicalReencodes(go, m[subs[i].name], subs[i]);
    }
    SameFields(go, m, c, subs);
  }

  /** Field maps whose values encode alike encode to the same parts. */
  lemma {:induction false} SameFields(go: GoConversions, m: map<GoString, Value>, c: map<GoString, Value>,
                                      subs: seq<AdsDataType>)
    requires forall i :: 0 <= i < |subs| ==>
      && subs[i].name in m && subs[i].name in c
      && Serialize(go, c[subs[i].name], subs[i], false) == Serialize(go, m[subs[i].name], subs[i], false)
    ensures SerializeFields(go, c, subs) == SerializeFields(go, m, subs)
    decreases subs, 0
  {
    if subs != [] {
      assert subs[0].name in m && subs[0].name in c;
      forall i | 0 <= i < |subs[1..]|
        ensures subs[1..][i].name in m && subs[1..][i].name in c
        ensures Serialize(go, c[subs[1..][i].name], subs[1..][i], false)
             == Serialize(go, m[subs[1..][i].name], subs[1..][i], false)
      {
        assert subs[1..][i] == subs[i + 1];
      }
      SameFields(go, m, c, subs[1..]);
    }
  }

  /** `whole` is the canonical array and `i` the position reached in it. */
  lemma {:induction false} CanonicalItemsReencode(go: GoConversions, arr: seq<Value>, t: AdsDataType, dim: nat, i: nat,
                                                  whole: seq<Value>)
    requires dim < |t.arrayInfo| && i <= t.arrayInfo[dim].length
    requires WriteArray(go, t, dim, arr, i).Ok?
    requires i <= |whole| && whole[i..] == CanonicalItems(go, arr, t, dim, i)
    ensures WriteArray(go, t, dim, whole, i) == WriteArray(go, t, dim, arr, i)
    decreases t, 1, |t.arrayInfo| - dim, t.arrayInfo[dim].length - i
  {
    if i < t.arrayInfo[dim].length {
      assert whole[i] == whole[i..][0] && whole[i + 1..] == whole[i..][1..];
      CanonicalItemReencodes(go, arr[i], t, dim);
      CanonicalItemsReencode(go, arr, t, dim, i + 1, whole);
    }
  }

  lemma {:induction false} CanonicalItemReencodes(go: GoConversions, item: Value, t: AdsDataType, dim: nat)
    requires dim < |t.arrayInfo| && WriteArrayItem(go, t, dim, item).Ok?
    ensures WriteArrayItem(go, t, dim, CanonicalItem(go, item, t, dim)) == WriteArrayItem(go, t, dim, item)
    decreases t, 1, |t.arrayInfo| - dim, 0
  {
    if dim + 1 < |t.arrayInfo| {
      CanonicalItemsReencode(go, item.elems, t, dim + 1, 0, CanonicalItem(go, item, t, dim).elems);
    } else {
      PrimitiveCanonical(go, item, t);
    }
  }

  lemma {:induction false} FieldsEncode(go: GoConversions, m: map<GoString, Value>, subs: seq<AdsDataType>)
    requires forall i :: 0 <= i < |subs| ==> subs[i].name in m && Serialize(go, m[subs[i].name], subs[i], false).Ok?
    ensures SerializeFields(go, m, subs).Ok?
  {
    if subs != [] {
      assert subs[0].name in m;
      FieldsEncode(go, m, subs[1..]);
    }
  }

  /** Whether fields can be placed depends on their sizes only. */
  lemma {:induction false} PlaceAlike(subs: seq<AdsDataType>, p: seq<seq<byte>>, q: seq<seq<byte>>,
                                      a: seq<byte>, b: seq<byte>)
    requires Sized(subs, p) && Sized(subs, q) && |a| == |b| && Place(subs, p, a).Ok?
    ensures Place(subs, q, b).Ok?
  {
    if subs != [] {
      PlaceAlike(subs[1..], p[1..], q[1..], Blit(a, subs[0].offset, p[0]), Blit(b, subs[0].offset, q[0]));
    }
  }

  lemma LayoutAlike(t: AdsDataType, p: seq<seq<byte>>, q: seq<seq<byte>>)
    requires Sized(t.subItems, p) && Sized(t.subItems, q) && Layout(t, p).Ok?
    ensures Layout(t, q).Ok?
  {
    ConcatLength(t.subItems, p);
    ConcatLength(t.subItems, q);
    LargestEndIsMaxEnd(t.subItems, p);
    LargestEndIsMaxEnd(t.subItems, q);
    if HasExplicitOffsets(t.subItems) {
      var n := if t.size == 0 then MaxEnd(t.subItems) else t.size;
      PlaceAlike(t.subItems, p, q, Zeros(n), Zeros(n));
    }
  }

  /** The other fields of a canonical map encode as those it was made from. */
  lemma OtherFieldEncodes(go: GoConversions, m: map<GoString, Value>, t: AdsDataType, i: nat, v: Value, j: nat)
    requires IsStruct(t) && WellFormed(t) && i < |t.subItems| && j < |t.subItems| && j != i
    requires SerializeFields(go, m, t.subItems).Ok?
    ensures var c := CanonicalFields(go, m, t.subItems)[t.subItems[i].name := v];
      && t.subItems[j].name in c && t.subItems[j].name in m
      && Serialize(go, c[t.subItems[j].name], t.subItems[j], false) == Serialize(go, m[t.subItems[j].name], t.subItems[j], false)
      && Serialize(go, m[t.subItems[j].name], t.subItems[j], false) == Ok(SerializeFields(go, m, t.subItems).value[j])
  {
    FieldLengths(go, m, t.subItems);
    assert t.subItems[j].name != t.subItems[i].name;
    CanonicalFieldAt(go, m, t.subItems, j);
    CanonicalReencodes(go, m[t.subItems[j].name], t.subItems[j]);
  }

  /** Writing back succeeds exactly when the new value of the field encodes. */
  lemma WriteBackIff(go: GoConversions, m: map<GoString, Value>, t: AdsDataType, i: nat, v: Value)
    requires IsStruct(t) && WellFormed(t) && i < |t.subItems| && Serialize(go, Map(m), t, false).Ok?
    ensures var c := CanonicalFields(go, m, t.subItems)[t.subItems[i].name := v];
      Serialize(go, Map(c), t, false).Ok? <==> Serialize(go, v, t.subItems[i], false).Ok?
  {
    var c := CanonicalFields(go, m, t.subItems)[t.subItems[i].name := v];
    if Serialize(go, v, t.subItems[i], false).Ok? {
      forall j | 0 <= j < |t.subItems|
        ensures t.subItems[j].name in c && Serialize(go, c[t.subItems[j].name], t.subItems[j], false).Ok?
      {
        if j != i {
          OtherFieldEncodes(go, m, t, i, v, j);
        }
      }
      FieldsEncode(go, c, t.subItems);
      FieldLengths(go, m, t.subItems);
      FieldLengths(go, c, t.subItems);
      LayoutAlike(t, SerializeFields(go, m, t.subItems).value, SerializeFields(go, c, t.subItems).value);
    } else if Serialize(go, Map(c), t, false).Ok? {
      FieldLengths(go, c, t.subItems);
    }
  }

  /** Reading a struct image, replacing field `i` and writing it back succeeds exactly
      when the new value encodes; it changes the bytes of that field only, and those
      become the encoding of the new value. */
  lemma ReadModifyWrite(go: GoConversions, m: map<GoString, Value>, t: AdsDataType, data: seq<byte>, i: nat, v: Value)
    requires IsStruct(t) && WellFormed(t) && Fits(Map(m), t) && i < |t.subItems|
    requires Serialize(go, Map(m), t, false).Ok?
    requires HoldsAt(data, t.offset, Serialize(go, Map(m), t, false).value)
    ensures var f := t.subItems[i];
      var img := Serialize(go, Map(m), t, false).value;
      var read := Deserialize(data, t, false);
      && read.Ok? && read.value.Map?
      && var written := Serialize(go, Map(read.value.fields[f.name := v]), t, false);
         && (written.Ok? <==> Serialize(go, v, f, false).Ok?)
         && (written.Ok? ==>
              && |written.value| == |img|
              && HoldsAt(written.value, f.offset, Serialize(go, v, f, false).value)
              && forall k :: 0 <= k < |img| && !Covers(f, k) ==> written.value[k] == img[k])
  {
    var f := t.subItems[i];
    RoundTrip(go, Map(m), t, data);
    var c := CanonicalFields(go, m, t.subItems);
    assert Deserialize(data, t, false) == Ok(Map(c));
    WriteBackIff(go, m, t, i, v);
    if Serialize(go, v, f, false).Ok? {
      WrittenImage(go, m, t, i, v);
    }
  }

  lemma WrittenImage(go: GoConversions, m: map<GoString, Value>, t: AdsDataType, i: nat, v: Value)
    requires IsStruct(t) && WellFormed(t) && i < |t.subItems| && Serialize(go, Map(m), t, false).Ok?
    requires Serialize(go, v, t.subItems[i], false).Ok?
    requires Serialize(go, Map(CanonicalFields(go, m, t.subItems)[t.subItems[i].name := v]), t, false).Ok?
    ensures var f := t.subItems[i];
      var img := Serialize(go, Map(m), t, false).value;
      var written := Serialize(go, Map(CanonicalFields(go, m, t.subItems)[f.name := v]), t, false).value;
      && |written| == |img|
      && HoldsAt(written, f.offset, Serialize(go, v, f, false).value)
      && forall k :: 0 <= k < |img| && !Covers(f, k) ==> written[k] == img[k]
  {
    var f := t.subItems[i];
    var c := CanonicalFields(go, m, t.subItems)[f.name := v];
    var p := SerializeFields(go, m, t.subItems).value;
    var q := SerializeFields(go, c, t.subItems).value;
    FieldLengths(go, m, t.subItems);
    FieldLengths(go, c, t.subItems);
    LayoutLength(t, p);
    LayoutLength(t, q);
    LayoutHolds(t, q, i);
    forall j | 0 <= j < |p| && j != i ensures p[j] == q[j] {
      OtherFieldEncodes(go, m, t, i, v, j);
    }
    forall k | 0 <= k < |Layout(t, p).value| && !Covers(f, k)
      ensures Layout(t, q).value[k] == Layout(t, p).value[k]
    {
      LayoutsAgree(t, p, q, i, k);
    }
  }

  // -------------------------------------------------- Array element order

  /** `ix` picks an element of the dimensions from `dim` on. */
  predicate InBounds(info: seq<ArrayInfo>, dim: nat, ix: seq<nat>) {
    && dim <= |info| && |ix| == |info| - dim
    && forall k :: 0 <= k < |ix| ==> ix[k] < info[dim + k].length
  }

  lemma InBoundsTail(info: seq<ArrayInfo>, dim: nat, ix: seq<nat>)
    requires InBounds(info, dim, ix) && ix != []
    ensures InBounds(info, dim + 1, ix[1..])
  {
  }

  function LinearIndex(info: seq<ArrayInfo>, dim: nat, ix: seq<nat>): nat
    requires InBounds(info, dim, ix)
    decreases |ix|
  {
    if ix == [] then 0 else InBoundsTail(info, dim, ix); ix[0] * Stride(info, dim) + LinearIndex(info, dim + 1, ix[1..])
  }

  /** The element of nested slices at a multi-index. */
  function At(v: Value, ix: seq<nat>): Option<Value>
    decreases |ix|
  {
    if ix == [] then Some(v)
    else if v.Slice? && ix[0] < |v.elems| then At(v.elems[ix[0]], ix[1..])
    else None
  }

  /** What stands for an element: nil when it cannot be decoded. */
  function OrNil(d: Decoded): Value {
    if d.Ok? then d.value else Nil
  }

  /** `n` times `w` as a sum, which keeps positions linear for the solver. */
  function Times(n: nat, w: nat): nat {
    if n == 0 then 0 else w + Times(n - 1, w)
  }

  lemma {:induction false} TimesIsProduct(n: nat, w: nat)
    ensures Times(n, w) == n * w
  {
    if n > 0 {
      TimesIsProduct(n - 1, w);
      MulStep(n, w);
    }
  }

  /** Where the element at a multi-index lies when an element takes `w` bytes. */
  function BytePosition(info: seq<ArrayInfo>, dim: nat, ix: seq<nat>, w: nat): nat
    requires InBounds(info, dim, ix)
    decreases |ix|
  {
    if ix == [] then 0
    else
      InBoundsTail(info, dim, ix);
      Times(ix[0], ItemBytes(info, dim, w)) + BytePosition(info, dim + 1, ix[1..], w)
  }

  lemma {:induction false} BytePositionIsLinear(info: seq<ArrayInfo>, dim: nat, ix: seq<nat>, w: nat)
    requires InBounds(info, dim, ix)
    ensures BytePosition(info, dim, ix, w) == LinearIndex(info, dim, ix) * w
    decreases |ix|
  {
    if ix != [] {
      InBoundsTail(info, dim, ix);
      BytePositionIsLinear(info, dim + 1, ix[1..], w);
      TimesIsProduct(ix[0], ItemBytes(info, dim, w));
      ItemBytesIsStride(info, dim, w);
      LinearPosition(ix[0], Stride(info, dim), LinearIndex(info, dim + 1, ix[1..]), w);
    }
  }

  /** Reading item `k` of a dimension starts `k` items on, and each takes its bytes. */
  lemma {:induction false} ReadArrayAt(data: seq<byte>, t: AdsDataType, dim: nat, pos: nat, i: nat, k: nat)
    requires dim < |t.arrayInfo| && i <= k < t.arrayInfo[dim].length
    requires ReadArray(data, t, dim, pos, i).Ok?
    ensures var r := ReadArray(data, t, dim, pos, i).value.0;
      var item := ReadArrayItem(data, t, dim, pos + Times(k - i, ItemBytes(t.arrayInfo, dim, t.size)));
      k - i < |r| && item.Ok? && item.value.0 == r[k - i]
    decreases k - i
  {
    var w := ItemBytes(t.arrayInfo, dim, t.size);
    ReadArrayItemEnd(data, t, dim, pos);
    if i < k {
      ReadArrayAt(data, t, dim, pos + w, i + 1, k);
    }
  }

  lemma {:induction false} ReadArrayEnd(data: seq<byte>, t: AdsDataType, dim: nat, pos: nat, i: nat)
    requires dim < |t.arrayInfo| && i <= t.arrayInfo[dim].length
    requires ReadArray(data, t, dim, pos, i).Ok?
    ensures ReadArray(data, t, dim, pos, i).value.1
         == pos + Times(t.arrayInfo[dim].length - i, ItemBytes(t.arrayInfo, dim, t.size))
    decreases |t.arrayInfo| - dim, t.arrayInfo[dim].length - i
  {
    if i < t.arrayInfo[dim].length {
      ReadArrayItemEnd(data, t, dim, pos);
      ReadArrayEnd(data, t, dim, pos + ItemBytes(t.arrayInfo, dim, t.size), i + 1);
    }
  }

  lemma {:induction false} ReadArrayItemEnd(data: seq<byte>, t: AdsDataType, dim: nat, pos: nat)
    requires dim < |t.arrayInfo|
    requires ReadArrayItem(data, t, dim, pos).Ok?
    ensures ReadArrayItem(data, t, dim, pos).value.1 == pos + ItemBytes(t.arrayInfo, dim, t.size)
    decreases |t.arrayInfo| - dim, 0
  {
    if dim + 1 < |t.arrayInfo| {
      ReadArrayEnd(data, t, dim + 1, pos, 0);
      TimesIsProduct(t.arrayInfo[dim + 1].length, ItemBytes(t.arrayInfo, dim + 1, t.size));
    }
  }

  lemma {:induction false} ElementReadAt(data: seq<byte>, t: AdsDataType, dim: nat, pos: nat, ix: seq<nat>)
    requires dim < |t.arrayInfo| && InBounds(t.arrayInfo, dim, ix)
    requires ReadArray(data, t, dim, pos, 0).Ok?
    ensures var at := pos + BytePosition(t.arrayInfo, dim, ix, t.size);
      && at <= |data| && !Deserialize(data[at..], t, true).Panic?
      && At(Slice(ReadArray(data, t, dim, pos, 0).value.0), ix) == Some(OrNil(Deserialize(data[at..], t, true)))
    decreases |ix|
  {
    ReadArrayAt(data, t, dim, pos, 0, ix[0]);
    InBoundsTail(t.arrayInfo, dim, ix);
    if dim + 1 < |t.arrayInfo| {
      ElementReadAt(data, t, dim + 1, pos + Times(ix[0], ItemBytes(t.arrayInfo, dim, t.size)), ix[1..]);
    } else {
      assert ix[1..] == [];
    }
  }

  /** Row-major order: in a decoded array of any number of dimensions, of primitives
      or of structs, the element at a multi-index is what is decoded at its linear
      index times the element size. */
  lemma DeserializedElement(data: seq<byte>, t: AdsDataType, ix: seq<nat>)
    requires |t.arrayInfo| > 0 && InBounds(t.arrayInfo, 0, ix)
    requires Deserialize(data, t, false).Ok?
    ensures var at := LinearIndex(t.arrayInfo, 0, ix) * t.size;
      && at <= |data| && !Deserialize(data[at..], t, true).Panic?
      && At(Deserialize(data, t, false).value, ix) == Some(OrNil(Deserialize(data[at..], t, true)))
  {
    ElementReadAt(data, t, 0, 0, ix);
    BytePositionIsLinear(t.arrayInfo, 0, ix, t.size);
  }

  lemma {:induction false} WriteArrayAt(go: GoConversions, t: AdsDataType, dim: nat, arr: seq<Value>, i: nat, k: nat)
    requires dim < |t.arrayInfo| && i <= k < t.arrayInfo[dim].length
    requires WriteArray(go, t, dim, arr, i).Ok?
    ensures k < |arr| && WriteArrayItem(go, t, dim, arr[k]).Ok?
    ensures HoldsAt(WriteArray(go, t, dim, arr, i).value, Times(k - i, ItemBytes(t.arrayInfo, dim, ElementWidth(t))),
                    WriteArrayItem(go, t, dim, arr[k]).value)
    decreases k - i
  {
    var first := WriteArrayItem(go, t, dim, arr[i]).value;
    var rest := WriteArray(go, t, dim, arr, i + 1).value;
    ArrayItemLength(go, t, dim, arr[i]);
    if i == k {
      HoldsAtFront(first, rest);
    } else {
      WriteArrayAt(go, t, dim, arr, i + 1, k);
      HoldsAtAfter(first, rest, Times(k - i - 1, ItemBytes(t.arrayInfo, dim, ElementWidth(t))),
                   WriteArrayItem(go, t, dim, arr[k]).value);
    }
  }

  lemma HoldsAtFront(a: seq<byte>, b: seq<byte>)
    ensures HoldsAt(a + b, 0, a)
  {
  }

  lemma HoldsAtAfter(a: seq<byte>, b: seq<byte>, off: nat, part: seq<byte>)
    requires HoldsAt(b, off, part)
    ensures HoldsAt(a + b, |a| + off, part)
  {
    assert (a + b)[|a| + off..|a| + off + |part|] == b[off..off + |part|];
  }

  lemma {:induction false} ElementWrittenAt(go: GoConversions, t: AdsDataType, dim: nat, item: Value, ix: seq<nat>)
    requires dim < |t.arrayInfo| && InBounds(t.arrayInfo, dim + 1, ix)
    requires WriteArrayItem(go, t, dim, item).Ok?
    ensures At(item, ix).Some? && EncodePrimitive(go, At(item, ix).value, t).Ok?
    ensures HoldsAt(WriteArrayItem(go, t, dim, item).value, BytePosition(t.arrayInfo, dim + 1, ix, ElementWidth(t)),
                    EncodePrimitive(go, At(item, ix).value, t).value)
    decreases |ix|
  {
    if dim + 1 < |t.arrayInfo| {
      DimensionWrittenAt(go, t, dim + 1, item.elems, ix);
    } else {
      var bytes := WriteArrayItem(go, t, dim, item).value;
      HoldsAtFront(bytes, []);
      assert bytes + [] == bytes;
    }
  }

  lemma {:induction false} DimensionWrittenAt(go: GoConversions, t: AdsDataType, dim: nat, arr: seq<Value>,
                                              ix: seq<nat>)
    requires dim < |t.arrayInfo| && InBounds(t.arrayInfo, dim, ix)
    requires WriteArray(go, t, dim, arr, 0).Ok?
    ensures At(Slice(arr), ix).Some? && EncodePrimitive(go, At(Slice(arr), ix).value, t).Ok?
    ensures HoldsAt(WriteArray(go, t, dim, arr, 0).value, BytePosition(t.arrayInfo, dim, ix, ElementWidth(t)),
                    EncodePrimitive(go, At(Slice(arr), ix).value, t).value)
    decreases |ix|, 0
  {
    WriteArrayAt(go, t, dim, arr, 0, ix[0]);
    var sub := arr[ix[0]];
    InBoundsTail(t.arrayInfo, dim, ix);
    ElementWrittenAt(go, t, dim, sub, ix[1..]);
    var w := ElementWidth(t);
    HoldsAtInside(WriteArray(go, t, dim, arr, 0).value, Times(ix[0], ItemBytes(t.arrayInfo, dim, w)),
                  WriteArrayItem(go, t, dim, sub).value, BytePosition(t.arrayInfo, dim + 1, ix[1..], w),
                  EncodePrimitive(go, At(sub, ix[1..]).value, t).value);
  }

  /** The encoder uses the same order: the element at a multi-index is written at its
      linear index times its width. */
  lemma SerializedElement(go: GoConversions, v: Value, t: AdsDataType, ix: seq<nat>)
    requires |t.arrayInfo| > 0 && InBounds(t.arrayInfo, 0, ix)
    requires Serialize(go, v, t, false).Ok?
    ensures At(v, ix).Some? && EncodePrimitive(go, At(v, ix).value, t).Ok?
    ensures HoldsAt(Serialize(go, v, t, false).value, LinearIndex(t.arrayInfo, 0, ix) * ElementWidth(t),
                    EncodePrimitive(go, At(v, ix).value, t).value)
  {
    DimensionWrittenAt(go, t, 0, v.elems, ix);
    BytePositionIsLinear(t.arrayInfo, 0, ix, ElementWidth(t));
  }

  lemma LinearPosition(i: int, stride: int, lin: int, w: int)
    ensures (i * stride + lin) * w == i * (stride * w) + lin * w
  {
  }

  lemma HoldsAtInside(data: seq<byte>, off: nat, img: seq<byte>, at: nat, part: seq<byte>)
    requires HoldsAt(data, off, img) && HoldsAt(img, at, part)
    ensures HoldsAt(data, off + at, part)
  {
    HoldsAtNested(data, off, img, at, part);
    assert data[off..][at..at + |part|] == data[off + at..off + at + |part|];
  }

  /** The codes of the primitive encoder. */
  predicate HasEncoding(code: uint32) {
    || code == ADST_VOID || code == ADST_BIT || SignedWidth(code) > 0 || UnsignedWidth(code) > 0
    || code == ADST_REAL32 || code == ADST_REAL64 || code == ADST_STRING || code == ADST_WSTRING
  }

  /** An array is encoded without a look at the sub-items of its type. */
  lemma {:induction false} SubItemsAreIgnored(go: GoConversions, t: AdsDataType, dim: nat, arr: seq<Value>, i: nat)
    requires dim < |t.arrayInfo| && i <= t.arrayInfo[dim].length
    ensures WriteArray(go, t, dim, arr, i) == WriteArray(go, t.(subItems := []), dim, arr, i)
    decreases |t.arrayInfo| - dim, t.arrayInfo[dim].length - i
  {
    var u := t.(subItems := []);
    if i < t.arrayInfo[dim].length && i < |arr| {
      if dim + 1 < |t.arrayInfo| {
        if arr[i].Slice? {
          SubItemsAreIgnored(go, t, dim + 1, arr[i].elems, 0);
        }
      } else {
        assert WriteArrayItem(go, t, dim, arr[i]) == EncodePrimitive(go, arr[i], t);
        assert WriteArrayItem(go, u, dim, arr[i]) == EncodePrimitive(go, arr[i], u);
      }
      assert WriteArrayItem(go, t, dim, arr[i]) == WriteArrayItem(go, u, dim, arr[i]);
      SubItemsAreIgnored(go, t, dim, arr, i + 1);
    }
  }

  /** Any element in all places of an array of these dimensions. */
  function Everywhere(info: seq<ArrayInfo>, x: Value): Value {
    if info == [] then x else Slice(Copies(info[0].length, Everywhere(info[1..], x)))
  }

  function Copies(n: nat, x: Value): (r: seq<Value>)
    ensures |r| == n && forall k :: 0 <= k < n ==> r[k] == x
  {
    if n == 0 then [] else [x] + Copies(n - 1, x)
  }

  lemma {:induction false} EverywhereEncodes(go: GoConversions, t: AdsDataType, dim: nat, x: Value, i: nat)
    requires dim < |t.arrayInfo| && i <= t.arrayInfo[dim].length && EncodePrimitive(go, x, t).Ok?
    ensures WriteArray(go, t, dim, Everywhere(t.arrayInfo[dim..], x).elems, i).Ok?
    decreases |t.arrayInfo| - dim, t.arrayInfo[dim].length - i
  {
    var arr := Everywhere(t.arrayInfo[dim..], x).elems;
    assert t.arrayInfo[dim..][1..] == t.arrayInfo[dim + 1..];
    if i < t.arrayInfo[dim].length {
      assert arr[i] == Everywhere(t.arrayInfo[dim + 1..], x);
      if dim + 1 < |t.arrayInfo| {
        EverywhereEncodes(go, t, dim + 1, x, 0);
      } else {
        assert WriteArrayItem(go, t, dim, arr[i]) == EncodePrimitive(go, x, t);
      }
      assert WriteArrayItem(go, t, dim, arr[i]).Ok?;
      EverywhereEncodes(go, t, dim, x, i + 1);
    }
  }

  /** Some value of an array type that is not empty encodes if and only if its code is a
      primitive's, whether the type has sub-items or not. */
  lemma ArrayEncodesIff(go: GoConversions, t: AdsDataType)
    requires |t.arrayInfo| > 0 && forall k :: 0 <= k < |t.arrayInfo| ==> t.arrayInfo[k].length > 0
    ensures (exists v :: Serialize(go, v, t, false).Ok?) <==> HasEncoding(t.code)
  {
    if HasEncoding(t.code) {
      var x := if t.code == ADST_STRING || t.code == ADST_WSTRING then Str([]) else Bool(false);
      Pow256Values();
      assert EncodePrimitive(go, x, t).Ok?;
      EverywhereEncodes(go, t, 0, x, 0);
      assert t.arrayInfo[0..] == t.arrayInfo;
      assert Serialize(go, Everywhere(t.arrayInfo, x), t, false).Ok?;
    }
    if v :| Serialize(go, v, t, false).Ok? {
      SerializedElement(go, v, t, seq(|t.arrayInfo|, _ => 0));
    }
  }

  /** An array of structs is decoded struct by struct, but it is never encoded: not when
      its type has the code of a struct, and not when an element is a struct value,
      except by VOID, which writes nothing. */
  lemma ArrayOfStructsIsNotEncoded(go: GoConversions, v: Value, t: AdsDataType, ix: seq<nat>)
    requires |t.arrayInfo| > 0 && InBounds(t.arrayInfo, 0, ix)
    requires t.code == ADST_BIGTYPE || (At(v, ix).Some? && At(v, ix).value.Map? && t.code != ADST_VOID)
    ensures !Serialize(go, v, t, false).Ok?
  {
    if Serialize(go, v, t, false).Ok? {
      SerializedElement(go, v, t, ix);
      assert false;
    }
  }

  // ------------------------------------------------------------- Strings

  /** A STRING field gives its string back whatever follows it in the buffer exactly
      when the string has no zero byte and is shorter than the field. A string that
      fills the field is cut or runs on into the next field: no terminator is kept
      free, unlike the package documentation says. */
  lemma StringSurvivesIff(s: GoString, n: nat)
    requires n > 0
    ensures (forall rest: seq<byte> :: ReadString(WriteString(s, n) + rest) == s) <==> (0 !in s && |s| < n)
  {
    if 0 !in s && |s| < n {
      forall rest: seq<byte> ensures ReadString(WriteString(s, n) + rest) == s {
        var pad := Zeros(n - |s|);
        assert pad == [0] + pad[1..];
        assert WriteString(s, n) + rest == s + [0] + (pad[1..] + rest);
        ReadStringStopsAtZero(s, pad[1..] + rest);
      }
    } else if 0 in s {
      ReadStringHasNoZero(WriteString(s, n) + []);
    } else {
      ReadStringHasNoZero(WriteString(s, n) + [1, 0]);
      assert 0 !in s[..n];
      assert s[..n] + [1, 0] == (s[..n] + [1]) + [0] + [];
      ReadStringStopsAtZero(s[..n] + [1], []);
      ReadStringStopsAtZero(s[..n], []);
      assert WriteString(s, n) + [0] == s[..n] + [0] + [];
    }
  }

  lemma {:induction false} ReadStringHasNoZero(data: seq<byte>)
    ensures 0 !in ReadString(data)
  {
    if data != [] && data[0] != 0 {
      ReadStringHasNoZero(data[1..]);
    }
  }

  /** A WSTRING is written as UTF-16 and read as bytes: of a string of ASCII characters
      the first is read, if there is one and the field has room for it. So it comes back
      if and only if that is all there is of it. */
  lemma WideStringReadsFirstCharacter(go: GoConversions, s: GoString, t: AdsDataType, rest: seq<byte>)
    requires t.code == ADST_WSTRING && go.runes(s) == s
    requires forall k :: 0 <= k < |s| ==> 0 < s[k] < 128
    ensures var e := EncodePrimitive(go, Str(s), t);
      && e.Ok?
      && DecodePrimitive(e.value + rest, t.code) == Ok(Str(if s != [] && WStringWidth(t) >= 4 then s[..1] else []))
      && (DecodePrimitive(e.value + rest, t.code) == Ok(Str(s)) <==> s == [] || (|s| == 1 && WStringWidth(t) >= 4))
  {
    var n := WStringWidth(t);
    var data := EncodePrimitive(go, Str(s), t).value + rest;
    if s != [] && n >= 4 {
      CodeUnitsStart(s, WideChars(s, n));
      assert data[0] == s[0] && data[1] == 0;
      assert data[1..][0] == 0;
      assert ReadString(data[1..]) == [];
      assert ReadString(data) == [data[0]] + ReadString(data[1..]) == s[..1];
      assert |s| == 1 ==> s[..1] == s;
    } else {
      assert WriteWString(s, n) == Zeros(n);
      assert data[0] == 0;
    }
  }

  lemma {:induction false} CodeUnitsStart(rs: seq<nat>, n: nat)
    requires 0 < n <= |rs| && rs[0] < 128
    ensures CodeUnits(rs, n)[0] == rs[0] && CodeUnits(rs, n)[1] == 0
  {
    if n > 1 {
      CodeUnitsStart(rs, n - 1);
    }
  }
}
