/** The resolved data types and the Go values that the serializer works on. */
module AdsTypes {
  import opened Bytes

  const ADST_VOID: uint32 := 0
  const ADST_INT16: uint32 := 2
  const ADST_INT32: uint32 := 3
  const ADST_REAL32: uint32 := 4
  const ADST_REAL64: uint32 := 5
  const ADST_INT8: uint32 := 16
  const ADST_UINT8: uint32 := 17
  const ADST_UINT16: uint32 := 18
  const ADST_UINT32: uint32 := 19
  const ADST_INT64: uint32 := 20
  const ADST_UINT64: uint32 := 21
  const ADST_STRING: uint32 := 30
  const ADST_WSTRING: uint32 := 31
  const ADST_BIT: uint32 := 33
  const ADST_BIGTYPE: uint32 := 65

  datatype ArrayInfo = ArrayInfo(startIndex: int32, length: uint32)

  /** The fields of types.AdsDataType that layout depends on. */
  datatype AdsDataType = AdsDataType(
    name: GoString,
    typeName: GoString,
    comment: GoString,
    size: uint32,
    offset: uint32,
    code: uint32,
    arrayDim: uint16,
    subItems: seq<AdsDataType>,
    arrayInfo: seq<ArrayInfo>)

  /** A Go value of type `any`. Floats are their IEEE 754 bit patterns. */
  datatype Value =
    | Nil
    | Bool(b: bool)
    | Int(i: int64)
    | Int8(i8: int8)
    | Int16(i16: int16)
    | Int32(i32: int32)
    | Int64(i64: int64)
    | Uint8(u8: uint8)
    | Uint16(u16: uint16)
    | Uint32(u32: uint32)
    | Uint64(u64: uint64)
    | Float32(f32: uint32)
    | Float64(f64: uint64)
    | Str(s: GoString)
    | Slice(elems: seq<Value>)
    | Map(fields: map<GoString, Value>)
    | Other

  /** What the Go language itself supplies to the serializer: conversions between
      numbers and floating point, and the decoding of a string into runes. */
  datatype GoConversions = GoConversions(
    narrow: uint64 -> uint32,
    widen: uint32 -> uint64,
    intToFloat32: int64 -> uint32,
    intToFloat64: int64 -> uint64,
    runes: GoString -> seq<nat>)

  /** Bytes of a signed integer type, 0 for every other type. */
  function SignedWidth(code: uint32): nat {
    if code == ADST_INT8 then 1
    else if code == ADST_INT16 then 2
    else if code == ADST_INT32 then 4
    else if code == ADST_INT64 then 8
    else 0
  }

  function UnsignedWidth(code: uint32): nat {
    if code == ADST_UINT8 then 1
    else if code == ADST_UINT16 then 2
    else if code == ADST_UINT32 then 4
    else if code == ADST_UINT64 then 8
    else 0
  }

  /** Elements in an array with these dimensions. */
  function Product(info: seq<ArrayInfo>): nat {
    if info == [] then 1 else info[0].length * Product(info[1..])
  }

  /** Elements between neighbours along dimension `dim`. */
  function Stride(info: seq<ArrayInfo>, dim: nat): nat
    requires dim < |info|
  {
    Product(info[dim + 1..])
  }

  function StringWidth(t: AdsDataType): nat {
    if t.size == 0 then 80 else t.size
  }

  function WStringWidth(t: AdsDataType): nat {
    if t.size == 0 then 160 else t.size
  }

  /** Bytes of one element; a type without an encoding keeps its declared size. */
  function ElementWidth(t: AdsDataType): nat {
    if t.code == ADST_VOID then 0
    else if t.code == ADST_BIT then 1
    else if SignedWidth(t.code) > 0 then SignedWidth(t.code)
    else if UnsignedWidth(t.code) > 0 then UnsignedWidth(t.code)
    else if t.code == ADST_REAL32 then 4
    else if t.code == ADST_REAL64 then 8
    else if t.code == ADST_STRING then StringWidth(t)
    else if t.code == ADST_WSTRING then WStringWidth(t)
    else t.size
  }

  predicate IsStruct(t: AdsDataType) {
    |t.subItems| > 0 && |t.arrayInfo| == 0
  }

  predicate HasExplicitOffsets(subs: seq<AdsDataType>) {
    exists i :: 0 <= i < |subs| && subs[i].offset != 0
  }

  /** Bytes that an encoding of `t` takes. */
  function ByteSize(t: AdsDataType): nat
    decreases t, 1
  {
    if IsStruct(t) then
      if t.size != 0 then t.size
      else if HasExplicitOffsets(t.subItems) then MaxEnd(t.subItems)
      else SumSizes(t.subItems)
    else if |t.arrayInfo| > 0 then Product(t.arrayInfo) * ElementWidth(t)
    else ElementWidth(t)
  }

  function SumSizes(subs: seq<AdsDataType>): nat
    decreases subs, 0
  {
    if subs == [] then 0 else ByteSize(subs[0]) + SumSizes(subs[1..])
  }

  function MaxEnd(subs: seq<AdsDataType>): nat
    decreases subs, 0
  {
    if subs == [] then 0
    else
      var rest := MaxEnd(subs[1..]);
      var end := subs[0].offset + ByteSize(subs[0]);
      if end > rest then end else rest
  }
}
