/** What Serialize and Deserialize compute, as functions on values.
    The methods in SerializerMethods.dfy compute the same with buffers and loops. */
module Serializer {
  import opened Bytes
  import opened Outcomes
  import opened AdsTypes

  datatype CodecError =
    | InvalidStructValue
    | MissingField(name: GoString)
    | StructTooSmall(needed: nat)
    | InvalidArrayValue
    | InvalidNestedArray
    | InvalidPrimitive(code: uint32)
    | UnsupportedType(code: uint32)
    | InsufficientData

  type Encoded = Outcome<seq<byte>, CodecError>
  type Decoded = Outcome<Value, CodecError>

  // ---------------------------------------------------------------- Numbers

  /** The integer that a boolean or signed Go value stands for, when the signed
      conversion to `w` bytes accepts its type: a boolean, an int, or a sized
      signed integer at least as wide as the target. */
  function SignedSource(v: Value, w: nat): Option<int> {
    match v
    case Bool(b) => Some(if b then 1 else 0)
    case Int(i) => Some(i)
    case Int8(i) => if w <= 1 then Some(i) else None
    case Int16(i) => if w <= 2 then Some(i) else None
    case Int32(i) => if w <= 4 then Some(i) else None
    case Int64(i) => Some(i)
    case _ => None
  }

  function UnsignedSource(v: Value, w: nat): Option<int> {
    match v
    case Bool(b) => Some(if b then 1 else 0)
    case Int(i) => Some(i)
    case Uint8(n) => if w <= 1 then Some(n) else None
    case Uint16(n) => if w <= 2 then Some(n) else None
    case Uint32(n) => if w <= 4 then Some(n) else None
    case Uint64(n) => Some(n)
    case _ => None
  }

  /** toInt8, toInt16, toInt32, toInt64. */
  function ToSigned(v: Value, w: nat): (r: Option<int>)
    requires w > 0
    ensures r.Some? ==> 0 <= 2 * r.value + Pow256(w) < 2 * Pow256(w)
  {
    match SignedSource(v, w)
    case Some(i) => if 0 <= 2 * i + Pow256(w) < 2 * Pow256(w) then Some(i) else None
    case None => None
  }

  /** toUint8, toUint16, toUint32, toUint64. */
  function ToUnsigned(v: Value, w: nat): (r: Option<int>)
    ensures r.Some? ==> 0 <= r.value < Pow256(w)
  {
    match UnsignedSource(v, w)
    case Some(i) => if 0 <= i < Pow256(w) then Some(i) else None
    case None => None
  }

  const FLOAT32_ONE: uint32 := 0x3F80_0000
  const FLOAT64_ONE: uint64 := 0x3FF0_0000_0000_0000

  function ToFloat32(go: GoConversions, v: Value): Option<uint32> {
    match v
    case Bool(b) => Some(if b then FLOAT32_ONE else 0)
    case Float32(f) => Some(f)
    case Float64(f) => Some(go.narrow(f))
    case Int(i) => Some(go.intToFloat32(i))
    case _ => None
  }

  function ToFloat64(go: GoConversions, v: Value): Option<uint64> {
    match v
    case Bool(b) => Some(if b then FLOAT64_ONE else 0)
    case Float64(f) => Some(f)
    case Float32(f) => Some(go.widen(f))
    case Int(i) => Some(go.intToFloat64(i))
    case _ => None
  }

  /** The sized Go integer holding `i`. */
  function SignedValue(code: uint32, i: int): Value
    requires SignedWidth(code) > 0
    requires 0 <= 2 * i + Pow256(SignedWidth(code)) < 2 * Pow256(SignedWidth(code))
  {
    Pow256Values();
    if code == ADST_INT8 then Int8(i)
    else if code == ADST_INT16 then Int16(i)
    else if code == ADST_INT32 then Int32(i)
    else Int64(i)
  }

  function UnsignedValue(code: uint32, n: nat): Value
    requires UnsignedWidth(code) > 0 && n < Pow256(UnsignedWidth(code))
  {
    Pow256Values();
    if code == ADST_UINT8 then Uint8(n)
    else if code == ADST_UINT16 then Uint16(n)
    else if code == ADST_UINT32 then Uint32(n)
    else Uint64(n)
  }

  // ---------------------------------------------------------------- Strings

  /** `copy(make([]byte, n), s)`: cut at `n` bytes, or padded with zeros. */
  function WriteString(s: GoString, n: nat): (r: seq<byte>)
    ensures |r| == n
  {
    if |s| >= n then s[..n] else s + Zeros(n - |s|)
  }

  /** The bytes before the first zero byte, all of them when there is none. */
  function ReadString(data: seq<byte>): GoString {
    if data == [] || data[0] == 0 then [] else [data[0]] + ReadString(data[1..])
  }

  /** UTF-16 code units of `rs[..n]`, low byte first; a rune is cut to 16 bits. */
  function CodeUnits(rs: seq<nat>, n: nat): (r: seq<byte>)
    requires n <= |rs|
    ensures |r| == 2 * n
  {
    if n == 0 then []
    else CodeUnits(rs, n - 1) + [rs[n - 1] % 256, rs[n - 1] % 0x1_0000 / 256]
  }

  /** Characters of a wide string that fit before its two terminating bytes. */
  function WideChars(rs: seq<nat>, n: nat): (k: nat)
    ensures k <= |rs| && 2 * k <= n
  {
    var max := n / 2 - 1;
    if max <= 0 then 0 else if |rs| <= max then |rs| else max
  }

  function WriteWString(rs: seq<nat>, n: nat): (r: seq<byte>)
    ensures |r| == n
  {
    CodeUnits(rs, WideChars(rs, n)) + Zeros(n - 2 * WideChars(rs, n))
  }

  // ------------------------------------------------------------- Primitives

  function EncodePrimitive(go: GoConversions, v: Value, t: AdsDataType): (r: Encoded)
    ensures r.Ok? ==> |r.value| == ElementWidth(t)
    ensures !r.Panic?
  {
    Pow256Values();
    if t.code == ADST_VOID then Ok([])
    else if t.code == ADST_BIT then
      match v
      case Bool(b) => Ok([if b then 1 else 0])
      case Int(i) => if i == 0 || i == 1 then Ok([i]) else Err(InvalidPrimitive(t.code))
      case _ => Err(InvalidPrimitive(t.code))
    else if SignedWidth(t.code) > 0 then
      var w := SignedWidth(t.code);
      match ToSigned(v, w)
      case Some(i) => Ok(LE(TwosComplement(i, w), w))
      case None => Err(InvalidPrimitive(t.code))
    else if UnsignedWidth(t.code) > 0 then
      match ToUnsigned(v, UnsignedWidth(t.code))
      case Some(n) => Ok(LE(n, UnsignedWidth(t.code)))
      case None => Err(InvalidPrimitive(t.code))
    else if t.code == ADST_REAL32 then
      match ToFloat32(go, v)
      case Some(f) => Ok(LE(f, 4))
      case None => Err(InvalidPrimitive(t.code))
    else if t.code == ADST_REAL64 then
      match ToFloat64(go, v)
      case Some(f) => Ok(LE(f, 8))
      case None => Err(InvalidPrimitive(t.code))
    else if t.code == ADST_STRING then
      if v.Str? then Ok(WriteString(v.s, StringWidth(t))) else Err(InvalidPrimitive(t.code))
    else if t.code == ADST_WSTRING then
      if v.Str? then Ok(WriteWString(go.runes(v.s), WStringWidth(t))) else Err(InvalidPrimitive(t.code))
    else Err(UnsupportedType(t.code))
  }

  function DecodePrimitive(data: seq<byte>, code: uint32): (r: Decoded)
    ensures !r.Panic?
  {
    Pow256Values();
    if code == ADST_VOID then Ok(Nil)
    else if code == ADST_BIT then
      if |data| < 1 then Err(InsufficientData) else Ok(Bool(data[0] != 0))
    else if SignedWidth(code) > 0 then
      var w := SignedWidth(code);
      if |data| < w then Err(InsufficientData)
      else
        FromLEBound(data[..w]);
        Ok(SignedValue(code, FromTwosComplement(FromLE(data[..w]), w)))
    else if UnsignedWidth(code) > 0 then
      var w := UnsignedWidth(code);
      if |data| < w then Err(InsufficientData)
      else
        FromLEBound(data[..w]);
        Ok(UnsignedValue(code, FromLE(data[..w])))
    else if code == ADST_REAL32 then
      if |data| < 4 then Err(InsufficientData)
      else
        FromLEBound(data[..4]);
        Ok(Float32(FromLE(data[..4])))
    else if code == ADST_REAL64 then
      if |data| < 8 then Err(InsufficientData)
      else
        FromLEBound(data[..8]);
        Ok(Float64(FromLE(data[..8])))
    else if code == ADST_STRING || code == ADST_WSTRING then Ok(Str(ReadString(data)))
    else Err(UnsupportedType(code))
  }

  // -------------------------------------------------------------- Serialize

  function Concat(parts: seq<seq<byte>>): seq<byte> {
    if parts == [] then [] else parts[0] + Concat(parts[1..])
  }

  /** The largest end of a field, the size of a struct that declares none. */
  function LargestEnd(subs: seq<AdsDataType>, parts: seq<seq<byte>>): nat
    requires |subs| == |parts|
  {
    if subs == [] then 0
    else
      var rest := LargestEnd(subs[1..], parts[1..]);
      var end := subs[0].offset + |parts[0]|;
      if end > rest then end else rest
  }

  /** Copies the fields to their offsets in order, a later one over an earlier. */
  function Place(subs: seq<AdsDataType>, parts: seq<seq<byte>>, img: seq<byte>): (r: Encoded)
    requires |subs| == |parts|
    ensures r.Ok? ==> |r.value| == |img|
  {
    if subs == [] then Ok(img)
    else
      var end := subs[0].offset + |parts[0]|;
      if end > |img| then Err(StructTooSmall(end))
      else Place(subs[1..], parts[1..], Blit(img, subs[0].offset, parts[0]))
  }

  function Layout(t: AdsDataType, parts: seq<seq<byte>>): Encoded
    requires |t.subItems| == |parts|
  {
    if !HasExplicitOffsets(t.subItems) then
      var all := Concat(parts);
      if t.size == 0 then Ok(all)
      else if |all| > t.size then Err(StructTooSmall(|all|))
      else Ok(all + Zeros(t.size - |all|))
    else
      var n := if t.size == 0 then LargestEnd(t.subItems, parts) else t.size;
      Place(t.subItems, parts, Zeros(n))
  }

  function Serialize(go: GoConversions, v: Value, t: AdsDataType, isArrayItem: bool): Encoded
    decreases t, if isArrayItem then 0 else 2
  {
    if IsStruct(t) then
      if !v.Map? then Err(InvalidStructValue)
      else
        var parts :- SerializeFields(go, v.fields, t.subItems);
        Layout(t, parts)
    else if |t.arrayInfo| > 0 && !isArrayItem then
      if !v.Slice? then Err(InvalidArrayValue)
      else WriteArray(go, t, 0, v.elems, 0)
    else EncodePrimitive(go, v, t)
  }

  function SerializeFields(go: GoConversions, m: map<GoString, Value>, subs: seq<AdsDataType>)
    : (r: Outcome<seq<seq<byte>>, CodecError>)
    ensures r.Ok? ==> |r.value| == |subs|
    decreases subs
  {
    if subs == [] then Ok([])
    else if subs[0].name !in m then Err(MissingField(subs[0].name))
    else
      var first :- Serialize(go, m[subs[0].name], subs[0], false);
      var rest :- SerializeFields(go, m, subs[1..]);
      Ok([first] + rest)
  }

  /** The elements of dimension `dim` from index `i` on, in row-major order. */
  function WriteArray(go: GoConversions, t: AdsDataType, dim: nat, arr: seq<Value>, i: nat): Encoded
    requires dim < |t.arrayInfo| && i <= t.arrayInfo[dim].length
    decreases t, 1, |t.arrayInfo| - dim, t.arrayInfo[dim].length - i
  {
    if i == t.arrayInfo[dim].length then Ok([])
    else if i >= |arr| then Panic
    else
      var first :- WriteArrayItem(go, t, dim, arr[i]);
      var rest :- WriteArray(go, t, dim, arr, i + 1);
      Ok(first + rest)
  }

  /** One index of dimension `dim`: a whole sub-array, or an element. */
  function WriteArrayItem(go: GoConversions, t: AdsDataType, dim: nat, item: Value): Encoded
    requires dim < |t.arrayInfo|
    decreases t, 1, |t.arrayInfo| - dim, 0
  {
    if dim + 1 < |t.arrayInfo| then
      if !item.Slice? then Err(InvalidNestedArray) else WriteArray(go, t, dim + 1, item.elems, 0)
    else Serialize(go, item, t, true)
  }

  // ------------------------------------------------------------ Deserialize

  function Deserialize(data: seq<byte>, t: AdsDataType, isArrayItem: bool): Decoded
    decreases t, if isArrayItem then 0 else 2
  {
    if (|t.arrayInfo| == 0 || isArrayItem) && |t.subItems| > 0 then
      if t.offset > |data| then Panic
      else
        var m :- DeserializeFields(data[t.offset..], t.subItems, map[]);
        Ok(Map(m))
    else if |t.arrayInfo| > 0 && !isArrayItem then
      var (elems, _) :- ReadArray(data, t, 0, 0, 0);
      Ok(Slice(elems))
    else if t.offset > |data| then Panic
    else DecodePrimitive(data[t.offset..], t.code)
  }

  function DeserializeFields(data: seq<byte>, subs: seq<AdsDataType>, m: map<GoString, Value>)
    : Outcome<map<GoString, Value>, CodecError>
    decreases subs
  {
    if subs == [] then Ok(m)
    else
      var first :- Deserialize(data, subs[0], false);
      DeserializeFields(data, subs[1..], m[subs[0].name := first])
  }

  /** Dimension `dim` from index `i` on, read from `pos`; with the values comes the
      position after them. */
  function ReadArray(data: seq<byte>, t: AdsDataType, dim: nat, pos: nat, i: nat)
    : (r: Outcome<(seq<Value>, nat), CodecError>)
    requires dim < |t.arrayInfo| && i <= t.arrayInfo[dim].length
    ensures !r.Err?
    decreases t, 1, |t.arrayInfo| - dim, t.arrayInfo[dim].length - i
  {
    if i == t.arrayInfo[dim].length then Ok(([], pos))
    else
      var (first, next) :- ReadArrayItem(data, t, dim, pos);
      var (rest, end) :- ReadArray(data, t, dim, next, i + 1);
      Ok(([first] + rest, end))
  }

  /** The sub-array or element at `pos`. An element that cannot be decoded becomes
      nil; the position moves on by the declared size either way. */
  function ReadArrayItem(data: seq<byte>, t: AdsDataType, dim: nat, pos: nat)
    : (r: Outcome<(Value, nat), CodecError>)
    requires dim < |t.arrayInfo|
    ensures !r.Err?
    decreases t, 1, |t.arrayInfo| - dim, 0
  {
    if dim + 1 < |t.arrayInfo| then
      var (elems, end) :- ReadArray(data, t, dim + 1, pos, 0);
      Ok((Slice(elems), end))
    else if pos > |data| then Panic
    else
      match Deserialize(data[pos..], t, true)
      case Ok(v) => Ok((v, pos + t.size))
      case Err(_) => Ok((Nil, pos + t.size))
      case Panic => Panic
  }
}
