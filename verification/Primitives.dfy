/** Which Go value each PLC type takes, the bytes that stand for it, and what any bytes
    are read as. The type codes are those of the ADS protocol. */
module Primitives {
  import opened Bytes
  import opened Outcomes
  import opened AdsTypes
  import opened Serializer
  import opened SerializerTheorems
  import opened ImageTheorems

  // ------------------------------------------------------------- Acceptance

  predicate Within(v: Value, low: int, high: int) {
    Number(v).Some? && low <= Number(v).value <= high
  }

  /** What the encoder takes for a type code: sized integers at least as wide as the
      target and of its signedness, in its range; a boolean for every number. */
  predicate Accepts(v: Value, code: uint32) {
    if code == 0 then true
    else if code == 2 then
      v.Bool? || ((v.Int? || v.Int16? || v.Int32? || v.Int64?) && Within(v, -32768, 32767))
    else if code == 3 then
      v.Bool? || ((v.Int? || v.Int32? || v.Int64?) && Within(v, -2147483648, 2147483647))
    else if code == 4 || code == 5 then v.Bool? || v.Float32? || v.Float64? || v.Int?
    else if code == 16 then
      v.Bool? || ((v.Int? || v.Int8? || v.Int16? || v.Int32? || v.Int64?) && Within(v, -128, 127))
    else if code == 17 then
      v.Bool? || ((v.Int? || v.Uint8? || v.Uint16? || v.Uint32? || v.Uint64?) && Within(v, 0, 255))
    else if code == 18 then
      v.Bool? || ((v.Int? || v.Uint16? || v.Uint32? || v.Uint64?) && Within(v, 0, 65535))
    else if code == 19 then
      v.Bool? || ((v.Int? || v.Uint32? || v.Uint64?) && Within(v, 0, 4294967295))
    else if code == 20 then v.Bool? || v.Int? || v.Int64?
    else if code == 21 then v.Bool? || v.Uint64? || (v.Int? && v.i >= 0)
    else if code == 30 || code == 31 then v.Str?
    else code == 33 && (v.Bool? || (v.Int? && (v.i == 0 || v.i == 1)))
  }

  /** The codes that the encoder knows. */
  predicate Known(code: uint32) {
    code in {0, 2, 3, 4, 5, 16, 17, 18, 19, 20, 21, 30, 31, 33}
  }

  lemma EncodesIff(go: GoConversions, v: Value, t: AdsDataType)
    ensures var e := EncodePrimitive(go, v, t);
      && (e.Ok? <==> Accepts(v, t.code))
      && (!e.Ok? ==> e == Err(if Known(t.code) then InvalidPrimitive(t.code) else UnsupportedType(t.code)))
  {
    if SignedWidth(t.code) > 0 {
      SignedAccepted(v, t.code);
    } else if UnsignedWidth(t.code) > 0 {
      UnsignedAccepted(v, t.code);
    }
  }

  lemma SignedAccepted(v: Value, code: uint32)
    requires SignedWidth(code) > 0
    ensures (ToSigned(v, SignedWidth(code)).Some? <==> Accepts(v, code)) && Known(code)
  {
    Pow256Values();
  }

  lemma UnsignedAccepted(v: Value, code: uint32)
    requires UnsignedWidth(code) > 0
    ensures (ToUnsigned(v, UnsignedWidth(code)).Some? <==> Accepts(v, code)) && Known(code)
  {
    Pow256Values();
  }

  // ---------------------------------------------------------------- The bytes

  /** The bytes of an integer, lowest first, in two's complement when it is negative. */
  predicate Stands(b: seq<byte>, n: int) {
    && 0 <= 2 * n + Pow256(|b|) && n < Pow256(|b|)
    && Weighted(b) == if n < 0 then n + Pow256(|b|) else n
  }

  /** Bytes of an integer type. */
  function IntegerWidth(code: uint32): nat {
    if code == 16 || code == 17 then 1
    else if code == 2 || code == 18 then 2
    else if code == 3 || code == 19 then 4
    else if code == 20 || code == 21 then 8
    else 0
  }

  lemma IntegerBytes(go: GoConversions, v: Value, t: AdsDataType)
    requires IntegerWidth(t.code) > 0 && EncodePrimitive(go, v, t).Ok?
    ensures var b := EncodePrimitive(go, v, t).value;
      |b| == IntegerWidth(t.code) && Number(v).Some? && Stands(b, Number(v).value)
  {
    Pow256Values();
    if SignedWidth(t.code) > 0 {
      var w := SignedWidth(t.code);
      LEIsWeighted(TwosComplement(ToSigned(v, w).value, w), w);
    } else {
      var w := UnsignedWidth(t.code);
      LEIsWeighted(ToUnsigned(v, w).value, w);
    }
  }

  /** A VOID takes no byte, a BIT one that is 1 for true and for the int 1. */
  lemma BitBytes(go: GoConversions, v: Value, t: AdsDataType)
    ensures var e := EncodePrimitive(go, v, t);
      && (t.code == 0 ==> e == Ok([]))
      && (t.code == 33 && e.Ok? ==> e.value == [if v == Bool(true) || v == Int(1) then 1 else 0])
  {
  }

  /** A REAL keeps a float32 as it is and takes a float64 or an int through Go's own
      conversion, whatever follows it in the buffer. */
  lemma Real32IsKept(go: GoConversions, v: Value, t: AdsDataType, rest: seq<byte>)
    requires t.code == 4
    ensures var e := EncodePrimitive(go, v, t);
      e.Ok? ==>
        && |e.value| == 4
        && var d := DecodePrimitive(e.value + rest, 4);
          && (v.Float32? ==> d == Ok(v) && Weighted(e.value) == v.f32)
          && (v.Float64? ==> d == Ok(Float32(go.narrow(v.f64))))
          && (v.Int? ==> d == Ok(Float32(go.intToFloat32(v.i))))
          && (v.Bool? ==> d == Ok(Float32(if v.b then 0x3F80_0000 else 0)))
  {
    var e := EncodePrimitive(go, v, t);
    if e.Ok? {
      var f := ToFloat32(go, v).value;
      Pow256Values();
      LEIsWeighted(f, 4);
      HoldsAtFront(e.value, rest);
      PrimitiveRoundTrip(go, v, t, e.value + rest);
      assert CanonicalPrimitive(go, v, t) == Float32(f);
    }
  }

  lemma Real64IsKept(go: GoConversions, v: Value, t: AdsDataType, rest: seq<byte>)
    requires t.code == 5
    ensures var e := EncodePrimitive(go, v, t);
      e.Ok? ==>
        && |e.value| == 8
        && var d := DecodePrimitive(e.value + rest, 5);
          && (v.Float64? ==> d == Ok(v) && Weighted(e.value) == v.f64)
          && (v.Float32? ==> d == Ok(Float64(go.widen(v.f32))))
          && (v.Int? ==> d == Ok(Float64(go.intToFloat64(v.i))))
          && (v.Bool? ==> d == Ok(Float64(if v.b then 0x3FF0_0000_0000_0000 else 0)))
  {
    var e := EncodePrimitive(go, v, t);
    if e.Ok? {
      var f := ToFloat64(go, v).value;
      Pow256Values();
      LEIsWeighted(f, 8);
      HoldsAtFront(e.value, rest);
      PrimitiveRoundTrip(go, v, t, e.value + rest);
      assert CanonicalPrimitive(go, v, t) == Float64(f);
    }
  }

  /** A STRING of no declared size takes 80 bytes: what fits of it, and then zeros. */
  lemma StringBytes(go: GoConversions, s: GoString, t: AdsDataType, k: nat)
    requires t.code == 30 && k < |EncodePrimitive(go, Str(s), t).value|
    ensures var b := EncodePrimitive(go, Str(s), t).value;
      |b| == (if t.size == 0 then 80 else t.size) && b[k] == if k < |s| then s[k] else 0
  {
  }

  /** A WSTRING of no declared size takes 160: the runes of the string, cut to 16 bits,
      low byte first, as many as leave two bytes free, and then zeros. */
  lemma WideStringBytes(go: GoConversions, s: GoString, t: AdsDataType, k: nat)
    requires t.code == 31 && k < |EncodePrimitive(go, Str(s), t).value|
    ensures var b, rs := EncodePrimitive(go, Str(s), t).value, go.runes(s);
      && |b| == (if t.size == 0 then 160 else t.size)
      && b[k] == if k / 2 < |rs| && 2 * (k / 2) + 3 < |b|
                 then if k % 2 == 0 then rs[k / 2] % 0x100 else rs[k / 2] / 0x100 % 0x100
                 else 0
  {
    var rs, n := go.runes(s), WStringWidth(t);
    var chars := WideChars(rs, n);
    if k < 2 * chars {
      CodeUnitAt(rs, chars, k);
    }
  }

  lemma {:induction false} CodeUnitAt(rs: seq<nat>, n: nat, k: nat)
    requires n <= |rs| && k < 2 * n
    ensures CodeUnits(rs, n)[k] == if k % 2 == 0 then rs[k / 2] % 0x100 else rs[k / 2] / 0x100 % 0x100
  {
    if k < 2 * (n - 1) {
      CodeUnitAt(rs, n - 1, k);
    } else {
      SecondByte(rs[n - 1]);
    }
  }

  lemma SecondByte(r: nat)
    ensures r % 0x1_0000 / 256 == r / 0x100 % 0x100
  {
  }

  // ------------------------------------------------------ What bytes are read as

  /** Bytes that reading a type of fixed width takes. */
  function ReadWidth(code: uint32): nat {
    if code == 33 then 1 else if code == 4 then 4 else if code == 5 then 8 else IntegerWidth(code)
  }

  /** The value is of the Go type of the PLC type, and the number that the bytes stand for. */
  predicate ReadsAs(b: seq<byte>, v: Value, code: uint32) {
    if code == 2 then v.Int16? && Stands(b, v.i16)
    else if code == 3 then v.Int32? && Stands(b, v.i32)
    else if code == 4 then v.Float32? && v.f32 == Weighted(b)
    else if code == 5 then v.Float64? && v.f64 == Weighted(b)
    else if code == 16 then v.Int8? && Stands(b, v.i8)
    else if code == 17 then v.Uint8? && v.u8 == Weighted(b)
    else if code == 18 then v.Uint16? && v.u16 == Weighted(b)
    else if code == 19 then v.Uint32? && v.u32 == Weighted(b)
    else if code == 20 then v.Int64? && Stands(b, v.i64)
    else if code == 21 then v.Uint64? && v.u64 == Weighted(b)
    else code == 33 && v.Bool? && |b| == 1 && (v.b <==> b[0] != 0)
  }

  /** Any bytes at all: too few are an error, the others are read as what they stand for. */
  lemma DecodesAs(data: seq<byte>, code: uint32)
    requires ReadWidth(code) > 0
    ensures var d, w := DecodePrimitive(data, code), ReadWidth(code);
      if |data| < w then d == Err(InsufficientData) else d.Ok? && ReadsAs(data[..w], d.value, code)
  {
    var w := ReadWidth(code);
    if |data| >= w {
      FromLEIsWeighted(data[..w]);
      FromLEBound(data[..w]);
      if SignedWidth(code) > 0 {
        SignedRead(data[..w], code);
      } else if UnsignedWidth(code) > 0 {
        UnsignedRead(data[..w], code);
      } else {
        Pow256Values();
      }
    }
  }

  lemma SignedRead(b: seq<byte>, code: uint32)
    requires |b| == SignedWidth(code) > 0 && FromLE(b) < Pow256(|b|) && FromLE(b) == Weighted(b)
    ensures ReadsAs(b, SignedValue(code, FromTwosComplement(FromLE(b), |b|)), code)
  {
    Pow256Values();
  }

  lemma UnsignedRead(b: seq<byte>, code: uint32)
    requires |b| == UnsignedWidth(code) > 0 && FromLE(b) < Pow256(|b|) && FromLE(b) == Weighted(b)
    ensures ReadsAs(b, UnsignedValue(code, FromLE(b)), code)
  {
    Pow256Values();
  }

  /** A VOID is nil; a string of either kind ends before the first zero byte, or with the
      data; every other type is refused. */
  lemma DecodesRest(data: seq<byte>, code: uint32)
    requires ReadWidth(code) == 0
    ensures var d := DecodePrimitive(data, code);
      && (code == 0 ==> d == Ok(Nil))
      && (code == 30 || code == 31 ==>
          && d.Ok? && d.value.Str? && d.value.s <= data && 0 !in d.value.s
          && (d.value.s != data ==> data[|d.value.s|] == 0))
      && (!Known(code) ==> d == Err(UnsupportedType(code)))
  {
    ReadStringIs(data);
  }

  lemma {:induction false} ReadStringIs(data: seq<byte>)
    ensures var s := ReadString(data); s <= data && 0 !in s && (s != data ==> data[|s|] == 0)
  {
    if data != [] && data[0] != 0 {
      ReadStringIs(data[1..]);
      assert data == [data[0]] + data[1..];
    }
  }
}
