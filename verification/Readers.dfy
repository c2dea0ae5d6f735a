/** bytes.Reader and binary.Read. A reader is the bytes it has not yet delivered: all
    its users only move forward, and a position at or behind the end behaves the same. */
module Readers {
  import opened Bytes
  import opened Outcomes

  datatype ParseError = InvalidData | InsufficientData | InvalidEntryLength | InvalidSymbolLength

  /** A value and the bytes behind it. */
  type Parsed<+T> = Outcome<(T, seq<byte>), ParseError>

  /** binary.Read of `n` bytes: all of them or an error. */
  function Take(s: seq<byte>, n: nat): Parsed<seq<byte>> {
    if |s| < n then Err(InvalidData) else Ok((s[..n], s[n..]))
  }

  /** Reader.Read into a slice of `n` bytes. A short read succeeds and leaves zeros; at
      the end of the data it fails, even for an empty slice. */
  function Fill(s: seq<byte>, n: nat): (r: Parsed<seq<byte>>)
    ensures r.Ok? ==> |r.value.0| == n
    ensures !r.Panic?
  {
    if s == [] then Err(InvalidData)
    else if |s| < n then Ok((s + Zeros(n - |s|), []))
    else Ok((s[..n], s[n..]))
  }

  /** Reader.Seek relative to the current position; behind the end nothing is left. */
  function Skip(s: seq<byte>, n: nat): seq<byte> {
    if |s| < n then [] else s[n..]
  }

  function ReadUint(s: seq<byte>, w: nat): (r: Parsed<nat>)
    ensures r.Ok? ==> r.value.0 < Pow256(w)
    ensures !r.Panic?
  {
    var (b, rest) :- Take(s, w);
    FromLEBound(b);
    Ok((FromLE(b), rest))
  }

  function ReadU8(s: seq<byte>): (r: Parsed<uint8>) ensures !r.Panic? {
    Pow256Values();
    var (n, rest) :- ReadUint(s, 1);
    Ok((n, rest))
  }

  function ReadU16(s: seq<byte>): (r: Parsed<uint16>) ensures !r.Panic? {
    Pow256Values();
    var (n, rest) :- ReadUint(s, 2);
    Ok((n, rest))
  }

  function ReadU32(s: seq<byte>): (r: Parsed<uint32>) ensures !r.Panic? {
    Pow256Values();
    var (n, rest) :- ReadUint(s, 4);
    Ok((n, rest))
  }

  function ReadU64(s: seq<byte>): (r: Parsed<uint64>) ensures !r.Panic? {
    Pow256Values();
    var (n, rest) :- ReadUint(s, 8);
    Ok((n, rest))
  }

  function ReadI32(s: seq<byte>): (r: Parsed<int32>) ensures !r.Panic? {
    Pow256Values();
    var (n, rest) :- ReadUint(s, 4);
    Ok((FromTwosComplement(n, 4), rest))
  }

  /** `n` items in a row. */
  function Repeat<T>(p: seq<byte> -> Parsed<T>, n: nat, s: seq<byte>): (r: Parsed<seq<T>>)
    ensures r.Ok? ==> |r.value.0| == n
  {
    if n == 0 then Ok(([], s))
    else
      var (first, s1) :- p(s);
      var (rest, s2) :- Repeat(p, n - 1, s1);
      Ok(([first] + rest, s2))
  }

  // --------------------------------------------------------------- Encoding

  /** Encoders put their bytes in front of what follows. */
  function Put(b: seq<byte>, k: seq<byte>): seq<byte> {
    b + k
  }

  function PutUint(n: nat, w: nat, k: seq<byte>): seq<byte> {
    LE(n, w) + k
  }

  function PutAll<T>(put: (T, seq<byte>) -> seq<byte>, xs: seq<T>, k: seq<byte>): seq<byte> {
    if xs == [] then k else put(xs[0], PutAll(put, xs[1..], k))
  }

  lemma TakePut(b: seq<byte>, k: seq<byte>)
    ensures Take(Put(b, k), |b|) == Ok((b, k))
  {
  }

  lemma FillPut(b: seq<byte>, k: seq<byte>)
    requires b != []
    ensures Fill(Put(b, k), |b|) == Ok((b, k))
  {
  }

  lemma ReadPut(n: nat, w: nat, k: seq<byte>)
    requires n < Pow256(w)
    ensures ReadUint(PutUint(n, w, k), w) == Ok((n, k))
  {
    LERoundTrip(n, w);
    TakePut(LE(n, w), k);
  }

  lemma ReadPut8(n: uint8, k: seq<byte>)
    ensures ReadU8(PutUint(n, 1, k)) == Ok((n, k))
  {
    Pow256Values();
    ReadPut(n, 1, k);
  }

  lemma ReadPut16(n: uint16, k: seq<byte>)
    ensures ReadU16(PutUint(n, 2, k)) == Ok((n, k))
  {
    Pow256Values();
    ReadPut(n, 2, k);
  }

  lemma ReadPut32(n: uint32, k: seq<byte>)
    ensures ReadU32(PutUint(n, 4, k)) == Ok((n, k))
  {
    Pow256Values();
    ReadPut(n, 4, k);
  }

  lemma ReadPut64(n: uint64, k: seq<byte>)
    ensures ReadU64(PutUint(n, 8, k)) == Ok((n, k))
  {
    Pow256Values();
    ReadPut(n, 8, k);
  }

  function PutI32(i: int32, k: seq<byte>): seq<byte> {
    Pow256Values();
    PutUint(TwosComplement(i, 4), 4, k)
  }

  lemma ReadPutI32(i: int32, k: seq<byte>)
    ensures ReadI32(PutI32(i, k)) == Ok((i, k))
  {
    Pow256Values();
    ReadPut(TwosComplement(i, 4), 4, k);
  }

  /** Items whose parser inverts their encoder are read back one after the other. */
  lemma RepeatPutStep<T>(p: seq<byte> -> Parsed<T>, put: (T, seq<byte>) -> seq<byte>, xs: seq<T>, k: seq<byte>)
    requires xs != []
    requires p(put(xs[0], PutAll(put, xs[1..], k))) == Ok((xs[0], PutAll(put, xs[1..], k)))
    requires Repeat(p, |xs| - 1, PutAll(put, xs[1..], k)) == Ok((xs[1..], k))
    ensures Repeat(p, |xs|, PutAll(put, xs, k)) == Ok((xs, k))
  {
    assert xs == [xs[0]] + xs[1..];
  }

  // ------------------------------------------------------------- Suffixes

  /** `t` is what is left of `s` after some bytes. */
  predicate SuffixOf(t: seq<byte>, s: seq<byte>) {
    |t| <= |s| && t == s[|s| - |t|..]
  }

  lemma SuffixTransitive(a: seq<byte>, b: seq<byte>, c: seq<byte>)
    requires SuffixOf(a, b) && SuffixOf(b, c)
    ensures SuffixOf(a, c)
  {
    assert c[|c| - |b|..][|b| - |a|..] == c[|c| - |a|..];
  }

  // -------------------------------------------------- A reader with a state

  /** The method that ran `spec` ended with `r` and left `rest` in the reader, unless it
      failed: a failed binary.Read has consumed what there was. */
  predicate Ran<T(==)>(spec: Parsed<T>, r: Outcome<T, ParseError>, rest: seq<byte>) {
    match spec
    case Ok((v, s)) => r == Ok(v) && rest == s
    case Err(e) => r == Err(e)
    case Panic => r == Panic
  }

  /** The value alone. */
  function Result<T>(p: Parsed<T>): Outcome<T, ParseError> {
    match p
    case Ok((v, _)) => Ok(v)
    case Err(e) => Err(e)
    case Panic => Panic
  }

  class Reader {
    var rest: seq<byte>

    constructor (data: seq<byte>)
      ensures rest == data
    {
      rest := data;
    }

    method Full(n: nat) returns (r: Outcome<seq<byte>, ParseError>)
      modifies this
      ensures Ran(Take(old(rest), n), r, rest)
      ensures r.Err? ==> rest == []
    {
      if |rest| < n {
        rest := [];
        return Err(InvalidData);
      }
      r := Ok(rest[..n]);
      rest := rest[n..];
    }

    method Read(n: nat) returns (r: Outcome<seq<byte>, ParseError>)
      modifies this
      ensures Ran(Fill(old(rest), n), r, rest)
      ensures r.Err? ==> rest == []
    {
      if rest == [] {
        return Err(InvalidData);
      }
      if |rest| < n {
        r := Ok(rest + Zeros(n - |rest|));
        rest := [];
      } else {
        r := Ok(rest[..n]);
        rest := rest[n..];
      }
    }

    method Seek(n: nat)
      modifies this
      ensures rest == Skip(old(rest), n)
    {
      rest := if |rest| < n then [] else rest[n..];
    }

    method U8() returns (r: Outcome<uint8, ParseError>)
      modifies this
      ensures Ran(ReadU8(old(rest)), r, rest)
      ensures r.Err? ==> rest == []
    {
      Pow256Values();
      var b := Full(1);
      if b.IsFailure() {
        return b.PropagateFailure();
      }
      FromLEBound(b.value);
      r := Ok(FromLE(b.value));
    }

    method U16() returns (r: Outcome<uint16, ParseError>)
      modifies this
      ensures Ran(ReadU16(old(rest)), r, rest)
      ensures r.Err? ==> rest == []
    {
      Pow256Values();
      var b := Full(2);
      if b.IsFailure() {
        return b.PropagateFailure();
      }
      FromLEBound(b.value);
      r := Ok(FromLE(b.value));
    }

    method U32() returns (r: Outcome<uint32, ParseError>)
      modifies this
      ensures Ran(ReadU32(old(rest)), r, rest)
      ensures r.Err? ==> rest == []
    {
      Pow256Values();
      var b := Full(4);
      if b.IsFailure() {
        return b.PropagateFailure();
      }
      FromLEBound(b.value);
      r := Ok(FromLE(b.value));
    }

    method U64() returns (r: Outcome<uint64, ParseError>)
      modifies this
      ensures Ran(ReadU64(old(rest)), r, rest)
    {
      Pow256Values();
      var b := Full(8);
      if b.IsFailure() {
        return b.PropagateFailure();
      }
      FromLEBound(b.value);
      r := Ok(FromLE(b.value));
    }

    method I32() returns (r: Outcome<int32, ParseError>)
      modifies this
      ensures Ran(ReadI32(old(rest)), r, rest)
      ensures r.Err? ==> rest == []
    {
      Pow256Values();
      var n := U32();
      if n.IsFailure() {
        return n.PropagateFailure();
      }
      r := Ok(FromTwosComplement(n.value, 4));
    }
  }

  /** Items read so far, and then what is still to be read. */
  function Onto<T>(front: seq<T>, p: Parsed<seq<T>>): Parsed<seq<T>> {
    match p
    case Ok((rest, s)) => Ok((front + rest, s))
    case Err(e) => Err(e)
    case Panic => Panic
  }

  lemma OntoNone<T>(p: Parsed<seq<T>>)
    ensures Onto([], p) == p
  {
    if p.Ok? {
      assert [] + p.value.0 == p.value.0;
    }
  }

  lemma OntoOnto<T>(front: seq<T>, x: T, p: Parsed<seq<T>>)
    ensures Onto(front, Onto([x], p)) == Onto(front + [x], p)
  {
    if p.Ok? {
      assert front + ([x] + p.value.0) == (front + [x]) + p.value.0;
    }
  }

  /** One more round of a reading loop: of `n` items, the method that reads one ended
      with `r` and left `rest` for the other `fewer`. */
  lemma OntoStep<T>(p: seq<byte> -> Parsed<T>, front: seq<T>, n: nat, fewer: nat, s: seq<byte>,
                    r: Outcome<T, ParseError>, rest: seq<byte>)
    requires n == fewer + 1 && Ran(p(s), r, rest)
    ensures r.Ok? ==> Onto(front, Repeat(p, n, s)) == Onto(front + [r.value], Repeat(p, fewer, rest))
    ensures r.Err? ==> Onto(front, Repeat(p, n, s)) == Err(r.error)
    ensures r.Panic? ==> Onto(front, Repeat(p, n, s)) == Panic
  {
    if r.Ok? {
      var tail := Repeat(p, fewer, rest);
      if tail.Ok? {
        assert front + ([r.value] + tail.value.0) == (front + [r.value]) + tail.value.0;
      }
    }
  }
}
