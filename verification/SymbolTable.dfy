/** The format of a symbol declaration, that parsing inverts it, and the walk over an
    uploaded table of declarations. */
module SymbolTable {
  import opened Bytes
  import opened Outcomes
  import opened Readers
  import opened Symbols
  import DataTypeParser
  import F = DataTypeFormat
  import Serializer
  import T = SerializerTheorems

  /** A declaration as the server writes it, with whatever bytes fill up its entry. */
  datatype WireSymbol = WireSymbol(symbol: Symbol, guid: seq<byte>, padding: seq<byte>)

  function PutHead(h: Head, k: seq<byte>): seq<byte> {
    PutUint(h.indexGroup, 4, PutUint(h.indexOffset, 4, PutUint(h.size, 4, PutUint(h.dataType, 4,
      PutUint(h.flags, 4, PutUint(h.nameLength, 2, PutUint(h.typeLength, 2, PutUint(h.commentLength, 2, k))))))))
  }

  function PutTail(w: WireSymbol, k: seq<byte>): seq<byte> {
    var flags := w.symbol.head.flags;
    var attributes := w.symbol.attributes;
    var k := if Has(flags, FLAG_ATTRIBUTES)
             then PutUint(|attributes|, 2, PutAll(F.PutAttribute, attributes, k)) else k;
    var k := if Has(flags, FLAG_TYPE_GUID) then Put(w.guid, k) else k;
    PutAll(F.PutArrayBound, w.symbol.arrayInfo, k)
  }

  function PutBody(w: WireSymbol): seq<byte> {
    var x := w.symbol;
    PutHead(x.head, F.PutString(x.name, F.PutString(x.typeName, F.PutString(x.comment, PutTail(w, w.padding)))))
  }

  /** The entry length counts the entry whole. */
  function Encode(w: WireSymbol): seq<byte> {
    PutUint(|PutBody(w)| + 4, 4, PutBody(w))
  }

  predicate PlainAttribute(a: Attribute) {
    |a.name| < 256 && |a.value| < 256 && 0 !in a.name && 0 !in a.value
  }

  /** Lengths and flags say what is there; strings hold no zero byte. */
  predicate WellFormed(w: WireSymbol) {
    var x, h := w.symbol, w.symbol.head;
    && |x.name| == h.nameLength && |x.typeName| == h.typeLength && |x.comment| == h.commentLength
    && 0 !in x.name && 0 !in x.typeName && 0 !in x.comment
    && TailFits(w)
    && |PutBody(w)| + 4 < 0x1_0000_0000
  }

  predicate TailFits(w: WireSymbol) {
    var x, flags := w.symbol, w.symbol.head.flags;
    && |x.arrayInfo| == ArrayDimension(flags)
    && (if Has(flags, FLAG_TYPE_GUID) then |w.guid| == 16 && x.typeGuid == DataTypeParser.Hex(w.guid)
        else x.typeGuid == "")
    && (if Has(flags, FLAG_ATTRIBUTES) then |x.attributes| < 0x1_0000 && F.All(PlainAttribute, x.attributes)
        else x.attributes == [])
  }

  // ------------------------------------------------------ Parsing inverts it

  lemma TextInverts(s: GoString, k: seq<byte>)
    requires 0 !in s
    ensures ParseText(F.PutString(s, k), |s|) == Ok((s, k))
    ensures FillText(F.PutString(s, k), |s|) == Ok((s, k))
  {
    TakePut(s + [0], k);
    FillPut(s + [0], k);
    T.ReadStringStopsAtZero(s, []);
    assert s + [0] + [] == s + [0];
  }

  lemma {:induction false} BoundsInvert(xs: seq<ArrayBound>, k: seq<byte>)
    ensures ParseBounds(PutAll(F.PutArrayBound, xs, k), |xs|) == (xs, k)
  {
    if xs != [] {
      var rest := PutAll(F.PutArrayBound, xs[1..], k);
      BoundInverts(xs[0], rest);
      BoundsInvert(xs[1..], k);
      assert [xs[0]] + xs[1..] == xs;
    }
  }

  lemma BoundInverts(b: ArrayBound, k: seq<byte>)
    ensures DataTypeParser.ParseArrayBound(F.PutArrayBound(b, k)) == Ok((b, k))
  {
    ReadPutI32(b.startIndex, PutUint(b.length, 4, k));
    ReadPut32(b.length, k);
  }

  lemma AttributeInverts(a: Attribute, k: seq<byte>)
    requires PlainAttribute(a)
    ensures ParseAttribute(F.PutAttribute(a, k)) == Ok((a, k))
    ensures |F.PutAttribute(a, k)| >= 2
  {
    var strings := F.PutString(a.name, F.PutString(a.value, k));
    ReadPut8(|a.name|, PutUint(|a.value|, 1, strings));
    ReadPut8(|a.value|, strings);
    TextInverts(a.name, F.PutString(a.value, k));
    TextInverts(a.value, k);
  }

  lemma {:induction false} AttributesInvert(xs: seq<Attribute>, k: seq<byte>)
    requires F.All(PlainAttribute, xs)
    ensures Available(ParseAttribute, |xs|, PutAll(F.PutAttribute, xs, k)) == xs
  {
    if xs != [] {
      var rest := PutAll(F.PutAttribute, xs[1..], k);
      var fewer: nat := |xs| - 1;
      AttributeInverts(xs[0], rest);
      AttributesInvert(xs[1..], k);
      AvailableStep(ParseAttribute, [], |xs|, fewer, F.PutAttribute(xs[0], rest), Ok(xs[0]), rest);
      var all := Available(ParseAttribute, |xs|, PutAll(F.PutAttribute, xs, k));
      assert [] + all == all && [] + [xs[0]] + xs[1..] == xs;
    }
  }

  lemma AttributeSectionInverts(xs: seq<Attribute>, k: seq<byte>)
    requires |xs| < 0x1_0000 && F.All(PlainAttribute, xs)
    ensures ParseAttributes(PutUint(|xs|, 2, PutAll(F.PutAttribute, xs, k))) == xs
  {
    ReadPut16(|xs|, PutAll(F.PutAttribute, xs, k));
    AttributesInvert(xs, k);
  }

  lemma TailInverts(w: WireSymbol, k: seq<byte>)
    requires TailFits(w)
    ensures ParseTail(PutTail(w, k), w.symbol.head.flags)
         == (w.symbol.arrayInfo, w.symbol.typeGuid, w.symbol.attributes)
  {
    var x, flags := w.symbol, w.symbol.head.flags;
    var k1 := if Has(flags, FLAG_ATTRIBUTES)
              then PutUint(|x.attributes|, 2, PutAll(F.PutAttribute, x.attributes, k)) else k;
    var k2 := if Has(flags, FLAG_TYPE_GUID) then Put(w.guid, k1) else k1;
    BoundsInvert(x.arrayInfo, k2);
    if Has(flags, FLAG_TYPE_GUID) {
      FillPut(w.guid, k1);
    }
    if Has(flags, FLAG_ATTRIBUTES) {
      AttributeSectionInverts(x.attributes, k);
    }
  }

  lemma HeadInverts(h: Head, k: seq<byte>)
    ensures ParseHead(PutHead(h, k)) == Ok((h, k))
  {
    var k7 := PutUint(h.commentLength, 2, k);
    var k6 := PutUint(h.typeLength, 2, k7);
    var k5 := PutUint(h.nameLength, 2, k6);
    var k4 := PutUint(h.flags, 4, k5);
    var k3 := PutUint(h.dataType, 4, k4);
    var k2 := PutUint(h.size, 4, k3);
    var k1 := PutUint(h.indexOffset, 4, k2);
    ReadPut32(h.indexGroup, k1);
    ReadPut32(h.indexOffset, k2);
    ReadPut32(h.size, k3);
    ReadPut32(h.dataType, k4);
    ReadPut32(h.flags, k5);
    ReadPut16(h.nameLength, k6);
    ReadPut16(h.typeLength, k7);
    ReadPut16(h.commentLength, k);
  }

  lemma TextsInvert(x: Symbol, k: seq<byte>)
    requires |x.name| == x.head.nameLength && |x.typeName| == x.head.typeLength && |x.comment| == x.head.commentLength
    requires 0 !in x.name && 0 !in x.typeName && 0 !in x.comment
    ensures ParseTexts(F.PutString(x.name, F.PutString(x.typeName, F.PutString(x.comment, k))), x.head)
         == Ok(((x.name, x.typeName, x.comment), k))
  {
    TextInverts(x.comment, k);
    TextInverts(x.typeName, F.PutString(x.comment, k));
    TextInverts(x.name, F.PutString(x.typeName, F.PutString(x.comment, k)));
  }

  lemma HeadTakes26(h: Head, k: seq<byte>)
    ensures |PutHead(h, k)| == 26 + |k|
  {
  }

  /** Parsing the encoding of a well-formed symbol gives the symbol back, its array
      bounds, GUID and attributes included, whatever fills up the entry. */
  lemma ParseInvertsEncode(w: WireSymbol)
    requires WellFormed(w)
    ensures ParseSymbol(Encode(w)) == Ok(w.symbol)
  {
    var x := w.symbol;
    var tail := PutTail(w, w.padding);
    var texts := F.PutString(x.name, F.PutString(x.typeName, F.PutString(x.comment, tail)));
    var length: uint32 := |PutBody(w)| + 4;
    HeadTakes26(x.head, texts);
    ReadPut32(length, PutBody(w));
    HeadInverts(x.head, texts);
    TextsInvert(x, tail);
    TailInverts(w, w.padding);
  }

  // ---------------------------------------------------------------- The walk

  function EntryLength(blob: seq<byte>): uint32
    requires |blob| >= 4
  {
    FromLEBound(blob[..4]);
    Pow256Values();
    FromLE(blob[..4])
  }

  /** The walk ends: too little for a length, a length of zero, or one behind the end. */
  predicate Stops(blob: seq<byte>) {
    |blob| < 4 || EntryLength(blob) == 0 || EntryLength(blob) > |blob|
  }

  function Entries(blob: seq<byte>): seq<seq<byte>>
    decreases |blob|
  {
    if Stops(blob) then []
    else
      var n := EntryLength(blob);
      [blob[..n]] + Entries(blob[n..])
  }

  /** What the walk does not reach. */
  function Rest(blob: seq<byte>): seq<byte>
    decreases |blob|
  {
    if Stops(blob) then blob else Rest(blob[EntryLength(blob)..])
  }

  /** The symbols of the entries that parse. */
  function SymbolsOf(entries: seq<seq<byte>>): seq<Symbol> {
    if entries == [] then [] else Found(ParseSymbol(entries[0])) + SymbolsOf(entries[1..])
  }

  function Found(r: Outcome<Symbol, ParseError>): seq<Symbol> {
    if r.Ok? then [r.value] else []
  }

  /** Every entry that parses is returned, in order, and every other one passed over. */
  lemma {:induction false} EntriesAreFiltered(before: seq<seq<byte>>, entry: seq<byte>, after: seq<seq<byte>>)
    ensures SymbolsOf(before + [entry] + after) ==
      SymbolsOf(before) + (if ParseSymbol(entry).Ok? then [ParseSymbol(entry).value] else []) + SymbolsOf(after)
  {
    var found := Found(ParseSymbol(entry));
    SymbolsAppend(before + [entry], after);
    SymbolsAppend(before, [entry]);
    assert [entry][1..] == [] && found + [] == found;
  }

  lemma {:induction false} SymbolsAppend(a: seq<seq<byte>>, b: seq<seq<byte>>)
    ensures SymbolsOf(a + b) == SymbolsOf(a) + SymbolsOf(b)
  {
    if a == [] {
      assert a + b == b;
    } else {
      assert (a + b)[0] == a[0] && (a + b)[1..] == a[1..] + b;
      SymbolsAppend(a[1..], b);
      Regroup(Found(ParseSymbol(a[0])), SymbolsOf(a[1..]), SymbolsOf(b));
    }
  }

  /** UploadSymbols from the blob that was read. */
  method UploadSymbols(blob: seq<byte>) returns (symbols: seq<Symbol>)
    ensures symbols == SymbolsOf(Entries(blob))
  {
    symbols := [];
    var pos := 0;
    ghost var rest := blob;
    ghost var todo := SymbolsOf(Entries(blob));
    assert [] + todo == todo && blob[0..] == blob;
    while pos + 4 <= |blob|
      invariant 0 <= pos <= |blob| && rest == blob[pos..]
      invariant todo == SymbolsOf(Entries(rest))
      invariant symbols + todo == SymbolsOf(Entries(blob))
    {
      var entryLen := EntryLength(blob[pos..]);
      if entryLen <= 0 || pos + entryLen > |blob| {
        break;
      }
      var entry := blob[pos..pos + entryLen];
      ghost var next := blob[pos + entryLen..];
      SliceStep(blob, pos, entryLen);
      var sym := ReadSymbol(entry);
      WalkStep(rest, entry, next, sym);
      ghost var left := SymbolsOf(Entries(next));
      Regroup(symbols, Found(sym), left);
      symbols := symbols + Found(sym);
      pos := pos + entryLen;
      rest, todo := next, left;
    }
    assert symbols + [] == symbols;
  }

  lemma SliceStep(blob: seq<byte>, pos: nat, n: nat)
    requires pos + n <= |blob|
    ensures blob[pos..][..n] == blob[pos..pos + n] && blob[pos..][n..] == blob[pos + n..]
  {
  }

  lemma WalkStep(rest: seq<byte>, entry: seq<byte>, next: seq<byte>, r: Outcome<Symbol, ParseError>)
    requires !Stops(rest) && entry == rest[..EntryLength(rest)] && next == rest[EntryLength(rest)..]
    requires r == ParseSymbol(entry)
    ensures SymbolsOf(Entries(rest)) == Found(r) + SymbolsOf(Entries(next))
  {
    var entries := Entries(rest);
    assert entries[0] == entry && entries[1..] == Entries(next);
  }

  /** The entries are consecutive slices of a prefix without gaps, and behind them the
      walk has a reason to stop. */
  lemma {:induction false} EntriesPartition(blob: seq<byte>)
    ensures Serializer.Concat(Entries(blob)) + Rest(blob) == blob
    ensures forall e :: e in Entries(blob) ==> e != []
    ensures var rest := Rest(blob); |rest| < 4 || Weighted(rest[..4]) == 0 || Weighted(rest[..4]) > |rest|
  {
    EntriesCover(blob);
    EntriesNotEmpty(blob);
    RestStops(blob);
    if |Rest(blob)| >= 4 {
      FromLEIsWeighted(Rest(blob)[..4]);
    }
  }

  lemma {:induction false} EntriesCover(blob: seq<byte>)
    ensures Serializer.Concat(Entries(blob)) + Rest(blob) == blob
    decreases |blob|
  {
    if Stops(blob) {
      assert [] + blob == blob;
    } else {
      var n := EntryLength(blob);
      var first, next := blob[..n], blob[n..];
      EntriesCover(next);
      ConcatCons(first, Entries(next));
      CoverStep(blob, first, Serializer.Concat(Entries(next)), Rest(next), next);
    }
  }

  lemma CoverStep(blob: seq<byte>, first: seq<byte>, tail: seq<byte>, rest: seq<byte>, next: seq<byte>)
    requires blob == first + next && tail + rest == next
    ensures (first + tail) + rest == blob
  {
  }

  lemma {:induction false} EntriesNotEmpty(blob: seq<byte>)
    ensures forall e :: e in Entries(blob) ==> e != []
    decreases |blob|
  {
    if !Stops(blob) {
      EntriesNotEmpty(blob[EntryLength(blob)..]);
    }
  }

  lemma {:induction false} RestStops(blob: seq<byte>)
    ensures Stops(Rest(blob))
    decreases |blob|
  {
    if !Stops(blob) {
      RestStops(blob[EntryLength(blob)..]);
    }
  }

  /** Entry `i` begins where the entries before it end, and is as long as it says there. */
  lemma {:induction false} EntryAt(blob: seq<byte>, i: nat) returns (at: nat)
    requires i < |Entries(blob)|
    ensures at == |Serializer.Concat(Entries(blob)[..i])| && at + 4 <= |blob| && !Stops(blob[at..])
    ensures Entries(blob)[i] == blob[at..][..EntryLength(blob[at..])]
    decreases |blob|
  {
    if i == 0 {
      at := 0;
      assert blob[0..] == blob;
    } else {
      var n := EntryLength(blob);
      var first, next := blob[..n], blob[n..];
      var before := EntryAt(next, i - 1);
      assert Entries(blob)[..i] == [first] + Entries(next)[..i - 1];
      ConcatCons(first, Entries(next)[..i - 1]);
      at := n + before;
      assert blob[at..] == next[before..];
    }
  }

  lemma ConcatCons(part: seq<byte>, parts: seq<seq<byte>>)
    ensures Serializer.Concat([part] + parts) == part + Serializer.Concat(parts)
  {
    assert ([part] + parts)[1..] == parts;
  }

  /** Bytes behind a table that the walk goes through add their own entries. */
  lemma {:induction false} EntriesAppend(a: seq<byte>, b: seq<byte>)
    requires Rest(a) == []
    ensures Entries(a + b) == Entries(a) + Entries(b) && Rest(a + b) == Rest(b)
    decreases |a|
  {
    if Stops(a) {
      assert a + b == b;
      assert [] + Entries(b) == Entries(b);
    } else {
      var n := EntryLength(a);
      assert (a + b)[..4] == a[..4];
      assert (a + b)[..n] == a[..n] && (a + b)[n..] == a[n..] + b;
      EntriesAppend(a[n..], b);
      assert ([a[..n]] + Entries(a[n..])) + Entries(b) == [a[..n]] + (Entries(a[n..]) + Entries(b));
    }
  }

  lemma EncodeLength(w: WireSymbol)
    requires |PutBody(w)| + 4 < 0x1_0000_0000
    ensures |Encode(w)| == |PutBody(w)| + 4 && EntryLength(Encode(w)) == |Encode(w)|
  {
    var body := PutBody(w);
    Prefixed(|body| + 4, body);
  }

  lemma Prefixed(n: uint32, body: seq<byte>)
    ensures |PutUint(n, 4, body)| == |body| + 4 && EntryLength(PutUint(n, 4, body)) == n
  {
    Pow256Values();
    LERoundTrip(n, 4);
    assert PutUint(n, 4, body)[..4] == LE(n, 4);
  }

  function Table(ws: seq<WireSymbol>): seq<byte> {
    if ws == [] then [] else Encode(ws[0]) + Table(ws[1..])
  }

  function Declared(ws: seq<WireSymbol>): seq<Symbol> {
    if ws == [] then [] else [ws[0].symbol] + Declared(ws[1..])
  }

  predicate AllWellFormed(ws: seq<WireSymbol>) {
    ws != [] ==> WellFormed(ws[0]) && AllWellFormed(ws[1..])
  }

  /** An upload of any number of well-formed symbols returns all of them in order; what
      follows the table adds only what it declares itself. */
  lemma {:induction false} UploadReturnsAll(ws: seq<WireSymbol>, k: seq<byte>)
    requires AllWellFormed(ws)
    ensures SymbolsOf(Entries(Table(ws) + k)) == Declared(ws) + SymbolsOf(Entries(k))
  {
    if ws == [] {
      assert [] + k == k && [] + SymbolsOf(Entries(k)) == SymbolsOf(Entries(k));
    } else {
      var rest := Table(ws[1..]) + k;
      UploadReturnsAll(ws[1..], k);
      FirstSymbol(ws[0], rest);
      Regroup(Encode(ws[0]), Table(ws[1..]), k);
      Regroup([ws[0].symbol], Declared(ws[1..]), SymbolsOf(Entries(k)));
    }
  }

  lemma FirstSymbol(w: WireSymbol, rest: seq<byte>)
    requires WellFormed(w)
    ensures SymbolsOf(Entries(Encode(w) + rest)) == [w.symbol] + SymbolsOf(Entries(rest))
  {
    var entry := Encode(w);
    EncodeLength(w);
    FirstEntry(entry, rest);
    ParseInvertsEncode(w);
    WalkStep(entry + rest, entry, rest, Ok(w.symbol));
  }

  lemma Regroup<T>(a: seq<T>, b: seq<T>, c: seq<T>)
    ensures a + (b + c) == (a + b) + c
  {
  }

  lemma FirstEntry(entry: seq<byte>, rest: seq<byte>)
    requires |entry| >= 4 && EntryLength(entry) == |entry|
    ensures var blob := entry + rest;
      && !Stops(blob) && EntryLength(blob) == |entry|
      && blob[..|entry|] == entry && blob[|entry|..] == rest
  {
    assert (entry + rest)[..4] == entry[..4];
  }
}
