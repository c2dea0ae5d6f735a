/** What the parsers make of data that is cut short, and of any bytes where their formats
    leave a choice. */
module ShortData {
  import opened Bytes
  import opened Outcomes
  import opened Readers
  import opened DataTypeParser
  import DataTypeFormat
  import DataTypeMethods
  import Notifications
  import Primitives
  import Serializer
  import Symbols

  // ------------------------------------------------------------- The reader

  /** binary.Read takes all it needs or fails; Reader.Read fails only at the end of the
      data and fills what is missing with zeros; Seek goes no further than the end. */
  lemma ReaderReads(s: seq<byte>, n: nat)
    ensures Take(s, n) == if n <= |s| then Ok((s[..n], s[n..])) else Err(InvalidData)
    ensures Fill(s, n) == if s == [] then Err(InvalidData)
                          else if n <= |s| then Take(s, n) else Ok((s + Zeros(n - |s|), []))
    ensures Skip(s, n) == if Take(s, n).Ok? then Take(s, n).value.1 else []
  {
  }

  /** `w` bytes, the one that counts least first. */
  predicate Reads(p: Parsed<nat>, s: seq<byte>, w: nat) {
    p == if w <= |s| then Ok((Weighted(s[..w]), s[w..])) else Err(InvalidData)
  }

  lemma UintReads(s: seq<byte>, w: nat)
    ensures Reads(ReadUint(s, w), s, w)
  {
    if w <= |s| {
      FromLEIsWeighted(s[..w]);
    }
  }

  lemma IntegersRead(s: seq<byte>)
    ensures Reads(ReadU8(s), s, 1) && Reads(ReadU16(s), s, 2) && Reads(ReadU32(s), s, 4) && Reads(ReadU64(s), s, 8)
  {
    UintReads(s, 1);
    UintReads(s, 2);
    UintReads(s, 4);
    UintReads(s, 8);
  }

  // ------------------------------------------------- Data type declarations

  lemma DropDrop(s: seq<byte>, a: nat, b: nat)
    requires a + b <= |s|
    ensures s[a..][b..] == s[a + b..]
  {
  }

  lemma HeadReads(s: seq<byte>)
    ensures ParseHead(s).Ok? <==> |s| >= 38
    ensures ParseHead(s).Ok? ==> ParseHead(s).value.1 == s[38..]
    ensures !ParseHead(s).Ok? ==> ParseHead(s) == Err(InvalidData)
  {
    var words := ParseWords(s);
    if |s| >= 28 {
      var lengths := DataTypeFormat.ParseLengths(s[28..]);
      DropDrop(s, 28, if |s| >= 38 then 10 else 0);
    }
  }

  /** The seven words of the fixed part. */
  function ParseWords(s: seq<byte>): (r: Parsed<()>)
    ensures r == if |s| >= 28 then Ok(((), s[28..])) else Err(InvalidData)
  {
    var (_, s) :- ReadU32(s);
    var (_, s) :- ReadU32(s);
    var (_, s) :- ReadU32(s);
    var (_, s) :- ReadU32(s);
    var (_, s) :- ReadU32(s);
    var (_, s) :- ReadU32(s);
    var (_, s) :- ReadU32(s);
    Ok(((), s))
  }

  lemma StringReads(s: seq<byte>, length: uint16)
    ensures var r := ParseString(s, length);
      if length == 0xFFFF then r == Panic
      else if |s| <= length then r == Err(InvalidData)
      else r == Ok((s[..length], s[length + 1..]))
  {
    if length < 0xFFFF && |s| > length {
      assert s[..length + 1][..length] == s[..length];
    }
  }

  lemma {:induction false} BoundsRead(s: seq<byte>, n: nat)
    ensures var r := Repeat(ParseArrayBound, n, s);
      if |s| < 8 * n then r == Err(InvalidData) else r.Ok? && r.value.1 == s[8 * n..]
  {
    if n > 0 {
      if |s| >= 8 {
        BoundsRead(s[8..], n - 1);
      }
    }
  }

  /** The length of the part in front of the sub-items, the entry length included. */
  function FrontLength(h: Head): nat {
    42 + (h.nameLength + 1) + (h.typeLength + 1) + (h.commentLength + 1) + 8 * h.arrayDim
  }

  /** The part in front of the sub-items is there exactly when the data is as long as its
      own lengths say; no byte behind a string is looked at. */
  lemma FrontParsesIff(data: seq<byte>)
    ensures |data| < 4 ==> ParseFront(data) == Err(InsufficientData)
    ensures 4 <= |data| < 42 ==> ParseFront(data) == Err(InvalidData)
    ensures |data| >= 42 ==>
      && ParseHead(data[4..]).Ok?
      && var h := ParseHead(data[4..]).value.0;
        && (ParseFront(data).Ok? <==>
              h.nameLength < 0xFFFF && h.typeLength < 0xFFFF && h.commentLength < 0xFFFF && |data| >= FrontLength(h))
        && (ParseFront(data).Ok? ==> ParseFront(data).value.0.head == h && ParseFront(data).value.1 == data[FrontLength(h)..])
  {
    if |data| >= 4 {
      var s0 := data[4..];
      assert ReadU32(data).value.1 == s0;
      HeadReads(s0);
      if |data| >= 42 {
        var h, s1 := ParseHead(s0).value.0, s0[38..];
        TextsNeed(s1, h);
        FrontFrom(data, s0, h, s1);
      }
    }
  }

  /** The three strings and the bounds behind the fixed part. */
  function ParseTexts(s: seq<byte>, h: Head): Parsed<()> {
    var (_, s) :- ParseString(s, h.nameLength);
    var (_, s) :- ParseString(s, h.typeLength);
    ParseLastTexts(s, h)
  }

  function ParseLastTexts(s: seq<byte>, h: Head): Parsed<()> {
    var (_, s) :- ParseString(s, h.commentLength);
    var (_, s) :- Repeat(ParseArrayBound, h.arrayDim, s);
    Ok(((), s))
  }

  /** `p` needs `n` bytes of `s` and leaves the others, unless a length makes it fail. */
  predicate Needs<T(==)>(p: Parsed<T>, possible: bool, n: nat, s: seq<byte>) {
    && (p.Ok? <==> possible && |s| >= n)
    && (p.Ok? ==> p.value.1 == s[n..])
  }

  lemma StringNeeds(s: seq<byte>, length: uint16)
    ensures Needs(ParseString(s, length), length < 0xFFFF, length + 1, s)
  {
    StringReads(s, length);
  }

  lemma LastTextsNeed(s: seq<byte>, h: Head)
    ensures Needs(ParseLastTexts(s, h), h.commentLength < 0xFFFF, h.commentLength + 1 + 8 * h.arrayDim, s)
  {
    var a := h.commentLength + 1;
    StringNeeds(s, h.commentLength);
    if h.commentLength < 0xFFFF && |s| >= a {
      BoundsRead(s[a..], h.arrayDim);
    }
  }

  lemma TextsNeed(s: seq<byte>, h: Head)
    ensures Needs(ParseTexts(s, h), h.nameLength < 0xFFFF && h.typeLength < 0xFFFF && h.commentLength < 0xFFFF,
                  FrontLength(h) - 42, s)
  {
    var a, b, c := h.nameLength + 1, h.typeLength + 1, h.commentLength + 1 + 8 * h.arrayDim;
    StringNeeds(s, h.nameLength);
    if h.nameLength < 0xFFFF && |s| >= a {
      StringNeeds(s[a..], h.typeLength);
      if h.typeLength < 0xFFFF && |s| >= a + b {
        DropDrop(s, a, b);
        LastTextsNeed(s[a + b..], h);
      }
    }
  }

  lemma FrontFrom(data: seq<byte>, s0: seq<byte>, h: Head, s1: seq<byte>)
    requires |data| >= 4 && ReadU32(data).Ok? && ReadU32(data).value.1 == s0 && ParseHead(s0) == Ok((h, s1))
    ensures ParseFront(data).Ok? <==> ParseTexts(s1, h).Ok?
    ensures ParseFront(data).Ok? ==> ParseFront(data).value.0.head == h && ParseFront(data).value.1 == ParseTexts(s1, h).value.1
  {
  }

  /** A sub-item needs a length and, even when it has no body, a byte behind it; a length
      below its own four bytes is refused; missing bytes are zeros. */
  lemma EntryReads(s: seq<byte>)
    ensures s == [] ==> ReadEntry(s) == Err(InvalidData)
    ensures s != [] ==>
      && Fill(s, 4).Ok?
      && var (length, rest) := Fill(s, 4).value;
        if Weighted(length) < 4 then ReadEntry(s) == Err(InvalidEntryLength)
        else if rest == [] then ReadEntry(s) == Err(InvalidData)
        else ReadEntry(s) == Ok((length + Fill(rest, Weighted(length) - 4).value.0, Skip(rest, Weighted(length) - 4)))
  {
    if s != [] {
      FromLEIsWeighted(Fill(s, 4).value.0);
    }
  }

  /** Each entry parses by itself, and these are what they parse to. */
  predicate AllParse(entries: seq<seq<byte>>) {
    forall i :: 0 <= i < |entries| ==> ParseDataType(entries[i]).Ok?
  }

  predicate ParsedTo(entries: seq<seq<byte>>, types: seq<DataType>) {
    && |entries| == |types|
    && forall i :: 0 <= i < |entries| ==> ParseDataType(entries[i]).Ok? && types[i] == ParseDataType(entries[i]).value.0
  }

  /** On any bytes the sub-items parse exactly when their entries are there and each entry
      parses by itself, to what it parses to. */
  lemma {:induction false} SubItemsParseIff(s: seq<byte>, n: nat, bound: nat)
    requires n > 0 ==> Significant(s) < bound
    ensures var r, entries := ParseSubItems(s, n, bound), Repeat(ReadEntry, n, s);
      && (r.Ok? <==> entries.Ok? && AllParse(entries.value.0))
      && (r.Ok? ==> r.value.1 == entries.value.1 && ParsedTo(entries.value.0, r.value.0))
    decreases n
  {
    if n > 0 {
      var fewer: nat := n - 1;
      Notifications.RepeatStep(ReadEntry, n, fewer, s);
      if ReadEntry(s).Ok? {
        var (entry, rest) := ReadEntry(s).value;
        ItemFrom(s, bound, entry, rest);
        SubItemsParseIff(rest, fewer, bound);
        if Repeat(ReadEntry, fewer, rest).Ok? {
          AllParseCons(entry, Repeat(ReadEntry, fewer, rest).value.0);
        }
        if ParseDataType(entry).Ok? {
          DataTypeMethods.FirstSubItem(n, fewer, bound, s);
          if ParseSubItems(rest, fewer, bound).Ok? {
            ParsedToCons(entry, Repeat(ReadEntry, fewer, rest).value.0, ParseDataType(entry).value.0,
                         ParseSubItems(rest, fewer, bound).value.0);
          }
        } else {
          DataTypeMethods.NoFirstSubItem(n, bound, s);
        }
      } else {
        DataTypeMethods.NoFirstSubItem(n, bound, s);
      }
    }
  }

  lemma AllParseCons(entry: seq<byte>, entries: seq<seq<byte>>)
    ensures AllParse([entry] + entries) <==> ParseDataType(entry).Ok? && AllParse(entries)
  {
    var all := [entry] + entries;
    assert all[0] == entry && forall i :: 0 <= i < |entries| ==> all[i + 1] == entries[i];
    if ParseDataType(entry).Ok? && AllParse(entries) {
      forall i | 0 <= i < |all| ensures ParseDataType(all[i]).Ok? {
        assert i > 0 ==> all[i] == entries[i - 1];
      }
    }
  }

  lemma ParsedToCons(entry: seq<byte>, entries: seq<seq<byte>>, d: DataType, types: seq<DataType>)
    requires ParseDataType(entry).Ok? && d == ParseDataType(entry).value.0 && ParsedTo(entries, types)
    ensures ParsedTo([entry] + entries, [d] + types)
  {
    var all, items := [entry] + entries, [d] + types;
    forall i | 0 <= i < |all| ensures ParseDataType(all[i]).Ok? && items[i] == ParseDataType(all[i]).value.0 {
      assert i > 0 ==> all[i] == entries[i - 1] && items[i] == types[i - 1];
    }
  }

  lemma ItemFrom(s: seq<byte>, bound: nat, entry: seq<byte>, rest: seq<byte>)
    requires Significant(s) < bound && ReadEntry(s) == Ok((entry, rest))
    ensures var d, r := ParseDataType(entry), ParseSubItem(s, bound);
      (r.Ok? <==> d.Ok?) && (r.Ok? ==> r.value == (d.value.0, rest))
  {
  }

  /** So behind any front and whatever the bytes, a declaration parses exactly when each of
      the entries that it counts is there and parses by itself, and the sections that it
      announces parse behind them. */
  lemma DeclarationParsesIff(w: DataTypeFormat.Wire, length: uint32, s: seq<byte>)
    requires DataTypeFormat.FrontFits(w)
    ensures var r, entries := ParseDataType(DataTypeFormat.FrontOf(w, length, s)), Repeat(ReadEntry, w.head.subItemCount, s);
      if !entries.Ok? || !AllParse(entries.value.0) then !r.Ok?
      else
        var options := ParseOptions(entries.value.1, AnnouncedBy(w.head.flags), w.head.size);
        && (r.Ok? <==> options.Ok?)
        && (r.Ok? ==>
              && r.value.0.head == w.head && r.value.0.name == w.name && r.value.0.arrayInfo == w.arrayInfo
              && ParsedTo(entries.value.0, r.value.0.subItems)
              && r.value.0.options == options.value.0 && r.value.1 == options.value.1)
  {
    var data := DataTypeFormat.FrontOf(w, length, s);
    DataTypeFormat.FrontInverts(w, length, s);
    FrontSuffix(data);
    SubItemsParseIff(s, w.head.subItemCount, Significant(data));
    DeclarationFrom(data, ParseFront(data).value.0, s, ParseSubItems(s, w.head.subItemCount, Significant(data)));
  }

  lemma DeclarationFrom(data: seq<byte>, front: DataType, s: seq<byte>, subItems: Parsed<seq<DataType>>)
    requires ParseFront(data) == Ok((front, s)) && (front.head.subItemCount > 0 ==> Significant(s) < Significant(data))
    requires subItems == ParseSubItems(s, front.head.subItemCount, Significant(data))
    ensures !subItems.Ok? ==> !ParseDataType(data).Ok?
    ensures subItems.Ok? ==>
      var options := ParseOptions(subItems.value.1, AnnouncedBy(front.head.flags), front.head.size);
      if options.Ok?
      then ParseDataType(data) == Ok((front.(subItems := subItems.value.0, options := options.value.0), options.value.1))
      else !ParseDataType(data).Ok?
  {
  }

  /** A list whose items run out before its count is reached is an error, whichever the
      section is. */
  lemma ListRunsOut(count: uint16, k: nat, s: seq<byte>, size: uint32)
    requires k < count
    ensures RunsOut(SkipMethod, k, s) ==> ParseMethodInfos(PutUint(count, 2, s)) == Err(InvalidData)
    ensures RunsOut(ParseAttribute, k, s) ==> ParseAttributes(PutUint(count, 2, s)) == Err(InvalidData)
    ensures RunsOut(ParseEnumInfo(size), k, s) ==> ParseEnumInfos(PutUint(count, 2, s), size) == Err(InvalidData)
    ensures RunsOut(SkipGuid, k, s) ==> ParseDeRefTypeItem(PutUint(count, 2, s)) == Err(InvalidData)
    ensures RunsOut(ParseExtendedEnumInfo, k, s) ==> Repeat(ParseExtendedEnumInfo, count, s) == Err(InvalidData)
  {
    ReadPut16(count, s);
    RepeatRunsOut(SkipMethod, k, count, s);
    RepeatRunsOut(ParseAttribute, k, count, s);
    RepeatRunsOut(ParseEnumInfo(size), k, count, s);
    RepeatRunsOut(SkipGuid, k, count, s);
    RepeatRunsOut(ParseExtendedEnumInfo, k, count, s);
  }

  /** There are `k` items in the data and nothing behind them. */
  predicate RunsOut<T>(p: seq<byte> -> Parsed<T>, k: nat, s: seq<byte>) {
    Repeat(p, k, s).Ok? && Repeat(p, k, s).value.1 == []
  }

  lemma {:induction false} RepeatRunsOut<T>(p: seq<byte> -> Parsed<T>, k: nat, n: nat, s: seq<byte>)
    requires k < n && p([]) == Err(InvalidData)
    ensures RunsOut(p, k, s) ==> Repeat(p, n, s) == Err(InvalidData)
  {
    if RunsOut(p, k, s) && k > 0 {
      RepeatRunsOut(p, k - 1, n - 1, p(s).value.1);
    }
  }

  /** A section that is announced but not there is an error; only the copy mask, which is
      skipped, and the extra data of no constants may be missing. */
  lemma MissingSections(has: Announced, size: uint32)
    ensures ParseOptions([], has, size).Ok? <==>
      !(has.guid || has.methods || has.attributes || has.enums || has.extendedFlags || has.deRefs)
    ensures ParseOptions([], has, size).Ok? ==> ParseOptions([], has, size).value == (NO_OPTIONS, [])
  {
  }

  /** What is cut short is read as if zeros followed it. */
  lemma CutShortIsPadded(s: seq<byte>, n: nat, length: uint8)
    requires s != []
    ensures |s| < 16 ==> ParseTypeGuid(s) == ParseTypeGuid(s + Zeros(16 - |s|))
    ensures |s| < 16 ==> SkipGuid(s) == SkipGuid(s + Zeros(16 - |s|))
    ensures |s| < length + 1 ==> FillString(s, length) == FillString(s + Zeros(length + 1 - |s|), length)
    ensures |s| < length + 1 ==> Symbols.FillText(s, length) == Symbols.FillText(s + Zeros(length + 1 - |s|), length)
    ensures |s| < 16 ==> Symbols.ParseGuid(s) == Symbols.ParseGuid(s + Zeros(16 - |s|))
  {
    FillPadded(s, 16);
    FillPadded(s, length + 1);
  }

  lemma FillPadded(s: seq<byte>, n: nat)
    requires s != []
    ensures |s| < n ==> Fill(s, n) == Fill(s + Zeros(n - |s|), n)
  {
    if |s| < n {
      var padded := s + Zeros(n - |s|);
      assert padded[..n] == padded && padded[n..] == [];
    }
  }

  /** So is the payload of a notification sample, unless nothing of it is there. */
  lemma SampleCutShort(handle: uint32, length: uint32, there: seq<byte>)
    requires |there| < length
    ensures Notifications.ParseSample(PutUint(handle, 4, PutUint(length, 4, there)))
         == if there == [] then Err(InvalidData)
            else Ok((Notifications.Sample(handle, there + Zeros(length - |there|)), []))
  {
    ReadPut32(handle, PutUint(length, 4, there));
    ReadPut32(length, there);
  }

  // -------------------------------------------------------- Text and numbers

  /** The value of a hexadecimal digit in lower case. */
  function HexValue(c: char): Option<nat> {
    if '0' <= c <= '9' then Some((c - '0') as nat)
    else if 'a' <= c <= 'f' then Some(10 + (c - 'a') as nat)
    else None
  }

  /** Two digits for each byte, the high one first. */
  lemma {:induction false} HexDigits(b: seq<byte>, i: nat)
    requires i < |b|
    ensures |Hex(b)| == 2 * |b|
    ensures var (high, low) := (HexValue(Hex(b)[2 * i]), HexValue(Hex(b)[2 * i + 1]));
      high.Some? && low.Some? && high.value < 16 && low.value < 16 && b[i] == 16 * high.value + low.value
  {
    if i > 0 {
      HexDigits(b[1..], i - 1);
    } else if |b| > 1 {
      HexDigits(b[1..], 0);
    } else {
      assert Hex(b[1..]) == "";
    }
  }

  /** The value of a constant is its first eight bytes, lowest first, in two's complement. */
  lemma EnumValueIs(b: seq<byte>)
    ensures var n := Weighted(if |b| < 8 then b else b[..8]);
      EnumValue(b) == if n < 0x8000_0000_0000_0000 then n else n - 0x1_0000_0000_0000_0000
  {
    var low := if |b| < 8 then b else b[..8];
    var word := low + Zeros(8 - |low|);
    DataTypeFormat.ZerosOnTop(low, 8 - |low|);
    FromLEIsWeighted(low);
    WordValue(b, word, Weighted(low));
  }

  lemma WordValue(b: seq<byte>, word: seq<byte>, n: nat)
    requires word == (if |b| < 8 then b + Zeros(8 - |b|) else b[..8] + Zeros(0)) && FromLE(word) == n
    ensures EnumValue(b) == if n < 0x8000_0000_0000_0000 then n else n - 0x1_0000_0000_0000_0000
  {
    FromLEBound(word);
    SignedOf(n);
  }

  lemma SignedOf(n: nat)
    requires n < Pow256(8)
    ensures FromTwosComplement(n, 8) == if n < 0x8000_0000_0000_0000 then n else n - 0x1_0000_0000_0000_0000
  {
    Pow256Values();
  }

  // ---------------------------------------------------------------- Symbols

  /** A symbol parses exactly when its fixed part and its three strings are there. */
  lemma SymbolParsesIff(data: seq<byte>)
    ensures |data| < 30 ==> Symbols.ParseSymbol(data) == Err(InvalidSymbolLength)
    ensures |data| >= 30 ==>
      var n := 33 + Weighted(data[24..26]) + Weighted(data[26..28]) + Weighted(data[28..30]);
      if |data| < n then Symbols.ParseSymbol(data) == Err(InsufficientData) else Symbols.ParseSymbol(data).Ok?
  {
    if |data| >= 30 {
      SymbolHead(data[4..]);
      assert data[4..][20..22] == data[24..26] && data[4..][22..24] == data[26..28] && data[4..][24..26] == data[28..30];
      assert ReadU32(data).value.1 == data[4..];
      var head, s := Symbols.ParseHead(data[4..]).value.0, Symbols.ParseHead(data[4..]).value.1;
    }
  }

  lemma SymbolHead(s: seq<byte>)
    requires |s| >= 26
    ensures Symbols.ParseHead(s).Ok?
    ensures var (h, rest) := Symbols.ParseHead(s).value;
      && rest == s[26..]
      && h.nameLength == Weighted(s[20..22]) && h.typeLength == Weighted(s[22..24]) && h.commentLength == Weighted(s[24..26])
  {
    var t := s[4..][4..][4..][4..][4..];
    assert t == s[20..];
    assert t[..2] == s[20..22] && t[2..][..2] == s[22..24] && t[2..][2..][..2] == s[24..26];
    IntegersRead(t);
    IntegersRead(t[2..]);
    IntegersRead(t[2..][2..]);
  }

  /** A string of a symbol ends at its first zero byte, wherever its length says it does;
      so does one of its attributes. */
  lemma TextReads(s: seq<byte>, length: nat)
    ensures |s| <= length ==> Symbols.ParseText(s, length) == Err(InvalidData)
    ensures |s| > length ==>
      && Symbols.ParseText(s, length).Ok?
      && var (text, rest) := Symbols.ParseText(s, length).value;
        && rest == s[length + 1..] && text <= s[..length + 1] && 0 !in text
        && (|text| <= length ==> s[|text|] == 0)
        && Symbols.FillText(s, length) == Symbols.ParseText(s, length)
  {
    if |s| > length {
      Primitives.ReadStringIs(s[..length + 1]);
    }
  }

  /** As many bounds as there are whole ones; a bound that is cut short uses up the data. */
  lemma {:induction false} BoundsAvailable(s: seq<byte>, n: nat)
    ensures var (bounds, rest) := Symbols.ParseBounds(s, n);
      if |s| >= 8 * n then |bounds| == n && rest == s[8 * n..] else |bounds| == |s| / 8 && rest == []
  {
    if n > 0 && |s| >= 8 {
      BoundsAvailable(s[8..], n - 1);
    }
  }

  /** Items are read up to the first that is cut short, and none is left out before. */
  lemma {:induction false} AllAvailable<T>(p: seq<byte> -> Parsed<T>, n: nat, s: seq<byte>)
    ensures var xs := Symbols.Available(p, n, s);
      && |xs| <= n
      && Repeat(p, |xs|, s).Ok? && Repeat(p, |xs|, s).value.0 == xs
      && (|xs| < n ==> var rest := Repeat(p, |xs|, s).value.1; |rest| < 2 || !p(rest).Ok?)
  {
    if n > 0 && |s| >= 2 && p(s).Ok? {
      AllAvailable(p, n - 1, p(s).value.1);
    }
  }

  /** Nothing behind the strings: no bounds, no GUID, no attributes, whatever is announced. */
  lemma TailOfNothing(flags: uint32)
    ensures Symbols.ParseTail([], flags) == ([], "", [])
  {
    BoundsAvailable([], Symbols.ArrayDimension(flags));
  }
}
