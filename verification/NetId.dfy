/** AMS NetIDs: six bytes, printed as decimal numbers between dots. */
module NetId {
  import opened Bytes
  import opened Outcomes

  datatype NetIdError = WrongPartCount | InvalidPart(part: string)

  // ------------------------------------------------------ Splitting at dots

  function Split(s: string): (parts: seq<string>)
    ensures |parts| > 0
  {
    if s == "" then [""]
    else
      var rest := Split(s[1..]);
      if s[0] == '.' then [""] + rest else [[s[0]] + rest[0]] + rest[1..]
  }

  function Join(parts: seq<string>): string {
    if parts == [] then "" else if |parts| == 1 then parts[0] else parts[0] + "." + Join(parts[1..])
  }

  lemma {:induction false} JoinSplit(s: string)
    ensures Join(Split(s)) == s
  {
    if s != "" {
      JoinSplit(s[1..]);
      var rest := Split(s[1..]);
      if s[0] == '.' {
        assert ([""] + rest)[1..] == rest;
      } else if |rest| > 1 {
        assert ([[s[0]] + rest[0]] + rest[1..])[1..] == rest[1..];
        assert Join(Split(s)) == [s[0]] + (rest[0] + "." + Join(rest[1..]));
      }
      assert s == [s[0]] + s[1..];
    }
  }

  lemma {:induction false} SplitWithoutDot(p: string)
    requires '.' !in p
    ensures Split(p) == [p]
  {
    if p != "" {
      SplitWithoutDot(p[1..]);
      assert p == [p[0]] + p[1..];
    }
  }

  lemma {:induction false} SplitFirst(p: string, s: string)
    requires '.' !in p
    ensures Split(p + "." + s) == [p] + Split(s)
  {
    if p == "" {
      assert p + "." + s == ['.'] + s;
    } else {
      assert (p + "." + s)[1..] == p[1..] + "." + s;
      SplitFirst(p[1..], s);
      assert p == [p[0]] + p[1..];
    }
  }

  lemma {:induction false} SplitJoin(parts: seq<string>)
    requires parts != [] && forall i :: 0 <= i < |parts| ==> '.' !in parts[i]
    ensures Split(Join(parts)) == parts
  {
    if |parts| == 1 {
      SplitWithoutDot(parts[0]);
    } else {
      SplitJoin(parts[1..]);
      SplitFirst(parts[0], Join(parts[1..]));
    }
  }

  lemma {:induction false} SplitHasNoDots(s: string)
    ensures forall i :: 0 <= i < |Split(s)| ==> '.' !in Split(s)[i]
  {
    if s != "" {
      SplitHasNoDots(s[1..]);
    }
  }

  // -------------------------------------------------------- Decimal numbers

  predicate IsDigit(c: char) {
    '0' <= c <= '9'
  }

  function Digit(d: nat): (c: char)
    requires d < 10
    ensures IsDigit(c)
  {
    '0' + d as char
  }

  /** fmt.Sprintf("%d", n) */
  function Decimal(n: nat): (s: string)
    ensures |s| > 0
  {
    if n < 10 then [Digit(n)] else Decimal(n / 10) + [Digit(n % 10)]
  }

  predicate AllDigits(s: string) {
    forall i :: 0 <= i < |s| ==> IsDigit(s[i])
  }

  function DigitsValue(s: string): nat
    requires AllDigits(s)
  {
    if s == "" then 0 else 10 * DigitsValue(s[..|s| - 1]) + (s[|s| - 1] - '0') as nat
  }

  /** strconv.Atoi: an optional sign, at least one digit, a value that fits an int. */
  function Atoi(s: string): Option<int64> {
    var digits := if s != "" && (s[0] == '-' || s[0] == '+') then s[1..] else s;
    if digits == "" || !AllDigits(digits) then None
    else
      var v := if s[0] == '-' then -(DigitsValue(digits) as int) else DigitsValue(digits);
      if -0x8000_0000_0000_0000 <= v < 0x8000_0000_0000_0000 then Some(v) else None
  }

  /** The string is `digits` behind this sign or none. */
  predicate Spells(s: string, sign: string, digits: string) {
    (sign == "" || sign == "+" || sign == "-") && digits != "" && AllDigits(digits) && s == sign + digits
  }

  /** Exactly the signed and unsigned digit strings of 64-bit integers are numbers. */
  lemma AtoiIff(s: string, sign: string, digits: string)
    ensures Spells(s, sign, digits) ==>
      var v := if sign == "-" then -(DigitsValue(digits) as int) else DigitsValue(digits);
      Atoi(s) == if -0x8000_0000_0000_0000 <= v < 0x8000_0000_0000_0000 then Some(v) else None
    ensures (forall g, d :: !Spells(s, g, d)) ==> Atoi(s) == None
  {
    if Spells(s, sign, digits) {
      assert sign != "" ==> s[1..] == digits;
      assert sign == "" ==> s == digits && IsDigit(s[0]);
    }
    if Atoi(s).Some? {
      if s[0] == '-' || s[0] == '+' {
        assert s == [s[0]] + s[1..];
        assert Spells(s, [s[0]], s[1..]);
      } else {
        assert s == "" + s;
        assert Spells(s, "", s);
      }
    }
  }

  /** The value of digits, the first of which weighs most. */
  lemma {:induction false} DigitsAppend(a: string, b: string)
    requires AllDigits(a) && AllDigits(b)
    ensures AllDigits(a + b) && DigitsValue(a + b) == DigitsValue(a) * Pow10(|b|) + DigitsValue(b)
  {
    if b == "" {
      assert a + b == a;
    } else {
      var c := b[..|b| - 1];
      assert (a + b)[..|a + b| - 1] == a + c;
      DigitsAppend(a, c);
      TenTimes(DigitsValue(a), Pow10(|c|));
    }
  }

  lemma TenTimes(a: nat, p: nat)
    ensures 10 * (a * p) == a * (10 * p)
  {
  }

  function Pow10(n: nat): nat {
    if n == 0 then 1 else 10 * Pow10(n - 1)
  }

  lemma {:induction false} DecimalValue(n: nat)
    ensures AllDigits(Decimal(n)) && DigitsValue(Decimal(n)) == n
    ensures Decimal(n)[0] == '0' ==> n == 0
  {
    if n >= 10 {
      DecimalValue(n / 10);
      assert Decimal(n)[..|Decimal(n)| - 1] == Decimal(n / 10);
    }
  }

  lemma AtoiDecimal(b: byte)
    ensures Atoi(Decimal(b)) == Some(b)
    ensures '.' !in Decimal(b)
  {
    DecimalValue(b);
  }

  /** A digit string without a superfluous leading zero. */
  predicate PlainDigits(p: string) {
    p != "" && AllDigits(p) && (|p| > 1 ==> p[0] != '0')
  }

  lemma DecimalSnoc(v: nat, d: nat)
    requires v > 0 && d < 10
    ensures Decimal(10 * v + d) == Decimal(v) + [Digit(d)]
  {
    var n := 10 * v + d;
    assert n / 10 == v && n % 10 == d;
  }

  lemma {:induction false} PlainValue(p: string)
    requires PlainDigits(p)
    ensures Decimal(DigitsValue(p)) == p
    ensures |p| > 1 ==> DigitsValue(p) >= 10
    ensures p[0] != '0' ==> DigitsValue(p) > 0
  {
    var q, c := p[..|p| - 1], p[|p| - 1];
    assert p == q + [c] && IsDigit(c);
    var d: nat := (c - '0') as nat;
    assert Digit(d) == c;
    if q == "" {
      assert DigitsValue(p) == d;
    } else {
      PlainValue(q);
      DecimalSnoc(DigitsValue(q), d);
    }
  }

  /** The only spelling of a part that printing gives back. */
  predicate CanonicalPart(p: string) {
    PlainDigits(p) && DigitsValue(p) < 256
  }

  lemma AtoiCanonical(p: string)
    requires CanonicalPart(p)
    ensures Atoi(p) == Some(DigitsValue(p))
  {
    assert IsDigit(p[0]);
  }

  lemma CanonicalPartIff(p: string)
    requires Atoi(p).Some?
    ensures Decimal(Atoi(p).value % 256) == p <==> CanonicalPart(p)
  {
    if CanonicalPart(p) {
      CanonicalPrints(p);
    } else {
      DecimalIsCanonical(Atoi(p).value % 256);
    }
  }

  lemma CanonicalPrints(p: string)
    requires CanonicalPart(p)
    ensures Atoi(p).Some? && Decimal(Atoi(p).value % 256) == p
  {
    var v := DigitsValue(p);
    AtoiCanonical(p);
    PlainValue(p);
    assert v % 256 == v && Decimal(v) == p;
  }

  lemma DecimalIsCanonical(b: byte)
    ensures CanonicalPart(Decimal(b))
  {
    DecimalValue(b);
  }

  // ----------------------------------------------------------- Conversions

  /** Every part as a byte; `byte(val)` keeps the low eight bits of any int. */
  function ParseParts(parts: seq<string>): (r: Outcome<seq<byte>, NetIdError>)
    ensures r.Ok? ==> |r.value| == |parts|
    ensures !r.Panic?
  {
    if parts == [] then Ok([])
    else if Atoi(parts[0]).None? then Err(InvalidPart(parts[0]))
    else
      var rest :- ParseParts(parts[1..]);
      Ok([Atoi(parts[0]).value % 256] + rest)
  }

  function Parse(s: string): (r: Outcome<seq<byte>, NetIdError>)
    ensures r.Ok? ==> |r.value| == 6
  {
    if |Split(s)| != 6 then Err(WrongPartCount) else ParseParts(Split(s))
  }

  function PrintParts(b: seq<byte>): (parts: seq<string>)
    ensures |parts| == |b|
  {
    if b == [] then [] else [Decimal(b[0])] + PrintParts(b[1..])
  }

  function Print(b: seq<byte>): string {
    Join(PrintParts(b))
  }

  /** AmsNetIdStrToByteArray, filling the byte slice part by part. */
  method AmsNetIdStrToByteArray(s: string) returns (r: Outcome<seq<byte>, NetIdError>)
    ensures r == Parse(s)
  {
    var parts := Split(s);
    if |parts| != 6 {
      return Err(WrongPartCount);
    }
    var bytes := new byte[6](_ => 0);
    var i := 0;
    while i < |parts|
      invariant 0 <= i <= |parts| == bytes.Length
      invariant forall j :: 0 <= j < i ==> PartIs(parts[j], bytes[j])
    {
      var val := Atoi(parts[i]);
      if val.None? {
        ParsePartsFails(parts, i);
        return Err(InvalidPart(parts[i]));
      }
      bytes[i] := val.value % 256;
      i := i + 1;
    }
    ParsePartsIs(parts, bytes[..]);
    r := Ok(bytes[..]);
  }

  predicate PartIs(part: string, b: byte) {
    Atoi(part).Some? && b == Atoi(part).value % 256
  }

  lemma {:induction false} ParsePartsIs(parts: seq<string>, b: seq<byte>)
    requires |parts| == |b| && forall j :: 0 <= j < |b| ==> PartIs(parts[j], b[j])
    ensures ParseParts(parts) == Ok(b)
  {
    if parts != [] {
      assert PartIs(parts[0], b[0]) && b == [b[0]] + b[1..];
      ParsePartsIs(parts[1..], b[1..]);
    }
  }

  lemma {:induction false} ParsePartsFails(parts: seq<string>, i: nat)
    requires i < |parts| && Atoi(parts[i]).None?
    requires forall j :: 0 <= j < i ==> Atoi(parts[j]).Some?
    ensures ParseParts(parts) == Err(InvalidPart(parts[i]))
  {
    if i > 0 {
      assert Atoi(parts[0]).Some?;
      ParsePartsFails(parts[1..], i - 1);
    }
  }

  /** ByteArrayToAmsNetIdStr, filling the slice of parts before joining it. */
  method ByteArrayToAmsNetIdStr(b: seq<byte>) returns (s: string)
    ensures s == Print(b)
  {
    var parts := new string[|b|](_ => "");
    var i := 0;
    assert b[0..] == b;
    while i < |b|
      invariant 0 <= i <= |b|
      invariant PrintParts(b) == parts[..i] + PrintParts(b[i..])
    {
      assert b[i..][1..] == b[i + 1..];
      ghost var before := parts[..i];
      parts[i] := Decimal(b[i]);
      assert parts[..i + 1] == before + [parts[i]];
      i := i + 1;
    }
    assert parts[..] == PrintParts(b);
    s := Join(parts[..]);
  }

  lemma {:induction false} ParsePrintedParts(b: seq<byte>)
    ensures ParseParts(PrintParts(b)) == Ok(b)
  {
    if b != [] {
      var first, later := b[0], b[1..];
      var head, tail := Decimal(first), PrintParts(later);
      AtoiDecimal(first);
      ParsePrintedParts(later);
      PartsCons(head, tail);
      FirstPart(b, first, later);
    }
  }

  lemma FirstPart(b: seq<byte>, first: byte, later: seq<byte>)
    requires b != [] && first == b[0] && later == b[1..]
    ensures b == [first] + later && PrintParts(b) == [Decimal(first)] + PrintParts(later)
  {
  }

  lemma PartsCons(part: string, parts: seq<string>)
    requires Atoi(part).Some?
    ensures ParseParts([part] + parts) ==
      if ParseParts(parts).Ok? then Ok([Atoi(part).value % 256] + ParseParts(parts).value) else ParseParts(parts)
  {
    assert ([part] + parts)[1..] == parts;
  }

  lemma {:induction false} PrintedPartsAreDotless(b: seq<byte>)
    ensures forall i :: 0 <= i < |b| ==> '.' !in PrintParts(b)[i]
  {
    if b != [] {
      AtoiDecimal(b[0]);
      PrintedPartsAreDotless(b[1..]);
    }
  }

  /** A NetID parses exactly when it has six parts and each is a number; its bytes are the
      numbers modulo 256, and the first part that is no number decides the error. */
  lemma ParseIff(s: string, i: nat)
    ensures var parts, r := Split(s), Parse(s);
      && Join(parts) == s && (forall j :: 0 <= j < |parts| ==> '.' !in parts[j])
      && (|parts| != 6 ==> r == Err(WrongPartCount))
      && (|parts| == 6 ==>
            && (r.Ok? <==> forall j :: 0 <= j < |parts| ==> Atoi(parts[j]).Some?)
            && (r.Ok? ==> forall j :: 0 <= j < |parts| ==> PartIs(parts[j], r.value[j]))
            && (FirstBad(parts, i) ==> r == Err(InvalidPart(parts[i]))))
  {
    JoinSplit(s);
    SplitHasNoDots(s);
    PartsIff(Split(s));
    if FirstBad(Split(s), i) {
      ParsePartsFails(Split(s), i);
    }
  }

  predicate FirstBad(parts: seq<string>, i: nat) {
    i < |parts| && Atoi(parts[i]).None? && forall j :: 0 <= j < i ==> Atoi(parts[j]).Some?
  }

  lemma {:induction false} PartsIff(parts: seq<string>)
    ensures var r := ParseParts(parts);
      && (r.Ok? <==> forall i :: 0 <= i < |parts| ==> Atoi(parts[i]).Some?)
      && (r.Ok? ==> forall i :: 0 <= i < |parts| ==> PartIs(parts[i], r.value[i]))
  {
    if parts != [] {
      var later := ParseParts(parts[1..]);
      PartsIff(parts[1..]);
      assert forall i :: 0 <= i < |parts[1..]| ==> parts[1..][i] == parts[i + 1];
      if Atoi(parts[0]).Some? && later.Ok? {
        forall i | 0 <= i < |parts| ensures PartIs(parts[i], ParseParts(parts).value[i]) {
          assert i > 0 ==> parts[i] == parts[1..][i - 1] && ParseParts(parts).value[i] == later.value[i - 1];
        }
      }
    }
  }

  /** Every NetID is read back from its printed form. */
  lemma ParsePrint(b: seq<byte>)
    requires |b| == 6
    ensures Parse(Print(b)) == Ok(b)
  {
    ParsePrintedParts(b);
    PrintedPartsAreDotless(b);
    SplitJoin(PrintParts(b));
  }

  predicate AllCanonical(parts: seq<string>) {
    parts != [] ==> CanonicalPart(parts[0]) && AllCanonical(parts[1..])
  }

  lemma {:induction false} PrintParsedParts(parts: seq<string>)
    requires ParseParts(parts).Ok?
    ensures PrintParts(ParseParts(parts).value) == parts <==> AllCanonical(parts)
  {
    if parts != [] {
      var b, rest := Atoi(parts[0]).value % 256, ParseParts(parts[1..]).value;
      CanonicalPartIff(parts[0]);
      PrintParsedParts(parts[1..]);
      assert ([b] + rest)[1..] == rest;
      SameCons(Decimal(b), PrintParts(rest), parts);
    }
  }

  lemma SameCons(head: string, tail: seq<string>, parts: seq<string>)
    requires parts != []
    ensures [head] + tail == parts <==> head == parts[0] && tail == parts[1..]
  {
    if [head] + tail == parts {
      assert parts[1..] == tail;
    }
  }

  predicate Canonical(s: string) {
    |Split(s)| == 6 && AllCanonical(Split(s))
  }

  /** A string that parses prints back as itself exactly when its parts are plain
      decimal bytes; a sign, a leading zero or a number over 255 is accepted and lost. */
  lemma PrintParseIff(s: string)
    requires Parse(s).Ok?
    ensures Print(Parse(s).value) == s <==> Canonical(s)
  {
    var parts, b := Split(s), Parse(s).value;
    PrintParsedParts(parts);
    JoinSplit(s);
    if Print(b) == s {
      ParsePrintedParts(b);
      PrintedPartsAreDotless(b);
      SplitJoin(PrintParts(b));
    }
  }
}
