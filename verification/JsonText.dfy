/** JSON texts (RFC 8259) as Python's json module writes and reads them: the
    ASCII-only string encoder and the strict scanner with its extensions. */
module JsonText {
  import opened Utf8

  const QUOTE: CodePoint := 0x22
  const BACKSLASH: CodePoint := 0x5C

  /** A string of Unicode scalars as text. */
  function T(s: string): (t: Text)
    ensures |t| == |s|
    ensures forall i | 0 <= i < |s| :: t[i] == s[i] as int
  {
    if s == "" then [] else [s[0] as int] + T(s[1..])
  }

  // ---- writing strings ----------------------------------------------------------

  function Hex(d: nat): (c: CodePoint)
    requires d < 16
    ensures 0x20 <= c < 0x7F
  {
    if d < 10 then 0x30 + d else 0x61 + (d - 10)
  }

  function UnicodeEscape(u: nat): (t: Text)
    requires u < 0x10000
    ensures |t| == 6
  {
    var pairs := u / 256;
    [BACKSLASH, 0x75, Hex(pairs / 16), Hex(pairs % 16), Hex(u / 16 % 16), Hex(u % 16)]
  }

  /** The letter of a two-character escape, or 0. */
  function ShortEscape(c: CodePoint): CodePoint {
    if c == QUOTE || c == BACKSLASH then c
    else if c == 0x0A then 0x6E
    else if c == 0x0D then 0x72
    else if c == 0x09 then 0x74
    else if c == 0x0C then 0x66
    else if c == 0x08 then 0x62
    else 0
  }

  function HighHalf(c: CodePoint): CodePoint
    requires c >= 0x10000
  {
    0xD800 + (c - 0x10000) / 0x400
  }

  function LowHalf(c: CodePoint): CodePoint
    requires c >= 0x10000
  {
    0xDC00 + (c - 0x10000) % 0x400
  }

  function EscapeOne(c: CodePoint): (t: Text)
    ensures t != []
  {
    if ShortEscape(c) != 0 then [BACKSLASH, ShortEscape(c)]
    else if 0x20 <= c < 0x7F then [c]
    else if c < 0x10000 then UnicodeEscape(c)
    else UnicodeEscape(HighHalf(c)) + UnicodeEscape(LowHalf(c))
  }

  function Escape(s: Text): Text {
    if s == [] then [] else EscapeOne(s[0]) + Escape(s[1..])
  }

  function Quoted(s: Text): Text {
    [QUOTE] + Escape(s) + [QUOTE]
  }

  /** The members of an object of strings, through its closing brace. */
  function Members(pairs: seq<(Text, Text)>): Text
    requires pairs != []
  {
    Quoted(pairs[0].0) + [0x3A] + Quoted(pairs[0].1) + (if |pairs| == 1 then [0x7D] else [0x2C] + Members(pairs[1..]))
  }

  /** json.dumps(dict(pairs), separators=(",", ":")) */
  function Dumps(pairs: seq<(Text, Text)>): Text {
    [0x7B] + if pairs == [] then [0x7D] else Members(pairs)
  }

  // ---- reading --------------------------------------------------------------------

  datatype Json =
    | Null
    | Boolean(b: bool)
    | Number(lexeme: Text)
    | String(s: Text)
    | Array(items: seq<Json>)
    | Object(members: seq<(Text, Json)>)

  datatype Parsed<+V> = Fail | Done(value: V, rest: Text)

  function HexValue(c: CodePoint): (d: int)
    ensures -1 <= d < 16
  {
    if 0x30 <= c <= 0x39 then c - 0x30
    else if 0x61 <= c <= 0x66 then c - 0x61 + 10
    else if 0x41 <= c <= 0x46 then c - 0x41 + 10
    else -1
  }

  /** The value of a \uXXXX escape at the start of the text, or -1. */
  function UnitAt(s: Text): (u: int)
    ensures -1 <= u < 0x10000
    ensures u >= 0 ==> |s| >= 6
  {
    if |s| < 6 || s[0] != BACKSLASH || s[1] != 0x75 then -1
    else
      var a, b, c, d := HexValue(s[2]), HexValue(s[3]), HexValue(s[4]), HexValue(s[5]);
      if a < 0 || b < 0 || c < 0 || d < 0 then -1 else ((a * 16 + b) * 16 + c) * 16 + d
  }

  function Unescaped(letter: CodePoint): int {
    if letter == QUOTE || letter == BACKSLASH || letter == 0x2F then letter
    else if letter == 0x62 then 0x08
    else if letter == 0x66 then 0x0C
    else if letter == 0x6E then 0x0A
    else if letter == 0x72 then 0x0D
    else if letter == 0x74 then 0x09
    else -1
  }

  function JoinHalves(high: CodePoint, low: CodePoint): CodePoint
    requires HighSurrogate(high) && LowSurrogate(low)
  {
    0x10000 + (high - 0xD800) * 0x400 + (low - 0xDC00)
  }

  predicate PairAt(s: Text) {
    HighHalfAt(s) && UnitAt(s[6..]) >= 0 && LowSurrogate(UnitAt(s[6..]))
  }

  predicate HighHalfAt(s: Text) {
    UnitAt(s) >= 0 && HighSurrogate(UnitAt(s))
  }

  /** scanstring in strict mode, after the opening quote. */
  function Scan(s: Text): (r: Parsed<Text>)
    ensures r.Done? ==> |r.rest| < |s|
    decreases |s|
  {
    if s == [] then Fail
    else if s[0] == QUOTE then Done([], s[1..])
    else if s[0] == BACKSLASH then
      if PairAt(s) then Prepend(JoinHalves(UnitAt(s), UnitAt(s[6..])), Scan(s[12..]))
      else if UnitAt(s) >= 0 then Prepend(UnitAt(s), Scan(s[6..]))
      else if |s| < 2 || Unescaped(s[1]) < 0 then Fail
      else Prepend(Unescaped(s[1]), Scan(s[2..]))
    else if s[0] < 0x20 then Fail
    else Prepend(s[0], Scan(s[1..]))
  }

  function Prepend(c: CodePoint, r: Parsed<Text>): Parsed<Text> {
    if r.Fail? then Fail else Done([c] + r.value, r.rest)
  }

  function SkipSpace(s: Text): (r: Text)
    ensures |r| <= |s|
  {
    if s != [] && s[0] in [0x20, 0x09, 0x0A, 0x0D] then SkipSpace(s[1..]) else s
  }

  predicate DigitAt(s: Text, i: nat) {
    i < |s| && 0x30 <= s[i] <= 0x39
  }

  /** The position after the digits at i. */
  function DigitsEnd(s: Text, i: nat): (j: nat)
    requires i <= |s|
    ensures i <= j <= |s|
    decreases |s| - i
  {
    if DigitAt(s, i) then DigitsEnd(s, i + 1) else i
  }

  /** The end of the longest number at the start of the text; 0 for none. */
  function NumberEnd(s: Text): (n: nat)
    ensures n <= |s|
  {
    var start := if s != [] && s[0] == 0x2D then 1 else 0;
    if !DigitAt(s, start) then 0
    else
      var whole := if s[start] == 0x30 then start + 1 else DigitsEnd(s, start);
      var fraction := if whole < |s| && s[whole] == 0x2E && DigitAt(s, whole + 1) then DigitsEnd(s, whole + 1)
          else whole;
      if fraction < |s| && s[fraction] in [0x65, 0x45] then
        var sign := if fraction + 1 < |s| && s[fraction + 1] in [0x2B, 0x2D] then fraction + 2 else fraction + 1;
        if DigitAt(s, sign) then DigitsEnd(s, sign) else fraction
      else fraction
  }

  predicate StartsWith(s: Text, word: Text) {
    |s| >= |word| && s[..|word|] == word
  }

  function Word(s: Text): (r: Parsed<Json>)
    ensures r.Done? ==> |r.rest| < |s|
  {
    if StartsWith(s, T("null")) then Done(Null, s[4..])
    else if StartsWith(s, T("true")) then Done(Boolean(true), s[4..])
    else if StartsWith(s, T("false")) then Done(Boolean(false), s[5..])
    else if StartsWith(s, T("NaN")) then Done(Number(T("NaN")), s[3..])
    else if StartsWith(s, T("Infinity")) then Done(Number(T("Infinity")), s[8..])
    else if StartsWith(s, T("-Infinity")) then Done(Number(T("-Infinity")), s[9..])
    else if NumberEnd(s) > 0 then Done(Number(s[..NumberEnd(s)]), s[NumberEnd(s)..])
    else Fail
  }

  function ParseValue(s: Text): (r: Parsed<Json>)
    ensures r.Done? ==> |r.rest| < |s|
    decreases |s|, 1
  {
    if s == [] then Fail
    else if s[0] == QUOTE then
      var text := Scan(s[1..]);
      if text.Fail? then Fail else Done(String(text.value), text.rest)
    else if s[0] == 0x7B then ParseObject(SkipSpace(s[1..]))
    else if s[0] == 0x5B then ParseArray(SkipSpace(s[1..]))
    else Word(s)
  }

  function ParseObject(s: Text): (r: Parsed<Json>)
    ensures r.Done? ==> |r.rest| < |s|
    decreases |s|, 1
  {
    if s != [] && s[0] == 0x7D then Done(Object([]), s[1..])
    else
      var members := ParseMembers(s);
      if members.Fail? then Fail else Done(Object(members.value), members.rest)
  }

  function ParseArray(s: Text): (r: Parsed<Json>)
    ensures r.Done? ==> |r.rest| < |s|
    decreases |s|, 3
  {
    if s != [] && s[0] == 0x5D then Done(Array([]), s[1..])
    else
      var items := ParseItems(s);
      if items.Fail? then Fail else Done(Array(items.value), items.rest)
  }

  function ParseMembers(s: Text): (r: Parsed<seq<(Text, Json)>>)
    ensures r.Done? ==> |r.rest| < |s|
    decreases |s|, 0
  {
    if s == [] || s[0] != QUOTE then Fail
    else
      var key := Scan(s[1..]);
      if key.Fail? then Fail
      else
        var colon := SkipSpace(key.rest);
        if colon == [] || colon[0] != 0x3A then Fail
        else
          var value := ParseValue(SkipSpace(colon[1..]));
          if value.Fail? then Fail
          else
            var after := SkipSpace(value.rest);
            var member := (key.value, value.value);
            if after != [] && after[0] == 0x7D then Done([member], after[1..])
            else if after == [] || after[0] != 0x2C then Fail
            else
              var more := ParseMembers(SkipSpace(after[1..]));
              if more.Fail? then Fail else Done([member] + more.value, more.rest)
  }

  function ParseItems(s: Text): (r: Parsed<seq<Json>>)
    ensures r.Done? ==> |r.rest| < |s|
    decreases |s|, 2
  {
    var value := ParseValue(s);
    if value.Fail? then Fail
    else
      var after := SkipSpace(value.rest);
      if after != [] && after[0] == 0x5D then Done([value.value], after[1..])
      else if after == [] || after[0] != 0x2C then Fail
      else
        var more := ParseItems(SkipSpace(after[1..]));
        if more.Fail? then Fail else Done([value.value] + more.value, more.rest)
  }

  /** json.loads of a str. */
  function Loads(s: Text): Parsed<Json> {
    var value := ParseValue(SkipSpace(s));
    if value.Fail? || SkipSpace(value.rest) != [] then Fail else value
  }

  /** dict.get: of repeated keys the last one counts. */
  function Lookup(members: seq<(Text, Json)>, key: Text, default: Json): Json {
    if members == [] then default
    else if members[|members| - 1].0 == key then members[|members| - 1].1
    else Lookup(members[..|members| - 1], key, default)
  }

  // ---- what a string survives as --------------------------------------------------

  /** The text with each high surrogate that precedes a low one joined to it. */
  function Joined(s: Text): (r: Text)
    ensures |r| <= |s|
  {
    if s == [] then []
    else if PairStarts(s) then [JoinHalves(s[0], s[1])] + Joined(s[2..])
    else [s[0]] + Joined(s[1..])
  }

  predicate PairStarts(s: Text) {
    |s| >= 2 && HighSurrogate(s[0]) && LowSurrogate(s[1])
  }

  /** No high surrogate is directly followed by a low one. */
  predicate Unpaired(s: Text) {
    forall i | 0 <= i < |s| - 1 :: !(HighSurrogate(s[i]) && LowSurrogate(s[i + 1]))
  }

  lemma {:induction false} JoinedIsIdentity(s: Text)
    ensures |Joined(s)| == |s| <==> Unpaired(s)
    ensures Unpaired(s) ==> Joined(s) == s
  {
    hide Unpaired;
    UnpairedStep(s);
    if s != [] && !PairStarts(s) {
      JoinedIsIdentity(s[1..]);
      assert s == [s[0]] + s[1..];
    }
  }

  lemma UnpairedStep(s: Text)
    ensures Unpaired(s) <==> s == [] || (!PairStarts(s) && Unpaired(s[1..]))
  {
    if s != [] {
      var rest := s[1..];
      assert forall i | 0 <= i < |rest| :: rest[i] == s[i + 1];
      if Unpaired(rest) && !PairStarts(s) {
        forall i | 0 <= i < |s| - 1
          ensures !(HighSurrogate(s[i]) && LowSurrogate(s[i + 1]))
        {
          if i > 0 {
            assert s[i] == rest[i - 1] && s[i + 1] == rest[i];
          }
        }
      } else if !Unpaired(rest) {
        var i :| 0 <= i < |rest| - 1 && HighSurrogate(rest[i]) && LowSurrogate(rest[i + 1]);
        assert HighSurrogate(s[i + 1]) && LowSurrogate(s[i + 1 + 1]);
      }
    }
  }

  // ---- escapes ----------------------------------------------------------------------

  lemma HexRoundTrip(d: nat)
    requires d < 16
    ensures HexValue(Hex(d)) == d
  {
  }

  lemma UnitOfEscape(u: nat, rest: Text)
    requires u < 0x10000
    ensures UnitAt(UnicodeEscape(u) + rest) == u
    ensures (UnicodeEscape(u) + rest)[6..] == rest
  {
    var high, low := u / 256, u % 256;
    HexRoundTrip(high / 16);
    HexRoundTrip(high % 16);
    HexRoundTrip(u / 16 % 16);
    HexRoundTrip(u % 16);
    assert u / 16 == high * 16 + u / 16 % 16;
  }

  /** An escaped character's first unit. */
  lemma UnitOfOne(c: CodePoint, rest: Text)
    ensures UnitAt(EscapeOne(c) + rest)
         == if ShortEscape(c) != 0 || 0x20 <= c < 0x7F then -1 else if c < 0x10000 then c else HighHalf(c)
    ensures 0x10000 <= c ==> (EscapeOne(c) + rest)[6..] == UnicodeEscape(LowHalf(c)) + rest
    ensures 0x10000 > c && ShortEscape(c) == 0 && !(0x20 <= c < 0x7F) ==> (EscapeOne(c) + rest)[6..] == rest
  {
    if ShortEscape(c) != 0 {
      assert (EscapeOne(c) + rest)[1] == ShortEscape(c);
    } else if 0x20 <= c < 0x7F {
      assert (EscapeOne(c) + rest)[0] == c;
    } else if c < 0x10000 {
      UnitOfEscape(c, rest);
    } else {
      assert EscapeOne(c) + rest == UnicodeEscape(HighHalf(c)) + (UnicodeEscape(LowHalf(c)) + rest);
      UnitOfEscape(HighHalf(c), UnicodeEscape(LowHalf(c)) + rest);
    }
  }

  lemma HalvesRejoin(c: CodePoint)
    requires c >= 0x10000
    ensures HighSurrogate(HighHalf(c)) && LowSurrogate(LowHalf(c))
    ensures JoinHalves(HighHalf(c), LowHalf(c)) == c
  {
  }

  // ---- what a written character looks like -----------------------------------------------

  /** Printable ASCII is written as it is, five control characters and the two
      delimiters by a letter, everything else by four hexadecimal digits, twice
      above the basic plane. */
  lemma EscapesLook(c: CodePoint)
    ensures c == 0x22 || c == 0x5C ==> EscapeOne(c) == [0x5C, c]
    ensures EscapeOne(0x0A) == T("\\n") && EscapeOne(0x0D) == T("\\r") && EscapeOne(0x09) == T("\\t")
    ensures EscapeOne(0x0C) == T("\\f") && EscapeOne(0x08) == T("\\b")
    ensures 0x20 <= c < 0x7F && c != 0x22 && c != 0x5C ==> EscapeOne(c) == [c]
    ensures 0x7F <= c < 0x10000 ==> EscapeOne(c) == UnicodeEscape(c)
    ensures c >= 0x10000 ==>
              var high, low := 0xD800 + (c - 0x10000) / 0x400, 0xDC00 + (c - 0x10000) % 0x400;
              EscapeOne(c) == UnicodeEscape(high) + UnicodeEscape(low)
  {
  }

  /** The four digits are lower-case hexadecimal, most significant first. */
  lemma UnicodeEscapesLook(u: nat)
    requires u < 0x10000
    ensures var t := UnicodeEscape(u);
            && t[..2] == T("\\u")
            && (forall i | 2 <= i < 6 :: 0x30 <= t[i] <= 0x39 || 0x61 <= t[i] <= 0x66)
            && ((HexValue(t[2]) * 16 + HexValue(t[3])) * 16 + HexValue(t[4])) * 16 + HexValue(t[5]) == u
  {
    hide Hex, HexValue;
    assert T("\\u") == [0x5C, 0x75];
    HexReadsBack(u / 256 / 16);
    HexReadsBack(u / 256 % 16);
    HexReadsBack(u / 16 % 16);
    HexReadsBack(u % 16);
  }

  lemma HexReadsBack(d: nat)
    requires d < 16
    ensures HexValue(Hex(d)) == d && (0x30 <= Hex(d) <= 0x39 || 0x61 <= Hex(d) <= 0x66)
  {
  }
}
