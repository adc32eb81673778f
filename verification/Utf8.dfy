/** Python text as sequences of code points, lone surrogates included, and its
    UTF-8 codec: strict, and with the decoder's replacement of malformed input. */
module Utf8 {
  import opened Wrappers

  type CodePoint = n: int | 0 <= n <= 0x10FFFF
  type Byte = n: int | 0 <= n < 256
  type Text = seq<CodePoint>
  type Bytes = seq<Byte>

  const REPLACEMENT: CodePoint := 0xFFFD

  predicate HighSurrogate(c: CodePoint) { 0xD800 <= c <= 0xDBFF }
  predicate LowSurrogate(c: CodePoint) { 0xDC00 <= c <= 0xDFFF }

  /** A Unicode scalar value: what UTF-8 can encode. */
  predicate Scalar(c: CodePoint) {
    !(0xD800 <= c <= 0xDFFF)
  }

  predicate Encodable(s: Text) {
    forall i | 0 <= i < |s| :: Scalar(s[i])
  }

  function EncodeOne(c: CodePoint): (b: Bytes)
    ensures 1 <= |b| <= 4
  {
    var tops := c / 64;
    var higher := tops / 64;
    if c < 0x80 then [c]
    else if c < 0x800 then [0xC0 + tops, 0x80 + c % 64]
    else if c < 0x10000 then [0xE0 + higher, 0x80 + tops % 64, 0x80 + c % 64]
    else [0xF0 + higher / 64, 0x80 + higher % 64, 0x80 + tops % 64, 0x80 + c % 64]
  }

  function EncodeAll(s: Text): Bytes {
    if s == [] then [] else EncodeOne(s[0]) + EncodeAll(s[1..])
  }

  /** str.encode("utf-8"); None is UnicodeEncodeError. */
  function Encode(s: Text): Option<Bytes> {
    if Encodable(s) then Some(EncodeAll(s)) else None
  }

  // ---- one decoding step ------------------------------------------------------

  /** A decoded code point, or a malformed prefix, and the bytes consumed. */
  datatype Chunk = Good(c: CodePoint, size: nat) | Bad(size: nat)

  predicate Continuation(b: Byte) { 0x80 <= b < 0xC0 }

  /** The range of the second byte after a lead byte, which keeps out overlong
      forms, surrogates and values past the last code point. */
  predicate SecondByte(lead: Byte, b: Byte) {
    Continuation(b)
    && (lead == 0xE0 ==> b >= 0xA0) && (lead == 0xED ==> b < 0xA0)
    && (lead == 0xF0 ==> b >= 0x90) && (lead == 0xF4 ==> b < 0x90)
  }

  function Next(b: Bytes): (r: Chunk)
    requires b != []
    ensures 1 <= r.size <= |b|
  {
    var lead := b[0];
    if lead < 0x80 then Good(lead, 1)
    else if lead < 0xC2 || lead > 0xF4 then Bad(1)
    else if |b| < 2 || !SecondByte(lead, b[1]) then Bad(1)
    else if lead < 0xE0 then Good(Shift(lead - 0xC0, b[1]), 2)
    else if |b| < 3 || !Continuation(b[2]) then Bad(2)
    else if lead < 0xF0 then Good(Shift(Shift(lead - 0xE0, b[1]), b[2]), 3)
    else if |b| < 4 || !Continuation(b[3]) then Bad(3)
    else Good(Shift(Shift(Shift(lead - 0xF0, b[1]), b[2]), b[3]), 4)
  }

  /** Six more bits from a continuation byte. */
  function Shift(high: int, b: Byte): int {
    high * 64 + (b as int - 0x80)
  }

  /** bytes.decode("utf-8"); None is UnicodeDecodeError. */
  function Decode(b: Bytes): Option<Text>
    decreases |b|
  {
    if b == [] then Some([])
    else
      var chunk := Next(b);
      if chunk.Bad? then None
      else
        var rest := Decode(b[chunk.size..]);
        if rest.None? then None else Some([chunk.c] + rest.value)
  }

  /** bytes.decode("utf-8", errors="replace") */
  function DecodeReplace(b: Bytes): Text
    decreases |b|
  {
    if b == [] then []
    else
      var chunk := Next(b);
      [if chunk.Good? then chunk.c else REPLACEMENT] + DecodeReplace(b[chunk.size..])
  }

  // ---- round trips --------------------------------------------------------------

  lemma NextOfEncoded(c: CodePoint, rest: Bytes)
    requires Scalar(c)
    ensures EncodeOne(c) + rest != []
    ensures Next(EncodeOne(c) + rest) == Good(c, |EncodeOne(c)|)
  {
    var b := EncodeOne(c) + rest;
    assert b[0] == EncodeOne(c)[0];
    if c >= 0x80 {
      assert b[1] == EncodeOne(c)[1] && SecondByte(b[0], b[1]);
    }
    if c >= 0x800 {
      assert b[2] == EncodeOne(c)[2];
    }
    if c >= 0x10000 {
      assert b[3] == EncodeOne(c)[3];
    }
  }

  /** Every strict or lenient decoding of encoded text returns the text. */
  lemma {:induction false} DecodeOfEncode(s: Text)
    requires Encodable(s)
    ensures Decode(EncodeAll(s)) == Some(s)
    ensures DecodeReplace(EncodeAll(s)) == s
  {
    hide Next, EncodeOne;
    if s != [] {
      var b := EncodeAll(s);
      NextOfEncoded(s[0], EncodeAll(s[1..]));
      assert b[|EncodeOne(s[0])|..] == EncodeAll(s[1..]);
      DecodeOfEncode(s[1..]);
      assert s == [s[0]] + s[1..];
    }
  }

  lemma EncodeOfNext(b: Bytes)
    requires b != [] && Next(b).Good?
    ensures Scalar(Next(b).c) && EncodeOne(Next(b).c) == b[..Next(b).size]
  {
    var c := Next(b).c;
    if b[0] < 0x80 {
    } else if b[0] < 0xE0 {
      assert c / 64 == b[0] - 0xC0;
    } else if b[0] < 0xF0 {
      assert c / 64 == Shift(b[0] - 0xE0, b[1]);
    } else {
      assert c / 64 == Shift(Shift(b[0] - 0xF0, b[1]), b[2]);
      assert c / 64 / 64 == Shift(b[0] - 0xF0, b[1]);
    }
  }

  lemma EncodeMore(c: CodePoint, s: Text)
    requires Scalar(c) && Encodable(s)
    ensures Encodable([c] + s) && EncodeAll([c] + s) == EncodeOne(c) + EncodeAll(s)
  {
    hide EncodeOne;
    assert ([c] + s)[1..] == s;
  }

  /** Whatever decodes strictly is the one encoding of what it decodes to. */
  lemma {:induction false} EncodeOfDecode(b: Bytes)
    requires Decode(b).Some?
    ensures Encode(Decode(b).value) == Some(b)
    decreases |b|
  {
    hide Next, EncodeOne;
    if b != [] {
      EncodeOfNext(b);
      var rest := b[Next(b).size..];
      EncodeOfDecode(rest);
      EncodeMore(Next(b).c, Decode(rest).value);
      assert b == b[..Next(b).size] + rest;
    }
  }

  /** ASCII text is its own encoding. */
  lemma {:induction false} AsciiEncodesAsIs(s: Text)
    requires forall i | 0 <= i < |s| :: s[i] < 128
    ensures Encodable(s) && EncodeAll(s) == s
  {
    if s != [] {
      AsciiEncodesAsIs(s[1..]);
      assert s == [s[0]] + s[1..];
    }
  }

  // ---- the layout of the bytes ----------------------------------------------------------

  /** One to four bytes by the size of the code point; a lead byte, then bytes
      of six bits each. */
  lemma EncodingLayout(c: CodePoint)
    ensures var b := EncodeOne(c);
            && |b| == (if c <= 0x7F then 1 else if c <= 0x7FF then 2 else if c <= 0xFFFF then 3 else 4)
            && (forall i | 1 <= i < |b| :: 0x80 <= b[i] <= 0xBF)
            && (|b| == 1 ==> b[0] == c)
            && (|b| == 2 ==> 0xC0 <= b[0] <= 0xDF && c == (b[0] as int - 0xC0) * 0x40 + (b[1] as int - 0x80))
            && (|b| == 3 ==> 0xE0 <= b[0] <= 0xEF
                             && c == (b[0] as int - 0xE0) * 0x1000 + (b[1] as int - 0x80) * 0x40 + (b[2] as int - 0x80))
            && (|b| == 4 ==> 0xF0 <= b[0] <= 0xF7
                             && c == (b[0] as int - 0xF0) * 0x40000 + (b[1] as int - 0x80) * 0x1000
                                     + (b[2] as int - 0x80) * 0x40
                                     + (b[3] as int - 0x80))
  {
  }

  // ---- what one replacement stands for -----------------------------------------------------

  /** These bytes begin the encoding of some scalar value and do not end it. */
  ghost predicate Begins(b: Bytes) {
    exists c :: BeginsWith(c, b)
  }

  predicate BeginsWith(c: CodePoint, b: Bytes) {
    Scalar(c) && |b| < |EncodeOne(c)| && EncodeOne(c)[..|b|] == b
  }

  /** Lenient decoding replaces, at a malformed place, one byte or the longest
      beginning of an encoding: no encoding begins with these bytes and the next
      one, or is made of them. */
  lemma ReplacementIsMaximal(b: Bytes)
    requires b != [] && Next(b).Bad?
    ensures var n := Next(b).size;
            && (n == 1 || Begins(b[..n]))
            && DecodeReplace(b) == [0xFFFD] + DecodeReplace(b[n..])
            && forall c, k | Scalar(c) && n < k <= |b| && k <= |EncodeOne(c)| :: EncodeOne(c)[..k] != b[..k]
  {
    hide Next, EncodeOne;
    forall c, k | Scalar(c) && Next(b).size < k <= |b| && k <= |EncodeOne(c)|
      ensures EncodeOne(c)[..k] != b[..k]
    {
      NothingBeginsSo(b, c, k);
    }
    if Next(b).size > 1 {
      BadBegins(b);
    }
  }

  lemma NothingBeginsSo(b: Bytes, c: CodePoint, k: int)
    requires b != [] && Next(b).Bad? && Scalar(c) && Next(b).size < k <= |b| && k <= |EncodeOne(c)|
    ensures EncodeOne(c)[..k] != b[..k]
  {
    hide EncodeOne;
    LaterBytes(c);
    var e, n := EncodeOne(c), Next(b).size;
    if e[..k] == b[..k] {
      SamePrefix(e, b, k, 0);
      SamePrefix(e, b, k, n);
      SamePrefix(e, b, k, 1);
    }
  }

  lemma SamePrefix(e: Bytes, b: Bytes, k: int, i: int)
    requires 0 <= i < k <= |e| && k <= |b| && e[..k] == b[..k]
    ensures e[i] == b[i]
  {
    assert e[..k][i] == b[..k][i];
  }

  lemma BadBegins(b: Bytes)
    requires b != [] && Next(b).Bad? && Next(b).size > 1
    ensures Begins(b[..Next(b).size])
  {
    hide EncodeOne;
    var n := Next(b).size;
    Completed(b[..n], if n == 2 && b[0] >= 0xF0 then [0x80, 0x80] else [0x80]);
  }

  lemma LaterBytes(c: CodePoint)
    requires Scalar(c)
    ensures var e := EncodeOne(c);
            && (|e| == 1 <==> e[0] < 0x80) && (|e| > 1 ==> 0xC2 <= e[0] <= 0xF4 && SecondByte(e[0], e[1]))
            && (|e| == 2 <==> 0xC2 <= e[0] < 0xE0) && (|e| == 3 <==> 0xE0 <= e[0] < 0xF0)
            && (|e| > 2 ==> Continuation(e[2])) && (|e| > 3 ==> Continuation(e[3]))
  {
    NextOfEncoded(c, []);
    assert EncodeOne(c) + [] == EncodeOne(c);
  }

  lemma Completed(b: Bytes, rest: Bytes)
    requires b != [] && rest != [] && Next(b + rest).Good? && Next(b + rest).size == |b + rest|
    ensures Begins(b)
  {
    EncodeOfNext(b + rest);
    var c := Next(b + rest).c;
    assert (b + rest)[..|b + rest|] == b + rest;
    assert EncodeOne(c)[..|b|] == b;
    assert BeginsWith(c, b);
  }
}
