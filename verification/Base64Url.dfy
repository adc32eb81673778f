/** The base64url codec of section 5 of RFC 4648, with the lenient decoder of
    Python's base64 module: foreign characters are skipped, padding is counted. */
module Base64Url {
  import opened Wrappers
  import opened Utf8

  const PAD: CodePoint := 0x3D

  function Digit(v: nat): (c: CodePoint)
    requires v < 64
    ensures c < 128 && c != PAD
  {
    if v < 26 then 0x41 + v
    else if v < 52 then 0x61 + (v - 26)
    else if v < 62 then 0x30 + (v - 52)
    else if v == 62 then 0x2D else 0x5F
  }

  /** The value of a character of either alphabet; 64 for any other. */
  function Value(c: CodePoint): (v: nat)
    ensures v <= 64
  {
    if 0x41 <= c <= 0x5A then c - 0x41
    else if 0x61 <= c <= 0x7A then c - 0x61 + 26
    else if 0x30 <= c <= 0x39 then c - 0x30 + 52
    else if c == 0x2B || c == 0x2D then 62
    else if c == 0x2F || c == 0x5F then 63
    else 64
  }

  lemma ValueOfDigit(v: nat)
    requires v < 64
    ensures Value(Digit(v)) == v
  {
  }

  /** urlsafe_b64encode, padding included. */
  function Encode(b: Bytes): Text
    decreases |b|
  {
    if b == [] then []
    else if |b| == 1 then [Digit(b[0] / 4), Digit(b[0] % 4 * 16), PAD, PAD]
    else if |b| == 2 then [Digit(b[0] / 4), Digit(b[0] % 4 * 16 + b[1] / 16), Digit(b[1] % 16 * 4), PAD]
    else
      var third := b[1] % 16 * 4 + b[2] / 64;
      [Digit(b[0] / 4), Digit(b[0] % 4 * 16 + b[1] / 16), Digit(third), Digit(b[2] % 64)] + Encode(b[3..])
  }

  /** str.rstrip("=") */
  function StripPadding(s: Text): Text {
    if s != [] && s[|s| - 1] == PAD then StripPadding(s[..|s| - 1]) else s
  }

  /** The padding the decoder adds back: "=" * (-len(s) % 4). */
  function Padding(n: nat): Text {
    Pads((-(n as int)) % 4)
  }

  function Pads(n: nat): Text {
    if n == 0 then [] else Pads(n - 1) + [PAD]
  }

  /** The decoding loop: the position in a group of four, the bits left over
      from the last character, and the padding seen since. None is an error. */
  function Collect(s: Text, position: nat, left: nat, pads: nat): Option<Bytes>
    requires position < 4
    requires position == 1 ==> left < 64
    requires position == 2 ==> left < 16
    requires position == 3 ==> left < 4
  {
    if s == [] then (if position == 0 then Some([]) else None)
    else if s[0] == PAD then
      if position >= 2 && position + pads + 1 >= 4 then Some([])
      else Collect(s[1..], position, left, if position >= 2 then pads + 1 else pads)
    else
      var v := Value(s[0]);
      if v == 64 then Collect(s[1..], position, left, pads)
      else if position == 0 then Collect(s[1..], 1, v, 0)
      else if position == 1 then Prepend(left * 4 + v / 16, Collect(s[1..], 2, v % 16, 0))
      else if position == 2 then Prepend(left * 16 + v / 4, Collect(s[1..], 3, v % 4, 0))
      else Prepend(left * 64 + v, Collect(s[1..], 0, 0, 0))
  }

  function Prepend(b: Byte, rest: Option<Bytes>): Option<Bytes> {
    if rest.None? then None else Some([b] + rest.value)
  }

  /** urlsafe_b64decode of ASCII text; other text raises before decoding. */
  function Decode(s: Text): Option<Bytes> {
    if forall i | 0 <= i < |s| :: s[i] < 128 then Collect(s, 0, 0, 0) else None
  }

  // ---- round trip ---------------------------------------------------------------

  /** One data character in each position of a group. */
  lemma CollectDigit(v: nat, rest: Text, position: nat, left: nat)
    requires v < 64 && position < 4
    requires (position == 0 ==> left == 0) && (position == 1 ==> left < 64)
    requires (position == 2 ==> left < 16) && (position == 3 ==> left < 4)
    ensures position == 0 ==> Collect([Digit(v)] + rest, 0, 0, 0) == Collect(rest, 1, v, 0)
    ensures position == 1 ==>
              Collect([Digit(v)] + rest, 1, left, 0) == Prepend(left * 4 + v / 16, Collect(rest, 2, v % 16, 0))
    ensures position == 2 ==>
              Collect([Digit(v)] + rest, 2, left, 0) == Prepend(left * 16 + v / 4, Collect(rest, 3, v % 4, 0))
    ensures position == 3 ==> Collect([Digit(v)] + rest, 3, left, 0) == Prepend(left * 64 + v, Collect(rest, 0, 0, 0))
  {
    hide Digit, Value;
    ValueOfDigit(v);
    assert ([Digit(v)] + rest)[1..] == rest;
  }

  lemma CollectPads()
    ensures Collect([PAD, PAD], 2, 0, 0) == Some([]) && Collect([PAD], 3, 0, 0) == Some([])
  {
    assert [PAD, PAD][1..] == [PAD] && [PAD][1..] == [];
    assert Collect([PAD], 2, 0, 1) == Some([]);
  }

  lemma GroupOfThree(b: Bytes, rest: Text)
    requires |b| == 3
    ensures Collect([Digit(b[0] / 4), Digit(b[0] % 4 * 16 + b[1] / 16), Digit(b[1] % 16 * 4 + b[2] / 64),
              Digit(b[2] % 64)] + rest, 0, 0, 0)
         == if Collect(rest, 0, 0, 0).None? then None else Some(b + Collect(rest, 0, 0, 0).value)
  {
    hide Digit, Collect;
    var v0, v1, v2, v3 := b[0] / 4, b[0] % 4 * 16 + b[1] / 16, b[1] % 16 * 4 + b[2] / 64, b[2] % 64;
    var r3 := [Digit(v3)] + rest;
    var r2 := [Digit(v2)] + r3;
    var r1 := [Digit(v1)] + r2;
    CollectDigit(v0, r1, 0, 0);
    CollectDigit(v1, r2, 1, v0);
    CollectDigit(v2, r3, 2, b[1] / 16);
    CollectDigit(v3, rest, 3, b[2] / 64);
    assert [Digit(v0), Digit(v1), Digit(v2), Digit(v3)] + rest == [Digit(v0)] + r1;
    ThreeBytes(b, Collect(rest, 0, 0, 0));
  }

  lemma ThreeBytes(b: Bytes, tail: Option<Bytes>)
    requires |b| == 3
    ensures Prepend(b[0], Prepend(b[1], Prepend(b[2], tail))) == if tail.None? then None else Some(b + tail.value)
  {
    if tail.Some? {
      assert [b[0]] + ([b[1]] + ([b[2]] + tail.value)) == b + tail.value;
    }
  }

  lemma LastByte(b: Byte)
    ensures Collect([Digit(b / 4), Digit(b % 4 * 16), PAD, PAD], 0, 0, 0) == Some([b])
  {
    hide Digit, Collect;
    var v0, v1 := b / 4, b % 4 * 16;
    CollectDigit(v0, [Digit(v1)] + [PAD, PAD], 0, 0);
    CollectDigit(v1, [PAD, PAD], 1, v0);
    CollectPads();
    assert [Digit(v0), Digit(v1), PAD, PAD] == [Digit(v0)] + ([Digit(v1)] + [PAD, PAD]);
    assert [b] + [] == [b];
  }

  lemma LastTwoBytes(a: Byte, b: Byte)
    ensures Collect([Digit(a / 4), Digit(a % 4 * 16 + b / 16), Digit(b % 16 * 4), PAD], 0, 0, 0) == Some([a, b])
  {
    hide Digit, Collect;
    var v0, v1, v2 := a / 4, a % 4 * 16 + b / 16, b % 16 * 4;
    var r2 := [Digit(v2)] + [PAD];
    var r1 := [Digit(v1)] + r2;
    CollectDigit(v0, r1, 0, 0);
    CollectDigit(v1, r2, 1, v0);
    CollectDigit(v2, [PAD], 2, b / 16);
    CollectPads();
    assert [Digit(v0), Digit(v1), Digit(v2), PAD] == [Digit(v0)] + r1;
    assert [b] + [] == [b] && [a] + [b] == [a, b];
  }

  lemma {:induction false} CollectOfEncode(b: Bytes)
    ensures Collect(Encode(b), 0, 0, 0) == Some(b)
    decreases |b|
  {
    hide Collect, Digit;
    if |b| == 0 {
      NothingCollected();
    } else if |b| == 1 {
      LastByte(b[0]);
      assert b == [b[0]];
    } else if |b| == 2 {
      LastTwoBytes(b[0], b[1]);
      assert b == [b[0], b[1]];
    } else {
      GroupOfThree(b[..3], Encode(b[3..]));
      CollectOfEncode(b[3..]);
      assert b == b[..3] + b[3..];
    }
  }

  lemma NothingCollected()
    ensures Collect([], 0, 0, 0) == Some([])
  {
  }

  lemma {:induction false} EncodeShape(b: Bytes)
    ensures |Encode(b)| % 4 == 0
    ensures forall i | 0 <= i < |Encode(b)| :: Encode(b)[i] < 128
    decreases |b|
  {
    if |b| >= 3 {
      EncodeShape(b[3..]);
    }
  }

  lemma {:induction false} StripIgnoresPads(s: Text, n: nat)
    requires s == [] || s[|s| - 1] != PAD
    ensures StripPadding(s + Pads(n)) == s
  {
    if n > 0 {
      assert (s + Pads(n))[..|s + Pads(n)| - 1] == s + Pads(n - 1);
      assert (s + Pads(n))[|s + Pads(n)| - 1] == PAD;
      StripIgnoresPads(s, n - 1);
    } else {
      assert s + Pads(0) == s;
    }
  }

  /** The characters that carry data. */
  function Bare(b: Bytes): (s: Text)
    ensures s == [] || s[|s| - 1] != PAD
    decreases |b|
  {
    if |b| < 3 then Encode(b)[..if b == [] then 0 else |b| + 1]
    else Encode(b)[..4] + Bare(b[3..])
  }

  lemma ShortIsPaddedBare(b: Bytes)
    requires |b| < 3
    ensures Encode(b) == Bare(b) + Pads((-|b|) % 3)
  {
    hide Encode, Bare, Pads;
    FewPads();
    if |b| == 0 {
      EmptyBare(b);
    } else if |b| == 1 {
      EncodeOneByte(b);
      SplitAt(Encode(b), 2, PAD, PAD);
    } else {
      EncodeTwoBytes(b);
      assert Encode(b) == Encode(b)[..3] + [PAD];
    }
  }

  lemma EmptyBare(b: Bytes)
    requires b == []
    ensures Encode(b) == [] && Bare(b) == []
  {
  }

  lemma EncodeOneByte(b: Bytes)
    requires |b| == 1
    ensures |Encode(b)| == 4 && Encode(b)[2] == PAD && Encode(b)[3] == PAD && Bare(b) == Encode(b)[..2]
  {
    hide Digit;
  }

  lemma EncodeTwoBytes(b: Bytes)
    requires |b| == 2
    ensures |Encode(b)| == 4 && Encode(b)[3] == PAD && Bare(b) == Encode(b)[..3]
  {
    hide Digit;
  }

  lemma FewPads()
    ensures Pads(0) == [] && Pads(1) == [PAD] && Pads(2) == [PAD, PAD]
  {
  }

  lemma SplitAt(s: Text, n: nat, x: CodePoint, y: CodePoint)
    requires |s| == n + 2 && s[n] == x && s[n + 1] == y
    ensures s == s[..n] + [x, y]
  {
  }

  lemma LongIsBare(b: Bytes)
    requires |b| >= 3
    ensures Bare(b) == Encode(b)[..4] + Bare(b[3..])
    ensures Encode(b) == Encode(b)[..4] + Encode(b[3..])
  {
    hide Digit;
    assert Encode(b)[4..] == Encode(b[3..]);
  }

  /** Encoded text is its data followed by padding to a multiple of four. */
  lemma {:induction false} EncodeIsPaddedBare(b: Bytes)
    ensures Encode(b) == Bare(b) + Pads((-|b|) % 3)
    decreases |b|
  {
    hide Encode, Bare, Pads;
    if |b| >= 3 {
      EncodeIsPaddedBare(b[3..]);
      LongIsBare(b);
      SameRemainder(|b|);
    } else {
      ShortIsPaddedBare(b);
    }
  }

  lemma SameRemainder(n: int)
    ensures (-n) % 3 == (-(n - 3)) % 3
  {
  }

  /** decode(strip(encode(b)) + padding) is b, for every byte string. */
  lemma DecodeOfStripped(b: Bytes)
    ensures var bare := StripPadding(Encode(b)); Decode(bare + Padding(|bare|)) == Some(b)
  {
    hide Collect, Encode, Bare, Pads;
    EncodeShape(b);
    EncodeIsPaddedBare(b);
    StripIgnoresPads(Bare(b), (-|b|) % 3);
    PadsLength((-|b|) % 3);
    CollectOfEncode(b);
    BareLength(|Bare(b)|, |b|);
  }

  lemma BareLength(bare: int, bytes: int)
    requires bare >= 0 && bytes >= 0
    requires (bare + (-bytes) % 3) % 4 == 0
    ensures (-bare) % 4 == (-bytes) % 3
  {
  }

  lemma {:induction false} PadsLength(n: nat)
    ensures |Pads(n)| == n
  {
    if n > 0 {
      PadsLength(n - 1);
    }
  }

  // ---- the alphabet, and the bits of a group ------------------------------------------

  /** The URL-safe alphabet of section 5 of RFC 4648. */
  lemma AlphabetIsUrlSafe(v: nat)
    requires v < 64
    ensures v < 26 ==> Digit(v) == 'A' as int + v
    ensures 26 <= v < 52 ==> Digit(v) == 'a' as int + (v - 26)
    ensures 52 <= v < 62 ==> Digit(v) == '0' as int + (v - 52)
    ensures v == 62 ==> Digit(v) == '-' as int
    ensures v == 63 ==> Digit(v) == '_' as int
    ensures Value(Digit(v)) == v
  {
  }

  /** Three bytes and the four characters written for them are one number in
      base 256 and in base 64. */
  lemma ThreeBytesKeepTheirBits(a: Byte, b: Byte, c: Byte)
    ensures var t := Encode([a, b, c]);
            && |t| == 4
            && ((Value(t[0]) * 64 + Value(t[1])) * 64 + Value(t[2])) * 64 + Value(t[3]) == (a * 256 + b) * 256 + c
  {
    hide Digit, Value, Encode;
    GroupText(a, b, c);
    AlphabetIsUrlSafe(a / 4);
    AlphabetIsUrlSafe(a % 4 * 16 + b / 16);
    AlphabetIsUrlSafe(b % 16 * 4 + c / 64);
    AlphabetIsUrlSafe(c % 64);
  }

  /** One or two last bytes are filled up with zero bits, and with padding. */
  lemma LastBytesKeepTheirBits(a: Byte, b: Byte)
    ensures var t := Encode([a, b]);
            && |t| == 4 && t[3] == '=' as int
            && (Value(t[0]) * 64 + Value(t[1])) * 64 + Value(t[2]) == (a * 256 + b) * 4
    ensures var t := Encode([a]);
            && |t| == 4 && t[2] == t[3] == '=' as int && Value(t[0]) * 64 + Value(t[1]) == a * 16
  {
    hide Digit, Value, Encode;
    LastText(a, b);
    AlphabetIsUrlSafe(a / 4);
    AlphabetIsUrlSafe(a % 4 * 16);
    AlphabetIsUrlSafe(a % 4 * 16 + b / 16);
    AlphabetIsUrlSafe(b % 16 * 4);
  }

  lemma LastText(a: Byte, b: Byte)
    ensures Encode([a, b]) == [Digit(a / 4), Digit(a % 4 * 16 + b / 16), Digit(b % 16 * 4), PAD]
    ensures Encode([a]) == [Digit(a / 4), Digit(a % 4 * 16), PAD, PAD]
  {
    hide Digit;
  }

  lemma GroupText(a: Byte, b: Byte, c: Byte)
    ensures Encode([a, b, c])
         == [Digit(a / 4), Digit(a % 4 * 16 + b / 16), Digit(b % 16 * 4 + c / 64), Digit(c % 64)]
  {
    hide Digit;
    assert [a, b, c][3..] == [];
    assert Encode([]) == [];
  }
}
