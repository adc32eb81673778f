/** What the JSON writer writes, the JSON reader reads: strings come back with
    their adjacent surrogates joined, and objects of strings member by member. */
module JsonRoundTrip {
  import opened Utf8
  import opened JsonText

  /** An escaped string and its closing quote, before further text. */
  function Body(s: Text, rest: Text): Text {
    Escape(s) + ([QUOTE] + rest)
  }

  lemma BodyStep(s: Text, rest: Text)
    requires s != []
    ensures Body(s, rest) == EscapeOne(s[0]) + Body(s[1..], rest)
  {
  }

  /** Escaped text starts with a low surrogate's escape when the text does. */
  lemma LowAtBody(s: Text, rest: Text)
    ensures (UnitAt(Body(s, rest)) >= 0 && LowSurrogate(UnitAt(Body(s, rest)))) <==> (s != [] && LowSurrogate(s[0]))
  {
    hide Escape, EscapeOne, UnitAt;
    if s == [] {
      EmptyBody(rest);
    } else {
      BodyStep(s, rest);
      UnitOfOne(s[0], Body(s[1..], rest));
    }
  }

  lemma EmptyBody(rest: Text)
    ensures Body([], rest) == [QUOTE] + rest
    ensures UnitAt(Body([], rest)) == -1
    ensures Scan(Body([], rest)) == Done([], rest)
  {
    assert Body([], rest)[1..] == rest;
  }

  lemma ScanShort(c: CodePoint, after: Text)
    requires ShortEscape(c) != 0
    ensures Scan(EscapeOne(c) + after) == Prepend(c, Scan(after))
  {
    var s := EscapeOne(c) + after;
    UnitOfOne(c, after);
    assert s[2..] == after;
  }

  lemma ScanPlain(c: CodePoint, after: Text)
    requires ShortEscape(c) == 0 && 0x20 <= c < 0x7F
    ensures Scan(EscapeOne(c) + after) == Prepend(c, Scan(after))
  {
    assert (EscapeOne(c) + after)[1..] == after;
  }

  lemma ScanUnit(c: CodePoint, after: Text)
    requires ShortEscape(c) == 0 && !(0x20 <= c < 0x7F) && c < 0x10000
    requires HighSurrogate(c) ==> !(UnitAt(after) >= 0 && LowSurrogate(UnitAt(after)))
    ensures Scan(EscapeOne(c) + after) == Prepend(c, Scan(after))
  {
    UnitOfOne(c, after);
  }

  lemma ScanAstral(c: CodePoint, after: Text)
    requires c >= 0x10000
    ensures Scan(EscapeOne(c) + after) == Prepend(c, Scan(after))
  {
    var s := EscapeOne(c) + after;
    var second := UnicodeEscape(LowHalf(c)) + after;
    UnitOfOne(c, after);
    UnitOfEscape(LowHalf(c), after);
    HalvesRejoin(c);
    assert s[6..] == second;
    assert s[12..] == s[6..][6..] == after;
  }

  lemma ScanPair(high: CodePoint, low: CodePoint, after: Text)
    requires HighSurrogate(high) && LowSurrogate(low)
    ensures Scan(EscapeOne(high) + (EscapeOne(low) + after)) == Prepend(JoinHalves(high, low), Scan(after))
  {
    var second := EscapeOne(low) + after;
    var s := EscapeOne(high) + second;
    UnitOfOne(high, second);
    UnitOfOne(low, after);
    assert s[6..] == second;
    assert s[12..] == s[6..][6..] == after;
  }

  /** Scanning an escaped string yields the text, adjacent surrogates joined. */
  lemma {:induction false} ScanOfEscape(s: Text, rest: Text)
    ensures Scan(Body(s, rest)) == Done(Joined(s), rest)
  {
    hide Escape, EscapeOne, UnitAt, Scan, Body;
    if s == [] {
      EmptyBody(rest);
    } else {
      BodyStep(s, rest);
      var after := Body(s[1..], rest);
      var c := s[0];
      if PairStarts(s) {
        BodyStep(s[1..], rest);
        assert s[1..][1..] == s[2..];
        ScanPair(c, s[1], Body(s[2..], rest));
        ScanOfEscape(s[2..], rest);
      } else {
        ScanOfEscape(s[1..], rest);
        LowAtBody(s[1..], rest);
        if ShortEscape(c) != 0 {
          ScanShort(c, after);
        } else if 0x20 <= c < 0x7F {
          ScanPlain(c, after);
        } else if c < 0x10000 {
          ScanUnit(c, after);
        } else {
          ScanAstral(c, after);
        }
      }
    }
  }

  /** Two strings are written alike exactly when they are read alike. */
  lemma EscapeDetermines(s: Text, t: Text)
    ensures Escape(s) == Escape(t) <==> Joined(s) == Joined(t)
  {
    hide Escape, Joined, Scan;
    if Escape(s) == Escape(t) {
      ScanOfEscape(s, []);
      ScanOfEscape(t, []);
    }
    EscapeOfJoined(s);
    EscapeOfJoined(t);
  }

  lemma EscapeOfPair(high: CodePoint, low: CodePoint)
    requires HighSurrogate(high) && LowSurrogate(low)
    ensures EscapeOne(JoinHalves(high, low)) == EscapeOne(high) + EscapeOne(low)
  {
    var c := JoinHalves(high, low);
    assert c - 0x10000 == (high - 0xD800) * 0x400 + (low - 0xDC00);
    assert HighHalf(c) == high && LowHalf(c) == low;
  }

  lemma {:induction false} EscapeOfJoined(s: Text)
    ensures Escape(Joined(s)) == Escape(s)
  {
    if s != [] {
      var j := Joined(s);
      if PairStarts(s) {
        EscapeOfPair(s[0], s[1]);
        EscapeOfJoined(s[2..]);
        assert s[1..][1..] == s[2..];
        assert j[1..] == Joined(s[2..]);
      } else {
        EscapeOfJoined(s[1..]);
        assert j[1..] == Joined(s[1..]);
      }
    }
  }

  // ---- objects of strings -----------------------------------------------------------

  /** The members read back. */
  function ReadBack(pairs: seq<(Text, Text)>): (r: seq<(Text, Json)>)
    ensures |r| == |pairs|
  {
    if pairs == [] then [] else [(Joined(pairs[0].0), String(Joined(pairs[0].1)))] + ReadBack(pairs[1..])
  }

  lemma QuotedIsBody(s: Text, rest: Text)
    ensures Quoted(s) + rest == [QUOTE] + Body(s, rest)
    ensures (Quoted(s) + rest)[0] == QUOTE
    ensures (Quoted(s) + rest)[1..] == Body(s, rest)
  {
    hide Escape;
    assert [QUOTE] + Escape(s) + [QUOTE] + rest == [QUOTE] + (Escape(s) + ([QUOTE] + rest));
  }

  lemma ValueOfQuoted(s: Text, rest: Text)
    ensures SkipSpace(Quoted(s) + rest) == Quoted(s) + rest
    ensures ParseValue(Quoted(s) + rest) == Done(String(Joined(s)), rest)
  {
    hide Escape, Quoted, Scan, Joined, Body;
    QuotedIsBody(s, rest);
    ScanOfEscape(s, rest);
  }

  lemma SkipNone(c: CodePoint, rest: Text)
    requires c !in [0x20, 0x09, 0x0A, 0x0D]
    ensures SkipSpace([c] + rest) == [c] + rest
  {
  }

  /** One member and the punctuation after it. */
  lemma MemberStep(key: Text, value: Text, mark: CodePoint, rest: Text)
    requires mark == 0x7D || mark == 0x2C
    ensures var s := Quoted(key) + ([0x3A] + (Quoted(value) + ([mark] + rest)));
            var member := (Joined(key), String(Joined(value)));
            ParseMembers(s) == if mark == 0x7D then Done([member], rest)
                               else var more := ParseMembers(SkipSpace(rest));
                                    if more.Fail? then Fail else Done([member] + more.value, more.rest)
  {
    hide Escape, Quoted, Scan, Joined, Body, ParseValue, SkipSpace;
    hide ParseMembers;
    var last := [mark] + rest;
    var colon := [0x3A] + (Quoted(value) + last);
    var s := Quoted(key) + colon;
    QuotedIsBody(key, colon);
    ScanOfEscape(key, colon);
    SkipNone(0x3A, Quoted(value) + last);
    assert colon[1..] == Quoted(value) + last;
    ValueOfQuoted(value, last);
    SkipNone(mark, rest);
    assert last[1..] == rest;
    MemberParses(s, Joined(key), colon, String(Joined(value)), last);
  }

  /** The parser's step on a member whose parts are known. */
  lemma MemberParses(s: Text, key: Text, colon: Text, value: Json, last: Text)
    requires s != [] && s[0] == QUOTE && Scan(s[1..]) == Done(key, colon)
    requires colon != [] && colon[0] == 0x3A && SkipSpace(colon) == colon
    requires SkipSpace(colon[1..]) == colon[1..] && ParseValue(colon[1..]) == Done(value, last)
    requires last != [] && (last[0] == 0x7D || last[0] == 0x2C) && SkipSpace(last) == last
    ensures ParseMembers(s) == if last[0] == 0x7D then Done([(key, value)], last[1..])
                               else var more := ParseMembers(SkipSpace(last[1..]));
                                    if more.Fail? then Fail else Done([(key, value)] + more.value, more.rest)
  {
    hide Scan, SkipSpace;
  }

  lemma {:induction false} MembersRoundTrip(pairs: seq<(Text, Text)>, rest: Text)
    requires pairs != []
    ensures ParseMembers(Members(pairs) + rest) == Done(ReadBack(pairs), rest)
  {
    hide Quoted, Joined, ParseMembers, SkipSpace;
    var key, value := pairs[0].0, pairs[0].1;
    if |pairs| == 1 {
      assert Members(pairs) + rest == Quoted(key) + ([0x3A] + (Quoted(value) + ([0x7D] + rest)));
      MemberStep(key, value, 0x7D, rest);
      assert ReadBack(pairs) == [(Joined(key), String(Joined(value)))];
    } else {
      var more := Members(pairs[1..]) + rest;
      assert Members(pairs) + rest == Quoted(key) + ([0x3A] + (Quoted(value) + ([0x2C] + more)));
      MemberStep(key, value, 0x2C, more);
      MembersStart(pairs[1..], rest);
      MembersRoundTrip(pairs[1..], rest);
    }
  }

  lemma MembersStart(pairs: seq<(Text, Text)>, rest: Text)
    requires pairs != []
    ensures var s := Members(pairs) + rest; s != [] && s[0] == QUOTE && SkipSpace(s) == s
  {
    hide Escape;
    assert Quoted(pairs[0].0)[0] == QUOTE;
  }

  /** json.loads(json.dumps(d)) for every dict of strings. */
  lemma DumpsRoundTrip(pairs: seq<(Text, Text)>)
    ensures Loads(Dumps(pairs)) == Done(Object(ReadBack(pairs)), [])
  {
    hide Members, ParseMembers, ReadBack;
    var s := Dumps(pairs);
    assert SkipSpace(s) == s;
    if pairs == [] {
      assert s[1..] == [0x7D] && s[1..][1..] == [];
      assert ReadBack(pairs) == [];
      assert SkipSpace(s[1..]) == s[1..];
      assert ParseObject(s[1..]) == Done(Object(ReadBack(pairs)), []);
      assert ParseValue(s) == ParseObject(SkipSpace(s[1..]));
    } else {
      var inner := Members(pairs) + [];
      assert s[1..] == inner;
      MembersStart(pairs, []);
      MembersRoundTrip(pairs, []);
      assert ParseObject(inner) == Done(Object(ReadBack(pairs)), []);
      assert ParseValue(s) == ParseObject(SkipSpace(inner));
    }
  }

  // ---- the output is ASCII ------------------------------------------------------------

  predicate Ascii(s: Text) {
    forall i | 0 <= i < |s| :: s[i] < 128
  }

  lemma {:induction false} EscapeIsAscii(s: Text)
    ensures Ascii(Escape(s))
  {
    if s != [] {
      EscapeIsAscii(s[1..]);
      assert Ascii(EscapeOne(s[0]));
    }
  }

  lemma {:induction false} MembersAreAscii(pairs: seq<(Text, Text)>)
    requires pairs != []
    ensures Ascii(Members(pairs))
  {
    hide Escape;
    EscapeIsAscii(pairs[0].0);
    EscapeIsAscii(pairs[0].1);
    if |pairs| > 1 {
      MembersAreAscii(pairs[1..]);
    }
  }

  lemma DumpsIsAscii(pairs: seq<(Text, Text)>)
    ensures Ascii(Dumps(pairs))
  {
    hide Members;
    if pairs != [] {
      MembersAreAscii(pairs);
    }
  }
}
