/** String helpers shared by the release and archive models: the Python
    operations partition, split, join and replace, and decimal numerals. */
module Strings {

  // ---- decimal numerals -------------------------------------------------

  predicate IsDigit(c: char) {
    '0' <= c <= '9'
  }

  /** True of the empty string too. */
  predicate AllDigits(s: string) {
    forall i | 0 <= i < |s| :: IsDigit(s[i])
  }

  /** A nonempty digit string without a redundant leading zero. */
  predicate Numeral(s: string) {
    s != "" && AllDigits(s) && (|s| > 1 ==> s[0] != '0')
  }

  function Val(s: string): nat
    requires AllDigits(s)
  {
    if s == "" then 0 else Val(s[..|s| - 1]) * 10 + (s[|s| - 1] as int - '0' as int)
  }

  function DigitChar(d: nat): char
    requires d < 10
  {
    ('0' as int + d) as char
  }

  function Dec(n: nat): string {
    if n < 10 then [DigitChar(n)] else Dec(n / 10) + [DigitChar(n % 10)]
  }

  lemma {:induction false} DecIsNumeral(n: nat)
    ensures Numeral(Dec(n)) && Val(Dec(n)) == n
    ensures n > 0 ==> Dec(n)[0] != '0'
  {
    if n >= 10 {
      DecIsNumeral(n / 10);
      assert Dec(n)[..|Dec(n)| - 1] == Dec(n / 10);
      assert Dec(n)[0] == Dec(n / 10)[0];
    } else {
      assert Dec(n)[..0] == "";
    }
  }

  lemma {:induction false} NumeralPositive(s: string)
    requires Numeral(s) && |s| > 1
    ensures Val(s) >= 10
  {
    var front := s[..|s| - 1];
    if |front| > 1 {
      NumeralPositive(front);
    } else {
      assert front[..0] == "";
    }
  }

  lemma {:induction false} DecOfVal(s: string)
    requires Numeral(s)
    ensures Dec(Val(s)) == s
  {
    var front := s[..|s| - 1];
    if |s| == 1 {
      assert front == "";
    } else {
      DecOfVal(front);
      NumeralPositive(s);
      assert s == front + [s[|s| - 1]];
    }
  }

  lemma ValInjective(s: string, t: string)
    requires Numeral(s) && Numeral(t) && Val(s) == Val(t)
    ensures s == t
  {
    DecOfVal(s);
    DecOfVal(t);
  }

  lemma DecInjective(m: nat, n: nat)
    requires Dec(m) == Dec(n)
    ensures m == n
  {
    DecIsNumeral(m);
    DecIsNumeral(n);
  }

  /** The code points str.strip removes: those str.isspace admits. */
  predicate Whitespace(c: int) {
    || 0x09 <= c <= 0x0D || 0x1C <= c <= 0x20 || c == 0x85 || c == 0xA0 || c == 0x1680
    || 0x2000 <= c <= 0x200A || c == 0x2028 || c == 0x2029 || c == 0x202F || c == 0x205F || c == 0x3000
  }

  predicate Blank(s: string) {
    forall i | 0 <= i < |s| :: Whitespace(s[i] as int)
  }

  // ---- partition, split, join, replace ----------------------------------

  /** The result of str.partition: text before the first separator, whether
      there was one, and the text after it. */
  datatype Cut = Cut(before: string, found: bool, after: string)

  function Partition(s: string, sep: char): Cut {
    if s == "" then Cut("", false, "")
    else if s[0] == sep then Cut("", true, s[1..])
    else
      var rest := Partition(s[1..], sep);
      Cut([s[0]] + rest.before, rest.found, rest.after)
  }

  lemma {:induction false} PartitionParts(s: string, sep: char)
    ensures var r := Partition(s, sep);
            && sep !in r.before
            && s == (if r.found then r.before + [sep] + r.after else r.before)
            && (!r.found ==> r.after == "")
  {
    if s != "" && s[0] != sep {
      PartitionParts(s[1..], sep);
    }
  }

  /** Partition is the only way to write the text around its first separator. */
  lemma {:induction false} PartitionUnique(a: string, sep: char, b: string)
    requires sep !in a
    ensures Partition(a, sep) == Cut(a, false, "")
    ensures Partition(a + [sep] + b, sep) == Cut(a, true, b)
  {
    var s := a + [sep] + b;
    if a == "" {
      assert s[1..] == b;
    } else {
      PartitionUnique(a[1..], sep, b);
      assert s[1..] == a[1..] + [sep] + b;
    }
  }

  function Split(s: string, sep: char): seq<string>
    decreases |s|
  {
    var c := Partition(s, sep);
    if c.found then
      PartitionParts(s, sep);
      [c.before] + Split(c.after, sep)
    else [c.before]
  }

  function Join(parts: seq<string>, sep: char): string {
    if parts == [] then ""
    else if |parts| == 1 then parts[0]
    else parts[0] + [sep] + Join(parts[1..], sep)
  }

  lemma JoinFew(a: string, b: string, c: string, sep: char)
    ensures Join([a, b], sep) == a + [sep] + b
    ensures Join([a, b, c], sep) == a + [sep] + (b + [sep] + c)
  {
    assert [a, b][1..] == [b] && [a, b, c][1..] == [b, c] && [b, c][1..] == [c];
    assert Join([b, c], sep) == b + [sep] + c;
  }

  lemma {:induction false} SplitOfJoin(parts: seq<string>, sep: char)
    requires parts != []
    requires forall i | 0 <= i < |parts| :: sep !in parts[i]
    ensures Split(Join(parts, sep), sep) == parts
  {
    PartitionUnique(parts[0], sep, Join(parts[1..], sep));
    if |parts| > 1 {
      SplitOfJoin(parts[1..], sep);
      assert parts == [parts[0]] + parts[1..];
    }
  }

  lemma {:induction false} SplitParts(s: string, sep: char)
    ensures Split(s, sep) != []
    ensures forall i | 0 <= i < |Split(s, sep)| :: sep !in Split(s, sep)[i]
    ensures Join(Split(s, sep), sep) == s
    decreases |s|
  {
    PartitionParts(s, sep);
    var c := Partition(s, sep);
    if c.found {
      SplitParts(c.after, sep);
      assert Split(s, sep)[1..] == Split(c.after, sep);
    }
  }

  function Replace(s: string, from: char, to: char): (r: string)
    ensures |r| == |s|
    ensures forall i | 0 <= i < |s| :: r[i] == if s[i] == from then to else s[i]
  {
    if s == "" then "" else [if s[0] == from then to else s[0]] + Replace(s[1..], from, to)
  }

  /** str.lower on ASCII letters. */
  function Lower(s: string): (r: string)
    ensures |r| == |s|
    ensures forall i | 0 <= i < |s| :: r[i] == if 'A' <= s[i] <= 'Z' then ((s[i] as int) + 32) as char else s[i]
  {
    if s == "" then ""
    else [if 'A' <= s[0] <= 'Z' then ((s[0] as int) + 32) as char else s[0]] + Lower(s[1..])
  }

  /** str.rsplit(sep, 1)[-1] */
  function LastSegment(s: string, sep: char): string {
    var parts := Split(s, sep);
    SplitParts(s, sep);
    parts[|parts| - 1]
  }
}
