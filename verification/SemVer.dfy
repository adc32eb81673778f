/** Semantic versions: parsing, precedence, and the precedence rules of
    section 11 of Semantic Versioning 2.0.0 as an independent definition. */
module SemVers {
  import opened Wrappers
  import opened Strings
  import opened Orders

  datatype SemVer = SemVer(major: nat, minor: nat, patch: nat, prerelease: seq<string>)

  predicate IdentifierChar(c: char) {
    IsDigit(c) || 'A' <= c <= 'Z' || 'a' <= c <= 'z' || c == '-'
  }

  predicate TagChars(s: string) {
    s != "" && forall i | 0 <= i < |s| :: IdentifierChar(s[i]) || s[i] == '.'
  }

  /** str.isdigit on an identifier. */
  predicate IsNumeric(id: string) {
    id != "" && AllDigits(id)
  }

  predicate LeadingZero(id: string) {
    IsNumeric(id) && |id| > 1 && id[0] == '0'
  }

  predicate AnyLeadingZero(ids: seq<string>) {
    exists i | 0 <= i < |ids| :: LeadingZero(ids[i])
  }

  /** The three dotted numbers, without a prerelease. */
  function ParseCore(core: string): Option<SemVer> {
    var parts := Split(core, '.');
    if |parts| == 3 && Numeral(parts[0]) && Numeral(parts[1]) && Numeral(parts[2]) then
      Some(SemVer(Val(parts[0]), Val(parts[1]), Val(parts[2]), []))
    else None
  }

  function ParsePrerelease(tag: string): Option<seq<string>> {
    if TagChars(tag) && !AnyLeadingZero(Split(tag, '.')) then Some(Split(tag, '.')) else None
  }

  /** SemVer.parse; None stands for the raised error. */
  function Parse(value: string): Option<SemVer> {
    var plus := Partition(value, '+');
    var dash := Partition(plus.before, '-');
    var core := ParseCore(dash.before);
    var prerelease := if dash.found then ParsePrerelease(dash.after) else Some([]);
    if core.None? || prerelease.None? || (plus.found && !TagChars(plus.after)) then None
    else Some(core.value.(prerelease := prerelease.value))
  }

  // ---- the printer that Parse inverts ------------------------------------

  function Core(major: nat, minor: nat, patch: nat): string {
    Join([Dec(major), Dec(minor), Dec(patch)], '.')
  }

  function Tagged(sep: char, tag: Option<string>): string {
    if tag.Some? then [sep] + tag.value else ""
  }

  function PrereleaseTag(v: SemVer): Option<string> {
    if v.prerelease == [] then None else Some(Join(v.prerelease, '.'))
  }

  /** The version without its build metadata. */
  function Front(v: SemVer): string {
    Core(v.major, v.minor, v.patch) + Tagged('-', PrereleaseTag(v))
  }

  function Print(v: SemVer, build: Option<string>): string {
    Front(v) + Tagged('+', build)
  }

  function BuildOf(value: string): Option<string> {
    var plus := Partition(value, '+');
    if plus.found then Some(plus.after) else None
  }

  predicate ValidIdentifier(id: string) {
    (forall i | 0 <= i < |id| :: IdentifierChar(id[i])) && !LeadingZero(id)
  }

  /** The versions parse can return. */
  predicate Valid(v: SemVer) {
    && (forall i | 0 <= i < |v.prerelease| :: ValidIdentifier(v.prerelease[i]))
    && v.prerelease != [""]
  }

  lemma JoinChars(parts: seq<string>)
    requires parts != [] && parts != [""]
    requires forall i | 0 <= i < |parts| :: forall j | 0 <= j < |parts[i]| :: IdentifierChar(parts[i][j])
    ensures TagChars(Join(parts, '.'))
  {
    if |parts| == 1 {
      assert parts == [parts[0]];
    } else if parts[1..] == [""] {
      assert Join(parts[1..], '.') == "";
    } else {
      forall i | 0 <= i < |parts[1..]| ensures forall j | 0 <= j < |parts[1..][i]| :: IdentifierChar(parts[1..][i][j]) {
        assert parts[1..][i] == parts[i + 1];
      }
      JoinChars(parts[1..]);
    }
  }

  lemma CoreShape(major: nat, minor: nat, patch: nat)
    ensures var core := Core(major, minor, patch); forall i | 0 <= i < |core| :: IsDigit(core[i]) || core[i] == '.'
    ensures Split(Core(major, minor, patch), '.') == [Dec(major), Dec(minor), Dec(patch)]
  {
    hide Dec, Val, Split, Join;
    DecIsNumeral(major);
    DecIsNumeral(minor);
    DecIsNumeral(patch);
    JoinFew(Dec(major), Dec(minor), Dec(patch), '.');
    var parts := [Dec(major), Dec(minor), Dec(patch)];
    SplitOfJoin(parts, '.');
  }

  lemma FrontShape(v: SemVer)
    requires Valid(v)
    ensures '+' !in Front(v)
    ensures var tag := if v.prerelease == [] then "" else Join(v.prerelease, '.');
            Partition(Front(v), '-') == Cut(Core(v.major, v.minor, v.patch), v.prerelease != [], tag)
    ensures v.prerelease != [] ==>
              TagChars(Join(v.prerelease, '.')) && Split(Join(v.prerelease, '.'), '.') == v.prerelease
  {
    hide Dec, Val, Split, Join, Partition;
    CoreShape(v.major, v.minor, v.patch);
    if v.prerelease != [] {
      var tag := Join(v.prerelease, '.');
      JoinChars(v.prerelease);
      SplitOfJoin(v.prerelease, '.');
      PartitionUnique(Core(v.major, v.minor, v.patch), '-', tag);
      assert Front(v) == Core(v.major, v.minor, v.patch) + ['-'] + tag;
    } else {
      PartitionUnique(Core(v.major, v.minor, v.patch), '-', "");
      assert Front(v) == Core(v.major, v.minor, v.patch);
    }
  }

  lemma PrintShape(v: SemVer, build: Option<string>)
    requires Valid(v)
    ensures Partition(Print(v, build), '+') == Cut(Front(v), build.Some?, if build.Some? then build.value else "")
  {
    FrontShape(v);
    if build.Some? {
      PartitionUnique(Front(v), '+', build.value);
      assert Print(v, build) == Front(v) + ['+'] + build.value;
    } else {
      PartitionUnique(Front(v), '+', "");
      assert Print(v, build) == Front(v);
    }
  }

  /** parse reads back what the printer writes, build metadata dropped. */
  lemma ParseOfPrint(v: SemVer, build: Option<string>)
    requires Valid(v) && (build.Some? ==> TagChars(build.value))
    ensures Parse(Print(v, build)) == Some(v)
    ensures BuildOf(Print(v, build)) == build
  {
    PrintShape(v, build);
    FrontShape(v);
    CoreShape(v.major, v.minor, v.patch);
    DecIsNumeral(v.major);
    DecIsNumeral(v.minor);
    DecIsNumeral(v.patch);
    assert !AnyLeadingZero(v.prerelease);
  }

  lemma CoreOfParse(core: string)
    requires ParseCore(core).Some?
    ensures var v := ParseCore(core).value; core == Core(v.major, v.minor, v.patch)
  {
    var parts := Split(core, '.');
    SplitParts(core, '.');
    DecOfVal(parts[0]);
    DecOfVal(parts[1]);
    DecOfVal(parts[2]);
    assert parts == [parts[0], parts[1], parts[2]];
  }

  lemma TagOfParse(tag: string)
    requires ParsePrerelease(tag).Some?
    ensures var ids := ParsePrerelease(tag).value; ids != [""] && ids != [] && Join(ids, '.') == tag
    ensures forall i | 0 <= i < |ParsePrerelease(tag).value| :: ValidIdentifier(ParsePrerelease(tag).value[i])
  {
    SplitParts(tag, '.');
    SplitChars(tag);
  }

  lemma FrontOfParse(value: string)
    requires Parse(value).Some?
    ensures Valid(Parse(value).value)
    ensures Partition(value, '+').before == Front(Parse(value).value)
  {
    var front := Partition(value, '+').before;
    var dash := Partition(front, '-');
    PartitionParts(front, '-');
    CoreOfParse(dash.before);
    var v := Parse(value).value;
    SplitTag(front, dash, '-');
    if dash.found {
      TagOfParse(dash.after);
    }
  }

  /** parse accepts nothing but printed versions, and returns valid ones. */
  lemma PrintOfParse(value: string)
    requires Parse(value).Some?
    ensures Valid(Parse(value).value)
    ensures value == Print(Parse(value).value, BuildOf(value))
    ensures BuildOf(value).Some? ==> TagChars(BuildOf(value).value)
  {
    FrontOfParse(value);
    PartitionParts(value, '+');
    SplitTag(value, Partition(value, '+'), '+');
  }

  lemma SplitTag(s: string, cut: Cut, sep: char)
    requires s == if cut.found then cut.before + [sep] + cut.after else cut.before
    ensures s == cut.before + Tagged(sep, if cut.found then Some(cut.after) else None)
  {
  }

  lemma {:induction false} SplitChars(s: string)
    requires TagChars(s)
    ensures forall i | 0 <= i < |Split(s, '.')| :: forall j | 0 <= j < |Split(s, '.')[i]| ::
              IdentifierChar(Split(s, '.')[i][j])
    ensures Split(s, '.') != [""]
  {
    SplitCharsOf(s);
    SplitParts(s, '.');
    assert Join([""], '.') == "";
  }

  lemma {:induction false} SplitCharsOf(s: string)
    requires s == "" || TagChars(s)
    ensures forall i | 0 <= i < |Split(s, '.')| :: forall j | 0 <= j < |Split(s, '.')[i]| ::
              IdentifierChar(Split(s, '.')[i][j])
    decreases |s|
  {
    var c := Partition(s, '.');
    PartitionParts(s, '.');
    forall j | 0 <= j < |c.before| ensures IdentifierChar(c.before[j]) {
      assert c.before[j] == s[j] && c.before[j] in c.before;
    }
    if c.found {
      assert forall j | 0 <= j < |c.after| :: c.after[j] == s[|c.before| + 1 + j];
      SplitCharsOf(c.after);
    }
  }

  // ---- precedence --------------------------------------------------------

  function CompareIdentifiers(left: string, right: string): int {
    if left == right then 0
    else if IsNumeric(left) && IsNumeric(right) then (if Val(left) < Val(right) then -1 else 1)
    else if IsNumeric(left) != IsNumeric(right) then (if IsNumeric(left) then -1 else 1)
    else if CompareStrings(left, right) < 0 then -1 else 1
  }

  function ComparePrerelease(a: SemVer, b: SemVer): int {
    if a.prerelease == [] && b.prerelease == [] then 0
    else if a.prerelease == [] then 1
    else if b.prerelease == [] then -1
    else Lex(CompareIdentifiers, a.prerelease, b.prerelease)
  }

  function CompareCore(a: SemVer, b: SemVer): int {
    if a.major != b.major then Sign(a.major - b.major)
    else if a.minor != b.minor then Sign(a.minor - b.minor)
    else Sign(a.patch - b.patch)
  }

  function Compare(a: SemVer, b: SemVer): int {
    if CompareCore(a, b) != 0 then CompareCore(a, b) else ComparePrerelease(a, b)
  }

  /** Section 11.4 of Semantic Versioning 2.0.0 for two distinct identifiers. */
  ghost predicate IdentifierBelow(left: string, right: string) {
    || (IsNumeric(left) && IsNumeric(right) && Val(left) < Val(right))
    || (IsNumeric(left) && !IsNumeric(right))
    || (!IsNumeric(left) && !IsNumeric(right) && CompareStrings(left, right) < 0)
  }

  /** Section 11 of Semantic Versioning 2.0.0, stated without the code's
      scan: numbers first, then a prerelease below its release, then the first
      identifier where the two lists part. */
  ghost predicate Precedes(a: SemVer, b: SemVer) {
    || a.major < b.major
    || (a.major == b.major && a.minor < b.minor)
    || (a.major == b.major && a.minor == b.minor && a.patch < b.patch)
    || (a.major == b.major && a.minor == b.minor && a.patch == b.patch
        && PrereleasePrecedes(a.prerelease, b.prerelease))
  }

  ghost predicate PrereleasePrecedes(p: seq<string>, q: seq<string>) {
    p != [] && (q == [] || exists k :: PartAt(p, q, k))
  }

  ghost predicate PartAt(p: seq<string>, q: seq<string>, k: int) {
    && 0 <= k <= |p| && k < |q| && p[..k] == q[..k]
    && (k < |p| ==> IdentifierBelow(p[k], q[k]))
  }

  /** Numeric identifiers compare as a total order because parse refuses
      redundant leading zeros. */
  lemma IdentifiersTotal()
    ensures TotalOn(CompareIdentifiers, ValidIdentifier)
  {
    forall x, y | ValidIdentifier(x) && ValidIdentifier(y)
      ensures CompareIdentifiers(x, y) == 0 <==> x == y
      ensures CompareIdentifiers(x, y) == -CompareIdentifiers(y, x)
      ensures CompareIdentifiers(x, y) < 0 <==> IdentifierBelow(x, y)
      ensures -1 <= CompareIdentifiers(x, y) <= 1
    {
      IdentifierPair(x, y);
    }
    forall x, y, z | ValidIdentifier(x) && ValidIdentifier(y) && ValidIdentifier(z) && CompareIdentifiers(x, y) < 0
        && CompareIdentifiers(y, z) < 0
      ensures CompareIdentifiers(x, z) < 0
    {
      IdentifierPair(x, y);
      IdentifierPair(y, z);
      IdentifierPair(x, z);
      if !IsNumeric(x) {
        StringTriple(x, y, z);
      }
    }
  }

  lemma IdentifierPair(x: string, y: string)
    requires ValidIdentifier(x) && ValidIdentifier(y)
    ensures CompareIdentifiers(x, y) == -CompareIdentifiers(y, x)
    ensures CompareIdentifiers(x, y) < 0 <==> IdentifierBelow(x, y)
  {
    StringPair(x, y);
    if IsNumeric(x) && IsNumeric(y) && Val(x) == Val(y) {
      ValInjective(x, y);
    }
  }

  /** The precedence laws: a total order on parsed versions, with build
      metadata ignored, that is exactly the order of section 11. */
  lemma CompareIsPrecedence(a: SemVer, b: SemVer)
    requires Valid(a) && Valid(b)
    ensures Compare(a, b) == -Compare(b, a)
    ensures Compare(a, b) == 0 <==> a == b
    ensures Compare(a, b) < 0 <==> Precedes(a, b)
    ensures -1 <= Compare(a, b) <= 1
  {
    IdentifiersTotal();
    LexZero(CompareIdentifiers, ValidIdentifier, a.prerelease, b.prerelease);
    LexNegative(CompareIdentifiers, ValidIdentifier, a.prerelease, b.prerelease);
    forall k
      ensures PartsBelow(CompareIdentifiers, a.prerelease, b.prerelease, k) <==> PartAt(a.prerelease, b.prerelease, k)
    {
      if 0 <= k < |a.prerelease| && k < |b.prerelease| {
        IdentifierPair(a.prerelease[k], b.prerelease[k]);
      }
    }
  }

  lemma CompareTransitive(a: SemVer, b: SemVer, c: SemVer)
    requires Valid(a) && Valid(b) && Valid(c)
    requires Compare(a, b) <= 0 && Compare(b, c) <= 0
    ensures Compare(a, c) <= 0
    ensures Compare(a, b) < 0 || Compare(b, c) < 0 ==> Compare(a, c) < 0
  {
    CompareIsPrecedence(a, b);
    CompareIsPrecedence(b, c);
    if Compare(a, b) < 0 && Compare(b, c) < 0 {
      IdentifiersTotal();
      if a.prerelease != [] && b.prerelease != [] && c.prerelease != []
         && Lex(CompareIdentifiers, a.prerelease, b.prerelease) < 0
             && Lex(CompareIdentifiers, b.prerelease, c.prerelease) < 0 {
        LexTransitive(CompareIdentifiers, ValidIdentifier, a.prerelease, b.prerelease, c.prerelease);
      }
    }
  }

  /** The same laws on version strings: two strings parse to versions of equal
      precedence exactly when they differ at most in build metadata. */
  lemma PrecedenceOfStrings(s: string, t: string, u: string)
    requires Parse(s).Some? && Parse(t).Some? && Parse(u).Some?
    ensures Compare(Parse(s).value, Parse(t).value) == -Compare(Parse(t).value, Parse(s).value)
    ensures Compare(Parse(s).value, Parse(t).value) == 0 <==> Partition(s, '+').before == Partition(t, '+').before
    ensures Compare(Parse(s).value, Parse(t).value) <= 0 && Compare(Parse(t).value, Parse(u).value) <= 0
            ==> Compare(Parse(s).value, Parse(u).value) <= 0
  {
    hide Parse, Compare, Valid, Front, Partition;
    PrintOfParse(s);
    PrintOfParse(t);
    PrintOfParse(u);
    var v, w := Parse(s).value, Parse(t).value;
    CompareIsPrecedence(v, w);
    if Compare(v, w) <= 0 && Compare(w, Parse(u).value) <= 0 {
      CompareTransitive(v, w, Parse(u).value);
    }
    ParseOfPrint(v, None);
    ParseOfPrint(w, None);
    FrontOfParse(s);
    FrontOfParse(t);
    PrintWithoutBuild(v);
    PrintWithoutBuild(w);
  }

  lemma PrintWithoutBuild(v: SemVer)
    ensures Print(v, None) == Front(v)
  {
  }

  /** Without the leading-zero check the comparison is not antisymmetric: each
      of the identifiers "01" and "1" would come after the other. */
  lemma LeadingZerosBreakAntisymmetry()
    ensures var a, b := SemVer(1, 0, 0, ["01"]), SemVer(1, 0, 0, ["1"]); Compare(a, b) == 1 && Compare(b, a) == 1
  {
    ValOneDigit();
    assert CompareIdentifiers("01", "1") == 1 && CompareIdentifiers("1", "01") == 1;
  }

  /** parse refuses every version with such an identifier anywhere in its
      prerelease, with or without build metadata. */
  lemma LeadingZeroRefused(core: string, ids: seq<string>, i: nat, build: Option<string>)
    requires '+' !in core && '-' !in core
    requires forall j | 0 <= j < |ids| :: '.' !in ids[j] && '+' !in ids[j]
    requires i < |ids| && LeadingZero(ids[i])
    ensures Parse(core + "-" + Join(ids, '.') + Tagged('+', build)) == None
  {
    hide Split, Join, Partition, LeadingZero;
    var tag := Join(ids, '.');
    var front := core + ['-'] + tag;
    assert front == core + "-" + tag;
    JoinAvoids(ids, '.', '+');
    PartitionUnique(front, '+', if build.Some? then build.value else "");
    assert Partition(front + Tagged('+', build), '+').before == front by {
      assert build.Some? ==> front + Tagged('+', build) == front + ['+'] + build.value;
      assert build.None? ==> front + Tagged('+', build) == front;
    }
    PartitionUnique(core, '-', tag);
    SplitOfJoin(ids, '.');
    assert AnyLeadingZero(Split(tag, '.'));
  }

  lemma {:induction false} JoinAvoids(parts: seq<string>, sep: char, c: char)
    requires c != sep && forall j | 0 <= j < |parts| :: c !in parts[j]
    ensures c !in Join(parts, sep)
  {
    if |parts| > 1 {
      JoinAvoids(parts[1..], sep, c);
    }
  }

  lemma ValOneDigit()
    ensures Val("1") == 1 && Val("01") == 1
  {
    var one, padded := "1", "01";
    assert one[..0] == "" && padded[..1] == "0" && "0"[..0] == "";
    assert Val("0") == 0;
  }
}
