/** Three-way comparisons, their lexicographic extension to sequences, and the
    order of Python strings and of tuples of strings. */
module Orders {

  function Sign(x: int): int {
    if x < 0 then -1 else if x == 0 then 0 else 1
  }

  /** cmp is a three-way comparison of a total order on the elements ok admits. */
  ghost predicate TotalOn<T(!new)>(cmp: (T, T) -> int, ok: T -> bool) {
    && (forall x, y | ok(x) && ok(y) :: cmp(x, y) == 0 <==> x == y)
    && (forall x, y | ok(x) && ok(y) :: cmp(x, y) == -cmp(y, x))
    && (forall x, y, z | ok(x) && ok(y) && ok(z) && cmp(x, y) < 0 && cmp(y, z) < 0 :: cmp(x, z) < 0)
    && (forall x, y | ok(x) && ok(y) :: -1 <= cmp(x, y) <= 1)
  }

  ghost predicate All<T(!new)>(ok: T -> bool, s: seq<T>) {
    forall i | 0 <= i < |s| :: ok(s[i])
  }

  /** Lexicographic comparison; a proper prefix comes first. */
  function Lex<T(==)>(cmp: (T, T) -> int, a: seq<T>, b: seq<T>): int {
    if a == [] && b == [] then 0
    else if a == [] then -1
    else if b == [] then 1
    else if cmp(a[0], b[0]) != 0 then cmp(a[0], b[0])
    else Lex(cmp, a[1..], b[1..])
  }

  lemma {:induction false} LexZero<T(!new)>(cmp: (T, T) -> int, ok: T -> bool, a: seq<T>, b: seq<T>)
    requires TotalOn(cmp, ok) && All(ok, a) && All(ok, b)
    ensures Lex(cmp, a, b) == 0 <==> a == b
    ensures Lex(cmp, a, b) == -Lex(cmp, b, a)
    ensures -1 <= Lex(cmp, a, b) <= 1
  {
    if a != [] && b != [] {
      assert ok(a[0]) && ok(b[0]);
      assert a == [a[0]] + a[1..] && b == [b[0]] + b[1..];
      LexZero(cmp, ok, a[1..], b[1..]);
    }
  }

  lemma {:induction false} LexTransitive<T(!new)>(cmp: (T, T) -> int, ok: T -> bool, a: seq<T>, b: seq<T>, c: seq<T>)
    requires TotalOn(cmp, ok) && All(ok, a) && All(ok, b) && All(ok, c)
    requires Lex(cmp, a, b) < 0 && Lex(cmp, b, c) < 0
    ensures Lex(cmp, a, c) < 0
  {
    if a != [] {
      assert ok(a[0]) && ok(b[0]) && ok(c[0]);
      if cmp(a[0], b[0]) == 0 && cmp(b[0], c[0]) == 0 {
        LexTransitive(cmp, ok, a[1..], b[1..], c[1..]);
      }
    }
  }

  lemma PartsAtHead<T>(cmp: (T, T) -> int, a: seq<T>, b: seq<T>)
    ensures PartsBelow(cmp, a, b, 0) <==> b != [] && (a != [] ==> cmp(a[0], b[0]) < 0)
  {
  }

  lemma PartsLater<T>(cmp: (T, T) -> int, a: seq<T>, b: seq<T>, k: nat)
    requires a != [] && b != []
    ensures PartsBelow(cmp, a, b, k + 1) <==> a[0] == b[0] && PartsBelow(cmp, a[1..], b[1..], k)
  {
    if k < |a| && k + 1 < |b| {
      assert a[..k + 1] == [a[0]] + a[1..][..k] && b[..k + 1] == [b[0]] + b[1..][..k];
      if a[..k + 1] == b[..k + 1] {
        assert a[0] == a[..k + 1][0] == b[..k + 1][0] == b[0];
        assert a[1..][..k] == a[..k + 1][1..] && b[1..][..k] == b[..k + 1][1..];
      }
    }
  }

  lemma HeadsCompare<T(!new)>(cmp: (T, T) -> int, ok: T -> bool, a: seq<T>, b: seq<T>)
    requires TotalOn(cmp, ok) && All(ok, a) && All(ok, b) && a != [] && b != []
    ensures cmp(a[0], b[0]) == 0 <==> a[0] == b[0]
    ensures All(ok, a[1..]) && All(ok, b[1..])
  {
    assert ok(a[0]) && ok(b[0]);
  }

  /** A negative comparison says where the sequences part: after a common
      prefix the left one ends, or holds the smaller element. */
  lemma {:induction false} LexNegative<T(!new)>(cmp: (T, T) -> int, ok: T -> bool, a: seq<T>, b: seq<T>)
    requires TotalOn(cmp, ok) && All(ok, a) && All(ok, b)
    ensures Lex(cmp, a, b) < 0 <==> exists k :: PartsBelow(cmp, a, b, k)
  {
    hide TotalOn, All, PartsBelow;
    PartsAtHead(cmp, a, b);
    if a != [] && b != [] {
      HeadsCompare(cmp, ok, a, b);
      LexNegative(cmp, ok, a[1..], b[1..]);
      if Lex(cmp, a, b) < 0 && a[0] == b[0] {
        var k :| PartsBelow(cmp, a[1..], b[1..], k);
        PartsIndex(cmp, a[1..], b[1..], k);
        PartsLater(cmp, a, b, k);
      }
      if k :| PartsBelow(cmp, a, b, k) {
        PartsIndex(cmp, a, b, k);
        if k > 0 {
          PartsLater(cmp, a, b, k - 1);
        }
      }
    } else if k :| PartsBelow(cmp, a, b, k) {
      PartsIndex(cmp, a, b, k);
    }
  }

  lemma PartsIndex<T>(cmp: (T, T) -> int, a: seq<T>, b: seq<T>, k: int)
    requires PartsBelow(cmp, a, b, k)
    ensures 0 <= k <= |a| && k < |b|
  {
  }

  ghost predicate PartsBelow<T>(cmp: (T, T) -> int, a: seq<T>, b: seq<T>, k: int) {
    && 0 <= k <= |a| && k < |b|
    && a[..k] == b[..k]
    && (k < |a| ==> cmp(a[k], b[k]) < 0)
  }

  // ---- Python strings, tuples of strings --------------------------------

  function CompareChars(a: char, b: char): int {
    Sign(a as int - b as int)
  }

  function CompareStrings(a: string, b: string): int {
    Lex(CompareChars, a, b)
  }

  function CompareTuples(a: seq<string>, b: seq<string>): int {
    Lex(CompareStrings, a, b)
  }

  lemma StringsTotal()
    ensures Total(CompareStrings)
  {
    var any := (c: char) => true;
    assert TotalOn(CompareChars, any);
    forall a: string, b: string
      ensures CompareStrings(a, b) == 0 <==> a == b
      ensures CompareStrings(a, b) == -CompareStrings(b, a)
      ensures -1 <= CompareStrings(a, b) <= 1
    {
      LexZero(CompareChars, any, a, b);
    }
    forall a: string, b: string, c: string | CompareStrings(a, b) < 0 && CompareStrings(b, c) < 0
      ensures CompareStrings(a, c) < 0
    {
      LexTransitive(CompareChars, any, a, b, c);
    }
  }

  lemma TuplesTotal()
    ensures Total(CompareTuples)
  {
    var any := (s: string) => true;
    StringsTotal();
    forall a: seq<string>, b: seq<string>
      ensures CompareTuples(a, b) == 0 <==> a == b
      ensures CompareTuples(a, b) == -CompareTuples(b, a)
      ensures -1 <= CompareTuples(a, b) <= 1
    {
      LexZero(CompareStrings, any, a, b);
    }
    forall a: seq<string>, b: seq<string>, c: seq<string> | CompareTuples(a, b) < 0 && CompareTuples(b, c) < 0
      ensures CompareTuples(a, c) < 0
    {
      LexTransitive(CompareStrings, any, a, b, c);
    }
  }

  lemma StringPair(a: string, b: string)
    ensures CompareStrings(a, b) == 0 <==> a == b
    ensures CompareStrings(a, b) == -CompareStrings(b, a)
    ensures -1 <= CompareStrings(a, b) <= 1
  {
    StringsTotal();
  }

  lemma StringTriple(a: string, b: string, c: string)
    requires CompareStrings(a, b) < 0 && CompareStrings(b, c) < 0
    ensures CompareStrings(a, c) < 0
  {
    StringsTotal();
  }

  /** The order of Python strings: at the first difference the smaller code
      point comes first, and a proper prefix before its extensions. */
  ghost predicate TextBelow(a: string, b: string) {
    exists k :: TextParts(a, b, k)
  }

  ghost predicate TextParts(a: string, b: string, k: int) {
    0 <= k <= |a| && k < |b| && a[..k] == b[..k] && (k < |a| ==> a[k] < b[k])
  }

  lemma StringsBelow(a: string, b: string)
    ensures CompareStrings(a, b) < 0 <==> TextBelow(a, b)
    ensures CompareStrings(a, b) > 0 <==> TextBelow(b, a)
  {
    var any := (c: char) => true;
    assert TotalOn(CompareChars, any);
    LexNegative(CompareChars, any, a, b);
    LexNegative(CompareChars, any, b, a);
    StringPair(a, b);
    forall k
      ensures PartsBelow(CompareChars, a, b, k) <==> TextParts(a, b, k)
      ensures PartsBelow(CompareChars, b, a, k) <==> TextParts(b, a, k)
    {
    }
  }

  /** The order of Python tuples of strings. */
  ghost predicate TupleBelow(a: seq<string>, b: seq<string>) {
    exists k :: TupleParts(a, b, k)
  }

  ghost predicate TupleParts(a: seq<string>, b: seq<string>, k: int) {
    0 <= k <= |a| && k < |b| && a[..k] == b[..k] && (k < |a| ==> TextBelow(a[k], b[k]))
  }

  lemma TuplesBelow(a: seq<string>, b: seq<string>)
    ensures CompareTuples(a, b) < 0 <==> TupleBelow(a, b)
    ensures CompareTuples(a, b) > 0 <==> TupleBelow(b, a)
  {
    hide TextBelow;
    var any := (s: string) => true;
    StringsTotal();
    TuplesTotal();
    TotalMeans(CompareTuples, a, b, a);
    LexNegative(CompareStrings, any, a, b);
    LexNegative(CompareStrings, any, b, a);
    forall k
      ensures PartsBelow(CompareStrings, a, b, k) <==> TupleParts(a, b, k)
      ensures PartsBelow(CompareStrings, b, a, k) <==> TupleParts(b, a, k)
    {
      if 0 <= k < |a| && k < |b| {
        StringsBelow(a[k], b[k]);
      }
    }
  }

  // ---- sorted(set) -------------------------------------------------------

  /** Insertion into a strictly increasing sequence. */
  function Insert<T(==)>(cmp: (T, T) -> int, x: T, s: seq<T>): seq<T> {
    if s == [] then [x]
    else if cmp(x, s[0]) == 0 then s
    else if cmp(x, s[0]) < 0 then [x] + s
    else [s[0]] + Insert(cmp, x, s[1..])
  }

  /** The distinct elements of s in increasing order, as sorted(set(s)) lists them. */
  function SortedSet<T(==)>(cmp: (T, T) -> int, s: seq<T>): seq<T> {
    if s == [] then [] else Insert(cmp, s[0], SortedSet(cmp, s[1..]))
  }

  ghost predicate Increasing<T>(cmp: (T, T) -> int, s: seq<T>) {
    forall i, j | 0 <= i < j < |s| :: cmp(s[i], s[j]) < 0
  }

  ghost predicate Total<T(!new)>(cmp: (T, T) -> int) {
    TotalOn(cmp, (x: T) => true)
  }

  lemma PrependKeepsOrder<T>(cmp: (T, T) -> int, x: T, s: seq<T>)
    requires Increasing(cmp, s) && forall j | 0 <= j < |s| :: cmp(x, s[j]) < 0
    ensures Increasing(cmp, [x] + s)
  {
  }

  lemma TotalMeans<T(!new)>(cmp: (T, T) -> int, x: T, y: T, z: T)
    requires Total(cmp)
    ensures cmp(x, y) == 0 <==> x == y
    ensures cmp(x, y) == -cmp(y, x)
    ensures cmp(x, y) < 0 && cmp(y, z) < 0 ==> cmp(x, z) < 0
  {
  }

  /** Everything after the head of an increasing sequence is above it. */
  lemma BelowHead<T(!new)>(cmp: (T, T) -> int, x: T, s: seq<T>)
    requires Total(cmp) && Increasing(cmp, s) && s != [] && cmp(x, s[0]) < 0
    ensures forall j | 0 <= j < |s| :: cmp(x, s[j]) < 0
  {
    hide Total;
    forall j | 0 <= j < |s|
      ensures cmp(x, s[j]) < 0
    {
      TotalMeans(cmp, x, s[0], s[j]);
    }
  }

  lemma {:induction false} InsertKeepsOrder<T(!new)>(cmp: (T, T) -> int, x: T, s: seq<T>)
    requires Total(cmp) && Increasing(cmp, s)
    ensures Increasing(cmp, Insert(cmp, x, s))
    ensures forall y :: y in Insert(cmp, x, s) <==> y == x || y in s
  {
    hide Total, Increasing;
    if s == [] {
      SingletonIncreases(cmp, x);
    } else {
      TotalMeans(cmp, x, s[0], s[0]);
      assert s == [s[0]] + s[1..];
      TailIncreases(cmp, s);
      if cmp(x, s[0]) < 0 {
        BelowHead(cmp, x, s);
        PrependKeepsOrder(cmp, x, s);
      } else if cmp(x, s[0]) > 0 {
        InsertKeepsOrder(cmp, x, s[1..]);
        var rest := Insert(cmp, x, s[1..]);
        forall j | 0 <= j < |rest|
          ensures cmp(s[0], rest[j]) < 0
        {
          assert rest[j] in rest;
        }
        PrependKeepsOrder(cmp, s[0], rest);
      }
    }
  }

  lemma SingletonIncreases<T>(cmp: (T, T) -> int, x: T)
    ensures Increasing(cmp, [x])
  {
  }

  lemma TailIncreases<T>(cmp: (T, T) -> int, s: seq<T>)
    requires Increasing(cmp, s) && s != []
    ensures Increasing(cmp, s[1..])
    ensures forall y | y in s[1..] :: cmp(s[0], y) < 0
  {
  }

  lemma {:induction false} SortedSetSorts<T(!new)>(cmp: (T, T) -> int, s: seq<T>)
    requires Total(cmp)
    ensures Increasing(cmp, SortedSet(cmp, s))
    ensures forall y :: y in SortedSet(cmp, s) <==> y in s
  {
    if s != [] {
      SortedSetSorts(cmp, s[1..]);
      InsertKeepsOrder(cmp, s[0], SortedSet(cmp, s[1..]));
      assert s == [s[0]] + s[1..];
    }
  }
}
