/** The filesystem audit archive: entries grouped by organisation and day, one
    file and one checksum file a partition, and a receipt naming what is safe
    to delete. */
module AuditArchive {
  import opened Wrappers
  import opened Strings

  type Year = n: int | 1 <= n <= 9999 witness 1
  type Month = n: int | 1 <= n <= 12 witness 1
  type DayOfMonth = n: int | 1 <= n <= 31 witness 1

  datatype Day = Day(year: Year, month: Month, day: DayOfMonth)

  /** When an entry occurred: its UTC day and its ISO text. */
  datatype Moment = Moment(day: Day, iso: string)

  datatype Actor = Actor(id: int, email: Option<string>, userId: Option<int>, address: Option<string>,
      erasedAt: Option<string>)

  /** An audit row; changes and metadata stand for their JSON texts. */
  datatype Entry = Entry(pk: int, org: Option<nat>, occurred: Option<Moment>, actor: Actor, action: string,
      targetType: string, targetId: string, targetRepr: string, changes: string, metadata: string, requestId: string)

  /** One line of an archive file. */
  datatype Record = Record(
    id: int,
    occurredAt: Option<string>,
    orgId: Option<nat>,
    actorId: int,
    actorEmail: Option<string>,
    actorUserId: Option<int>,
    actorAddress: Option<string>,
    actorErasedAt: Option<string>,
    action: string,
    targetType: string,
    targetId: string,
    targetRepr: string,
    changes: string,
    metadata: string,
    requestId: string
  )

  /** _entry_to_archive_dict: an erased actor keeps only its id and erasure. */
  function ToRecord(e: Entry): Record {
    var erased := e.actor.erasedAt.Some?;
    Record(e.pk, if e.occurred.Some? then Some(e.occurred.value.iso) else None, e.org, e.actor.id,
           if erased then None else e.actor.email,
           if erased then None else e.actor.userId,
           if erased then None else e.actor.address,
           e.actor.erasedAt, e.action, e.targetType, e.targetId, e.targetRepr, e.changes, e.metadata, e.requestId)
  }

  /** A line that carries an entry: its own values, and those of its actor
      except that nothing identifies an erased one beyond its key. */
  predicate Carries(r: Record, e: Entry) {
    && r.id == e.pk && r.orgId == e.org && r.actorId == e.actor.id && r.actorErasedAt == e.actor.erasedAt
    && (match e.occurred case None => r.occurredAt == None case Some(at) => r.occurredAt == Some(at.iso))
    && r.action == e.action && r.targetType == e.targetType && r.targetId == e.targetId
    && r.targetRepr == e.targetRepr && r.changes == e.changes && r.metadata == e.metadata && r.requestId == e.requestId
    && (e.actor.erasedAt.None? ==>
          r.actorEmail == e.actor.email && r.actorUserId == e.actor.userId && r.actorAddress == e.actor.address)
    && (e.actor.erasedAt.Some? ==> r.actorEmail.None? && r.actorUserId.None? && r.actorAddress.None?)
  }

  /** Exactly one line carries an entry, the one that is written for it. */
  lemma LineCarriesEntry(e: Entry, r: Record)
    ensures Carries(r, e) <==> r == ToRecord(e)
  {
  }

  /** The entry a line was written for, given the day that its time falls on. */
  function Restored(r: Record, day: Day): Entry {
    Entry(r.id, r.orgId, if r.occurredAt.Some? then Some(Moment(day, r.occurredAt.value)) else None,
          Actor(r.actorId, r.actorEmail, r.actorUserId, r.actorAddress, r.actorErasedAt),
          r.action, r.targetType, r.targetId, r.targetRepr, r.changes, r.metadata, r.requestId)
  }

  /** A line gives back every entry whose actor is not erased; of an erased
      actor it gives back the entry without email, user and address. */
  lemma LinesRestoreEntries(e: Entry, day: Day)
    requires e.occurred.Some? ==> day == e.occurred.value.day
    ensures e.actor.erasedAt.None? ==> Restored(ToRecord(e), day) == e
    ensures e.actor.erasedAt.Some? ==>
              Restored(ToRecord(e), day) == e.(actor := Actor(e.actor.id, None, None, None, e.actor.erasedAt))
  {
  }

  /** So two entries of one time and with actors that are not erased are written
      alike only when they are one. */
  lemma LinesAreInjective(e: Entry, f: Entry)
    requires e.actor.erasedAt.None? && f.actor.erasedAt.None? && e.occurred == f.occurred
    ensures ToRecord(e) == ToRecord(f) <==> e == f
  {
    if e.occurred.Some? {
      LinesRestoreEntries(e, e.occurred.value.day);
      LinesRestoreEntries(f, e.occurred.value.day);
    }
  }

  function ToRecords(es: seq<Entry>): (r: seq<Record>)
    ensures |r| == |es| && forall i | 0 <= i < |es| :: r[i] == ToRecord(es[i])
  {
    if es == [] then [] else [ToRecord(es[0])] + ToRecords(es[1..])
  }

  // ---- partitions ---------------------------------------------------------------------

  datatype Key = Key(org: Option<nat>, day: Day)

  /** today stands for timezone.now() on an entry without a time. */
  function KeyOf(e: Entry, today: Day): Key {
    Key(e.org, if e.occurred.Some? then e.occurred.value.day else today)
  }

  /** The partition keys in the order they first occur. */
  function Keys(es: seq<Entry>, today: Day): seq<Key> {
    if es == [] then []
    else
      var front := Keys(es[..|es| - 1], today);
      var key := KeyOf(es[|es| - 1], today);
      if key in front then front else front + [key]
  }

  /** The entries of one partition, in input order. */
  function Group(es: seq<Entry>, key: Key, today: Day): seq<Entry> {
    if es == [] then []
    else
      var front := Group(es[..|es| - 1], key, today);
      if KeyOf(es[|es| - 1], today) == key then front + [es[|es| - 1]] else front
  }

  method GroupEntries(es: seq<Entry>, today: Day) returns (keys: seq<Key>, groups: map<Key, seq<Entry>>)
    ensures keys == Keys(es, today)
    ensures forall k | k in keys :: k in groups && groups[k] == Group(es, k, today)
  {
    keys, groups := [], map[];
    for i := 0 to |es|
      invariant keys == Keys(es[..i], today)
      invariant forall k :: k in keys <==> k in groups
      invariant forall k | k in groups :: groups[k] == Group(es[..i], k, today)
      invariant forall k | k !in groups :: Group(es[..i], k, today) == []
    {
      assert es[..i + 1][..i] == es[..i];
      var key := KeyOf(es[i], today);
      if key !in groups {
        keys := keys + [key];
        groups := groups[key := []];
      }
      groups := groups[key := groups[key] + [es[i]]];
    }
    assert es[..|es|] == es;
  }

  // ---- paths ------------------------------------------------------------------------------

  type Path = seq<string>

  function Zeros(n: nat): string {
    if n == 0 then "" else "0" + Zeros(n - 1)
  }

  /** A number in decimal, padded with zeros to a width. */
  function Padded(n: nat, width: nat): string {
    var d := Dec(n);
    if |d| >= width then d else Zeros(width - |d|) + d
  }

  function OrgSegment(org: Option<nat>): string {
    if org.Some? then "org_" + Dec(org.value) else "org_unscoped"
  }

  function FileName(day: Day, suffix: string): string {
    Padded(day.day, 2) + suffix + ".jsonl.gz"
  }

  function DataPath(key: Key, suffix: string): Path {
    [OrgSegment(key.org), Padded(key.day.year, 4), Padded(key.day.month, 2), FileName(key.day, suffix)]
  }

  function ChecksumPath(key: Key, suffix: string): Path {
    DataPath(key, suffix)[3 := FileName(key.day, suffix) + ".sha256"]
  }

  lemma {:induction false} ValOfZero(s: string)
    requires AllDigits(s)
    ensures AllDigits("0" + s) && Val("0" + s) == Val(s)
  {
    if s == "" {
      assert ("0" + s)[..0] == "";
    } else {
      var front := s[..|s| - 1];
      ValOfZero(front);
      assert ("0" + s)[..|s|] == "0" + front;
    }
  }

  lemma {:induction false} ValOfZeros(n: nat, s: string)
    requires AllDigits(s)
    ensures AllDigits(Zeros(n) + s) && Val(Zeros(n) + s) == Val(s)
  {
    hide Val;
    if n == 0 {
      assert Zeros(0) + s == s;
    } else {
      ValOfZeros(n - 1, s);
      ValOfZero(Zeros(n - 1) + s);
      assert Zeros(n) + s == "0" + (Zeros(n - 1) + s);
    }
  }

  lemma PaddedReadsBack(n: nat, width: nat)
    ensures AllDigits(Padded(n, width)) && Val(Padded(n, width)) == n
  {
    hide Val, Dec;
    DecIsNumeral(n);
    if |Dec(n)| < width {
      ValOfZeros(width - |Dec(n)|, Dec(n));
    }
  }

  lemma PaddedInjective(m: nat, n: nat, width: nat)
    requires Padded(m, width) == Padded(n, width)
    ensures m == n
  {
    hide Padded;
    PaddedReadsBack(m, width);
    PaddedReadsBack(n, width);
  }

  lemma DayIsTwoDigits(d: DayOfMonth)
    ensures |Padded(d, 2)| == 2
  {
    if d >= 10 {
      assert Dec(d) == Dec(d / 10) + [DigitChar(d % 10)];
    } else {
      assert Zeros(1) == "0";
    }
  }

  /** A path names the organisation, and the year, month and day as numbers of
      four, two and two digits. */
  predicate PathNames(p: Path, key: Key, suffix: string) {
    && |p| == 4
    && p[0] == (match key.org case None => "org_unscoped" case Some(n) => "org_" + Dec(n))
    && |p[1]| == 4 && AllDigits(p[1]) && Val(p[1]) == key.day.year
    && |p[2]| == 2 && AllDigits(p[2]) && Val(p[2]) == key.day.month
    && |p[3]| >= 2 && AllDigits(p[3][..2]) && Val(p[3][..2]) == key.day.day && p[3][2..] == suffix + ".jsonl.gz"
  }

  lemma {:induction false} ZerosLength(n: nat)
    ensures |Zeros(n)| == n
  {
    if n > 0 {
      ZerosLength(n - 1);
    }
  }

  lemma PaddedWidth(n: nat, width: nat)
    requires |Dec(n)| <= width
    ensures |Padded(n, width)| == width
  {
    ZerosLength(width - |Dec(n)|);
  }

  lemma DecShort(n: nat)
    requires n < 10000
    ensures |Dec(n)| <= 4
    ensures n < 100 ==> |Dec(n)| <= 2
  {
    if n >= 10 {
      assert |Dec(n)| == |Dec(n / 10)| + 1;
      if n >= 100 {
        assert |Dec(n / 10)| == |Dec(n / 10 / 10)| + 1;
        if n >= 1000 {
          assert |Dec(n / 10 / 10)| == |Dec(n / 10 / 10 / 10)| + 1;
        }
      }
    }
  }

  lemma DataPathNames(key: Key, suffix: string)
    ensures PathNames(DataPath(key, suffix), key, suffix)
    ensures ChecksumPath(key, suffix)
         == DataPath(key, suffix)[..3] + [DataPath(key, suffix)[3] + ".sha256"]
  {
    hide Dec, Val, Padded;
    var d := key.day;
    DecShort(d.year);
    DecShort(d.month);
    DecShort(d.day);
    PaddedWidth(d.year, 4);
    PaddedWidth(d.month, 2);
    PaddedWidth(d.day, 2);
    PaddedReadsBack(d.year, 4);
    PaddedReadsBack(d.month, 2);
    PaddedReadsBack(d.day, 2);
    var p := DataPath(key, suffix);
    assert p[3][..2] == Padded(d.day, 2) && p[3][2..] == suffix + ".jsonl.gz";
  }

  lemma OrgSegmentInjective(a: Option<nat>, b: Option<nat>)
    requires OrgSegment(a) == OrgSegment(b)
    ensures a == b
  {
    hide Dec;
    var x, y := OrgSegment(a), OrgSegment(b);
    assert "org_unscoped"[4] == 'u';
    if a.Some? {
      DecIsNumeral(a.value);
      assert x[4] == Dec(a.value)[0] && x[4..] == Dec(a.value);
    }
    if b.Some? {
      DecIsNumeral(b.value);
      assert y[4] == Dec(b.value)[0] && y[4..] == Dec(b.value);
    }
    if a.Some? && b.Some? {
      DecInjective(a.value, b.value);
    }
  }

  lemma FileNameInjective(a: Day, b: Day, suffix: string)
    requires FileName(a, suffix) == FileName(b, suffix)
    ensures a.day == b.day
  {
    hide Padded;
    DayIsTwoDigits(a.day);
    DayIsTwoDigits(b.day);
    assert FileName(a, suffix)[..2] == Padded(a.day, 2);
    assert FileName(b, suffix)[..2] == Padded(b.day, 2);
    PaddedInjective(a.day, b.day, 2);
  }

  lemma ChecksumNameDiffers(a: Day, b: Day, suffix: string)
    ensures FileName(a, suffix) != FileName(b, suffix) + ".sha256"
  {
    hide Padded;
    var x, y := FileName(a, suffix), FileName(b, suffix) + ".sha256";
    assert x[|x| - 1] == 'z' && y[|y| - 1] == '6';
  }

  /** The files of one call have pairwise distinct paths. */
  lemma PathsDistinct(a: Key, b: Key, suffix: string)
    ensures DataPath(a, suffix) == DataPath(b, suffix) <==> a == b
    ensures ChecksumPath(a, suffix) == ChecksumPath(b, suffix) <==> a == b
    ensures DataPath(a, suffix) != ChecksumPath(b, suffix)
  {
    hide Padded, OrgSegment, FileName;
    var x, y := DataPath(a, suffix), DataPath(b, suffix);
    var s, t := ChecksumPath(a, suffix), ChecksumPath(b, suffix);
    ChecksumNameDiffers(a.day, b.day, suffix);
    assert x[3] == FileName(a.day, suffix) && t[3] == FileName(b.day, suffix) + ".sha256";
    if x == y || s == t {
      assert OrgSegment(a.org) == x[0] == s[0] && OrgSegment(b.org) == y[0] == t[0];
      assert Padded(a.day.year, 4) == x[1] == s[1] && Padded(b.day.year, 4) == y[1] == t[1];
      assert Padded(a.day.month, 2) == x[2] == s[2] && Padded(b.day.month, 2) == y[2] == t[2];
      if s == t {
        SameStem(FileName(a.day, suffix), FileName(b.day, suffix), s[3], t[3]);
      }
      OrgSegmentInjective(a.org, b.org);
      PaddedInjective(a.day.year, b.day.year, 4);
      PaddedInjective(a.day.month, b.day.month, 2);
      FileNameInjective(a.day, b.day, suffix);
    }
  }

  lemma SameStem(a: string, b: string, s: string, t: string)
    requires s == a + ".sha256" && t == b + ".sha256" && s == t
    ensures a == b
  {
    assert a == s[..|s| - 7] && b == t[..|t| - 7];
  }
}
