/** A Validator whose identifier reads "None" and that the activation gate
    passes although none of its rows is accepted. */
module ActivationLimits {
  import opened Wrappers
  import opened Orders
  import opened ProviderNames
  import opened Releases
  import opened ReleaseStatus
  import opened Activation
  import SemVers
  import Strings

  // ---- which rows are selected ---------------------------------------------

  lemma {:induction false} SelectedForFrom(rows: seq<Row>, ids: seq<string>, preferRouted: bool)
    ensures forall r | r in SelectedFor(rows, ids, preferRouted) :: r in rows && Str(r.validatorId) in ids
  {
    if ids != [] {
      var id := ids[|ids| - 1];
      SelectedForFrom(rows, ids[..|ids| - 1], preferRouted);
      PickFrom(rows, Route(id, SERVICE), preferRouted);
      PickFrom(rows, Route(id, JOB), preferRouted);
      assert ids == ids[..|ids| - 1] + [id];
    }
  }

  lemma PickFrom(rows: seq<Row>, route: Route, preferRouted: bool)
    ensures forall r | r in Pick(rows, route, preferRouted) :: r in rows && route.Has(r)
  {
    var kindRows := Filter(route.Has, rows);
    FilterMembers(route.Has, rows);
    FilterMembers(Routed, kindRows);
  }

  /** Every selected row reads like an identifier that some row has. */
  lemma SelectedAreNamed(rows: seq<Row>, preferRouted: bool)
    ensures forall r | r in Selected(rows, preferRouted) :: r in rows && Str(r.validatorId) in ValidatorIds(rows)
  {
    hide SelectedFor, SortedSet;
    var ids := ValidatorIds(rows);
    StringsTotal();
    SortedSetSorts(CompareStrings, ids);
    SelectedForFrom(rows, SortedSet(CompareStrings, ids), preferRouted);
  }

  lemma {:induction false} AllRouted(rows: seq<Row>, ids: seq<string>)
    requires forall id | id in ids :: HasRoute(rows, Route(id, SERVICE)) && HasRoute(rows, Route(id, JOB))
    ensures MissingPairs(rows, ids) == []
  {
    hide HasRoute;
    if ids != [] {
      assert ids == ids[..|ids| - 1] + [ids[|ids| - 1]];
      AllRouted(rows, ids[..|ids| - 1]);
    }
  }

  lemma {:induction false} ExpectedIdsFrom(validators: seq<Validator>, backend: string)
    ensures forall id | id in ExpectedIds(validators, backend) ::
              exists v :: v in validators && v.backend == backend && v.validatorId == Some(id)
  {
    if validators != [] {
      ExpectedIdsFrom(validators[..|validators| - 1], backend);
      assert validators == validators[..|validators| - 1] + [validators[|validators| - 1]];
    }
  }

  // ---- the sample: an inventory, a record, a database ------------------------

  const KEY := Release("b", "1.0.0")
  const INTENT := BackendIntent("b", "b", "1.0.0", "b")

  function ZeroDigits(n: nat): (s: string)
    ensures |s| == n && forall i | 0 <= i < n :: s[i] == '0'
  {
    if n == 0 then "" else ZeroDigits(n - 1) + "0"
  }

  const SHA := ZeroDigits(64)
  const DIGEST := "sha256:" + ZeroDigits(64)

  /** A well-formed record of release 1.0.0 of backend b. */
  function SampleRecord(): RetainedRecord {
    RetainedRecord(RELEASE_RECORD_FIELDS, RECORD_SCHEMA_VERSION, "b", "1.0.0", "b-v1.0.0", ZeroDigits(40),
                   "r/b", DIGEST, "1.0.0", "s", "s", SHA)
  }

  /** A ready, verified, unrouted row, accepted or not. */
  function SampleRow(id: Option<string>, kind: string, accepted: Option<string>): Row {
    Row("b", "1.0.0", id, kind, "INACTIVE", Some("d"), Some("t"), accepted, None, Some("READY"), Some(false),
        Some(true), 0, 0, Some(SHA), Some(DIGEST), Some("n"), None, None, None)
  }

  /** An accepted pair of Validator a, and a pair without identifier or acceptance. */
  function SampleRows(): seq<Row> {
    [SampleRow(Some("a"), SERVICE, Some("t")), SampleRow(Some("a"), JOB, Some("t")),
     SampleRow(None, SERVICE, None), SampleRow(None, JOB, None)]
  }

  const NAMED_NONE := Validator("b", Some("None"))

  function SampleDatabase(): Database {
    Database(STATE_SCHEMA_VERSION, SampleRows(), [NAMED_NONE, Validator("b", Some("a"))], [])
  }

  function SampleInventory(): Inventory {
    Inventory(Some(["n"]), Some([DIGEST]), [SampleRecord()])
  }

  // ---- the record is retained --------------------------------------------------

  lemma SampleVersionParses()
    ensures SemVers.Parse("1.0.0").Some?
  {
    hide SemVers.Parse, SemVers.Core;
    ShortCore(1, 0, 0);
    PlainCore(1, 0, 0);
    assert SemVers.Core(1, 0, 0) == "1.0.0";
  }

  lemma SampleRecordIsValid()
    ensures ValidRecord(SampleRecord(), INTENT)
  {
    hide SemVers.Parse, Strings.LastSegment, ZeroDigits;
    SampleVersionParses();
    var image := "r/b";
    assert image == "r" + ['/'] + "b";
    Strings.PartitionUnique("r", '/', "b");
    Strings.PartitionUnique("b", '/', "");
    LastOfTwo(image);
    assert image[|image| - |"/b"|..] == "/b" && "/" + "b" == "/b";
    assert EndsWith(image, "/b");
    assert "b" + "-v" + "1.0.0" == "b-v1.0.0";
    assert "s"[0] == 's' && !Strings.Whitespace('s' as int);
    SampleDigests();
  }

  lemma LastOfTwo(image: string)
    requires Strings.Partition(image, '/') == Strings.Cut("r", true, "b")
    requires Strings.Partition("b", '/') == Strings.Cut("b", false, "")
    ensures Strings.LastSegment(image, '/') == "b"
  {
    hide Strings.Partition;
    assert Strings.Split("b", '/') == ["b"];
    assert Strings.Split(image, '/') == ["r"] + ["b"];
  }

  lemma SampleDigests()
    ensures Hex(SHA) && |SHA| == 64 && ImageDigest(DIGEST) && Hex(ZeroDigits(40)) && |ZeroDigits(40)| == 40
  {
    hide ZeroDigits;
    assert DIGEST[..7] == "sha256:" && DIGEST[7..] == ZeroDigits(64);
  }

  lemma SampleIndex()
    ensures IndexRecords([INTENT], [SampleRecord()]) == Ok(map[KEY := SampleRecord()])
  {
    hide ValidRecord, SemVers.Parse, ZeroDigits;
    SampleVersionParses();
    SampleRecordIsValid();
    var intents, record := [INTENT], SampleRecord();
    assert IntentFor(intents, "b") == Some(INTENT);
    assert RecordError(intents, record) == None;
    assert [record][..0] == [] && Key(record) == KEY;
  }

  // ---- the release looks healthy --------------------------------------------------

  /** Every selected sample row is one of the accepted ones. */
  lemma SampleSelection(rows: seq<Row>)
    requires forall r :: r in rows <==> r in SampleRows()
    ensures var pairs := Selected(rows, true);
            Every(Accepted, pairs) && Every(IsReady, pairs) && Every(IsUnblocked, pairs) && Every(IsVerified, pairs)
  {
    hide Selected, ValidatorIds, ZeroDigits;
    var good := SampleRow(Some("a"), SERVICE, Some("t"));
    assert good in SampleRows();
    SelectedCovers(rows, good, true);
    SelectedAreNamed(rows, true);
    ValidatorIdsMembers(rows);
    var pairs := Selected(rows, true);
    forall r | r in pairs
      ensures Accepted(r) && IsReady(r) && IsUnblocked(r) && IsVerified(r)
    {
      assert r in SampleRows();
      assert Str(r.validatorId) == "a";
    }
  }

  lemma SampleRoutes(rows: seq<Row>, id: string)
    requires forall r :: r in rows <==> r in SampleRows()
    requires id == "a" || id == "None"
    ensures HasRoute(rows, Route(id, SERVICE)) && HasRoute(rows, Route(id, JOB))
  {
    hide ZeroDigits;
    var all := SampleRows();
    assert all[0] in rows && all[1] in rows && all[2] in rows && all[3] in rows;
    if id == "a" {
      assert Route(id, SERVICE).Has(all[0]) && Route(id, JOB).Has(all[1]);
    } else {
      assert Route(id, SERVICE).Has(all[2]) && Route(id, JOB).Has(all[3]);
    }
  }

  lemma SampleFacts(rows: seq<Row>)
    requires forall r :: r in rows <==> r in SampleRows()
    ensures RecordDigests(rows) == {SHA} && ImageDigests(rows) == {DIGEST}
    ensures forall r | r in rows :: ResourceSeen(r, ["n"])
  {
    hide ZeroDigits;
    assert SampleRows()[0] in rows;
    assert Truthy(Some(SHA)) && Truthy(Some(DIGEST));
  }

  lemma SampleMissing(rows: seq<Row>, ids: seq<string>)
    requires forall r :: r in rows <==> r in SampleRows()
    requires forall id | id in ids :: id == "a" || id == "None"
    ensures MissingPairs(rows, SortedSet(CompareStrings, ids)) == []
  {
    hide MissingPairs, SortedSet, HasRoute, SampleRows;
    StringsTotal();
    SortedSetSorts(CompareStrings, ids);
    forall id | id in SortedSet(CompareStrings, ids)
      ensures HasRoute(rows, Route(id, SERVICE)) && HasRoute(rows, Route(id, JOB))
    {
      SampleRoutes(rows, id);
    }
    AllRouted(rows, SortedSet(CompareStrings, ids));
  }

  lemma SampleFiltered() returns (rows: seq<Row>)
    ensures rows == Filter(KEY.Has, SampleRows())
    ensures forall r :: r in rows <==> r in SampleRows()
    ensures forall r :: r in Filter(Unretired, rows) <==> r in SampleRows()
  {
    hide Filter, ZeroDigits;
    rows := Filter(KEY.Has, SampleRows());
    FilterMembers(KEY.Has, SampleRows());
    FilterMembers(Unretired, rows);
  }

  lemma SampleIsHealthy()
    ensures HealthFailures(ReleaseHealth(SampleDatabase(), SampleInventory(), map[KEY := SampleRecord()], KEY)) == []
  {
    hide Selected, MissingPairs, SortedSet, ExpectedIds, Filter, ResourceSeen, RecordDigests, ImageDigests;
    hide SampleRows, Every, UnroutedCandidate, ZeroDigits;
    var rows := SampleFiltered();
    SampleSelection(Filter(Unretired, rows));
    SampleFacts(rows);
    ExpectedIdsFrom(SampleDatabase().validators, "b");
    SampleMissing(Filter(Unretired, rows), ExpectedIds(SampleDatabase().validators, "b"));
    assert SHA != "" && DIGEST != "";
  }

  // ---- the status and the gate ---------------------------------------------------

  lemma SampleBackendRows()
    ensures var rows := Filter(Backend("b").Has, SampleRows());
            && (forall r :: r in rows <==> r in SampleRows())
            && ActiveRelease(rows) == Ok(None) && "1.0.0" in Versions(rows)
  {
    hide Filter, Versions, ActiveRelease, ZeroDigits, Routed;
    SampleIsUnrouted();
    var rows := Filter(Backend("b").Has, SampleRows());
    FilterMembers(Backend("b").Has, SampleRows());
    ActiveReleaseMeans(rows);
    VersionsMembers(rows);
    assert SampleRows()[0] in rows && SampleRows()[0].version == "1.0.0";
  }

  lemma SampleIsUnrouted()
    ensures forall r | r in SampleRows() :: !Routed(r)
  {
    hide ZeroDigits;
  }

  lemma SampleStatus() returns (row: BackendStatus)
    ensures StatusOf(INTENT, SampleDatabase(), SampleInventory(), map[KEY := SampleRecord()]) == Ok(row)
    ensures row.backend == "b" && row.fileVersion == "1.0.0" && "1.0.0" in row.health
    ensures row.health["1.0.0"] == ReleaseHealth(SampleDatabase(), SampleInventory(), map[KEY := SampleRecord()], KEY)
  {
    hide Filter, ReleaseHealth, SemVers.Parse, SampleRows, ActiveRelease, Versions, ZeroDigits;
    SampleVersionParses();
    SampleBackendRows();
    row := StatusOf(INTENT, SampleDatabase(), SampleInventory(), map[KEY := SampleRecord()]).value;
  }

  /** Rows without an identifier stand in for the Validator named "None": on the
      status computed from a well-formed record the gate passes the release,
      and no row of that Validator is accepted. */
  lemma NoneIdentifierPassesTheGate() returns (status: Status)
    ensures StatusView([INTENT], SampleDatabase(), SampleInventory()) == Ok(status)
    ensures Acceptable(status, "b", "1.0.0")
    ensures NAMED_NONE in SampleDatabase().validators
    ensures forall r, kind | r in SampleDatabase().rows && Route("None", kind).Has(r) :: !Accepted(r)
  {
    hide IndexRecords, StatusOf, HealthFailures, ReleaseHealth, SampleRows, SampleRecord, ZeroDigits;
    SampleIndex();
    var row := SampleStatus();
    SampleIsHealthy();
    assert [INTENT][..0] == [];
    assert Statuses([INTENT], SampleDatabase(), SampleInventory(), map[KEY := SampleRecord()]) == Ok([] + [row]);
    status := Status(STATUS_SCHEMA_VERSION, [row]);
    assert [] + [row] == [row] && SampleInventory().records == [SampleRecord()];
    assert RowFor(status.backends, "b") == Some(row);
    SampleIsUnproven();
  }

  lemma SampleIsUnproven()
    ensures forall r, kind | r in SampleRows() && Route("None", kind).Has(r) :: !Accepted(r)
  {
    hide ZeroDigits;
  }
}
