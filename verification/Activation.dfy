/** The activation gate over a computed status, and its soundness against the
    database the status was computed from. */
module Activation {
  import opened Wrappers
  import opened Orders
  import opened ProviderNames
  import opened Releases
  import opened ReleaseStatus

  datatype Failure =
    | NotOffered | NoRows | ResourcesAbsent | ImageAbsent | RecordNotRetained | RecordDisagrees | ImageDisagrees
    | NotAccepted | NotReady | IsBlocked | NotVerified | PairsMissing(ids: seq<string>)

  datatype ActivationError =
    | UnknownStatusSchema | NothingRequested
    | NoStatusRow(backend: string) | Refused(backend: string, failures: seq<Failure>)

  /** The last status row of a backend, as a dict keyed by backend keeps. */
  function RowFor(rows: seq<BackendStatus>, backend: string): Option<BackendStatus> {
    if rows == [] then None
    else
      var last := rows[|rows| - 1];
      if last.backend == backend then Some(last) else RowFor(rows[..|rows| - 1], backend)
  }

  function When(failed: bool, f: Failure): seq<Failure> {
    if failed then [f] else []
  }

  function HealthFailures(h: Health): seq<Failure> {
    When(h.resourcesPresent != Some(true), ResourcesAbsent) + When(h.imagePresent != Some(true), ImageAbsent)
    + When(!h.recordRetained, RecordNotRetained) + When(!h.recordMatches, RecordDisagrees)
    + When(!h.recordImageMatches, ImageDisagrees)
    + When(!h.allAccepted, NotAccepted) + When(!h.allReady, NotReady)
    + When(!h.allUnblocked, IsBlocked) + When(!h.allVerified, NotVerified)
    + When(h.missingPairs != [], PairsMissing(h.missingPairs))
  }

  function Failures(row: BackendStatus, version: string): seq<Failure> {
    When(row.fileVersion != version, NotOffered)
    + if version in row.health then HealthFailures(row.health[version]) else [NoRows]
  }

  predicate Acceptable(status: Status, backend: string, version: string) {
    var row := RowFor(status.backends, backend);
    row.Some? && Failures(row.value, version) == []
  }

  /** validate_activation_status passes exactly when every requested release is
      acceptable, and lists the requests in order. */
  method ValidateActivation(status: Status, requested: seq<Release>) returns (r: Result<seq<Release>, ActivationError>)
    ensures r.Ok? <==> status.schemaVersion == STATUS_SCHEMA_VERSION && requested != []
                       && forall q | q in requested :: Acceptable(status, q.backend, q.version)
    ensures r.Ok? ==> r.value == SortedSet(CompareReleases, requested)
  {
    hide RowFor, Failures, CompareReleases, SortedSet;
    if status.schemaVersion != STATUS_SCHEMA_VERSION {
      return Err(UnknownStatusSchema);
    }
    if requested == [] {
      return Err(NothingRequested);
    }
    var releases := SortedSet(CompareReleases, requested);
    ReleasesTotal();
    SortedSetSorts(CompareReleases, requested);
    var verified: seq<Release> := [];
    for i := 0 to |releases|
      invariant verified == releases[..i]
      invariant forall k | 0 <= k < i :: Acceptable(status, releases[k].backend, releases[k].version)
    {
      var q := releases[i];
      assert q in releases;
      var row := RowFor(status.backends, q.backend);
      if row.None? {
        return Err(NoStatusRow(q.backend));
      }
      var failures := Failures(row.value, q.version);
      if failures != [] {
        return Err(Refused(q.backend, failures));
      }
      verified := verified + [q];
    }
    forall q | q in requested ensures Acceptable(status, q.backend, q.version) {
      assert q in releases;
    }
    return Ok(verified);
  }

  // ---- soundness ---------------------------------------------------------

  /** An unretired, accepted, ready, unblocked and verified deployment row. */
  predicate Proven(r: Row) {
    Unretired(r) && Accepted(r) && IsReady(r) && IsUnblocked(r) && IsVerified(r)
  }

  /** An unretired row of one release, Validator and kind; where one of these is
      routed, a routed one. */
  ghost predicate Rival(db: Database, key: Release, route: Route, q: Row) {
    && q in db.rows && key.Has(q) && Unretired(q) && route.Has(q)
    && ((exists p :: p in db.rows && key.Has(p) && Unretired(p) && route.Has(p) && Routed(p)) ==> Routed(q))
  }

  /** The row that the release runs on, verified no earlier than any rival, is proven. */
  ghost predicate HasProvenRow(db: Database, key: Release, id: string, kind: string) {
    exists r :: Rival(db, key, Route(id, kind), r) && Proven(r)
                && forall q | Rival(db, key, Route(id, kind), q) :: !Later(q, r)
  }

  ghost predicate UniqueRecord(records: seq<RetainedRecord>, key: Release, i: int) {
    0 <= i < |records| && Key(records[i]) == key && forall j | 0 <= j < |records| && Key(records[j]) == key :: j == i
  }

  ghost predicate RowsCarry(db: Database, key: Release, record: RetainedRecord) {
    && (exists r :: r in db.rows && key.Has(r) && r.recordDigest == Some(record.retainedSha256))
    && (exists r :: r in db.rows && key.Has(r) && r.imageDigest == Some(record.imageDigest))
    && forall r | r in db.rows && key.Has(r) ::
         && (Truthy(r.recordDigest) ==> r.recordDigest.value == record.retainedSha256)
         && (Truthy(r.imageDigest) ==> r.imageDigest.value == record.imageDigest)
  }

  /** A Validator the gate covers: a row without an identifier is compared as
      the text "None", so that one identifier counts only when some unretired
      row of the release really carries it. */
  predicate Covered(db: Database, key: Release, v: Validator) {
    && v.backend == key.backend && Truthy(v.validatorId)
    && (v.validatorId.value == "None" ==>
          exists r | r in db.rows :: key.Has(r) && Unretired(r) && r.validatorId == Some("None"))
  }

  /** What an accepted activation of one release may rely on. */
  ghost predicate Supported(db: Database, records: seq<RetainedRecord>, key: Release) {
    && (forall v | v in db.validators && Covered(db, key, v) ::
          HasProvenRow(db, key, v.validatorId.value, SERVICE) && HasProvenRow(db, key, v.validatorId.value, JOB))
    && exists i :: UniqueRecord(records, key, i) && RowsCarry(db, key, records[i])
  }

  lemma {:induction false} ExpectedIdsMembers(validators: seq<Validator>, backend: string)
    ensures forall v | v in validators && v.backend == backend && Truthy(v.validatorId) ::
              v.validatorId.value in ExpectedIds(validators, backend)
  {
    if validators != [] {
      ExpectedIdsMembers(validators[..|validators| - 1], backend);
      assert validators == validators[..|validators| - 1] + [validators[|validators| - 1]];
    }
  }

  lemma {:induction false} NoneMissing(rows: seq<Row>, ids: seq<string>)
    requires MissingPairs(rows, ids) == []
    ensures forall id | id in ids :: HasRoute(rows, Route(id, SERVICE)) && HasRoute(rows, Route(id, JOB))
  {
    if ids != [] {
      NoneMissing(rows, ids[..|ids| - 1]);
      assert ids == ids[..|ids| - 1] + [ids[|ids| - 1]];
    }
  }

  /** A healthy release has a proven row for each route that is not missing. */
  lemma RouteIsProven(db: Database, key: Release, rows: seq<Row>, route: Route)
    requires forall r :: r in rows <==> r in db.rows && key.Has(r)
    requires HasRoute(Filter(Unretired, rows), route)
    requires route.kind == SERVICE || route.kind == JOB
    requires route.validatorId != ""
    requires route.validatorId != "None" || exists r | r in rows :: Unretired(r) && r.validatorId == Some("None")
    requires var pairs := Selected(Filter(Unretired, rows), true);
             Every(Accepted, pairs) && Every(IsReady, pairs) && Every(IsUnblocked, pairs) && Every(IsVerified, pairs)
    ensures HasProvenRow(db, key, route.validatorId, route.kind)
  {
    hide Selected, Filter, ValidatorIds, Later, Rival;
    var unretired := Filter(Unretired, rows);
    FilterMembers(Unretired, rows);
    ValidatorIdsMembers(unretired);
    var row :| row in unretired && route.Has(row);
    if route.validatorId == "None" {
      var named :| named in rows && Unretired(named) && named.validatorId == Some("None");
      assert named in unretired && Truthy(named.validatorId);
    } else {
      assert Truthy(row.validatorId);
    }
    SelectedCoversRoute(unretired, row, true);
    var r :| r in Selected(unretired, true) && r in unretired && Str(r.validatorId) == Str(row.validatorId)
        && r.kind == row.kind;
    assert r in rows && route.Has(r) && Proven(r);
    SelectedAreLatest(unretired, true);
    forall q
      ensures Competes(unretired, route, true, q) <==> Rival(db, key, route, q)
    {
      CompetitorIsRival(db, key, unretired, route, q);
    }
  }

  lemma CompetitorIsRival(db: Database, key: Release, unretired: seq<Row>, route: Route, q: Row)
    requires forall r :: r in unretired <==> r in db.rows && key.Has(r) && Unretired(r)
    ensures Competes(unretired, route, true, q) <==> Rival(db, key, route, q)
  {
  }

  lemma HealthySupports(db: Database, inventory: Inventory, index: RecordIndex, key: Release)
    requires HealthFailures(ReleaseHealth(db, inventory, index, key)) == []
    ensures forall v | v in db.validators && Covered(db, key, v) ::
              HasProvenRow(db, key, v.validatorId.value, SERVICE) && HasProvenRow(db, key, v.validatorId.value, JOB)
    ensures key in index && RowsCarry(db, key, index[key])
  {
    hide Selected, Filter, MissingPairs, SortedSet, ExpectedIds, HasRoute, HasProvenRow;
    var rows := Filter(key.Has, db.rows);
    FilterMembers(key.Has, db.rows);
    var ids := ExpectedIds(db.validators, key.backend);
    var h := HealthOf(rows, ids, inventory, Lookup(index, key));
    NoFailures(h);
    ExpectedIdsMembers(db.validators, key.backend);
    StringsTotal();
    SortedSetSorts(CompareStrings, ids);
    NoneMissing(Filter(Unretired, rows), SortedSet(CompareStrings, ids));
    forall v | v in db.validators && Covered(db, key, v)
      ensures HasProvenRow(db, key, v.validatorId.value, SERVICE) && HasProvenRow(db, key, v.validatorId.value, JOB)
    {
      RouteIsProven(db, key, rows, Route(v.validatorId.value, SERVICE));
      RouteIsProven(db, key, rows, Route(v.validatorId.value, JOB));
    }
    DigestsAgree(db, key, rows, index[key]);
  }

  lemma NoFailures(h: Health)
    requires HealthFailures(h) == []
    ensures h.recordRetained && h.recordMatches && h.recordImageMatches && h.missingPairs == []
    ensures h.allAccepted && h.allReady && h.allUnblocked && h.allVerified
    ensures h.resourcesPresent == Some(true) && h.imagePresent == Some(true)
  {
  }

  lemma DigestsAgree(db: Database, key: Release, rows: seq<Row>, record: RetainedRecord)
    requires forall r :: r in rows <==> r in db.rows && key.Has(r)
    requires RecordDigests(rows) == {record.retainedSha256}
    requires ImageDigests(rows) == {record.imageDigest}
    ensures RowsCarry(db, key, record)
  {
    assert record.retainedSha256 in RecordDigests(rows);
    assert record.imageDigest in ImageDigests(rows);
    forall r | r in db.rows && key.Has(r)
      ensures Truthy(r.recordDigest) ==> r.recordDigest.value == record.retainedSha256
      ensures Truthy(r.imageDigest) ==> r.imageDigest.value == record.imageDigest
    {
      assert r in rows;
      assert Truthy(r.recordDigest) ==> r.recordDigest.value in RecordDigests(rows);
      assert Truthy(r.imageDigest) ==> r.imageDigest.value in ImageDigests(rows);
    }
  }

  lemma {:induction false} RowForMember(rows: seq<BackendStatus>, backend: string)
    requires RowFor(rows, backend).Some?
    ensures exists i :: 0 <= i < |rows| && rows[i] == RowFor(rows, backend).value && rows[i].backend == backend
  {
    var last := rows[|rows| - 1];
    if last.backend != backend {
      RowForMember(rows[..|rows| - 1], backend);
    }
  }

  /** The status row the gate looks at is the view of one inventory entry. */
  lemma JudgedRow(intents: seq<BackendIntent>, db: Database, inventory: Inventory, status: Status, backend: string)
    returns (i: nat, index: RecordIndex)
    requires StatusView(intents, db, inventory) == Ok(status) && RowFor(status.backends, backend).Some?
    ensures i < |intents| && IndexRecords(intents, inventory.records) == Ok(index)
    ensures StatusOf(intents[i], db, inventory, index) == Ok(RowFor(status.backends, backend).value)
    ensures RowFor(status.backends, backend).value.backend == backend
  {
    hide StatusOf, IndexRecords, Statuses, RowFor;
    index := IndexRecords(intents, inventory.records).value;
    RowForMember(status.backends, backend);
    StatusRowsAreViews(intents, db, inventory, index);
    i :| 0 <= i < |status.backends| && status.backends[i] == RowFor(status.backends, backend).value
         && status.backends[i].backend == backend;
  }

  /** What a row shows of a version is the health of that release. */
  lemma RowShowsHealth(intent: BackendIntent, db: Database, inventory: Inventory, index: RecordIndex,
      row: BackendStatus, version: string)
    requires StatusOf(intent, db, inventory, index) == Ok(row) && Failures(row, version) == []
    ensures row.backend == intent.slug && row.fileVersion == intent.version == version
    ensures HealthFailures(ReleaseHealth(db, inventory, index, Release(intent.slug, version))) == []
  {
    hide ReleaseHealth, ActiveRelease, RollbackRelease, Versions, Filter, HealthFailures;
    hide Releases.RolledBackVersions, SemVers.Parse;
    assert version in row.health;
  }

  /** Activation soundness: an accepted request, judged on the status computed
      from a database, is supported by that database and its records. */
  lemma ActivationIsSound(intents: seq<BackendIntent>, db: Database, inventory: Inventory, status: Status,
      backend: string, version: string)
    requires StatusView(intents, db, inventory) == Ok(status)
    requires Acceptable(status, backend, version)
    ensures Supported(db, inventory.records, Release(backend, version))
    ensures exists i :: 0 <= i < |intents| && intents[i].slug == backend && intents[i].version == version
  {
    hide StatusView, StatusOf, ReleaseHealth, Failures, HealthFailures, IndexRecords, RowFor, Covered;
    hide HasProvenRow, UniqueRecord, RowsCarry;
    var i, index := JudgedRow(intents, db, inventory, status, backend);
    RowShowsHealth(intents[i], db, inventory, index, RowFor(status.backends, backend).value, version);
    var key := Release(backend, version);
    HealthySupports(db, inventory, index, key);
    var k := RecordOfKey(intents, inventory.records, index, key);
  }

  /** When every unretired row of the release has an identifier the gate covers
      each identified Validator, the one named "None" included. */
  lemma IdentifiedReleaseIsSound(intents: seq<BackendIntent>, db: Database, inventory: Inventory, status: Status,
      backend: string, version: string)
    requires StatusView(intents, db, inventory) == Ok(status)
    requires Acceptable(status, backend, version)
    requires forall r | r in db.rows && Release(backend, version).Has(r) && Unretired(r) :: Truthy(r.validatorId)
    ensures forall v | v in db.validators && v.backend == backend && Truthy(v.validatorId) ::
              && HasProvenRow(db, Release(backend, version), v.validatorId.value, SERVICE)
              && HasProvenRow(db, Release(backend, version), v.validatorId.value, JOB)
  {
    hide StatusView, StatusOf, ReleaseHealth, Failures, HealthFailures, IndexRecords, RowFor, Covered;
    hide HasProvenRow, UniqueRecord, RowsCarry;
    ActivationIsSound(intents, db, inventory, status, backend, version);
    var i, index := JudgedRow(intents, db, inventory, status, backend);
    RowShowsHealth(intents[i], db, inventory, index, RowFor(status.backends, backend).value, version);
    IdentifiedAreCovered(db, inventory, index, Release(backend, version));
  }

  lemma IdentifiedAreCovered(db: Database, inventory: Inventory, index: RecordIndex, key: Release)
    requires HealthFailures(ReleaseHealth(db, inventory, index, key)) == []
    requires forall r | r in db.rows && key.Has(r) && Unretired(r) :: Truthy(r.validatorId)
    ensures forall v | v in db.validators && v.backend == key.backend && Truthy(v.validatorId) :: Covered(db, key, v)
  {
    hide Selected, Filter, MissingPairs, SortedSet, ExpectedIds;
    var rows := Filter(key.Has, db.rows);
    var unretired := Filter(Unretired, rows);
    FilterMembers(key.Has, db.rows);
    FilterMembers(Unretired, rows);
    var ids := ExpectedIds(db.validators, key.backend);
    NoFailures(HealthOf(rows, ids, inventory, Lookup(index, key)));
    ExpectedIdsMembers(db.validators, key.backend);
    StringsTotal();
    SortedSetSorts(CompareStrings, ids);
    NoneMissing(unretired, SortedSet(CompareStrings, ids));
    forall v | v in db.validators && v.backend == key.backend && Truthy(v.validatorId)
      ensures Covered(db, key, v)
    {
      var id := v.validatorId.value;
      var r :| r in unretired && Route(id, SERVICE).Has(r);
      assert r in db.rows && key.Has(r) && Unretired(r) && r.validatorId == Some(id);
    }
  }

  lemma RecordOfKey(intents: seq<BackendIntent>, records: seq<RetainedRecord>, index: RecordIndex, key: Release)
    returns (k: nat)
    requires IndexRecords(intents, records) == Ok(index) && key in index
    ensures k < |records| && records[k] == index[key] && UniqueRecord(records, key, k)
  {
    hide IndexRecords;
    IndexIsUnambiguous(intents, records, key);
    k :| 0 <= k < |records| && records[k] == index[key] && Key(records[k]) == key
         && forall j | 0 <= j < |records| && Key(records[j]) == key :: j == k;
  }
}
