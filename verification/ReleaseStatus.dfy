/** Retained release records, the per-release health that calculate_status
    derives, and the gate that decides an activation from it. */
module ReleaseStatus {
  import opened Wrappers
  import opened Strings
  import opened Orders
  import opened SemVers
  import opened ProviderNames
  import opened Releases

  const STATE_SCHEMA_VERSION := "validibot.validator-release-state.v1"
  const STATUS_SCHEMA_VERSION := "validibot.validator-release-status.v1"
  const RECORD_SCHEMA_VERSION := "validibot.backend-release.v1"

  const RELEASE_RECORD_FIELDS := {
    "schema_version", "backend", "version", "source_tag", "source_commit",
    "image", "image_digest", "shared_contract", "sbom", "build_verification"
  }

  /** fields are the names the record holds besides its retained digest. */
  datatype RetainedRecord = RetainedRecord(
    fields: set<string>,
    schemaVersion: string, backend: string, version: string, sourceTag: string, sourceCommit: string,
    image: string, imageDigest: string, sharedContract: string, sbom: string, buildVerification: string,
    retainedSha256: string)

  /** The read-only inputs besides the database; None is an input not given. */
  datatype Inventory = Inventory(cloud: Option<seq<string>>, images: Option<seq<string>>, records: seq<RetainedRecord>)

  // ---- retained records --------------------------------------------------

  predicate Hex(s: string) {
    forall i | 0 <= i < |s| :: IsDigit(s[i]) || 'a' <= s[i] <= 'f'
  }

  predicate ImageDigest(s: string) {
    |s| == 71 && s[..7] == "sha256:" && Hex(s[7..])
  }

  predicate ValidRecord(r: RetainedRecord, intent: BackendIntent) {
    && r.fields == RELEASE_RECORD_FIELDS
    && r.schemaVersion == RECORD_SCHEMA_VERSION
    && r.sourceTag == intent.slug + "-v" + r.version
    && ImageDigest(r.imageDigest)
    && Hex(r.sourceCommit) && (|r.sourceCommit| == 40 || |r.sourceCommit| == 64)
    && Parse(r.sharedContract).Some?
    && EndsWith(r.image, "/" + intent.imageName)
    && '@' !in r.image && ':' !in LastSegment(r.image, '/')
    && !Blank(r.sbom) && !Blank(r.buildVerification)
    && Hex(r.retainedSha256) && |r.retainedSha256| == 64
  }

  /** The last inventory entry with that slug, as a dict keyed by slug keeps. */
  function IntentFor(intents: seq<BackendIntent>, slug: string): Option<BackendIntent> {
    if intents == [] then None
    else
      var last := intents[|intents| - 1];
      if last.slug == slug then Some(last) else IntentFor(intents[..|intents| - 1], slug)
  }

  function RecordError(intents: seq<BackendIntent>, r: RetainedRecord): Option<ReleaseError> {
    var intent := IntentFor(intents, r.backend);
    if intent.None? then Some(UnknownBackend(r.backend))
    else if Parse(r.version).None? then Some(InvalidVersion(r.version))
    else if !ValidRecord(r, intent.value) then Some(InvalidRecord(r.backend, r.version))
    else None
  }

  function Key(r: RetainedRecord): Release {
    Release(r.backend, r.version)
  }

  type RecordIndex = map<Release, RetainedRecord>

  function IndexRecords(intents: seq<BackendIntent>, records: seq<RetainedRecord>): Result<RecordIndex, ReleaseError> {
    if records == [] then Ok(map[])
    else
      var front, last := IndexRecords(intents, records[..|records| - 1]), records[|records| - 1];
      if front.Err? then front
      else if RecordError(intents, last).Some? then Err(RecordError(intents, last).value)
      else if Key(last) in front.value then Err(DuplicateRecord(last.backend, last.version))
      else Ok(front.value[Key(last) := last])
  }

  method CollectRecords(intents: seq<BackendIntent>, records: seq<RetainedRecord>)
    returns (r: Result<RecordIndex, ReleaseError>)
    ensures r == IndexRecords(intents, records)
  {
    var indexed: RecordIndex := map[];
    for i := 0 to |records|
      invariant IndexRecords(intents, records[..i]) == Ok(indexed)
    {
      var record := records[i];
      assert records[..i + 1][..i] == records[..i];
      IndexErrorStays(intents, records, i + 1);
      var failure := RecordError(intents, record);
      if failure.Some? {
        return Err(failure.value);
      }
      if Key(record) in indexed {
        return Err(DuplicateRecord(record.backend, record.version));
      }
      indexed := indexed[Key(record) := record];
    }
    assert records[..|records|] == records;
    return Ok(indexed);
  }

  lemma {:induction false} IndexErrorStays(intents: seq<BackendIntent>, records: seq<RetainedRecord>, i: nat)
    requires i <= |records|
    ensures IndexRecords(intents, records[..i]).Err? ==>
              IndexRecords(intents, records) == IndexRecords(intents, records[..i])
  {
    if i == |records| {
      assert records[..i] == records;
    } else {
      IndexErrorStays(intents, records[..|records| - 1], i);
      assert records[..|records| - 1][..i] == records[..i];
    }
  }

  /** An index holds each record under its own key, and each key has one record. */
  lemma {:induction false} IndexIsUnambiguous(intents: seq<BackendIntent>, records: seq<RetainedRecord>, key: Release)
    requires IndexRecords(intents, records).Ok?
    requires key in IndexRecords(intents, records).value
    ensures exists i :: 0 <= i < |records|
                        && records[i] == IndexRecords(intents, records).value[key] && Key(records[i]) == key
                        && forall j | 0 <= j < |records| && Key(records[j]) == key :: j == i
  {
    hide RecordError;
    var n := |records| - 1;
    var front := records[..n];
    if Key(records[n]) == key {
      forall j | 0 <= j < n ensures Key(records[j]) != key {
        IndexCovers(intents, front);
        assert front[j] == records[j];
      }
    } else {
      IndexIsUnambiguous(intents, front, key);
      var i :| 0 <= i < n && front[i] == IndexRecords(intents, front).value[key] && Key(front[i]) == key
               && forall j | 0 <= j < n && Key(front[j]) == key :: j == i;
      assert records[i] == front[i];
      forall j | 0 <= j < |records| && Key(records[j]) == key ensures j == i {
        assert j < n && front[j] == records[j];
      }
    }
  }

  lemma {:induction false} IndexCovers(intents: seq<BackendIntent>, records: seq<RetainedRecord>)
    requires IndexRecords(intents, records).Ok?
    ensures forall j | 0 <= j < |records| :: Key(records[j]) in IndexRecords(intents, records).value
  {
    hide RecordError;
    if records != [] {
      var front := records[..|records| - 1];
      IndexCovers(intents, front);
      assert forall j | 0 <= j < |front| :: records[j] == front[j];
    }
  }

  // ---- release health ----------------------------------------------------

  datatype Health = Health(
    recordRetained: bool, recordMatches: bool, recordImageMatches: bool,
    imagePresent: Option<bool>, resourcesPresent: Option<bool>, missingPairs: seq<string>,
    unroutedCandidate: bool, allAccepted: bool, allReady: bool, allUnblocked: bool, allVerified: bool)

  predicate ResourceSeen(r: Row, names: seq<string>) {
    r.providerDeletedAt.Some? || LastSegment(Str(r.resource), '/') in names || Str(r.resource) in names
  }

  function ExpectedIds(validators: seq<Validator>, backend: string): seq<string> {
    if validators == [] then []
    else
      var front, v := ExpectedIds(validators[..|validators| - 1], backend), validators[|validators| - 1];
      if v.backend == backend && Truthy(v.validatorId) then front + [v.validatorId.value] else front
  }

  predicate PairMissing(rows: seq<Row>, id: string) {
    !HasRoute(rows, Route(id, SERVICE)) || !HasRoute(rows, Route(id, JOB))
  }

  function MissingPairs(rows: seq<Row>, ids: seq<string>): seq<string> {
    if ids == [] then []
    else
      var front, id := MissingPairs(rows, ids[..|ids| - 1]), ids[|ids| - 1];
      if PairMissing(rows, id) then front + [id] else front
  }

  function RecordDigests(rows: seq<Row>): set<string> {
    set r | r in rows && Truthy(r.recordDigest) :: r.recordDigest.value
  }

  function ImageDigests(rows: seq<Row>): set<string> {
    set r | r in rows && Truthy(r.imageDigest) :: r.imageDigest.value
  }

  predicate IsReady(r: Row) { r.readiness == Some("READY") }
  predicate IsUnblocked(r: Row) { r.blocked != Some(true) }
  predicate IsVerified(r: Row) { r.lastVerificationSucceeded == Some(true) }

  predicate Every(p: Row -> bool, rows: seq<Row>) {
    rows != [] && forall r | r in rows :: p(r)
  }

  /** The latest row of a route names a deployment other than the routed one. */
  predicate UnroutedCandidate(r: Row, routed: seq<Row>) {
    Truthy(r.deploymentId)
    && !exists q | q in routed ::
         Str(q.validatorId) == Str(r.validatorId) && q.kind == r.kind && OrEmpty(q.deploymentId) == r.deploymentId.value
  }

  /** The health block of one release, from all rows of that release. */
  function HealthOf(rows: seq<Row>, expected: seq<string>, inventory: Inventory,
      record: Option<RetainedRecord>): Health {
    var unretired := Filter(Unretired, rows);
    var pairs := Selected(unretired, true);
    Health(
      record.Some?,
      record.Some? && record.value.retainedSha256 != "" && RecordDigests(rows) == {record.value.retainedSha256},
      record.Some? && record.value.imageDigest != "" && ImageDigests(rows) == {record.value.imageDigest},
      if inventory.images.None? then None else Some(exists d | d in ImageDigests(rows) :: d in inventory.images.value),
      if inventory.cloud.None? then None else Some(forall r | r in rows :: ResourceSeen(r, inventory.cloud.value)),
      MissingPairs(unretired, SortedSet(CompareStrings, expected)),
      exists r | r in Selected(unretired, false) :: UnroutedCandidate(r, pairs),
      Every(Accepted, pairs), Every(IsReady, pairs), Every(IsUnblocked, pairs), Every(IsVerified, pairs))
  }

  // ---- the status view ---------------------------------------------------

  datatype BackendStatus = BackendStatus(
    backend: string, fileVersion: string, active: Option<string>, rollback: Option<string>, health: map<string, Health>)

  datatype Status = Status(schemaVersion: string, backends: seq<BackendStatus>)

  function Lookup(index: RecordIndex, key: Release): Option<RetainedRecord> {
    if key in index then Some(index[key]) else None
  }

  function ReleaseHealth(db: Database, inventory: Inventory, index: RecordIndex, key: Release): Health {
    HealthOf(Filter(key.Has, db.rows), ExpectedIds(db.validators, key.backend), inventory, Lookup(index, key))
  }

  function HealthTable(db: Database, inventory: Inventory, index: RecordIndex, backend: string): map<string, Health> {
    map v | v in Versions(Filter(Backend(backend).Has, db.rows)) ::
        ReleaseHealth(db, inventory, index, Release(backend, v))
  }

  function StatusOf(intent: BackendIntent, db: Database, inventory: Inventory,
      index: RecordIndex): Result<BackendStatus, ReleaseError> {
    var rows := Filter(Backend(intent.slug).Has, db.rows);
    var active := ActiveRelease(rows);
    if active.Err? then Err(active.error)
    else
      var rollback := RollbackRelease(rows, intent.slug, active.value, RolledBackVersions(db, intent.slug));
      if rollback.Err? then Err(rollback.error)
      else if Parse(intent.version).None? then Err(InvalidVersion(intent.version))
      else Ok(BackendStatus(intent.slug, intent.version, active.value, rollback.value,
          HealthTable(db, inventory, index, intent.slug)))
  }

  function Statuses(intents: seq<BackendIntent>, db: Database, inventory: Inventory,
      index: RecordIndex): Result<seq<BackendStatus>, ReleaseError> {
    if intents == [] then Ok([])
    else
      var front := Statuses(intents[..|intents| - 1], db, inventory, index);
      if front.Err? then front
      else
        var last := StatusOf(intents[|intents| - 1], db, inventory, index);
        if last.Err? then Err(last.error) else Ok(front.value + [last.value])
  }

  function StatusView(intents: seq<BackendIntent>, db: Database, inventory: Inventory): Result<Status, ReleaseError> {
    if db.schemaVersion != STATE_SCHEMA_VERSION then Err(UnknownStateSchema)
    else
      var index := IndexRecords(intents, inventory.records);
      if index.Err? then Err(index.error)
      else
        var rows := Statuses(intents, db, inventory, index.value);
        if rows.Err? then Err(rows.error) else Ok(Status(STATUS_SCHEMA_VERSION, rows.value))
  }

  method CollectHealth(db: Database, inventory: Inventory, index: RecordIndex, backend: string)
    returns (health: map<string, Health>)
    ensures health == HealthTable(db, inventory, index, backend)
  {
    hide ReleaseHealth, Filter, Versions;
    var versions := Versions(Filter(Backend(backend).Has, db.rows));
    health := map[];
    for i := 0 to |versions|
      invariant health == map v | v in versions[..i] :: ReleaseHealth(db, inventory, index, Release(backend, v))
    {
      assert versions[..i + 1] == versions[..i] + [versions[i]];
      health := health[versions[i] := ReleaseHealth(db, inventory, index, Release(backend, versions[i]))];
    }
    assert versions[..|versions|] == versions;
  }

  method CalculateStatus(intents: seq<BackendIntent>, db: Database, inventory: Inventory)
    returns (r: Result<Status, ReleaseError>)
    ensures r == StatusView(intents, db, inventory)
  {
    hide HealthTable, Filter, ActiveRelease, RollbackRelease, Parse, RolledBackVersions;
    if db.schemaVersion != STATE_SCHEMA_VERSION {
      return Err(UnknownStateSchema);
    }
    var index := CollectRecords(intents, inventory.records);
    if index.Err? {
      return Err(index.error);
    }
    var backends: seq<BackendStatus> := [];
    for i := 0 to |intents|
      invariant Statuses(intents[..i], db, inventory, index.value) == Ok(backends)
    {
      var intent := intents[i];
      assert intents[..i + 1][..i] == intents[..i];
      StatusErrorStays(intents, i + 1, db, inventory, index.value);
      var rows := Filter(Backend(intent.slug).Has, db.rows);
      var active := ActiveRelease(rows);
      if active.Err? {
        return Err(active.error);
      }
      var rolledBack := CollectRolledBack(db, intent.slug);
      var rollback := ChooseRollback(rows, intent.slug, active.value, rolledBack);
      if rollback.Err? {
        return Err(rollback.error);
      }
      if Parse(intent.version).None? {
        return Err(InvalidVersion(intent.version));
      }
      var health := CollectHealth(db, inventory, index.value, intent.slug);
      backends := backends + [BackendStatus(intent.slug, intent.version, active.value, rollback.value, health)];
    }
    assert intents[..|intents|] == intents;
    return Ok(Status(STATUS_SCHEMA_VERSION, backends));
  }

  lemma {:induction false} StatusErrorStays(intents: seq<BackendIntent>, i: nat, db: Database, inventory: Inventory,
      index: RecordIndex)
    requires i <= |intents|
    ensures Statuses(intents[..i], db, inventory, index).Err? ==>
              Statuses(intents, db, inventory, index) == Statuses(intents[..i], db, inventory, index)
  {
    hide StatusOf;
    if i == |intents| {
      assert intents[..i] == intents;
    } else {
      StatusErrorStays(intents[..|intents| - 1], i, db, inventory, index);
      assert intents[..|intents| - 1][..i] == intents[..i];
    }
  }

  /** Every row of a status view is the view of one inventory entry. */
  lemma {:induction false} StatusRowsAreViews(intents: seq<BackendIntent>, db: Database, inventory: Inventory,
      index: RecordIndex)
    requires Statuses(intents, db, inventory, index).Ok?
    ensures var rows := Statuses(intents, db, inventory, index).value;
            |rows| == |intents| && forall i | 0 <= i < |rows| ::
                StatusOf(intents[i], db, inventory, index) == Ok(rows[i])
  {
    hide StatusOf;
    if intents != [] {
      var front := intents[..|intents| - 1];
      StatusRowsAreViews(front, db, inventory, index);
      assert forall i | 0 <= i < |front| :: intents[i] == front[i];
    }
  }
}
