/** Deployment rows of the remote database, and the choice of the active and of
    the rollback release of one backend. */
module Releases {
  import opened Wrappers
  import opened Orders
  import opened SemVers

  const SERVICE := "CLOUD_RUN_SERVICE"
  const JOB := "CLOUD_RUN_JOB"
  const ROLLED_BACK_FROM := "RELEASE_ROLLBACK_FROM"

  /** One deployment row; None stands for a missing or null JSON value. */
  datatype Row = Row(
    backend: string, version: string, validatorId: Option<string>, kind: string, role: string,
    deploymentId: Option<string>, lastVerifiedAt: Option<string>, acceptedAt: Option<string>, retiredAt: Option<string>,
    readiness: Option<string>, blocked: Option<bool>, lastVerificationSucceeded: Option<bool>,
    unfinishedAttempts: int, minimumInstances: int, recordDigest: Option<string>, imageDigest: Option<string>,
    resource: Option<string>, providerDeletedAt: Option<string>, deactivatedAt: Option<int>,
        deactivationCause: Option<string>)

  datatype Validator = Validator(backend: string, validatorId: Option<string>)

  /** A routing event with the change list recorded for deactivation_cause. */
  datatype RoutingEvent = RoutingEvent(deploymentId: string, causes: seq<string>)

  datatype Database = Database(schemaVersion: string, rows: seq<Row>, validators: seq<Validator>,
      events: seq<RoutingEvent>)

  datatype ReleaseError =
    | UnknownStateSchema | MixedActive(versions: set<string>) | InvalidVersion(version: string)
    | UnknownBackend(backend: string)
    | InvalidRecord(backend: string, version: string) | DuplicateRecord(backend: string, version: string)

  // ---- JSON values -------------------------------------------------------

  predicate Truthy(o: Option<string>) {
    o.Some? && o.value != ""
  }

  /** str(row.get(field)) */
  function Str(o: Option<string>): string {
    if o.Some? then o.value else "None"
  }

  /** str(row.get(field) or "") */
  function OrEmpty(o: Option<string>): string {
    if o.Some? then o.value else ""
  }

  // ---- selections --------------------------------------------------------

  function Filter<T>(p: T -> bool, s: seq<T>): seq<T> {
    if s == [] then []
    else
      var front := Filter(p, s[..|s| - 1]);
      if p(s[|s| - 1]) then front + [s[|s| - 1]] else front
  }

  lemma {:induction false} FilterMembers<T>(p: T -> bool, s: seq<T>)
    ensures forall x :: x in Filter(p, s) <==> x in s && p(x)
  {
    if s != [] {
      FilterMembers(p, s[..|s| - 1]);
      assert s == s[..|s| - 1] + [s[|s| - 1]];
    }
  }

  datatype Backend = Backend(slug: string) {
    predicate Has(r: Row) { r.backend == slug }
  }

  datatype Release = Release(backend: string, version: string) {
    predicate Has(r: Row) { r.backend == backend && r.version == version }
  }

  /** The route of one semantic Validator; the id is compared as text. */
  datatype Route = Route(validatorId: string, kind: string) {
    predicate Has(r: Row) { Str(r.validatorId) == validatorId && r.kind == kind }
  }

  /** The order of (backend, version) pairs. */
  function CompareReleases(a: Release, b: Release): int {
    var backends := CompareStrings(a.backend, b.backend);
    if backends != 0 then backends else CompareStrings(a.version, b.version)
  }

  lemma ReleasesTotal()
    ensures Total(CompareReleases)
  {
    StringsTotal();
  }

  predicate Accepted(r: Row) { Truthy(r.acceptedAt) }
  predicate Retired(r: Row) { Truthy(r.retiredAt) }
  predicate Unretired(r: Row) { r.retiredAt.None? }
  predicate Routed(r: Row) { r.role == "PRIMARY" || r.role == "LONG_RUNNING" }

  function ValidatorIds(rows: seq<Row>): seq<string> {
    if rows == [] then []
    else
      var front, last := ValidatorIds(rows[..|rows| - 1]), rows[|rows| - 1];
      if Truthy(last.validatorId) then front + [last.validatorId.value] else front
  }

  lemma {:induction false} ValidatorIdsMembers(rows: seq<Row>)
    ensures forall id :: id in ValidatorIds(rows) <==>
              exists r :: r in rows && Truthy(r.validatorId) && r.validatorId.value == id
  {
    if rows != [] {
      ValidatorIdsMembers(rows[..|rows| - 1]);
      assert rows == rows[..|rows| - 1] + [rows[|rows| - 1]];
    }
  }

  predicate HasRoute(rows: seq<Row>, route: Route) {
    exists q | q in rows :: route.Has(q)
  }

  /** _all_validator_pairs_complete: every Validator has a Service and a Job. */
  predicate PairsComplete(rows: seq<Row>) {
    && rows != []
    && (forall r | r in rows :: Truthy(r.validatorId))
    && forall id | id in ValidatorIds(rows) :: HasRoute(rows, Route(id, SERVICE)) && HasRoute(rows, Route(id, JOB))
  }

  function Versions(rows: seq<Row>): seq<string> {
    if rows == [] then []
    else
      var front, v := Versions(rows[..|rows| - 1]), rows[|rows| - 1].version;
      if v in front then front else front + [v]
  }

  lemma {:induction false} VersionsMembers(rows: seq<Row>)
    ensures forall v :: v in Versions(rows) <==> exists r :: r in rows && r.version == v
  {
    if rows != [] {
      VersionsMembers(rows[..|rows| - 1]);
      assert rows == rows[..|rows| - 1] + [rows[|rows| - 1]];
    }
  }

  // ---- one row per route -------------------------------------------------

  function CompareRecency(a: Row, b: Row): int {
    var verified := CompareStrings(OrEmpty(a.lastVerifiedAt), OrEmpty(b.lastVerifiedAt));
    if verified != 0 then verified else CompareStrings(OrEmpty(a.deploymentId), OrEmpty(b.deploymentId))
  }

  /** max(rows, key=...): the first of the most recently verified rows. */
  function Latest(rows: seq<Row>): (r: Row)
    requires rows != []
    ensures r in rows
  {
    if |rows| == 1 then rows[0]
    else
      var best, last := Latest(rows[..|rows| - 1]), rows[|rows| - 1];
      if CompareRecency(last, best) > 0 then last else best
  }

  function Candidates(rows: seq<Row>, preferRouted: bool): seq<Row> {
    var routed := Filter(Routed, rows);
    if preferRouted && routed != [] then routed else rows
  }

  function Pick(rows: seq<Row>, route: Route, preferRouted: bool): seq<Row> {
    var candidates := Candidates(Filter(route.Has, rows), preferRouted);
    if candidates == [] then [] else [Latest(candidates)]
  }

  function SelectedFor(rows: seq<Row>, ids: seq<string>, preferRouted: bool): seq<Row> {
    if ids == [] then []
    else
      var id := ids[|ids| - 1];
      SelectedFor(rows, ids[..|ids| - 1], preferRouted) + Pick(rows, Route(id, SERVICE), preferRouted)
          + Pick(rows, Route(id, JOB), preferRouted)
  }

  function Selected(rows: seq<Row>, preferRouted: bool): seq<Row> {
    SelectedFor(rows, SortedSet(CompareStrings, ValidatorIds(rows)), preferRouted)
  }

  method SelectPairRows(rows: seq<Row>, preferRouted: bool) returns (selected: seq<Row>)
    ensures selected == Selected(rows, preferRouted)
  {
    hide Filter, Candidates, Latest, SortedSet, ValidatorIds;
    var ids := SortedSet(CompareStrings, ValidatorIds(rows));
    selected := [];
    for i := 0 to |ids|
      invariant selected == SelectedFor(rows, ids[..i], preferRouted)
    {
      assert ids[..i + 1][..i] == ids[..i];
      var kinds := [SERVICE, JOB];
      for k := 0 to 2
        invariant selected == SelectedFor(rows, ids[..i], preferRouted)
                  + (if k > 0 then Pick(rows, Route(ids[i], SERVICE), preferRouted) else [])
                  + (if k > 1 then Pick(rows, Route(ids[i], JOB), preferRouted) else [])
      {
        var kindRows := Filter(Route(ids[i], kinds[k]).Has, rows);
        var candidates := Candidates(kindRows, preferRouted);
        if candidates != [] {
          selected := selected + [Latest(candidates)];
        }
      }
    }
    assert ids[..|ids|] == ids;
  }

  lemma {:induction false} SelectedForMembers(rows: seq<Row>, ids: seq<string>, preferRouted: bool)
    ensures forall id | id in ids ::
              && (forall r | r in Pick(rows, Route(id, SERVICE), preferRouted) ::
                  r in SelectedFor(rows, ids, preferRouted))
              && (forall r | r in Pick(rows, Route(id, JOB), preferRouted) :: r in SelectedFor(rows, ids, preferRouted))
  {
    if ids != [] {
      SelectedForMembers(rows, ids[..|ids| - 1], preferRouted);
      assert ids == ids[..|ids| - 1] + [ids[|ids| - 1]];
    }
  }

  /** Whatever row a Validator has for a kind, some row of that Validator and
      kind is selected, and a routed one when there is a routed one. */
  lemma SelectedCovers(rows: seq<Row>, row: Row, preferRouted: bool)
    requires row in rows && Truthy(row.validatorId) && (row.kind == SERVICE || row.kind == JOB)
    ensures exists r :: r in Selected(rows, preferRouted) && r in rows
                        && Str(r.validatorId) == Str(row.validatorId) && r.kind == row.kind
                        && (preferRouted && Routed(row) ==> Routed(r))
  {
    hide Selected, ValidatorIds;
    ValidatorIdsMembers(rows);
    SelectedCoversRoute(rows, row, preferRouted);
  }

  /** So has a row that only reads like an identifier some row has. */
  lemma SelectedCoversRoute(rows: seq<Row>, row: Row, preferRouted: bool)
    requires row in rows && Str(row.validatorId) in ValidatorIds(rows) && (row.kind == SERVICE || row.kind == JOB)
    ensures exists r :: r in Selected(rows, preferRouted) && r in rows
                        && Str(r.validatorId) == Str(row.validatorId) && r.kind == row.kind
                        && (preferRouted && Routed(row) ==> Routed(r))
  {
    var route := Route(Str(row.validatorId), row.kind);
    var kindRows := Filter(route.Has, rows);
    FilterMembers(route.Has, rows);
    FilterMembers(Routed, kindRows);
    assert row in kindRows;
    var candidates := Candidates(kindRows, preferRouted);
    assert candidates != [] by {
      if preferRouted && Filter(Routed, kindRows) != [] {} else { assert candidates == kindRows; }
    }
    var picked := Latest(candidates);
    assert picked in kindRows && route.Has(picked);
    assert picked in Pick(rows, route, preferRouted);
    StringsTotal();
    SortedSetSorts(CompareStrings, ValidatorIds(rows));
    SelectedForMembers(rows, SortedSet(CompareStrings, ValidatorIds(rows)), preferRouted);
  }

  /** a was verified later than b, or at the same time under the later
      deployment identifier; a missing value reads as the empty text. */
  ghost predicate Later(a: Row, b: Row) {
    var va := if a.lastVerifiedAt.Some? then a.lastVerifiedAt.value else "";
    var vb := if b.lastVerifiedAt.Some? then b.lastVerifiedAt.value else "";
    var da := if a.deploymentId.Some? then a.deploymentId.value else "";
    var db := if b.deploymentId.Some? then b.deploymentId.value else "";
    TextBelow(vb, va) || (va == vb && TextBelow(db, da))
  }

  lemma RecencyMeans(a: Row, b: Row)
    ensures CompareRecency(a, b) > 0 <==> Later(a, b)
  {
    hide CompareStrings, TextBelow;
    StringsBelow(OrEmpty(a.lastVerifiedAt), OrEmpty(b.lastVerifiedAt));
    StringsBelow(OrEmpty(a.deploymentId), OrEmpty(b.deploymentId));
    StringPair(OrEmpty(a.lastVerifiedAt), OrEmpty(b.lastVerifiedAt));
  }

  lemma RecencyIsTransitive(a: Row, b: Row, c: Row)
    requires CompareRecency(a, b) <= 0 && CompareRecency(b, c) <= 0
    ensures CompareRecency(a, c) <= 0
  {
    hide CompareStrings, OrEmpty;
    StringsTotal();
    OrderOfThree(CompareStrings, OrEmpty(a.lastVerifiedAt), OrEmpty(b.lastVerifiedAt), OrEmpty(c.lastVerifiedAt));
    OrderOfThree(CompareStrings, OrEmpty(b.lastVerifiedAt), OrEmpty(c.lastVerifiedAt), OrEmpty(a.lastVerifiedAt));
    OrderOfThree(CompareStrings, OrEmpty(a.deploymentId), OrEmpty(b.deploymentId), OrEmpty(c.deploymentId));
  }

  lemma RecencyIsTotal(a: Row, b: Row)
    ensures CompareRecency(a, a) == 0
    ensures CompareRecency(a, b) > 0 ==> CompareRecency(b, a) <= 0
  {
    hide CompareStrings, OrEmpty;
    StringPair(OrEmpty(a.lastVerifiedAt), OrEmpty(b.lastVerifiedAt));
    StringPair(OrEmpty(a.deploymentId), OrEmpty(b.deploymentId));
    StringPair(OrEmpty(a.lastVerifiedAt), OrEmpty(a.lastVerifiedAt));
    StringPair(OrEmpty(a.deploymentId), OrEmpty(a.deploymentId));
  }

  /** No row is more recent than the latest one. */
  lemma {:induction false} LatestIsLatest(rows: seq<Row>)
    requires rows != []
    ensures forall r | r in rows :: !Later(r, Latest(rows))
  {
    hide CompareRecency, Later;
    var front, last := rows[..|rows| - 1], rows[|rows| - 1];
    assert rows == front + [last];
    RecencyIsTotal(last, last);
    if front != [] {
      LatestIsLatest(front);
      RecencyIsTotal(last, Latest(front));
      RecencyIsTotal(Latest(front), last);
    }
    forall r | r in rows
      ensures !Later(r, Latest(rows))
    {
      RecencyMeans(r, Latest(rows));
      if r in front {
        RecencyMeans(r, Latest(front));
        RecencyIsTransitive(r, Latest(front), Latest(rows));
      }
    }
  }

  /** The rows that compete for a route: those of the Validator and kind, only
      routed ones where these are preferred and there is one. */
  ghost predicate Competes(rows: seq<Row>, route: Route, preferRouted: bool, r: Row) {
    && r in rows && route.Has(r)
    && (preferRouted && (exists q :: q in rows && route.Has(q) && Routed(q)) ==> Routed(r))
  }

  /** Each selected row is of an identified Validator and of one of the two
      kinds, competes for its route, and no competing row is more recent. */
  lemma SelectedAreLatest(rows: seq<Row>, preferRouted: bool)
    ensures forall r | r in Selected(rows, preferRouted) ::
              var route := Route(Str(r.validatorId), r.kind);
              && (exists q :: q in rows && Truthy(q.validatorId) && q.validatorId.value == route.validatorId)
              && (r.kind == SERVICE || r.kind == JOB) && Competes(rows, route, preferRouted, r)
              && forall q | Competes(rows, route, preferRouted, q) :: !Later(q, r)
  {
    hide SortedSet, Pick, Competes, Later, ValidatorIds;
    StringsTotal();
    SortedSetSorts(CompareStrings, ValidatorIds(rows));
    ValidatorIdsMembers(rows);
    var ids := SortedSet(CompareStrings, ValidatorIds(rows));
    SelectedForPicks(rows, ids, preferRouted);
    forall r | r in Selected(rows, preferRouted)
      ensures var route := Route(Str(r.validatorId), r.kind);
              && route.validatorId in ids && (r.kind == SERVICE || r.kind == JOB)
              && Competes(rows, route, preferRouted, r)
              && forall q | Competes(rows, route, preferRouted, q) :: !Later(q, r)
    {
      var id, kind :| id in ids && (kind == SERVICE || kind == JOB) && r in Pick(rows, Route(id, kind), preferRouted);
      PickIsLatest(rows, Route(id, kind), preferRouted);
    }
  }

  /** At most one row is picked for a route, and one when any row is of it. */
  lemma PickIsLatest(rows: seq<Row>, route: Route, preferRouted: bool)
    ensures |Pick(rows, route, preferRouted)| <= 1
    ensures forall r | r in Pick(rows, route, preferRouted) ::
              Str(r.validatorId) == route.validatorId && r.kind == route.kind && Competes(rows, route, preferRouted, r)
              && forall q | Competes(rows, route, preferRouted, q) :: !Later(q, r)
  {
    hide Latest, Later, Filter, Routed, Str;
    var kindRows := Filter(route.Has, rows);
    FilterMembers(route.Has, rows);
    FilterMembers(Routed, kindRows);
    var candidates := Candidates(kindRows, preferRouted);
    if candidates != [] {
      LatestIsLatest(candidates);
      if preferRouted && Filter(Routed, kindRows) != [] {
        assert Filter(Routed, kindRows)[0] in Filter(Routed, kindRows);
      }
      forall q | Competes(rows, route, preferRouted, q)
        ensures q in candidates
      {
      }
    }
  }

  lemma {:induction false} SelectedForPicks(rows: seq<Row>, ids: seq<string>, preferRouted: bool)
    ensures forall r | r in SelectedFor(rows, ids, preferRouted) ::
              exists id, kind :: id in ids && (kind == SERVICE || kind == JOB)
                && r in Pick(rows, Route(id, kind), preferRouted)
  {
    hide Pick;
    if ids != [] {
      SelectedForPicks(rows, ids[..|ids| - 1], preferRouted);
      assert ids == ids[..|ids| - 1] + [ids[|ids| - 1]];
    }
  }

  predicate SameRoute(a: Row, b: Row) {
    Str(a.validatorId) == Str(b.validatorId) && a.kind == b.kind
  }

  ghost predicate OncePerRoute(s: seq<Row>) {
    forall i, j | 0 <= i < j < |s| :: !SameRoute(s[i], s[j])
  }

  /** No two selected rows are of one route. */
  lemma SelectedOncePerRoute(rows: seq<Row>, preferRouted: bool)
    ensures OncePerRoute(Selected(rows, preferRouted))
  {
    hide SortedSet, SelectedFor, OncePerRoute;
    StringsTotal();
    SortedSetSorts(CompareStrings, ValidatorIds(rows));
    var ids := SortedSet(CompareStrings, ValidatorIds(rows));
    forall a, b | 0 <= a < b < |ids| ensures ids[a] != ids[b] {
      StringPair(ids[a], ids[b]);
    }
    SelectedForOnce(rows, ids, preferRouted);
  }

  lemma OnceAppended(s: seq<Row>, t: seq<Row>)
    requires OncePerRoute(s) && |t| <= 1
    requires forall a, b | a in s && b in t :: !SameRoute(a, b)
    ensures OncePerRoute(s + t)
  {
    hide SameRoute;
    forall i, j | 0 <= i < j < |s + t|
      ensures !SameRoute((s + t)[i], (s + t)[j])
    {
      assert (s + t)[i] in s && ((s + t)[j] in s || (s + t)[j] in t);
    }
  }

  lemma {:induction false} SelectedForOnce(rows: seq<Row>, ids: seq<string>, preferRouted: bool)
    requires forall a, b | 0 <= a < b < |ids| :: ids[a] != ids[b]
    ensures OncePerRoute(SelectedFor(rows, ids, preferRouted))
  {
    hide Pick, Competes, Str, Later, OncePerRoute;
    if ids == [] {
      assert OncePerRoute([]) by { EmptyOnce(); }
      return;
    }
    var front, id := ids[..|ids| - 1], ids[|ids| - 1];
    SelectedForOnce(rows, front, preferRouted);
    SelectedForPicks(rows, front, preferRouted);
    var before := SelectedFor(rows, front, preferRouted);
    forall r | r in before ensures Str(r.validatorId) != id {
      var other, kind :| other in front && (kind == SERVICE || kind == JOB)
          && r in Pick(rows, Route(other, kind), preferRouted);
      PickIsLatest(rows, Route(other, kind), preferRouted);
    }
    PickIsLatest(rows, Route(id, SERVICE), preferRouted);
    PickIsLatest(rows, Route(id, JOB), preferRouted);
    OnceAppended(before, Pick(rows, Route(id, SERVICE), preferRouted));
    OnceAppended(before + Pick(rows, Route(id, SERVICE), preferRouted), Pick(rows, Route(id, JOB), preferRouted));
  }

  lemma EmptyOnce()
    ensures OncePerRoute([])
  {
  }

  // ---- the active release ------------------------------------------------

  function ActiveRelease(rows: seq<Row>): Result<Option<string>, ReleaseError> {
    var routed := Filter(Routed, rows);
    if routed == [] then Ok(None)
    else if exists r | r in routed :: r.version != routed[0].version then
      Err(MixedActive(set r | r in routed :: r.version))
    else Ok(Some(routed[0].version))
  }

  /** The active release is the one version of all routed rows. */
  lemma ActiveReleaseMeans(rows: seq<Row>)
    ensures ActiveRelease(rows).Err? <==>
              exists q, r :: q in rows && r in rows && Routed(q) && Routed(r) && q.version != r.version
    ensures ActiveRelease(rows) == Ok(None) <==> forall r | r in rows :: !Routed(r)
    ensures forall v :: ActiveRelease(rows) == Ok(Some(v)) <==>
                        (exists r :: r in rows && Routed(r) && r.version == v)
                        && (forall r | r in rows && Routed(r) :: r.version == v)
  {
    FilterMembers(Routed, rows);
    var routed := Filter(Routed, rows);
    if routed != [] {
      assert routed[0] in routed;
    }
  }

  // ---- releases rolled back from ------------------------------------------

  /** deployments_by_id.get(id): the last row with that id wins. */
  function Deployment(rows: seq<Row>, id: string): Option<Row> {
    if rows == [] then None
    else
      var last := rows[|rows| - 1];
      if Truthy(last.deploymentId) && last.deploymentId.value == id then Some(last)
          else Deployment(rows[..|rows| - 1], id)
  }

  predicate RowRolledBack(r: Row, backend: string) {
    r.backend == backend && r.deactivationCause == Some(ROLLED_BACK_FROM)
  }

  predicate EventRolledBack(e: RoutingEvent, rows: seq<Row>, backend: string) {
    && e.causes != [] && e.causes[|e.causes| - 1] == ROLLED_BACK_FROM
    && var d := Deployment(rows, e.deploymentId);
       d.Some? && d.value.backend == backend && d.value.version != ""
  }

  /** The versions a backend was rolled back from, by a row or by an event. */
  ghost predicate RolledBack(db: Database, backend: string, version: string) {
    || (exists r :: r in db.rows && RowRolledBack(r, backend) && r.version == version)
    || (exists e :: e in db.events && EventRolledBack(e, db.rows, backend)
                    && Deployment(db.rows, e.deploymentId).value.version == version)
  }

  function RolledBackByRows(rows: seq<Row>, backend: string): set<string> {
    set r | r in rows && RowRolledBack(r, backend) :: r.version
  }

  function RolledBackByEvents(events: seq<RoutingEvent>, rows: seq<Row>, backend: string): set<string> {
    set e | e in events && EventRolledBack(e, rows, backend) :: Deployment(rows, e.deploymentId).value.version
  }

  function RolledBackVersions(db: Database, backend: string): set<string> {
    RolledBackByRows(db.rows, backend) + RolledBackByEvents(db.events, db.rows, backend)
  }

  method CollectRolledBack(db: Database, backend: string) returns (values: set<string>)
    ensures values == RolledBackVersions(db, backend)
    ensures forall v :: v in values <==> RolledBack(db, backend, v)
  {
    values := {};
    for i := 0 to |db.rows|
      invariant values == RolledBackByRows(db.rows[..i], backend)
    {
      assert db.rows[..i + 1] == db.rows[..i] + [db.rows[i]];
      if RowRolledBack(db.rows[i], backend) {
        values := values + {db.rows[i].version};
      }
    }
    assert db.rows[..|db.rows|] == db.rows;
    for i := 0 to |db.events|
      invariant values == RolledBackByRows(db.rows, backend) + RolledBackByEvents(db.events[..i], db.rows, backend)
    {
      assert db.events[..i + 1] == db.events[..i] + [db.events[i]];
      if EventRolledBack(db.events[i], db.rows, backend) {
        values := values + {Deployment(db.rows, db.events[i].deploymentId).value.version};
      }
    }
    assert db.events[..|db.events|] == db.events;
  }

  // ---- the rollback release ----------------------------------------------

  /** One question for _rollback_release: the rows of a backend, its active
      version and the versions it was rolled back from. */
  datatype RollbackQuery = RollbackQuery(rows: seq<Row>, backend: string, active: string, rolledBack: set<string>) {

    /** What a candidate must meet before its version is parsed. */
    predicate Restorable(version: string) {
      var group := Filter(Release(backend, version).Has, rows);
      && version != active && version !in rolledBack
      && PairsComplete(group) && PairsComplete(Filter(Accepted, group))
      && !exists r | r in group :: Retired(r)
    }

    /** A restorable release whose version does not parse raises. */
    predicate Unparseable(version: string) {
      Restorable(version) && Parse(version).None?
    }

    predicate Eligible(version: string) {
      && Restorable(version)
      && Parse(version).Some? && Parse(active).Some?
      && Compare(Parse(version).value, Parse(active).value) < 0
    }
  }

  /** The sort key of _rollback_release: numbers, then the prerelease as a
      plain tuple of strings. */
  function CompareKeys(a: SemVer, b: SemVer): int {
    if CompareCore(a, b) != 0 then CompareCore(a, b) else CompareTuples(a.prerelease, b.prerelease)
  }

  predicate Outranks(v: string, w: string) {
    Parse(v).Some? && Parse(w).Some? && CompareKeys(Parse(v).value, Parse(w).value) > 0
  }

  /** The first of the greatest versions under the sort key. */
  function Top(versions: seq<string>): (v: string)
    requires versions != []
    ensures v in versions
  {
    if |versions| == 1 then versions[0]
    else
      var best, last := Top(versions[..|versions| - 1]), versions[|versions| - 1];
      if Outranks(last, best) then last else best
  }

  function RollbackRelease(rows: seq<Row>, backend: string, active: Option<string>, rolledBack: set<string>)
    : Result<Option<string>, ReleaseError>
  {
    if active.None? then Ok(None)
    else if Parse(active.value).None? then Err(InvalidVersion(active.value))
    else
      var q := RollbackQuery(rows, backend, active.value, rolledBack);
      var bad, eligible := Filter(q.Unparseable, Versions(rows)), Filter(q.Eligible, Versions(rows));
      if bad != [] then Err(InvalidVersion(bad[0]))
      else if eligible == [] then Ok(None)
      else Ok(Some(Top(eligible)))
  }

  method ChooseRollback(rows: seq<Row>, backend: string, active: Option<string>, rolledBack: set<string>)
    returns (r: Result<Option<string>, ReleaseError>)
    ensures r == RollbackRelease(rows, backend, active, rolledBack)
  {
    if active.None? {
      return Ok(None);
    }
    if Parse(active.value).None? {
      return Err(InvalidVersion(active.value));
    }
    var q := RollbackQuery(rows, backend, active.value, rolledBack);
    var versions := Versions(rows);
    var candidates: seq<string> := [];
    for i := 0 to |versions|
      invariant candidates == Filter(q.Eligible, versions[..i])
      invariant Filter(q.Unparseable, versions[..i]) == []
    {
      FilterNext(q.Eligible, versions, i);
      FilterNext(q.Unparseable, versions, i);
      if q.Restorable(versions[i]) {
        if Parse(versions[i]).None? {
          FilterPrefix(q.Unparseable, versions, i + 1);
          return Err(InvalidVersion(versions[i]));
        }
        if Compare(Parse(versions[i]).value, Parse(active.value).value) < 0 {
          candidates := candidates + [versions[i]];
        }
      }
    }
    assert versions[..|versions|] == versions;
    if candidates == [] {
      return Ok(None);
    }
    return Ok(Some(Top(candidates)));
  }

  lemma FilterNext<T>(p: T -> bool, s: seq<T>, i: nat)
    requires i < |s|
    ensures Filter(p, s[..i + 1]) == if p(s[i]) then Filter(p, s[..i]) + [s[i]] else Filter(p, s[..i])
  {
    assert s[..i + 1][..i] == s[..i];
  }

  lemma {:induction false} FilterPrefix<T>(p: T -> bool, s: seq<T>, i: nat)
    requires i <= |s|
    ensures Filter(p, s[..i]) <= Filter(p, s)
  {
    if i < |s| {
      FilterPrefix(p, s[..|s| - 1], i);
      assert s[..|s| - 1][..i] == s[..i];
    } else {
      assert s[..i] == s;
    }
  }

  // ---- what the choice guarantees ----------------------------------------

  lemma {:induction false} TopIsGreatest(versions: seq<string>)
    requires versions != [] && forall i | 0 <= i < |versions| :: Parse(versions[i]).Some?
    ensures forall w | w in versions :: !Outranks(w, Top(versions))
  {
    hide Outranks, Parse;
    KeysTransitive(versions[0], versions[0], versions[0]);
    if |versions| > 1 {
      var front, last := versions[..|versions| - 1], versions[|versions| - 1];
      assert versions == front + [last];
      TopIsGreatest(front);
      forall w | w in versions ensures !Outranks(w, Top(versions)) {
        KeysTransitive(w, Top(front), last);
        KeysTransitive(w, last, last);
        KeysTransitive(last, Top(front), Top(front));
        assert w in front || w == last;
      }
    }
  }

  /** Among equals the first is chosen. */
  lemma {:induction false} TopIsFirst(versions: seq<string>)
    requires versions != [] && forall i | 0 <= i < |versions| :: Parse(versions[i]).Some?
    ensures exists i :: 0 <= i < |versions| && versions[i] == Top(versions)
                        && forall j | 0 <= j < i :: Outranks(Top(versions), versions[j])
  {
    hide Outranks, Parse;
    if |versions| > 1 {
      var front, last := versions[..|versions| - 1], versions[|versions| - 1];
      assert versions == front + [last];
      TopIsFirst(front);
      TopIsGreatest(front);
      var i :| 0 <= i < |front| && front[i] == Top(front) && forall j | 0 <= j < i :: Outranks(Top(front), front[j]);
      if Outranks(last, Top(front)) {
        forall j | 0 <= j < |front| ensures Outranks(last, versions[j]) {
          assert front[j] in front;
          KeysTransitive(last, front[j], Top(front));
        }
        assert versions[|front|] == last;
      } else {
        assert versions[i] == Top(front);
      }
    } else {
      assert versions[0] == Top(versions);
    }
  }

  /** A filtered element comes from a place before which all that pass were
      filtered before it. */
  lemma {:induction false} FilterFirst<T>(p: T -> bool, s: seq<T>, i: nat)
    requires i < |Filter(p, s)|
    ensures exists k :: 0 <= k < |s| && s[k] == Filter(p, s)[i]
                        && forall j | 0 <= j < k && p(s[j]) :: s[j] in Filter(p, s)[..i]
  {
    var front, last := s[..|s| - 1], s[|s| - 1];
    var before := Filter(p, front);
    if i < |before| {
      FilterFirst(p, front, i);
      var k :| 0 <= k < |front| && front[k] == before[i]
          && forall j | 0 <= j < k && p(front[j]) :: front[j] in before[..i];
      assert Filter(p, s)[..i] == before[..i];
      assert s[k] == front[k] && forall j | 0 <= j < k :: s[j] == front[j];
    } else {
      FilterMembers(p, front);
      assert Filter(p, s)[..i] == before;
      forall j | 0 <= j < |s| - 1 && p(s[j])
        ensures s[j] in before
      {
        assert front[j] == s[j] && front[j] in front;
      }
      assert s[|s| - 1] == Filter(p, s)[i];
    }
  }

  /** Versions are listed by their first rows. */
  lemma {:induction false} VersionsFirst(rows: seq<Row>, i: nat)
    requires i < |Versions(rows)|
    ensures exists k :: 0 <= k < |rows| && rows[k].version == Versions(rows)[i]
                        && forall j | 0 <= j < k :: rows[j].version in Versions(rows)[..i]
  {
    var front := rows[..|rows| - 1];
    var before := Versions(front);
    if i < |before| {
      VersionsFirst(front, i);
      var k :| 0 <= k < |front| && front[k].version == before[i]
          && forall j | 0 <= j < k :: front[j].version in before[..i];
      assert Versions(rows)[..i] == before[..i];
      assert rows[k] == front[k] && forall j | 0 <= j < k :: rows[j] == front[j];
    } else {
      VersionsMembers(front);
      assert Versions(rows)[..i] == before;
      forall j | 0 <= j < |rows| - 1
        ensures rows[j].version in before
      {
        assert front[j] == rows[j] && front[j] in front;
      }
      assert rows[|rows| - 1].version == Versions(rows)[i];
    }
  }

  lemma KeysTransitive(v: string, w: string, u: string)
    requires Parse(v).Some? && Parse(w).Some? && Parse(u).Some?
    ensures Outranks(v, u) && !Outranks(v, w) ==> Outranks(w, u)
    ensures !Outranks(v, v)
    ensures Outranks(v, w) ==> !Outranks(w, v)
  {
    hide Parse;
    KeyOrder(Parse(v).value, Parse(w).value, Parse(u).value);
  }

  lemma KeyOrder(a: SemVer, b: SemVer, c: SemVer)
    ensures CompareKeys(a, a) == 0
    ensures CompareKeys(a, b) > 0 ==> CompareKeys(b, a) <= 0
    ensures CompareKeys(a, c) > 0 && CompareKeys(a, b) <= 0 ==> CompareKeys(b, c) > 0
  {
    hide CompareTuples;
    TuplesTotal();
    OrderOfThree(CompareTuples, a.prerelease, b.prerelease, c.prerelease);
  }

  lemma OrderOfThree<T(!new)>(cmp: (T, T) -> int, x: T, y: T, z: T)
    requires Total(cmp)
    ensures cmp(x, x) == 0 && cmp(x, y) == -cmp(y, x)
    ensures cmp(x, z) > 0 && cmp(x, y) <= 0 ==> cmp(y, z) > 0
    ensures cmp(x, y) == 0 ==> x == y
  {
    hide Total;
    TotalMeans(cmp, x, x, x);
    TotalMeans(cmp, x, y, z);
    TotalMeans(cmp, z, x, y);
    TotalMeans(cmp, y, x, z);
    TotalMeans(cmp, z, y, x);
    TotalMeans(cmp, x, z, y);
    TotalMeans(cmp, y, z, x);
  }
}
