/** What a computed status says, in terms of the rows, Validators and records it
    was computed from: the active release, the rollback target and every fact
    of the health of each release. */
module StatusMeaning {
  import opened Wrappers
  import opened Orders
  import opened SemVers
  import opened ProviderNames
  import opened Releases
  import opened RollbackChoice
  import opened ReleaseStatus
  import opened CleanupPlan
  import Activation
  import CleanupSafety
  import Strings

  // ---- rows --------------------------------------------------------------------

  predicate Given(o: Option<string>) {
    o.Some? && o.value != ""
  }

  predicate TakesTraffic(r: Row) {
    r.role == "PRIMARY" || r.role == "LONG_RUNNING"
  }

  /** A deployment row of a release. */
  predicate Of(db: Database, backend: string, version: string, r: Row) {
    r in db.rows && r.backend == backend && r.version == version
  }

  // ---- the rollback target --------------------------------------------------------

  /** A row of the release for that Validator and kind, an accepted one on demand. */
  ghost predicate Serves(db: Database, backend: string, version: string, id: Option<string>, kind: string,
      accepted: bool) {
    exists q :: Of(db, backend, version, q) && q.validatorId == id && q.kind == kind
                && (accepted ==> Given(q.acceptedAt))
  }

  ghost predicate Pair(db: Database, backend: string, version: string, id: Option<string>, accepted: bool) {
    && Serves(db, backend, version, id, "CLOUD_RUN_SERVICE", accepted)
    && Serves(db, backend, version, id, "CLOUD_RUN_JOB", accepted)
  }

  /** Every row of the release names a Validator, and each has a pair; some row
      is accepted, and each Validator with an accepted row has an accepted pair;
      no row is retired. */
  ghost predicate Restores(db: Database, backend: string, version: string) {
    && (exists r :: Of(db, backend, version, r) && Given(r.acceptedAt))
    && forall r | Of(db, backend, version, r) ::
         && Given(r.validatorId) && !Given(r.retiredAt) && Pair(db, backend, version, r.validatorId, false)
         && (Given(r.acceptedAt) ==> Pair(db, backend, version, r.validatorId, true))
  }

  /** The backend was rolled back from that version: a row says so, or the last
      cause that a routing event records for one of the backend's deployments. */
  ghost predicate WasLeft(db: Database, backend: string, version: string) {
    || (exists r :: r in db.rows && r.backend == backend && r.version == version
                    && r.deactivationCause == Some("RELEASE_ROLLBACK_FROM"))
    || (exists e :: e in db.events && version != "" && e.causes != []
                    && e.causes[|e.causes| - 1] == "RELEASE_ROLLBACK_FROM"
                    && LastWithId(db.rows, e.deploymentId, backend, version))
  }

  /** The last row with that deployment identifier is of this release. */
  ghost predicate LastWithId(rows: seq<Row>, id: string, backend: string, version: string) {
    exists i :: 0 <= i < |rows| && id != "" && rows[i].deploymentId == Some(id)
                && rows[i].backend == backend && rows[i].version == version
                && forall j | i < j < |rows| :: rows[j].deploymentId != Some(id)
  }

  /** What the rollback target must meet under an active version. */
  ghost predicate Target(db: Database, backend: string, active: string, version: string) {
    && Restores(db, backend, version) && version != active && !WasLeft(db, backend, version)
    && Parse(version).Some? && Parse(active).Some? && Precedes(Parse(version).value, Parse(active).value)
  }

  lemma LastWithIdNext(rows: seq<Row>, id: string, backend: string, version: string)
    requires rows != []
    ensures var front, last := rows[..|rows| - 1], rows[|rows| - 1];
            LastWithId(rows, id, backend, version) <==>
            if id != "" && last.deploymentId == Some(id) then last.backend == backend && last.version == version
            else LastWithId(front, id, backend, version)
  {
    var front, last := rows[..|rows| - 1], rows[|rows| - 1];
    if LastWithId(front, id, backend, version) && last.deploymentId != Some(id) {
      var i :| 0 <= i < |front| && id != "" && front[i].deploymentId == Some(id) && front[i].backend == backend
          && front[i].version == version && forall j | i < j < |front| :: front[j].deploymentId != Some(id);
      assert rows[i] == front[i];
      assert forall j | i < j < |rows| :: j < |front| ==> rows[j] == front[j];
    }
    if LastWithId(rows, id, backend, version) && last.deploymentId != Some(id) {
      var i :| 0 <= i < |rows| && id != "" && rows[i].deploymentId == Some(id) && rows[i].backend == backend
          && rows[i].version == version && forall j | i < j < |rows| :: rows[j].deploymentId != Some(id);
      assert front[i] == rows[i];
      assert forall j | i < j < |front| :: rows[j] == front[j];
    }
  }

  lemma {:induction false} DeploymentMeans(rows: seq<Row>, id: string, backend: string, version: string)
    ensures LastWithId(rows, id, backend, version)
       <==> var d := Deployment(rows, id); d.Some? && d.value.backend == backend && d.value.version == version
  {
    hide LastWithId;
    if rows != [] {
      LastWithIdNext(rows, id, backend, version);
      DeploymentMeans(rows[..|rows| - 1], id, backend, version);
    } else {
      assert !LastWithId([], id, backend, version) by { NoRowHasId(id, backend, version); }
    }
  }

  lemma NoRowHasId(id: string, backend: string, version: string)
    ensures !LastWithId([], id, backend, version)
  {
  }

  lemma WasLeftMeans(db: Database, backend: string, version: string)
    ensures version in RolledBackVersions(db, backend) <==> WasLeft(db, backend, version)
  {
    hide Deployment, LastWithId;
    forall e | e in db.events
      ensures LastWithId(db.rows, e.deploymentId, backend, version)
         <==> var d := Deployment(db.rows, e.deploymentId);
              d.Some? && d.value.backend == backend && d.value.version == version
    {
      DeploymentMeans(db.rows, e.deploymentId, backend, version);
    }
  }

  /** Completeness of those rows of a release that count. */
  lemma PairsMean(db: Database, backend: string, version: string, rows: seq<Row>, accepted: bool)
    requires forall r :: r in rows <==> Of(db, backend, version, r) && (accepted ==> Given(r.acceptedAt))
    ensures PairsComplete(rows) <==>
              && rows != []
              && forall r | r in rows :: Given(r.validatorId) && Pair(db, backend, version, r.validatorId, accepted)
  {
    hide ValidatorIds, Of;
    ValidatorIdsMembers(rows);
    forall r, kind | r in rows && Truthy(r.validatorId)
      ensures (forall q | q in rows :: Truthy(q.validatorId)) ==>
                (HasRoute(rows, Route(r.validatorId.value, kind))
                 <==> Serves(db, backend, version, r.validatorId, kind, accepted))
    {
    }
  }

  lemma RestorableMeans(db: Database, backend: string, active: string, version: string)
    ensures QueryOf(db, backend, active).Restorable(version)
       <==> Restores(db, backend, version) && version != active && !WasLeft(db, backend, version)
  {
    hide PairsComplete, Filter, RolledBackVersions, WasLeft, Pair;
    var q := QueryOf(db, backend, active);
    var has := Release(backend, version).Has;
    FilterMembers(Backend(backend).Has, db.rows);
    FilterMembers(has, q.rows);
    var group := Filter(has, q.rows);
    FilterMembers(Accepted, group);
    var accepted := Filter(Accepted, group);
    WasLeftMeans(db, backend, version);
    PairsMean(db, backend, version, group, false);
    PairsMean(db, backend, version, accepted, true);
    assert group != [] ==> group[0] in group;
    assert accepted != [] ==> accepted[0] in accepted;
  }

  lemma CandidateMeans(db: Database, backend: string, active: string, version: string)
    ensures Candidate(QueryOf(db, backend, active), version) <==> Target(db, backend, active, version)
  {
    hide Parse, Filter, Restores, WasLeft, Compare, Precedes;
    var q := QueryOf(db, backend, active);
    RestorableMeans(db, backend, active, version);
    FilterMembers(Backend(backend).Has, db.rows);
    hide q.Restorable;
    if Parse(version).Some? && Parse(active).Some? {
      PrintOfParse(version);
      PrintOfParse(active);
      CompareIsPrecedence(Parse(version).value, Parse(active).value);
    }
    if Restores(db, backend, version) {
      RestoredIsPresent(db, backend, version);
    }
  }

  lemma RestoredIsPresent(db: Database, backend: string, version: string)
    requires Restores(db, backend, version)
    ensures exists r :: Of(db, backend, version, r)
  {
  }

  /** The key that rollback targets are sorted by: the three numbers, then the
      prerelease identifiers as a tuple of texts. */
  ghost predicate SortsAbove(a: SemVer, b: SemVer) {
    || a.major > b.major
    || (a.major == b.major && a.minor > b.minor)
    || (a.major == b.major && a.minor == b.minor && a.patch > b.patch)
    || (a.major == b.major && a.minor == b.minor && a.patch == b.patch && TupleBelow(b.prerelease, a.prerelease))
  }

  lemma OutranksMeans(v: string, w: string)
    requires Parse(v).Some? && Parse(w).Some?
    ensures Outranks(v, w) <==> SortsAbove(Parse(v).value, Parse(w).value)
  {
    hide Parse, TupleBelow, CompareTuples;
    TuplesBelow(Parse(v).value.prerelease, Parse(w).value.prerelease);
  }

  /** The target that no other sorts above, and of those the one whose first row
      comes first. */
  ghost predicate RollbackTarget(db: Database, backend: string, active: string, version: string) {
    && Target(db, backend, active, version)
    && (forall w | Target(db, backend, active, w) :: !SortsAbove(Parse(w).value, Parse(version).value))
    && exists i :: 0 <= i < |db.rows| && db.rows[i].backend == backend && db.rows[i].version == version
         && forall j | 0 <= j < i && db.rows[j].backend == backend && Target(db, backend, active, db.rows[j].version) ::
              SortsAbove(Parse(version).value, Parse(db.rows[j].version).value)
  }

  /** Where the chosen version first occurs. */
  lemma ChosenIsFirst(q: RollbackQuery, v: string)
    requires Chosen(q) == Ok(Some(v))
    ensures exists i :: 0 <= i < |q.rows| && q.rows[i].version == v
              && forall j | 0 <= j < i && Candidate(q, q.rows[j].version) :: Outranks(v, q.rows[j].version)
  {
    hide Parse, q.Restorable, Outranks, Filter, Versions, Top, Compare;
    var versions := Versions(q.rows);
    var eligible := Filter(q.Eligible, versions);
    FilterMembers(q.Eligible, versions);
    forall i | 0 <= i < |eligible| ensures Parse(eligible[i]).Some? {
      assert eligible[i] in eligible;
    }
    TopIsFirst(eligible);
    var m :| 0 <= m < |eligible| && eligible[m] == Top(eligible)
        && forall j | 0 <= j < m :: Outranks(Top(eligible), eligible[j]);
    FilterFirst(q.Eligible, versions, m);
    var k :| 0 <= k < |versions| && versions[k] == eligible[m]
        && forall j | 0 <= j < k && q.Eligible(versions[j]) :: versions[j] in eligible[..m];
    VersionsFirst(q.rows, k);
    var i :| 0 <= i < |q.rows| && q.rows[i].version == versions[k]
        && forall j | 0 <= j < i :: q.rows[j].version in versions[..k];
    forall j | 0 <= j < i && Candidate(q, q.rows[j].version)
      ensures Outranks(v, q.rows[j].version)
    {
      var a :| 0 <= a < k && versions[a] == q.rows[j].version;
      var b :| 0 <= b < m && eligible[b] == versions[a];
    }
  }

  /** The computed choice is the target so described. */
  lemma ChosenIsTarget(db: Database, backend: string, active: string)
    requires Chosen(QueryOf(db, backend, active)).Ok?
    ensures forall v :: Chosen(QueryOf(db, backend, active)).value == Some(v)
              <==> RollbackTarget(db, backend, active, v)
    ensures Chosen(QueryOf(db, backend, active)).value.None? <==> forall v :: !Target(db, backend, active, v)
  {
    hide Parse, Chosen, Outranks, Target, SortsAbove, Candidate, QueryOf;
    var q := QueryOf(db, backend, active);
    forall v ensures Candidate(q, v) <==> Target(db, backend, active, v) {
      CandidateMeans(db, backend, active, v);
    }
    ChoiceIsEligible(q);
    if Chosen(q).value.Some? {
      var v := Chosen(q).value.value;
      ChosenIsRollbackTarget(db, backend, active, v);
      forall w | RollbackTarget(db, backend, active, w)
        ensures w == v
      {
        OneRollbackTarget(db, backend, active, v, w);
      }
    }
  }

  lemma ChosenIsRollbackTarget(db: Database, backend: string, active: string, v: string)
    requires Chosen(QueryOf(db, backend, active)) == Ok(Some(v))
    ensures RollbackTarget(db, backend, active, v)
  {
    hide Parse, Chosen, Outranks, Restores, WasLeft, SortsAbove, Candidate, Filter, Precedes;
    var q := QueryOf(db, backend, active);
    forall w ensures Candidate(q, w) <==> Target(db, backend, active, w) {
      CandidateMeans(db, backend, active, w);
    }
    ChoiceIsEligible(q);
    forall w | Target(db, backend, active, w)
      ensures !SortsAbove(Parse(w).value, Parse(v).value)
    {
      OutranksMeans(w, v);
    }
    ChosenIsFirst(q, v);
    var i :| 0 <= i < |q.rows| && q.rows[i].version == v
        && forall j | 0 <= j < i && Candidate(q, q.rows[j].version) :: Outranks(v, q.rows[j].version);
    FilterFirst(Backend(backend).Has, db.rows, i);
    var k :| 0 <= k < |db.rows| && db.rows[k] == q.rows[i]
        && forall j | 0 <= j < k && Backend(backend).Has(db.rows[j]) :: db.rows[j] in q.rows[..i];
    FilterMembers(Backend(backend).Has, db.rows);
    assert q.rows[i] in q.rows;
    forall j | 0 <= j < k && db.rows[j].backend == backend && Target(db, backend, active, db.rows[j].version)
      ensures SortsAbove(Parse(v).value, Parse(db.rows[j].version).value)
    {
      assert Backend(backend).Has(db.rows[j]);
      var m :| 0 <= m < i && q.rows[m] == db.rows[j];
      OutranksMeans(v, db.rows[j].version);
    }
  }

  lemma OneRollbackTarget(db: Database, backend: string, active: string, v: string, w: string)
    requires RollbackTarget(db, backend, active, v) && RollbackTarget(db, backend, active, w)
    ensures v == w
  {
    hide Parse, Restores, WasLeft, SortsAbove, Precedes;
  }

  // ---- the versions of a status row ---------------------------------------------------

  ghost predicate TakesTrafficAt(db: Database, backend: string, version: string) {
    exists r :: Of(db, backend, version, r) && TakesTraffic(r)
  }

  /** The versions a status row shows: the routed one, the rollback target under
      it, and the health of every version that has rows. */
  ghost predicate ShowsVersions(db: Database, backend: string, row: BackendStatus) {
    && (forall v :: row.active == Some(v) <==> TakesTrafficAt(db, backend, v))
    && (row.active.None? ==> row.rollback.None?)
    && (row.active.Some? ==>
          && Parse(row.active.value).Some?
          && (forall v :: row.rollback == Some(v) <==> RollbackTarget(db, backend, row.active.value, v))
          && (row.rollback.None? <==> forall v :: !Target(db, backend, row.active.value, v))
          && forall v | Restores(db, backend, v) && v != row.active.value && !WasLeft(db, backend, v) ::
               Parse(v).Some?)
    && forall v :: v in row.health <==> exists r :: Of(db, backend, v, r)
  }

  lemma ActiveMeans(db: Database, backend: string)
    requires ActiveRelease(Filter(Backend(backend).Has, db.rows)).Ok?
    ensures forall v :: ActiveRelease(Filter(Backend(backend).Has, db.rows)).value == Some(v)
              <==> TakesTrafficAt(db, backend, v)
  {
    hide ActiveRelease, Filter;
    var rows := Filter(Backend(backend).Has, db.rows);
    FilterMembers(Backend(backend).Has, db.rows);
    ActiveReleaseMeans(rows);
    forall v
      ensures TakesTrafficAt(db, backend, v) <==> exists r :: r in rows && Routed(r) && r.version == v
    {
      if r :| r in rows && Routed(r) && r.version == v {
        assert Of(db, backend, v, r) && TakesTraffic(r);
      }
      if r :| Of(db, backend, v, r) && TakesTraffic(r) {
        assert r in rows && Routed(r);
      }
    }
    assert forall v | ActiveRelease(rows).value == Some(v) :: TakesTrafficAt(db, backend, v);
  }

  lemma RowShowsVersions(intent: BackendIntent, db: Database, inventory: Inventory, index: RecordIndex,
      row: BackendStatus)
    requires StatusOf(intent, db, inventory, index) == Ok(row)
    ensures row.backend == intent.slug && row.fileVersion == intent.version
    ensures ShowsVersions(db, intent.slug, row)
  {
    hide Filter, ActiveRelease, Versions, ReleaseHealth, TakesTrafficAt, Target, RollbackTarget, Parse, WasLeft,
        Restores, RolledBackVersions;
    var slug := intent.slug;
    var rows := Filter(Backend(slug).Has, db.rows);
    ActiveMeans(db, slug);
    HealthVersions(db, inventory, index, slug);
    if row.active.Some? {
      var active := row.active.value;
      ChosenOf(intent, db, inventory, index, row);
      ChosenIsTarget(db, slug, active);
      forall v | Restores(db, slug, v) && v != active && !WasLeft(db, slug, v)
        ensures Parse(v).Some?
      {
        RestorableParses(db, slug, active, v);
      }
    }
  }

  lemma HealthVersions(db: Database, inventory: Inventory, index: RecordIndex, backend: string)
    ensures forall v :: v in HealthTable(db, inventory, index, backend) <==> exists r :: Of(db, backend, v, r)
  {
    hide Filter, Versions, ReleaseHealth;
    var rows := Filter(Backend(backend).Has, db.rows);
    FilterMembers(Backend(backend).Has, db.rows);
    VersionsMembers(rows);
    forall v ensures v in HealthTable(db, inventory, index, backend) <==> exists r :: Of(db, backend, v, r) {
      if r :| Of(db, backend, v, r) {
        assert r in rows;
      }
      if v in HealthTable(db, inventory, index, backend) {
        var r :| r in rows && r.version == v;
        assert Of(db, backend, v, r);
      }
    }
  }

  /** The status takes its rollback version from the choice. */
  lemma ChosenOf(intent: BackendIntent, db: Database, inventory: Inventory, index: RecordIndex, row: BackendStatus)
    requires StatusOf(intent, db, inventory, index) == Ok(row) && row.active.Some?
    ensures Chosen(QueryOf(db, intent.slug, row.active.value)) == Ok(row.rollback)
    ensures Parse(row.active.value).Some?
  {
    hide Filter, ActiveRelease, HealthTable, RolledBackVersions, Parse, Versions, Top;
  }

  lemma RestorableParses(db: Database, backend: string, active: string, v: string)
    requires Chosen(QueryOf(db, backend, active)).Ok?
    requires Restores(db, backend, v) && v != active && !WasLeft(db, backend, v)
    ensures Parse(v).Some?
  {
    hide Parse, Chosen, Filter, RolledBackVersions, WasLeft, Compare;
    var q := QueryOf(db, backend, active);
    RestorableMeans(db, backend, active, v);
    hide q.Restorable;
    ChoiceIsEligible(q);
    FilterMembers(Backend(backend).Has, db.rows);
    var r :| Of(db, backend, v, r) && Given(r.acceptedAt);
    assert Present(q, v);
  }

  // ---- the health of a release ---------------------------------------------------------

  predicate Open(db: Database, backend: string, version: string, r: Row) {
    Of(db, backend, version, r) && r.retiredAt.None?
  }

  /** The identifier as the code compares it. */
  function IdText(r: Row): string {
    if r.validatorId.Some? then r.validatorId.value else "None"
  }

  predicate OneRoute(r: Row, q: Row) {
    IdText(r) == IdText(q) && r.kind == q.kind
  }

  ghost predicate Known(db: Database, backend: string, version: string, id: string) {
    exists q :: Open(db, backend, version, q) && q.validatorId == Some(id) && id != ""
  }

  /** The row is one that its route is judged by: of an identified Validator,
      taking traffic where a row of the route does and that is preferred, and
      verified no earlier than any other such row. */
  ghost predicate Judged(db: Database, backend: string, version: string, prefer: bool, r: Row) {
    && Open(db, backend, version, r) && Known(db, backend, version, IdText(r))
    && (r.kind == "CLOUD_RUN_SERVICE" || r.kind == "CLOUD_RUN_JOB")
    && InRace(db, backend, version, prefer, r, r)
    && forall q | InRace(db, backend, version, prefer, r, q) :: !Later(q, r)
  }

  ghost predicate InRace(db: Database, backend: string, version: string, prefer: bool, r: Row, q: Row) {
    && Open(db, backend, version, q) && OneRoute(r, q)
    && (prefer && (exists p :: Open(db, backend, version, p) && OneRoute(r, p) && TakesTraffic(p)) ==> TakesTraffic(q))
  }

  lemma UnretiredRows(db: Database, backend: string, version: string)
    ensures forall r :: r in Filter(Release(backend, version).Has, db.rows) <==> Of(db, backend, version, r)
    ensures forall r :: r in Filter(Unretired, Filter(Release(backend, version).Has, db.rows))
              <==> Open(db, backend, version, r)
  {
    hide Filter;
    FilterMembers(Release(backend, version).Has, db.rows);
    FilterMembers(Unretired, Filter(Release(backend, version).Has, db.rows));
  }

  lemma RaceMeans(db: Database, backend: string, version: string, rows: seq<Row>, prefer: bool, r: Row, q: Row)
    requires forall p :: p in rows <==> Open(db, backend, version, p)
    ensures Competes(rows, Route(IdText(r), r.kind), prefer, q) <==> InRace(db, backend, version, prefer, r, q)
  {
    hide Open;
    forall p ensures Route(IdText(r), r.kind).Has(p) <==> OneRoute(r, p) {
    }
  }

  lemma RacerIsOpen(db: Database, backend: string, version: string, prefer: bool, r: Row, q: Row)
    requires InRace(db, backend, version, prefer, r, q)
    ensures Open(db, backend, version, q)
  {
  }

  /** The selected rows are judged ones, and each judged row's route has one. */
  lemma SelectedAreJudged(db: Database, backend: string, version: string, rows: seq<Row>, prefer: bool)
    requires forall p :: p in rows <==> Open(db, backend, version, p)
    ensures forall r | r in Selected(rows, prefer) :: Judged(db, backend, version, prefer, r)
    ensures forall r | Judged(db, backend, version, prefer, r) ::
              exists q :: q in Selected(rows, prefer) && OneRoute(r, q)
  {
    hide Selected, Open, Later, InRace, Competes, ValidatorIds;
    SelectedAreLatest(rows, prefer);
    forall r | r in Selected(rows, prefer)
      ensures Judged(db, backend, version, prefer, r)
    {
      forall q
        ensures Competes(rows, Route(IdText(r), r.kind), prefer, q) <==> InRace(db, backend, version, prefer, r, q)
      {
        RaceMeans(db, backend, version, rows, prefer, r, q);
      }
      assert Str(r.validatorId) == IdText(r);
      var named :| named in rows && Truthy(named.validatorId) && named.validatorId.value == IdText(r);
      assert Open(db, backend, version, named) && named.validatorId == Some(IdText(r));
      assert Known(db, backend, version, IdText(r));
      RacerIsOpen(db, backend, version, prefer, r, r);
    }
    ValidatorIdsMembers(rows);
    forall r | Judged(db, backend, version, prefer, r)
      ensures exists q :: q in Selected(rows, prefer) && OneRoute(r, q)
    {
      var named :| Open(db, backend, version, named) && named.validatorId == Some(IdText(r)) && IdText(r) != "";
      assert named in rows && Truthy(named.validatorId);
      SelectedCoversRoute(rows, r, prefer);
    }
  }

  /** A flag of the health that asks something of every judged row. */
  ghost predicate Flag(db: Database, backend: string, version: string, p: Row -> bool, flag: bool) {
    && (flag ==> (exists r :: Judged(db, backend, version, true, r))
                 && forall r | Judged(db, backend, version, true, r) ::
                      exists q :: Judged(db, backend, version, true, q) && OneRoute(r, q) && p(q))
    && ((exists r :: Judged(db, backend, version, true, r))
        && (forall r | Judged(db, backend, version, true, r) :: p(r))
        ==> flag)
  }

  predicate WasAccepted(r: Row) { Given(r.acceptedAt) }
  predicate ReportsReady(r: Row) { r.readiness == Some("READY") }
  predicate MayRun(r: Row) { r.blocked != Some(true) }
  predicate PassedVerification(r: Row) { r.lastVerificationSucceeded == Some(true) }

  lemma EveryIsFlag(db: Database, backend: string, version: string, rows: seq<Row>, p: Row -> bool,
      meaning: Row -> bool)
    requires forall r :: r in rows <==> Open(db, backend, version, r)
    requires forall r :: p(r) <==> meaning(r)
    ensures Flag(db, backend, version, meaning, Every(p, Selected(rows, true)))
  {
    hide Selected, Open, Judged, OneRoute;
    SelectedAreJudged(db, backend, version, rows, true);
    var pairs := Selected(rows, true);
    assert pairs != [] ==> pairs[0] in pairs;
  }

  /** A provider name, bare or the last segment of a path, is in the listing. */
  ghost predicate Listed(text: string, names: seq<string>) {
    exists name :: name in names && (name == text || EndsInSegment(text, name))
  }

  ghost predicate EndsInSegment(text: string, name: string) {
    && '/' !in name && |name| <= |text| && text[|text| - |name|..] == name
    && (|name| < |text| ==> text[|text| - |name| - 1] == '/')
  }

  lemma {:induction false} LastSegmentMeans(text: string, name: string)
    ensures Strings.LastSegment(text, '/') == name <==> EndsInSegment(text, name)
    decreases |text|
  {
    hide Strings.Partition, Strings.LastSegment, EndsInSegment;
    Strings.PartitionParts(text, '/');
    var cut := Strings.Partition(text, '/');
    if cut.found {
      LastSegmentOfTail(text);
      LastSegmentMeans(cut.after, name);
      SegmentOfTail(cut.before, cut.after, name);
    } else {
      OneSegment(text, name);
    }
  }

  lemma LastSegmentOfTail(text: string)
    requires Strings.Partition(text, '/').found
    ensures Strings.LastSegment(text, '/') == Strings.LastSegment(Strings.Partition(text, '/').after, '/')
  {
    hide Strings.Partition;
    Strings.SplitParts(Strings.Partition(text, '/').after, '/');
  }

  lemma OneSegment(text: string, name: string)
    requires !Strings.Partition(text, '/').found && '/' !in text
    ensures Strings.LastSegment(text, '/') == name <==> EndsInSegment(text, name)
  {
    assert Strings.LastSegment(text, '/') == text by {
      hide Strings.Partition, EndsInSegment;
      Strings.PartitionParts(text, '/');
      assert Strings.Split(text, '/') == [text];
    }
  }

  lemma SegmentOfTail(front: string, tail: string, name: string)
    ensures EndsInSegment(front + ['/'] + tail, name) <==> EndsInSegment(tail, name)
  {
    var text := front + ['/'] + tail;
    assert |name| <= |tail| ==> text[|text| - |name|..] == tail[|tail| - |name|..];
    assert |tail| < |name| <= |text| ==> text[|text| - |name|..][|name| - |tail| - 1] == '/';
  }

  lemma SeenMeans(r: Row, names: seq<string>)
    ensures ResourceSeen(r, names) <==>
              r.providerDeletedAt.Some? || Listed(if r.resource.Some? then r.resource.value else "None", names)
  {
    hide Strings.LastSegment, EndsInSegment;
    var text := if r.resource.Some? then r.resource.value else "None";
    LastSegmentMeans(text, Strings.LastSegment(text, '/'));
    if name :| name in names && EndsInSegment(text, name) {
      LastSegmentMeans(text, name);
    }
  }

  /** A Validator of the backend without an unretired Service or without an
      unretired Job in the release. */
  ghost predicate Missing(db: Database, backend: string, version: string, id: string) {
    && id != "" && (exists v :: v in db.validators && v.backend == backend && v.validatorId == Some(id))
    && !((exists r :: Open(db, backend, version, r) && IdText(r) == id && r.kind == "CLOUD_RUN_SERVICE")
         && (exists r :: Open(db, backend, version, r) && IdText(r) == id && r.kind == "CLOUD_RUN_JOB"))
  }

  lemma {:induction false} MissingPairsMembers(rows: seq<Row>, ids: seq<string>)
    ensures forall id :: id in MissingPairs(rows, ids) <==> id in ids && PairMissing(rows, id)
  {
    hide PairMissing;
    if ids != [] {
      MissingPairsMembers(rows, ids[..|ids| - 1]);
      assert ids == ids[..|ids| - 1] + [ids[|ids| - 1]];
    }
  }

  lemma {:induction false} ExpectedIdsMean(validators: seq<Validator>, backend: string)
    ensures forall id :: id in ExpectedIds(validators, backend) <==>
              id != "" && exists v :: v in validators && v.backend == backend && v.validatorId == Some(id)
  {
    if validators != [] {
      ExpectedIdsMean(validators[..|validators| - 1], backend);
      assert validators == validators[..|validators| - 1] + [validators[|validators| - 1]];
    }
  }

  lemma MissingMeans(db: Database, backend: string, version: string, rows: seq<Row>)
    requires forall p :: p in rows <==> Open(db, backend, version, p)
    ensures forall id ::
              id in MissingPairs(rows, SortedSet(CompareStrings, ExpectedIds(db.validators, backend)))
              <==> Missing(db, backend, version, id)
  {
    hide SortedSet, MissingPairs, ExpectedIds, Open;
    var ids := ExpectedIds(db.validators, backend);
    StringsTotal();
    SortedSetSorts(CompareStrings, ids);
    ExpectedIdsMean(db.validators, backend);
    MissingPairsMembers(rows, SortedSet(CompareStrings, ids));
    forall id, kind
      ensures HasRoute(rows, Route(id, kind))
         <==> exists r :: Open(db, backend, version, r) && IdText(r) == id && r.kind == kind
    {
      if r :| Open(db, backend, version, r) && IdText(r) == id && r.kind == kind {
        assert r in rows && Route(id, kind).Has(r);
      }
      if HasRoute(rows, Route(id, kind)) {
        var r :| r in rows && Route(id, kind).Has(r);
        assert Open(db, backend, version, r) && IdText(r) == id;
      }
    }
  }

  /** All rows of the release that carry a digest carry this one, and some row does. */
  ghost predicate Carries(db: Database, backend: string, version: string, field: Row -> Option<string>,
      digest: string) {
    && digest != ""
    && (exists r :: Of(db, backend, version, r) && field(r) == Some(digest))
    && forall r | Of(db, backend, version, r) :: Given(field(r)) ==> field(r) == Some(digest)
  }

  function RecordField(r: Row): Option<string> {
    r.recordDigest
  }

  function ImageField(r: Row): Option<string> {
    r.imageDigest
  }

  /** The facts of a health block, read off the rows, Validators and inputs. */
  ghost predicate ShowsHealth(db: Database, inventory: Inventory, record: Option<RetainedRecord>, backend: string,
      version: string, h: Health) {
    && h.recordRetained == record.Some?
    && (h.recordMatches <==>
          record.Some? && Carries(db, backend, version, RecordField, record.value.retainedSha256))
    && (h.recordImageMatches <==>
          record.Some? && Carries(db, backend, version, ImageField, record.value.imageDigest))
    && (h.imagePresent.None? <==> inventory.images.None?)
    && (inventory.images.Some? ==>
          (h.imagePresent == Some(true) <==>
             exists r :: Of(db, backend, version, r) && Given(r.imageDigest)
                         && r.imageDigest.value in inventory.images.value))
    && (h.resourcesPresent.None? <==> inventory.cloud.None?)
    && (inventory.cloud.Some? ==>
          (h.resourcesPresent == Some(true) <==> forall r | Of(db, backend, version, r) ::
             r.providerDeletedAt.Some?
             || Listed(if r.resource.Some? then r.resource.value else "None", inventory.cloud.value)))
    && (forall id :: id in h.missingPairs <==> Missing(db, backend, version, id))
    && Flag(db, backend, version, WasAccepted, h.allAccepted)
    && Flag(db, backend, version, ReportsReady, h.allReady)
    && Flag(db, backend, version, MayRun, h.allUnblocked)
    && Flag(db, backend, version, PassedVerification, h.allVerified)
  }

  lemma CarriesMeans(db: Database, backend: string, version: string, rows: seq<Row>, field: Row -> Option<string>,
      digests: set<string>, digest: string)
    requires forall r :: r in rows <==> Of(db, backend, version, r)
    requires forall d :: d in digests <==> exists r :: r in rows && Truthy(field(r)) && field(r).value == d
    ensures digest != "" && digests == {digest} <==> Carries(db, backend, version, field, digest)
  {
    hide Of;
    if Carries(db, backend, version, field, digest) {
      var r :| Of(db, backend, version, r) && field(r) == Some(digest);
      assert digest in digests;
      assert digests == {digest};
    }
    if digest != "" && digests == {digest} {
      assert digest in digests;
      forall r | Of(db, backend, version, r) && Given(field(r))
        ensures field(r) == Some(digest)
      {
        assert field(r).value in digests;
      }
    }
  }

  lemma DigestsMean(rows: seq<Row>)
    ensures forall d :: d in RecordDigests(rows) <==>
              exists r :: r in rows && Truthy(RecordField(r)) && RecordField(r).value == d
    ensures forall d :: d in ImageDigests(rows) <==>
              exists r :: r in rows && Truthy(ImageField(r)) && ImageField(r).value == d
  {
  }

  lemma HealthShows(db: Database, inventory: Inventory, index: RecordIndex, backend: string, version: string)
    ensures ShowsHealth(db, inventory, Lookup(index, Release(backend, version)), backend, version,
                        ReleaseHealth(db, inventory, index, Release(backend, version)))
  {
    hide Selected, Filter, MissingPairs, SortedSet, ExpectedIds, ResourceSeen, RecordDigests, ImageDigests, Every,
        UnroutedCandidate, Carries, Missing, Flag, Listed, Lookup;
    var key := Release(backend, version);
    var record := Lookup(index, key);
    var rows := Filter(key.Has, db.rows);
    var unretired := Filter(Unretired, rows);
    UnretiredRows(db, backend, version);
    DigestsMean(rows);
    if record.Some? {
      CarriesMeans(db, backend, version, rows, RecordField, RecordDigests(rows), record.value.retainedSha256);
      CarriesMeans(db, backend, version, rows, ImageField, ImageDigests(rows), record.value.imageDigest);
    }
    if inventory.cloud.Some? {
      forall r
        ensures ResourceSeen(r, inventory.cloud.value) <==>
                  r.providerDeletedAt.Some?
                  || Listed(if r.resource.Some? then r.resource.value else "None", inventory.cloud.value)
      {
        SeenMeans(r, inventory.cloud.value);
      }
    }
    MissingMeans(db, backend, version, unretired);
    Flags(db, backend, version, unretired);
  }

  lemma Flags(db: Database, backend: string, version: string, rows: seq<Row>)
    requires forall r :: r in rows <==> Open(db, backend, version, r)
    ensures Flag(db, backend, version, WasAccepted, Every(Accepted, Selected(rows, true)))
    ensures Flag(db, backend, version, ReportsReady, Every(IsReady, Selected(rows, true)))
    ensures Flag(db, backend, version, MayRun, Every(IsUnblocked, Selected(rows, true)))
    ensures Flag(db, backend, version, PassedVerification,
                 Every(IsVerified, Selected(rows, true)))
  {
    hide Selected, Judged, Open;
    EveryIsFlag(db, backend, version, rows, Accepted, WasAccepted);
    EveryIsFlag(db, backend, version, rows, IsReady, ReportsReady);
    EveryIsFlag(db, backend, version, rows, IsUnblocked, MayRun);
    EveryIsFlag(db, backend, version, rows, IsVerified, PassedVerification);
  }

  // ---- the whole status -----------------------------------------------------------------

  /** The one retained record of a release, if there is one. */
  ghost predicate RecordIs(records: seq<RetainedRecord>, key: Release, record: Option<RetainedRecord>) {
    && (record.None? <==> forall i | 0 <= i < |records| :: Key(records[i]) != key)
    && (record.Some? ==> exists i :: Activation.UniqueRecord(records, key, i) && records[i] == record.value)
  }

  lemma IndexedRecord(intents: seq<BackendIntent>, records: seq<RetainedRecord>, index: RecordIndex, key: Release)
    requires IndexRecords(intents, records) == Ok(index)
    ensures RecordIs(records, key, Lookup(index, key))
  {
    hide IndexRecords;
    IndexCovers(intents, records);
    if key in index {
      var k := Activation.RecordOfKey(intents, records, index, key);
    }
  }

  ghost predicate Shows(db: Database, inventory: Inventory, intent: BackendIntent, row: BackendStatus) {
    && row.backend == intent.slug && row.fileVersion == intent.version && ShowsVersions(db, intent.slug, row)
    && forall v | v in row.health :: exists record ::
         && RecordIs(inventory.records, Release(intent.slug, v), record)
         && ShowsHealth(db, inventory, record, intent.slug, v, row.health[v])
  }

  lemma RowShows(intents: seq<BackendIntent>, intent: BackendIntent, db: Database, inventory: Inventory,
      index: RecordIndex, row: BackendStatus)
    requires IndexRecords(intents, inventory.records) == Ok(index)
    requires StatusOf(intent, db, inventory, index) == Ok(row)
    ensures Shows(db, inventory, intent, row)
  {
    hide IndexRecords, ShowsVersions, ShowsHealth, RecordIs, StatusOf;
    RowShowsVersions(intent, db, inventory, index, row);
    RowHealth(intent, db, inventory, index, row);
    forall v | v in row.health
      ensures exists record ::
                && RecordIs(inventory.records, Release(intent.slug, v), record)
                && ShowsHealth(db, inventory, record, intent.slug, v, row.health[v])
    {
      HealthShows(db, inventory, index, intent.slug, v);
      IndexedRecord(intents, inventory.records, index, Release(intent.slug, v));
    }
  }

  lemma RowHealth(intent: BackendIntent, db: Database, inventory: Inventory, index: RecordIndex, row: BackendStatus)
    requires StatusOf(intent, db, inventory, index) == Ok(row)
    ensures forall v | v in row.health :: row.health[v] == ReleaseHealth(db, inventory, index, Release(intent.slug, v))
  {
    hide ReleaseHealth, ActiveRelease, RollbackRelease, Versions, Filter, RolledBackVersions, Parse;
  }

  /** A computed status has a row for each inventory entry, and each row shows
      the versions, the rollback target and the health that the rows, Validators
      and records give its backend. */
  lemma StatusMeans(intents: seq<BackendIntent>, db: Database, inventory: Inventory, status: Status)
    requires StatusView(intents, db, inventory) == Ok(status)
    ensures status.schemaVersion == "validibot.validator-release-status.v1"
    ensures |status.backends| == |intents|
    ensures forall i | 0 <= i < |intents| :: Shows(db, inventory, intents[i], status.backends[i])
  {
    hide IndexRecords, Statuses, StatusOf, Shows;
    var index := IndexRecords(intents, inventory.records).value;
    StatusRowsAreViews(intents, db, inventory, index);
    forall i | 0 <= i < |intents|
      ensures Shows(db, inventory, intents[i], status.backends[i])
    {
      RowShows(intents, intents[i], db, inventory, index, status.backends[i]);
    }
  }

  // ---- what the plan deletes, in terms of the rows -----------------------------------------

  /** Nothing uses the row, and it has been inactive for the drain period. */
  predicate Unused(r: Row, now: int, drainDays: int) {
    && r.unfinishedAttempts == 0 && (r.kind == "CLOUD_RUN_SERVICE" ==> r.minimumInstances == 0)
    && r.deactivatedAt.Some? && r.deactivatedAt.value + drainDays * 24 * 60 * 60 <= now
  }

  /** Its record, image and resources are there. */
  ghost predicate Provided(db: Database, inventory: Inventory, backend: string, version: string) {
    && (exists i :: Activation.UniqueRecord(inventory.records, Release(backend, version), i)
          && Carries(db, backend, version, RecordField, inventory.records[i].retainedSha256)
          && Carries(db, backend, version, ImageField, inventory.records[i].imageDigest))
    && inventory.images.Some? && (exists r :: Of(db, backend, version, r) && Given(r.imageDigest)
                                     && r.imageDigest.value in inventory.images.value)
    && inventory.cloud.Some? && forall r | Of(db, backend, version, r) ::
         r.providerDeletedAt.Some?
         || Listed(if r.resource.Some? then r.resource.value else "None", inventory.cloud.value)
  }

  /** The release is not in use, not the rollback target, complete and accepted,
      unused, and its record, image and resources are there. */
  ghost predicate Disposable(intents: seq<BackendIntent>, db: Database, inventory: Inventory, now: int, drainDays: int,
      backend: string, version: string) {
    && backend != "" && version != "" && (exists i :: 0 <= i < |intents| && intents[i].slug == backend)
    && !TakesTrafficAt(db, backend, version)
    && (forall a | TakesTrafficAt(db, backend, a) :: !RollbackTarget(db, backend, a, version))
    && Restores(db, backend, version) && (forall r | Of(db, backend, version, r) :: Unused(r, now, drainDays))
    && Provided(db, inventory, backend, version)
  }

  lemma VerifiedMeans(db: Database, inventory: Inventory, record: Option<RetainedRecord>, backend: string,
      version: string, h: Health)
    requires ShowsHealth(db, inventory, record, backend, version, h)
    requires RecordIs(inventory.records, Release(backend, version), record)
    ensures Verified(h) <==> Provided(db, inventory, backend, version)
  {
    hide Carries, Listed, Of, Missing, Flag;
  }

  ghost predicate LastIntent(intents: seq<BackendIntent>, slug: string, i: int) {
    0 <= i < |intents| && intents[i].slug == slug && forall j | i < j < |intents| :: intents[j].slug != slug
  }

  /** The last entry of a slug counts. */
  lemma {:induction false} IntentForMeans(intents: seq<BackendIntent>, slug: string)
    ensures IntentFor(intents, slug).Some? <==> exists i :: 0 <= i < |intents| && intents[i].slug == slug
    ensures IntentFor(intents, slug).Some? ==>
              exists i :: LastIntent(intents, slug, i) && intents[i] == IntentFor(intents, slug).value
  {
    if intents != [] {
      var front := intents[..|intents| - 1];
      IntentForMeans(front, slug);
      if intents[|intents| - 1].slug == slug {
        assert LastIntent(intents, slug, |intents| - 1);
      } else if IntentFor(front, slug).Some? {
        var i :| LastIntent(front, slug, i) && front[i] == IntentFor(front, slug).value;
        assert intents[i] == front[i];
        assert forall j | i < j < |intents| :: j < |front| ==> intents[j] == front[j];
        assert LastIntent(intents, slug, i);
      }
      if i :| 0 <= i < |intents| && intents[i].slug == slug {
        assert i < |front| ==> front[i].slug == slug;
      }
    }
  }

  lemma IdleMeans(db: Database, now: int, drainDays: int, key: Release)
    ensures (forall r | r in db.rows && key.Has(r) :: Idle(r, now, drainDays)) && CleanupPlan.Complete(db, key)
       <==> Restores(db, key.backend, key.version)
            && forall r | Of(db, key.backend, key.version, r) :: Unused(r, now, drainDays)
  {
    hide PairsComplete, Filter, Pair;
    var group := Filter(key.Has, db.rows);
    FilterMembers(key.Has, db.rows);
    FilterMembers(Accepted, group);
    PairsMean(db, key.backend, key.version, group, false);
    PairsMean(db, key.backend, key.version, Filter(Accepted, group), true);
    assert group != [] ==> group[0] in group;
    assert Filter(Accepted, group) != [] ==> Filter(Accepted, group)[0] in Filter(Accepted, group);
    assert forall r :: r in db.rows && key.Has(r) <==> Of(db, key.backend, key.version, r);
    assert forall r :: Retired(r) <==> Given(r.retiredAt);
  }

  /** The plan made with a computed status deletes a release exactly when it is
      disposable. */
  lemma DeletedInTermsOfRows(intents: seq<BackendIntent>, db: Database, inventory: Inventory, status: Status, now: int,
      drainDays: int, key: Release)
    requires StatusView(intents, db, inventory) == Ok(status)
    ensures Deleted(PlanView(status, db, now, drainDays), key)
       <==> Disposable(intents, db, inventory, now, drainDays, key.backend, key.version)
  {
    hide IndexRecords, Statuses, StatusOf, PlanView, Idle, CleanupPlan.Complete, Restores, Unused, Of, Carries, Listed,
        Verified, ShowsHealth, RecordIs, Target, RollbackTarget, TakesTrafficAt, IntentFor, Deleted, Provided;
    var index := IndexRecords(intents, inventory.records).value;
    DeletedExactlyWhen(status, db, now, drainDays, key);
    CleanupSafety.RowForView(intents, db, inventory, index, key.backend);
    IntentForMeans(intents, key.backend);
    IdleMeans(db, now, drainDays, key);
    var row := Activation.RowFor(status.backends, key.backend);
    if row.Some? {
      RowShows(intents, IntentFor(intents, key.backend).value, db, inventory, index, row.value);
      if key.version in row.value.health {
        var record :| RecordIs(inventory.records, key, record)
            && ShowsHealth(db, inventory, record, key.backend, key.version, row.value.health[key.version]);
        VerifiedMeans(db, inventory, record, key.backend, key.version, row.value.health[key.version]);
      }
      if Restores(db, key.backend, key.version) {
        RestoredIsPresent(db, key.backend, key.version);
      }
      RowsOf(db, key);
    }
  }

  lemma RowsOf(db: Database, key: Release)
    ensures (exists r :: r in db.rows && key.Has(r)) <==> exists r :: Of(db, key.backend, key.version, r)
  {
    if r :| r in db.rows && key.Has(r) {
      assert Of(db, key.backend, key.version, r);
    }
    if r :| Of(db, key.backend, key.version, r) {
      assert r in db.rows && key.Has(r);
    }
  }

  /** The rollback target of a backend is never on the delete list. */
  lemma RollbackTargetIsNeverDeleted(intents: seq<BackendIntent>, db: Database, inventory: Inventory, status: Status,
      now: int, drainDays: int, backend: string, active: string, version: string)
    requires StatusView(intents, db, inventory) == Ok(status)
    requires TakesTrafficAt(db, backend, active) && RollbackTarget(db, backend, active, version)
    ensures !Deleted(PlanView(status, db, now, drainDays), Release(backend, version))
  {
    hide StatusView, PlanView, Deleted, TakesTrafficAt, RollbackTarget;
    DeletedInTermsOfRows(intents, db, inventory, status, now, drainDays, Release(backend, version));
  }

  // ---- when there is a status -------------------------------------------------------------

  /** What one backend needs: at most one version takes traffic, the versions
      that must be compared parse. */
  ghost predicate Computable(db: Database, intent: BackendIntent) {
    && (forall v, w | TakesTrafficAt(db, intent.slug, v) && TakesTrafficAt(db, intent.slug, w) :: v == w)
    && (forall a | TakesTrafficAt(db, intent.slug, a) ::
          && Parse(a).Some?
          && forall v | Restores(db, intent.slug, v) && v != a && !WasLeft(db, intent.slug, v) :: Parse(v).Some?)
    && Parse(intent.version).Some?
  }

  lemma ActiveFails(db: Database, backend: string)
    ensures ActiveRelease(Filter(Backend(backend).Has, db.rows)).Err?
       <==> exists v, w :: TakesTrafficAt(db, backend, v) && TakesTrafficAt(db, backend, w) && v != w
  {
    hide ActiveRelease, Filter;
    var rows := Filter(Backend(backend).Has, db.rows);
    FilterMembers(Backend(backend).Has, db.rows);
    ActiveReleaseMeans(rows);
    if q, r :| q in rows && r in rows && Routed(q) && Routed(r) && q.version != r.version {
      assert Of(db, backend, q.version, q) && Of(db, backend, r.version, r) && TakesTraffic(q) && TakesTraffic(r);
      assert TakesTrafficAt(db, backend, q.version) && TakesTrafficAt(db, backend, r.version);
    }
    if v, w :| TakesTrafficAt(db, backend, v) && TakesTrafficAt(db, backend, w) && v != w {
      var q :| Of(db, backend, v, q) && TakesTraffic(q);
      var r :| Of(db, backend, w, r) && TakesTraffic(r);
      assert q in rows && r in rows && Routed(q) && Routed(r);
    }
  }

  lemma ChoiceFails(db: Database, backend: string, active: string)
    ensures Chosen(QueryOf(db, backend, active)).Ok?
       <==> Parse(active).Some?
            && forall v | Restores(db, backend, v) && v != active && !WasLeft(db, backend, v) :: Parse(v).Some?
  {
    hide Parse, Chosen, Filter, RolledBackVersions, WasLeft, Compare, Restores;
    var q := QueryOf(db, backend, active);
    ChoiceIsEligible(q);
    forall v
      ensures Present(q, v) && q.Unparseable(v)
         <==> Restores(db, backend, v) && v != active && !WasLeft(db, backend, v) && Parse(v).None?
    {
      RestorableMeans(db, backend, active, v);
      if Restores(db, backend, v) {
        RestoredIsPresent(db, backend, v);
        FilterMembers(Backend(backend).Has, db.rows);
      }
    }
  }

  lemma StatusOfExists(intent: BackendIntent, db: Database, inventory: Inventory, index: RecordIndex)
    ensures StatusOf(intent, db, inventory, index).Ok? <==> Computable(db, intent)
  {
    hide Filter, ActiveRelease, HealthTable, RolledBackVersions, Parse, Versions, Top, TakesTrafficAt, Restores,
        WasLeft;
    var active := ActiveRelease(Filter(Backend(intent.slug).Has, db.rows));
    ActiveFails(db, intent.slug);
    if active.Ok? {
      ActiveMeans(db, intent.slug);
      if active.value.Some? {
        ChoiceFails(db, intent.slug, active.value.value);
      }
    }
  }

  lemma {:induction false} StatusesExist(intents: seq<BackendIntent>, db: Database, inventory: Inventory,
      index: RecordIndex)
    ensures Statuses(intents, db, inventory, index).Ok? <==> forall i | 0 <= i < |intents| :: Computable(db, intents[i])
  {
    hide StatusOf, Computable;
    if intents != [] {
      var front := intents[..|intents| - 1];
      StatusesExist(front, db, inventory, index);
      StatusOfExists(intents[|intents| - 1], db, inventory, index);
      assert forall i | 0 <= i < |front| :: front[i] == intents[i];
    }
  }

  predicate HexText(s: string) {
    forall c | c in s :: '0' <= c <= '9' || 'a' <= c <= 'f'
  }

  ghost predicate HexDigest(s: string) {
    exists hex :: s == "sha256:" + hex && |hex| == 64 && HexText(hex)
  }

  ghost predicate InRepository(image: string, name: string) {
    && (exists repository :: image == repository + ("/" + name)) && '@' !in image
    && forall last | EndsInSegment(image, last) :: ':' !in last
  }

  /** A retained record of the known shape and schema that names the release, its
      tag, commit, digests and repository, a contract version and evidence. */
  ghost predicate GoodRecord(intent: BackendIntent, r: RetainedRecord) {
    && r.fields == {"schema_version", "backend", "version", "source_tag", "source_commit", "image", "image_digest",
                    "shared_contract", "sbom", "build_verification"}
    && r.schemaVersion == "validibot.backend-release.v1" && Parse(r.version).Some? && Parse(r.sharedContract).Some?
    && r.sourceTag == intent.slug + "-v" + r.version
    && HexDigest(r.imageDigest) && HexText(r.retainedSha256) && |r.retainedSha256| == 64
    && HexText(r.sourceCommit) && |r.sourceCommit| in {40, 64} && InRepository(r.image, intent.imageName)
    && (exists c :: c in r.sbom && !Strings.Whitespace(c as int))
    && (exists c :: c in r.buildVerification && !Strings.Whitespace(c as int))
  }

  lemma HexMeans(s: string)
    ensures Hex(s) <==> HexText(s)
  {
    assert forall i | 0 <= i < |s| :: s[i] in s;
  }

  lemma DigestMeans(s: string)
    ensures ImageDigest(s) <==> HexDigest(s)
  {
    if ImageDigest(s) {
      HexMeans(s[7..]);
      assert s == "sha256:" + s[7..];
    }
    if hex :| s == "sha256:" + hex && |hex| == 64 && HexText(hex) {
      HexMeans(hex);
      assert s[7..] == hex && s[..7] == "sha256:";
    }
  }

  lemma BlankMeans(s: string)
    ensures !Strings.Blank(s) <==> exists c :: c in s && !Strings.Whitespace(c as int)
  {
    hide Strings.Whitespace;
    if c :| c in s && !Strings.Whitespace(c as int) {
      var i :| 0 <= i < |s| && s[i] == c;
    }
    assert forall i | 0 <= i < |s| :: s[i] in s;
  }

  lemma RepositoryMeans(image: string, name: string)
    ensures EndsWith(image, "/" + name) && '@' !in image && ':' !in Strings.LastSegment(image, '/')
       <==> InRepository(image, name)
  {
    hide Strings.LastSegment, EndsInSegment, EndsWith;
    SuffixMeans(image, "/" + name);
    LastSegmentMeans(image, Strings.LastSegment(image, '/'));
    forall last | EndsInSegment(image, last)
      ensures last == Strings.LastSegment(image, '/')
    {
      LastSegmentMeans(image, last);
    }
  }

  /** Exactly the good records of known backends are accepted. */
  lemma RecordErrorMeans(intents: seq<BackendIntent>, r: RetainedRecord)
    ensures RecordError(intents, r).None? <==>
              IntentFor(intents, r.backend).Some? && GoodRecord(IntentFor(intents, r.backend).value, r)
  {
    hide Parse, Hex, HexText, HexDigest, InRepository, Strings.LastSegment, EndsWith, Strings.Blank, Strings.Whitespace,
        ImageDigest, IntentFor;
    HexMeans(r.retainedSha256);
    HexMeans(r.sourceCommit);
    DigestMeans(r.imageDigest);
    BlankMeans(r.sbom);
    BlankMeans(r.buildVerification);
    if IntentFor(intents, r.backend).Some? {
      RepositoryMeans(r.image, IntentFor(intents, r.backend).value.imageName);
    }
  }

  /** A status is computed exactly when the database has the known schema, the
      records are well formed and of different releases, and every backend is
      computable. */
  lemma StatusExists(intents: seq<BackendIntent>, db: Database, inventory: Inventory)
    ensures StatusView(intents, db, inventory).Ok? <==>
              && db.schemaVersion == "validibot.validator-release-state.v1"
              && (forall r | r in inventory.records ::
                    IntentFor(intents, r.backend).Some? && GoodRecord(IntentFor(intents, r.backend).value, r))
              && (forall i, j | 0 <= i < j < |inventory.records| ::
                    Key(inventory.records[i]) != Key(inventory.records[j]))
              && forall i | 0 <= i < |intents| :: Computable(db, intents[i])
  {
    hide IndexRecords, Statuses, Computable, RecordError, GoodRecord, IntentFor;
    RecordsIndexExactlyWhen(intents, inventory.records);
    forall i | 0 <= i < |inventory.records|
      ensures inventory.records[i] in inventory.records
      ensures RecordError(intents, inventory.records[i]).None? <==>
                var r := inventory.records[i];
                IntentFor(intents, r.backend).Some? && GoodRecord(IntentFor(intents, r.backend).value, r)
    {
      RecordErrorMeans(intents, inventory.records[i]);
    }
    if IndexRecords(intents, inventory.records).Ok? {
      StatusesExist(intents, db, inventory, IndexRecords(intents, inventory.records).value);
    }
  }

  lemma {:induction false} IndexedKeys(intents: seq<BackendIntent>, records: seq<RetainedRecord>)
    requires IndexRecords(intents, records).Ok?
    ensures forall key | key in IndexRecords(intents, records).value ::
              exists i :: 0 <= i < |records| && Key(records[i]) == key
  {
    hide RecordError;
    if records != [] {
      var front := records[..|records| - 1];
      IndexedKeys(intents, front);
      forall key | key in IndexRecords(intents, records).value
        ensures exists i :: 0 <= i < |records| && Key(records[i]) == key
      {
        if key in IndexRecords(intents, front).value {
          var i :| 0 <= i < |front| && Key(front[i]) == key;
          assert Key(records[i]) == key;
        } else {
          assert Key(records[|records| - 1]) == key;
        }
      }
    }
  }

  lemma {:induction false} RecordsIndexExactlyWhen(intents: seq<BackendIntent>, records: seq<RetainedRecord>)
    ensures IndexRecords(intents, records).Ok? <==>
              && (forall i | 0 <= i < |records| :: RecordError(intents, records[i]).None?)
              && forall i, j | 0 <= i < j < |records| :: Key(records[i]) != Key(records[j])
  {
    hide RecordError, Key;
    if records != [] {
      var front, last := records[..|records| - 1], records[|records| - 1];
      RecordsIndexExactlyWhen(intents, front);
      assert forall i | 0 <= i < |front| :: front[i] == records[i];
      if IndexRecords(intents, front).Ok? {
        IndexedKeys(intents, front);
        IndexCovers(intents, front);
        if Key(last) in IndexRecords(intents, front).value {
          var i :| 0 <= i < |front| && Key(front[i]) == Key(last);
          assert Key(records[i]) == Key(records[|records| - 1]);
        }
      }
    }
  }

  // ---- when an activation is accepted, in terms of the rows ---------------------------------

  /** Deployment identifiers tell rows apart, as the primary keys they are. */
  ghost predicate Identified(db: Database) {
    forall r, q | r in db.rows && q in db.rows && r != q :: r.deploymentId.Some? && r.deploymentId != q.deploymentId
  }

  /** Then a route is judged by one row. */
  lemma JudgedOnce(db: Database, backend: string, version: string, r: Row, q: Row)
    requires Identified(db) && OneRoute(r, q)
    requires Judged(db, backend, version, true, r) && Judged(db, backend, version, true, q)
    ensures r == q
  {
    hide CompareRecency, Later;
    RacersAreOne(db, backend, version, r, q);
    RecencyMeans(r, q);
    RecencyMeans(q, r);
    TiesShareIdentifiers(r, q);
  }

  lemma RacersAreOne(db: Database, backend: string, version: string, r: Row, q: Row)
    requires OneRoute(r, q)
    requires Judged(db, backend, version, true, r) && Judged(db, backend, version, true, q)
    ensures r in db.rows && q in db.rows && !Later(q, r) && !Later(r, q)
  {
    hide Later;
    assert InRace(db, backend, version, true, r, q);
    assert InRace(db, backend, version, true, q, r);
  }

  lemma TiesShareIdentifiers(r: Row, q: Row)
    requires CompareRecency(r, q) <= 0 && CompareRecency(q, r) <= 0
    ensures OrEmpty(r.deploymentId) == OrEmpty(q.deploymentId)
  {
    hide CompareStrings;
    StringPair(OrEmpty(r.lastVerifiedAt), OrEmpty(q.lastVerifiedAt));
    StringPair(OrEmpty(r.deploymentId), OrEmpty(q.deploymentId));
  }

  /** Every judged row of the release, of which there is one, has passed. */
  ghost predicate JudgedPass(db: Database, backend: string, version: string) {
    && (exists r :: Judged(db, backend, version, true, r))
    && forall r | Judged(db, backend, version, true, r) ::
         Given(r.acceptedAt) && r.readiness == Some("READY") && r.blocked != Some(true)
         && r.lastVerificationSucceeded == Some(true)
  }

  lemma FlagMeans(db: Database, backend: string, version: string, p: Row -> bool, flag: bool)
    requires Identified(db) && Flag(db, backend, version, p, flag)
    ensures flag <==> (exists r :: Judged(db, backend, version, true, r))
                      && forall r | Judged(db, backend, version, true, r) :: p(r)
  {
    hide Judged, OneRoute, Identified;
    if flag {
      forall r | Judged(db, backend, version, true, r)
        ensures p(r)
      {
        var q :| Judged(db, backend, version, true, q) && OneRoute(r, q) && p(q);
        JudgedOnce(db, backend, version, r, q);
      }
    }
  }

  lemma FlagsMean(db: Database, backend: string, version: string, a: bool, b: bool, c: bool, d: bool)
    requires Identified(db)
    requires Flag(db, backend, version, WasAccepted, a) && Flag(db, backend, version, ReportsReady, b)
    requires Flag(db, backend, version, MayRun, c) && Flag(db, backend, version, PassedVerification, d)
    ensures a && b && c && d <==> JudgedPass(db, backend, version)
  {
    hide Judged, Flag, Identified;
    FlagMeans(db, backend, version, WasAccepted, a);
    FlagMeans(db, backend, version, ReportsReady, b);
    FlagMeans(db, backend, version, MayRun, c);
    FlagMeans(db, backend, version, PassedVerification, d);
  }

  /** The release that the gate may open for. */
  ghost predicate Activatable(intents: seq<BackendIntent>, db: Database, inventory: Inventory, backend: string,
      version: string) {
    && IntentFor(intents, backend).Some? && IntentFor(intents, backend).value.version == version
    && (exists r :: Of(db, backend, version, r)) && (forall id :: !Missing(db, backend, version, id))
    && JudgedPass(db, backend, version) && Provided(db, inventory, backend, version)
  }

  lemma NoFailuresMean(h: Health)
    ensures Activation.HealthFailures(h) == [] <==>
              Verified(h) && h.allAccepted && h.allReady && h.allUnblocked && h.allVerified && h.missingPairs == []
  {
  }

  /** On the status computed from a database whose deployments have identifiers
      the gate accepts a release exactly when it is activatable. */
  lemma AcceptedInTermsOfRows(intents: seq<BackendIntent>, db: Database, inventory: Inventory, status: Status,
      backend: string, version: string)
    requires StatusView(intents, db, inventory) == Ok(status) && Identified(db)
    ensures Activation.Acceptable(status, backend, version) <==> Activatable(intents, db, inventory, backend, version)
  {
    hide IndexRecords, Statuses, StatusOf, Of, Provided, Identified, IntentFor, Missing, JudgedPass, Shows,
        Activation.Failures;
    var index := IndexRecords(intents, inventory.records).value;
    CleanupSafety.RowForView(intents, db, inventory, index, backend);
    var row := Activation.RowFor(status.backends, backend);
    if row.Some? {
      RowShows(intents, IntentFor(intents, backend).value, db, inventory, index, row.value);
      RowPasses(db, inventory, IntentFor(intents, backend).value, row.value, version);
    }
  }

  lemma RowPasses(db: Database, inventory: Inventory, intent: BackendIntent, row: BackendStatus, version: string)
    requires Shows(db, inventory, intent, row) && Identified(db)
    ensures Activation.Failures(row, version) == [] <==>
              && intent.version == version && (exists r :: Of(db, intent.slug, version, r))
              && (forall id :: !Missing(db, intent.slug, version, id))
              && JudgedPass(db, intent.slug, version) && Provided(db, inventory, intent.slug, version)
  {
    hide Of, Verified, ShowsHealth, RecordIs, Identified, TakesTrafficAt, RollbackTarget, Target, Missing, JudgedPass,
        Restores, WasLeft, Provided, Activation.HealthFailures;
    if version in row.health {
      var record :| RecordIs(inventory.records, Release(intent.slug, version), record)
          && ShowsHealth(db, inventory, record, intent.slug, version, row.health[version]);
      HealthPasses(db, inventory, record, intent.slug, version, row.health[version]);
    }
  }

  lemma HealthPasses(db: Database, inventory: Inventory, record: Option<RetainedRecord>, backend: string,
      version: string, h: Health)
    requires ShowsHealth(db, inventory, record, backend, version, h)
    requires RecordIs(inventory.records, Release(backend, version), record) && Identified(db)
    ensures Activation.HealthFailures(h) == [] <==>
              && (forall id :: !Missing(db, backend, version, id))
              && JudgedPass(db, backend, version) && Provided(db, inventory, backend, version)
  {
    hide Of, Provided, Verified, ShowsHealth, RecordIs, Identified, Missing, JudgedPass, Flag,
        Activation.HealthFailures;
    VerifiedMeans(db, inventory, record, backend, version, h);
    HealthFlags(db, inventory, record, backend, version, h);
    FlagsMean(db, backend, version, h.allAccepted, h.allReady, h.allUnblocked, h.allVerified);
    NoFailuresMean(h);
  }

  lemma HealthFlags(db: Database, inventory: Inventory, record: Option<RetainedRecord>, backend: string,
      version: string, h: Health)
    requires ShowsHealth(db, inventory, record, backend, version, h)
    ensures Flag(db, backend, version, WasAccepted, h.allAccepted)
    ensures Flag(db, backend, version, ReportsReady, h.allReady)
    ensures Flag(db, backend, version, MayRun, h.allUnblocked)
    ensures Flag(db, backend, version, PassedVerification, h.allVerified)
    ensures h.missingPairs == [] <==> forall id :: !Missing(db, backend, version, id)
  {
    hide Flag, Carries, Missing, Listed, Of;
    assert h.missingPairs != [] ==> h.missingPairs[0] in h.missingPairs;
  }
}
