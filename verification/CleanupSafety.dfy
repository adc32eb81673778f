/** What carrying out a cleanup plan can and cannot change: no routed release is
    deleted, no retained resource is touched, the active and rollback releases
    stay, and a second plan has nothing left to delete. */
module CleanupSafety {
  import opened Wrappers
  import opened Orders
  import opened ProviderNames
  import opened Releases
  import opened ReleaseStatus
  import opened CleanupPlan
  import opened Activation
  import Strings

  // ---- a routed release is never deleted ----------------------------------

  lemma {:induction false} RowForView(intents: seq<BackendIntent>, db: Database, inventory: Inventory,
      index: RecordIndex, backend: string)
    requires Statuses(intents, db, inventory, index).Ok?
    ensures var row := RowFor(Statuses(intents, db, inventory, index).value, backend);
            var intent := IntentFor(intents, backend);
            && (row.Some? <==> intent.Some?)
            && (row.Some? ==>
                  intent.value.slug == backend && StatusOf(intent.value, db, inventory, index) == Ok(row.value))
  {
    hide StatusOf;
    if intents != [] {
      var front, last := intents[..|intents| - 1], intents[|intents| - 1];
      RowForView(front, db, inventory, index, backend);
      StatusKeepsSlug(last, db, inventory, index);
      var rows := Statuses(intents, db, inventory, index).value;
      assert rows[..|rows| - 1] == Statuses(front, db, inventory, index).value;
    }
  }

  lemma StatusKeepsSlug(intent: BackendIntent, db: Database, inventory: Inventory, index: RecordIndex)
    requires StatusOf(intent, db, inventory, index).Ok?
    ensures StatusOf(intent, db, inventory, index).value.backend == intent.slug
  {
    hide HealthTable, ActiveRelease, RollbackRelease, SemVers.Parse;
  }

  lemma UnknownBackendIsRetained(version: string, rows: seq<Row>, now: int, drainDays: int)
    ensures RecordMissing in Reasons(None, version, rows, now, drainDays)
  {
    hide RowReasons, DrainReason;
    assert RecordMissing in RecordReason(None);
    assert RecordMissing in HealthReasons(None);
  }

  lemma RoutedIsNeverDeleted(intents: seq<BackendIntent>, db: Database, inventory: Inventory, status: Status, now: int,
      drainDays: int, key: Release)
    requires StatusView(intents, db, inventory) == Ok(status)
    requires exists r :: r in db.rows && key.Has(r) && Routed(r)
    ensures !Deleted(PlanView(status, db, now, drainDays), key)
  {
    hide Statuses, IndexRecords, PlanView, HealthTable, RollbackRelease, SemVers.Parse, RolledBackVersions, RowReasons,
        HealthReasons, DrainReason, Filter, ActiveRelease;
    var index := IndexRecords(intents, inventory.records).value;
    RowForView(intents, db, inventory, index, key.backend);
    PlanPartitions(status, db, now, drainDays, key);
    var row := RowFor(status.backends, key.backend);
    if row.None? {
      UnknownBackendIsRetained(key.version, Filter(key.Has, db.rows), now, drainDays);
    } else {
      var rows := Filter(Backend(key.backend).Has, db.rows);
      FilterMembers(Backend(key.backend).Has, db.rows);
      ActiveReleaseMeans(rows);
      assert row.value.active == Some(key.version);
    }
  }

  // ---- resources ----------------------------------------------------------

  function KindName(kind: string): string {
    if kind == SERVICE then "service" else "job"
  }

  /** Provider slugs of the backends of an inventory. */
  function SlugTable(intents: seq<BackendIntent>): map<string, string> {
    if intents == [] then map[]
    else SlugTable(intents[..|intents| - 1])[intents[|intents| - 1].slug := intents[|intents| - 1].providerSlug]
  }

  /** The resource of a row, a bare name or a full provider path, is the one the
      planner's own naming gives its backend, plain version and kind. */
  predicate NamedRow(slugs: map<string, string>, stage: string, r: Row) {
    && r.backend in slugs && PlainVersion(r.version)
    && r.resource.Some?
    && ProviderResourceName(slugs[r.backend], r.version, KindName(r.kind), stage)
        == Ok(Strings.LastSegment(r.resource.value, '/'))
  }

  ghost predicate Injective(slugs: map<string, string>) {
    forall b, c | b in slugs && c in slugs && slugs[b] == slugs[c] :: b == c
  }

  /** Two rows of different releases never share a resource, nor the last
      segment of its path. */
  lemma ResourcesDisjoint(slugs: map<string, string>, stage: string, r: Row, s: Row)
    requires stage == "prod" || stage == "staging"
    requires Injective(slugs) && NamedRow(slugs, stage, r) && NamedRow(slugs, stage, s)
    requires Strings.LastSegment(r.resource.value, '/') == Strings.LastSegment(s.resource.value, '/')
    ensures r.backend == s.backend && r.version == s.version
  {
    hide ProviderResourceName, PlainVersion, Strings.LastSegment;
    NameInjective(slugs[r.backend], r.version, KindName(r.kind), slugs[s.backend], s.version, KindName(s.kind), stage);
  }

  /** No resource on the delete list belongs to a retained release. */
  lemma DeletedResourcesAreUnused(status: Status, db: Database, now: int, drainDays: int, slugs: map<string, string>,
      stage: string, item: Item, kept: Retained, x: string, y: string)
    requires stage == "prod" || stage == "staging"
    requires Injective(slugs) && forall r | r in db.rows :: NamedRow(slugs, stage, r)
    requires item in PlanView(status, db, now, drainDays).delete && kept in PlanView(status, db, now, drainDays).retain
    requires x in item.resources && y in kept.item.resources
    ensures Strings.LastSegment(x, '/') != Strings.LastSegment(y, '/')
  {
    hide NamedRow, ReasonsFor, SortedKeys, SortedSet, Strings.LastSegment, Filter, Resources;
    ListsMembers(status, db, SortedKeys(db), now, drainDays);
    ItemResource(db, item.key, x);
    ItemResource(db, kept.item.key, y);
    var r :| r in db.rows && item.key.Has(r) && r.resource == Some(x);
    var s :| s in db.rows && kept.item.key.Has(s) && s.resource == Some(y);
    NamedRowHasResource(slugs, stage, r);
    if Strings.LastSegment(x, '/') == Strings.LastSegment(y, '/') {
      ResourcesDisjoint(slugs, stage, r, s);
    }
  }

  lemma NamedRowHasResource(slugs: map<string, string>, stage: string, r: Row)
    requires NamedRow(slugs, stage, r)
    ensures Truthy(r.resource)
  {
    hide ProviderResourceName, PlainVersion, Strings.LastSegment;
    NamesAreBounded(slugs[r.backend], r.version, KindName(r.kind), stage);
    NoSegments();
  }

  lemma NoSegments()
    ensures Strings.LastSegment("", '/') == ""
  {
    Strings.PartitionUnique("", '/', "");
  }

  lemma ItemResource(db: Database, key: Release, x: string)
    requires x in ItemFor(db, key).resources
    ensures exists r :: r in db.rows && key.Has(r) && r.resource == Some(x)
  {
    hide SortedSet, Filter, Resources;
    var rows := Filter(key.Has, db.rows);
    StringsTotal();
    SortedSetSorts(CompareStrings, Resources(rows));
    ResourcesMembers(rows);
    FilterMembers(key.Has, db.rows);
  }

  /** The inventory loader guarantees the distinct slugs this rests on. */
  lemma InventorySlugsInjective(released: seq<RawBackend>)
    requires Admissible(ProviderNames.WellFormed, released)
    ensures Injective(SlugTable(Intents(released)))
  {
    hide ProviderNames.WellFormed;
    var intents := Intents(released);
    AdmissibleMeans(ProviderNames.WellFormed, released);
    IntentsMembers(released);
    forall b, c | b in SlugTable(intents) && c in SlugTable(intents) && SlugTable(intents)[b] == SlugTable(intents)[c]
      ensures b == c
    {
      SlugTableMember(intents, b);
      SlugTableMember(intents, c);
    }
  }

  lemma {:induction false} SlugTableMember(intents: seq<BackendIntent>, slug: string)
    requires slug in SlugTable(intents)
    ensures exists i :: 0 <= i < |intents|
                        && intents[i].slug == slug && intents[i].providerSlug == SlugTable(intents)[slug]
  {
    if intents[|intents| - 1].slug != slug {
      var front := intents[..|intents| - 1];
      SlugTableMember(front, slug);
      var i :| 0 <= i < |front| && front[i].slug == slug && front[i].providerSlug == SlugTable(front)[slug];
      assert intents[i] == front[i];
    }
  }

  // ---- carrying out a plan ------------------------------------------------

  /** Marking the rows of the deleted releases retired. */
  function RetireRow(r: Row, gone: set<Release>, stamp: string): Row {
    if Release(r.backend, r.version) in gone then r.(retiredAt := Some(stamp)) else r
  }

  function RetireRows(rows: seq<Row>, gone: set<Release>, stamp: string): (r: seq<Row>)
    ensures |r| == |rows|
    ensures forall i | 0 <= i < |rows| :: r[i] == RetireRow(rows[i], gone, stamp)
  {
    if rows == [] then []
    else RetireRows(rows[..|rows| - 1], gone, stamp) + [RetireRow(rows[|rows| - 1], gone, stamp)]
  }

  function Retire(db: Database, gone: set<Release>, stamp: string): Database {
    db.(rows := RetireRows(db.rows, gone, stamp))
  }

  /** The names of a provider listing that a plan's deletions leave. */
  datatype Cleanup = Cleanup(resources: set<string>) {
    predicate Leaves(name: string) {
      forall x | x in resources :: name != x && name != Strings.LastSegment(x, '/')
    }
  }

  function Drop(inventory: Inventory, resources: set<string>): Inventory {
    inventory.(cloud := if inventory.cloud.None? then None
        else Some(Filter(Cleanup(resources).Leaves, inventory.cloud.value)))
  }

  function Gone(plan: Plan): set<Release> {
    set item | item in plan.delete :: item.key
  }

  function GoneResources(plan: Plan): set<string> {
    set item, x | item in plan.delete && x in item.resources :: x
  }

  lemma {:induction false} FilterRetired(has: Row -> bool, rows: seq<Row>, gone: set<Release>, stamp: string)
    requires forall r :: has(RetireRow(r, gone, stamp)) <==> has(r)
    ensures Filter(has, RetireRows(rows, gone, stamp)) == RetireRows(Filter(has, rows), gone, stamp)
  {
    if rows != [] {
      var front, last := rows[..|rows| - 1], rows[|rows| - 1];
      FilterRetired(has, front, gone, stamp);
      var after := RetireRows(rows, gone, stamp);
      assert after[..|after| - 1] == RetireRows(front, gone, stamp);
      if has(last) {
        RetireNext(Filter(has, front), last, gone, stamp);
      }
    }
  }

  lemma RetireNext(rows: seq<Row>, last: Row, gone: set<Release>, stamp: string)
    ensures RetireRows(rows + [last], gone, stamp) == RetireRows(rows, gone, stamp) + [RetireRow(last, gone, stamp)]
  {
    assert (rows + [last])[..|rows|] == rows;
  }

  /** The rows of a release that stays are untouched; those of a deleted one
      are all retired. */
  lemma GroupAfter(db: Database, gone: set<Release>, stamp: string, key: Release)
    ensures key !in gone ==> Filter(key.Has, Retire(db, gone, stamp).rows) == Filter(key.Has, db.rows)
    ensures key in gone ==> forall r | r in Filter(key.Has, Retire(db, gone, stamp).rows) :: r.retiredAt == Some(stamp)
    ensures |Filter(key.Has, Retire(db, gone, stamp).rows)| == |Filter(key.Has, db.rows)|
  {
    hide Filter;
    var rows := Filter(key.Has, db.rows);
    FilterRetired(key.Has, db.rows, gone, stamp);
    FilterMembers(key.Has, db.rows);
    forall i | 0 <= i < |rows|
      ensures RetireRows(rows, gone, stamp)[i] == if key in gone then rows[i].(retiredAt := Some(stamp)) else rows[i] {
      assert rows[i] in rows;
    }
  }

  lemma ActiveAfter(rows: seq<Row>, gone: set<Release>, stamp: string)
    requires ActiveRelease(rows).Ok?
    ensures ActiveRelease(RetireRows(rows, gone, stamp)) == ActiveRelease(rows)
  {
    hide Filter;
    var routed, after := Filter(Routed, rows), Filter(Routed, RetireRows(rows, gone, stamp));
    FilterRetired(Routed, rows, gone, stamp);
    if routed != [] {
      forall r | r in after ensures r.version == after[0].version {
        var i :| 0 <= i < |after| && after[i] == r;
        assert routed[i] in routed;
        assert after[i] == RetireRow(routed[i], gone, stamp) && after[0] == RetireRow(routed[0], gone, stamp);
      }
    }
  }

  lemma {:induction false} VersionsAfter(rows: seq<Row>, gone: set<Release>, stamp: string)
    ensures Versions(RetireRows(rows, gone, stamp)) == Versions(rows)
  {
    if rows != [] {
      VersionsAfter(rows[..|rows| - 1], gone, stamp);
      var after := RetireRows(rows, gone, stamp);
      assert after[..|after| - 1] == RetireRows(rows[..|rows| - 1], gone, stamp);
    }
  }

  lemma {:induction false} DeploymentAfter(rows: seq<Row>, gone: set<Release>, stamp: string, id: string)
    ensures var d, e := Deployment(rows, id), Deployment(RetireRows(rows, gone, stamp), id);
            && (d.Some? <==> e.Some?)
            && (d.Some? ==> e.value == RetireRow(d.value, gone, stamp))
  {
    if rows != [] {
      DeploymentAfter(rows[..|rows| - 1], gone, stamp, id);
      var after := RetireRows(rows, gone, stamp);
      assert after[..|after| - 1] == RetireRows(rows[..|rows| - 1], gone, stamp);
    }
  }

  lemma RowsRolledBackAfter(rows: seq<Row>, gone: set<Release>, stamp: string, backend: string)
    ensures RolledBackByRows(RetireRows(rows, gone, stamp), backend) == RolledBackByRows(rows, backend)
  {
    var after := RetireRows(rows, gone, stamp);
    forall v
      ensures v in RolledBackByRows(after, backend) <==> v in RolledBackByRows(rows, backend)
    {
      if v in RolledBackByRows(rows, backend) {
        var i :| 0 <= i < |rows| && RowRolledBack(rows[i], backend) && rows[i].version == v;
        assert after[i] in after && RowRolledBack(after[i], backend);
      }
      if v in RolledBackByRows(after, backend) {
        var i :| 0 <= i < |rows| && RowRolledBack(after[i], backend) && after[i].version == v;
        assert rows[i] in rows && RowRolledBack(rows[i], backend);
      }
    }
  }

  lemma RolledBackAfter(db: Database, gone: set<Release>, stamp: string, backend: string)
    ensures RolledBackVersions(Retire(db, gone, stamp), backend) == RolledBackVersions(db, backend)
  {
    hide Deployment, RolledBackByRows;
    var after := Retire(db, gone, stamp);
    RowsRolledBackAfter(db.rows, gone, stamp, backend);
    forall e | e in db.events
      ensures EventRolledBack(e, after.rows, backend) <==> EventRolledBack(e, db.rows, backend)
      ensures EventRolledBack(e, db.rows, backend) ==>
                Deployment(after.rows, e.deploymentId).value.version
                    == Deployment(db.rows, e.deploymentId).value.version
    {
      DeploymentAfter(db.rows, gone, stamp, e.deploymentId);
    }
  }

  // ---- the rollback choice survives ---------------------------------------

  /** Dropping candidates other than the chosen one does not change the choice. */
  lemma {:induction false} TopSurvives(p: string -> bool, kept: string -> bool, s: seq<string>)
    requires forall v | v in s :: kept(v) ==> p(v)
    requires forall v | v in s && p(v) :: SemVers.Parse(v).Some?
    requires Filter(p, s) != [] && kept(Top(Filter(p, s)))
    ensures Filter(kept, s) != [] && Top(Filter(kept, s)) == Top(Filter(p, s))
  {
    hide Outranks, SemVers.Parse, Top;
    var front, last := s[..|s| - 1], s[|s| - 1];
    assert s == front + [last];
    FilterMembers(p, front);
    FilterMembers(kept, front);
    var was, now := Filter(p, front), Filter(kept, front);
    if !p(last) {
      TopSurvives(p, kept, front);
    } else if was == [] {
      assert now == [] by { FirstIsMember(now); }
      assert Filter(p, s) == [last];
      assert Filter(kept, s) == Filter(p, s) by { TopOfAppended([], last); assert [] + [last] == [last]; }
    } else {
      assert Filter(p, s) == was + [last];
      TopOfAppended(was, last);
      if Top(Filter(p, s)) == last && Outranks(last, Top(was)) {
        if now != [] {
          forall i | 0 <= i < |was| ensures SemVers.Parse(was[i]).Some? { assert was[i] in was; }
          TopIsGreatest(was);
          KeysTransitive(last, Top(now), Top(was));
        }
        TopOfAppended(now, last);
      } else {
        TopSurvives(p, kept, front);
        TopOfAppended(now, last);
      }
    }
  }

  lemma FirstIsMember<T>(s: seq<T>)
    ensures s == [] || s[0] in s
  {
  }

  lemma TopOfAppended(s: seq<string>, last: string)
    ensures Top(s + [last]) == if s == [] then last else if Outranks(last, Top(s)) then last else Top(s)
  {
    hide Outranks;
    assert (s + [last])[..|s|] == s;
  }

  /** What is left of a rollback question after the plan is carried out. */
  lemma RestorableAfter(q: RollbackQuery, gone: set<Release>, stamp: string, version: string)
    requires stamp != ""
    requires exists r :: r in q.rows && Release(q.backend, version).Has(r)
    ensures var after := q.(rows := RetireRows(q.rows, gone, stamp));
            after.Restorable(version) == (q.Restorable(version) && Release(q.backend, version) !in gone)
  {
    hide Filter, PairsComplete;
    var key := Release(q.backend, version);
    var db := Database("", q.rows, [], []);
    GroupAfter(db, gone, stamp, key);
    FilterMembers(key.Has, q.rows);
    var group := Filter(key.Has, Retire(db, gone, stamp).rows);
    if key in gone {
      var r :| r in q.rows && key.Has(r);
      assert r in Filter(key.Has, q.rows);
      assert group[0] in group;
    }
  }

  lemma {:induction false} EmptyStaysEmpty<T>(p: T -> bool, kept: T -> bool, s: seq<T>)
    requires forall v | v in s :: kept(v) ==> p(v)
    ensures Filter(p, s) == [] ==> Filter(kept, s) == []
  {
    if s != [] {
      EmptyStaysEmpty(p, kept, s[..|s| - 1]);
      assert s[|s| - 1] in s;
    }
  }

  lemma RollbackAfter(rows: seq<Row>, backend: string, active: Option<string>, rolledBack: set<string>,
      gone: set<Release>, stamp: string)
    requires stamp != ""
    requires forall r | r in rows :: r.backend == backend
    requires RollbackRelease(rows, backend, active, rolledBack).Ok?
    requires var r := RollbackRelease(rows, backend, active, rolledBack).value; r.Some? ==>
              Release(backend, r.value) !in gone
    ensures RollbackRelease(RetireRows(rows, gone, stamp), backend, active, rolledBack)
              == RollbackRelease(rows, backend, active, rolledBack)
  {
    hide Filter, SemVers.Parse, SemVers.Compare, Top, RetireRows;
    if active.Some? {
      var q := RollbackQuery(rows, backend, active.value, rolledBack);
      var after := q.(rows := RetireRows(rows, gone, stamp));
      VersionsAfter(rows, gone, stamp);
      VersionsMembers(rows);
      var versions := Versions(rows);
      hide q.Restorable;
      forall v | v in versions
        ensures after.Restorable(v) == (q.Restorable(v) && Release(backend, v) !in gone)
      {
        var r :| r in rows && r.version == v;
        assert Release(backend, v).Has(r);
        RestorableAfter(q, gone, stamp, v);
      }
      EmptyStaysEmpty(q.Unparseable, after.Unparseable, versions);
      EmptyStaysEmpty(q.Eligible, after.Eligible, versions);
      if Filter(q.Eligible, versions) != [] {
        FilterMembers(q.Eligible, versions);
        TopSurvives(q.Eligible, after.Eligible, versions);
      }
    }
  }

  // ---- the recomputed status and the second plan ---------------------------

  lemma StatusAfter(intent: BackendIntent, db: Database, inventory: Inventory, index: RecordIndex, gone: set<Release>,
      stamp: string, later: Inventory)
    requires stamp != ""
    requires StatusOf(intent, db, inventory, index).Ok?
    requires var v := StatusOf(intent, db, inventory, index).value.rollback; v.Some? ==>
              Release(intent.slug, v.value) !in gone
    ensures StatusOf(intent, Retire(db, gone, stamp), later, index)
         == Ok(StatusOf(intent, db, inventory, index).value
                 .(health := HealthTable(Retire(db, gone, stamp), later, index, intent.slug)))
  {
    hide HealthTable, ActiveRelease, RollbackRelease, SemVers.Parse, Filter, RetireRows, RolledBackVersions;
    var has := Backend(intent.slug).Has;
    var rows := Filter(has, db.rows);
    FilterMembers(has, db.rows);
    FilterRetired(has, db.rows, gone, stamp);
    ActiveAfter(rows, gone, stamp);
    RolledBackAfter(db, gone, stamp, intent.slug);
    RollbackAfter(rows, intent.slug, ActiveRelease(rows).value, RolledBackVersions(db, intent.slug), gone, stamp);
  }

  lemma {:induction false} StatusesAfter(intents: seq<BackendIntent>, db: Database, inventory: Inventory,
      index: RecordIndex, gone: set<Release>, stamp: string, later: Inventory)
    requires stamp != ""
    requires Statuses(intents, db, inventory, index).Ok?
    requires forall row | row in Statuses(intents, db, inventory, index).value :: row.rollback.Some? ==>
              Release(row.backend, row.rollback.value) !in gone
    ensures Statuses(intents, Retire(db, gone, stamp), later, index).Ok?
  {
    hide StatusOf, Retire;
    if intents != [] {
      var front, last := intents[..|intents| - 1], intents[|intents| - 1];
      var rows := Statuses(intents, db, inventory, index).value;
      assert rows[|rows| - 1] in rows && rows[|rows| - 1] == StatusOf(last, db, inventory, index).value;
      StatusKeepsSlug(last, db, inventory, index);
      StatusAfter(last, db, inventory, index, gone, stamp, later);
      assert forall i | 0 <= i < |rows| - 1 :: Statuses(front, db, inventory, index).value[i] == rows[i];
      StatusesAfter(front, db, inventory, index, gone, stamp, later);
    }
  }

  /** Two status rows of one backend name the same rollback release. */
  lemma SameSlugSameRollback(a: BackendIntent, b: BackendIntent, db: Database, inventory: Inventory, index: RecordIndex)
    requires a.slug == b.slug && StatusOf(a, db, inventory, index).Ok? && StatusOf(b, db, inventory, index).Ok?
    ensures StatusOf(a, db, inventory, index).value.rollback == StatusOf(b, db, inventory, index).value.rollback
  {
    hide HealthTable, ActiveRelease, RollbackRelease, SemVers.Parse, Filter, RolledBackVersions;
  }

  lemma GoneMeansDeleted(plan: Plan, key: Release)
    ensures key in Gone(plan) <==> Deleted(plan, key)
  {
    assert forall i | 0 <= i < |plan.delete| :: plan.delete[i] in plan.delete;
  }

  lemma RollbackIsNotGone(intents: seq<BackendIntent>, db: Database, inventory: Inventory, status: Status, now: int,
      drainDays: int)
    requires StatusView(intents, db, inventory) == Ok(status)
    ensures forall row | row in status.backends :: row.rollback.Some? ==>
              Release(row.backend, row.rollback.value) !in Gone(PlanView(status, db, now, drainDays))
  {
    hide Statuses, StatusOf, PlanView, RowReasons, HealthReasons, DrainReason, Filter, IndexRecords, Gone;
    var index := IndexRecords(intents, inventory.records).value;
    StatusRowsAreViews(intents, db, inventory, index);
    forall row | row in status.backends && row.rollback.Some?
      ensures Release(row.backend, row.rollback.value) !in Gone(PlanView(status, db, now, drainDays))
    {
      var i :| 0 <= i < |status.backends| && status.backends[i] == row;
      var key := Release(row.backend, row.rollback.value);
      StatusKeepsSlug(intents[i], db, inventory, index);
      RowForView(intents, db, inventory, index, row.backend);
      RowForHit(status.backends, i);
      SameSlugSameRollback(intents[i], IntentFor(intents, row.backend).value, db, inventory, index);
      GoneMeansDeleted(PlanView(status, db, now, drainDays), key);
      PlanPartitions(status, db, now, drainDays, key);
      assert IsRollback in ReasonsFor(status, db, key, now, drainDays);
    }
  }

  lemma {:induction false} RowForHit(rows: seq<BackendStatus>, i: nat)
    requires i < |rows|
    ensures RowFor(rows, rows[i].backend).Some?
  {
    if rows[|rows| - 1].backend != rows[i].backend {
      RowForHit(rows[..|rows| - 1], i);
    }
  }

  /** Health of a release that stays: only the presence of its provider
      resources can change, and only for the worse. */
  lemma HealthAfter(db: Database, inventory: Inventory, index: RecordIndex, gone: set<Release>, stamp: string,
      resources: set<string>, key: Release)
    requires key !in gone
    ensures var h := ReleaseHealth(db, inventory, index, key);
            var later := ReleaseHealth(Retire(db, gone, stamp), Drop(inventory, resources), index, key);
            && later == h.(resourcesPresent := later.resourcesPresent)
            && (later.resourcesPresent == Some(true) ==> h.resourcesPresent == Some(true))
            && ((forall r | r in db.rows && key.Has(r) ::
                Cleanup(resources).Leaves(Str(r.resource))
                    && Cleanup(resources).Leaves(Strings.LastSegment(Str(r.resource), '/')))
                ==> later == h)
  {
    hide Filter, Selected, MissingPairs, SortedSet, ExpectedIds, ResourceSeen, Every, RecordDigests, ImageDigests;
    GroupAfter(db, gone, stamp, key);
    FilterMembers(key.Has, db.rows);
    if inventory.cloud.Some? {
      forall r
        ensures ResourceSeen(r, Drop(inventory, resources).cloud.value) ==> ResourceSeen(r, inventory.cloud.value)
        ensures Cleanup(resources).Leaves(Str(r.resource))
                  && Cleanup(resources).Leaves(Strings.LastSegment(Str(r.resource), '/')) ==>
                  ResourceSeen(r, Drop(inventory, resources).cloud.value) == ResourceSeen(r, inventory.cloud.value)
      {
        SeenAfter(r, inventory.cloud.value, resources);
      }
    }
  }

  lemma SeenAfter(r: Row, names: seq<string>, resources: set<string>)
    ensures ResourceSeen(r, Filter(Cleanup(resources).Leaves, names)) ==> ResourceSeen(r, names)
    ensures Cleanup(resources).Leaves(Str(r.resource))
              && Cleanup(resources).Leaves(Strings.LastSegment(Str(r.resource), '/')) ==>
              ResourceSeen(r, Filter(Cleanup(resources).Leaves, names)) == ResourceSeen(r, names)
  {
    hide Filter, Strings.LastSegment;
    FilterMembers(Cleanup(resources).Leaves, names);
  }

  lemma ReasonsSurvive(h: Health, later: Health)
    requires later == h.(resourcesPresent := later.resourcesPresent)
    requires later.resourcesPresent == Some(true) ==> h.resourcesPresent == Some(true)
    requires HealthReasons(Some(h)) != []
    ensures HealthReasons(Some(later)) != []
  {
  }

  /** The state after a plan is carried out: rows retired, resources dropped. */
  function AfterDb(db: Database, plan: Plan, stamp: string): Database {
    Retire(db, Gone(plan), stamp)
  }

  function AfterInventory(inventory: Inventory, plan: Plan): Inventory {
    Drop(inventory, GoneResources(plan))
  }

  /** The recomputed status exists and names the same active and rollback
      releases for every backend. */
  lemma CleanupKeepsReleases(intents: seq<BackendIntent>, db: Database, inventory: Inventory, status: Status, now: int,
      drainDays: int, stamp: string, backend: string)
    requires StatusView(intents, db, inventory) == Ok(status) && stamp != ""
    ensures var plan := PlanView(status, db, now, drainDays);
            var later := StatusView(intents, AfterDb(db, plan, stamp), AfterInventory(inventory, plan));
            && later.Ok?
            && var row, next := RowFor(status.backends, backend), RowFor(later.value.backends, backend);
               && row.Some? == next.Some?
               && (row.Some? ==> next.value.active == row.value.active && next.value.rollback == row.value.rollback
                                 && next.value.fileVersion == row.value.fileVersion)
  {
    hide Statuses, StatusOf, PlanView, IndexRecords, Retire, Gone, GoneResources, HealthTable;
    var plan := PlanView(status, db, now, drainDays);
    var index := IndexRecords(intents, inventory.records).value;
    assert (AfterInventory(inventory, plan)).records == inventory.records;
    assert AfterDb(db, plan, stamp).schemaVersion == db.schemaVersion by { RetireKeepsSchema(db, Gone(plan), stamp); }
    RollbackIsNotGone(intents, db, inventory, status, now, drainDays);
    StatusesAfter(intents, db, inventory, index, Gone(plan), stamp, AfterInventory(inventory, plan));
    RowForView(intents, db, inventory, index, backend);
    RowForView(intents, AfterDb(db, plan, stamp), AfterInventory(inventory, plan), index, backend);
    if RowFor(status.backends, backend).Some? {
      var row := RowFor(status.backends, backend).value;
      RowIsListed(status.backends, backend);
      StatusKeepsSlug(IntentFor(intents, backend).value, db, inventory, index);
      StatusAfter(IntentFor(intents, backend).value, db, inventory, index, Gone(plan), stamp,
          AfterInventory(inventory, plan));
    }
  }

  lemma RetireKeepsSchema(db: Database, gone: set<Release>, stamp: string)
    ensures Retire(db, gone, stamp).schemaVersion == db.schemaVersion
              && Retire(db, gone, stamp).validators == db.validators
  {
    hide RetireRows;
  }

  lemma {:induction false} RowIsListed(rows: seq<BackendStatus>, backend: string)
    requires RowFor(rows, backend).Some?
    ensures RowFor(rows, backend).value in rows
  {
    RowForMember(rows, backend);
  }

  /** The health block a status holds for a release, before and after. */
  lemma HealthForAfter(intents: seq<BackendIntent>, db: Database, inventory: Inventory, status: Status, now: int,
      drainDays: int, stamp: string, key: Release)
    requires StatusView(intents, db, inventory) == Ok(status) && stamp != ""
    requires key !in Gone(PlanView(status, db, now, drainDays))
    ensures var plan := PlanView(status, db, now, drainDays);
            var later := StatusView(intents, AfterDb(db, plan, stamp), AfterInventory(inventory, plan));
            && later.Ok?
            && var h, next := HealthFor(RowFor(status.backends, key.backend), key.version),
                HealthFor(RowFor(later.value.backends, key.backend), key.version);
               var index := IndexRecords(intents, inventory.records).value;
               && h.Some? == next.Some?
               && (h.Some? ==> h.value == ReleaseHealth(db, inventory, index, key)
                               && next.value == ReleaseHealth(AfterDb(db, plan, stamp),
                                   AfterInventory(inventory, plan), index, key))
  {
    hide Statuses, PlanView, IndexRecords, RetireRows, Gone, GoneResources, ReleaseHealth, RollbackRelease,
        ActiveRelease, SemVers.Parse, Filter, RolledBackVersions, Versions;
    var plan := PlanView(status, db, now, drainDays);
    var index := IndexRecords(intents, inventory.records).value;
    CleanupKeepsReleases(intents, db, inventory, status, now, drainDays, stamp, key.backend);
    RowForView(intents, db, inventory, index, key.backend);
    RowForView(intents, AfterDb(db, plan, stamp), AfterInventory(inventory, plan), index, key.backend);
    FilterRetired(Backend(key.backend).Has, db.rows, Gone(plan), stamp);
    VersionsAfter(Filter(Backend(key.backend).Has, db.rows), Gone(plan), stamp);
  }

  lemma RecordsIndexed(intents: seq<BackendIntent>, db: Database, inventory: Inventory)
    requires StatusView(intents, db, inventory).Ok?
    ensures IndexRecords(intents, inventory.records).Ok?
  {
    hide Statuses, IndexRecords;
  }

  /** A release that stays keeps being retained. */
  lemma StaysRetained(intents: seq<BackendIntent>, db: Database, inventory: Inventory, status: Status, now: int,
      drainDays: int, stamp: string, key: Release)
    requires StatusView(intents, db, inventory) == Ok(status) && stamp != ""
    requires key !in Gone(PlanView(status, db, now, drainDays)) && ReasonsFor(status, db, key, now, drainDays) != []
    ensures var plan := PlanView(status, db, now, drainDays);
            var later := StatusView(intents, AfterDb(db, plan, stamp), AfterInventory(inventory, plan));
            later.Ok? && ReasonsFor(later.value, AfterDb(db, plan, stamp), key, now, drainDays) != []
  {
    hide StatusView, PlanView, IndexRecords, Gone, GoneResources, RowReasons, DrainReason, HealthReasons, RowFor,
        ReleaseHealth, Filter, Retire;
    var plan := PlanView(status, db, now, drainDays);
    RecordsIndexed(intents, db, inventory);
    var index := IndexRecords(intents, inventory.records).value;
    CleanupKeepsReleases(intents, db, inventory, status, now, drainDays, stamp, key.backend);
    HealthForAfter(intents, db, inventory, status, now, drainDays, stamp, key);
    HealthAfter(db, inventory, index, Gone(plan), stamp, GoneResources(plan), key);
    GroupAfter(db, Gone(plan), stamp, key);
    var h := HealthFor(RowFor(status.backends, key.backend), key.version);
    if h.Some? && HealthReasons(h) != [] {
      ReasonsSurvive(h.value, ReleaseHealth(AfterDb(db, plan, stamp), AfterInventory(inventory, plan), index, key));
    }
  }

  /** Cleanup is stable: after a plan is carried out, a second plan made at the
      same moment from the recomputed status deletes nothing. */
  lemma SecondPlanDeletesNothing(intents: seq<BackendIntent>, db: Database, inventory: Inventory, status: Status,
      now: int, drainDays: int, stamp: string)
    requires StatusView(intents, db, inventory) == Ok(status) && stamp != ""
    ensures var plan := PlanView(status, db, now, drainDays);
            var later := StatusView(intents, AfterDb(db, plan, stamp), AfterInventory(inventory, plan));
            later.Ok? && PlanView(later.value, AfterDb(db, plan, stamp), now, drainDays).delete == []
  {
    hide StatusView, PlanView, Gone, GoneResources, ReasonsFor, Filter;
    var plan := PlanView(status, db, now, drainDays);
    CleanupKeepsReleases(intents, db, inventory, status, now, drainDays, stamp, "");
    var later := StatusView(intents, AfterDb(db, plan, stamp), AfterInventory(inventory, plan)).value;
    var second := PlanView(later, AfterDb(db, plan, stamp), now, drainDays);
    if second.delete != [] {
      var key := second.delete[0].key;
      assert Deleted(second, key);
      PlanPartitions(later, AfterDb(db, plan, stamp), now, drainDays, key);
      PlanPartitions(status, db, now, drainDays, key);
      GoneMeansDeleted(plan, key);
      PresentBefore(db, Gone(plan), stamp, key);
      if key in Gone(plan) {
        GoneIsRetired(later, db, Gone(plan), stamp, key, now, drainDays);
      } else {
        StaysRetained(intents, db, inventory, status, now, drainDays, stamp, key);
      }
      assert false;
    }
  }

  lemma PresentBefore(db: Database, gone: set<Release>, stamp: string, key: Release)
    requires exists r :: r in Retire(db, gone, stamp).rows && key.Has(r)
    ensures exists r :: r in db.rows && key.Has(r)
  {
    var after := Retire(db, gone, stamp).rows;
    var i :| 0 <= i < |after| && key.Has(after[i]);
    assert db.rows[i] in db.rows && key.Has(db.rows[i]);
  }

  lemma GoneIsRetired(status: Status, db: Database, gone: set<Release>, stamp: string, key: Release, now: int,
      drainDays: int)
    requires key in gone && stamp != ""
    requires exists r :: r in Retire(db, gone, stamp).rows && key.Has(r)
    ensures ReasonsFor(status, Retire(db, gone, stamp), key, now, drainDays) != []
  {
    hide Filter, Retire, HealthReasons, DrainReason, PairsComplete, RowFor;
    var after := Retire(db, gone, stamp);
    GroupAfter(db, gone, stamp, key);
    FilterMembers(key.Has, after.rows);
    var r :| r in after.rows && key.Has(r);
    assert r in Filter(key.Has, after.rows) && Retired(r);
    assert AlreadyRetired in RowReasons(Filter(key.Has, after.rows));
  }

  /** When every resource carries the planner's own name, carrying out the plan
      changes nothing at all about why each other release is retained. */
  lemma RetainedReasonsUnchanged(intents: seq<BackendIntent>, db: Database, inventory: Inventory, status: Status,
      now: int, drainDays: int, stamp: string, slugs: map<string, string>, stage: string, kept: Retained)
    requires StatusView(intents, db, inventory) == Ok(status) && stamp != ""
    requires stage == "prod" || stage == "staging"
    requires Injective(slugs) && forall r | r in db.rows :: NamedRow(slugs, stage, r)
    requires kept in PlanView(status, db, now, drainDays).retain
    ensures var plan := PlanView(status, db, now, drainDays);
            var later := StatusView(intents, AfterDb(db, plan, stamp), AfterInventory(inventory, plan));
            later.Ok? && ReasonsFor(later.value, AfterDb(db, plan, stamp), kept.item.key, now, drainDays)
                == kept.reasons
  {
    hide StatusView, IndexRecords, Gone, RowReasons, DrainReason, HealthReasons, RowFor, ReleaseHealth, Filter, Retire,
        NamedRow, SortedKeys, Deletions, Retentions, GoneResources;
    var plan := PlanView(status, db, now, drainDays);
    var key := kept.item.key;
    RecordsIndexed(intents, db, inventory);
    var index := IndexRecords(intents, inventory.records).value;
    ListsMembers(status, db, SortedKeys(db), now, drainDays);
    NotGone(status, db, now, drainDays, kept);
    CleanupKeepsReleases(intents, db, inventory, status, now, drainDays, stamp, key.backend);
    HealthForAfter(intents, db, inventory, status, now, drainDays, stamp, key);
    KeptNamesLeft(status, db, now, drainDays, slugs, stage, kept);
    HealthAfter(db, inventory, index, Gone(plan), stamp, GoneResources(plan), key);
    GroupAfter(db, Gone(plan), stamp, key);
  }

  lemma NotGone(status: Status, db: Database, now: int, drainDays: int, kept: Retained)
    requires kept in PlanView(status, db, now, drainDays).retain
    ensures kept.item.key !in Gone(PlanView(status, db, now, drainDays))
  {
    hide PlanView, ReasonsFor, Filter, Gone;
    var plan := PlanView(status, db, now, drainDays);
    var i :| 0 <= i < |plan.retain| && plan.retain[i] == kept;
    assert Kept(plan, kept.item.key);
    PlanPartitions(status, db, now, drainDays, kept.item.key);
    GoneMeansDeleted(plan, kept.item.key);
  }

  lemma KeptNamesLeft(status: Status, db: Database, now: int, drainDays: int, slugs: map<string, string>,
      stage: string, kept: Retained)
    requires stage == "prod" || stage == "staging"
    requires Injective(slugs) && forall r | r in db.rows :: NamedRow(slugs, stage, r)
    requires kept in PlanView(status, db, now, drainDays).retain
    ensures var resources := GoneResources(PlanView(status, db, now, drainDays));
            forall r | r in db.rows && kept.item.key.Has(r) ::
              Cleanup(resources).Leaves(Str(r.resource))
                  && Cleanup(resources).Leaves(Strings.LastSegment(Str(r.resource), '/'))
  {
    hide PlanView, NamedRow, Strings.LastSegment, Filter;
    var plan := PlanView(status, db, now, drainDays);
    forall r, x | r in db.rows && kept.item.key.Has(r) && x in GoneResources(plan)
      ensures Str(r.resource) != x && Str(r.resource) != Strings.LastSegment(x, '/')
      ensures Strings.LastSegment(Str(r.resource), '/') != x
                && Strings.LastSegment(Str(r.resource), '/') != Strings.LastSegment(x, '/')
    {
      NamedRowHasResource(slugs, stage, r);
      var item :| item in plan.delete && x in item.resources;
      KeptResource(status, db, now, drainDays, kept, r);
      DeletedResourcesAreUnused(status, db, now, drainDays, slugs, stage, item, kept, x, r.resource.value);
      LastSegmentTwice(x);
      LastSegmentTwice(r.resource.value);
    }
  }

  lemma LastSegmentTwice(s: string)
    ensures Strings.LastSegment(Strings.LastSegment(s, '/'), '/') == Strings.LastSegment(s, '/')
  {
    var last := Strings.LastSegment(s, '/');
    Strings.SplitParts(s, '/');
    Strings.PartitionUnique(last, '/', "");
  }

  lemma KeptResource(status: Status, db: Database, now: int, drainDays: int, kept: Retained, r: Row)
    requires kept in PlanView(status, db, now, drainDays).retain
    requires r in db.rows && kept.item.key.Has(r) && Truthy(r.resource)
    ensures r.resource.value in kept.item.resources
  {
    hide ReasonsFor, SortedSet, Filter, Resources, SortedKeys;
    ListsMembers(status, db, SortedKeys(db), now, drainDays);
    var rows := Filter(kept.item.key.Has, db.rows);
    FilterMembers(kept.item.key.Has, db.rows);
    ResourcesMembers(rows);
    StringsTotal();
    SortedSetSorts(CompareStrings, Resources(rows));
  }
}
