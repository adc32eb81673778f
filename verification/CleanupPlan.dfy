/** The cleanup planner: which releases it deletes and why it retains the others. */
module CleanupPlan {
  import opened Wrappers
  import opened Orders
  import opened Releases
  import opened ReleaseStatus
  import Activation

  const DEFAULT_DRAIN_DAYS := 7
  const SECONDS_PER_DAY := 86400

  datatype Reason =
    | IsActive | IsRollback | UnfinishedAttempt | IncompletePair | NotAccepted | AlreadyRetired | WarmService
    | RecordMissing | RecordMismatch | ImageMismatch | ImageUnverified | ProviderDrift
    | NeverInactive | Draining(until: int)

  datatype Item = Item(key: Release, resources: seq<string>)
  datatype Retained = Retained(item: Item, reasons: seq<Reason>)
  datatype Plan = Plan(delete: seq<Item>, retain: seq<Retained>)
  datatype PlanError = DrainTooShort

  function When(condition: bool, reason: Reason): seq<Reason> {
    if condition then [reason] else []
  }

  predicate Unfinished(r: Row) { r.unfinishedAttempts != 0 }
  predicate Warm(r: Row) { r.kind == SERVICE && r.minimumInstances != 0 }

  function RecordReason(health: Option<Health>): seq<Reason> {
    if health.None? || !health.value.recordRetained then [RecordMissing]
    else if !health.value.recordMatches then [RecordMismatch]
    else if !health.value.recordImageMatches then [ImageMismatch]
    else []
  }

  /** The latest deactivation of a group whose rows all have one. */
  function LastDeactivation(rows: seq<Row>): (t: int)
    requires rows != [] && forall r | r in rows :: r.deactivatedAt.Some?
    ensures exists r :: r in rows && r.deactivatedAt == Some(t)
    ensures forall r | r in rows :: r.deactivatedAt.value <= t
  {
    var t := rows[|rows| - 1].deactivatedAt.value;
    if |rows| == 1 then
      assert rows == [rows[0]];
      t
    else
      assert rows == rows[..|rows| - 1] + [rows[|rows| - 1]];
      var front := LastDeactivation(rows[..|rows| - 1]);
      if t > front then t else front
  }

  function DrainReason(rows: seq<Row>, now: int, drainDays: int): seq<Reason> {
    if rows == [] || exists r | r in rows :: r.deactivatedAt.None? then [NeverInactive]
    else
      var until := LastDeactivation(rows) + drainDays * SECONDS_PER_DAY;
      When(now < until, Draining(until))
  }

  function HealthFor(row: Option<BackendStatus>, version: string): Option<Health> {
    if row.Some? && version in row.value.health then Some(row.value.health[version]) else None
  }

  function RowReasons(rows: seq<Row>): seq<Reason> {
    When(exists r | r in rows :: Unfinished(r), UnfinishedAttempt)
    + When(!PairsComplete(rows), IncompletePair)
    + When(!PairsComplete(Filter(Accepted, rows)), NotAccepted)
    + When(exists r | r in rows :: Retired(r), AlreadyRetired)
    + When(exists r | r in rows :: Warm(r), WarmService)
  }

  function HealthReasons(health: Option<Health>): seq<Reason> {
    RecordReason(health)
    + When(health.None? || health.value.imagePresent != Some(true), ImageUnverified)
    + When(health.None? || health.value.resourcesPresent != Some(true), ProviderDrift)
  }

  /** Why a release is retained; none for a release to delete. */
  function Reasons(row: Option<BackendStatus>, version: string, rows: seq<Row>, now: int, drainDays: int): seq<Reason> {
    When(row.Some? && row.value.active == Some(version), IsActive)
    + When(row.Some? && row.value.rollback == Some(version), IsRollback)
    + RowReasons(rows)
    + HealthReasons(HealthFor(row, version))
    + DrainReason(rows, now, drainDays)
  }

  function Resources(rows: seq<Row>): seq<string> {
    if rows == [] then []
    else
      var front, last := Resources(rows[..|rows| - 1]), rows[|rows| - 1];
      if Truthy(last.resource) then front + [last.resource.value] else front
  }

  lemma {:induction false} ResourcesMembers(rows: seq<Row>)
    ensures forall x :: x in Resources(rows) <==> exists r :: r in rows && Truthy(r.resource) && r.resource.value == x
  {
    if rows != [] {
      ResourcesMembers(rows[..|rows| - 1]);
      assert rows == rows[..|rows| - 1] + [rows[|rows| - 1]];
    }
  }

  function ItemFor(db: Database, key: Release): Item {
    Item(key, SortedSet(CompareStrings, Resources(Filter(key.Has, db.rows))))
  }

  function ReasonsFor(status: Status, db: Database, key: Release, now: int, drainDays: int): seq<Reason> {
    Reasons(Activation.RowFor(status.backends, key.backend), key.version, Filter(key.Has, db.rows), now, drainDays)
  }

  /** The releases with rows, nameless ones left out. */
  function Keys(rows: seq<Row>): seq<Release> {
    if rows == [] then []
    else
      var front, last := Keys(rows[..|rows| - 1]), rows[|rows| - 1];
      if last.backend != "" && last.version != "" then front + [Release(last.backend, last.version)] else front
  }

  lemma {:induction false} KeysMembers(rows: seq<Row>)
    ensures forall k :: k in Keys(rows) <==> k.backend != "" && k.version != "" && exists r :: r in rows && k.Has(r)
  {
    if rows != [] {
      var front, last := rows[..|rows| - 1], rows[|rows| - 1];
      KeysMembers(front);
      assert rows == front + [last];
      forall k: Release
        ensures k in Keys(rows) <==> k.backend != "" && k.version != "" && exists r :: r in rows && k.Has(r)
      {
        assert k.Has(last) <==> k == Release(last.backend, last.version);
        assert k in Keys(rows) <==> k in Keys(front) || (k.Has(last) && last.backend != "" && last.version != "");
        if k.Has(last) {
          assert last in rows;
        }
        if r :| r in front && k.Has(r) {
          assert r in rows;
        }
      }
    }
  }

  function Deletions(status: Status, db: Database, keys: seq<Release>, now: int, drainDays: int): seq<Item> {
    if keys == [] then []
    else
      var front, key := Deletions(status, db, keys[..|keys| - 1], now, drainDays), keys[|keys| - 1];
      if ReasonsFor(status, db, key, now, drainDays) == [] then front + [ItemFor(db, key)] else front
  }

  function Retentions(status: Status, db: Database, keys: seq<Release>, now: int, drainDays: int): seq<Retained> {
    if keys == [] then []
    else
      var front, key := Retentions(status, db, keys[..|keys| - 1], now, drainDays), keys[|keys| - 1];
      var reasons := ReasonsFor(status, db, key, now, drainDays);
      if reasons != [] then front + [Retained(ItemFor(db, key), reasons)] else front
  }

  function SortedKeys(db: Database): seq<Release> {
    SortedSet(CompareReleases, Keys(db.rows))
  }

  function PlanView(status: Status, db: Database, now: int, drainDays: int): Plan {
    Plan(Deletions(status, db, SortedKeys(db), now, drainDays), Retentions(status, db, SortedKeys(db), now, drainDays))
  }

  /** The grouping loop of the planner. */
  method GroupRows(rows: seq<Row>) returns (grouped: map<Release, seq<Row>>)
    ensures forall k :: k in grouped <==> k in Keys(rows)
    ensures forall k | k in grouped :: grouped[k] == Filter(k.Has, rows)
  {
    grouped := map[];
    for i := 0 to |rows|
      invariant forall k :: k in grouped <==> k in Keys(rows[..i])
      invariant forall k | k in grouped :: grouped[k] == Filter(k.Has, rows[..i])
    {
      var row := rows[i];
      var key := Release(row.backend, row.version);
      var before := rows[..i];
      assert rows[..i + 1][..i] == before && rows[..i + 1][i] == row;
      ghost var was := grouped;
      if row.backend != "" && row.version != "" {
        if key !in grouped {
          NoRowsOfKey(before, key);
        }
        grouped := grouped[key := (if key in grouped then grouped[key] else []) + [row]];
      }
      KeysMembers(before);
      forall k | k in grouped ensures grouped[k] == Filter(k.Has, rows[..i + 1]) {
        FilterNext(k.Has, rows, i);
        assert k.Has(row) <==> k == key;
        assert k != key ==> k in was;
      }
    }
    assert rows[..|rows|] == rows;
  }

  lemma NoRowsOfKey(rows: seq<Row>, key: Release)
    requires key !in Keys(rows) && key.backend != "" && key.version != ""
    ensures Filter(key.Has, rows) == []
  {
    KeysMembers(rows);
    FilterMembers(key.Has, rows);
    var found := Filter(key.Has, rows);
    assert forall i | 0 <= i < |found| :: found[i] in found;
  }

  /** calculate_cleanup_plan: the groups in order, each put on one of two lists. */
  method CalculateCleanupPlan(status: Status, db: Database, now: int, drainDays: int)
    returns (r: Result<Plan, PlanError>)
    ensures r == if drainDays < 7 then Err(DrainTooShort) else Ok(PlanView(status, db, now, drainDays))
  {
    hide Filter, Reasons, Keys, SortedSet, Resources, Deletions, Retentions, CompareReleases, Activation.RowFor;
    if drainDays < DEFAULT_DRAIN_DAYS {
      return Err(DrainTooShort);
    }
    var grouped := GroupRows(db.rows);
    var keys := SortedKeys(db);
    ReleasesTotal();
    SortedSetSorts(CompareReleases, Keys(db.rows));
    var delete: seq<Item> := [];
    var retain: seq<Retained> := [];
    NoKeys(status, db, keys[..0], now, drainDays);
    for i := 0 to |keys|
      invariant delete == Deletions(status, db, keys[..i], now, drainDays)
      invariant retain == Retentions(status, db, keys[..i], now, drainDays)
    {
      var key := keys[i];
      assert key in keys;
      ListsNext(status, db, keys, i, now, drainDays);
      var rows := grouped[key];
      var reasons := Reasons(Activation.RowFor(status.backends, key.backend), key.version, rows, now, drainDays);
      var item := Item(key, SortedSet(CompareStrings, Resources(rows)));
      if reasons != [] {
        retain := retain + [Retained(item, reasons)];
      } else {
        delete := delete + [item];
      }
    }
    assert keys[..|keys|] == keys;
    return Ok(Plan(delete, retain));
  }

  lemma ListsNext(status: Status, db: Database, keys: seq<Release>, i: nat, now: int, drainDays: int)
    requires i < |keys|
    ensures var reasons := ReasonsFor(status, db, keys[i], now, drainDays);
            && Deletions(status, db, keys[..i + 1], now, drainDays)
               == Deletions(status, db, keys[..i], now, drainDays)
                   + (if reasons == [] then [ItemFor(db, keys[i])] else [])
            && Retentions(status, db, keys[..i + 1], now, drainDays)
               == Retentions(status, db, keys[..i], now, drainDays)
                   + (if reasons != [] then [Retained(ItemFor(db, keys[i]), reasons)] else [])
  {
    hide ReasonsFor, ItemFor;
    assert keys[..i + 1][..i] == keys[..i];
  }

  lemma NoKeys(status: Status, db: Database, keys: seq<Release>, now: int, drainDays: int)
    requires keys == []
    ensures Deletions(status, db, keys, now, drainDays) == [] && Retentions(status, db, keys, now, drainDays) == []
  {
  }

  // ---- each release on exactly one list -----------------------------------

  ghost predicate Deleted(plan: Plan, key: Release) {
    exists i :: 0 <= i < |plan.delete| && plan.delete[i].key == key
  }

  ghost predicate Kept(plan: Plan, key: Release) {
    exists i :: 0 <= i < |plan.retain| && plan.retain[i].item.key == key
  }

  lemma {:induction false} ListsMembers(status: Status, db: Database, keys: seq<Release>, now: int, drainDays: int)
    ensures forall item :: item in Deletions(status, db, keys, now, drainDays) <==>
              item.key in keys && item == ItemFor(db, item.key)
                  && ReasonsFor(status, db, item.key, now, drainDays) == []
    ensures forall kept :: kept in Retentions(status, db, keys, now, drainDays) <==>
              kept.item.key in keys && kept.item == ItemFor(db, kept.item.key) && kept.reasons != []
              && kept.reasons == ReasonsFor(status, db, kept.item.key, now, drainDays)
  {
    hide ReasonsFor, ItemFor;
    if keys != [] {
      ListsMembers(status, db, keys[..|keys| - 1], now, drainDays);
      assert keys == keys[..|keys| - 1] + [keys[|keys| - 1]];
      assert forall k :: ItemFor(db, k).key == k by { ItemKeys(db); }
    }
  }

  lemma ItemKeys(db: Database)
    ensures forall k :: ItemFor(db, k).key == k
  {
  }

  /** Every named release with rows is deleted or retained and never both; it is
      deleted exactly when there is no reason to retain it. */
  lemma PlanPartitions(status: Status, db: Database, now: int, drainDays: int, key: Release)
    ensures var plan := PlanView(status, db, now, drainDays);
            var present := key.backend != "" && key.version != "" && exists r :: r in db.rows && key.Has(r);
            && (Deleted(plan, key) <==> present && ReasonsFor(status, db, key, now, drainDays) == [])
            && (Kept(plan, key) <==> present && ReasonsFor(status, db, key, now, drainDays) != [])
  {
    hide ReasonsFor, ItemFor, Keys, SortedSet, Deletions, Retentions, CompareReleases;
    var plan, keys := PlanView(status, db, now, drainDays), SortedKeys(db);
    ReleasesTotal();
    SortedSetSorts(CompareReleases, Keys(db.rows));
    KeysMembers(db.rows);
    ListsMembers(status, db, keys, now, drainDays);
    ItemKeys(db);
    forall i | 0 <= i < |plan.delete| ensures plan.delete[i] in plan.delete {}
    forall i | 0 <= i < |plan.retain| ensures plan.retain[i] in plan.retain {}
    if key in keys {
      var reasons := ReasonsFor(status, db, key, now, drainDays);
      if reasons == [] {
        assert ItemFor(db, key) in plan.delete;
      } else {
        assert Retained(ItemFor(db, key), reasons) in plan.retain;
      }
    }
  }

  /** The order of releases: by backend, then by version, as texts. */
  ghost predicate Before(a: Release, b: Release) {
    TextBelow(a.backend, b.backend) || (a.backend == b.backend && TextBelow(a.version, b.version))
  }

  ghost predicate ItemsInOrder(items: seq<Item>) {
    forall i, j | 0 <= i < j < |items| :: Before(items[i].key, items[j].key)
  }

  ghost predicate RetainedInOrder(items: seq<Retained>) {
    forall i, j | 0 <= i < j < |items| :: Before(items[i].item.key, items[j].item.key)
  }

  lemma BeforeMeans(a: Release, b: Release)
    ensures CompareReleases(a, b) < 0 <==> Before(a, b)
  {
    hide CompareStrings, TextBelow;
    StringsBelow(a.backend, b.backend);
    StringsBelow(a.version, b.version);
    StringPair(a.backend, b.backend);
  }

  lemma ItemAppended(items: seq<Item>, item: Item)
    requires ItemsInOrder(items) && forall i | i in items :: Before(i.key, item.key)
    ensures ItemsInOrder(items + [item])
  {
    hide Before;
    assert forall i | 0 <= i < |items| :: items[i] in items;
  }

  lemma RetainedAppended(items: seq<Retained>, item: Retained)
    requires RetainedInOrder(items) && forall i | i in items :: Before(i.item.key, item.item.key)
    ensures RetainedInOrder(items + [item])
  {
    hide Before;
    assert forall i | 0 <= i < |items| :: items[i] in items;
  }

  lemma {:induction false} ListsFollowKeys(status: Status, db: Database, keys: seq<Release>, now: int, drainDays: int)
    requires forall i, j | 0 <= i < j < |keys| :: Before(keys[i], keys[j])
    ensures ItemsInOrder(Deletions(status, db, keys, now, drainDays))
    ensures RetainedInOrder(Retentions(status, db, keys, now, drainDays))
  {
    hide ReasonsFor, ItemFor, Before;
    if keys != [] {
      var front, key := keys[..|keys| - 1], keys[|keys| - 1];
      assert forall i | 0 <= i < |front| :: front[i] == keys[i];
      ListsFollowKeys(status, db, front, now, drainDays);
      ListsMembers(status, db, front, now, drainDays);
      ItemKeys(db);
      forall k | k in front ensures Before(k, key) {
        var i :| 0 <= i < |front| && front[i] == k;
      }
      var reasons := ReasonsFor(status, db, key, now, drainDays);
      if reasons == [] {
        ItemAppended(Deletions(status, db, front, now, drainDays), ItemFor(db, key));
      } else {
        RetainedAppended(Retentions(status, db, front, now, drainDays), Retained(ItemFor(db, key), reasons));
      }
    }
  }

  /** Both lists are in the order of releases. */
  lemma ListsAreInOrder(status: Status, db: Database, now: int, drainDays: int)
    ensures ItemsInOrder(PlanView(status, db, now, drainDays).delete)
    ensures RetainedInOrder(PlanView(status, db, now, drainDays).retain)
  {
    hide ReasonsFor, ItemFor, Keys, SortedSet, CompareReleases, Before;
    var keys := SortedKeys(db);
    ReleasesTotal();
    SortedSetSorts(CompareReleases, Keys(db.rows));
    forall i, j | 0 <= i < j < |keys|
      ensures Before(keys[i], keys[j])
    {
      BeforeMeans(keys[i], keys[j]);
    }
    ListsFollowKeys(status, db, keys, now, drainDays);
  }

  /** What the plan lists for a release: the resources its rows name, in order
      and each once. */
  lemma ItemListsResources(db: Database, key: Release)
    ensures Increasing(CompareStrings, ItemFor(db, key).resources)
    ensures forall x :: x in ItemFor(db, key).resources
              <==> x != "" && exists r :: r in db.rows && r.backend == key.backend && r.version == key.version
                                          && r.resource == Some(x)
  {
    hide SortedSet, Filter, Resources, CompareStrings;
    var rows := Filter(key.Has, db.rows);
    StringsTotal();
    SortedSetSorts(CompareStrings, Resources(rows));
    ResourcesMembers(rows);
    FilterMembers(key.Has, db.rows);
  }

  // ---- why a release is retained -------------------------------------------

  /** Each reason is given exactly when it holds. */
  lemma RowReasonsMean(rows: seq<Row>)
    ensures forall reason | reason in RowReasons(rows) ::
              reason in {UnfinishedAttempt, IncompletePair, NotAccepted, AlreadyRetired, WarmService}
    ensures UnfinishedAttempt in RowReasons(rows) <==> exists r :: r in rows && r.unfinishedAttempts != 0
    ensures IncompletePair in RowReasons(rows) <==> !PairsComplete(rows)
    ensures NotAccepted in RowReasons(rows) <==> !PairsComplete(Filter(Accepted, rows))
    ensures AlreadyRetired in RowReasons(rows) <==> exists r :: r in rows && Retired(r)
    ensures WarmService in RowReasons(rows) <==>
              exists r :: r in rows && r.kind == "CLOUD_RUN_SERVICE" && r.minimumInstances != 0
  {
    hide PairsComplete, Filter;
  }

  lemma HealthReasonsMean(health: Option<Health>)
    ensures forall reason | reason in HealthReasons(health) ::
              reason in {RecordMissing, RecordMismatch, ImageMismatch, ImageUnverified, ProviderDrift}
    ensures RecordMissing in HealthReasons(health) <==> health.None? || !health.value.recordRetained
    ensures RecordMismatch in HealthReasons(health) <==>
              health.Some? && health.value.recordRetained && !health.value.recordMatches
    ensures ImageMismatch in HealthReasons(health) <==>
              health.Some? && health.value.recordRetained && health.value.recordMatches
              && !health.value.recordImageMatches
    ensures ImageUnverified in HealthReasons(health) <==> health.None? || health.value.imagePresent != Some(true)
    ensures ProviderDrift in HealthReasons(health) <==> health.None? || health.value.resourcesPresent != Some(true)
  {
  }

  lemma DrainReasonMeans(rows: seq<Row>, now: int, drainDays: int)
    requires rows != []
    ensures NeverInactive in DrainReason(rows, now, drainDays) <==> exists r :: r in rows && r.deactivatedAt.None?
    ensures forall reason | reason in DrainReason(rows, now, drainDays) :: reason == NeverInactive || reason.Draining?
    ensures forall until :: Draining(until) in DrainReason(rows, now, drainDays) <==>
              && (forall r | r in rows :: r.deactivatedAt.Some?)
              && now < until && (exists r :: r in rows && r.deactivatedAt == Some(until - drainDays * 24 * 60 * 60))
              && forall r | r in rows :: r.deactivatedAt.value + drainDays * 24 * 60 * 60 <= until
  {
    if forall r | r in rows :: r.deactivatedAt.Some? {
      var last := LastDeactivation(rows);
      var r :| r in rows && r.deactivatedAt == Some(last);
    }
  }

  /** The reasons of a retained release are those of its rows, of its health and
      of the drain period, and whether it is active or the rollback target. */
  lemma ReasonsMean(row: Option<BackendStatus>, version: string, rows: seq<Row>, now: int, drainDays: int)
    ensures var reasons := Reasons(row, version, rows, now, drainDays);
            && (IsActive in reasons <==> row.Some? && row.value.active == Some(version))
            && (IsRollback in reasons <==> row.Some? && row.value.rollback == Some(version))
            && forall reason | reason != IsActive && reason != IsRollback ::
                 reason in reasons <==>
                 reason in RowReasons(rows) || reason in HealthReasons(HealthFor(row, version))
                 || reason in DrainReason(rows, now, drainDays)
  {
    hide RowReasons, HealthReasons, DrainReason, Reasons, HealthFor;
    forall reason
      ensures reason in Reasons(row, version, rows, now, drainDays) <==>
                || (row.Some? && row.value.active == Some(version) && reason == IsActive)
                || (row.Some? && row.value.rollback == Some(version) && reason == IsRollback)
                || reason in RowReasons(rows) || reason in HealthReasons(HealthFor(row, version))
                || reason in DrainReason(rows, now, drainDays)
    {
      ReasonIsOneOf(row, version, rows, now, drainDays, reason);
    }
    OtherReasons(rows, HealthFor(row, version), now, drainDays);
  }

  lemma ReasonIsOneOf(row: Option<BackendStatus>, version: string, rows: seq<Row>, now: int, drainDays: int,
      reason: Reason)
    ensures reason in Reasons(row, version, rows, now, drainDays) <==>
              || (row.Some? && row.value.active == Some(version) && reason == IsActive)
              || (row.Some? && row.value.rollback == Some(version) && reason == IsRollback)
              || reason in RowReasons(rows) || reason in HealthReasons(HealthFor(row, version))
              || reason in DrainReason(rows, now, drainDays)
  {
    hide RowReasons, HealthReasons, DrainReason, HealthFor;
    InFive(When(row.Some? && row.value.active == Some(version), IsActive),
           When(row.Some? && row.value.rollback == Some(version), IsRollback), RowReasons(rows),
           HealthReasons(HealthFor(row, version)), DrainReason(rows, now, drainDays), reason);
  }

  lemma OtherReasons(rows: seq<Row>, health: Option<Health>, now: int, drainDays: int)
    ensures IsActive !in RowReasons(rows) && IsRollback !in RowReasons(rows)
    ensures IsActive !in HealthReasons(health) && IsRollback !in HealthReasons(health)
    ensures IsActive !in DrainReason(rows, now, drainDays) && IsRollback !in DrainReason(rows, now, drainDays)
  {
    hide PairsComplete, Filter;
  }

  lemma InFive(a: seq<Reason>, b: seq<Reason>, c: seq<Reason>, d: seq<Reason>, e: seq<Reason>, x: Reason)
    ensures x in a + b + c + d + e <==> x in a || x in b || x in c || x in d || x in e
  {
  }

  // ---- when a release is deleted -------------------------------------------

  /** A row nothing uses: no attempts, not retired, scaled to zero, and
      deactivated at least the drain period ago. */
  predicate Idle(r: Row, now: int, drainDays: int) {
    && r.unfinishedAttempts == 0 && !Retired(r)
    && (r.kind == SERVICE ==> r.minimumInstances == 0)
    && r.deactivatedAt.Some? && r.deactivatedAt.value + drainDays * SECONDS_PER_DAY <= now
  }

  /** The retained record agrees with the rows, and image and resources exist. */
  predicate Verified(h: Health) {
    && h.recordRetained && h.recordMatches && h.recordImageMatches
    && h.imagePresent == Some(true) && h.resourcesPresent == Some(true)
  }

  ghost predicate Complete(db: Database, key: Release) {
    PairsComplete(Filter(key.Has, db.rows)) && PairsComplete(Filter(Accepted, Filter(key.Has, db.rows)))
  }

  lemma DrainedMeans(rows: seq<Row>, now: int, drainDays: int)
    requires rows != []
    ensures DrainReason(rows, now, drainDays) == []
       <==> forall r | r in rows :: r.deactivatedAt.Some? && r.deactivatedAt.value + drainDays * SECONDS_PER_DAY <= now
  {
    if forall r | r in rows :: r.deactivatedAt.Some? {
      var last := LastDeactivation(rows);
      var r :| r in rows && r.deactivatedAt == Some(last);
    }
  }

  lemma RowsIdle(rows: seq<Row>, now: int, drainDays: int)
    requires rows != []
    ensures RowReasons(rows) == [] && DrainReason(rows, now, drainDays) == []
       <==> (forall r | r in rows :: Idle(r, now, drainDays))
            && PairsComplete(rows) && PairsComplete(Filter(Accepted, rows))
  {
    hide PairsComplete, Filter, DrainReason;
    DrainedMeans(rows, now, drainDays);
  }

  /** It has rows, is neither active nor the rollback target, is complete, idle
      in every row, and verified. */
  ghost predicate Deletable(status: Status, db: Database, now: int, drainDays: int, key: Release) {
    var row := Activation.RowFor(status.backends, key.backend);
    && key.backend != "" && key.version != "" && (exists r :: r in db.rows && key.Has(r))
    && (forall r | r in db.rows && key.Has(r) :: Idle(r, now, drainDays))
    && Complete(db, key)
    && row.Some? && row.value.active != Some(key.version) && row.value.rollback != Some(key.version)
    && key.version in row.value.health && Verified(row.value.health[key.version])
  }

  /** A release is deleted exactly when it is deletable. */
  lemma DeletedExactlyWhen(status: Status, db: Database, now: int, drainDays: int, key: Release)
    ensures Deleted(PlanView(status, db, now, drainDays), key) <==> Deletable(status, db, now, drainDays, key)
  {
    hide PlanView, PairsComplete, Filter, RowReasons, DrainReason, HealthReasons, Idle;
    PlanPartitions(status, db, now, drainDays, key);
    FilterMembers(key.Has, db.rows);
    var rows := Filter(key.Has, db.rows);
    if rows != [] {
      assert rows[0] in rows;
      RowsIdle(rows, now, drainDays);
    }
    HealthyMeans(HealthFor(Activation.RowFor(status.backends, key.backend), key.version));
  }

  lemma HealthyMeans(health: Option<Health>)
    ensures HealthReasons(health) == [] <==> health.Some? && Verified(health.value)
  {
  }
}
