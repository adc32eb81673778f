/** Model-level audit capture: snapshots of whitelisted fields around a save,
    their diff, its sanitising, and the log they leave beside the row. */
module ModelAudit {
  import opened Wrappers

  /** A column value; Null is Python's None. */
  datatype Value = Null | Val(text: string)

  type Fields = map<string, Value>

  datatype Change = Change(before: Value, after: Value)

  /** A change as stored: kept, or replaced by the redaction marker. */
  datatype Logged = Kept(change: Change) | Redacted

  datatype Entry =
    | Created
    | Updated(changes: Option<map<string, Logged>>)
    | Deleted(changes: Option<map<string, Logged>>)

  /** A registered model: its columns, its whitelist, and which of its
      lifecycle events are recorded. */
  datatype Model = Model(columns: set<string>, whitelist: seq<string>, create: bool, update: bool, delete: bool)

  // ---- snapshots and diffs ------------------------------------------------------------

  function Snapshot(f: Fields, m: Model): Fields {
    map k | k in m.whitelist && k in f :: f[k]
  }

  /** dict.get(k) */
  function Get(f: Fields, k: string): Value {
    if k in f then f[k] else Null
  }

  function Diff(before: Fields, after: Fields): map<string, Change> {
    map k | k in before.Keys + after.Keys && Get(before, k) != Get(after, k) :: Change(Get(before, k), Get(after, k))
  }

  /** _sanitise_changes for a target with a type. */
  function Sanitised(changes: map<string, Change>, m: Model): Option<map<string, Logged>> {
    if changes == map[] then None
    else Some(map k | k in changes :: if k in m.whitelist then Kept(changes[k]) else Redacted)
  }

  /** _sanitise_changes; without a target type there is no whitelist to apply. */
  function SanitisedFor(changes: map<string, Change>, target: Option<Model>): Option<map<string, Logged>> {
    if target.Some? then Sanitised(changes, target.value)
    else if changes == map[] then None
    else Some(map k | k in changes :: Kept(changes[k]))
  }

  method SnapshotFields(f: Fields, m: Model) returns (snapshot: Fields)
    ensures snapshot == Snapshot(f, m)
    ensures forall k :: k in snapshot <==> k in m.whitelist && k in f
    ensures forall k | k in snapshot :: snapshot[k] == f[k]
  {
    snapshot := map[];
    for i := 0 to |m.whitelist|
      invariant snapshot.Keys == set k | k in m.whitelist[..i] && k in f
      invariant forall k | k in snapshot :: snapshot[k] == f[k]
    {
      if m.whitelist[i] in f {
        snapshot := snapshot[m.whitelist[i] := f[m.whitelist[i]]];
      }
    }
  }

  method DiffSnapshots(before: Fields, after: Fields) returns (changes: map<string, Change>)
    ensures changes == Diff(before, after)
    ensures forall k :: k in changes <==>
              (k in before || k in after)
              && (if k in before then before[k] else Null) != (if k in after then after[k] else Null)
    ensures forall k | k in changes ::
              changes[k] == Change(if k in before then before[k] else Null, if k in after then after[k] else Null)
  {
    changes := map[];
    var todo := before.Keys + after.Keys;
    while todo != {}
      invariant todo <= before.Keys + after.Keys
      invariant changes.Keys == set k | k in before.Keys + after.Keys && k !in todo && Get(before, k) != Get(after, k)
      invariant forall k | k in changes :: changes[k] == Change(Get(before, k), Get(after, k))
      decreases todo
    {
      var field :| field in todo;
      todo := todo - {field};
      var was, now := Get(before, field), Get(after, field);
      if was != now {
        changes := changes[field := Change(was, now)];
      }
    }
  }

  method SanitiseChanges(changes: map<string, Change>, target: Option<Model>)
    returns (sanitised: Option<map<string, Logged>>)
    ensures sanitised == SanitisedFor(changes, target)
  {
    if changes == map[] {
      return None;
    }
    if target.None? {
      return Some(map k | k in changes :: Kept(changes[k]));
    }
    var m := target.value;
    var kept: map<string, Logged> := map[];
    var todo := changes.Keys;
    while todo != {}
      invariant todo <= changes.Keys && kept.Keys == changes.Keys - todo
      invariant forall k | k in kept :: kept[k] == if k in m.whitelist then Kept(changes[k]) else Redacted
      decreases todo
    {
      var field :| field in todo;
      todo := todo - {field};
      kept := kept[field := if field in m.whitelist then Kept(changes[field]) else Redacted];
    }
    assert kept == map k | k in changes :: if k in m.whitelist then Kept(changes[k]) else Redacted;
    sanitised := Some(kept);
  }

  // ---- saving ----------------------------------------------------------------------------

  /** The row, None when absent, and the entries about it. */
  datatype Db = Db(row: Option<Fields>, log: seq<Entry>)

  /** An instance: its fields in memory and the snapshot slot a save uses. */
  datatype Instance = Instance(fields: Fields, slot: Option<Fields>)

  /** A save in full, one that raises in the database, or one restricted to
      named fields, which does nothing when no field is named. */
  datatype Saving = Full | Raises | Only(names: set<string>)

  function Written(row: Option<Fields>, fields: Fields, how: Saving): Option<Fields> {
    match how
    case Full => Some(fields)
    case Raises => row
    case Only(names) =>
      if row.None? then None
      else Some(map k | k in row.value :: if k in names && k in fields then fields[k] else row.value[k])
  }

  /** The slot after the pre-save receiver. */
  function PreSaved(row: Option<Fields>, slot: Option<Fields>, m: Model): Option<Fields> {
    if row.None? then slot else Some(Snapshot(row.value, m))
  }

  /** The entry the post-save receiver of an update records, if any. */
  function UpdateEntry(slot: Option<Fields>, fields: Fields, m: Model): seq<Entry> {
    if slot.None? then [Updated(None)]
    else
      var changes := Diff(slot.value, Snapshot(fields, m));
      if changes == map[] then [] else [Updated(Sanitised(changes, m))]
  }

  /** A save with its receivers: a raising save, or one naming fields of a row
      that is not there, leaves the slot behind. */
  function Saved(db: Db, i: Instance, m: Model, how: Saving): (Db, Instance) {
    var slot := PreSaved(db.row, i.slot, m);
    if how == Only({}) then (db, i)
    else if how.Raises? || (how.Only? && db.row.None?) then (db, i.(slot := slot))
    else
      var row := Written(db.row, i.fields, how);
      if db.row.None? then (Db(row, db.log + if m.create then [Created] else []), i.(slot := slot))
      else if !m.update then (Db(row, db.log), i.(slot := slot))
      else (Db(row, db.log + UpdateEntry(slot, i.fields, m)), i.(slot := None))
  }

  function DeleteEntry(fields: Fields, m: Model): Entry {
    var final := Snapshot(fields, m);
    Deleted(Sanitised(map k | k in final :: Change(final[k], Null), m))
  }

  class Database {
    var row: Option<Fields>
    var log: seq<Entry>

    constructor (initial: Option<Fields>)
      ensures row == initial && log == []
    {
      row, log := initial, [];
    }

    ghost function Value(): Db
      reads this
    {
      Db(row, log)
    }
  }

  class AuditedInstance {
    var fields: Fields
    var slot: Option<Fields>
    const model: Model
    const db: Database

    constructor (m: Model, database: Database, initial: Fields)
      ensures model == m && db == database && fields == initial && slot == None
    {
      model, db, fields, slot := m, database, initial, None;
    }

    ghost function Value(): Instance
      reads this
    {
      Instance(fields, slot)
    }

    method OnPreSave()
      modifies this
      ensures slot == PreSaved(db.row, old(slot), model) && fields == old(fields)
    {
      if db.row.None? {
        return;
      }
      var snapshot := SnapshotFields(db.row.value, model);
      slot := Some(snapshot);
    }

    method OnPostSave(created: bool)
      modifies this, db
      ensures fields == old(fields) && db.row == old(db.row)
      ensures created ==> db.log == old(db.log) + (if model.create then [Created] else []) && slot == old(slot)
      ensures !created && !model.update ==> db.log == old(db.log) && slot == old(slot)
      ensures !created && model.update ==> db.log == old(db.log) + UpdateEntry(old(slot), fields, model) && slot == None
    {
      if created {
        if model.create {
          db.log := db.log + [Created];
        }
        return;
      }
      if !model.update {
        return;
      }
      var before := slot;
      var after := SnapshotFields(fields, model);
      slot := None;
      if before.None? {
        db.log := db.log + [Updated(None)];
        return;
      }
      var changes := DiffSnapshots(before.value, after);
      if changes == map[] {
        return;
      }
      var sanitised := SanitiseChanges(changes, Some(model));
      db.log := db.log + [Updated(sanitised)];
    }

    /** Model.save: the receivers around the write. */
    method Save(how: Saving) returns (ok: bool)
      modifies this, db
      ensures (db.Value(), Value()) == Saved(old(db.Value()), old(Value()), model, how)
      ensures ok == (how == Only({}) || !(how.Raises? || (how.Only? && old(db.row).None?)))
    {
      if how == Only({}) {
        return true;
      }
      OnPreSave();
      if how.Raises? || (how.Only? && db.row.None?) {
        return false;
      }
      var created := db.row.None?;
      db.row := Written(db.row, fields, how);
      OnPostSave(created);
      ok := true;
    }

    /** Model.delete: the receiver records the instance, then the row goes. */
    method Delete()
      modifies this, db
      ensures fields == old(fields) && slot == old(slot) && db.row == None
      ensures db.log == old(db.log) + if model.delete then [DeleteEntry(fields, model)] else []
    {
      if model.delete {
        var final := SnapshotFields(fields, model);
        var sanitised := SanitiseChanges(map k | k in final :: Change(final[k], Null), Some(model));
        db.log := db.log + [Deleted(sanitised)];
      }
      db.row := None;
    }
  }

  // ---- what is stored of a change ---------------------------------------------------------

  /** For every change set: nothing is stored exactly when it is empty; otherwise
      an entry has the same fields, redacted exactly where there is a target
      whose whitelist lacks the field, and unchanged everywhere else. */
  lemma StoredChangesMean(changes: map<string, Change>, target: Option<Model>)
    ensures var stored := SanitisedFor(changes, target);
            && (stored.None? <==> changes == map[])
            && (stored.Some? ==>
                  && stored.value.Keys == changes.Keys
                  && forall k | k in changes ::
                       && (stored.value[k] == Redacted <==> target.Some? && k !in target.value.whitelist)
                       && (stored.value[k] != Redacted ==> stored.value[k] == Kept(changes[k])))
  {
  }

  /** So change sets that differ only in values outside the whitelist are stored alike. */
  lemma HiddenValuesDoNotShow(a: map<string, Change>, b: map<string, Change>, m: Model)
    requires a.Keys == b.Keys && forall k | k in a && k in m.whitelist :: a[k] == b[k]
    ensures SanitisedFor(a, Some(m)) == SanitisedFor(b, Some(m))
  {
    hide SanitisedFor;
    StoredChangesMean(a, Some(m));
    StoredChangesMean(b, Some(m));
    var x, y := SanitisedFor(a, Some(m)), SanitisedFor(b, Some(m));
    if x.Some? && y.Some? {
      assert forall k | k in x.value :: x.value[k] == y.value[k];
      assert x.value == y.value;
    } else {
      assert a.Keys == {} <==> a == map[];
      assert b.Keys == {} <==> b == map[];
    }
  }

  // ---- what a save does -------------------------------------------------------------------

  /** The whitelisted fields that are dirty in memory, each with both values. */
  ghost predicate LogsDirtyFields(row: Fields, memory: Fields, m: Model, changes: map<string, Logged>)
    requires row.Keys == memory.Keys
  {
    && (forall k :: k in changes <==> k in m.whitelist && k in row && row[k] != memory[k])
    && forall k | k in changes && k in row :: changes[k] == Kept(Change(row[k], memory[k]))
  }

  predicate Failing(row: Option<Fields>, how: Saving) {
    how.Raises? || (how.Only? && row.None?)
  }

  /** An update logs exactly the dirty whitelisted fields, when there is one and
      the model records updates. */
  lemma UpdateLogsDirtyFields(db: Db, i: Instance, m: Model, how: Saving)
    requires db.row.Some? && db.row.value.Keys == i.fields.Keys && !how.Raises? && how != Only({})
    ensures var row := db.row.value;
            var log := Saved(db, i, m, how).0.log;
            var dirty := exists k :: k in m.whitelist && k in row && row[k] != i.fields[k];
            if m.update && dirty then
              exists changes :: log == db.log + [Updated(Some(changes))] && LogsDirtyFields(row, i.fields, m, changes)
            else log == db.log
  {
    var row := db.row.value;
    var s, t := Snapshot(row, m), Snapshot(i.fields, m);
    var changes := Diff(s, t);
    assert forall k :: k in changes <==> k in m.whitelist && k in row && row[k] != i.fields[k];
    assert forall k | k in changes :: changes[k] == Change(row[k], i.fields[k]);
    SanitisingADiffIsIdentity(row, i.fields, m);
    if m.update {
      if changes == map[] {
        assert UpdateEntry(Some(s), i.fields, m) == [];
      } else {
        var kept := map k | k in changes :: Kept(changes[k]);
        assert UpdateEntry(Some(s), i.fields, m) == [Updated(Some(kept))];
        assert LogsDirtyFields(row, i.fields, m, kept);
        var k :| k in changes;
        assert row[k] != i.fields[k];
      }
    }
  }

  /** The other outcomes. Naming no field does nothing at all. A failing save
      changes neither row nor log. Creating writes the row and logs a creation
      where the model records them. An update writes the whole row, or the named
      fields of it. */
  lemma SaveWrites(db: Db, i: Instance, m: Model, how: Saving)
    ensures how == Only({}) ==> Saved(db, i, m, how) == (db, i)
    ensures var (after, j) := Saved(db, i, m, how);
            && j.fields == i.fields
            && (Failing(db.row, how) ==> after == db)
            && (how == Full ==> after.row == Some(i.fields))
            && (how == Full && db.row.None? ==> after.log == if m.create then db.log + [Created] else db.log)
            && (how.Only? && db.row.Some? ==>
                  && after.row.Some? && after.row.value.Keys == db.row.value.Keys
                  && forall k | k in db.row.value ::
                       after.row.value[k] == if k in how.names && k in i.fields then i.fields[k] else db.row.value[k])
  {
    hide UpdateEntry;
  }

  // ---- the log agrees with the row -----------------------------------------------------------

  /** What an entry says the whitelisted fields became. */
  function Replayed(s: Fields, e: Entry): Fields {
    if !e.Updated? || e.changes.None? then s
    else map k | k in s :: if k in e.changes.value && e.changes.value[k].Kept? then e.changes.value[k].change.after
        else s[k]
  }

  function Replay(s: Fields, entries: seq<Entry>): Fields {
    if entries == [] then s else Replayed(Replay(s, entries[..|entries| - 1]), entries[|entries| - 1])
  }

  lemma ReplayMore(s: Fields, entries: seq<Entry>, e: Entry)
    ensures Replay(s, entries + [e]) == Replayed(Replay(s, entries), e)
  {
    assert (entries + [e])[..|entries|] == entries;
  }

  /** A diff of snapshots is over whitelisted fields only, so sanitising keeps
      every change. */
  lemma SanitisingADiffIsIdentity(before: Fields, after: Fields, m: Model)
    ensures var changes := Diff(Snapshot(before, m), Snapshot(after, m));
            Sanitised(changes, m) == if changes == map[] then None else Some(map k | k in changes :: Kept(changes[k]))
  {
    var changes := Diff(Snapshot(before, m), Snapshot(after, m));
    assert forall k | k in changes :: k in m.whitelist;
    assert (map k | k in changes :: Kept(changes[k])) == map k | k in changes ::
        if k in m.whitelist then Kept(changes[k]) else Redacted;
  }

  /** The diff of two snapshots of one model turns the first into the second,
      and is empty exactly when they are equal. */
  lemma DiffReplays(before: Fields, after: Fields, m: Model)
    requires before.Keys == after.Keys
    ensures var s, t := Snapshot(before, m), Snapshot(after, m);
            && (Diff(s, t) == map[] <==> s == t)
            && Replayed(s, Updated(Sanitised(Diff(s, t), m))) == t
  {
    hide Sanitised;
    var s, t := Snapshot(before, m), Snapshot(after, m);
    var changes := Diff(s, t);
    SanitisingADiffIsIdentity(before, after, m);
    assert s.Keys == t.Keys;
    forall k | k in s
      ensures k in changes <==> s[k] != t[k]
    {
    }
    if s != t {
      var k :| k in s && s[k] != t[k];
      assert k in changes;
    }
  }

  /** One save over an existing row, by an instance with any fields in memory
      and any stale slot: the log and what it replays to. */
  lemma SaveRecordsTheChange(db: Db, i: Instance, m: Model, how: Saving)
    requires m.update && db.row.Some? && db.row.value.Keys == i.fields.Keys == m.columns && !how.Raises?
              && how != Only({})
    ensures var s := Snapshot(db.row.value, m);
            var t := Snapshot(i.fields, m);
            var after := Saved(db, i, m, how).0;
            && (s == t ==> after.log == db.log)
            && (s != t ==> exists e :: after.log == db.log + [e] && e.Updated? && Replayed(s, e) == t)
  {
    hide Replayed, Diff, Sanitised;
    var s, t := Snapshot(db.row.value, m), Snapshot(i.fields, m);
    DiffReplays(db.row.value, i.fields, m);
    if s == t {
      assert db.log + [] == db.log;
    } else {
      var e := Updated(Sanitised(Diff(s, t), m));
      assert Saved(db, i, m, how).0.log == db.log + [e];
    }
  }

  /** A save by some instance of the row, full or raising. */
  datatype Attempt = Attempt(instance: Instance, raises: bool)

  function Run(db: Db, m: Model, attempts: seq<Attempt>): Db {
    if attempts == [] then db
    else
      var last := attempts[|attempts| - 1];
      Saved(Run(db, m, attempts[..|attempts| - 1]), last.instance, m, if last.raises then Raises else Full).0
  }

  predicate OfModel(m: Model, attempts: seq<Attempt>) {
    forall i | 0 <= i < |attempts| :: attempts[i].instance.fields.Keys == m.columns
  }

  /** Over any run of full saves, failed ones among them, by instances with any
      stale slot: replaying the entries over the first snapshot gives the
      current one. */
  lemma {:induction false} LogAgreesWithRow(row: Fields, m: Model, attempts: seq<Attempt>)
    requires m.update && row.Keys == m.columns && OfModel(m, attempts)
    ensures var db := Run(Db(Some(row), []), m, attempts);
            && db.row.Some? && db.row.value.Keys == m.columns
            && Replay(Snapshot(row, m), db.log) == Snapshot(db.row.value, m)
  {
    hide Snapshot, Replayed, UpdateEntry;
    if attempts != [] {
      var front, last := attempts[..|attempts| - 1], attempts[|attempts| - 1];
      LogAgreesWithRow(row, m, front);
      if !last.raises {
        var db := Run(Db(Some(row), []), m, front);
        SaveRecordsTheChange(db, last.instance, m, Full);
        var after := Saved(db, last.instance, m, Full).0;
        if Snapshot(db.row.value, m) != Snapshot(last.instance.fields, m) {
          var e :| after.log == db.log + [e] && e.Updated?
              && Replayed(Snapshot(db.row.value, m), e) == Snapshot(last.instance.fields, m);
          ReplayMore(Snapshot(row, m), db.log, e);
        }
      }
    }
  }

  /** A successful full save adds one entry when the whitelisted snapshot
      changed, and none otherwise; a failed one adds none. */
  lemma EntryExactlyOnChange(db: Db, i: Instance, m: Model, raises: bool)
    requires m.update && db.row.Some? && db.row.value.Keys == i.fields.Keys == m.columns
    ensures var after := Saved(db, i, m, if raises then Raises else Full).0;
            && db.log <= after.log
            && |after.log| == |db.log| + if Snapshot(after.row.value, m) != Snapshot(db.row.value, m) then 1 else 0
  {
    hide Snapshot, Replayed, UpdateEntry;
    if !raises {
      SaveRecordsTheChange(db, i, m, Full);
    }
  }

  // ---- where the log and the row part -----------------------------------------------------------

  /** A save restricted to named fields keeps the agreement exactly when it
      names none, or every whitelisted field that is dirty in memory. */
  lemma RestrictedSaveAgreesExactlyWhen(db: Db, i: Instance, m: Model, names: set<string>)
    requires m.update && db.row.Some? && db.row.value.Keys == i.fields.Keys == m.columns
    ensures var after := Saved(db, i, m, Only(names)).0;
            && db.log <= after.log && after.row.Some?
            && (Replay(Snapshot(db.row.value, m), after.log[|db.log|..]) == Snapshot(after.row.value, m)
                <==> names == {} || forall k | k in m.whitelist && k in m.columns && i.fields[k] != db.row.value[k] ::
                    k in names)
  {
    hide Replayed, UpdateEntry, Snapshot;
    if names == {} {
      assert db.log[|db.log|..] == [];
      return;
    }
    hide Replay, Saved;
    SavedRow(db, i, m, Only(names));
    EmptyReplay(Snapshot(db.row.value, m));
    var s, t := Snapshot(db.row.value, m), Snapshot(i.fields, m);
    var after := Saved(db, i, m, Only(names)).0;
    SaveRecordsTheChange(db, i, m, Only(names));
    if s == t {
      assert after.log[|db.log|..] == [];
    } else {
      var e :| after.log == db.log + [e] && e.Updated? && Replayed(s, e) == t;
      assert after.log[|db.log|..] == [] + [e];
      ReplayMore(s, [], e);
    }
    assert Replay(s, after.log[|db.log|..]) == t;
    RestrictedRow(db.row.value, i.fields, m, names);
  }

  lemma SavedRow(db: Db, i: Instance, m: Model, how: Saving)
    requires db.row.Some? && !how.Raises? && how != Only({})
    ensures Saved(db, i, m, how).0.row == Written(db.row, i.fields, how)
  {
    hide UpdateEntry;
  }

  lemma EmptyReplay(s: Fields)
    ensures Replay(s, []) == s
  {
  }

  lemma RestrictedRow(row: Fields, fields: Fields, m: Model, names: set<string>)
    requires row.Keys == fields.Keys == m.columns
    ensures Snapshot(fields, m) == Snapshot(Written(Some(row), fields, Only(names)).value, m)
       <==> forall k | k in m.whitelist && k in m.columns && fields[k] != row[k] :: k in names
  {
    var written := Written(Some(row), fields, Only(names)).value;
    var s, t := Snapshot(fields, m), Snapshot(written, m);
    if s == t {
      forall k | k in m.whitelist && k in m.columns && fields[k] != row[k]
        ensures k in names
      {
        assert s[k] == t[k];
      }
    }
  }

  /** An entry for a value that never reached the row. */
  lemma RestrictedSaveCanLie()
    ensures var m := Model({"name", "notes"}, ["name"], true, true, true);
            var row: Fields := map["name" := Val("a"), "notes" := Null];
            var memory: Fields := map["name" := Val("b"), "notes" := Null];
            var after := Saved(Db(Some(row), []), Instance(memory, None), m, Only({"notes"})).0;
            after.row == Some(row) && Replay(Snapshot(row, m), after.log) != Snapshot(row, m)
  {
    var m := Model({"name", "notes"}, ["name"], true, true, true);
    var row: Fields := map["name" := Val("a"), "notes" := Null];
    var memory: Fields := map["name" := Val("b"), "notes" := Null];
    hide Saved, Snapshot, Replay;
    var i := Instance(memory, None);
    assert row.Keys == memory.Keys == m.columns;
    RestrictedSaveAgreesExactlyWhen(Db(Some(row), []), i, m, {"notes"});
    assert "notes" in {"notes"} && "name" in m.whitelist && memory["name"] != row["name"];
    var after := Saved(Db(Some(row), []), i, m, Only({"notes"})).0;
    SavedRow(Db(Some(row), []), i, m, Only({"notes"}));
    assert after.log[0..] == after.log;
    assert after.row.value == row;
  }

  /** A deletion logs every whitelisted field of the instance, with its value
      before and none after, and nothing else. */
  lemma DeletionLogsWhitelistedFields(fields: Fields, m: Model)
    ensures var entry := DeleteEntry(fields, m);
            && entry.Deleted?
            && (entry.changes.None? <==> forall k | k in fields :: k !in m.whitelist)
            && (entry.changes.Some? ==>
                  && (forall k :: k in entry.changes.value <==> k in fields && k in m.whitelist)
                  && forall k | k in fields && k in m.whitelist ::
                       entry.changes.value[k] == Kept(Change(fields[k], Null)))
  {
    var final := Snapshot(fields, m);
    var changes := map field | field in final :: Change(final[field], Null);
    assert forall k :: k in changes <==> k in fields && k in m.whitelist;
    assert DeleteEntry(fields, m) == Deleted(Sanitised(changes, m));
    if changes != map[] {
      var k :| k in changes;
    }
  }

  /** A deletion records the row's final snapshot exactly when the deleted
      instance was not dirty in a whitelisted field. */
  lemma DeletionRecordsRowExactlyWhen(row: Fields, fields: Fields, m: Model)
    requires row.Keys == fields.Keys == m.columns
    ensures DeleteEntry(fields, m) == DeleteEntry(row, m) <==> Snapshot(fields, m) == Snapshot(row, m)
  {
    var s, t := Snapshot(fields, m), Snapshot(row, m);
    var x, y := DeleteEntry(fields, m).changes, DeleteEntry(row, m).changes;
    assert s.Keys == t.Keys;
    if s != t {
      var k :| k in s && s[k] != t[k];
      DeletedValue(fields, m, k);
      DeletedValue(row, m, k);
      assert x.value[k] != y.value[k];
    }
  }

  /** A deletion entry with a value that the row never had. */
  lemma DeletionCanLie()
    ensures var m := Model({"name"}, ["name"], true, true, true);
            var row: Fields := map["name" := Val("a")];
            var memory: Fields := map["name" := Val("b")];
            var changes := DeleteEntry(memory, m).changes;
            && DeleteEntry(memory, m) != DeleteEntry(row, m)
            && changes.Some? && "name" in changes.value && changes.value["name"] == Kept(Change(Val("b"), Null))
  {
    var m := Model({"name"}, ["name"], true, true, true);
    var row: Fields := map["name" := Val("a")];
    var memory: Fields := map["name" := Val("b")];
    hide DeleteEntry;
    assert "name" in m.whitelist;
    assert Snapshot(memory, m)["name"] == Val("b") && Snapshot(row, m)["name"] == Val("a");
    DeletionRecordsRowExactlyWhen(row, memory, m);
    DeletedValue(memory, m, "name");
  }

  lemma DeletedValue(fields: Fields, m: Model, k: string)
    requires k in Snapshot(fields, m)
    ensures var changes := DeleteEntry(fields, m).changes;
            changes.Some? && k in changes.value && changes.value[k] == Kept(Change(Snapshot(fields, m)[k], Null))
  {
    var final := Snapshot(fields, m);
    var changes := map field | field in final :: Change(final[field], Null);
    assert k in changes && changes[k] == Change(final[k], Null);
    assert k in m.whitelist;
    assert DeleteEntry(fields, m) == Deleted(Sanitised(changes, m));
  }
}
