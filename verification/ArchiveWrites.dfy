/** Writing an archive and deleting what its receipt names: conservation of
    audit rows over every sequence of rounds and write failures. */
module ArchiveWrites {
  import opened Wrappers
  import opened AuditArchive

  /** A gzipped JSONL file by its lines, or a checksum file. */
  datatype Content = Jsonl(records: seq<Record>) | Checksum(digest: string, name: string)

  type Store = map<Path, Content>

  /** A write that goes through, raises before its link, or raises after it
      while removing the temporary file. */
  datatype Fault = NoFault | BeforeLink | AfterLink

  datatype Written = Written(store: Store, ok: bool)
  datatype Receipt = Receipt(ids: seq<int>, locations: seq<Path>)
  datatype Archived = Archived(store: Store, receipt: Option<Receipt>)

  // ---- one file --------------------------------------------------------------------

  /** _atomic_write with no other writer: an existing path is refused. */
  function WriteFile(store: Store, path: Path, content: Content, fault: Fault): Written {
    if path in store || fault == BeforeLink then Written(store, false)
    else Written(store[path := content], fault == NoFault)
  }

  /** _atomic_write when another writer changes the store between the check and
      the link: a link that finds the path taken falls back to replacing it. */
  function WriteRaced(atCheck: Store, atLink: Store, path: Path, content: Content): Written {
    if path in atCheck then Written(atLink, false) else Written(atLink[path := content], true)
  }

  /** Without another writer the two are one. */
  lemma UnracedWriteIsWrite(store: Store, path: Path, content: Content)
    ensures WriteRaced(store, store, path, content) == WriteFile(store, path, content, NoFault)
  {
  }

  predicate Preserves(before: Store, after: Store) {
    forall p | p in before :: p in after && after[p] == before[p]
  }

  /** A raced write spares every existing file exactly when the path was refused
      at the check, is still free at the link, or holds the same content. */
  lemma RacedWritePreservesExactlyWhen(atCheck: Store, atLink: Store, path: Path, content: Content)
    ensures Preserves(atLink, WriteRaced(atCheck, atLink, path, content).store)
       <==> path in atCheck || path !in atLink || atLink[path] == content
  {
    if path !in atCheck && path in atLink {
      assert WriteRaced(atCheck, atLink, path, content).store[path] == content;
    }
  }

  // ---- one archive call ---------------------------------------------------------------

  function PartitionContent(es: seq<Entry>, key: Key, today: Day): Content {
    Jsonl(ToRecords(Group(es, key, today)))
  }

  function ChecksumContent(key: Key, suffix: string, digest: string): Content {
    Checksum(digest, FileName(key.day, suffix))
  }

  /** What one call is given besides its entries: a suffix, the digest of each
      payload, and the fault each write meets, data files at even numbers. */
  datatype Call = Call(suffix: string, today: Day, digest: Content -> string, faults: nat -> Fault)

  /** Both files of one partition. */
  function WritePartition(store: Store, es: seq<Entry>, key: Key, call: Call, n: nat): Written {
    var content := PartitionContent(es, key, call.today);
    var data := WriteFile(store, DataPath(key, call.suffix), content, call.faults(2 * n));
    if !data.ok then data
    else WriteFile(data.store, ChecksumPath(key, call.suffix), ChecksumContent(key, call.suffix, call.digest(content)),
        call.faults(2 * n + 1))
  }

  /** Both files of one partition when another writer acts between the check
      and the link of the data file. */
  function WritePartitionRaced(atCheck: Store, atLink: Store, es: seq<Entry>, key: Key, call: Call): Written {
    var content := PartitionContent(es, key, call.today);
    var data := WriteRaced(atCheck, atLink, DataPath(key, call.suffix), content);
    if !data.ok then data
    else WriteFile(data.store, ChecksumPath(key, call.suffix), ChecksumContent(key, call.suffix, call.digest(content)),
        NoFault)
  }

  /** The first n partitions; a write that raises ends the call. */
  function WritePartitions(store: Store, es: seq<Entry>, call: Call, n: nat): Written
    requires n <= |Keys(es, call.today)|
  {
    if n == 0 then Written(store, true)
    else
      var w := WritePartitions(store, es, call, n - 1);
      if !w.ok then w else WritePartition(w.store, es, Keys(es, call.today)[n - 1], call, n - 1)
  }

  function Pks(es: seq<Entry>): (ids: seq<int>)
    ensures |ids| == |es| && forall i | 0 <= i < |es| :: ids[i] == es[i].pk
  {
    if es == [] then [] else [es[0].pk] + Pks(es[1..])
  }

  function Ids(es: seq<Entry>, today: Day, n: nat): seq<int>
    requires n <= |Keys(es, today)|
  {
    if n == 0 then [] else Ids(es, today, n - 1) + Pks(Group(es, Keys(es, today)[n - 1], today))
  }

  function Locations(es: seq<Entry>, call: Call, n: nat): seq<Path>
    requires n <= |Keys(es, call.today)|
  {
    if n == 0 then [] else Locations(es, call, n - 1) + [DataPath(Keys(es, call.today)[n - 1], call.suffix)]
  }

  /** archive(); no receipt stands for a raised error. */
  function Archive(store: Store, es: seq<Entry>, call: Call): Archived {
    var n := |Keys(es, call.today)|;
    var w := WritePartitions(store, es, call, n);
    Archived(w.store, if w.ok then Some(Receipt(Ids(es, call.today, n), Locations(es, call, n))) else None)
  }

  /** The archive directory and the audit table, updated in place. */
  class AuditStore {
    var store: Store
    var table: seq<Entry>

    constructor (initial: Store, rows: seq<Entry>)
      ensures store == initial && table == rows
    {
      store, table := initial, rows;
    }

    method AtomicWrite(path: Path, content: Content, fault: Fault) returns (ok: bool)
      modifies this
      ensures Written(store, ok) == WriteFile(old(store), path, content, fault) && table == old(table)
      ensures ok <==> path !in old(store) && fault == NoFault
      ensures store == if path in old(store) || fault == BeforeLink then old(store) else old(store)[path := content]
    {
      if path in store || fault == BeforeLink {
        return false;
      }
      store := store[path := content];
      ok := fault == NoFault;
    }

    method ArchiveEntries(es: seq<Entry>, call: Call) returns (receipt: Option<Receipt>)
      modifies this
      ensures Archived(store, receipt) == Archive(old(store), es, call) && table == old(table)
    {
      hide Group, Keys, ToRecords, FileName, DataPath, ChecksumPath;
      var keys, groups := GroupEntries(es, call.today);
      var ids, locations: seq<Path> := [], [];
      for n := 0 to |keys|
        invariant table == old(table)
        invariant WritePartitions(old(store), es, call, n) == Written(store, true)
        invariant ids == Ids(es, call.today, n) && locations == Locations(es, call, n)
      {
        var key := keys[n];
        var group := groups[key];
        var content := Jsonl(ToRecords(group));
        var ok := AtomicWrite(DataPath(key, call.suffix), content, call.faults(2 * n));
        if ok {
          ok := AtomicWrite(ChecksumPath(key, call.suffix), ChecksumContent(key, call.suffix, call.digest(content)),
              call.faults(2 * n + 1));
        }
        if !ok {
          WritesStop(old(store), es, call, n + 1, |keys|);
          return None;
        }
        ids := ids + Pks(group);
        locations := locations + [DataPath(key, call.suffix)];
      }
      receipt := Some(Receipt(ids, locations));
    }

    /** One chunk of the retention command: archive, then delete the rows the
        receipt names. False is an archive error, which ends the command. */
    method EnforceChunk(chunk: seq<Entry>, call: Call, deleteFails: bool) returns (ok: bool)
      modifies this
      ensures State(table, store) == RetainChunk(State(old(table), old(store)), chunk, call, deleteFails)
      ensures ok == Archive(old(store), chunk, call).receipt.Some?
    {
      var receipt := ArchiveEntries(chunk, call);
      if receipt.None? {
        return false;
      }
      if !deleteFails {
        table := Without(table, receipt.value.ids);
      }
      ok := true;
    }
  }

  lemma {:induction false} WritesStop(store: Store, es: seq<Entry>, call: Call, k: nat, n: nat)
    requires k <= n <= |Keys(es, call.today)| && !WritePartitions(store, es, call, k).ok
    ensures WritePartitions(store, es, call, n) == WritePartitions(store, es, call, k)
    decreases n
  {
    hide WritePartition, Keys;
    if k < n {
      WritesStop(store, es, call, k, n - 1);
    }
  }

  // ---- rounds ------------------------------------------------------------------------------

  datatype State = State(table: seq<Entry>, store: Store)

  /** The rows whose primary key is not in the list. */
  function Without(table: seq<Entry>, ids: seq<int>): seq<Entry> {
    if table == [] then []
    else (if table[0].pk in ids then [] else [table[0]]) + Without(table[1..], ids)
  }

  function RetainChunk(s: State, chunk: seq<Entry>, call: Call, deleteFails: bool): State {
    var r := Archive(s.store, chunk, call);
    State(if r.receipt.None? || deleteFails then s.table else Without(s.table, r.receipt.value.ids), r.store)
  }

  /** A row is written, or a chunk of rows is archived and deleted. */
  datatype Event = Append(row: Entry) | Retain(chunk: seq<Entry>, call: Call, deleteFails: bool)

  function Step(s: State, e: Event): State {
    match e
    case Append(row) => s.(table := s.table + [row])
    case Retain(chunk, call, deleteFails) => RetainChunk(s, chunk, call, deleteFails)
  }

  function Run(s: State, events: seq<Event>): State {
    if events == [] then s else Step(Run(s, events[..|events| - 1]), events[|events| - 1])
  }

  predicate KeysUnique(table: seq<Entry>) {
    forall i, j | 0 <= i < |table| && 0 <= j < |table| && table[i].pk == table[j].pk :: i == j
  }

  /** New rows get a key no row has; chunks are read from the table. */
  predicate Legal(s: State, e: Event) {
    match e
    case Append(row) => forall i | 0 <= i < |s.table| :: s.table[i].pk != row.pk
    case Retain(chunk, _, _) => forall i | 0 <= i < |chunk| :: chunk[i] in s.table
  }

  predicate LegalRun(s: State, events: seq<Event>) {
    events == [] || (LegalRun(s, events[..|events| - 1]) && Legal(Run(s, events[..|events| - 1]), events[|events| - 1]))
  }

  /** A row that was ever in the table. */
  predicate Entered(s: State, events: seq<Event>, e: Entry) {
    e in s.table || exists i | 0 <= i < |events| :: events[i].Append? && events[i].row == e
  }

  /** Some line of some archive file carries the entry. */
  ghost predicate InStore(store: Store, e: Entry) {
    exists p, i :: p in store && store[p].Jsonl? && 0 <= i < |store[p].records| && Carries(store[p].records[i], e)
  }
}
