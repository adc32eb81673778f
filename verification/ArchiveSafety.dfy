/** No audit row is lost: what a receipt licenses, and what every sequence of
    archive-then-delete rounds keeps. */
module ArchiveSafety {
  import opened AuditArchive
  import opened ArchiveWrites

  // ---- partitions -------------------------------------------------------------------

  predicate Distinct(keys: seq<Key>) {
    forall i, j | 0 <= i < j < |keys| :: keys[i] != keys[j]
  }

  lemma Appended(front: seq<Key>, key: Key)
    requires key !in front && Distinct(front)
    ensures Distinct(front + [key])
  {
  }

  lemma {:induction false} KeysAreDistinct(es: seq<Entry>, today: Day)
    ensures Distinct(Keys(es, today))
  {
    if es != [] {
      KeysAreDistinct(es[..|es| - 1], today);
      var front, key := Keys(es[..|es| - 1], today), KeyOf(es[|es| - 1], today);
      if key !in front {
        Appended(front, key);
      }
    }
  }

  lemma {:induction false} EveryEntryHasAGroup(es: seq<Entry>, e: Entry, today: Day)
    requires e in es
    ensures KeyOf(e, today) in Keys(es, today) && e in Group(es, KeyOf(e, today), today)
  {
    var front, last := es[..|es| - 1], es[|es| - 1];
    assert es == front + [last];
    if e in front {
      EveryEntryHasAGroup(front, e, today);
    }
  }

  /** The entry is of that organisation and day; without a time, of the current day. */
  predicate FallsIn(e: Entry, key: Key, today: Day) {
    && e.org == key.org
    && match e.occurred case None => key.day == today case Some(at) => key.day == at.day
  }

  /** A group is a subsequence of the input: its key's entries, in input order. */
  lemma {:induction false} GroupIsInInputOrder(es: seq<Entry>, key: Key, today: Day) returns (at: seq<nat>)
    ensures |at| == |Group(es, key, today)|
    ensures forall i | 0 <= i < |at| ::
              at[i] < |es| && Group(es, key, today)[i] == es[at[i]] && FallsIn(es[at[i]], key, today)
    ensures forall i, j | 0 <= i < j < |at| :: at[i] < at[j]
    ensures forall n | 0 <= n < |es| && FallsIn(es[n], key, today) :: n in at
  {
    at := [];
    if es != [] {
      var front := es[..|es| - 1];
      at := GroupIsInInputOrder(front, key, today);
      if KeyOf(es[|es| - 1], today) == key {
        at := at + [|es| - 1];
      }
    }
  }

  // ---- the receipt is a permutation of the input ---------------------------------------

  lemma {:induction false} PksAppend(es: seq<Entry>, e: Entry)
    ensures Pks(es + [e]) == Pks(es) + [e.pk]
  {
    if es != [] {
      assert (es + [e])[1..] == es[1..] + [e];
      PksAppend(es[1..], e);
    }
  }

  lemma NoGroupWithoutKey(es: seq<Entry>, key: Key, today: Day)
    requires key !in Keys(es, today)
    ensures Group(es, key, today) == []
  {
    var at := GroupIsInInputOrder(es, key, today);
    if at != [] {
      EveryEntryHasAGroup(es, es[at[0]], today);
    }
  }

  lemma GroupOfLonger(es: seq<Entry>, e: Entry, key: Key, today: Day)
    ensures Group(es + [e], key, today) == if KeyOf(e, today) == key then Group(es, key, today) + [e]
              else Group(es, key, today)
  {
    assert (es + [e])[..|es|] == es;
  }

  lemma KeyAmong(keys: seq<Key>, n: nat, key: Key)
    requires 0 < n <= |keys| && Distinct(keys)
    ensures key in keys[..n] <==> key in keys[..n - 1] || key == keys[n - 1]
    ensures keys[n - 1] !in keys[..n - 1]
  {
    assert keys[..n] == keys[..n - 1] + [keys[n - 1]];
  }

  /** One more entry adds its key to its own group and to no other. */
  lemma {:induction false} IdsOfLonger(es: seq<Entry>, e: Entry, today: Day, n: nat)
    requires n <= |Keys(es, today)| && Keys(es, today) <= Keys(es + [e], today)
    ensures multiset(Ids(es + [e], today, n))
         == multiset(Ids(es, today, n)) + if KeyOf(e, today) in Keys(es, today)[..n] then multiset{e.pk} else multiset{}
  {
    hide Keys, Group, Pks;
    if n > 0 {
      IdsOfLonger(es, e, today, n - 1);
      var keys := Keys(es, today);
      KeysAreDistinct(es, today);
      KeyAmong(keys, n, KeyOf(e, today));
      GroupOfLonger(es, e, keys[n - 1], today);
      PksAppend(Group(es, keys[n - 1], today), e);
      assert Keys(es + [e], today)[n - 1] == keys[n - 1];
    }
  }

  lemma {:induction false} IdsArePermutation(es: seq<Entry>, today: Day)
    ensures multiset(Ids(es, today, |Keys(es, today)|)) == multiset(Pks(es))
  {
    hide Group, Pks, Ids, Keys;
    if es == [] {
      NothingArchived(today);
    } else {
      var front, e := es[..|es| - 1], es[|es| - 1];
      assert es == front + [e];
      IdsArePermutation(front, today);
      PksAppend(front, e);
      var n := |Keys(front, today)|;
      KeysOfLonger(front, e, today);
      IdsOfLonger(front, e, today, n);
      assert Keys(front, today)[..n] == Keys(front, today);
      if KeyOf(e, today) !in Keys(front, today) {
        LastGroup(front, e, today);
      }
    }
  }

  lemma NothingArchived(today: Day)
    ensures Keys([], today) == [] && Ids([], today, 0) == [] && Pks([]) == []
  {
  }

  lemma KeysOfLonger(front: seq<Entry>, e: Entry, today: Day)
    ensures Keys(front + [e], today)
         == if KeyOf(e, today) in Keys(front, today) then Keys(front, today) else Keys(front, today) + [KeyOf(e, today)]
  {
    assert (front + [e])[..|front|] == front;
  }

  lemma LastGroup(front: seq<Entry>, e: Entry, today: Day)
    requires KeyOf(e, today) !in Keys(front, today)
    ensures var es := front + [e];
            && Keys(es, today) == Keys(front, today) + [KeyOf(e, today)]
            && Ids(es, today, |Keys(es, today)|) == Ids(es, today, |Keys(front, today)|) + [e.pk]
  {
    var es := front + [e];
    assert es[..|es| - 1] == front;
    NoGroupWithoutKey(front, KeyOf(e, today), today);
    assert Group(es, KeyOf(e, today), today) == [e];
    assert Pks([e]) == [e.pk];
  }

  // ---- the files ---------------------------------------------------------------------------

  predicate HasBoth(store: Store, es: seq<Entry>, key: Key, call: Call) {
    var content := PartitionContent(es, key, call.today);
    && DataPath(key, call.suffix) in store && store[DataPath(key, call.suffix)] == content
    && ChecksumPath(key, call.suffix) in store
    && store[ChecksumPath(key, call.suffix)] == ChecksumContent(key, call.suffix, call.digest(content))
  }

  predicate PathOf(p: Path, key: Key, suffix: string) {
    p == DataPath(key, suffix) || p == ChecksumPath(key, suffix)
  }

  lemma OnePartition(store: Store, es: seq<Entry>, key: Key, call: Call, n: nat)
    ensures var w := WritePartition(store, es, key, call, n);
            && Preserves(store, w.store)
            && (forall p | p in w.store && p !in store :: PathOf(p, key, call.suffix))
            && (w.ok ==> HasBoth(w.store, es, key, call))
            && (w.ok <==> DataPath(key, call.suffix) !in store && ChecksumPath(key, call.suffix) !in store
                          && call.faults(2 * n) == NoFault && call.faults(2 * n + 1) == NoFault)
  {
    hide DataPath, ChecksumPath, PartitionContent, ChecksumContent;
    PathsDistinct(key, key, call.suffix);
  }

  lemma HasBothLater(store: Store, later: Store, es: seq<Entry>, key: Key, call: Call)
    requires Preserves(store, later) && HasBoth(store, es, key, call)
    ensures HasBoth(later, es, key, call)
  {
  }

  /** Existing files stay as they are whatever happens; a finished call has
      written both files of every partition, and only those. */
  lemma {:induction false} WritesAreExact(store: Store, es: seq<Entry>, call: Call, n: nat)
    requires n <= |Keys(es, call.today)|
    ensures var w, keys := WritePartitions(store, es, call, n), Keys(es, call.today);
            && Preserves(store, w.store)
            && (forall p | p in w.store && p !in store :: exists i | 0 <= i < n :: PathOf(p, keys[i], call.suffix))
            && (w.ok ==> forall i | 0 <= i < n :: HasBoth(w.store, es, keys[i], call))
  {
    hide Keys, WritePartition, HasBoth, PathOf;
    if n > 0 {
      WritesAreExact(store, es, call, n - 1);
      var before := WritePartitions(store, es, call, n - 1);
      var keys := Keys(es, call.today);
      if before.ok {
        OnePartition(before.store, es, keys[n - 1], call, n - 1);
        var after := WritePartition(before.store, es, keys[n - 1], call, n - 1).store;
        forall i | 0 <= i < n - 1
          ensures HasBoth(after, es, keys[i], call)
        {
          HasBothLater(before.store, after, es, keys[i], call);
        }
      }
    }
  }

  predicate Faultless(call: Call, n: nat) {
    forall i | 0 <= i < 2 * n :: call.faults(i) == NoFault
  }

  /** Paths this call may write, none of which is taken. */
  predicate Free(store: Store, es: seq<Entry>, call: Call) {
    forall k | k in Keys(es, call.today) :: DataPath(k, call.suffix) !in store && ChecksumPath(k, call.suffix) !in store
  }

  /** The next partition's paths are still free after those before it. */
  lemma StillFree(store: Store, es: seq<Entry>, call: Call, n: nat, p: Path)
    requires n < |Keys(es, call.today)| && Free(store, es, call)
    requires PathOf(p, Keys(es, call.today)[n], call.suffix)
    ensures p !in WritePartitions(store, es, call, n).store
  {
    hide Keys, DataPath, ChecksumPath, WritePartitions;
    WritesAreExact(store, es, call, n);
    KeysAreDistinct(es, call.today);
    var keys := Keys(es, call.today);
    assert keys[n] in keys;
    if p in WritePartitions(store, es, call, n).store {
      var i :| 0 <= i < n && PathOf(p, keys[i], call.suffix);
      PathsDistinct(keys[i], keys[n], call.suffix);
      PathsDistinct(keys[n], keys[i], call.suffix);
    }
  }

  lemma {:induction false} FaultlessWritesFinish(store: Store, es: seq<Entry>, call: Call, n: nat)
    requires n <= |Keys(es, call.today)|
    requires Free(store, es, call)
    ensures WritePartitions(store, es, call, n).ok <==> Faultless(call, n)
  {
    hide Keys, WritePartition, DataPath, ChecksumPath, Free;
    if n > 0 {
      FaultlessWritesFinish(store, es, call, n - 1);
      var key := Keys(es, call.today)[n - 1];
      StillFree(store, es, call, n - 1, DataPath(key, call.suffix));
      StillFree(store, es, call, n - 1, ChecksumPath(key, call.suffix));
      OnePartition(WritePartitions(store, es, call, n - 1).store, es, key, call, n - 1);
      FaultlessNext(call, n);
    }
  }

  lemma FaultlessNext(call: Call, n: nat)
    requires n > 0
    ensures Faultless(call, n) <==>
              Faultless(call, n - 1) && call.faults(2 * (n - 1)) == NoFault && call.faults(2 * (n - 1) + 1) == NoFault
  {
    forall i | Faultless(call, n - 1) && call.faults(2 * (n - 1)) == NoFault
        && call.faults(2 * (n - 1) + 1) == NoFault && 0 <= i < 2 * n
      ensures call.faults(i) == NoFault
    {
      assert i < 2 * (n - 1) || i == 2 * (n - 1) || i == 2 * (n - 1) + 1;
    }
  }

  /** A finished call found every path free. */
  lemma {:induction false} FinishedPathsWereFree(store: Store, es: seq<Entry>, call: Call, n: nat)
    requires n <= |Keys(es, call.today)| && WritePartitions(store, es, call, n).ok
    ensures forall i | 0 <= i < n :: DataPath(Keys(es, call.today)[i], call.suffix) !in store
              && ChecksumPath(Keys(es, call.today)[i], call.suffix) !in store
  {
    hide Keys, WritePartition, DataPath, ChecksumPath, HasBoth, PathOf;
    if n > 0 {
      FinishedPathsWereFree(store, es, call, n - 1);
      WritesAreExact(store, es, call, n - 1);
      OnePartition(WritePartitions(store, es, call, n - 1).store, es, Keys(es, call.today)[n - 1], call, n - 1);
    }
  }

  /** A call gives a receipt exactly when every path it needs is free and no
      write meets a fault. */
  lemma FinishesExactlyWhen(store: Store, es: seq<Entry>, call: Call)
    ensures Archive(store, es, call).receipt.Some?
       <==> Free(store, es, call) && Faultless(call, |Keys(es, call.today)|)
  {
    hide Keys, WritePartitions, DataPath, ChecksumPath, Faultless;
    var keys := Keys(es, call.today);
    if Free(store, es, call) {
      FaultlessWritesFinish(store, es, call, |keys|);
    }
    if Archive(store, es, call).receipt.Some? {
      FinishedPathsWereFree(store, es, call, |keys|);
      forall k | k in keys
        ensures DataPath(k, call.suffix) !in store && ChecksumPath(k, call.suffix) !in store
      {
        var i :| 0 <= i < |keys| && keys[i] == k;
      }
      assert Free(store, es, call);
    }
  }

  /** One archive call: files already present are unchanged whatever happens. A
      receipt names a permutation of the input keys, one location a partition,
      and each location holds that partition's records beside their checksum. */
  lemma ReceiptIsExact(store: Store, es: seq<Entry>, call: Call)
    ensures var r, keys := Archive(store, es, call), Keys(es, call.today);
            && Preserves(store, r.store)
            && (r.receipt.Some? ==>
                  && multiset(r.receipt.value.ids) == multiset(Pks(es))
                  && |r.receipt.value.locations| == |keys|
                  && forall i | 0 <= i < |keys| ::
                       r.receipt.value.locations[i] == DataPath(keys[i], call.suffix)
                           && HasBoth(r.store, es, keys[i], call))
  {
    hide Keys, HasBoth, WritePartitions, Ids, DataPath;
    var n := |Keys(es, call.today)|;
    WritesAreExact(store, es, call, n);
    IdsArePermutation(es, call.today);
    LocationsAreData(es, call, n);
  }

  /** The file of one partition has one line for each of its entries, in order,
      under a path that names organisation and day, beside a file with its digest
      and name. */
  ghost predicate Filed(store: Store, loc: Path, group: seq<Entry>, key: Key, call: Call) {
    && PathNames(loc, key, call.suffix)
    && loc in store && store[loc].Jsonl? && |store[loc].records| == |group|
    && (forall j | 0 <= j < |group| :: Carries(store[loc].records[j], group[j]))
    && var sum := loc[..3] + [loc[3] + ".sha256"];
       sum in store && store[sum] == Checksum(call.digest(store[loc]), loc[3])
  }

  /** A receipt has one location a partition, and there the partition is filed. */
  lemma LocationsAreFiled(store: Store, es: seq<Entry>, call: Call, i: nat)
    requires Archive(store, es, call).receipt.Some? && i < |Keys(es, call.today)|
    ensures var r, key := Archive(store, es, call), Keys(es, call.today)[i];
            && |r.receipt.value.locations| == |Keys(es, call.today)|
            && Filed(r.store, r.receipt.value.locations[i], Group(es, key, call.today), key, call)
  {
    hide Keys, Group, Archive, HasBoth, PathNames, Carries;
    ReceiptIsExact(store, es, call);
    BothAreFiled(Archive(store, es, call).store, es, Keys(es, call.today)[i], call);
  }

  lemma BothAreFiled(store: Store, es: seq<Entry>, key: Key, call: Call)
    requires HasBoth(store, es, key, call)
    ensures Filed(store, DataPath(key, call.suffix), Group(es, key, call.today), key, call)
  {
    hide Group, PathNames, Carries, FileName;
    DataPathNames(key, call.suffix);
    var group := Group(es, key, call.today);
    forall j | 0 <= j < |group|
      ensures Carries(ToRecord(group[j]), group[j])
    {
      LineCarriesEntry(group[j], ToRecord(group[j]));
    }
  }

  lemma {:induction false} LocationsAreData(es: seq<Entry>, call: Call, n: nat)
    requires n <= |Keys(es, call.today)|
    ensures |Locations(es, call, n)| == n
    ensures forall i | 0 <= i < n :: Locations(es, call, n)[i] == DataPath(Keys(es, call.today)[i], call.suffix)
  {
    hide Keys, DataPath;
    if n > 0 {
      LocationsAreData(es, call, n - 1);
    }
  }

  // ---- conservation ------------------------------------------------------------------------

  /** Every entry of a call with a receipt is in the archive. */
  lemma ReceiptCoversEntry(store: Store, es: seq<Entry>, call: Call, e: Entry)
    requires Archive(store, es, call).receipt.Some? && e in es
    ensures InStore(Archive(store, es, call).store, e)
  {
    hide Keys, Group, Archive, DataPath, ChecksumPath, ChecksumContent;
    ReceiptIsExact(store, es, call);
    EveryEntryHasAGroup(es, e, call.today);
    var keys, key := Keys(es, call.today), KeyOf(e, call.today);
    var i :| 0 <= i < |keys| && keys[i] == key;
    var group := Group(es, key, call.today);
    var j :| 0 <= j < |group| && group[j] == e;
    var after := Archive(store, es, call).store;
    assert HasBoth(after, es, keys[i], call);
    LineCarriesEntry(e, ToRecord(e));
    assert after[DataPath(key, call.suffix)].records[j] == ToRecord(e);
  }

  lemma InStoreLater(store: Store, later: Store, e: Entry)
    requires Preserves(store, later) && InStore(store, e)
    ensures InStore(later, e)
  {
    var p, i :| p in store && store[p].Jsonl? && 0 <= i < |store[p].records| && Carries(store[p].records[i], e);
    assert p in later && later[p] == store[p];
  }

  lemma {:induction false} WithoutMembers(table: seq<Entry>, ids: seq<int>)
    ensures forall e :: e in Without(table, ids) <==> e in table && e.pk !in ids
    ensures KeysUnique(table) ==> KeysUnique(Without(table, ids))
  {
    if table != [] {
      WithoutMembers(table[1..], ids);
      assert table == [table[0]] + table[1..];
      if KeysUnique(table) {
        TailUnique(table);
        if table[0].pk !in ids {
          HeadUnique(table, Without(table[1..], ids));
          assert Without(table, ids) == [table[0]] + Without(table[1..], ids);
        }
      }
    }
  }

  lemma TailUnique(table: seq<Entry>)
    requires table != [] && KeysUnique(table)
    ensures KeysUnique(table[1..])
    ensures forall e | e in table[1..] :: e.pk != table[0].pk
  {
    var rest := table[1..];
    forall i, j | 0 <= i < |rest| && 0 <= j < |rest| && rest[i].pk == rest[j].pk
      ensures i == j
    {
      assert table[i + 1].pk == table[j + 1].pk;
    }
    forall e | e in rest
      ensures e.pk != table[0].pk
    {
      var i :| 0 <= i < |rest| && rest[i] == e;
      assert table[i + 1] == e;
    }
  }

  lemma HeadUnique(table: seq<Entry>, rest: seq<Entry>)
    requires table != [] && KeysUnique(rest)
    requires forall e | e in rest :: e.pk != table[0].pk
    ensures KeysUnique([table[0]] + rest)
  {
    var all := [table[0]] + rest;
    assert forall i | 1 <= i < |all| :: all[i] == rest[i - 1] && all[i] in rest;
  }

  /** A key the receipt names is that of a row in the chunk. */
  lemma IdIsOfChunk(es: seq<Entry>, ids: seq<int>, id: int) returns (e: Entry)
    requires multiset(ids) == multiset(Pks(es)) && id in ids
    ensures e in es && e.pk == id
  {
    assert id in multiset(ids);
    assert id in Pks(es);
    var i :| 0 <= i < |es| && Pks(es)[i] == id;
    e := es[i];
  }

  predicate UniqueRow(table: seq<Entry>, a: Entry, b: Entry) {
    a in table && b in table && a.pk == b.pk
  }

  lemma SameKeySameRow(table: seq<Entry>, a: Entry, b: Entry)
    requires KeysUnique(table) && UniqueRow(table, a, b)
    ensures a == b
  {
    var i :| 0 <= i < |table| && table[i] == a;
    var j :| 0 <= j < |table| && table[j] == b;
    assert i == j;
  }

  /** One round loses no row that is in the table or in the archive. */
  lemma RoundLosesNothing(s: State, chunk: seq<Entry>, call: Call, deleteFails: bool, e: Entry)
    requires KeysUnique(s.table) && Legal(s, Retain(chunk, call, deleteFails))
    requires e in s.table || InStore(s.store, e)
    ensures var t := RetainChunk(s, chunk, call, deleteFails); e in t.table || InStore(t.store, e)
  {
    hide Archive, InStore, KeysUnique;
    var r := Archive(s.store, chunk, call);
    ReceiptIsExact(s.store, chunk, call);
    if e !in s.table {
      InStoreLater(s.store, r.store, e);
    } else if r.receipt.Some? && !deleteFails {
      var ids := r.receipt.value.ids;
      WithoutMembers(s.table, ids);
      if e.pk in ids {
        var row := IdIsOfChunk(chunk, ids, e.pk);
        var i :| 0 <= i < |chunk| && chunk[i] == row;
        SameKeySameRow(s.table, row, e);
        ReceiptCoversEntry(s.store, chunk, call, e);
      }
    }
  }

  lemma {:induction false} TableKeysStayUnique(s: State, events: seq<Event>)
    requires KeysUnique(s.table) && LegalRun(s, events)
    ensures KeysUnique(Run(s, events).table)
  {
    if events != [] {
      var before := Run(s, events[..|events| - 1]);
      TableKeysStayUnique(s, events[..|events| - 1]);
      match events[|events| - 1] {
        case Append(row) =>
        case Retain(chunk, call, deleteFails) =>
          var r := Archive(before.store, chunk, call);
          if r.receipt.Some? {
            WithoutMembers(before.table, r.receipt.value.ids);
          }
      }
    }
  }

  /** Over every sequence of new rows and archive-then-delete rounds, with
      failures at any write or delete: each row that was ever in the table is in
      the table still or in some archive file. */
  lemma {:induction false} NothingIsLost(s: State, events: seq<Event>, e: Entry)
    requires KeysUnique(s.table) && LegalRun(s, events) && Entered(s, events, e)
    ensures var t := Run(s, events); e in t.table || InStore(t.store, e)
  {
    hide RetainChunk, InStore, KeysUnique, Legal;
    if events != [] {
      var front, last := events[..|events| - 1], events[|events| - 1];
      TableKeysStayUnique(s, front);
      var before := Run(s, front);
      if last.Append? && last.row == e {
        assert e in Step(before, last).table;
      } else {
        assert Entered(s, front, e) by {
          if e !in s.table {
            var i :| 0 <= i < |events| && events[i].Append? && events[i].row == e;
            assert front[i] == events[i];
          }
        }
        NothingIsLost(s, front, e);
        if last.Retain? {
          RoundLosesNothing(before, last.chunk, last.call, last.deleteFails, e);
        }
      }
    }
  }

  /** Archive files are append-only over every such run. */
  lemma {:induction false} ArchiveOnlyGrows(s: State, events: seq<Event>)
    ensures Preserves(s.store, Run(s, events).store)
  {
    hide Archive;
    if events != [] {
      var front, last := events[..|events| - 1], events[|events| - 1];
      ArchiveOnlyGrows(s, front);
      if last.Retain? {
        ReceiptIsExact(Run(s, front).store, last.chunk, last.call);
      }
    }
  }

  /** A round with a receipt whose delete goes through deletes exactly the rows
      of the chunk; any other round deletes none. */
  lemma RoundDeletesTheChunk(s: State, chunk: seq<Entry>, call: Call, deleteFails: bool)
    requires KeysUnique(s.table) && Legal(s, Retain(chunk, call, deleteFails))
    ensures var t := RetainChunk(s, chunk, call, deleteFails);
            var done := Free(s.store, chunk, call) && Faultless(call, |Keys(chunk, call.today)|) && !deleteFails;
            && (done ==> forall e :: e in t.table <==> e in s.table && e !in chunk)
            && (!done ==> t.table == s.table)
  {
    hide Archive, KeysUnique, Free, Faultless, Keys;
    var r := Archive(s.store, chunk, call);
    ReceiptIsExact(s.store, chunk, call);
    FinishesExactlyWhen(s.store, chunk, call);
    if r.receipt.Some? && !deleteFails {
      var ids := r.receipt.value.ids;
      WithoutMembers(s.table, ids);
      forall e | e in s.table
        ensures e.pk in ids <==> e in chunk
      {
        if e.pk in ids {
          var row := IdIsOfChunk(chunk, ids, e.pk);
          var i :| 0 <= i < |chunk| && chunk[i] == row;
          SameKeySameRow(s.table, row, e);
        }
        if e in chunk {
          IdOfChunk(chunk, ids, e);
        }
      }
      assert forall e | e in chunk :: e in s.table;
    }
  }

  lemma IdOfChunk(es: seq<Entry>, ids: seq<int>, e: Entry)
    requires multiset(ids) == multiset(Pks(es)) && e in es
    ensures e.pk in ids
  {
    var i :| 0 <= i < |es| && es[i] == e;
    assert Pks(es)[i] in Pks(es);
    assert e.pk in multiset(Pks(es));
    assert e.pk in multiset(ids);
  }

  // ---- two writers ---------------------------------------------------------------------------

  lemma OneKey(e: Entry, today: Day)
    ensures Keys([e], today) == [KeyOf(e, today)] && Group([e], KeyOf(e, today), today) == [e]
    ensures Pks([e]) == [e.pk] && PartitionContent([e], KeyOf(e, today), today) == Jsonl([ToRecord(e)])
  {
    assert [e][..0] == [];
    assert Keys([], today) == [] && Group([], KeyOf(e, today), today) == [];
  }

  /** A round on one row with a free path and no fault. */
  lemma OneRowRound(e: Entry, f: Entry, call: Call)
    requires e.pk != f.pk && Faultless(call, 1)
    ensures var key := KeyOf(e, call.today);
            var content := Jsonl([ToRecord(e)]);
            RetainChunk(State([e, f], map[]), [e], call, false)
            == State([f], map[DataPath(key, call.suffix) := content,
                              ChecksumPath(key, call.suffix) := ChecksumContent(key, call.suffix,
                                  call.digest(content))])
  {
    hide DataPath, ChecksumPath, ChecksumContent, PartitionContent, Keys, Group;
    var key := KeyOf(e, call.today);
    OneKey(e, call.today);
    PathsDistinct(key, key, call.suffix);
    assert call.faults(2 * 0) == NoFault && call.faults(2 * 0 + 1) == NoFault;
    var content := Jsonl([ToRecord(e)]);
    var store: Store := map[DataPath(key, call.suffix) := content,
                            ChecksumPath(key, call.suffix) := ChecksumContent(key, call.suffix, call.digest(content))];
    assert WritePartition(map[], [e], key, call, 0) == Written(store, true);
    assert WritePartitions(map[], [e], call, 0) == Written(map[], true);
    assert WritePartitions(map[], [e], call, 1) == Written(store, true);
    assert Ids([e], call.today, 0) == [];
    assert Ids([e], call.today, 1) == [] + [e.pk] == [e.pk];
    assert Archive(map[], [e], call).store == store;
    OnlySecondLeft(e, f);
  }

  lemma OnlySecondLeft(e: Entry, f: Entry)
    requires e.pk != f.pk
    ensures Without([e, f], [e.pk]) == [f]
  {
    assert [e, f][1..] == [f] && Without([f], [e.pk]) == [f] + [];
  }

  /** A lost row: two writers share a suffix and a partition, and one completes
      its round between the other's check and link. The second then overwrites
      the data file and raises at the checksum, and the first row is neither
      in the table nor in any archive file. */
  lemma RaceLosesRow(e: Entry, f: Entry, call: Call)
    requires e.pk != f.pk && KeyOf(e, call.today) == KeyOf(f, call.today) && Faultless(call, 1)
    ensures var before := State([e, f], map[]);
            var first := RetainChunk(before, [e], call, false);
            var second := WritePartitionRaced(before.store, first.store, [f], KeyOf(f, call.today), call);
            && e !in first.table && f in first.table && InStore(first.store, e)
            && !second.ok && !InStore(second.store, e)
  {
    hide DataPath, ChecksumPath, ChecksumContent, PartitionContent, RetainChunk;
    var key := KeyOf(e, call.today);
    OneRowRound(e, f, call);
    OneKey(e, call.today);
    OneKey(f, call.today);
    PathsDistinct(key, key, call.suffix);
    var first := RetainChunk(State([e, f], map[]), [e], call, false);
    LineCarriesEntry(e, ToRecord(e));
    assert first.store[DataPath(key, call.suffix)].records[0] == ToRecord(e);
    ChecksumIsNoRecord(key, call.suffix, call.digest(Jsonl([ToRecord(e)])));
    var second := WritePartitionRaced(map[], first.store, [f], key, call);
    assert second.store[DataPath(key, call.suffix)] == Jsonl([ToRecord(f)]);
    assert ToRecord(e).id != ToRecord(f).id;
  }

  lemma ChecksumIsNoRecord(key: Key, suffix: string, digest: string)
    ensures !ChecksumContent(key, suffix, digest).Jsonl?
  {
  }
}
