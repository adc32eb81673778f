/** The idempotency-key protocol as a state machine: any number of requests,
    each at its own point of the wrapper, over one table of key records. */
module Idempotency {
  import opened Wrappers
  import opened Serialization

  /** The columns of the unique constraint. */
  datatype Scope = Scope(org: nat, key: string, endpoint: string)

  type Rid = nat

  /** Seconds in IDEMPOTENCY_KEY_TTL_HOURS. */
  const TTL := 24 * 3600

  datatype RecordStatus = Processing | Completed

  /** A key record. Its primary key, a fresh UUID, is the number of the request
      that created it, which creates at most one. */
  datatype Record = Record(id: Rid, hash: string, status: RecordStatus, response: Option<Stored>, expiresAt: int)

  /** Where a request stands; a record is the request's own in-memory copy. */
  datatype Phase =
    | Looking | Purging | Creating | Refetching
    | Executing(own: Option<Record>)
    | Answered(own: Option<Record>, response: Response)
    | Raising(own: Option<Record>)
    | Replayed(found: Record) | Conflict | HashMismatch
    | Finished(recorded: bool, response: Response)
    | Raised(recorded: bool, deleted: bool)
    | CompletionRaised

  datatype Request = Request(scope: Scope, hash: string, now: int, phase: Phase, startedAt: Option<int>, recorded: bool)

  type Table = map<Scope, Record>

  datatype State = State(clock: int, table: Table, requests: map<Rid, Request>, starts: seq<Rid>)

  // ---- the database operations --------------------------------------------

  /** filter(..., expires_at__gt=now).first() */
  function Live(table: Table, scope: Scope, now: int): Option<Record> {
    if scope in table && table[scope].expiresAt > now then Some(table[scope]) else None
  }

  /** filter(..., expires_at__lte=now).delete() */
  function Purged(table: Table, scope: Scope, now: int): Table {
    if scope in table && table[scope].expiresAt <= now then table - {scope} else table
  }

  /** delete() on an instance: the row with its primary key, if it still exists. */
  function Deleted(table: Table, scope: Scope, id: Rid): Table {
    if scope in table && table[scope].id == id then table - {scope} else table
  }

  /** save() on an instance: update its row, or insert one when the row is gone;
      None when the insert violates the unique constraint. */
  function Saved(table: Table, scope: Scope, record: Record): Option<Table> {
    if scope !in table || table[scope].id == record.id then Some(table[scope := record]) else None
  }

  /** What a found record means for a request with this hash. */
  function Verdict(record: Record, hash: string): Phase {
    if record.hash != hash then HashMismatch
    else if record.status == Processing then Conflict
    else Replayed(record)
  }

  function NewRecord(rid: Rid, hash: string, now: int): Record {
    Record(rid, hash, Processing, None, now + TTL)
  }

  function CompletedRecord(record: Record, response: Response): Record {
    record.(status := Completed, response := Some(StoredOf(response)))
  }

  // ---- steps ---------------------------------------------------------------

  datatype Event =
    | Tick(seconds: nat)
    | Arrive(rid: Rid, scope: Scope, hash: string)
    | Lookup(rid: Rid) | Purge(rid: Rid) | Create(rid: Rid) | Refetch(rid: Rid)
    | HandlerReturns(rid: Rid, response: Response) | HandlerRaises(rid: Rid)
    | Complete(rid: Rid) | Delete(rid: Rid, fails: bool)

  function Move(s: State, rid: Rid, phase: Phase): State
    requires rid in s.requests
  {
    s.(requests := s.requests[rid := s.requests[rid].(phase := phase)])
  }

  /** The decision to run the handler, with or without a record. */
  function Start(s: State, rid: Rid, record: Option<Record>): State
    requires rid in s.requests
  {
    s.(requests := s.requests[rid := s.requests[rid].(phase := Executing(record), startedAt := Some(s.clock),
        recorded := record.Some?)],
       starts := s.starts + [rid])
  }

  function LookupStep(s: State, rid: Rid): State
    requires rid in s.requests
  {
    var r := s.requests[rid];
    var found := Live(s.table, r.scope, r.now);
    Move(s, rid, if found.Some? then Verdict(found.value, r.hash) else Purging)
  }

  function PurgeStep(s: State, rid: Rid): State
    requires rid in s.requests
  {
    var r := s.requests[rid];
    Move(s.(table := Purged(s.table, r.scope, r.now)), rid, Creating)
  }

  function CreateStep(s: State, rid: Rid): State
    requires rid in s.requests
  {
    var r := s.requests[rid];
    if r.scope in s.table then Move(s, rid, Refetching)
    else
      var record := NewRecord(rid, r.hash, r.now);
      Start(s.(table := s.table[r.scope := record]), rid, Some(record))
  }

  function RefetchStep(s: State, rid: Rid): State
    requires rid in s.requests
  {
    var r := s.requests[rid];
    var found := Live(s.table, r.scope, r.now);
    if found.Some? then Move(s, rid, Verdict(found.value, r.hash)) else Start(s, rid, None)
  }

  function CompleteStep(s: State, rid: Rid, record: Option<Record>, response: Response): State
    requires rid in s.requests
  {
    if record.None? then Move(s, rid, Finished(false, response))
    else
      var saved := Saved(s.table, s.requests[rid].scope, CompletedRecord(record.value, response));
      if saved.None? then Move(s, rid, CompletionRaised)
      else Move(s.(table := saved.value), rid, Finished(true, response))
  }

  function DeleteStep(s: State, rid: Rid, record: Option<Record>, fails: bool): State
    requires rid in s.requests
  {
    if record.None? || fails then Move(s, rid, Raised(record.Some?, false))
    else Move(s.(table := Deleted(s.table, s.requests[rid].scope, record.value.id)), rid, Raised(true, true))
  }

  /** One step of one request, or time passing; an event that does not fit the
      state changes nothing. */
  function Step(s: State, e: Event): State {
    if e.Tick? then s.(clock := s.clock + e.seconds)
    else if e.Arrive? then
      if e.rid in s.requests then s
      else s.(requests := s.requests[e.rid := Request(e.scope, e.hash, s.clock, Looking, None, false)])
    else if e.rid !in s.requests then s
    else
      var phase := s.requests[e.rid].phase;
      if e.Lookup? && phase.Looking? then LookupStep(s, e.rid)
      else if e.Purge? && phase.Purging? then PurgeStep(s, e.rid)
      else if e.Create? && phase.Creating? then CreateStep(s, e.rid)
      else if e.Refetch? && phase.Refetching? then RefetchStep(s, e.rid)
      else if e.HandlerReturns? && phase.Executing? then Move(s, e.rid, Answered(phase.own, e.response))
      else if e.HandlerRaises? && phase.Executing? then Move(s, e.rid, Raising(phase.own))
      else if e.Complete? && phase.Answered? then CompleteStep(s, e.rid, phase.own, phase.response)
      else if e.Delete? && phase.Raising? then DeleteStep(s, e.rid, phase.own, e.fails)
      else s
  }

  function Run(s: State, events: seq<Event>): State {
    if events == [] then s else Step(Run(s, events[..|events| - 1]), events[|events| - 1])
  }

  function Initial(clock: int): State {
    State(clock, map[], map[], [])
  }
}
