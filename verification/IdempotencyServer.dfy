/** The wrapper itself, over a table of key records that it updates in place.
    Each database operation is one step of the protocol, and a call of the
    wrapper, with other requests at work between any two of its operations, is
    a run of it. */
module IdempotencyServer {
  import opened Wrappers
  import opened Serialization
  import opened Idempotency

  /** The answers of _process_idempotency_key. */
  datatype Action = Replay(found: Record) | InProgress | KeyReused | Process(record: Record) | ProcessWithoutKey

  datatype Outcome = Returns(response: Response) | Raises(deleteFails: bool)

  datatype Reply =
    | Cached(stored: Option<Stored>, originalId: Rid)
    | ConflictReply | ReusedReply
    | Answer(response: Response)
    | ErrorReply

  function ActionOf(phase: Phase): Action {
    match phase
    case Replayed(found) => Replay(found)
    case Conflict => InProgress
    case HashMismatch => KeyReused
    case Executing(Some(record)) => Process(record)
    case _ => ProcessWithoutKey
  }

  /** Events of other requests, and of the clock. */
  ghost predicate Foreign(events: seq<Event>, rid: Rid) {
    forall i | 0 <= i < |events| :: events[i].Tick? || events[i].rid != rid
  }

  lemma {:induction false} OthersLeave(s: State, events: seq<Event>, rid: Rid)
    requires rid in s.requests && Foreign(events, rid)
    ensures rid in Run(s, events).requests && Run(s, events).requests[rid] == s.requests[rid]
  {
    if events != [] {
      OthersLeave(s, events[..|events| - 1], rid);
    }
  }

  /** What the others do at each pause of a call. */
  type Interference = nat -> seq<Event>

  ghost predicate AllForeign(others: Interference, rid: Rid) {
    forall pause: nat :: Foreign(others(pause), rid)
  }

  class Server {
    var clock: int
    var table: Table
    // The protocol's bookkeeping. No decision below reads it: requests act on
    // the clock and the table, and only Interleave needs the other requests'
    // counters, to carry out their steps.
    var requests: map<Rid, Request>
    var starts: seq<Rid>

    function Abs(): State
      reads this
    {
      State(clock, table, requests, starts)
    }

    constructor (clock: int)
      ensures Abs() == Initial(clock)
    {
      this.clock := clock;
      table := map[];
      requests := map[];
      starts := [];
    }

    /** Moves the request on; the table is the caller's to update. */
    method Follow(e: Event)
      modifies this`requests, this`starts
      ensures requests == Step(old(Abs()), e).requests && starts == Step(old(Abs()), e).starts
    {
      var next := Step(Abs(), e);
      requests, starts := next.requests, next.starts;
    }

    /** What other requests do, and the time that passes, between two operations. */
    method Interleave(rid: Rid, others: seq<Event>, ghost start: State, ghost before: seq<Event>)
      returns (ghost trace: seq<Event>)
      requires rid in requests && Foreign(others, rid) && Abs() == Run(start, before)
      modifies this
      ensures Abs() == Run(start, trace)
      ensures rid in requests && requests[rid] == old(requests[rid])
    {
      OthersLeave(Abs(), others, rid);
      trace := Append(start, before, others);
      var next := Run(Abs(), others);
      clock, table, requests, starts := next.clock, next.table, next.requests, next.starts;
    }

    method Begin(rid: Rid, scope: Scope, hash: string) returns (now: int)
      requires rid !in requests
      modifies this
      ensures Abs() == Step(old(Abs()), Arrive(rid, scope, hash))
      ensures rid in requests && requests[rid] == Request(scope, hash, now, Looking, None, false)
      ensures now == old(clock)
    {
      now := clock;
      Follow(Arrive(rid, scope, hash));
    }

    method FindLive(rid: Rid, scope: Scope, now: int) returns (existing: Option<Record>)
      requires rid in requests && requests[rid].phase.Looking? && requests[rid].scope == scope
                && requests[rid].now == now
      modifies this
      ensures Abs() == Step(old(Abs()), Lookup(rid))
      ensures rid in requests
      ensures var phase := if existing.Some? then Verdict(existing.value, requests[rid].hash) else Purging;
              requests[rid] == old(requests[rid]).(phase := phase)
      ensures existing == Live(old(table), scope, now)
    {
      existing := if scope in table && table[scope].expiresAt > now then Some(table[scope]) else None;
      Follow(Lookup(rid));
    }

    method DeleteExpired(rid: Rid, scope: Scope, now: int)
      requires rid in requests && requests[rid].phase.Purging? && requests[rid].scope == scope
                && requests[rid].now == now
      modifies this
      ensures Abs() == Step(old(Abs()), Purge(rid))
      ensures rid in requests && requests[rid] == old(requests[rid]).(phase := Creating)
    {
      Follow(Purge(rid));
      if scope in table && table[scope].expiresAt <= now {
        table := table - {scope};
      }
    }

    method TryCreate(rid: Rid, scope: Scope, hash: string, now: int) returns (created: Option<Record>)
      requires rid in requests && requests[rid].phase.Creating?
      requires requests[rid].scope == scope && requests[rid].now == now && requests[rid].hash == hash
      modifies this
      ensures Abs() == Step(old(Abs()), Create(rid))
      ensures rid in requests && SameCall(requests[rid], old(requests[rid]))
      ensures requests[rid].phase == if created.Some? then Executing(created) else Refetching
      ensures created.None? ==> requests[rid] == old(requests[rid]).(phase := Refetching)
      ensures created == if scope in old(table) then None else Some(NewRecord(rid, hash, now))
    {
      Follow(Create(rid));
      if scope in table {
        return None;
      }
      var record := NewRecord(rid, hash, now);
      table := table[scope := record];
      return Some(record);
    }

    method FindAgain(rid: Rid, scope: Scope, now: int) returns (existing: Option<Record>)
      requires rid in requests && requests[rid].phase.Refetching? && requests[rid].scope == scope
                && requests[rid].now == now
      modifies this
      ensures Abs() == Step(old(Abs()), Refetch(rid))
      ensures rid in requests && SameCall(requests[rid], old(requests[rid]))
      ensures requests[rid].phase == if existing.Some? then Verdict(existing.value, old(requests[rid].hash))
                else Executing(None)
      ensures existing == Live(old(table), scope, now)
    {
      existing := if scope in table && table[scope].expiresAt > now then Some(table[scope]) else None;
      Follow(Refetch(rid));
    }

    /** _process_idempotency_key: the action it returns is the phase the request
        has reached in the protocol. */
    method ProcessKey(rid: Rid, scope: Scope, hash: string, others: Interference)
      returns (action: Action, ghost trace: seq<Event>)
      requires rid !in requests && AllForeign(others, rid)
      modifies this
      ensures Abs() == Run(old(Abs()), trace)
      ensures rid in requests && requests[rid].scope == scope && requests[rid].phase == PhaseOf(action)
      ensures requests[rid].hash == hash && requests[rid].now == old(clock)
    {
      hide Step, Run, Live;
      ghost var start := Abs();
      var now := Begin(rid, scope, hash);
      trace := Extend(start, NoEvents(start), Arrive(rid, scope, hash));
      trace := Interleave(rid, others(0), start, trace);
      var existing := FindLive(rid, scope, now);
      trace := Extend(start, trace, Lookup(rid));
      if existing.Some? {
        action := ActionOf(Verdict(existing.value, hash));
        return;
      }
      ghost var rest;
      action, rest := Claim(rid, scope, hash, now, others);
      trace := Append(start, trace, rest);
    }

    /** The rest of it: purge, try to create, and fetch again after a lost race. */
    method Claim(rid: Rid, scope: Scope, hash: string, now: int, others: Interference)
      returns (action: Action, ghost trace: seq<Event>)
      requires rid in requests && AllForeign(others, rid)
      requires requests[rid].phase.Purging? && requests[rid].scope == scope && requests[rid].now == now
                && requests[rid].hash == hash
      modifies this
      ensures Abs() == Run(old(Abs()), trace)
      ensures rid in requests && SameCall(requests[rid], old(requests[rid])) && requests[rid].phase == PhaseOf(action)
    {
      hide Step, Run, Live;
      ghost var start := Abs();
      trace := Interleave(rid, others(1), start, NoEvents(start));
      DeleteExpired(rid, scope, now);
      trace := Extend(start, trace, Purge(rid));
      trace := Interleave(rid, others(2), start, trace);
      var created := TryCreate(rid, scope, hash, now);
      trace := Extend(start, trace, Create(rid));
      if created.Some? {
        action := Process(created.value);
        return;
      }
      ghost var rest;
      action, rest := FetchAfterRace(rid, scope, hash, now, others);
      trace := Append(start, trace, rest);
    }

    method FetchAfterRace(rid: Rid, scope: Scope, hash: string, now: int, others: Interference)
      returns (action: Action, ghost trace: seq<Event>)
      requires rid in requests && AllForeign(others, rid)
      requires requests[rid].phase.Refetching? && requests[rid].scope == scope && requests[rid].now == now
                && requests[rid].hash == hash
      modifies this
      ensures Abs() == Run(old(Abs()), trace)
      ensures rid in requests && SameCall(requests[rid], old(requests[rid])) && requests[rid].phase == PhaseOf(action)
    {
      hide Step, Run, Live;
      ghost var start := Abs();
      trace := Interleave(rid, others(3), start, NoEvents(start));
      var existing := FindAgain(rid, scope, now);
      trace := Extend(start, trace, Refetch(rid));
      action := if existing.Some? then ActionOf(Verdict(existing.value, hash)) else ProcessWithoutKey;
    }

    method SaveCompleted(rid: Rid, scope: Scope, record: Record, response: Response) returns (saved: bool)
      requires rid in requests && requests[rid].phase == Answered(Some(record), response)
                && requests[rid].scope == scope
      modifies this
      ensures Abs() == Step(old(Abs()), Complete(rid))
      ensures rid in requests && SameCall(requests[rid], old(requests[rid]))
      ensures requests[rid].phase == if saved then Finished(true, response) else CompletionRaised
      ensures saved == Saved(old(table), scope, CompletedRecord(record, response)).Some?
    {
      Follow(Complete(rid));
      var completed := record.(status := Completed, response := Some(StoredOf(response)));
      saved := scope !in table || table[scope].id == record.id;
      if saved {
        table := table[scope := completed];
      }
    }

    method Discard(rid: Rid, scope: Scope, record: Record, fails: bool)
      requires rid in requests && requests[rid].phase == Raising(Some(record)) && requests[rid].scope == scope
      modifies this
      ensures Abs() == Step(old(Abs()), Delete(rid, fails))
      ensures rid in requests && SameCall(requests[rid], old(requests[rid]))
      ensures requests[rid].phase == Raised(true, !fails)
    {
      Follow(Delete(rid, fails));
      if !fails && scope in table && table[scope].id == record.id {
        table := table - {scope};
      }
    }

    /** The wrapper around a handler, called with what the handler will do. */
    method Handle(rid: Rid, scope: Scope, hash: string, outcome: Outcome, others: Interference)
      returns (reply: Reply, ghost trace: seq<Event>)
      requires rid !in requests && AllForeign(others, rid)
      modifies this
      ensures Abs() == Run(old(Abs()), trace)
      ensures rid in requests && Ended(requests[rid].phase) && reply == ReplyOf(requests[rid].phase)
      ensures requests[rid].scope == scope && requests[rid].hash == hash && requests[rid].now == old(clock)
      ensures requests[rid].phase.Finished? ==> outcome == Returns(requests[rid].phase.response)
      ensures requests[rid].phase.Raised? ==> outcome.Raises?
    {
      hide Step, Run;
      ghost var start := Abs();
      var action;
      action, trace := ProcessKey(rid, scope, hash, others);
      if action.Replay? || action.InProgress? || action.KeyReused? {
        reply := ReplyOf(PhaseOf(action));
        return;
      }
      ghost var rest;
      reply, rest := Execute(rid, scope, action, outcome, others);
      trace := Append(start, trace, rest);
    }

    /** Runs the handler, then completes or deletes the record, if there is one. */
    method Execute(rid: Rid, scope: Scope, action: Action, outcome: Outcome, others: Interference)
      returns (reply: Reply, ghost trace: seq<Event>)
      requires rid in requests && AllForeign(others, rid)
      requires (action.Process? || action.ProcessWithoutKey?) && requests[rid].phase == PhaseOf(action)
                && requests[rid].scope == scope
      modifies this
      ensures Abs() == Run(old(Abs()), trace)
      ensures rid in requests && Ended(requests[rid].phase) && reply == ReplyOf(requests[rid].phase)
      ensures SameCall(requests[rid], old(requests[rid]))
      ensures requests[rid].phase.Finished? ==> outcome == Returns(requests[rid].phase.response)
      ensures requests[rid].phase.Raised? ==> outcome.Raises?
    {
      hide Step, Run, Saved;
      ghost var start := Abs();
      trace := Interleave(rid, others(4), start, NoEvents(start));
      ghost var ran := if outcome.Returns? then HandlerReturns(rid, outcome.response) else HandlerRaises(rid);
      RunHandler(rid, outcome);
      trace := Extend(start, trace, ran);
      trace := Interleave(rid, others(5), start, trace);
      reply := Conclude(rid, scope, action, outcome);
      trace := Extend(start, trace, LastEvent(rid, outcome));
    }

    /** What the wrapper does with the handler's response or error. */
    method Conclude(rid: Rid, scope: Scope, action: Action, outcome: Outcome) returns (reply: Reply)
      requires action.Process? || action.ProcessWithoutKey?
      requires rid in requests && requests[rid].scope == scope
      requires outcome.Returns? ==> requests[rid].phase == Answered(PhaseOf(action).own, outcome.response)
      requires outcome.Raises? ==> requests[rid].phase == Raising(PhaseOf(action).own)
      modifies this
      ensures Abs() == Step(old(Abs()), LastEvent(rid, outcome))
      ensures rid in requests && Ended(requests[rid].phase) && reply == ReplyOf(requests[rid].phase)
      ensures SameCall(requests[rid], old(requests[rid]))
      ensures requests[rid].phase.Finished? ==> outcome == Returns(requests[rid].phase.response)
      ensures requests[rid].phase.Raised? ==> outcome.Raises?
    {
      hide Step, Saved;
      match outcome {
        case Returns(response) =>
          var saved := true;
          if action.Process? {
            saved := SaveCompleted(rid, scope, action.record, response);
          } else {
            CloseUnrecorded(rid, Complete(rid));
          }
          reply := if saved then Answer(response) else ErrorReply;
        case Raises(deleteFails) =>
          if action.Process? {
            Discard(rid, scope, action.record, deleteFails);
          } else {
            CloseUnrecorded(rid, Delete(rid, deleteFails));
          }
          reply := ErrorReply;
      }
    }

    /** A request without a record has nothing to complete or delete. */
    method CloseUnrecorded(rid: Rid, e: Event)
      requires rid in requests
      requires (e == Complete(rid) && requests[rid].phase.Answered?)
                || (e.Delete? && e.rid == rid && requests[rid].phase.Raising?)
      requires requests[rid].phase.own.None?
      modifies this
      ensures Abs() == Step(old(Abs()), e)
      ensures rid in requests && SameCall(requests[rid], old(requests[rid]))
      ensures requests[rid].phase == if e.Complete? then Finished(false, old(requests[rid].phase.response))
                else Raised(false, false)
    {
      Follow(e);
    }

    method RunHandler(rid: Rid, outcome: Outcome)
      requires rid in requests && requests[rid].phase.Executing?
      modifies this
      ensures Abs() == Step(old(Abs()), if outcome.Returns? then HandlerReturns(rid, outcome.response)
                else HandlerRaises(rid))
      ensures rid in requests && SameCall(requests[rid], old(requests[rid]))
      ensures requests[rid].phase == if outcome.Returns? then Answered(old(requests[rid].phase.own), outcome.response)
                else Raising(old(requests[rid].phase.own))
    {
      Follow(if outcome.Returns? then HandlerReturns(rid, outcome.response) else HandlerRaises(rid));
    }
  }

  /** The event that ends a request whose handler ran. */
  function LastEvent(rid: Rid, outcome: Outcome): Event {
    match outcome
    case Returns(_) => Complete(rid)
    case Raises(deleteFails) => Delete(rid, deleteFails)
  }

  function PhaseOf(action: Action): Phase {
    match action
    case Replay(found) => Replayed(found)
    case InProgress => Conflict
    case KeyReused => HashMismatch
    case Process(record) => Executing(Some(record))
    case ProcessWithoutKey => Executing(None)
  }

  predicate SameCall(a: Request, b: Request) {
    a.scope == b.scope && a.hash == b.hash && a.now == b.now
  }

  /** No step is left for the request. */
  predicate Ended(phase: Phase) {
    phase.Replayed? || phase.Conflict? || phase.HashMismatch? || phase.Finished? || phase.Raised?
        || phase.CompletionRaised?
  }

  /** What the client of a request that has come to an end receives. */
  function ReplyOf(phase: Phase): Reply {
    match phase
    case Replayed(found) => Cached(found.response, found.id)
    case Conflict => ConflictReply
    case HashMismatch => ReusedReply
    case Finished(_, response) => Answer(response)
    case _ => ErrorReply
  }

  ghost function Append(s: State, trace: seq<Event>, others: seq<Event>): (longer: seq<Event>)
    ensures Run(s, longer) == Run(Run(s, trace), others)
    decreases |others|
  {
    if others == [] then trace
    else Extend(s, Append(s, trace, others[..|others| - 1]), others[|others| - 1])
  }

  ghost function NoEvents(s: State): (trace: seq<Event>)
    ensures Run(s, trace) == s
  {
    []
  }

  /** One more event at the end of a run. */
  ghost function Extend(s: State, trace: seq<Event>, e: Event): (longer: seq<Event>)
    ensures Run(s, longer) == Step(Run(s, trace), e)
  {
    assert (trace + [e])[..|trace|] == trace;
    trace + [e]
  }
}
