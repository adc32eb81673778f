/** What the answers of the wrapper mean: which answer a found record gives, that
    a finished request is replayed to every repetition within its time to live,
    that refusals have a cause, and that a failure frees the key. */
module IdempotencyAnswers {
  import opened Wrappers
  import opened Serialization
  import opened Idempotency
  import opened IdempotencySafety
  import opened IdempotencyServer

  // ---- one operation ----------------------------------------------------------

  /** A lookup, or the refetch after a lost race, that finds an unexpired record
      of its scope replays exactly a completed one with the request's hash,
      conflicts exactly with a processing one with that hash, and mismatches
      exactly when the hashes differ. One that finds none goes on to the purge,
      or runs the handler without a record. */
  lemma FoundRecordDecides(s: State, e: Event, rid: Rid)
    requires rid in s.requests
    requires (e == Lookup(rid) && s.requests[rid].phase.Looking?)
              || (e == Refetch(rid) && s.requests[rid].phase.Refetching?)
    ensures var r := s.requests[rid];
            var t := Step(s, e);
            && t.table == s.table && t.clock == s.clock
            && rid in t.requests
            && if r.scope in s.table && r.now < s.table[r.scope].expiresAt then
                 var found, phase := s.table[r.scope], t.requests[rid].phase;
                 && (phase == Replayed(found) <==> found.status == Completed && found.hash == r.hash)
                 && (phase == Conflict <==> found.status == Processing && found.hash == r.hash)
                 && (phase == HashMismatch <==> found.hash != r.hash)
                 && t.starts == s.starts && t.requests == s.requests[rid := r.(phase := phase)]
               else if e.Lookup? then t.starts == s.starts && t.requests == s.requests[rid := r.(phase := Purging)]
               else
                 && t.starts == s.starts + [rid]
                 && t.requests == s.requests[rid := r.(phase := Executing(None), startedAt := Some(s.clock),
                                                       recorded := false)]
  {
  }

  /** The purge removes exactly an expired record of the request's own scope. */
  lemma PurgeRemovesTheExpired(s: State, rid: Rid)
    requires rid in s.requests && s.requests[rid].phase.Purging?
    ensures var r := s.requests[rid];
            var gone := r.scope in s.table && s.table[r.scope].expiresAt <= r.now;
            var rest := if gone then s.table - {r.scope} else s.table;
            Step(s, Purge(rid)) == State(s.clock, rest, s.requests[rid := r.(phase := Creating)], s.starts)
  {
  }

  /** The creation fails exactly when the scope is taken. */
  lemma CreationNeedsAFreeScope(s: State, rid: Rid)
    requires rid in s.requests && s.requests[rid].phase.Creating?
    ensures var r := s.requests[rid];
            var record := Record(rid, r.hash, Processing, None, r.now + 24 * 3600);
            var running := r.(phase := Executing(Some(record)), startedAt := Some(s.clock), recorded := true);
            Step(s, Create(rid)) ==
            if r.scope in s.table then s.(requests := s.requests[rid := r.(phase := Refetching)])
            else State(s.clock, s.table[r.scope := record], s.requests[rid := running], s.starts + [rid])
  {
  }

  // ---- a key that is free -------------------------------------------------------

  /** The operations of one request, up to the creation of its record. */
  function Claiming(rid: Rid, scope: Scope, hash: string): seq<Event> {
    [Arrive(rid, scope, hash), Lookup(rid), Purge(rid), Create(rid)]
  }

  lemma RunOfFour(s: State, a: Event, b: Event, c: Event, d: Event)
    ensures Run(s, [a, b, c, d]) == Step(Step(Step(Step(s, a), b), c), d)
  {
    hide Step;
    var es := [a, b, c, d];
    assert es[..3] == [a, b, c] && es[..3][..2] == [a, b] && [a, b][..1] == [a] && [a][..0] == [];
    assert Run(s, [a]) == Step(s, a);
    assert Run(s, [a, b]) == Step(Run(s, [a]), b);
    assert Run(s, [a, b, c]) == Step(Run(s, [a, b]), c);
  }

  /** Without an unexpired record of its scope an undisturbed request executes,
      under a processing record with its hash that expires a day later; an
      expired record gives way to it, and other scopes keep theirs. */
  lemma FreeKeyIsProcessed(s: State, rid: Rid, scope: Scope, hash: string)
    requires rid !in s.requests
    requires scope in s.table ==> s.table[scope].expiresAt <= s.clock
    ensures var record := Record(rid, hash, Processing, None, s.clock + 24 * 3600);
            var running := Request(scope, hash, s.clock, Executing(Some(record)), Some(s.clock), true);
            Run(s, Claiming(rid, scope, hash))
            == State(s.clock, s.table[scope := record], s.requests[rid := running], s.starts + [rid])
  {
    hide Step, Run;
    RunOfFour(s, Arrive(rid, scope, hash), Lookup(rid), Purge(rid), Create(rid));
    var looking := Step(s, Arrive(rid, scope, hash));
    ArrivalLooks(s, rid, scope, hash);
    FoundRecordDecides(looking, Lookup(rid), rid);
    var purging := Step(looking, Lookup(rid));
    PurgeRemovesTheExpired(purging, rid);
    var creating := Step(purging, Purge(rid));
    CreationNeedsAFreeScope(creating, rid);
    var r := Request(scope, hash, s.clock, Creating, None, false);
    assert creating == State(s.clock, s.table - {scope}, s.requests[rid := r], s.starts);
    var record := Record(rid, hash, Processing, None, s.clock + 24 * 3600);
    assert (s.table - {scope})[scope := record] == s.table[scope := record];
  }

  lemma ArrivalLooks(s: State, rid: Rid, scope: Scope, hash: string)
    requires rid !in s.requests
    ensures Step(s, Arrive(rid, scope, hash))
         == s.(requests := s.requests[rid := Request(scope, hash, s.clock, Looking, None, false)])
  {
  }

  /** Once a handler failed and its record was deleted, the key is free: the
      next request with it executes. */
  lemma FailureFreesTheKey(s: State, x: Rid, rid: Rid, hash: string)
    requires x in s.requests && s.requests[x].phase.Raising? && s.requests[x].phase.own.Some?
    requires var scope := s.requests[x].scope; scope in s.table && s.table[scope].id == s.requests[x].phase.own.value.id
    requires rid !in s.requests
    ensures var scope := s.requests[x].scope;
            var freed := Step(s, Delete(x, false));
            && freed.table == s.table - {scope} && x in freed.requests && freed.requests[x].phase == Raised(true, true)
            && ReplyOf(freed.requests[x].phase) == ErrorReply
            && var t := Run(freed, Claiming(rid, scope, hash));
               rid in t.requests && t.requests[rid].phase.Executing? && t.requests[rid].recorded
  {
    hide Run;
    var freed := Step(s, Delete(x, false));
    assert freed.clock == s.clock && freed.requests.Keys == s.requests.Keys;
    FreeKeyIsProcessed(freed, rid, s.requests[x].scope, hash);
  }

  /** A delete that raises, or that has no record to delete, leaves the table. */
  lemma FailedDeleteKeepsTheTable(s: State, x: Rid, fails: bool)
    requires x in s.requests && s.requests[x].phase.Raising?
    requires fails || s.requests[x].phase.own.None?
              || (s.requests[x].scope in s.table
                  && s.table[s.requests[x].scope].id != s.requests[x].phase.own.value.id)
    ensures var t := Step(s, Delete(x, fails));
            && t.table == s.table && t.clock == s.clock && t.starts == s.starts && x in t.requests
            && t.requests[x].phase == Raised(s.requests[x].phase.own.Some?, s.requests[x].phase.own.Some? && !fails)
  {
  }

  // ---- completion --------------------------------------------------------------

  /** Within its time to live a recorded request that was answered stores its
      response under its own record, for its hash, until the same expiry. */
  lemma CompletionStoresTheResponse(clock: int, events: seq<Event>, x: Rid)
    requires var s := Run(Initial(clock), events);
             && x in s.requests && s.requests[x].phase.Answered? && s.requests[x].recorded
             && s.clock < s.requests[x].now + 24 * 3600
    ensures var s := Run(Initial(clock), events);
            var r := s.requests[x];
            var t := Step(s, Complete(x));
            && t.table == s.table[r.scope := Record(x, r.hash, Completed, Some(StoredOf(r.phase.response)),
                                                    r.now + 24 * 3600)]
            && x in t.requests && ReplyOf(t.requests[x].phase) == Answer(r.phase.response)
  {
    hide Run, Good, Step;
    RunIsGood(clock, events);
    var s := Run(Initial(clock), events);
    AnsweredOwns(s, x);
    BoundRecord(s, x);
    CompletionOverwrites(s, x);
  }

  lemma AnsweredOwns(s: State, x: Rid)
    requires Good(s) && x in s.requests && s.requests[x].phase.Answered? && s.requests[x].recorded
    ensures s.requests[x].phase.own == Some(NewRecord(x, s.requests[x].hash, s.requests[x].now))
  {
    hide StartsOk, Spaced, FirstIsRecorded;
    assert RequestOk(s, x);
  }

  lemma CompletionOverwrites(s: State, x: Rid)
    requires x in s.requests && s.requests[x].phase.Answered?
    requires s.requests[x].phase.own == Some(NewRecord(x, s.requests[x].hash, s.requests[x].now))
    requires s.requests[x].scope in s.table && s.table[s.requests[x].scope].id == x
    ensures var r := s.requests[x];
            var t := Step(s, Complete(x));
            && t.table == s.table[r.scope := Record(x, r.hash, Completed, Some(StoredOf(r.phase.response)),
                                                    r.now + 24 * 3600)]
            && x in t.requests && ReplyOf(t.requests[x].phase) == Answer(r.phase.response)
  {
  }

  /** A request that ran without a record answers and stores nothing. */
  lemma UnrecordedCompletionStoresNothing(s: State, x: Rid)
    requires x in s.requests && s.requests[x].phase.Answered? && s.requests[x].phase.own.None?
    ensures var t := Step(s, Complete(x));
            && t.table == s.table && x in t.requests
            && ReplyOf(t.requests[x].phase) == Answer(s.requests[x].phase.response)
  {
  }

  // ---- repetitions of a request -----------------------------------------------------

  /** The record of a request that executes, or has finished, within its time to live. */
  lemma BoundRecord(s: State, x: Rid)
    requires Good(s) && x in s.requests && s.requests[x].recorded && !Failed(s.requests[x])
    requires s.clock < s.requests[x].now + 24 * 3600
    ensures var r := s.requests[x];
            && r.scope in s.table && s.table[r.scope].id == x && s.table[r.scope].hash == r.hash
            && s.table[r.scope].expiresAt == r.now + 24 * 3600
            && (s.table[r.scope].status == Processing <==> InFlight(r))
            && (s.table[r.scope].status == Completed <==> r.phase.Finished?)
            && (r.phase.Finished? ==> s.table[r.scope].response == Some(StoredOf(r.phase.response)))
  {
    hide FirstIsRecorded;
    assert RequestOk(s, x);
    HeldAt(s, x);
    assert RecordOk(s, s.requests[x].scope);
  }

  lemma ClockAdvances(s: State, e: Event)
    ensures s.clock <= Step(s, e).clock
  {
  }

  lemma {:induction false} ClockAdvancesOverRuns(s: State, more: seq<Event>)
    ensures s.clock <= Run(s, more).clock
  {
    hide Step;
    if more != [] {
      ClockAdvancesOverRuns(s, more[..|more| - 1]);
      ClockAdvances(Run(s, more[..|more| - 1]), more[|more| - 1]);
    }
  }

  /** What a step does to a request that executes under a record: it stays one,
      finished requests stay as they are, and failures stay failures. */
  lemma RecordedStaysRecorded(s: State, e: Event, x: Rid)
    requires x in s.requests && s.requests[x].recorded && Started(s.requests[x])
    ensures x in Step(s, e).requests
    ensures var a, b := s.requests[x], Step(s, e).requests[x];
            && b.recorded && Started(b) && b.scope == a.scope && b.hash == a.hash && b.now == a.now
            && (Failed(a) ==> Failed(b)) && (a.phase.Finished? ==> b == a)
  {
  }

  /** The answer to a repetition of x: none yet, a mismatch of hashes, a replay
      of x's serialised response, or a conflict, unless x had already finished. */
  ghost predicate RepetitionOf(before: Request, x: Rid, now: Request, again: Request) {
    || again.phase == Looking
    || (again.hash != now.hash && again.phase == HashMismatch && ReplyOf(again.phase) == ReusedReply)
    || (again.hash == now.hash && again.phase == Conflict && ReplyOf(again.phase) == ConflictReply
        && !before.phase.Finished?)
    || (again.hash == now.hash && again.phase.Replayed? && now.phase.Finished?
        && ReplyOf(again.phase) == Cached(Some(StoredOf(now.phase.response)), x))
  }

  /** A request whose lookup comes after x began to execute under a record. */
  ghost predicate ComesAfter(s: State, x: Rid, rid: Rid) {
    && x in s.requests && s.requests[x].recorded && Started(s.requests[x])
    && (rid in s.requests ==> s.requests[rid].phase.Looking?)
  }

  /** Every repetition of a recorded request, within its time to live and as
      long as it has not failed: in every interleaving it is answered by the
      lookup. Once the request has finished the answer is a replay of its
      response exactly when the hashes are the same. */
  lemma {:induction false} RepetitionsAreAnswered(clock: int, events: seq<Event>, more: seq<Event>, x: Rid, rid: Rid)
    requires var s, t := Run(Initial(clock), events), Run(Run(Initial(clock), events), more);
             && ComesAfter(s, x, rid) && x in t.requests && !Failed(t.requests[x])
             && t.clock < s.requests[x].now + 24 * 3600
             && rid in t.requests && t.requests[rid].scope == s.requests[x].scope
    ensures var s, t := Run(Initial(clock), events), Run(Run(Initial(clock), events), more);
            RepetitionOf(s.requests[x], x, t.requests[x], t.requests[rid])
  {
    hide Step, Good, ReplyOf;
    var s, t := Run(Initial(clock), events), Run(Run(Initial(clock), events), more);
    if more != [] {
      var front, e := more[..|more| - 1], more[|more| - 1];
      var u := Run(s, front);
      RecordedStaysOverRuns(s, front, x);
      RecordedStaysRecorded(u, e, x);
      ClockAdvances(u, e);
      RunsCompose(Initial(clock), events, front);
      RunIsGood(clock, events + front);
      if rid in u.requests {
        IdentitiesStay(u, e, rid);
        RepetitionsAreAnswered(clock, events, front, x, rid);
      }
      RepetitionStep(s.requests[x], u, e, x, rid);
    }
  }

  lemma {:induction false} RecordedStaysOverRuns(s: State, more: seq<Event>, x: Rid)
    requires x in s.requests && s.requests[x].recorded && Started(s.requests[x])
    ensures x in Run(s, more).requests
    ensures var a, b := s.requests[x], Run(s, more).requests[x];
            && b.recorded && Started(b) && b.scope == a.scope && b.hash == a.hash && b.now == a.now
            && (Failed(a) ==> Failed(b)) && (a.phase.Finished? ==> b == a)
  {
    hide Step;
    if more != [] {
      RecordedStaysOverRuns(s, more[..|more| - 1], x);
      RecordedStaysRecorded(Run(s, more[..|more| - 1]), more[|more| - 1], x);
    }
  }

  lemma RepetitionStep(before: Request, u: State, e: Event, x: Rid, rid: Rid)
    requires Good(u) && x in u.requests && u.requests[x].recorded && Started(u.requests[x])
    requires x in Step(u, e).requests && !Failed(Step(u, e).requests[x]) && !Failed(u.requests[x])
    requires u.clock < u.requests[x].now + 24 * 3600
    requires before.phase.Finished? ==> u.requests[x].phase.Finished?
    requires rid in Step(u, e).requests && Step(u, e).requests[rid].scope == u.requests[x].scope
    requires rid in u.requests ==> RepetitionOf(before, x, u.requests[x], u.requests[rid])
    ensures RepetitionOf(before, x, Step(u, e).requests[x], Step(u, e).requests[rid])
  {
    hide Step, Good, Started;
    RecordedStaysRecorded(u, e, x);
    if rid !in u.requests {
      NewcomersLook(u, e, rid);
    } else if e == Lookup(rid) && u.requests[rid].phase.Looking? {
      IdentitiesStay(u, e, rid);
      RequestAt(u, rid);
      BoundRecord(u, x);
      FoundRecordDecides(u, e, rid);
      assert rid != x by { hide RepetitionOf; StartedIsNotLooking(u, x); }
      RepliesMean();
    } else {
      DecidedStays(u, e, rid);
    }
  }

  lemma StartedIsNotLooking(s: State, x: Rid)
    requires x in s.requests && Started(s.requests[x])
    ensures !s.requests[x].phase.Looking?
  {
  }

  lemma NewcomersLook(s: State, e: Event, rid: Rid)
    requires rid !in s.requests && rid in Step(s, e).requests
    ensures Step(s, e).requests[rid].phase == Looking
  {
  }

  lemma RequestAt(s: State, rid: Rid)
    requires Good(s) && rid in s.requests
    ensures s.requests[rid].now <= s.clock
  {
    hide StartsOk, Spaced, FirstIsRecorded;
    assert RequestOk(s, rid);
  }

  /** Only its own lookup moves a request that is looking, and nothing moves one
      that was refused or replayed. */
  lemma DecidedStays(s: State, e: Event, rid: Rid)
    requires rid in s.requests && (s.requests[rid].phase.Looking? || TurnedAway(s.requests[rid]))
    requires !(e == Lookup(rid) && s.requests[rid].phase.Looking?)
    ensures rid in Step(s, e).requests && Step(s, e).requests[rid] == s.requests[rid]
  {
  }

  /** What clients receive. */
  lemma RepliesMean()
    ensures ReplyOf(Conflict) == ConflictReply && ReplyOf(HashMismatch) == ReusedReply
    ensures forall found: Record :: ReplyOf(Replayed(found)) == Cached(found.response, found.id)
    ensures forall recorded, response :: ReplyOf(Finished(recorded, response)) == Answer(response)
  {
  }

  // ---- refusals have a cause ---------------------------------------------------------

  /** Another request of the scope that began to execute under a record, with the
      same hash or with another. */
  ghost predicate Cause(s: State, rid: Rid, x: Rid, sameHash: bool)
    requires rid in s.requests
  {
    && x != rid && x in s.requests && s.requests[x].recorded && Started(s.requests[x])
    && s.requests[x].scope == s.requests[rid].scope && (s.requests[x].hash == s.requests[rid].hash <==> sameHash)
  }

  ghost predicate HasCause(s: State, rid: Rid)
    requires rid in s.requests
  {
    && (s.requests[rid].phase.Conflict? ==> exists x :: Cause(s, rid, x, true))
    && (s.requests[rid].phase.HashMismatch? ==> exists x :: Cause(s, rid, x, false))
  }

  /** In every run a conflict is answered only because another request with the
      same hash executes or executed under the key, and a mismatch only because
      one with another hash did: a request alone with its key is never refused. */
  lemma {:induction false} RefusalsHaveACause(clock: int, events: seq<Event>, rid: Rid)
    requires rid in Run(Initial(clock), events).requests
    ensures HasCause(Run(Initial(clock), events), rid)
  {
    if events != [] {
      hide Step, HasCause, Good;
      var front, e := events[..|events| - 1], events[|events| - 1];
      var s := Run(Initial(clock), front);
      RunIsGood(clock, front);
      if rid in s.requests {
        RefusalsHaveACause(clock, front, rid);
        CauseStep(s, e, rid);
      } else {
        NewcomersLook(s, e, rid);
        assert HasCause(Step(s, e), rid) by { LookingHasNoCause(Step(s, e), rid); }
      }
    }
  }

  /** So a request that is the only one with its key executes, under a record. */
  lemma LoneRequestExecutes(clock: int, events: seq<Event>, rid: Rid)
    requires var s := Run(Initial(clock), events);
             && rid in s.requests && Ended(s.requests[rid].phase)
             && forall x | x in s.requests && x != rid :: s.requests[x].scope != s.requests[rid].scope
    ensures var s := Run(Initial(clock), events); Started(s.requests[rid]) && s.requests[rid].recorded
  {
    hide Run, Inv, Spaced, FirstIsRecorded;
    var s := Run(Initial(clock), events);
    RunIsGood(clock, events);
    RefusalsHaveACause(clock, events, rid);
    if s.requests[rid].phase.Replayed? {
      ReplaysAreFaithful(clock, events, rid);
    }
    StartedAt(s, rid);
    var j := StartIndex(s, rid);
    FirstStartIsRecorded(s, s.requests[rid].scope, j);
  }

  lemma StartedAt(s: State, rid: Rid)
    requires Good(s) && rid in s.requests && Started(s.requests[rid])
    ensures s.requests[rid].startedAt.Some?
  {
    hide StartsOk, Spaced, FirstIsRecorded;
    assert RequestOk(s, rid);
  }

  lemma LookingHasNoCause(s: State, rid: Rid)
    requires rid in s.requests && s.requests[rid].phase.Looking?
    ensures HasCause(s, rid)
  {
  }

  lemma CauseStep(s: State, e: Event, rid: Rid)
    requires Good(s) && rid in s.requests && HasCause(s, rid)
    ensures rid in Step(s, e).requests && HasCause(Step(s, e), rid)
  {
    hide Step, Good, Started;
    var t := Step(s, e);
    IdentitiesStay(s, e, rid);
    forall x, same | Cause(s, rid, x, same)
      ensures Cause(t, rid, x, same)
    {
      RecordedStaysRecorded(s, e, x);
    }
    var phase := s.requests[rid].phase;
    if (e == Lookup(rid) && phase.Looking?) || (e == Refetch(rid) && phase.Refetching?) {
      FoundRecordDecides(s, e, rid);
      var scope := s.requests[rid].scope;
      if scope in s.table {
        OwnerOf(s, scope);
        WaitingIsNotStarted(s, rid);
        RecordedStaysRecorded(s, e, s.table[scope].id);
        assert Cause(t, rid, s.table[scope].id, s.table[scope].hash == s.requests[rid].hash);
      }
    } else {
      NoNewRefusal(s, e, rid);
    }
  }

  lemma OwnerOf(s: State, scope: Scope)
    requires Good(s) && scope in s.table
    ensures var owner := s.table[scope].id;
            && owner in s.requests && s.requests[owner].scope == scope && s.requests[owner].recorded
            && s.requests[owner].hash == s.table[scope].hash && Started(s.requests[owner])
  {
    hide StartsOk, Spaced, FirstIsRecorded;
    assert RecordOk(s, scope);
    assert RequestOk(s, s.table[scope].id);
  }

  lemma WaitingIsNotStarted(s: State, rid: Rid)
    requires rid in s.requests && Waiting(s.requests[rid])
    ensures !Started(s.requests[rid])
  {
  }

  lemma NoNewRefusal(s: State, e: Event, rid: Rid)
    requires rid in s.requests
    requires !(e == Lookup(rid) && s.requests[rid].phase.Looking?)
    requires !(e == Refetch(rid) && s.requests[rid].phase.Refetching?)
    ensures rid in Step(s, e).requests
    ensures var a, b := s.requests[rid].phase, Step(s, e).requests[rid].phase;
            (b.Conflict? ==> a.Conflict?) && (b.HashMismatch? ==> a.HashMismatch?)
  {
  }
}
