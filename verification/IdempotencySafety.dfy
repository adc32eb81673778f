/** What every run of the idempotency protocol keeps, whatever the interleaving:
    ownership of records, fidelity of replays, and the spacing of executions. */
module IdempotencySafety {
  import opened Wrappers
  import opened Serialization
  import opened Idempotency

  // ---- the invariant --------------------------------------------------------

  /** The request decided to run its handler. */
  predicate Started(r: Request) {
    r.phase.Executing? || r.phase.Answered? || r.phase.Raising? || r.phase.Finished? || r.phase.Raised?
        || r.phase.CompletionRaised?
  }

  predicate InFlight(r: Request) {
    r.phase.Executing? || r.phase.Answered? || r.phase.Raising?
  }

  predicate Failed(r: Request) {
    r.phase.Raising? || r.phase.Raised?
  }

  /** A request's own copy of its record is the one it created. */
  ghost predicate OwnCopy(rid: Rid, r: Request) {
    && (InFlight(r) ==> r.phase.own == if r.recorded then Some(NewRecord(rid, r.hash, r.now)) else None)
    && (r.phase.Finished? || r.phase.Raised? ==> r.phase.recorded == r.recorded)
  }

  /** The request that executed under a replayed record, and what it answered. */
  ghost predicate Faithful(s: State, r: Request, found: Record) {
    && found.id in s.requests
    && var owner := s.requests[found.id];
       && owner.scope == r.scope && owner.hash == r.hash && owner.recorded
       && owner.phase.Finished? && found.response == Some(StoredOf(owner.phase.response))
  }

  ghost predicate RequestOk(s: State, rid: Rid)
    requires rid in s.requests
  {
    var r := s.requests[rid];
    && r.now <= s.clock
    && OwnCopy(rid, r)
    && (r.startedAt.Some? <==> Started(r)) && (r.recorded ==> Started(r))
    && (r.startedAt.Some? ==> r.startedAt.value <= s.clock)
    && (r.phase.Replayed? ==> Faithful(s, r, r.phase.found))
  }

  /** A record belongs to the request that created it: while it is processing
      the owner is in flight, unless its delete failed; once completed it holds
      the owner's serialised response. */
  ghost predicate RecordOk(s: State, scope: Scope)
    requires scope in s.table
  {
    var record := s.table[scope];
    && record.id in s.requests
    && var owner := s.requests[record.id];
       && owner.scope == scope && owner.recorded
       && match record.status
          case Processing =>
            && record == NewRecord(record.id, owner.hash, owner.now)
            && (InFlight(owner) || owner.phase == Raised(true, false))
          case Completed =>
            && owner.phase.Finished?
            && record == CompletedRecord(NewRecord(record.id, owner.hash, owner.now), owner.phase.response)
  }

  ghost predicate Inv(s: State) {
    && (forall rid | rid in s.requests :: RequestOk(s, rid))
    && (forall scope | scope in s.table :: RecordOk(s, scope))
  }

  /** Requests other than the one that moves keep their part of the invariant
      when finished requests stay as they are. */
  lemma OthersKeep(s: State, t: State, moved: Rid)
    requires Inv(s) && s.clock <= t.clock
    requires moved in s.requests ==>
              moved in t.requests && (s.requests[moved].phase.Finished? ==> t.requests[moved] == s.requests[moved])
    requires forall rid | rid in s.requests && rid != moved :: rid in t.requests && t.requests[rid] == s.requests[rid]
    ensures forall rid | rid in s.requests && rid != moved :: RequestOk(t, rid)
    ensures forall r: Request, found | Faithful(s, r, found) :: Faithful(t, r, found)
  {
    forall rid | rid in s.requests && rid != moved ensures RequestOk(t, rid) {
      assert RequestOk(s, rid);
    }
  }

  /** Records of scopes the step does not touch keep their part. */
  lemma OtherScopesKeep(s: State, t: State, moved: Rid, touched: Scope)
    requires Inv(s)
    requires moved in s.requests ==> s.requests[moved].scope == touched
    requires forall rid | rid in s.requests && rid != moved :: rid in t.requests && t.requests[rid] == s.requests[rid]
    requires forall scope | scope in t.table && scope != touched :: scope in s.table && t.table[scope] == s.table[scope]
    ensures forall scope | scope in t.table && scope != touched :: RecordOk(t, scope)
  {
    forall scope | scope in t.table && scope != touched ensures RecordOk(t, scope) {
      assert RecordOk(s, scope);
    }
  }

  /** The frame of every step of a request: it is enough to look at that
      request and at the record in its scope. */
  lemma Frame(s: State, t: State, moved: Rid)
    requires Inv(s) && moved in s.requests && moved in t.requests
    requires t.clock == s.clock && t.requests.Keys == s.requests.Keys
    requires forall rid | rid in s.requests && rid != moved :: t.requests[rid] == s.requests[rid]
    requires forall scope | scope != s.requests[moved].scope ::
              (scope in t.table <==> scope in s.table) && (scope in t.table ==> t.table[scope] == s.table[scope])
    requires s.requests[moved].phase.Finished? ==> t.requests[moved] == s.requests[moved]
    requires RequestOk(t, moved)
    requires s.requests[moved].scope in t.table ==> RecordOk(t, s.requests[moved].scope)
    ensures Inv(t)
  {
    OthersKeep(s, t, moved);
    OtherScopesKeep(s, t, moved, s.requests[moved].scope);
  }

  lemma InvAt(s: State, rid: Rid)
    requires Inv(s) && rid in s.requests
    ensures RequestOk(s, rid)
    ensures s.requests[rid].scope in s.table ==> RecordOk(s, s.requests[rid].scope)
  {
  }

  lemma LookupKeepsInv(s: State, rid: Rid)
    requires Inv(s) && rid in s.requests && s.requests[rid].phase.Looking?
    ensures Inv(LookupStep(s, rid))
  {
    hide Inv;
    InvAt(s, rid);
    Frame(s, LookupStep(s, rid), rid);
  }

  lemma RefetchKeepsInv(s: State, rid: Rid)
    requires Inv(s) && rid in s.requests && s.requests[rid].phase.Refetching?
    ensures Inv(RefetchStep(s, rid))
  {
    hide Inv;
    InvAt(s, rid);
    Frame(s, RefetchStep(s, rid), rid);
  }

  lemma PurgeKeepsInv(s: State, rid: Rid)
    requires Inv(s) && rid in s.requests && s.requests[rid].phase.Purging?
    ensures Inv(PurgeStep(s, rid))
  {
    hide Inv;
    var r := s.requests[rid];
    InvAt(s, rid);
    Frame(s, PurgeStep(s, rid), rid);
  }

  lemma CreateKeepsInv(s: State, rid: Rid)
    requires Inv(s) && rid in s.requests && s.requests[rid].phase.Creating?
    ensures Inv(CreateStep(s, rid))
  {
    hide Inv;
    var r := s.requests[rid];
    InvAt(s, rid);
    Frame(s, CreateStep(s, rid), rid);
  }

  lemma HandlerKeepsInv(s: State, rid: Rid, phase: Phase)
    requires Inv(s) && rid in s.requests && s.requests[rid].phase.Executing?
    requires (phase.Answered? || phase.Raising?) && phase.own == s.requests[rid].phase.own
    ensures Inv(Move(s, rid, phase))
  {
    hide Inv;
    var r := s.requests[rid];
    InvAt(s, rid);
    Frame(s, Move(s, rid, phase), rid);
  }

  lemma CompleteKeepsInv(s: State, rid: Rid)
    requires Inv(s) && rid in s.requests && s.requests[rid].phase.Answered?
    ensures Inv(CompleteStep(s, rid, s.requests[rid].phase.own, s.requests[rid].phase.response))
  {
    hide Inv;
    var r := s.requests[rid];
    InvAt(s, rid);
    Frame(s, CompleteStep(s, rid, r.phase.own, r.phase.response), rid);
  }

  lemma DeleteKeepsInv(s: State, rid: Rid, fails: bool)
    requires Inv(s) && rid in s.requests && s.requests[rid].phase.Raising?
    ensures Inv(DeleteStep(s, rid, s.requests[rid].phase.own, fails))
  {
    hide Inv;
    var r := s.requests[rid];
    InvAt(s, rid);
    Frame(s, DeleteStep(s, rid, r.phase.own, fails), rid);
  }

  lemma MoveKeepsInv(s: State, e: Event)
    requires Inv(s) && !e.Tick? && !e.Arrive? && e.rid in s.requests
    ensures Inv(Step(s, e))
  {
    hide Inv, LookupStep, PurgeStep, CreateStep, RefetchStep, CompleteStep, DeleteStep;
    var phase := s.requests[e.rid].phase;
    if phase.Looking? {
      LookupKeepsInv(s, e.rid);
    } else if phase.Refetching? {
      RefetchKeepsInv(s, e.rid);
    } else if phase.Purging? {
      PurgeKeepsInv(s, e.rid);
    } else if phase.Creating? {
      CreateKeepsInv(s, e.rid);
    } else if phase.Executing? {
      HandlerKeepsInv(s, e.rid, if e.HandlerReturns? then Answered(phase.own, e.response) else Raising(phase.own));
    } else if phase.Answered? {
      CompleteKeepsInv(s, e.rid);
    } else if phase.Raising? && e.Delete? {
      DeleteKeepsInv(s, e.rid, e.fails);
    }
  }

  /** Time passes, or a request arrives. */
  lemma QuietKeepsInv(s: State, t: State, arrived: set<Rid>)
    requires Inv(s) && t.table == s.table && t.clock >= s.clock
    requires arrived !! s.requests.Keys && t.requests.Keys == s.requests.Keys + arrived
    requires forall rid | rid in s.requests :: t.requests[rid] == s.requests[rid]
    requires forall rid | rid in arrived ::
              t.requests[rid] == Request(t.requests[rid].scope, t.requests[rid].hash, s.clock, Looking, None, false)
    ensures Inv(t)
  {
    forall rid | rid in t.requests
      ensures RequestOk(t, rid)
    {
      if rid in s.requests {
        assert RequestOk(s, rid);
      }
    }
    forall scope | scope in t.table
      ensures RecordOk(t, scope)
    {
      assert RecordOk(s, scope);
    }
  }

  lemma StepKeepsInv(s: State, e: Event)
    requires Inv(s)
    ensures Inv(Step(s, e))
  {
    hide Inv, LookupStep, PurgeStep, CreateStep, RefetchStep, CompleteStep, DeleteStep;
    if e.Tick? || (e.Arrive? && e.rid !in s.requests) {
      QuietKeepsInv(s, Step(s, e), if e.Tick? then {} else {e.rid});
    } else if !e.Arrive? && e.rid in s.requests {
      MoveKeepsInv(s, e);
    }
  }

  // ---- spacing of executions -------------------------------------------------

  /** A request that executes under a record and has not failed. */
  predicate Binding(s: State, x: Rid) {
    x in s.requests && s.requests[x].recorded && !Failed(s.requests[x])
  }

  predicate SameScope(s: State, x: Rid, y: Rid) {
    x in s.requests && y in s.requests && s.requests[x].scope == s.requests[y].scope
  }

  /** Its record is still in the table, or its time to live is over. */
  predicate Held(s: State, x: Rid)
    requires x in s.requests
  {
    var r := s.requests[x];
    (r.scope in s.table && s.table[r.scope].id == x) || s.clock >= r.now + TTL
  }

  ghost predicate StartsOk(s: State) {
    && (forall i | 0 <= i < |s.starts| :: s.starts[i] in s.requests && s.requests[s.starts[i]].startedAt.Some?)
    && (forall i, j | 0 <= i < j < |s.starts| :: s.starts[i] != s.starts[j])
    && (forall rid | rid in s.requests && s.requests[rid].startedAt.Some? :: rid in s.starts)
  }

  ghost predicate Spaced(s: State)
    requires StartsOk(s)
  {
    && (forall x | x in s.starts && Binding(s, x) :: Held(s, x))
    && (forall i, j | 0 <= i < j < |s.starts| && SameScope(s, s.starts[i], s.starts[j]) && Binding(s, s.starts[i]) ::
          s.requests[s.starts[j]].startedAt.value >= s.requests[s.starts[i]].now + TTL)
  }

  /** A recorded start in this scope among the first n starts. */
  ghost predicate RecordedStart(s: State, scope: Scope, n: nat) {
    exists i :: 0 <= i < |s.starts| && i < n && s.starts[i] in s.requests
                && s.requests[s.starts[i]].scope == scope && s.requests[s.starts[i]].recorded
  }

  /** Only after a start under a record can a request lose the race to create
      one, and so start without. */
  ghost predicate FirstIsRecorded(s: State) {
    && (forall rid | rid in s.requests && s.requests[rid].phase.Refetching? ::
        RecordedStart(s, s.requests[rid].scope, |s.starts|))
    && (forall j | 0 <= j < |s.starts| && s.starts[j] in s.requests && !s.requests[s.starts[j]].recorded ::
        RecordedStart(s, s.requests[s.starts[j]].scope, j))
  }

  ghost predicate Good(s: State) {
    Inv(s) && StartsOk(s) && Spaced(s) && FirstIsRecorded(s)
  }

  /** Steps that start no handler: identities stay, failures stay, and a record
      leaves the table only when it expired or its owner failed. */
  lemma QuietKeepsGood(s: State, t: State)
    requires Good(s) && Inv(t)
    requires t.starts == s.starts && t.clock >= s.clock && s.requests.Keys <= t.requests.Keys
    requires forall rid | rid in s.requests ::
               var a, b := s.requests[rid], t.requests[rid];
               a.scope == b.scope && a.now == b.now && a.recorded == b.recorded && a.startedAt == b.startedAt
                   && (Failed(a) ==> Failed(b))
    requires forall rid | rid in t.requests && rid !in s.requests ::
              t.requests[rid].phase.Looking? && t.requests[rid].startedAt.None?
    requires forall rid | rid in s.requests && t.requests[rid].phase.Refetching? ::
               s.requests[rid].phase.Refetching? || s.requests[rid].scope in s.table
    requires forall x | x in s.starts && Binding(t, x) && Held(s, x) :: Held(t, x)
    ensures Good(t)
  {
    forall x | x in t.starts && Binding(t, x) ensures Held(t, x) {
      assert x in s.requests && Binding(s, x);
    }
    forall i, j | 0 <= i < j < |t.starts| && SameScope(t, t.starts[i], t.starts[j]) && Binding(t, t.starts[i])
      ensures t.requests[t.starts[j]].startedAt.value >= t.requests[t.starts[i]].now + TTL
    {
      assert SameScope(s, s.starts[i], s.starts[j]) && Binding(s, s.starts[i]);
    }
    forall scope, n: nat | RecordedStart(s, scope, n) ensures RecordedStart(t, scope, n) {
      var i :| 0 <= i < |s.starts| && i < n && s.starts[i] in s.requests && s.requests[s.starts[i]].scope == scope
          && s.requests[s.starts[i]].recorded;
      assert t.starts[i] in t.requests;
    }
    forall rid | rid in t.requests && t.requests[rid].phase.Refetching?
      ensures RecordedStart(t, t.requests[rid].scope, |t.starts|) {
      if !s.requests[rid].phase.Refetching? {
        RecordHasStart(s, s.requests[rid].scope);
      }
    }
  }

  lemma RecordHasStart(s: State, scope: Scope)
    requires Good(s) && scope in s.table
    ensures RecordedStart(s, scope, |s.starts|)
  {
    assert RecordOk(s, scope);
    var owner := s.table[scope].id;
    assert RequestOk(s, owner);
    var i :| 0 <= i < |s.starts| && s.starts[i] == owner;
  }

  /** A step that starts a handler. */
  ghost predicate Starts(s: State, t: State, rid: Rid) {
    && rid in s.requests && s.requests[rid].startedAt.None? && t.requests.Keys == s.requests.Keys
    && t.starts == s.starts + [rid] && t.clock == s.clock
    && (forall other | other in s.requests && other != rid :: t.requests[other] == s.requests[other])
    && t.requests[rid].scope == s.requests[rid].scope && t.requests[rid].now == s.requests[rid].now
    && t.requests[rid].startedAt == Some(s.clock) && !t.requests[rid].phase.Refetching?
  }

  lemma StartKeepsList(s: State, t: State, rid: Rid)
    requires Good(s) && Starts(s, t, rid)
    ensures rid !in s.starts && StartsOk(t)
  {
    hide Inv, Spaced, FirstIsRecorded;
    assert forall i | 0 <= i < |s.starts| :: s.requests[s.starts[i]].startedAt.Some?;
    assert forall i | 0 <= i < |s.starts| :: t.starts[i] == s.starts[i];
    assert t.starts[|s.starts|] == rid;
    forall other | other in t.requests && t.requests[other].startedAt.Some? ensures other in t.starts {
      if other != rid {
        assert other in s.starts;
      }
    }
  }

  /** By then every earlier binding request of the scope is past its time to live. */
  lemma StartKeepsSpacing(s: State, t: State, rid: Rid)
    requires Good(s) && Starts(s, t, rid) && StartsOk(t) && rid !in s.starts
    requires t.requests[rid].recorded ==> Held(t, rid)
    requires forall x | x in s.starts && Binding(s, x) && s.requests[x].scope == s.requests[rid].scope ::
              s.clock >= s.requests[x].now + TTL
    requires forall x | x in s.starts && Binding(s, x) && Held(s, x) :: Held(t, x)
    ensures Spaced(t)
  {
    hide Inv, FirstIsRecorded;
    forall x | x in t.starts && Binding(t, x) ensures Held(t, x) {
      if x != rid {
        assert x in s.starts && Binding(s, x);
      }
    }
    forall i, j | 0 <= i < j < |t.starts| && SameScope(t, t.starts[i], t.starts[j]) && Binding(t, t.starts[i])
      ensures t.requests[t.starts[j]].startedAt.value >= t.requests[t.starts[i]].now + TTL
    {
      assert t.starts[i] == s.starts[i] && s.starts[i] in s.starts && Binding(s, s.starts[i]);
      if j < |s.starts| {
        assert t.starts[j] == s.starts[j] && SameScope(s, s.starts[i], s.starts[j]);
      }
    }
  }

  lemma RecordedStays(s: State, t: State, rid: Rid, scope: Scope, n: nat)
    requires Starts(s, t, rid) && rid !in s.starts && RecordedStart(s, scope, n)
    ensures RecordedStart(t, scope, n)
  {
    var i :| 0 <= i < |s.starts| && i < n && s.starts[i] in s.requests && s.requests[s.starts[i]].scope == scope
        && s.requests[s.starts[i]].recorded;
    assert t.starts[i] == s.starts[i] && s.starts[i] in s.starts;
  }

  lemma StartKeepsFirst(s: State, t: State, rid: Rid)
    requires Good(s) && Starts(s, t, rid) && StartsOk(t) && rid !in s.starts
    requires t.requests[rid].recorded || RecordedStart(s, s.requests[rid].scope, |s.starts|)
    ensures FirstIsRecorded(t)
  {
    hide Inv, Spaced, RecordedStart;
    forall scope, n: nat | RecordedStart(s, scope, n) ensures RecordedStart(t, scope, n) {
      RecordedStays(s, t, rid, scope, n);
    }
    forall other | other in t.requests && t.requests[other].phase.Refetching?
      ensures RecordedStart(t, t.requests[other].scope, |t.starts|) {
      assert RecordedStart(t, s.requests[other].scope, |s.starts|);
      LaterCounts(t, s.requests[other].scope, |s.starts|, |t.starts|);
    }
    forall j | 0 <= j < |t.starts| && t.starts[j] in t.requests && !t.requests[t.starts[j]].recorded
      ensures RecordedStart(t, t.requests[t.starts[j]].scope, j)
    {
      if j < |s.starts| {
        assert t.starts[j] == s.starts[j] && s.starts[j] in s.starts;
        assert RecordedStart(s, s.requests[s.starts[j]].scope, j);
      }
    }
  }

  lemma LaterCounts(s: State, scope: Scope, n: nat, m: nat)
    requires RecordedStart(s, scope, n) && n <= m
    ensures RecordedStart(s, scope, m)
  {
  }

  // ---- every step keeps the spacing -------------------------------------------

  lemma HeldAt(s: State, x: Rid)
    requires Good(s) && x in s.starts && Binding(s, x)
    ensures Held(s, x)
  {
  }

  lemma PurgeKeepsGood(s: State, rid: Rid)
    requires Good(s) && rid in s.requests && s.requests[rid].phase.Purging?
    ensures Good(PurgeStep(s, rid))
  {
    hide StartsOk, Spaced, FirstIsRecorded;
    var t, r := PurgeStep(s, rid), s.requests[rid];
    assert RequestOk(s, rid);
    forall x | x in s.starts && Binding(t, x) && Held(s, x) ensures Held(t, x) {
      if r.scope in s.table && s.requests[x].scope == r.scope {
        assert RecordOk(s, r.scope);
      }
    }
    PurgeKeepsInv(s, rid);
    QuietKeepsGood(s, t);
  }

  lemma CreateKeepsGood(s: State, rid: Rid)
    requires Good(s) && rid in s.requests && s.requests[rid].phase.Creating?
    ensures Good(CreateStep(s, rid))
  {
    hide Inv, StartsOk, Spaced, FirstIsRecorded, RecordOk, Faithful;
    var t, r := CreateStep(s, rid), s.requests[rid];
    CreateKeepsInv(s, rid);
    if r.scope in s.table {
      QuietKeepsGood(s, t);
    } else {
      InvAt(s, rid);
      forall x | x in s.starts && Binding(s, x) && s.requests[x].scope == r.scope
        ensures s.clock >= s.requests[x].now + TTL {
        HeldAt(s, x);
      }
      StartKeepsGood(s, t, rid);
    }
  }

  lemma StartKeepsGood(s: State, t: State, rid: Rid)
    requires Good(s) && Inv(t) && Starts(s, t, rid)
    requires t.requests[rid].recorded ==> Held(t, rid)
    requires t.requests[rid].recorded || RecordedStart(s, s.requests[rid].scope, |s.starts|)
    requires forall x | x in s.starts && Binding(s, x) && s.requests[x].scope == s.requests[rid].scope ::
              s.clock >= s.requests[x].now + TTL
    requires forall x | x in s.starts && Binding(s, x) && Held(s, x) :: Held(t, x)
    ensures Good(t)
  {
    StartKeepsList(s, t, rid);
    StartKeepsSpacing(s, t, rid);
    StartKeepsFirst(s, t, rid);
  }

  lemma RefetchKeepsGood(s: State, rid: Rid)
    requires Good(s) && rid in s.requests && s.requests[rid].phase.Refetching?
    ensures Good(RefetchStep(s, rid))
  {
    hide Inv, StartsOk, Spaced, RecordOk, Faithful, RecordedStart;
    var t, r := RefetchStep(s, rid), s.requests[rid];
    RefetchKeepsInv(s, rid);
    InvAt(s, rid);
    if Live(s.table, r.scope, r.now).Some? {
      QuietKeepsGood(s, t);
    } else {
      forall x | x in s.starts && Binding(s, x) && s.requests[x].scope == r.scope
        ensures s.clock >= s.requests[x].now + TTL {
        HeldAt(s, x);
        if r.scope in s.table {
          ExpiryOf(s, r.scope);
        }
      }
      StartKeepsGood(s, t, rid);
    }
  }

  lemma ExpiryOf(s: State, scope: Scope)
    requires scope in s.table && RecordOk(s, scope)
    ensures s.table[scope].id in s.requests && s.table[scope].expiresAt == s.requests[s.table[scope].id].now + TTL
  {
  }

  lemma CompleteKeepsGood(s: State, rid: Rid)
    requires Good(s) && rid in s.requests && s.requests[rid].phase.Answered?
    ensures Good(CompleteStep(s, rid, s.requests[rid].phase.own, s.requests[rid].phase.response))
  {
    hide Inv, StartsOk, Spaced, FirstIsRecorded, RecordOk, Faithful;
    var r := s.requests[rid];
    InvAt(s, rid);
    CompleteKeepsInv(s, rid);
    QuietKeepsGood(s, CompleteStep(s, rid, r.phase.own, r.phase.response));
  }

  lemma DeleteKeepsGood(s: State, rid: Rid, fails: bool)
    requires Good(s) && rid in s.requests && s.requests[rid].phase.Raising?
    ensures Good(DeleteStep(s, rid, s.requests[rid].phase.own, fails))
  {
    hide Inv, StartsOk, Spaced, FirstIsRecorded;
    var r := s.requests[rid];
    InvAt(s, rid);
    DeleteKeepsInv(s, rid, fails);
    QuietKeepsGood(s, DeleteStep(s, rid, r.phase.own, fails));
  }

  lemma StepKeepsGood(s: State, e: Event)
    requires Good(s)
    ensures Good(Step(s, e))
  {
    hide Inv, StartsOk, Spaced, FirstIsRecorded, PurgeStep, CreateStep, RefetchStep, CompleteStep, DeleteStep;
    StepKeepsInv(s, e);
    if e.Tick? || e.Arrive? || e.rid !in s.requests {
      QuietKeepsGood(s, Step(s, e));
    } else {
      var phase := s.requests[e.rid].phase;
      if e.Purge? && phase.Purging? {
        PurgeKeepsGood(s, e.rid);
      } else if e.Create? && phase.Creating? {
        CreateKeepsGood(s, e.rid);
      } else if e.Refetch? && phase.Refetching? {
        RefetchKeepsGood(s, e.rid);
      } else if e.Complete? && phase.Answered? {
        CompleteKeepsGood(s, e.rid);
      } else if e.Delete? && phase.Raising? {
        DeleteKeepsGood(s, e.rid, e.fails);
      } else {
        QuietKeepsGood(s, Step(s, e));
      }
    }
  }

  lemma {:induction false} RunIsGood(clock: int, events: seq<Event>)
    ensures Good(Run(Initial(clock), events))
  {
    if events != [] {
      hide Good, Step;
      RunIsGood(clock, events[..|events| - 1]);
      StepKeepsGood(Run(Initial(clock), events[..|events| - 1]), events[|events| - 1]);
    }
  }

  // ---- theorems over every run -------------------------------------------------

  /** Each processing record is owned by exactly one request, the one that
      created it, which is in flight unless its delete failed. */
  lemma ProcessingRecordsAreOwned(clock: int, events: seq<Event>, scope: Scope)
    requires var s := Run(Initial(clock), events); scope in s.table && s.table[scope].status == Processing
    ensures var s := Run(Initial(clock), events);
            var owner := s.table[scope].id;
            && owner in s.requests && s.requests[owner].scope == scope && s.requests[owner].recorded
            && (InFlight(s.requests[owner]) || s.requests[owner].phase == Raised(true, false))
            && forall other | other in s.requests && InFlight(s.requests[other])
                && s.requests[other].phase.own == Some(s.table[scope]) :: other == owner
  {
    RunIsGood(clock, events);
    var s := Run(Initial(clock), events);
    assert RecordOk(s, scope);
    forall other | other in s.requests && InFlight(s.requests[other])
        && s.requests[other].phase.own == Some(s.table[scope])
      ensures other == s.table[scope].id
    {
      assert RequestOk(s, other);
    }
  }

  /** A replay returns the serialised response of the one request that executed
      under the found record, and only to a request with the same hash. */
  lemma ReplaysAreFaithful(clock: int, events: seq<Event>, rid: Rid)
    requires var s := Run(Initial(clock), events); rid in s.requests && s.requests[rid].phase.Replayed?
    ensures var s := Run(Initial(clock), events);
            var found := s.requests[rid].phase.found;
            && found.id in s.requests && found.id != rid
            && var owner := s.requests[found.id];
               && owner.scope == s.requests[rid].scope && owner.hash == s.requests[rid].hash
               && owner.phase.Finished? && owner.recorded && found.response == Some(StoredOf(owner.phase.response))
  {
    RunIsGood(clock, events);
    assert RequestOk(Run(Initial(clock), events), rid);
  }

  lemma {:induction false} IdentitiesStayOverRuns(s: State, more: seq<Event>, rid: Rid)
    requires rid in s.requests
    ensures rid in Run(s, more).requests
    ensures var a, b := s.requests[rid], Run(s, more).requests[rid];
              a.scope == b.scope && a.hash == b.hash && a.now == b.now
  {
    hide Step;
    if more != [] {
      IdentitiesStayOverRuns(s, more[..|more| - 1], rid);
      IdentitiesStay(Run(s, more[..|more| - 1]), more[|more| - 1], rid);
    }
  }

  lemma {:induction false} RunsCompose(s: State, events: seq<Event>, more: seq<Event>)
    ensures Run(s, events + more) == Run(Run(s, events), more)
  {
    hide Step;
    if more == [] {
      assert events + more == events;
    } else {
      RunsCompose(s, events, more[..|more| - 1]);
      assert (events + more)[..|events + more| - 1] == events + more[..|more| - 1];
    }
  }

  /** Whenever one record is in the table, now and later, it is of the same
      scope with the same hash and expiry, even if it was deleted and saved
      again in between. */
  lemma RecordsKeepTheirHash(clock: int, events: seq<Event>, more: seq<Event>, scope: Scope, later: Scope)
    requires scope in Run(Initial(clock), events).table && later in Run(Initial(clock), events + more).table
    requires Run(Initial(clock), events).table[scope].id == Run(Initial(clock), events + more).table[later].id
    ensures var r, q := Run(Initial(clock), events).table[scope], Run(Initial(clock), events + more).table[later];
            later == scope && q.hash == r.hash && q.expiresAt == r.expiresAt
  {
    hide StartsOk, Spaced, FirstIsRecorded, Run;
    RunIsGood(clock, events);
    RunIsGood(clock, events + more);
    var s, t := Run(Initial(clock), events), Run(Initial(clock), events + more);
    assert RecordOk(s, scope) && RecordOk(t, later);
    RunsCompose(Initial(clock), events, more);
    IdentitiesStayOverRuns(s, more, s.table[scope].id);
  }

  lemma IdentitiesStay(s: State, e: Event, rid: Rid)
    requires rid in s.requests
    ensures rid in Step(s, e).requests
    ensures var a, b := s.requests[rid], Step(s, e).requests[rid];
              a.scope == b.scope && a.hash == b.hash && a.now == b.now
  {
  }

  /** Two executions in one scope: the later decision comes no earlier than one
      time to live after the earlier request captured its clock, provided that
      request ran under a record and has not failed. */
  lemma ExecutionsAreSpaced(clock: int, events: seq<Event>, i: nat, j: nat)
    requires var s := Run(Initial(clock), events); i < j < |s.starts|
    requires var s := Run(Initial(clock), events); SameScope(s, s.starts[i], s.starts[j]) && Binding(s, s.starts[i])
    ensures var s := Run(Initial(clock), events);
            s.starts[j] in s.requests && s.requests[s.starts[j]].startedAt.Some?
            && s.requests[s.starts[j]].startedAt.value >= s.requests[s.starts[i]].now + TTL
  {
    RunIsGood(clock, events);
  }

  ghost predicate NoFailure(s: State, scope: Scope) {
    forall rid | rid in s.requests && s.requests[rid].scope == scope :: !Failed(s.requests[rid])
  }

  /** No request that executed under a record has outlived its time to live. */
  ghost predicate NoneExpired(s: State, scope: Scope) {
    forall rid | rid in s.requests && s.requests[rid].scope == scope && s.requests[rid].recorded ::
        s.clock < s.requests[rid].now + TTL
  }

  /** The first start of a scope ran under a record; and when no handler of the
      scope has failed, every later one comes at least a time to live after the
      first request captured its clock. */
  lemma LaterStartsAreLate(clock: int, events: seq<Event>, scope: Scope, first: nat, j: nat)
    requires var s := Run(Initial(clock), events);
             && first < j < |s.starts| && StartOf(s, first, scope) && StartOf(s, j, scope)
             && (forall k | 0 <= k < first :: !StartOf(s, k, scope))
             && NoFailure(s, scope)
    ensures var s := Run(Initial(clock), events);
            && s.requests[s.starts[first]].recorded && s.requests[s.starts[j]].startedAt.Some?
            && s.requests[s.starts[j]].startedAt.value >= s.requests[s.starts[first]].now + TTL
  {
    RunIsGood(clock, events);
    var s := Run(Initial(clock), events);
    FirstStartIsRecorded(s, scope, first);
    ExecutionsAreSpaced(clock, events, first, j);
  }

  predicate StartOf(s: State, k: nat, scope: Scope) {
    k < |s.starts| && s.starts[k] in s.requests && s.requests[s.starts[k]].scope == scope
  }

  lemma FirstStartIsRecorded(s: State, scope: Scope, first: nat)
    requires FirstIsRecorded(s) && StartOf(s, first, scope) && forall k | 0 <= k < first :: !StartOf(s, k, scope)
    ensures s.requests[s.starts[first]].recorded
  {
    if !s.requests[s.starts[first]].recorded {
      assert RecordedStart(s, scope, first);
      var i :| 0 <= i < |s.starts| && i < first && s.starts[i] in s.requests
               && s.requests[s.starts[i]].scope == scope && s.requests[s.starts[i]].recorded;
      assert StartOf(s, i, scope);
    }
  }

  predicate Waiting(r: Request) {
    r.phase.Looking? || r.phase.Purging? || r.phase.Creating? || r.phase.Refetching?
  }

  predicate TurnedAway(r: Request) {
    r.phase.Replayed? || r.phase.Conflict? || r.phase.HashMismatch?
  }

  /** At most once: in every interleaving in which no handler of the scope
      failed and no record of it expired, at most one request executes, it does
      so under a record, and each other one is still on its way to a verdict or
      was answered by a replay, a conflict or a hash mismatch. */
  lemma AtMostOneExecution(clock: int, events: seq<Event>, scope: Scope, x: Rid, y: Rid)
    requires var s := Run(Initial(clock), events); NoFailure(s, scope) && NoneExpired(s, scope)
    requires var s := Run(Initial(clock), events);
              x in s.requests && y in s.requests && s.requests[x].scope == scope && s.requests[y].scope == scope
    requires Started(Run(Initial(clock), events).requests[x])
    ensures var s := Run(Initial(clock), events);
            && s.requests[x].recorded
            && (x != y ==> !Started(s.requests[y]) && (Waiting(s.requests[y]) || TurnedAway(s.requests[y])))
  {
    RunIsGood(clock, events);
    var s := Run(Initial(clock), events);
    assert RequestOk(s, x) && RequestOk(s, y);
    var i := StartIndex(s, x);
    StartIsRecorded(s, scope, i);
    if Started(s.requests[y]) && x != y {
      var j := StartIndex(s, y);
      StartIsRecorded(s, scope, j);
      SecondStartIsLate(s, if i < j then i else j, if i < j then j else i);
    }
  }

  lemma StartIndex(s: State, rid: Rid) returns (i: nat)
    requires Good(s) && rid in s.requests && s.requests[rid].startedAt.Some?
    ensures i < |s.starts| && s.starts[i] == rid
  {
    i :| 0 <= i < |s.starts| && s.starts[i] == rid;
  }

  /** By the second start of a scope the first one's time to live is over. */
  lemma SecondStartIsLate(s: State, i: nat, j: nat)
    requires Good(s) && i < j < |s.starts|
    requires SameScope(s, s.starts[i], s.starts[j]) && Binding(s, s.starts[i])
    ensures s.clock >= s.requests[s.starts[i]].now + TTL
  {
    hide FirstIsRecorded, RecordOk;
    assert RequestOk(s, s.starts[j]);
  }

  /** process_without_idempotency is unreachable under the same conditions. */
  lemma StartIsRecorded(s: State, scope: Scope, j: nat)
    requires Good(s) && NoFailure(s, scope) && NoneExpired(s, scope) && j < |s.starts|
    requires s.starts[j] in s.requests && s.requests[s.starts[j]].scope == scope
    ensures s.requests[s.starts[j]].recorded
  {
    if !s.requests[s.starts[j]].recorded {
      assert RecordedStart(s, scope, j);
      var i :| 0 <= i < |s.starts| && i < j && s.starts[i] in s.requests && s.requests[s.starts[i]].scope == scope
          && s.requests[s.starts[i]].recorded;
      SecondStartIsLate(s, i, j);
    }
  }
}
