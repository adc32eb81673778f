/** Runs of a submission's life: content set, policies assigned, full saves,
    reloads and purges, and what its stored row satisfies throughout. */
module SubmissionRuns {
  import opened Wrappers
  import opened Utf8
  import opened Retention
  import opened Submissions

  /** The instance in memory and the row in the database. */
  datatype World = World(memory: Fields, stored: Option<Fields>)

  datatype Event =
    | Assign(policy: string)
    | Set(content: Text, file: string, size: int, checksum: string)
    | Save(now: int, backfilled: string)
    | Purge(now: int, ok: bool)
    | Reload

  function Fresh(policy: string): World {
    World(Fields([], NO_FILE, 0, "", "", policy, None, None), None)
  }

  /** The assignments that end purge_content. */
  function Cleared(f: Fields, now: int): Fields {
    f.(content := [], file := NO_FILE, context := "", purgedAt := Some(now), expiresAt := None)
  }

  function SaveStep(w: World, now: int, backfilled: string): World {
    var backfill := w.memory.file != NO_FILE && w.memory.checksum == "";
    var f := Synced(if backfill then w.memory.(checksum := backfilled) else w.memory, w.stored, now);
    World(f, if Accepted(f) then Some(f) else w.stored)
  }

  /** A purge works on the stored row; a failed one leaves the row alone, and
      its caller drops the instance. */
  function PurgeStep(w: World, now: int, ok: bool): World {
    if w.stored.None? then w
    else if w.stored.value.purgedAt.Some? || !ok then World(w.stored.value, w.stored)
    else World(Cleared(w.stored.value, now), Some(Cleared(w.stored.value, now)))
  }

  function Step(w: World, e: Event): World {
    match e
    case Assign(policy) => w.(memory := w.memory.(policy := policy))
    case Set(content, file, size, checksum) =>
      w.(memory := w.memory.(content := content, file := file, size := size, checksum := checksum))
    case Save(now, backfilled) => SaveStep(w, now, backfilled)
    case Purge(now, ok) => PurgeStep(w, now, ok)
    case Reload => if w.stored.Some? then World(w.stored.value, w.stored) else w
  }

  /** Content is set only while unpurged; a successful set leaves exactly one
      of the two forms. */
  predicate Legal(w: World, e: Event) {
    e.Set? ==> w.memory.purgedAt.None? && (e.content == [] <==> e.file != NO_FILE)
  }

  function Run(policy: string, events: seq<Event>): World {
    if events == [] then Fresh(policy) else Step(Run(policy, events[..|events| - 1]), events[|events| - 1])
  }

  predicate LegalRun(policy: string, events: seq<Event>) {
    events == [] || (LegalRun(policy, events[..|events| - 1])
        && Legal(Run(policy, events[..|events| - 1]), events[|events| - 1]))
  }

  /** The accepted saves of a run. */
  function History(policy: string, events: seq<Event>): seq<Saved> {
    if events == [] then []
    else
      var front := History(policy, events[..|events| - 1]);
      var w := Run(policy, events);
      var last := events[|events| - 1];
      if last.Save? && Accepted(w.memory) then front + [Saved(w.memory.policy, last.now)] else front
  }

  // ---- the invariant ------------------------------------------------------------------

  /** Memory never breaks the two exclusive constraints; a row that exists is
      accepted, agrees with memory on purge and expiry, and carries the
      deadline its saves give it. */
  predicate Inv(w: World, history: seq<Saved>) {
    && NotBoth(w.memory) && PurgedCleared(w.memory)
    && (w.stored.None? <==> history == [])
    && (w.stored.None? ==> w.memory.purgedAt.None?)
    && (w.stored.Some? ==> Sound(w.memory, w.stored.value, history))
  }

  predicate Sound(memory: Fields, row: Fields, history: seq<Saved>) {
    && Accepted(row) && Accepted(memory)
    && memory.purgedAt == row.purgedAt && memory.expiresAt == row.expiresAt
    && (row.purgedAt.Some? ==> row.expiresAt.None?)
    && (row.purgedAt.None? ==>
          && history != [] && history[|history| - 1].policy == row.policy && Known(row.policy)
          && row.expiresAt == Deadline(history))
  }

  lemma SaveKeepsInv(w: World, now: int, backfilled: string, history: seq<Saved>)
    requires Inv(w, history)
    ensures var v := SaveStep(w, now, backfilled);
            Inv(v, if Accepted(v.memory) then history + [Saved(v.memory.policy, now)] else history)
    ensures Accepted(SaveStep(w, now, backfilled).memory) <==> Accepted(w.memory)
  {
    var v := SaveStep(w, now, backfilled);
    if Accepted(v.memory) && w.memory.purgedAt.None? {
      var longer := history + [Saved(v.memory.policy, now)];
      assert longer[..|longer| - 1] == history;
      assert longer[|longer| - 1].policy == v.memory.policy;
      if w.stored.Some? {
        assert longer[|longer| - 2] == history[|history| - 1];
      }
    }
  }

  lemma OtherStepKeepsInv(w: World, e: Event, history: seq<Saved>)
    requires Inv(w, history) && Legal(w, e) && !e.Save?
    ensures Inv(Step(w, e), history)
  {
    hide Deadline, Known;
  }

  lemma {:induction false} RunKeepsInv(policy: string, events: seq<Event>)
    requires LegalRun(policy, events)
    ensures Inv(Run(policy, events), History(policy, events))
  {
    hide Inv, Step, SaveStep, Legal;
    if events == [] {
      FreshInv(policy);
    } else {
      var front, e := events[..|events| - 1], events[|events| - 1];
      RunKeepsInv(policy, front);
      var w := Run(policy, front);
      if e.Save? {
        SaveKeepsInv(w, e.now, e.backfilled, History(policy, front));
        SaveIsSaveStep(w, e);
      } else {
        OtherStepKeepsInv(w, e, History(policy, front));
      }
    }
  }

  lemma SaveIsSaveStep(w: World, e: Event)
    requires e.Save?
    ensures Step(w, e) == SaveStep(w, e.now, e.backfilled)
  {
  }

  lemma FreshInv(policy: string)
    ensures Inv(Fresh(policy), [])
  {
  }

  /** Purged content is gone; other content is inline or in a file, not both. */
  predicate Consistent(f: Fields) {
    if f.purgedAt.Some? then f.content == [] && f.file == "" else f.content == [] <==> f.file != ""
  }

  /** The method saves as the runs do: what it prepares and accepts is a save
      step, with the digest of a readable file as the backfilled checksum. */
  lemma SaveIsAStep(f: Fields, stored: Option<Fields>, files: Files, readFails: bool, digest: Bytes -> string, now: int)
    ensures var backfilled := if f.file in files && !readFails then digest(files[f.file]) else f.checksum;
            var prepared := Prepared(f, stored, files, readFails, digest, now);
            SaveStep(World(f, stored), now, backfilled)
            == World(prepared, if Accepted(f) then Some(prepared) else stored)
  {
  }

  // ---- main results ---------------------------------------------------------------------

  /** The three constraints hold of the stored row and, once content has been
      set, of the instance, so every later save is accepted. */
  lemma {:induction false} ConstraintsAlwaysHold(policy: string, events: seq<Event>)
    requires LegalRun(policy, events)
    ensures var w := Run(policy, events);
            && NotBoth(w.memory) && PurgedCleared(w.memory)
            && (w.stored.Some? ==> Accepted(w.stored.value))
            && ((exists i | 0 <= i < |events| :: events[i].Set?) ==> Accepted(w.memory))
            && (w.stored.Some? ==> Consistent(w.stored.value))
            && ((exists i | 0 <= i < |events| :: events[i].Set?) ==> Consistent(w.memory))
  {
    hide SaveStep, Synced;
    RunKeepsInv(policy, events);
    if i :| 0 <= i < |events| && events[i].Set? {
      var front, e := events[..|events| - 1], events[|events| - 1];
      var w := Run(policy, front);
      if !e.Set? {
        assert front[i].Set?;
        ConstraintsAlwaysHold(policy, front);
        RunKeepsInv(policy, front);
        if e.Save? {
          SaveKeepsInv(w, e.now, e.backfilled, History(policy, front));
        }
      }
    }
  }

  /** Over any run of full saves: the stored row expires exactly when it is
      unpurged under a timed policy, a period after that policy was first
      stored without a change since; its policy is a known one. */
  lemma ExpiryFollowsThePolicy(policy: string, events: seq<Event>)
    requires LegalRun(policy, events) && Run(policy, events).stored.Some?
    ensures var row, history := Run(policy, events).stored.value, History(policy, events);
            && (row.expiresAt.Some? <==> row.purgedAt.None? && Timed(row.policy))
            && (row.purgedAt.None? ==> Known(row.policy))
            && (row.expiresAt.Some? ==> history != [] && history[|history| - 1].policy == row.policy
                                        && row.expiresAt.value == Since(history) + Period(row.policy).value)
  {
    hide Run, History, Since;
    RunKeepsInv(policy, events);
  }

  /** Saving an unknown policy on unpurged content stores DO_NOT_STORE. */
  lemma UnknownPolicyFailsClosed(policy: string, events: seq<Event>, unknown: string, now: int, backfilled: string)
    requires LegalRun(policy, events) && !Known(unknown)
    requires var w := Run(policy, events); w.memory.purgedAt.None? && Accepted(w.memory)
    ensures var w := SaveStep(Step(Run(policy, events), Assign(unknown)), now, backfilled);
            w.stored.Some? && w.stored.value.policy == DO_NOT_STORE && w.stored.value.expiresAt.None?
  {
  }

  /** Without a policy change or a purge, the deadline of a stored row never moves. */
  lemma {:induction false} DeadlineNeverMoves(policy: string, events: seq<Event>, more: seq<Event>)
    requires LegalRun(policy, events + more)
    requires forall i | 0 <= i < |more| :: !more[i].Assign? && !more[i].Purge?
    requires var w := Run(policy, events); w.stored.Some? && w.memory.policy == w.stored.value.policy
    ensures var w, v := Run(policy, events), Run(policy, events + more);
            && v.stored.Some? && v.stored.value.expiresAt == w.stored.value.expiresAt
            && v.memory.policy == v.stored.value.policy == w.stored.value.policy
  {
    hide Synced, SaveStep;
    if more == [] {
      assert events + more == events;
    } else {
      var front, e := more[..|more| - 1], more[|more| - 1];
      var all := events + more;
      assert all[..|all| - 1] == events + front;
      DeadlineNeverMoves(policy, events, front);
      RunKeepsInv(policy, events + front);
      if e.Save? {
        RepeatedSave(Run(policy, events + front), e.now, e.backfilled, History(policy, events + front));
      }
    }
  }

  lemma RepeatedSave(w: World, now: int, backfilled: string, history: seq<Saved>)
    requires Inv(w, history) && w.stored.Some? && w.memory.policy == w.stored.value.policy
    ensures var v := SaveStep(w, now, backfilled);
            && v.stored == Some(v.memory) && v.memory.expiresAt == w.stored.value.expiresAt
            && v.memory.policy == w.stored.value.policy
  {
    hide Since;
  }
}
