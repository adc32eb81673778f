/** Purge never lies: for every pattern of failures and any number of attempts,
    a committed purge means the copies are gone, and anything else leaves the
    rows as they were and nothing more stored than before. */
module PurgeSafety {
  import opened Retention
  import opened Wrappers
  import opened Submissions
  import opened SubmissionRuns
  import opened RunFiles
  import opened RunSweep
  import opened Purge

  /** No file has the empty name, run directories are trees, and a purged port
      has no file. */
  predicate Sane(s: State) {
    && NO_FILE !in s.files
    && (forall k | 0 <= k < |s.trees| :: WellFormed(s.trees[k]))
    && (forall i | 0 <= i < |s.ports| :: s.ports[i].purged ==> s.ports[i].file == NO_FILE)
  }

  ghost predicate Listed(trees: seq<Tree>, ids: seq<seq<string>>, a: Attempt) {
    Fits(trees, ids, a) && forall k | 0 <= k < |trees| :: Lists(a.found[k], trees[k])
  }

  // ---- run directories ------------------------------------------------------------------

  /** Nothing added, every kept file still there. */
  predicate Shrunk(t: Tree, r: Tree, ids: seq<string>) {
    && WellFormed(r) && r.files <= t.files && r.dirs <= t.dirs
    && forall f | f in t.files && KeptPath(f, ids) :: f in r.files
  }

  predicate AllShrunk(trees: seq<Tree>, rest: seq<Tree>, ids: seq<seq<string>>) {
    |trees| == |rest| == |ids| && forall k | 0 <= k < |trees| :: Shrunk(trees[k], rest[k], ids[k])
  }

  lemma ShrunkFurther(t: Tree, r: Tree, q: Tree, ids: seq<string>)
    requires Shrunk(t, r, ids) && Shrunk(r, q, ids)
    ensures Shrunk(t, q, ids)
  {
  }

  /** What a finished sweep leaves does not depend on the failed ones before. */
  lemma SameRemains(t: Tree, r: Tree, ids: seq<string>)
    requires WellFormed(t) && Shrunk(t, r, ids)
    ensures Remains(r, ids) == Remains(t, ids)
  {
    hide KeptPath;
    assert Remains(r, ids).files == Remains(t, ids).files;
    forall d
      ensures d in Remains(r, ids).dirs <==> d in Remains(t, ids).dirs
    {
      if d in t.dirs && KeptBelow(t, d, ids) {
        var f :| f in t.files && KeptPath(f, ids) && Below(d, f);
        assert Housed(t, d);
        PrefixIsDirectory(r, f, |d|);
        assert KeptBelow(r, d, ids);
      }
    }
    assert Remains(r, ids).dirs == Remains(t, ids).dirs;
  }

  lemma OneSweep(t: Tree, found: seq<Path>, ids: seq<string>, stuck: set<Path>)
    requires WellFormed(t) && Lists(found, t)
    ensures var r := DeleteInputs(t, found, ids, stuck);
            && Shrunk(t, r.tree, ids)
            && (!r.failed ==> r.tree == Remains(t, ids))
            && (stuck == {} ==> !r.failed)
            && (r.failed <==> exists f :: Stuck(t, f, ids, stuck))
  {
    hide DeleteInputs, WellFormed, Lists, KeptPath, Remains;
    DeleteKeeps(t, found, ids, stuck);
    DeleteIsExact(t, found, ids, stuck);
  }

  lemma {:induction false} SweepRunsExact(trees: seq<Tree>, ids: seq<seq<string>>, a: Attempt, k: nat)
    requires Listed(trees, ids, a) && k <= |trees|
    requires forall j | 0 <= j < |trees| :: WellFormed(trees[j])
    ensures var r := SweepRuns(trees, ids, a, k);
            && AllShrunk(trees, r.trees, ids)
            && (forall j | k <= j < |trees| :: r.trees[j] == trees[j])
            && (!r.failed ==> forall j | 0 <= j < k :: r.trees[j] == Remains(trees[j], ids[j]))
            && ((forall j | 0 <= j < |trees| :: a.stuck[j] == {}) ==> !r.failed)
            && (r.failed <==> exists j, f :: 0 <= j < k && Stuck(trees[j], f, ids[j], a.stuck[j]))
  {
    hide DeleteInputs, WellFormed, Lists, Remains, KeptPath, Stuck;
    if k == 0 {
      assert forall j | 0 <= j < |trees| :: Shrunk(trees[j], trees[j], ids[j]);
    } else {
      SweepRunsExact(trees, ids, a, k - 1);
      OneSweep(trees[k - 1], a.found[k - 1], ids[k - 1], a.stuck[k - 1]);
    }
  }

  // ---- port files --------------------------------------------------------------------------

  predicate Fewer(files: Files, rest: Files) {
    forall n | n in rest :: n in files && rest[n] == files[n]
  }

  predicate PortRaises(port: Port, faults: set<string>) {
    !port.purged && port.file != NO_FILE && port.file in faults
  }

  lemma {:induction false} PurgePortsExact(ports: seq<Port>, files: Files, faults: set<string>, k: nat)
    requires k <= |ports|
    requires forall i | 0 <= i < |ports| :: ports[i].purged ==> ports[i].file == NO_FILE
    ensures var r := PurgePorts(ports, files, faults, k);
            && Fewer(files, r.files)
            && (forall n | n in files && n !in r.files :: exists i | 0 <= i < k :: ports[i].file == n)
            && (forall i | k <= i < |ports| :: r.ports[i] == ports[i])
            && (!r.failed ==> forall i | 0 <= i < k ::
                r.ports[i] == Port(NO_FILE, true) && (ports[i].file == NO_FILE || ports[i].file !in r.files))
            && (faults == {} ==> !r.failed)
            && (r.failed <==> exists i :: 0 <= i < k && PortRaises(ports[i], faults))
  {
    if k > 0 {
      PurgePortsExact(ports, files, faults, k - 1);
    }
  }

  // ---- one attempt ---------------------------------------------------------------------------

  /** A name this submission stores a file under. */
  predicate Owns(s: State, n: string) {
    n != NO_FILE && (n == s.row.file || exists i | 0 <= i < |s.ports| :: s.ports[i].file == n)
  }

  /** No copy of a submitted byte is left. */
  ghost predicate Clean(s: State, r: State, ids: seq<seq<string>>)
    requires |ids| == |s.trees|
  {
    && (forall n | Owns(s, n) :: n !in r.files)
    && |r.trees| == |s.trees|
    && (forall k | 0 <= k < |s.trees| :: r.trees[k] == Remains(s.trees[k], ids[k]))
  }

  predicate Faultless(a: Attempt) {
    a.faults == {} && !a.databaseFails && forall k | 0 <= k < |a.stuck| :: a.stuck[k] == {}
  }

  /** Only owned files go, and no run directory grows or loses output. */
  predicate Narrowed(s: State, r: State, ids: seq<seq<string>>) {
    && Fewer(s.files, r.files)
    && (forall n | n in s.files && n !in r.files :: Owns(s, n))
    && AllShrunk(s.trees, r.trees, ids)
  }

  lemma RefusedAttempt(s: State, ids: seq<seq<string>>)
    requires Sane(s) && |ids| == |s.trees|
    ensures Narrowed(s, s, ids)
  {
    hide KeptPath, WellFormed;
  }

  lemma DropsOwned(s: State)
    ensures var files := DropFile(s.files, s.row.file, false);
            && Fewer(s.files, files)
            && (forall n | n in s.files && n !in files :: Owns(s, n))
            && (s.row.file != NO_FILE ==> s.row.file !in files)
  {
  }

  lemma StillOwned(s: State, dropped: Files, rest: Files)
    requires Fewer(s.files, dropped) && Fewer(dropped, rest)
    requires forall n | n in s.files && n !in dropped :: Owns(s, n)
    requires forall n | n in dropped && n !in rest :: exists i | 0 <= i < |s.ports| :: s.ports[i].file == n
    requires NO_FILE !in s.files
    ensures Fewer(s.files, rest) && forall n | n in s.files && n !in rest :: Owns(s, n)
  {
  }

  /** A copied input that must go cannot be unlinked, a delete of the original or
      of a port file raises, or the database does. */
  ghost predicate Fails(s: State, ids: seq<seq<string>>, a: Attempt)
    requires Fits(s.trees, ids, a)
  {
    || (exists k, f :: 0 <= k < |s.trees| && Stuck(s.trees[k], f, ids[k], a.stuck[k]))
    || (s.row.file != NO_FILE && s.row.file in a.faults)
    || (exists i :: 0 <= i < |s.ports| && PortRaises(s.ports[i], a.faults))
    || a.databaseFails
  }

  /** One attempt, whatever it meets: its outcome, and what it leaves. The
      original and the port files are touched only once every run directory is
      clean of copied inputs. */
  lemma OneAttempt(s: State, ids: seq<seq<string>>, a: Attempt)
    requires Sane(s) && Listed(s.trees, ids, a)
    ensures var r := PurgeOnce(s, ids, a);
            && Narrowed(s, r.state, ids)
            && (r.outcome == Purged <==> s.row.purgedAt.None? && r.state.row.purgedAt.Some?)
            && (r.outcome == Purged ==>
                  && !a.active && Clean(s, r.state, ids)
                  && r.state.row == Cleared(s.row, a.now)
                  && |r.state.ports| == |s.ports|
                  && forall i | 0 <= i < |s.ports| :: r.state.ports[i] == Port(NO_FILE, true))
            && (r.outcome != Purged ==> r.state.row == s.row && r.state.ports == s.ports)
            && (r.outcome == Purged ==>
                  r.state.row == s.row.(content := [], file := "", context := "", purgedAt := Some(a.now),
                                        expiresAt := None))
            && (r.outcome == AlreadyPurged <==> s.row.purgedAt.Some?)
            && (r.outcome == ActiveRun <==> s.row.purgedAt.None? && a.active)
            && (r.outcome == Raised <==> s.row.purgedAt.None? && !a.active && Fails(s, ids, a))
            && (r.outcome in {AlreadyPurged, ActiveRun} ==> r.state == s)
            && (r.state.files != s.files ==>
                  forall k | 0 <= k < |s.trees| :: r.state.trees[k] == Remains(s.trees[k], ids[k]))
            && (s.row.purgedAt.None? && !a.active && Faultless(a) ==> r.outcome == Purged)
            && Sane(r.state)
  {
    hide KeptPath, WellFormed, Remains, SweepRuns, PurgePorts, Lists, Shrunk, Stuck;
    if s.row.purgedAt.Some? || a.active {
      RefusedAttempt(s, ids);
    } else {
      SweepRunsExact(s.trees, ids, a, |s.trees|);
      DropsOwned(s);
      var dropped := DropFile(s.files, s.row.file, false);
      PurgePortsExact(s.ports, dropped, a.faults, |s.ports|);
      StillOwned(s, dropped, PurgePorts(s.ports, dropped, a.faults, |s.ports|).files);
      ShrunkIsWellFormed(s.trees, SweepRuns(s.trees, ids, a, |s.trees|).trees, ids);
    }
  }

  /** An attempt is a purge step of the submission's runs, which succeeds exactly
      when no run is active and nothing fails. */
  lemma PurgeIsAStep(s: State, ids: seq<seq<string>>, a: Attempt, memory: Fields)
    requires Sane(s) && Listed(s.trees, ids, a)
    ensures var row := PurgeOnce(s, ids, a).state.row;
            PurgeStep(World(memory, Some(s.row)), a.now, !a.active && !Fails(s, ids, a)) == World(row, Some(row))
  {
    hide Sane, Listed, Fails, Narrowed, Clean, PurgeOnce;
    OneAttempt(s, ids, a);
  }

  lemma ShrunkIsWellFormed(trees: seq<Tree>, rest: seq<Tree>, ids: seq<seq<string>>)
    requires AllShrunk(trees, rest, ids)
    ensures forall k | 0 <= k < |rest| :: WellFormed(rest[k])
  {
  }

  // ---- any number of attempts ------------------------------------------------------------------

  /** The state after these calls, each of which lists the directories as it
      finds them. */
  function Attempts(s: State, ids: seq<seq<string>>, attempts: seq<Attempt>): (r: State)
    requires |ids| == |s.trees|
    requires forall i | 0 <= i < |attempts| :: Fits(s.trees, ids, attempts[i])
    ensures |r.trees| == |s.trees|
  {
    if attempts == [] then s
    else
      assert Fits(s.trees, ids, attempts[|attempts| - 1]);
      PurgeOnce(Attempts(s, ids, attempts[..|attempts| - 1]), ids, attempts[|attempts| - 1]).state
  }

  ghost predicate AllListed(s: State, ids: seq<seq<string>>, attempts: seq<Attempt>)
    requires |ids| == |s.trees|
  {
    && (forall i | 0 <= i < |attempts| :: Fits(s.trees, ids, attempts[i]))
    && forall i | 0 <= i < |attempts| :: Listed(Attempts(s, ids, attempts[..i]).trees, ids, attempts[i])
  }

  /** What is true after any attempts on an unpurged submission: either nothing
      was committed, or one attempt committed everything. */
  ghost predicate Honest(s: State, r: State, ids: seq<seq<string>>, attempts: seq<Attempt>)
    requires |ids| == |s.trees|
  {
    && Sane(r) && Narrowed(s, r, ids)
    && (r.row.purgedAt.None? ==> r.row == s.row && r.ports == s.ports)
    && (r.row.purgedAt.Some? ==>
          && Clean(s, r, ids)
          && (exists i | 0 <= i < |attempts| :: !attempts[i].active && r.row == Cleared(s.row, attempts[i].now))
          && |r.ports| == |s.ports|
          && forall i | 0 <= i < |s.ports| :: r.ports[i] == Port(NO_FILE, true))
  }

  lemma NarrowedFurther(s: State, r: State, q: State, ids: seq<seq<string>>)
    requires Narrowed(s, r, ids) && Narrowed(r, q, ids)
    requires r.row == s.row && r.ports == s.ports
    ensures Narrowed(s, q, ids)
  {
    hide Shrunk;
    forall k | 0 <= k < |s.trees|
      ensures Shrunk(s.trees[k], q.trees[k], ids[k])
    {
      ShrunkFurther(s.trees[k], r.trees[k], q.trees[k], ids[k]);
    }
  }

  lemma CleanFurther(s: State, r: State, q: State, ids: seq<seq<string>>)
    requires Sane(s) && Narrowed(s, r, ids)
    requires r.row == s.row && r.ports == s.ports && Clean(r, q, ids)
    ensures Clean(s, q, ids)
  {
    hide Remains, Shrunk, WellFormed;
    forall n | Owns(s, n)
      ensures n !in q.files
    {
      assert Owns(r, n);
    }
    forall k | 0 <= k < |s.trees|
      ensures q.trees[k] == Remains(s.trees[k], ids[k])
    {
      SameRemains(s.trees[k], r.trees[k], ids[k]);
    }
  }

  /** One more attempt on a submission that is still unpurged. */
  lemma StillHonest(s: State, r: State, ids: seq<seq<string>>, attempts: seq<Attempt>, a: Attempt)
    requires Sane(s) && |ids| == |s.trees| && s.row.purgedAt.None?
    requires Honest(s, r, ids, attempts) && Listed(r.trees, ids, a)
    ensures Honest(s, PurgeOnce(r, ids, a).state, ids, attempts + [a])
  {
    hide Sane, Narrowed, Clean, PurgeOnce, Lists;
    OneAttempt(r, ids, a);
    var q := PurgeOnce(r, ids, a);
    var longer := attempts + [a];
    assert longer[|attempts|] == a && forall i | 0 <= i < |attempts| :: longer[i] == attempts[i];
    if r.row.purgedAt.Some? {
      AlreadyDone(r, ids, a);
    } else {
      NarrowedFurther(s, r, q.state, ids);
      if q.outcome == Purged {
        CleanFurther(s, r, q.state, ids);
      }
    }
  }

  lemma AlreadyDone(r: State, ids: seq<seq<string>>, a: Attempt)
    requires Listed(r.trees, ids, a) && r.row.purgedAt.Some?
    ensures PurgeOnce(r, ids, a) == PurgeResult(r, AlreadyPurged)
  {
  }

  /** Purge never lies, over every sequence of attempts and fault patterns. */
  lemma {:induction false} PurgeNeverLies(s: State, ids: seq<seq<string>>, attempts: seq<Attempt>)
    requires Sane(s) && |ids| == |s.trees| && s.row.purgedAt.None? && AllListed(s, ids, attempts)
    ensures Honest(s, Attempts(s, ids, attempts), ids, attempts)
  {
    hide Honest, Sane, PurgeOnce, Listed;
    if attempts == [] {
      StartsHonest(s, ids);
    } else {
      var front, a := attempts[..|attempts| - 1], attempts[|attempts| - 1];
      assert forall i | 0 <= i < |front| :: front[i] == attempts[i] && front[..i] == attempts[..i];
      PurgeNeverLies(s, ids, front);
      assert Listed(Attempts(s, ids, front).trees, ids, a);
      StillHonest(s, Attempts(s, ids, front), ids, front, a);
      assert attempts == front + [a];
    }
  }

  lemma StartsHonest(s: State, ids: seq<seq<string>>)
    requires Sane(s) && |ids| == |s.trees| && s.row.purgedAt.None?
    ensures Honest(s, s, ids, [])
  {
    hide Sane;
    RefusedAttempt(s, ids);
  }

  /** However many attempts failed before, one without faults or an active run
      purges; and purging again changes nothing. */
  lemma FaultlessAttemptPurges(s: State, ids: seq<seq<string>>, attempts: seq<Attempt>, a: Attempt)
    requires Sane(s) && |ids| == |s.trees| && s.row.purgedAt.None? && AllListed(s, ids, attempts)
    requires Listed(Attempts(s, ids, attempts).trees, ids, a) && !a.active && Faultless(a)
    ensures PurgeOnce(Attempts(s, ids, attempts), ids, a).state.row.purgedAt.Some?
    ensures var r := PurgeOnce(Attempts(s, ids, attempts), ids, a).state; PurgeOnce(r, ids, a).state == r
  {
    hide Sane, Listed;
    PurgeNeverLies(s, ids, attempts);
    OneAttempt(Attempts(s, ids, attempts), ids, a);
  }
}
