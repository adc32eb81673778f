/** Purging a submission: external deletes that may fail at any point, inside a
    transaction that keeps the rows unless every one of them succeeded. */
module Purge {
  import opened Wrappers
  import opened Retention
  import opened Submissions
  import opened SubmissionRuns
  import opened RunFiles
  import opened RunSweep

  /** A port file's row: the stored name and whether it has been purged. */
  datatype Port = Port(file: string, purged: bool)

  /** The committed rows, the file storage, and the run directories. */
  datatype State = State(row: Fields, ports: seq<Port>, files: Files, trees: seq<Tree>)

  /** What one call meets: whether a run is active, how each run directory is
      listed, and which deletes and database writes raise. */
  datatype Attempt = Attempt(
    active: bool,
    found: seq<seq<Path>>,
    stuck: seq<set<Path>>,
    faults: set<string>,
    databaseFails: bool,
    now: int
  )

  datatype Outcome = Purged | AlreadyPurged | ActiveRun | Raised

  datatype RunsResult = RunsResult(trees: seq<Tree>, failed: bool)
  datatype PortsResult = PortsResult(ports: seq<Port>, files: Files, failed: bool)
  datatype PurgeResult = PurgeResult(state: State, outcome: Outcome)

  predicate Fits(trees: seq<Tree>, ids: seq<seq<string>>, a: Attempt) {
    |trees| == |ids| == |a.found| == |a.stuck|
  }

  /** The run directories after the first k runs; ids are their attempts. */
  function SweepRuns(trees: seq<Tree>, ids: seq<seq<string>>, a: Attempt, k: nat): (r: RunsResult)
    requires Fits(trees, ids, a) && k <= |trees|
    ensures |r.trees| == |trees|
  {
    if k == 0 then RunsResult(trees, false)
    else
      var r := SweepRuns(trees, ids, a, k - 1);
      if r.failed then r
      else
        var s := DeleteInputs(r.trees[k - 1], a.found[k - 1], ids[k - 1], a.stuck[k - 1]);
        RunsResult(r.trees[k - 1 := s.tree], s.failed)
  }

  /** The port rows and the storage after the first k ports. */
  function PurgePorts(ports: seq<Port>, files: Files, faults: set<string>, k: nat): (r: PortsResult)
    requires k <= |ports|
    ensures |r.ports| == |ports|
  {
    if k == 0 then PortsResult(ports, files, false)
    else
      var r := PurgePorts(ports, files, faults, k - 1);
      var port := ports[k - 1];
      if r.failed || port.purged then r
      else if port.file != NO_FILE && port.file in faults then r.(failed := true)
      else PortsResult(r.ports[k - 1 := Port(NO_FILE, true)], DropFile(r.files, port.file, false), false)
  }

  /** purge_content. A failure keeps the rows and whatever the deletes did. */
  function PurgeOnce(s: State, ids: seq<seq<string>>, a: Attempt): PurgeResult
    requires Fits(s.trees, ids, a)
  {
    if s.row.purgedAt.Some? then PurgeResult(s, AlreadyPurged)
    else if a.active then PurgeResult(s, ActiveRun)
    else
      var runs := SweepRuns(s.trees, ids, a, |s.trees|);
      var swept := s.(trees := runs.trees);
      if runs.failed || (s.row.file != NO_FILE && s.row.file in a.faults) then PurgeResult(swept, Raised)
      else
        var ports := PurgePorts(s.ports, DropFile(s.files, s.row.file, false), a.faults, |s.ports|);
        if ports.failed || a.databaseFails then PurgeResult(swept.(files := ports.files), Raised)
        else PurgeResult(State(Cleared(s.row, a.now), ports.ports, ports.files, runs.trees), Purged)
  }

  /** The rows and storage of one submission, updated in place. */
  class PurgeableSubmission {
    var row: Fields
    var ports: seq<Port>
    var files: Files
    const runs: RunStore

    constructor (s: State, store: RunStore)
      requires s.trees == store.trees
      ensures runs == store && Value() == s
    {
      row, ports, files, runs := s.row, s.ports, s.files, store;
    }

    ghost function Value(): State
      reads this, runs
    {
      State(row, ports, files, runs.trees)
    }

    /** purge_file on every port row, which stays uncommitted. */
    method PurgePortFiles(faults: set<string>) returns (newPorts: seq<Port>, failed: bool)
      modifies this`files
      ensures PortsResult(newPorts, files, failed) == PurgePorts(ports, old(files), faults, |ports|)
    {
      newPorts, failed := ports, false;
      for k := 0 to |ports|
        invariant |newPorts| == |ports| && !failed
        invariant PurgePorts(ports, old(files), faults, k) == PortsResult(newPorts, files, false)
        invariant forall i | k <= i < |ports| :: newPorts[i] == ports[i]
      {
        if !newPorts[k].purged {
          if newPorts[k].file != NO_FILE {
            if newPorts[k].file in faults {
              PurgePortsStops(ports, old(files), faults, k + 1, |ports|);
              failed := true;
              return;
            }
            files := files - {newPorts[k].file};
          }
          newPorts := newPorts[k := Port(NO_FILE, true)];
        }
      }
    }

    method PurgeContent(ids: seq<seq<string>>, a: Attempt) returns (outcome: Outcome)
      requires Fits(runs.trees, ids, a)
      modifies this, runs
      ensures PurgeResult(Value(), outcome) == PurgeOnce(old(Value()), ids, a)
    {
      hide DeleteInputs;
      if row.purgedAt.Some? {
        return AlreadyPurged;
      }
      if a.active {
        return ActiveRun;
      }
      for k := 0 to |runs.trees|
        invariant |runs.trees| == |old(runs.trees)|
        invariant row == old(row) && ports == old(ports) && files == old(files)
        invariant SweepRuns(old(runs.trees), ids, a, k) == RunsResult(runs.trees, false)
      {
        var failed, _ := runs.DeleteRunInputs(k, a.found[k], ids[k], a.stuck[k]);
        if failed {
          SweepRunsStops(old(runs.trees), ids, a, k + 1, |runs.trees|);
          return Raised;
        }
      }
      if row.file != NO_FILE {
        if row.file in a.faults {
          return Raised;
        }
        files := files - {row.file};
      }
      // The rows of this transaction are committed together at the end.
      var newPorts, failed := PurgePortFiles(a.faults);
      if failed {
        return Raised;
      }
      if a.databaseFails {
        return Raised;
      }
      row := Synced(Cleared(row, a.now), Some(row), a.now);
      ports := newPorts;
      outcome := Purged;
    }
  }

  lemma {:induction false} SweepRunsStops(trees: seq<Tree>, ids: seq<seq<string>>, a: Attempt, k: nat, n: nat)
    requires Fits(trees, ids, a) && k <= n <= |trees| && SweepRuns(trees, ids, a, k).failed
    ensures SweepRuns(trees, ids, a, n) == SweepRuns(trees, ids, a, k)
    decreases n
  {
    hide DeleteInputs;
    if k < n {
      SweepRunsStops(trees, ids, a, k, n - 1);
    }
  }

  lemma {:induction false} PurgePortsStops(ports: seq<Port>, files: Files, faults: set<string>, k: nat, n: nat)
    requires k <= n <= |ports| && PurgePorts(ports, files, faults, k).failed
    ensures PurgePorts(ports, files, faults, n) == PurgePorts(ports, files, faults, k)
    decreases n
  {
    if k < n {
      PurgePortsStops(ports, files, faults, k, n - 1);
    }
  }
}
