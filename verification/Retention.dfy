/** Retention policies, the expiry a saved submission carries, and the schedule
    of purge retries. Times are seconds. */
module Retention {
  import opened Wrappers
  import opened Utf8

  const DAY := 86400
  const DO_NOT_STORE := "DO_NOT_STORE"
  const STORE_PERMANENTLY := "STORE_PERMANENTLY"

  /** SUBMISSION_RETENTION_DAYS; a key maps to None for permanent storage. */
  const SUBMISSION_DAYS: map<string, Option<int>> := map[
    DO_NOT_STORE := Some(0),
    "STORE_1_DAY" := Some(1),
    "STORE_7_DAYS" := Some(7),
    "STORE_30_DAYS" := Some(30),
    STORE_PERMANENTLY := None
  ]

  /** The retention period in seconds; None is permanent. Unknown policies fail
      closed to an immediate purge. */
  function Period(policy: string): Option<int> {
    if policy !in SUBMISSION_DAYS then Some(0)
    else if SUBMISSION_DAYS[policy].None? then None
    else Some(SUBMISSION_DAYS[policy].value * DAY)
  }

  /** The periods of the policies, and the immediate purge of any other. */
  lemma PolicyPeriods(policy: string)
    ensures Period("STORE_1_DAY") == Some(24 * 3600)
    ensures Period("STORE_7_DAYS") == Some(7 * 24 * 3600)
    ensures Period("STORE_30_DAYS") == Some(30 * 24 * 3600)
    ensures Period(policy).None? <==> policy == "STORE_PERMANENTLY"
    ensures Known(policy) <==>
              policy in {"DO_NOT_STORE", "STORE_1_DAY", "STORE_7_DAYS", "STORE_30_DAYS", "STORE_PERMANENTLY"}
    ensures policy !in {"STORE_1_DAY", "STORE_7_DAYS", "STORE_30_DAYS", "STORE_PERMANENTLY"} ==>
              Period(policy) == Some(0)
  {
    LengthsDiffer();
  }

  lemma LengthsDiffer()
    ensures |DO_NOT_STORE| == 12 && |STORE_PERMANENTLY| == 17 && |"STORE_1_DAY"| == 11 && |"STORE_7_DAYS"| == 12
    ensures DO_NOT_STORE[0] == 'D' && "STORE_7_DAYS"[6] == '7' && "STORE_30_DAYS"[6] == '3'
  {
  }

  /** A known policy with a finite, nonzero period. */
  predicate Timed(policy: string) {
    Period(policy).Some? && Period(policy).value > 0
  }

  predicate Known(policy: string) {
    policy in SUBMISSION_DAYS
  }

  /** The fields of a submission that content, retention and purge decide. */
  datatype Fields = Fields(
    content: Text,
    file: string,
    size: int,
    checksum: string,
    context: string,
    policy: string,
    expiresAt: Option<int>,
    purgedAt: Option<int>
  )

  /** _sync_retention_expiry; stored is the row in the database, None while the
      submission is being added. */
  function Synced(f: Fields, stored: Option<Fields>, now: int): Fields {
    if f.purgedAt.Some? then f.(expiresAt := None)
    else
      var g := if Known(f.policy) then f else f.(policy := DO_NOT_STORE);
      var period := Period(g.policy);
      if period.None? || period.value <= 0 then g.(expiresAt := None)
      else if stored.None? || g.expiresAt.None? || stored.value.policy != g.policy then
        g.(expiresAt := Some(now + period.value))
      else g
  }

  // ---- the deadline over a history of saves -----------------------------------------

  /** A save as the database saw it: the policy it stored, and when. */
  datatype Saved = Saved(policy: string, at: int)

  /** When the current policy was first stored, without a change since. */
  function Since(history: seq<Saved>): int
    requires history != []
  {
    var last := history[|history| - 1];
    if |history| > 1 && history[|history| - 2].policy == last.policy then Since(history[..|history| - 1]) else last.at
  }

  /** The expiry an unpurged submission must carry after these saves. */
  function Deadline(history: seq<Saved>): Option<int>
    requires history != []
  {
    var policy := history[|history| - 1].policy;
    if Timed(policy) then Some(Since(history) + Period(policy).value) else None
  }

  /** Since is the start of the last block of saves under one policy. */
  lemma {:induction false} SinceIsBlockStart(history: seq<Saved>) returns (k: nat)
    requires history != []
    ensures k < |history| && Since(history) == history[k].at
    ensures forall i | k <= i < |history| :: history[i].policy == history[|history| - 1].policy
    ensures k > 0 ==> history[k - 1].policy != history[k].policy
  {
    var front := history[..|history| - 1];
    if |history| > 1 && front[|front| - 1].policy == history[|history| - 1].policy {
      k := SinceIsBlockStart(front);
    } else {
      k := |history| - 1;
    }
  }

  // ---- purge retries ------------------------------------------------------------------

  const RETRY_DELAYS := [60, 300, 3600, 21600, 86400]

  /** The delay after the given number of attempts. */
  function Delay(attempts: nat): int
    requires attempts > 0
  {
    var last := |RETRY_DELAYS| - 1;
    RETRY_DELAYS[if attempts - 1 < last then attempts - 1 else last]
  }

  /** Delays never shrink, never pass a day, and reach it at the fifth attempt. */
  lemma DelaysGrowToADay(m: nat, n: nat)
    requires 0 < m <= n
    ensures 0 < Delay(m) <= Delay(n) <= DAY
    ensures Delay(n) == DAY <==> n >= 5
  {
    assert RETRY_DELAYS[0] == 60 && RETRY_DELAYS[1] == 300 && RETRY_DELAYS[2] == 3600;
    assert RETRY_DELAYS[3] == 21600 && RETRY_DELAYS[4] == 86400;
  }

  /** One minute, five minutes, an hour, six hours, and then a day each time. */
  function Backoff(failures: nat): int {
    match failures
    case 0 => 0
    case 1 => 60
    case 2 => 5 * 60
    case 3 => 60 * 60
    case 4 => 6 * 60 * 60
    case _ => 24 * 60 * 60
  }

  lemma DelayIsBackoff(n: nat)
    requires n > 0
    ensures Delay(n) == Backoff(n)
  {
    assert RETRY_DELAYS[0] == 60 && RETRY_DELAYS[1] == 300 && RETRY_DELAYS[2] == 3600;
    assert RETRY_DELAYS[3] == 21600 && RETRY_DELAYS[4] == 86400;
  }

  datatype Retry = Retry(attempts: nat, nextRetryAt: int)

  /** What happens to a submission's retry record: a failed attempt, with the
      two clock readings of record_failure, or another request to purge it. */
  datatype RetryEvent = Failed(attemptedAt: int, scheduledAt: int) | Queued(at: int)

  function Time(e: RetryEvent): int {
    if e.Failed? then e.scheduledAt else e.at
  }

  function RetryStep(r: Retry, e: RetryEvent): Retry {
    match e
    case Failed(_, scheduledAt) => Retry(r.attempts + 1, scheduledAt + Delay(r.attempts + 1))
    case Queued(at) => if r.nextRetryAt > at then r.(nextRetryAt := at) else r
  }

  /** The record queue_submission_purge creates, after further events. */
  function RetryRun(createdAt: int, events: seq<RetryEvent>): Retry {
    if events == [] then Retry(0, createdAt)
    else RetryStep(RetryRun(createdAt, events[..|events| - 1]), events[|events| - 1])
  }

  predicate Chronological(createdAt: int, events: seq<RetryEvent>) {
    && (forall i | 0 <= i < |events| :: createdAt <= Time(events[i]))
    && (forall i, j | 0 <= i < j < |events| :: Time(events[i]) <= Time(events[j]))
  }

  function Failures(events: seq<RetryEvent>): nat {
    if events == [] then 0 else Failures(events[..|events| - 1]) + (if events[|events| - 1].Failed? then 1 else 0)
  }

  /** Deletion is never abandoned: whatever has happened, the next retry is due
      within a day of the last event, or at its creation time. */
  lemma {:induction false} RetryIsNeverAbandoned(createdAt: int, events: seq<RetryEvent>)
    requires Chronological(createdAt, events)
    ensures var r := RetryRun(createdAt, events);
            && r.attempts == Failures(events)
            && r.nextRetryAt <= (if events == [] then createdAt else Time(events[|events| - 1]) + DAY)
            && (events != [] && events[|events| - 1].Queued? ==> r.nextRetryAt <= events[|events| - 1].at)
  {
    if events != [] {
      var front := events[..|events| - 1];
      RetryIsNeverAbandoned(createdAt, front);
      var n := RetryRun(createdAt, front).attempts;
      DelaysGrowToADay(n + 1, n + 1);
    }
  }

  /** k is the place of the last failure, -1 without one. */
  predicate LastFailure(events: seq<RetryEvent>, k: int) {
    && -1 <= k < |events| && (k >= 0 ==> events[k].Failed?)
    && forall j | k < j < |events| :: events[j].Queued?
  }

  lemma {:induction false} FailuresAreCounted(events: seq<RetryEvent>)
    ensures Failures(events) == |set i | 0 <= i < |events| && events[i].Failed?|
  {
    var now := set i | 0 <= i < |events| && events[i].Failed?;
    if events == [] {
      assert now == {};
    } else {
      var front := events[..|events| - 1];
      FailuresAreCounted(front);
      var before := set i | 0 <= i < |front| && front[i].Failed?;
      if events[|events| - 1].Failed? {
        assert now == before + {|events| - 1};
      } else {
        assert now == before;
      }
    }
  }

  /** The next retry exactly: the delay after the last failure that its number
      calls for, or at creation without one, pulled forward to the earliest
      request since. */
  lemma {:induction false} NextRetryIsExact(createdAt: int, events: seq<RetryEvent>, k: int)
    requires LastFailure(events, k)
    ensures var next := RetryRun(createdAt, events).nextRetryAt;
            var due := if k < 0 then createdAt else events[k].scheduledAt + Backoff(Failures(events[..k + 1]));
            && next <= due && (forall j | k < j < |events| :: next <= events[j].at)
            && (next == due || exists j :: k < j < |events| && next == events[j].at)
  {
    if events != [] {
      var front := events[..|events| - 1];
      if k == |events| - 1 {
        assert events[..k + 1] == events;
        CountsFailures(createdAt, front);
        DelayIsBackoff(Failures(events));
      } else {
        assert front[..k + 1] == events[..k + 1];
        assert forall j | 0 <= j < |front| :: front[j] == events[j];
        NextRetryIsExact(createdAt, front, k);
      }
    }
  }

  lemma {:induction false} CountsFailures(createdAt: int, events: seq<RetryEvent>)
    ensures RetryRun(createdAt, events).attempts == Failures(events)
  {
    if events != [] {
      CountsFailures(createdAt, events[..|events| - 1]);
    }
  }

  /** The retry record, updated in place. */
  class PurgeRetry {
    var attemptCount: nat
    var lastAttemptAt: Option<int>
    var lastError: string
    var nextRetryAt: int

    constructor (now: int)
      ensures Value() == Retry(0, now)
    {
      attemptCount, lastAttemptAt, lastError, nextRetryAt := 0, None, "", now;
    }

    ghost function Value(): Retry
      reads this
    {
      Retry(attemptCount, nextRetryAt)
    }

    method RecordFailure(error: string, attemptedAt: int, scheduledAt: int)
      modifies this
      ensures Value() == RetryStep(old(Value()), Failed(attemptedAt, scheduledAt))
      ensures attemptCount == old(attemptCount) + 1 && nextRetryAt == scheduledAt + Backoff(attemptCount)
      ensures lastAttemptAt == Some(attemptedAt) && lastError == if |error| <= 2000 then error else error[..2000]
    {
      DelayIsBackoff(attemptCount + 1);
      attemptCount := attemptCount + 1;
      lastAttemptAt := Some(attemptedAt);
      lastError := if |error| > 2000 then error[..2000] else error;
      var last := |RETRY_DELAYS| - 1;
      var delay := RETRY_DELAYS[if attemptCount - 1 < last then attemptCount - 1 else last];
      nextRetryAt := scheduledAt + delay;
    }

    /** The tail of queue_submission_purge, for a record that already exists. */
    method PullForward(now: int)
      modifies this
      ensures Value() == RetryStep(old(Value()), Queued(now))
      ensures nextRetryAt == if old(nextRetryAt) > now then now else old(nextRetryAt)
      ensures attemptCount == old(attemptCount) && lastAttemptAt == old(lastAttemptAt) && lastError == old(lastError)
    {
      if nextRetryAt > now {
        nextRetryAt := now;
      }
    }
  }

  /** queue_submission_purge on the record of one submission, if any. */
  method QueuePurge(f: Fields, active: bool, retry: Option<PurgeRetry>, now: int) returns (r: Option<PurgeRetry>)
    modifies if retry.Some? then {retry.value} else {}
    ensures var queues := f.purgedAt.None? && f.policy == "DO_NOT_STORE" && !active;
            && (!queues ==> r == retry && (retry.Some? ==> retry.value.Value() == old(retry.value.Value())))
            && (queues ==> r.Some?)
            && (queues && retry.Some? ==>
                  && r == retry && r.value.attemptCount == old(retry.value.attemptCount)
                  && r.value.nextRetryAt == if old(retry.value.nextRetryAt) > now then now
                                            else old(retry.value.nextRetryAt))
            && (queues && retry.None? ==> fresh(r.value) && r.value.Value() == Retry(0, now))
  {
    r := retry;
    if f.purgedAt.Some? || f.policy != DO_NOT_STORE || active {
      return;
    }
    if retry.None? {
      var created := new PurgeRetry(now);
      r := Some(created);
    } else {
      retry.value.PullForward(now);
    }
  }
}
