/**
 app/models/scheduler.rb, `_start_job`: a job that raises is started again until its try counter reaches ten,
 but the counter starts over after a failure that comes more than five minutes after the one before.
 */
module SchedulerRetry {

  const TRY_RUN_MAX := 10
  const WINDOW := 300

  /** The counter after a failure noticed at `checkedAt`, when it was `tries` and the last one was at `since`. */
  function NextTries(tries: nat, since: int, checkedAt: int): nat {
    if since + WINDOW < checkedAt then 0 else tries + 1
  }

  /** One run of the job's method: the clock is read once to check the window and once to restart it. */
  datatype Outcome = Success | Fatal | Failure(checkedAt: int, resumedAt: int)

  datatype Verdict =
    | Finished(attempts: nat)
    | Raised(attempts: nat)
    | GaveUp(attempts: nat)
    | StillRunning

  // ----- What the counter means -----

  predicate AllFail(outcomes: seq<Outcome>, k: nat)
    requires k <= |outcomes|
  {
    forall m :: 0 <= m < k ==> outcomes[m].Failure?
  }

  /** The time between failure `k` and the failure (or start) before it. */
  function Gap(startedAt: int, outcomes: seq<Outcome>, k: nat): int
    requires k < |outcomes| && AllFail(outcomes, k + 1)
  {
    outcomes[k].checkedAt - (if k == 0 then startedAt else outcomes[k - 1].resumedAt)
  }

  /** The `n` gaps that end with failure `k - 1` are all inside the window. */
  predicate ShortRun(startedAt: int, outcomes: seq<Outcome>, k: nat, n: nat)
    requires n <= k <= |outcomes| && AllFail(outcomes, k)
  {
    forall m :: k - n <= m < k ==> Gap(startedAt, outcomes, m) <= 5 * 60
  }

  /** The counter after `k` failures, as the program computes it. */
  function Tries(startedAt: int, outcomes: seq<Outcome>, k: nat): (n: nat)
    requires k <= |outcomes| && AllFail(outcomes, k)
    ensures n <= k
  {
    if k == 0 then 0
    else NextTries(Tries(startedAt, outcomes, k - 1), Since(startedAt, outcomes, k - 1), outcomes[k - 1].checkedAt)
  }

  function Since(startedAt: int, outcomes: seq<Outcome>, k: nat): int
    requires k <= |outcomes| && AllFail(outcomes, k)
  {
    if k == 0 then startedAt else outcomes[k - 1].resumedAt
  }

  /** The counter is the length of the longest run of short gaps that ends now. */
  lemma {:induction false} TriesIsTheTrailingRun(startedAt: int, outcomes: seq<Outcome>, k: nat, n: nat)
    requires n <= k <= |outcomes| && AllFail(outcomes, k)
    ensures n <= Tries(startedAt, outcomes, k) <==> ShortRun(startedAt, outcomes, k, n)
  {
    if 0 < n {
      TriesIsTheTrailingRun(startedAt, outcomes, k - 1, n - 1);
      assert Gap(startedAt, outcomes, k - 1) == outcomes[k - 1].checkedAt - Since(startedAt, outcomes, k - 1);
      if Tries(startedAt, outcomes, k) == 0 {
        assert Gap(startedAt, outcomes, k - 1) > 5 * 60;
      }
    }
  }

  /** The first attempt after which the program gives up: ten short gaps in a row, for the first time. */
  predicate GivesUpAt(startedAt: int, outcomes: seq<Outcome>, k: nat)
    requires k <= |outcomes| && AllFail(outcomes, k)
  {
    && 10 <= k && ShortRun(startedAt, outcomes, k, 10)
    && forall m :: 10 <= m < k ==> !ShortRun(startedAt, outcomes, m, 10)
  }

  /** No ten short gaps in a row among the first `k` failures. */
  predicate KeepsTrying(startedAt: int, outcomes: seq<Outcome>, k: nat)
    requires k <= |outcomes| && AllFail(outcomes, k)
  {
    forall m :: 10 <= m <= k ==> !ShortRun(startedAt, outcomes, m, 10)
  }

  // ----- The program -----

  class Job {
    var active: bool
    var failed: bool
    var lastRun: int

    constructor ()
      ensures active && !failed
    {
      active, failed, lastRun := true, false, 0;
    }
  }

  /**
   `_start_job`, called again by its own rescue clause. `k` attempts are over; the outcome of every further one
   is given by `outcomes`, and `startedAts` says when it began.
   */
  method StartJob(job: Job, outcomes: seq<Outcome>, startedAts: seq<int>, ghost startedAt: int,
                  k: nat, tryCount: nat, tryRunTime: int)
    returns (v: Verdict)
    requires k <= |outcomes| == |startedAts| && AllFail(outcomes, k)
    requires tryCount == Tries(startedAt, outcomes, k) && tryRunTime == Since(startedAt, outcomes, k)
    requires KeepsTrying(startedAt, outcomes, k)
    modifies job
    decreases |outcomes| - k
    ensures match v
      case GaveUp(n) => n <= |outcomes| && AllFail(outcomes, n) && GivesUpAt(startedAt, outcomes, n)
                        && !job.active && job.failed
      case Finished(n) => 0 < n <= |outcomes| && AllFail(outcomes, n - 1) && outcomes[n - 1].Success?
                          && KeepsTrying(startedAt, outcomes, n - 1)
                          && job.active == old(job.active) && !job.failed && job.lastRun == startedAts[n - 1]
      case Raised(n) => 0 < n <= |outcomes| && AllFail(outcomes, n - 1) && outcomes[n - 1].Fatal?
                        && KeepsTrying(startedAt, outcomes, n - 1) && job.active == old(job.active)
      case StillRunning => AllFail(outcomes, |outcomes|) && KeepsTrying(startedAt, outcomes, |outcomes|)
                           && job.active == old(job.active)
  {
    if k == |outcomes| {
      return StillRunning;
    }
    job.lastRun, job.failed := startedAts[k], false;
    match outcomes[k] {
      case Success => return Finished(k + 1);
      case Fatal => return Raised(k + 1);
      case Failure(checkedAt, resumedAt) =>
        var count := tryCount + 1;
        if tryRunTime + WINDOW < checkedAt {
          count := 0;
        }
        assert count == Tries(startedAt, outcomes, k + 1);
        if TRY_RUN_MAX <= k + 1 {
          TriesIsTheTrailingRun(startedAt, outcomes, k + 1, TRY_RUN_MAX);
        }
        if count < TRY_RUN_MAX {
          v := StartJob(job, outcomes, startedAts, startedAt, k + 1, count, resumedAt);
        } else {
          job.failed, job.active := true, false;
          return GaveUp(k + 1);
        }
    }
  }

  /** With no gap longer than the window, ten failures in a row end it, at the tenth. */
  lemma TenQuickFailures(startedAt: int, outcomes: seq<Outcome>)
    requires 10 <= |outcomes| && AllFail(outcomes, 10)
    requires forall m :: 0 <= m < 10 ==> Gap(startedAt, outcomes, m) <= 5 * 60
    ensures GivesUpAt(startedAt, outcomes, 10)
    ensures Tries(startedAt, outcomes, 10) == 10
  {
    TriesIsTheTrailingRun(startedAt, outcomes, 10, 10);
  }
}
