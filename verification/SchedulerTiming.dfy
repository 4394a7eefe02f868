/**
 app/models/scheduler.rb: when the main loop starts a job, and when the thread of a job with a short period comes to its
 end, over all runs of main loop and threads.
 */
module SchedulerTiming {
  import opened Prelude
  import opened SchedulerRetry
  import opened SchedulerThreads
  import opened SchedulerGiveUp

  // ----- When a thread is started -----

  /** Never run, without a period, or run at least a period ago. */
  predicate Due(row: Row, now: int) {
    match (row.lastRun, row.period)
    case (Some(last), Some(period)) => last + period <= now
    case _ => true
  }

  /** The row as it was when the main loop last loaded its list; `j` is the step that did. */
  ghost predicate LoadedAt(run: Run, i: nat, j: nat, job: JobId, row: Row)
    requires IsRun(run) && i < |run.worlds|
  {
    && j < i && run.events[j].LoadList?
    && (forall k :: j < k < i ==> !run.events[k].LoadList?)
    && job in run.worlds[j].rows && run.worlds[j].rows[job] == row
  }

  /** Between two loads the list only gets shorter, and what is in it is what was loaded. */
  lemma {:induction false} ListIsAsLoaded(run: Run, i: nat) returns (j: nat)
    requires IsRun(run) && i < |run.worlds| && run.worlds[i].list != []
    ensures j < i && run.events[j].LoadList? && (forall k :: j < k < i ==> !run.events[k].LoadList?)
    ensures forall x :: x in run.worlds[i].list ==> x.0 in run.worlds[j].rows && run.worlds[j].rows[x.0] == x.1
                                                    && x.1.active
  {
    j := i - 1;
    var w, e := run.worlds[i - 1], run.events[i - 1];
    assert Enabled(w, e) && run.worlds[i] == Next(w, e);
    if !e.LoadList? {
      assert forall x :: x in Next(w, e).list ==> x in w.list;
      j := ListIsAsLoaded(run, i - 1);
    }
  }

  /**
   A thread comes into being only when the main loop looks at its job, with the row as it was loaded, and exactly if
   that was active and is due.
   */
  lemma StartedExactlyWhenDue(run: Run, i: nat, t: Tid) returns (j: nat)
    requires IsRun(run) && i < |run.events| && t !in run.worlds[i].threads
    ensures t in run.worlds[i + 1].threads
            <==> run.events[i] == StartOrNot(t) && Due(run.worlds[i].list[0].1, run.worlds[i].now)
    ensures t in run.worlds[i + 1].threads ==>
      var (job, row) := run.worlds[i].list[0];
      LoadedAt(run, i, j, job, row) && row.active && run.worlds[i + 1].threads[t] == Thread(job, row, 0, Spawned)
  {
    var w, e := run.worlds[i], run.events[i];
    assert Enabled(w, e) && run.worlds[i + 1] == Next(w, e);
    j := 0;
    if e == StartOrNot(t) {
      j := ListIsAsLoaded(run, i);
      assert w.list[0] in w.list;
    }
  }

  // ----- The row may have changed since it was loaded -----

  const HOURLY := Row(0, true, Some(3600), None)
  const JUST_RUN := Row(0, true, Some(3600), Some(0))

  /** The first thread is running, and the main loop has already loaded the row again. */
  lemma LoadedBeforeTheThreadBegins()
    ensures Reachable(First(HOURLY, map[JOB := 0], Spawned))
  {
    var w := World(map[], map[], map[], [], Idle, 0);
    assert IsRunTo(Run([w], []), w);
    Extend(w, Edit(JOB, Some(HOURLY)));
    assert Next(w, Edit(JOB, Some(HOURLY))) == Quiet(HOURLY, map[], map[]);
    Load(HOURLY, map[], map[]);
    Consider(HOURLY, HOURLY, map[], 0);
    var spawned := Quiet(HOURLY, map[], map[0 := Thread(JOB, HOURLY, 0, Spawned)]);
    Step(Considering(spawned, HOURLY, Storing(0)), StoreHandle, spawned.(registry := map[JOB := 0]));
    Load(HOURLY, map[JOB := 0], map[0 := Thread(JOB, HOURLY, 0, Spawned)]);
  }

  function First(row: Row, registry: map<JobId, Tid>, phase: Phase): World {
    Considering(Quiet(row, registry, map[0 := Thread(JOB, HOURLY, 0, phase)]), HOURLY, Idle)
  }

  lemma FirstThreadBegins()
    ensures Reachable(First(JUST_RUN, map[JOB := 0], Executing(0, 0)))
  {
    LoadedBeforeTheThreadBegins();
    Step(First(HOURLY, map[JOB := 0], Spawned), Begin(0), First(JUST_RUN, map[JOB := 0], Executing(0, 0)));
  }

  lemma FirstThreadSucceeds()
    ensures Reachable(First(JUST_RUN, map[JOB := 0], Releasing))
  {
    FirstThreadBegins();
    Step(First(JUST_RUN, map[JOB := 0], Executing(0, 0)), Succeed(0), First(JUST_RUN, map[JOB := 0], Returned));
    Step(First(JUST_RUN, map[JOB := 0], Returned), LookUp(0), First(JUST_RUN, map[JOB := 0], Releasing));
  }

  lemma FirstThreadFrees()
    ensures Reachable(First(JUST_RUN, map[], Leaving))
  {
    FirstThreadSucceeds();
    Step(First(JUST_RUN, map[JOB := 0], Releasing), Release(0), First(JUST_RUN, map[], Leaving));
  }

  lemma LooksAgain()
    ensures Reachable(First(JUST_RUN, map[], Leaving).(at := MayRun))
  {
    FirstThreadFrees();
    var w := First(JUST_RUN, map[], Leaving);
    Step(w, LookHandle, w.(at := HasHandle(None)));
    Step(w.(at := HasHandle(None)), CheckStatus, w.(at := MayRun));
  }

  /**
   So a job can be started again before its period has passed: a thread that begins and ends after the main loop has
   loaded the row leaves the slot free and the loaded row as it was before.
   */
  lemma StartedBeforeItIsDue() returns (w: World)
    ensures Reachable(w) && Enabled(w, StartOrNot(1)) && JOB in w.rows && !Due(w.rows[JOB], w.now)
    ensures var w' := Next(w, StartOrNot(1));
      Reachable(w') && 1 !in w.threads && 1 in w'.threads && w'.threads[1].job == JOB
  {
    LooksAgain();
    w := First(JUST_RUN, map[], Leaving).(at := MayRun);
    Extend(w, StartOrNot(1));
  }

  // ----- When a thread ends -----

  predicate BeginsRound(e: Event, t: Tid) {
    e == Begin(t) || e == Wake(t)
  }

  /** How often the thread has begun a round. */
  function Rounds(run: Run, i: nat, t: Tid): nat
    requires i <= |run.events|
  {
    if i == 0 then 0 else Rounds(run, i - 1, t) + if BeginsRound(run.events[i - 1], t) then 1 else 0
  }

  /** The thread is started in step `s`, for this job and with this row. */
  ghost predicate Born(run: Run, s: nat, t: Tid, job: JobId, row: Row)
    requires IsRun(run)
  {
    && s < |run.events| && t !in run.worlds[s].threads && t in run.worlds[s + 1].threads
    && run.worlds[s + 1].threads[t].job == job && run.worlds[s + 1].threads[t].row == row
  }

  /** A period of at most five minutes. */
  predicate Short(row: Row) {
    row.period.Some? && row.period.value <= 5 * 60
  }

  /** The loop counter counts the rounds of a thread that was started with `row`. */
  predicate Counts(th: Thread, rounds: nat, job: JobId, row: Row) {
    && th.job == job && th.loops <= 1800
    && (th.phase.Spawned? ==> th.row == row && th.loops == 0 && rounds == 0)
    && (th.loops > 0 ==> Short(row) && rounds == th.loops)
    && (th.loops == 0 ==> rounds <= 1)
    && (th.loops == 0 && !th.phase.Spawned? && !th.phase.Dead? ==> !Short(row))
    && (th.phase.Asleep? ==> 1 <= th.loops < 1800)
  }

  lemma StepCounts(w: World, e: Event, t: Tid, rounds: nat, job: JobId, row: Row)
    requires Enabled(w, e) && t in w.threads && Counts(w.threads[t], rounds, job, row)
    ensures t in Next(w, e).threads
    ensures Counts(Next(w, e).threads[t], rounds + if BeginsRound(e, t) then 1 else 0, job, row)
  {
    if ThreadOf(e) != Some(t) {
      assert Next(w, e).threads[t] == w.threads[t];
    }
  }

  lemma BirthCounts(w: World, e: Event, t: Tid)
    requires Enabled(w, e) && t !in w.threads
    ensures !BeginsRound(e, t)
    ensures t in Next(w, e).threads ==>
      Counts(Next(w, e).threads[t], 0, Next(w, e).threads[t].job, Next(w, e).threads[t].row)
  {
  }

  lemma StepOf(run: Run, i: nat)
    requires IsRun(run) && i < |run.events|
    ensures Enabled(run.worlds[i], run.events[i]) && run.worlds[i + 1] == Next(run.worlds[i], run.events[i])
  {
  }

  lemma {:induction false} NotYetBorn(run: Run, i: nat, t: Tid)
    requires IsRun(run) && i < |run.worlds| && t !in run.worlds[i].threads
    ensures Rounds(run, i, t) == 0
  {
    if i > 0 {
      StepOf(run, i - 1);
      if t in run.worlds[i - 1].threads { StepKeepsJobs(run.worlds[i - 1], run.events[i - 1], t); }
      NotYetBorn(run, i - 1, t);
      BirthCounts(run.worlds[i - 1], run.events[i - 1], t);
    }
  }

  predicate CountsAt(run: Run, i: nat, t: Tid, job: JobId, row: Row)
    requires i < |run.worlds| && i <= |run.events|
  {
    t in run.worlds[i].threads && Counts(run.worlds[i].threads[t], Rounds(run, i, t), job, row)
  }

  lemma CountsAtBirth(run: Run, s: nat, i: nat, t: Tid, job: JobId, row: Row)
    requires IsRun(run) && Born(run, s, t, job, row) && i == s + 1
    ensures CountsAt(run, i, t, job, row)
  {
    StepOf(run, s);
    NotYetBorn(run, s, t);
    BirthCounts(run.worlds[s], run.events[s], t);
    assert Rounds(run, i, t) == 0;
  }

  lemma CountsAfter(run: Run, i: nat, t: Tid, job: JobId, row: Row)
    requires IsRun(run) && 0 < i < |run.worlds| && CountsAt(run, i - 1, t, job, row)
    ensures CountsAt(run, i, t, job, row)
  {
    var n := i - 1;
    StepOf(run, n);
    StepCounts(run.worlds[n], run.events[n], t, Rounds(run, n, t), job, row);
    assert Rounds(run, i, t) == Rounds(run, n, t) + if BeginsRound(run.events[n], t) then 1 else 0;
  }

  /** One step of the induction over a run. */
  predicate CountsOn(run: Run, k: nat, t: Tid, job: JobId, row: Row)
    requires 0 < k < |run.worlds| && k <= |run.events|
  {
    CountsAt(run, k - 1, t, job, row) ==> CountsAt(run, k, t, job, row)
  }

  lemma {:induction false} CountsFrom(run: Run, first: nat, i: nat, t: Tid, job: JobId, row: Row)
    requires |run.worlds| == |run.events| + 1 && first <= i < |run.worlds| && CountsAt(run, first, t, job, row)
    requires forall k :: first < k <= i ==> CountsOn(run, k, t, job, row)
    ensures CountsAt(run, i, t, job, row)
  {
    if first < i {
      CountsFrom(run, first, i - 1, t, job, row);
      assert CountsOn(run, i, t, job, row);
    }
  }

  lemma RunCounts(run: Run, s: nat, i: nat, t: Tid, job: JobId, row: Row)
    requires IsRun(run) && s < i < |run.worlds| && Born(run, s, t, job, row)
    ensures CountsAt(run, i, t, job, row)
  {
    CountsAtBirth(run, s, s + 1, t, job, row);
    forall k | s + 1 < k <= i
      ensures CountsOn(run, k, t, job, row)
    {
      if CountsAt(run, k - 1, t, job, row) { CountsAfter(run, k, t, job, row); }
    }
    CountsFrom(run, s + 1, i, t, job, row);
  }

  /** In every run a thread makes at most 1800 rounds, and only one unless its job has a short period. */
  lemma RoundsAreLimited(run: Run, s: nat, i: nat, t: Tid, job: JobId, row: Row)
    requires IsRun(run) && s < i < |run.worlds| && Born(run, s, t, job, row)
    ensures Rounds(run, i, t) <= if Short(row) then 1800 else 1
  {
    RunCounts(run, s, i, t, job, row);
  }

  /**
   After a round the thread goes on exactly if its job has a short period and is still there, active and with a period,
   and this was not round 1800. It does not free the slot exactly if the row of such a job is gone. A loop goes on with
   the row as it has found it.
   */
  lemma LoopEndsExactly(run: Run, s: nat, i: nat, t: Tid, job: JobId, row: Row)
    requires IsRun(run) && s < i < |run.events| && Born(run, s, t, job, row) && run.events[i] == LookUp(t)
    ensures var rows := run.worlds[i].rows;
      var phase := run.worlds[i + 1].threads[t].phase;
      && t in run.worlds[i + 1].threads
      && (phase == Asleep <==> Short(row) && job in rows && rows[job].active && rows[job].period.Some?
                               && Rounds(run, i, t) < 1800)
      && (phase == Leaving <==> Short(row) && job !in rows)
      && (phase == Asleep || phase == Leaving || phase == Releasing)
      && (phase == Asleep || (Short(row) && phase == Releasing) ==> run.worlds[i + 1].threads[t].row == rows[job])
  {
    RunCounts(run, s, i, t, job, row);
    StepOf(run, i);
  }
}
