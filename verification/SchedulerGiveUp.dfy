/**
 Why the mutual exclusion of job threads needs the condition on retries: a run in which a thread gives up
 (line 321 frees the job's slot in the registry before the row is deactivated, and line 272 frees it again).
 */
module SchedulerGiveUp {
  import opened Prelude
  import opened SchedulerRetry
  import opened SchedulerThreads

  ghost predicate IsRunTo(run: Run, w: World) {
    IsRun(run) && run.worlds[|run.events|] == w
  }

  ghost predicate Reachable(w: World) {
    exists run :: IsRunTo(run, w)
  }

  lemma Extend(w: World, e: Event)
    requires Reachable(w) && Enabled(w, e)
    ensures Reachable(Next(w, e))
  {
    var run :| IsRunTo(run, w);
    var longer := Run(run.worlds + [Next(w, e)], run.events + [e]);
    forall i | 0 <= i < |longer.events|
      ensures Enabled(longer.worlds[i], longer.events[i])
      ensures longer.worlds[i + 1] == Next(longer.worlds[i], longer.events[i])
    {
      if i < |run.events| {
        assert longer.worlds[i] == run.worlds[i] && longer.events[i] == run.events[i];
        assert longer.worlds[i + 1] == run.worlds[i + 1];
      }
    }
    assert IsRunTo(longer, Next(w, e));
  }

  lemma Step(w: World, e: Event, w': World)
    requires Reachable(w) && Enabled(w, e) && Next(w, e) == w'
    ensures Reachable(w')
  {
    Extend(w, e);
  }

  const JOB: JobId := 1
  const FRESH := Row(0, true, None, None)
  const RAN := Row(0, true, None, Some(0))

  /** The world between two considerations of the job, given what the threads are doing. */
  function Quiet(row: Row, registry: map<JobId, Tid>, threads: map<Tid, Thread>): World {
    World(map[JOB := row], registry, threads, [], Idle, 0)
  }

  function Considering(w: World, row: Row, at: At): World {
    w.(list := [(JOB, row)], at := at)
  }

  /** One consideration of the job by the main loop that finds no handle: it starts a thread... */
  lemma Consider(row: Row, read: Row, threads: map<Tid, Thread>, tid: Tid)
    requires Reachable(Considering(Quiet(row, map[], threads), read, Idle))
    requires !TooEarly(read, 0) && tid !in threads
    ensures Reachable(Considering(Quiet(row, map[], threads[tid := Thread(JOB, read, 0, Spawned)]), read, Storing(tid)))
  {
    var w := Quiet(row, map[], threads);
    Step(Considering(w, read, Idle), LookHandle, Considering(w, read, HasHandle(None)));
    Step(Considering(w, read, HasHandle(None)), CheckStatus, Considering(w, read, MayRun));
    Step(Considering(w, read, MayRun), StartOrNot(tid),
         Considering(Quiet(row, map[], threads[tid := Thread(JOB, read, 0, Spawned)]), read, Storing(tid)));
  }

  /** ... stores its handle, and the thread executes the job. */
  lemma StartUp(row: Row, read: Row, threads: map<Tid, Thread>, tid: Tid)
    requires Reachable(Considering(Quiet(row, map[], threads), read, Idle))
    requires !TooEarly(read, 0) && !Loops(read) && tid !in threads
    ensures Reachable(Quiet(row.(lastRun := Some(0)), map[JOB := tid],
                            threads[tid := Thread(JOB, read, 0, Executing(0, 0))]))
  {
    Consider(row, read, threads, tid);
    var w := Quiet(row, map[], threads[tid := Thread(JOB, read, 0, Spawned)]);
    Step(Considering(w, read, Storing(tid)), StoreHandle, w.(registry := map[JOB := tid]));
    BeginStep(row, read, threads, tid);
    Step(w.(registry := map[JOB := tid]), Begin(tid),
         Quiet(row.(lastRun := Some(0)), map[JOB := tid], threads[tid := Thread(JOB, read, 0, Executing(0, 0))]));
  }

  lemma BeginStep(row: Row, read: Row, threads: map<Tid, Thread>, tid: Tid)
    requires !Loops(read)
    ensures var w := Quiet(row, map[JOB := tid], threads[tid := Thread(JOB, read, 0, Spawned)]);
      Enabled(w, Begin(tid)) && Next(w, Begin(tid))
        == Quiet(row.(lastRun := Some(0)), map[JOB := tid], threads[tid := Thread(JOB, read, 0, Executing(0, 0))])
  {
  }

  lemma Load(row: Row, registry: map<JobId, Tid>, threads: map<Tid, Thread>)
    requires row.active && Reachable(Quiet(row, registry, threads))
    ensures Reachable(Considering(Quiet(row, registry, threads), row, Idle))
  {
    var w := Quiet(row, registry, threads);
    var list := [(JOB, row)];
    assert list[0] == (JOB, row);
    assert IsActiveList(w.rows, list);
    Extend(w, LoadList(list));
  }

  lemma FirstThread()
    ensures Reachable(Trying(0))
  {
    var w := World(map[], map[], map[], [], Idle, 0);
    assert IsRunTo(Run([w], []), w);
    Extend(w, Edit(JOB, Some(FRESH)));
    assert Next(w, Edit(JOB, Some(FRESH))) == Quiet(FRESH, map[], map[]);
    Load(FRESH, map[], map[]);
    StartUp(FRESH, FRESH, map[], 0);
    assert FRESH.(lastRun := Some(0)) == RAN;
  }

  function Alone(phase: Phase): World {
    Quiet(RAN, map[JOB := 0], map[0 := Thread(JOB, FRESH, 0, phase)])
  }

  /** The first thread in its attempt after `tries` quick failures. */
  function Trying(tries: nat): World {
    Alone(Executing(tries, 0))
  }

  lemma QuickFailure(tries: nat)
    ensures Enabled(Trying(tries), Fail(0)) && Next(Trying(tries), Fail(0)) == Alone(Failed(tries + 1))
  {
  }

  lemma Decision(tries: nat)
    ensures Enabled(Alone(Failed(tries)), Decide(0))
    ensures Next(Alone(Failed(tries)), Decide(0))
            == if tries < TRY_RUN_MAX then Alone(Retrying(tries, 0)) else Alone(GivingUp)
  {
  }

  lemma NextTry(tries: nat)
    ensures Enabled(Alone(Retrying(tries, 0)), Retry(0)) && Next(Alone(Retrying(tries, 0)), Retry(0)) == Trying(tries)
  {
  }

  lemma {:induction false} ManyFailures(tries: nat)
    requires tries < TRY_RUN_MAX
    ensures Reachable(Trying(tries))
  {
    if tries == 0 {
      FirstThread();
    } else {
      ManyFailures(tries - 1);
      QuickFailure(tries - 1);
      Step(Trying(tries - 1), Fail(0), Alone(Failed(tries)));
      Decision(tries);
      Step(Alone(Failed(tries)), Decide(0), Alone(Retrying(tries, 0)));
      NextTry(tries);
      Step(Alone(Retrying(tries, 0)), Retry(0), Trying(tries));
    }
  }

  lemma TenthFailure()
    ensures Reachable(Alone(GivingUp))
  {
    ManyFailures(9);
    QuickFailure(9);
    Step(Trying(9), Fail(0), Alone(Failed(10)));
    Decision(10);
    Step(Alone(Failed(10)), Decide(0), Alone(GivingUp));
  }

  lemma FirstThreadFreesTheSlot()
    ensures Reachable(Quiet(RAN, map[], map[0 := Thread(JOB, FRESH, 0, Deactivating)]))
  {
    TenthFailure();
    Step(Alone(GivingUp), GiveUp(0), Quiet(RAN, map[], map[0 := Thread(JOB, FRESH, 0, Deactivating)]));
  }

  /** The main loop is about to look at the job; the first thread is in `phase`, the second one executes. */
  function Both(row: Row, registry: map<JobId, Tid>, phase: Phase): World {
    World(map[JOB := row], registry, map[0 := Thread(JOB, FRESH, 0, phase), 1 := SECOND], [(JOB, RAN)], Idle, 0)
  }

  const SECOND := Thread(JOB, RAN, 0, Executing(0, 0))
  const OFF := RAN.(active := false)

  /** The first thread, having given up, frees the slot that by now belongs to the second one. */
  lemma SlotIsFreedTwice()
    requires Reachable(Both(RAN, map[JOB := 1], Deactivating))
    ensures Reachable(Both(OFF, map[], Leaving))
  {
    FirstThreadDeactivates();
    Step(Both(OFF, map[JOB := 1], Returned), LookUp(0), Both(OFF, map[JOB := 1], Releasing));
    Step(Both(OFF, map[JOB := 1], Releasing), Release(0), Both(OFF, map[], Leaving));
  }

  lemma FirstThreadDeactivates()
    requires Reachable(Both(RAN, map[JOB := 1], Deactivating))
    ensures Reachable(Both(OFF, map[JOB := 1], Returned))
  {
    Step(Both(RAN, map[JOB := 1], Deactivating), Deactivate(0), Both(OFF, map[JOB := 1], Returned));
  }

  /**
   A job that fails ten times quickly can end up executing in two threads at once: the second thread starts
   before the row is deactivated, the first one then removes the second one's handle, and the main loop, still
   working on the list it loaded, starts a third.
   */
  lemma GivingUpBreaksExclusion() returns (w: World)
    ensures Reachable(w) && Executes(w, 1, JOB) && Executes(w, 2, JOB)
  {
    FirstThreadFreesTheSlot();
    var first := Thread(JOB, FRESH, 0, Deactivating);
    Load(RAN, map[], map[0 := first]);
    StartUp(RAN, RAN, map[0 := first], 1);
    assert map[0 := first][1 := SECOND] == map[0 := first, 1 := SECOND];
    Load(RAN, map[JOB := 1], map[0 := first, 1 := SECOND]);
    SlotIsFreedTwice();
    var threads := map[0 := first.(phase := Leaving), 1 := SECOND];
    StartUp(OFF, RAN, threads, 2);
    w := Quiet(OFF, map[JOB := 2], threads[2 := Thread(JOB, RAN, 0, Executing(0, 0))]);
  }
}
