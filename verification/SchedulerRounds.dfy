/**
 app/models/scheduler.rb: what one consideration of a job by the main loop and one pass of a job thread amount to, that
 every active job gets its turn, and what the rows say about the attempts.
 */
module SchedulerRounds {
  import opened Prelude
  import opened SchedulerThreads
  import opened SchedulerTiming

  /** The world after some events in a row, if each can happen in its turn. */
  ghost function Played(w: World, es: seq<Event>): Option<World>
    decreases |es|
  {
    if es == [] then Some(w)
    else if Enabled(w, es[0]) then Played(Next(w, es[0]), es[1..])
    else None
  }

  lemma PlayedFirst(w: World, e: Event, es: seq<Event>)
    requires Enabled(w, e)
    ensures Played(w, [e] + es) == Played(Next(w, e), es)
  {
    assert ([e] + es)[1..] == es;
  }

  // ----- One consideration of a job -----

  /** The registry has a handle of a thread that has not ended. */
  predicate IsRunning(w: World, job: JobId) {
    job in w.registry && w.registry[job] in w.threads && !w.threads[w.registry[job]].phase.Dead?
  }

  function Rest(w: World): World
    requires w.list != []
  {
    w.(list := w.list[1..])
  }

  /** A job that is running is skipped. */
  lemma RunningJobIsSkipped(w: World)
    requires w.at.Idle? && w.list != [] && IsRunning(w, w.list[0].0)
    ensures Played(w, [LookHandle, CheckStatus]) == Some(Rest(w))
  {
    PlayedFirst(w, LookHandle, [CheckStatus]);
    PlayedFirst(Next(w, LookHandle), CheckStatus, []);
  }

  /** How a job that is not running gets to the question whether it is due; a handle of a dead thread is removed. */
  function Steps(w: World): seq<Event>
    requires w.list != []
  {
    if w.list[0].0 in w.registry then [LookHandle, CheckStatus, DeleteHandle] else [LookHandle, CheckStatus]
  }

  lemma HandleIsRemoved(w: World, es: seq<Event>)
    requires w.at.Idle? && w.list != [] && !IsRunning(w, w.list[0].0)
    ensures Played(w, Steps(w) + es)
         == Played(w.(registry := w.registry - {w.list[0].0}, at := MayRun), es)
  {
    var job := w.list[0].0;
    var w1 := Next(w, LookHandle);
    var w2 := Next(w1, CheckStatus);
    if job in w.registry {
      assert Steps(w) + es == [LookHandle] + ([CheckStatus] + ([DeleteHandle] + es));
      PlayedFirst(w, LookHandle, [CheckStatus] + ([DeleteHandle] + es));
      PlayedFirst(w1, CheckStatus, [DeleteHandle] + es);
      PlayedFirst(w2, DeleteHandle, es);
    } else {
      assert w.registry - {job} == w.registry;
      assert Steps(w) + es == [LookHandle] + ([CheckStatus] + es);
      PlayedFirst(w, LookHandle, [CheckStatus] + es);
      PlayedFirst(w1, CheckStatus, es);
    }
  }

  /** A job that is neither running nor due is passed over. */
  lemma EarlyJobIsPassedOver(w: World, tid: Tid)
    requires w.at.Idle? && w.list != [] && !IsRunning(w, w.list[0].0) && tid !in w.threads
    requires !Due(w.list[0].1, w.now)
    ensures Played(w, Steps(w) + [StartOrNot(tid)]) == Some(Rest(w).(registry := w.registry - {w.list[0].0}))
  {
    HandleIsRemoved(w, [StartOrNot(tid)]);
    PlayedFirst(w.(registry := w.registry - {w.list[0].0}, at := MayRun), StartOrNot(tid), []);
  }

  /** A job that is due and not running, also one whose thread has died, is started and registered. */
  lemma DueJobIsStarted(w: World, tid: Tid)
    requires w.at.Idle? && w.list != [] && !IsRunning(w, w.list[0].0) && tid !in w.threads
    requires Due(w.list[0].1, w.now)
    ensures var (job, row) := w.list[0];
      Played(w, Steps(w) + [StartOrNot(tid), StoreHandle])
      == Some(Rest(w).(registry := w.registry[job := tid], threads := w.threads[tid := Thread(job, row, 0, Spawned)]))
  {
    var (job, row) := w.list[0];
    var w1 := w.(registry := w.registry - {job}, at := MayRun);
    var w2 := w1.(threads := w.threads[tid := Thread(job, row, 0, Spawned)], at := Storing(tid));
    HandleIsRemoved(w, [StartOrNot(tid), StoreHandle]);
    assert [StartOrNot(tid), StoreHandle] == [StartOrNot(tid)] + [StoreHandle];
    PlayedFirst(w1, StartOrNot(tid), [StoreHandle]);
    PlayedFirst(w2, StoreHandle, []);
    assert (w.registry - {job})[job := tid] == w.registry[job := tid];
  }

  /** So a job whose thread has crashed is started again at its next turn. */
  lemma CrashedJobIsStartedAgain(w: World, t: Tid, tid: Tid)
    requires w.at.Idle? && w.list != [] && tid !in w.threads
    requires Lookup(w.registry, w.list[0].0) == Some(t) && IsRunning(w, w.list[0].0) && Due(w.list[0].1, w.now)
    ensures var (job, row) := w.list[0];
      var w' := Played(w, [Crash(t), LookHandle, CheckStatus, DeleteHandle, StartOrNot(tid), StoreHandle]);
      w'.Some? && w'.value.registry == w.registry[job := tid]
      && tid in w'.value.threads && w'.value.threads[tid] == Thread(job, row, 0, Spawned)
  {
    var es := [LookHandle, CheckStatus, DeleteHandle, StartOrNot(tid), StoreHandle];
    var w1 := Next(w, Crash(t));
    assert [Crash(t), LookHandle, CheckStatus, DeleteHandle, StartOrNot(tid), StoreHandle] == [Crash(t)] + es;
    PlayedFirst(w, Crash(t), es);
    DueJobIsStarted(w1, tid);
    assert Steps(w1) + [StartOrNot(tid), StoreHandle] == es;
  }

  // ----- One pass of a thread -----

  /** The world while thread `t` is in a pass that it has begun now; `freed` if it has freed its slot. */
  function PassedTo(w: World, t: Tid, phase: Phase, freed: bool): World
    requires t in w.threads
  {
    var th := w.threads[t];
    w.(threads := w.threads[t := Thread(th.job, th.row, 0, phase)],
       registry := if freed then w.registry - {th.job} else w.registry,
       rows := map j | j in w.rows :: if j == th.job then w.rows[j].(lastRun := Some(w.now)) else w.rows[j])
  }

  predicate FollowsIn(t: Tid, phase: Phase, e: Event, next: Phase) {
    || (e == Succeed(t) && phase.Executing? && next == Returned)
    || (e == LookUp(t) && phase.Returned? && next == Releasing)
    || (e == Release(t) && phase.Releasing? && next == Leaving)
    || (e == End(t) && phase.Leaving? && next == Dead)
  }

  lemma PassStep(w: World, t: Tid, phase: Phase, e: Event, next: Phase, freed: bool)
    requires t in w.threads && FollowsIn(t, phase, e, next)
    ensures Enabled(PassedTo(w, t, phase, freed), e)
    ensures Next(PassedTo(w, t, phase, freed), e) == PassedTo(w, t, next, freed || e.Release?)
  {
    var before, after := PassedTo(w, t, phase, freed), PassedTo(w, t, next, freed || e.Release?);
    assert before.threads[t := Thread(w.threads[t].job, w.threads[t].row, 0, next)] == after.threads;
  }

  lemma PassBegins(w: World, t: Tid, es: seq<Event>)
    requires t in w.threads && w.threads[t].phase.Spawned? && w.threads[t].loops == 0 && !Short(w.threads[t].row)
    ensures Played(w, [Begin(t)] + es) == Played(PassedTo(w, t, Executing(0, w.now), false), es)
  {
    PlayedFirst(w, Begin(t), es);
    assert Next(w, Begin(t)).rows == PassedTo(w, t, Executing(0, w.now), false).rows;
    assert Next(w, Begin(t)) == PassedTo(w, t, Executing(0, w.now), false);
  }

  lemma PassGoesOn(w: World, t: Tid, phase: Phase, e: Event, next: Phase, freed: bool, es: seq<Event>)
    requires t in w.threads && FollowsIn(t, phase, e, next)
    ensures Played(PassedTo(w, t, phase, freed), [e] + es) == Played(PassedTo(w, t, next, freed || e.Release?), es)
  {
    PassStep(w, t, phase, e, next, freed);
    PlayedFirst(PassedTo(w, t, phase, freed), e, es);
  }

  /** A thread without a loop whose job succeeds: it notes when it ran, frees the slot and ends. */
  lemma SuccessfulPass(w: World, t: Tid)
    requires t in w.threads && w.threads[t].phase.Spawned? && w.threads[t].loops == 0 && !Short(w.threads[t].row)
    ensures Played(w, [Begin(t), Succeed(t), LookUp(t), Release(t), End(t)]) == Some(PassedTo(w, t, Dead, true))
  {
    var es1 := [End(t)];
    var es2 := [Release(t)] + es1;
    var es3 := [LookUp(t)] + es2;
    var es4 := [Succeed(t)] + es3;
    assert [Begin(t), Succeed(t), LookUp(t), Release(t), End(t)] == [Begin(t)] + es4;
    PassBegins(w, t, es4);
    PassGoesOn(w, t, Executing(0, w.now), Succeed(t), Returned, false, es3);
    PassGoesOn(w, t, Returned, LookUp(t), Releasing, false, es2);
    PassGoesOn(w, t, Releasing, Release(t), Leaving, false, es1);
    assert es1 == [End(t)] + [];
    PassGoesOn(w, t, Leaving, End(t), Dead, true, []);
  }

  // ----- Every active job gets its turn -----

  /** In step `k` the main loop begins to consider the job. */
  predicate TurnOf(run: Run, k: nat, job: JobId)
    requires k < |run.events| && k < |run.worlds|
  {
    run.events[k] == LookHandle && Considers(run.worlds[k], job)
  }

  predicate Complete(run: Run) {
    |run.worlds| == |run.events| + 1
  }

  /** The jobs of the list so far have had their turn, in the order of the list. */
  ghost predicate TurnsTaken(run: Run, j: nat, i: nat, full: seq<(JobId, Row)>, turns: seq<nat>)
    requires Complete(run) && j < i < |run.worlds|
  {
    && |turns| <= |full|
    && (forall m :: 0 <= m < |turns| ==> j < turns[m] < i && TurnOf(run, turns[m], full[m].0))
    && (forall m, n :: 0 <= m < n < |turns| ==> turns[m] < turns[n])
    && (if run.worlds[i].at.Idle? then run.worlds[i].list == full[|turns|..]
        else turns != [] && run.worlds[i].list == full[|turns| - 1..])
  }

  /** How a step that does not load a list changes it. */
  predicate MovesOn(w: World, e: Event, w': World) {
    && (e == LookHandle ==> w.at.Idle? && w.list != [] && !w'.at.Idle? && w'.list == w.list)
    && (e != LookHandle && w.at.Idle? ==> w'.at.Idle? && w'.list == w.list)
    && (e != LookHandle && !w.at.Idle? && w.list != [] ==> w'.list == if w'.at.Idle? then w.list[1..] else w.list)
  }

  lemma AStepMovesOn(w: World, e: Event)
    requires Enabled(w, e) && !e.LoadList?
    ensures MovesOn(w, e, Next(w, e))
  {
  }

  lemma OneMoreTurn(run: Run, j: nat, i: nat, full: seq<(JobId, Row)>, turns: seq<nat>)
    requires Complete(run) && j < i < |run.events| && TurnsTaken(run, j, i, full, turns)
    requires run.events[i] == LookHandle && MovesOn(run.worlds[i], run.events[i], run.worlds[i + 1])
    ensures TurnsTaken(run, j, i + 1, full, turns + [i])
  {
    var more := turns + [i];
    assert run.worlds[i].list[0] == full[|turns|];
    forall m | 0 <= m < |more|
      ensures j < more[m] < i + 1 && TurnOf(run, more[m], full[m].0)
    {
      if m < |turns| { assert more[m] == turns[m]; }
    }
    assert full[|more| - 1..] == full[|turns|..];
  }

  lemma NoMoreTurn(run: Run, j: nat, i: nat, full: seq<(JobId, Row)>, turns: seq<nat>)
    requires Complete(run) && j < i < |run.events| && TurnsTaken(run, j, i, full, turns)
    requires run.events[i] != LookHandle && MovesOn(run.worlds[i], run.events[i], run.worlds[i + 1])
    ensures TurnsTaken(run, j, i + 1, full, turns)
  {
    if !run.worlds[i].at.Idle? {
      assert full[|turns| - 1..][1..] == full[|turns|..];
    }
  }

  /** Every step of the run after `j` and before `i` moves on. */
  predicate AllMoveOn(run: Run, j: nat, i: nat)
    requires Complete(run) && i < |run.worlds|
  {
    forall k :: j < k < i ==> MovesOn(run.worlds[k], run.events[k], run.worlds[k + 1])
  }

  lemma StepsMoveOn(run: Run, j: nat, i: nat)
    requires IsRun(run) && i < |run.worlds| && forall k :: j < k < i ==> !run.events[k].LoadList?
    ensures AllMoveOn(run, j, i)
  {
    forall k | j < k < i
      ensures MovesOn(run.worlds[k], run.events[k], run.worlds[k + 1])
    {
      StepOf(run, k);
      AStepMovesOn(run.worlds[k], run.events[k]);
    }
  }

  lemma {:induction false} TurnsSince(run: Run, j: nat, i: nat, full: seq<(JobId, Row)>) returns (turns: seq<nat>)
    requires Complete(run) && j < i < |run.worlds| && AllMoveOn(run, j, i)
    requires run.worlds[j + 1].at.Idle? && run.worlds[j + 1].list == full
    ensures TurnsTaken(run, j, i, full, turns)
  {
    if i == j + 1 {
      turns := [];
      assert full[0..] == full;
    } else {
      turns := TurnsSince(run, j, i - 1, full);
      if run.events[i - 1] == LookHandle {
        OneMoreTurn(run, j, i - 1, full, turns);
        turns := turns + [i - 1];
      } else {
        NoMoreTurn(run, j, i - 1, full, turns);
      }
    }
  }

  lemma AllTurnsSince(run: Run, j: nat, i: nat, full: seq<(JobId, Row)>) returns (turns: seq<nat>)
    requires IsRun(run) && j < i < |run.events| && run.events[j] == LoadList(full) && run.events[i].LoadList?
    requires forall m :: j < m < i ==> !run.events[m].LoadList?
    ensures IsActiveList(run.worlds[j].rows, full)
    ensures TurnsTaken(run, j, i, full, turns) && |turns| == |full|
  {
    StepOf(run, j);
    StepOf(run, i);
    StepsMoveOn(run, j, i);
    turns := TurnsSince(run, j, i, full);
  }

  lemma TurnsAreInOrder(rows: map<JobId, Row>, full: seq<(JobId, Row)>, m: nat, n: nat)
    requires IsActiveList(rows, full) && m < |full| && n < |full| && full[m].1.prio < full[n].1.prio
    ensures m < n
  {
  }

  /**
   Between two loads of the list each job that was active at the first one has its turn, and jobs with a smaller
   priority number have theirs before the others.
   */
  lemma EveryActiveJobHasItsTurn(run: Run, j: nat, i: nat, job: JobId, other: JobId) returns (k: nat, l: nat)
    requires IsRun(run) && j < i < |run.events| && run.events[j].LoadList? && run.events[i].LoadList?
    requires forall m :: j < m < i ==> !run.events[m].LoadList?
    requires job in run.worlds[j].rows && run.worlds[j].rows[job].active
    requires other in run.worlds[j].rows && run.worlds[j].rows[other].active
    ensures j < k < i && TurnOf(run, k, job) && j < l < i && TurnOf(run, l, other)
    ensures run.worlds[j].rows[job].prio < run.worlds[j].rows[other].prio ==> k < l
  {
    var full, rows := run.events[j].list, run.worlds[j].rows;
    var turns := AllTurnsSince(run, j, i, full);
    k, l := TurnsOfTwo(run, j, i, rows, full, turns, job, other);
  }

  lemma TurnsOfTwo(run: Run, j: nat, i: nat, rows: map<JobId, Row>, full: seq<(JobId, Row)>, turns: seq<nat>,
                   job: JobId, other: JobId)
    returns (k: nat, l: nat)
    requires Complete(run) && j < i < |run.events| && IsActiveList(rows, full)
    requires TurnsTaken(run, j, i, full, turns) && |turns| == |full|
    requires job in rows && rows[job].active && other in rows && rows[other].active
    ensures j < k < i && TurnOf(run, k, job) && j < l < i && TurnOf(run, l, other)
    ensures rows[job].prio < rows[other].prio ==> k < l
  {
    var m :| 0 <= m < |full| && full[m] == (job, rows[job]);
    var n :| 0 <= n < |full| && full[n] == (other, rows[other]);
    k, l := turns[m], turns[n];
    if rows[job].prio < rows[other].prio {
      TurnsAreInOrder(rows, full, m, n);
    }
  }

  // ----- What the rows say -----

  predicate BeginsAttempt(w: World, e: Event, job: JobId) {
    match e
    case Begin(t) => t in w.threads && w.threads[t].job == job
    case Wake(t) => t in w.threads && w.threads[t].job == job
    case Retry(t) => t in w.threads && w.threads[t].job == job
    case _ => false
  }

  predicate Deactivates(w: World, e: Event, job: JobId) {
    e.Deactivate? && e.t in w.threads && w.threads[e.t].job == job
  }

  /** When the job was last attempted from step `s` on, and the time in its row at step `s` if it was not. */
  function LastAttempt(run: Run, s: nat, i: nat, job: JobId): Option<int>
    requires s <= i < |run.worlds| && i <= |run.events| && job in run.worlds[s].rows
  {
    if s == i then run.worlds[s].rows[job].lastRun
    else if BeginsAttempt(run.worlds[i - 1], run.events[i - 1], job) then Some(run.worlds[i - 1].now)
    else LastAttempt(run, s, i - 1, job)
  }

  /** What a step that does not edit the row of the job makes of it. */
  predicate RowStays(w: World, e: Event, w': World, job: JobId) {
    job in w.rows ==>
      job in w'.rows
      && w'.rows[job] == w.rows[job].(lastRun := if BeginsAttempt(w, e, job) then Some(w.now) else w.rows[job].lastRun,
                                      active := w.rows[job].active && !Deactivates(w, e, job))
  }

  lemma AStepLeavesTheRow(w: World, e: Event, job: JobId)
    requires Enabled(w, e) && !(e.Edit? && e.job == job)
    ensures RowStays(w, e, Next(w, e), job)
  {
  }

  lemma {:induction false} RowsSince(run: Run, s: nat, i: nat, job: JobId)
    requires Complete(run) && s <= i < |run.worlds| && job in run.worlds[s].rows
    requires forall k :: s <= k < i ==> RowStays(run.worlds[k], run.events[k], run.worlds[k + 1], job)
    ensures job in run.worlds[i].rows && run.worlds[i].rows[job].lastRun == LastAttempt(run, s, i, job)
    ensures run.worlds[i].rows[job].active
            <==> run.worlds[s].rows[job].active
                 && forall k :: s <= k < i ==> !Deactivates(run.worlds[k], run.events[k], job)
    ensures run.worlds[i].rows[job].prio == run.worlds[s].rows[job].prio
            && run.worlds[i].rows[job].period == run.worlds[s].rows[job].period
    decreases i
  {
    if s < i {
      RowsSince(run, s, i - 1, job);
      assert RowStays(run.worlds[i - 1], run.events[i - 1], run.worlds[i], job);
    }
  }

  /**
   Unless somebody edits it, a row says when its job was last attempted, and is active until a thread deactivates it.
   */
  lemma RowsTellTheLastAttempt(run: Run, s: nat, i: nat, job: JobId)
    requires IsRun(run) && s <= i < |run.worlds| && job in run.worlds[s].rows
    requires forall k :: s <= k < i ==> !(run.events[k].Edit? && run.events[k].job == job)
    ensures job in run.worlds[i].rows && run.worlds[i].rows[job].lastRun == LastAttempt(run, s, i, job)
    ensures run.worlds[i].rows[job].active
            <==> run.worlds[s].rows[job].active
                 && forall k :: s <= k < i ==> !Deactivates(run.worlds[k], run.events[k], job)
    ensures run.worlds[i].rows[job].prio == run.worlds[s].rows[job].prio
            && run.worlds[i].rows[job].period == run.worlds[s].rows[job].period
  {
    forall k | s <= k < i
      ensures RowStays(run.worlds[k], run.events[k], run.worlds[k + 1], job)
    {
      StepOf(run, k);
      AStepLeavesTheRow(run.worlds[k], run.events[k], job);
    }
    RowsSince(run, s, i, job);
  }
}
