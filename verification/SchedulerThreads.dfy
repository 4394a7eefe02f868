/**
 app/models/scheduler.rb: the main loop and the job threads as interleaved steps over the shared registry
 `@@jobs_started`. A step is one access to shared state, so that a thread may run, and even end, before the
 main loop stores its handle.
 */
module SchedulerThreads {
  import opened Prelude
  import opened SchedulerRetry

  type JobId = nat

  /** Stands for a thread; its handle is the same value. */
  type Tid = nat

  /** A row of the schedulers table. */
  datatype Row = Row(prio: int, active: bool, period: Option<int>, lastRun: Option<int>)

  const LOOP_PERIOD_MAX := 300
  const LOOP_COUNT_MAX := 1800

  datatype Phase =
    | Spawned
    | Executing(tries: nat, since: int)
    | Failed(tries: nat)
    | Retrying(tries: nat, since: int)
    | GivingUp
    | Deactivating
    | Returned
    | Asleep
    | Releasing
    | Leaving
    | Dead

  /** `row` is the thread's `job` variable: the row it was started with or last looked up. */
  datatype Thread = Thread(job: JobId, row: Row, loops: nat, phase: Phase)

  /** Where the main loop is with the first job of its list. */
  datatype At = Idle | HasHandle(handle: Option<Tid>) | DropHandle | MayRun | Storing(tid: Tid)

  datatype World = World(rows: map<JobId, Row>, registry: map<JobId, Tid>, threads: map<Tid, Thread>,
                         list: seq<(JobId, Row)>, at: At, now: int)

  datatype Event =
    | LoadList(list: seq<(JobId, Row)>)
    | LookHandle
    | CheckStatus
    | DeleteHandle
    | StartOrNot(tid: Tid)
    | StoreHandle
    | Begin(t: Tid)
    | Succeed(t: Tid)
    | Fail(t: Tid)
    | Decide(t: Tid)
    | Retry(t: Tid)
    | GiveUp(t: Tid)
    | Deactivate(t: Tid)
    | LookUp(t: Tid)
    | Wake(t: Tid)
    | Release(t: Tid)
    | End(t: Tid)
    | Crash(t: Tid)
    | Edit(job: JobId, row: Option<Row>)
    | Tick(seconds: nat)

  predicate Loops(row: Row) {
    row.period.Some? && row.period.value <= LOOP_PERIOD_MAX
  }

  predicate TooEarly(row: Row, now: int) {
    row.lastRun.Some? && row.period.Some? && row.lastRun.value > now - row.period.value
  }

  predicate LeavesLoop(row: Row, loops: nat) {
    !row.active || row.period.None? || loops == LOOP_COUNT_MAX
  }

  /** `Scheduler.where(active: true).order(prio: :asc)` */
  ghost predicate IsActiveList(rows: map<JobId, Row>, list: seq<(JobId, Row)>) {
    && (forall i :: 0 <= i < |list| ==> list[i].0 in rows && rows[list[i].0] == list[i].1 && list[i].1.active)
    && (forall i, j :: 0 <= i < j < |list| ==> list[i].0 != list[j].0 && list[i].1.prio <= list[j].1.prio)
    && (forall job :: job in rows && rows[job].active ==> (job, rows[job]) in list)
  }

  function PhaseOf(w: World, t: Tid): Phase {
    if t in w.threads then w.threads[t].phase else Dead
  }

  ghost predicate Enabled(w: World, e: Event) {
    match e
    case LoadList(list) => w.at.Idle? && w.list == [] && IsActiveList(w.rows, list)
    case LookHandle => w.at.Idle? && w.list != []
    case CheckStatus => w.at.HasHandle? && w.list != []
    case DeleteHandle => w.at.DropHandle? && w.list != []
    case StartOrNot(tid) => w.at.MayRun? && w.list != [] && tid !in w.threads
    case StoreHandle => w.at.Storing? && w.list != []
    case Begin(t) => PhaseOf(w, t).Spawned?
    case Succeed(t) => PhaseOf(w, t).Executing?
    case Fail(t) => PhaseOf(w, t).Executing?
    case Decide(t) => PhaseOf(w, t).Failed?
    case Retry(t) => PhaseOf(w, t).Retrying?
    case GiveUp(t) => PhaseOf(w, t).GivingUp?
    case Deactivate(t) => PhaseOf(w, t).Deactivating?
    case LookUp(t) => PhaseOf(w, t).Returned?
    case Wake(t) => PhaseOf(w, t).Asleep?
    case Release(t) => PhaseOf(w, t).Releasing?
    case End(t) => PhaseOf(w, t).Leaving?
    case Crash(t) => !PhaseOf(w, t).Dead?
    case Edit(_, _) => true
    case Tick(_) => true
  }

  function Moved(w: World, t: Tid, phase: Phase): World
    requires t in w.threads
  {
    w.(threads := w.threads[t := w.threads[t].(phase := phase)])
  }

  function Done(w: World): World
    requires w.list != []
  {
    w.(list := w.list[1..], at := Idle)
  }

  /** A step of the main loop (lines 44-57 and `skip_job?`). */
  function MainStep(w: World, e: Event): World
    requires w.list != []
    requires e.CheckStatus? ==> w.at.HasHandle?
    requires e.StoreHandle? ==> w.at.Storing?
  {
    var (job, row) := w.list[0];
    match e
    case LookHandle => w.(at := HasHandle(Lookup(w.registry, job)))
    case CheckStatus =>
      (match w.at.handle
       case None => w.(at := MayRun)
       case Some(h) => if PhaseOf(w, h).Dead? then w.(at := DropHandle) else Done(w))
    case DeleteHandle => w.(registry := w.registry - {job}, at := MayRun)
    case StartOrNot(tid) =>
      if TooEarly(row, w.now) then Done(w)
      else w.(threads := w.threads[tid := Thread(job, row, 0, Spawned)], at := Storing(tid))
    case StoreHandle => Done(w.(registry := w.registry[job := w.at.tid]))
    case _ => w
  }

  /** A step of thread `t` (`start_job` and `_start_job`). */
  function ThreadStep(w: World, e: Event, t: Tid): World
    requires t in w.threads
  {
    var th := w.threads[t];
    match e
    case Begin(_) =>
      Moved(w.(threads := w.threads[t := th.(loops := if Loops(th.row) then 1 else 0)],
               rows := Touched(w.rows, th.job, w.now)), t, Executing(0, w.now))
    case Succeed(_) => Moved(w, t, Returned)
    case Fail(_) =>
      if th.phase.Executing? then Moved(w, t, Failed(NextTries(th.phase.tries, th.phase.since, w.now))) else w
    case Decide(_) =>
      if th.phase.Failed? then
        Moved(w, t, if th.phase.tries < TRY_RUN_MAX then Retrying(th.phase.tries, w.now) else GivingUp)
      else w
    case Retry(_) =>
      if th.phase.Retrying? then
        Moved(w.(rows := Touched(w.rows, th.job, w.now)), t, Executing(th.phase.tries, th.phase.since))
      else w
    case GiveUp(_) => Moved(w.(registry := w.registry - {th.job}), t, Deactivating)
    case Deactivate(_) =>
      Moved(w.(rows := if th.job in w.rows then w.rows[th.job := w.rows[th.job].(active := false)] else w.rows),
            t, Returned)
    case LookUp(_) =>
      if th.loops == 0 then Moved(w, t, Releasing)
      else if th.job !in w.rows then Moved(w, t, Leaving)
      else
        var found := w.rows[th.job];
        w.(threads := w.threads[t := th.(row := found,
                                         phase := if LeavesLoop(found, th.loops) then Releasing else Asleep)])
    case Wake(_) =>
      Moved(w.(threads := w.threads[t := th.(loops := th.loops + 1)],
               rows := Touched(w.rows, th.job, w.now)), t, Executing(0, w.now))
    case Release(_) => Moved(w.(registry := w.registry - {th.job}), t, Leaving)
    case End(_) => Moved(w, t, Dead)
    case Crash(_) => Moved(w, t, Dead)
    case _ => w
  }

  /** `job.update!(last_run: ...)` */
  function Touched(rows: map<JobId, Row>, job: JobId, now: int): map<JobId, Row> {
    if job in rows then rows[job := rows[job].(lastRun := Some(now))] else rows
  }

  function ThreadOf(e: Event): Option<Tid> {
    match e
    case Begin(t) => Some(t)
    case Succeed(t) => Some(t)
    case Fail(t) => Some(t)
    case Decide(t) => Some(t)
    case Retry(t) => Some(t)
    case GiveUp(t) => Some(t)
    case Deactivate(t) => Some(t)
    case LookUp(t) => Some(t)
    case Wake(t) => Some(t)
    case Release(t) => Some(t)
    case End(t) => Some(t)
    case Crash(t) => Some(t)
    case _ => None
  }

  ghost function Next(w: World, e: Event): World
    requires Enabled(w, e)
  {
    match ThreadOf(e)
    case Some(t) => ThreadStep(w, e, t)
    case None =>
      match e
      case LoadList(list) => w.(list := list)
      case Edit(job, row) =>
        w.(rows := match row case None => w.rows - {job} case Some(r) => w.rows[job := r])
      case Tick(seconds) => w.(now := w.now + seconds)
      case _ => MainStep(w, e)
  }

  ghost predicate Initial(w: World) {
    w.registry == map[] && w.threads == map[] && w.list == [] && w.at == Idle
  }

  datatype Run = Run(worlds: seq<World>, events: seq<Event>)

  ghost predicate IsRun(run: Run) {
    && |run.worlds| == |run.events| + 1
    && Initial(run.worlds[0])
    && forall i :: 0 <= i < |run.events| ==>
         Enabled(run.worlds[i], run.events[i]) && run.worlds[i + 1] == Next(run.worlds[i], run.events[i])
  }

  // ----- Mutual exclusion -----

  /** The thread has not yet given its handle back: it may still execute the job's body. */
  predicate Holds(w: World, t: Tid, job: JobId) {
    t in w.threads && w.threads[t].job == job
    && !w.threads[t].phase.Leaving? && !w.threads[t].phase.Dead?
  }

  predicate Considers(w: World, job: JobId) {
    w.list != [] && w.list[0].0 == job
  }

  /**
   At most one thread holds the job. It is the registered one, or the one about to be registered, unless it has given
   up after too many retries (the threads in `given`).
   */
  ghost predicate OneHolder(w: World, job: JobId, given: set<Tid>) {
    && (forall t, u :: Holds(w, t, job) && Holds(w, u, job) ==> t == u)
    && (forall t :: Holds(w, t, job) && t !in given ==>
         if w.at.Storing? && Considers(w, job) then t == w.at.tid else Lookup(w.registry, job) == Some(t))
    && (Considers(w, job) ==>
         (w.at.HasHandle? ==> Lookup(w.registry, job) == None || Lookup(w.registry, job) == w.at.handle)
         && (w.at.DropHandle? || w.at.MayRun? ==> forall t :: Holds(w, t, job) ==> t in given))
    && (!w.at.Idle? ==> w.list != [])
  }

  /** The step starts a thread of the job. */
  predicate Starts(w: World, e: Event, job: JobId) {
    e.StartOrNot? && Considers(w, job) && !TooEarly(w.list[0].1, w.now)
  }

  /** ... while one that has given up (line 321) has not yet come to its end. */
  ghost predicate Restarts(w: World, e: Event, job: JobId, given: set<Tid>) {
    Starts(w, e, job) && exists t :: t in given && Holds(w, t, job)
  }

  function GivenAfter(e: Event, given: set<Tid>): set<Tid> {
    if e.GiveUp? then given + {e.t} else given
  }

  lemma MainStepKeepsOneHolder(w: World, e: Event, job: JobId, given: set<Tid>)
    requires OneHolder(w, job, given) && Enabled(w, e) && ThreadOf(e).None? && !Restarts(w, e, job, given)
    ensures OneHolder(Next(w, e), job, given)
  {
    var w' := Next(w, e);
    assert forall t :: Holds(w', t, job) ==>
      Holds(w, t, job) || (Starts(w, e, job) && t == e.tid && w'.at == Storing(t));
  }

  lemma ThreadStepKeepsOneHolder(w: World, e: Event, t: Tid, job: JobId, given: set<Tid>)
    requires OneHolder(w, job, given) && Enabled(w, e) && ThreadOf(e) == Some(t)
    ensures OneHolder(Next(w, e), job, GivenAfter(e, given))
  {
    var w' := Next(w, e);
    assert forall h :: Holds(w', h, job) ==> Holds(w, h, job);
    if (e.Release? || e.GiveUp?) && Holds(w, t, job) {
      assert forall h :: Holds(w, h, job) ==> h == t;
      assert e.Release? ==> !Holds(w', t, job);
    }
  }

  /** The threads that have given up before world `i`. */
  function GivenUp(run: Run, i: nat): set<Tid>
    requires i <= |run.events|
  {
    if i == 0 then {} else GivenAfter(run.events[i - 1], GivenUp(run, i - 1))
  }

  ghost predicate NoRestarts(run: Run, i: nat, job: JobId)
    requires IsRun(run) && i < |run.worlds|
  {
    forall k :: 0 <= k < i ==> !Restarts(run.worlds[k], run.events[k], job, GivenUp(run, k))
  }

  lemma {:induction false} RunKeepsOneHolder(run: Run, i: nat, job: JobId)
    requires IsRun(run) && i < |run.worlds| && NoRestarts(run, i, job)
    ensures OneHolder(run.worlds[i], job, GivenUp(run, i))
  {
    if i > 0 {
      var w, e := run.worlds[i - 1], run.events[i - 1];
      var given := GivenUp(run, i - 1);
      RunKeepsOneHolder(run, i - 1, job);
      assert Enabled(w, e) && run.worlds[i] == Next(w, e) && !Restarts(w, e, job, given);
      match ThreadOf(e)
      case Some(t) => ThreadStepKeepsOneHolder(w, e, t, job, given);
      case None => MainStepKeepsOneHolder(w, e, job, given);
    }
  }

  predicate Executes(w: World, t: Tid, job: JobId) {
    Holds(w, t, job) && w.threads[t].phase.Executing?
  }

  /**
   In every interleaving in which no thread of the job is started while another one has run out of retries and not
   yet come to its end, at most one thread executes the job's body.
   */
  lemma MutualExclusion(run: Run, i: nat, job: JobId, t1: Tid, t2: Tid)
    requires IsRun(run) && i < |run.worlds| && NoRestarts(run, i, job)
    requires Executes(run.worlds[i], t1, job) && Executes(run.worlds[i], t2, job)
    ensures t1 == t2
  {
    RunKeepsOneHolder(run, i, job);
  }

  // ----- Runs in which no thread of the job gives up -----

  /** No thread of the job runs out of retries in this step. */
  predicate NoGiveUp(w: World, e: Event, job: JobId) {
    e.GiveUp? && e.t in w.threads ==> w.threads[e.t].job != job
  }

  ghost predicate NoneGivesUp(run: Run, i: nat, job: JobId)
    requires IsRun(run) && i < |run.worlds|
  {
    forall k :: 0 <= k < i ==> NoGiveUp(run.worlds[k], run.events[k], job)
  }

  /** Threads stay with their job. */
  lemma StepKeepsJobs(w: World, e: Event, t: Tid)
    requires Enabled(w, e) && t in w.threads
    ensures t in Next(w, e).threads && Next(w, e).threads[t].job == w.threads[t].job
  {
  }

  lemma {:induction false} GivenUpHaveOtherJobs(run: Run, i: nat, job: JobId, t: Tid)
    requires IsRun(run) && i < |run.worlds| && NoneGivesUp(run, i, job) && t in GivenUp(run, i)
    ensures t in run.worlds[i].threads && run.worlds[i].threads[t].job != job
  {
    var w, e := run.worlds[i - 1], run.events[i - 1];
    assert Enabled(w, e) && run.worlds[i] == Next(w, e) && NoGiveUp(w, e, job);
    if t in GivenUp(run, i - 1) { GivenUpHaveOtherJobs(run, i - 1, job, t); }
    StepKeepsJobs(w, e, t);
  }

  /** If no thread of the job has run out of retries, at most one executes its body. */
  lemma MutualExclusionWithoutGivingUp(run: Run, i: nat, job: JobId, t1: Tid, t2: Tid)
    requires IsRun(run) && i < |run.worlds| && NoneGivesUp(run, i, job)
    requires Executes(run.worlds[i], t1, job) && Executes(run.worlds[i], t2, job)
    ensures t1 == t2
  {
    forall k | 0 <= k < i
      ensures !Restarts(run.worlds[k], run.events[k], job, GivenUp(run, k))
    {
      forall t | t in GivenUp(run, k)
        ensures !Holds(run.worlds[k], t, job)
      {
        assert NoneGivesUp(run, k, job);
        GivenUpHaveOtherJobs(run, k, job, t);
      }
    }
    MutualExclusion(run, i, job, t1, t2);
  }
}
