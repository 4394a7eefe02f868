/**
 Runs of any number of processes over one settings table: an incremental reload is as good as a full
 one, and a read is never older than the lookup timeout nor older than the reader's own last save.
 */
module SettingRuns {
  import opened Prelude
  import opened Interpolation
  import opened SettingCache

  type Pid = nat

  datatype World = World(processes: map<Pid, Cached>, backend: Backend)

  datatype Event =
    | Get(pid: Pid, name: string)
    | Set(pid: Pid, name: string, value: Value, stamp: int, id: ChangeId)
    | Reset(pid: Pid, name: string, force: bool, stamp: int, id: ChangeId)
    | Create(pid: Pid, name: string, value: Value, stamp: int, id: ChangeId)
    | ForceReload(pid: Pid)
    | Boot(pid: Pid)
    | Tick(seconds: nat)
    | Expire

  datatype Save = Save(pid: Pid, name: string, value: Value, stamp: int, id: ChangeId)

  /** The save an event leads to, if any: `set` and `reset` raise on an unknown name. */
  function SaveOf(w: World, e: Event): Option<Save> {
    var rows := w.backend.rows;
    match e
    case Set(p, n, v, s, i) => if n in rows then Some(Save(p, n, v, s, i)) else None
    case Reset(p, n, force, s, i) =>
      if n in rows && (force || rows[n].value != rows[n].initial) then Some(Save(p, n, rows[n].initial, s, i))
      else None
    case Create(p, n, v, s, i) => if n in rows then None else Some(Save(p, n, v, s, i))
    case _ => None
  }

  predicate HasPid(w: World, e: Event) {
    match e
    case Get(p, _) => p in w.processes
    case Set(p, _, _, _, _) => p in w.processes
    case Reset(p, _, _, _, _) => p in w.processes
    case Create(p, _, _, _, _) => p in w.processes
    case ForceReload(p) => p in w.processes
    case _ => true
  }

  predicate ChangesRow(rows: Rows, s: Save) {
    s.name !in rows || rows[s.name].value != s.value
  }

  /** The hypotheses on a save: a changed row gets an updated_at above all others, and the change id is new. */
  ghost predicate OrderlySave(w: World, s: Save) {
    && (ChangesRow(w.backend.rows, s) ==> forall n :: n in w.backend.rows ==> w.backend.rows[n].updatedAt < s.stamp)
    && w.backend.cell != Some(s.id)
    && (forall p :: p in w.processes ==> w.processes[p].changeId != Some(s.id))
  }

  ghost predicate Orderly(w: World, e: Event) {
    HasPid(w, e) && (SaveOf(w, e).Some? ==> OrderlySave(w, SaveOf(w, e).value))
  }

  function AfterSave(w: World, s: Save): World
    requires s.pid in w.processes
  {
    World(w.processes[s.pid := Announced(w.processes[s.pid], s.name, s.value)],
          SavedBackend(w.backend, s.name, s.value, s.stamp, s.id))
  }

  ghost function Next(w: World, e: Event): World
    requires HasPid(w, e)
  {
    if SaveOf(w, e).Some? then AfterSave(w, SaveOf(w, e).value)
    else match e
      case Get(p, _) => w.(processes := w.processes[p := Loaded(w.processes[p], w.backend, false)])
      case ForceReload(p) =>
        w.(processes := w.processes[p := Loaded(w.processes[p].(lastChangedAt := None), w.backend, true)])
      case Boot(p) => w.(processes := w.processes[p := EMPTY])
      case Tick(seconds) => w.(backend := w.backend.(now := w.backend.now + seconds))
      case Expire => w.(backend := w.backend.(cell := None))
      case _ => w
  }

  /** What `Setting.get` returns to the process. */
  ghost function Answer(w: World, e: Event): Option<Value>
    requires e.Get? && HasPid(w, e)
  {
    Lookup(Next(w, e).processes[e.pid].current, e.name)
  }

  datatype Run = Run(worlds: seq<World>, events: seq<Event>)

  ghost predicate IsRun(run: Run) {
    && |run.worlds| == |run.events| + 1
    && (forall p :: p in run.worlds[0].processes ==> run.worlds[0].processes[p] == EMPTY)
    && forall i :: 0 <= i < |run.events| ==>
         Orderly(run.worlds[i], run.events[i]) && run.worlds[i + 1] == Next(run.worlds[i], run.events[i])
  }

  // ----- What every step keeps -----

  /** Some row has not been read yet by this process. */
  ghost predicate Behind(c: Cached, rows: Rows) {
    match c.lastChangedAt
    case None => rows != map[]
    case Some(t) => exists n :: n in rows && t < rows[n].updatedAt
  }

  /** The interpolated values, except that names in `bare` may have their template instead. */
  predicate AlmostRendered(current: Values, raw: Values, bare: set<string>) {
    && current.Keys == raw.Keys
    && forall n :: n in raw ==> current[n] == Interpolate(raw, raw[n]) || (n in bare && current[n] == raw[n])
  }

  ghost predicate Synced(c: Cached, b: Backend, bare: set<string>) {
    && c.raw.Keys <= b.rows.Keys
    && c.current.Keys <= b.rows.Keys
    && (c.lastChangedAt.Some? ==>
         && (exists n :: n in b.rows && c.lastChangedAt.value <= b.rows[n].updatedAt)
         && forall n :: n in b.rows && b.rows[n].updatedAt <= c.lastChangedAt.value ==>
              n in c.raw && c.raw[n] == b.rows[n].value)
    && (if Behind(c, b.rows) then bare == {} else AlmostRendered(c.current, c.raw, bare))
    && (SameChangeId(c, b) ==> AlmostRendered(c.current, Contents(b.rows), bare))
  }

  lemma RenderedIsAlmostRendered(raw: Values, bare: set<string>)
    ensures AlmostRendered(Rendered(raw), raw, bare)
    ensures forall current :: AlmostRendered(current, raw, {}) ==> current == Rendered(raw)
  {
  }

  lemma CaughtUpHasAllRows(c: Cached, b: Backend, bare: set<string>)
    requires Synced(c, b, bare) && !Behind(c, b.rows)
    ensures c.raw == Contents(b.rows) && AlmostRendered(c.current, Contents(b.rows), bare)
  {
  }

  /** There is something to read exactly if the process is behind or has to read everything. */
  lemma NothingToReadMeansCaughtUp(c: Cached, b: Backend, bare: set<string>)
    requires Synced(c, b, bare)
    ensures Behind(c, b.rows) ==> RowsToRead(c, b.rows) != map[]
    ensures !Behind(c, b.rows) && c.lastChangedAt.Some? && c.current != map[] ==> RowsToRead(c, b.rows) == map[]
  {
    if Behind(c, b.rows) && c.lastChangedAt.Some? {
      var n :| n in b.rows && c.lastChangedAt.value < b.rows[n].updatedAt;
      assert n in RowsToRead(c, b.rows);
    }
  }

  lemma ReadingBringsRawUpToDate(c: Cached, b: Backend, bare: set<string>)
    requires Synced(c, b, bare)
    ensures ReadRaw(c, b.rows) == Contents(b.rows)
  {
    var raw := ReadRaw(c, b.rows);
    forall n | n in b.rows
      ensures n in raw && raw[n] == b.rows[n].value
    {
      if n !in RowsToRead(c, b.rows) {
        assert b.rows[n].updatedAt <= c.lastChangedAt.value;
      }
    }
  }

  /**
   A reload that reads only the newer rows ends where a read of the whole table would; if there are none, a name in
   `bare` may keep its template.
   */
  lemma IncrementalReloadIsFull(c: Cached, b: Backend, bare: set<string>)
    requires Synced(c, b, bare)
    ensures Reloaded(c, b).raw == Contents(b.rows)
    ensures AlmostRendered(Reloaded(c, b).current, Contents(b.rows), bare)
    ensures RowsToRead(c, b.rows) != map[] || bare == {} ==> Reloaded(c, b).current == FullRead(b.rows)
  {
    ReadingBringsRawUpToDate(c, b, bare);
    RenderedIsAlmostRendered(Contents(b.rows), bare);
    if RowsToRead(c, b.rows) == map[] {
      NothingToReadMeansCaughtUp(c, b, bare);
      CaughtUpHasAllRows(c, b, bare);
    } else {
      assert c.current.Keys <= Rendered(Contents(b.rows)).Keys;
    }
  }

  /** `Setting.reload` reads everything and always ends with the interpolated values. */
  lemma ForcedReloadIsFull(c: Cached, b: Backend, bare: set<string>)
    requires Synced(c, b, bare)
    ensures Synced(Reloaded(c.(lastChangedAt := None), b), b, {})
    ensures Reloaded(c.(lastChangedAt := None), b).current == FullRead(b.rows)
  {
    var c' := c.(lastChangedAt := None);
    if b.rows == map[] {
      assert c.raw == map[] && c.current == map[];
    }
    assert ReadRaw(c', b.rows) == Contents(b.rows);
    assert Reloaded(c', b).current == FullRead(b.rows);
    ReloadedIsSynced(c', b, {});
  }

  lemma ReloadedIsNotBehind(c: Cached, b: Backend)
    ensures !Behind(Reloaded(c, b), b.rows)
  {
    assert IsLatest(b.rows, Latest(b.rows));
  }

  lemma ReloadedIsSynced(c: Cached, b: Backend, bare: set<string>)
    requires Reloaded(c, b).raw == Contents(b.rows)
    requires AlmostRendered(Reloaded(c, b).current, Contents(b.rows), bare)
    ensures Synced(Reloaded(c, b), b, bare) && !Behind(Reloaded(c, b), b.rows)
  {
    ReloadedIsNotBehind(c, b);
    var latest := Latest(b.rows);
    if latest.Some? {
      var n :| n in b.rows && b.rows[n].updatedAt == latest.value;
      assert latest.value <= b.rows[n].updatedAt;
    }
  }

  lemma ReloadKeepsSynced(c: Cached, b: Backend, bare: set<string>)
    requires Synced(c, b, bare)
    ensures Synced(Reloaded(c, b), b, bare) && !Behind(Reloaded(c, b), b.rows)
  {
    IncrementalReloadIsFull(c, b, bare);
    ReloadedIsSynced(c, b, bare);
  }

  lemma LoadKeepsSynced(c: Cached, b: Backend, bare: set<string>)
    requires Synced(c, b, bare)
    ensures Synced(Loaded(c, b, false), b, bare)
  {
    if c.current != map[] && Checked(c, b).0 {
      assert Loaded(c, b, false) == Checked(c, b).1;
    } else {
      ReloadKeepsSynced(c, b, bare);
    }
  }

  ghost function AfterSaveBackend(w: World, s: Save): Backend {
    SavedBackend(w.backend, s.name, s.value, s.stamp, s.id)
  }

  /** A save that changes a row puts every process behind; none recognises its change id. */
  lemma ChangePutsBehind(w: World, s: Save, p: Pid, bare: set<string>)
    requires OrderlySave(w, s) && p in w.processes && Synced(w.processes[p], w.backend, bare)
    requires ChangesRow(w.backend.rows, s)
    ensures Synced(w.processes[p], AfterSaveBackend(w, s), {})
    ensures Behind(w.processes[p], AfterSaveBackend(w, s).rows)
  {
    var c, b, b' := w.processes[p], w.backend, AfterSaveBackend(w, s);
    assert s.name in b'.rows && b'.rows[s.name].updatedAt == s.stamp;
    if c.lastChangedAt.Some? {
      var n :| n in b.rows && c.lastChangedAt.value <= b.rows[n].updatedAt;
      assert c.lastChangedAt.value < s.stamp;
    }
  }

  lemma NoopLeavesRows(w: World, s: Save)
    requires !ChangesRow(w.backend.rows, s)
    ensures AfterSaveBackend(w, s) == w.backend.(cell := Some(s.id))
  {
    assert w.backend.rows[s.name := w.backend.rows[s.name]] == w.backend.rows;
  }

  /** A process that is up to date has saved the template of a setting as it was. */
  ghost predicate SavesBare(w: World, s: Save, p: Pid) {
    && s.pid == p && p in w.processes && !Behind(w.processes[p], w.backend.rows)
    && !ChangesRow(w.backend.rows, s) && Interpolate(Contents(w.backend.rows), s.value) != s.value
  }

  /** For which names the process may hold the template after the event. */
  ghost function NextBare(w: World, e: Event, p: Pid, bare: set<string>): set<string> {
    match SaveOf(w, e)
    case Some(s) =>
      if ChangesRow(w.backend.rows, s) then {}
      else if SavesBare(w, s, p) then bare + {s.name}
      else bare
    case None =>
      if e == ForceReload(p) || e == Boot(p) then {} else bare
  }

  lemma AnnouncedKeepsSynced(c: Cached, b: Backend, name: string, value: Value)
    requires Synced(c, b, {}) && Behind(c, b.rows) && name in b.rows && !SameChangeId(c, b)
    ensures Synced(Announced(c, name, value), b, {})
  {
    assert Behind(Announced(c, name, value), b.rows);
  }

  lemma BareNameAdded(current: Values, raw: Values, bare: set<string>, name: string)
    requires AlmostRendered(current, raw, bare) && name in raw
    ensures AlmostRendered(current[name := raw[name]], raw, bare + {name})
    ensures Interpolate(raw, raw[name]) == raw[name] ==> AlmostRendered(current[name := raw[name]], raw, bare)
  {
  }

  lemma NewIdKeepsSynced(c: Cached, b: Backend, bare: set<string>, id: ChangeId)
    requires Synced(c, b, bare) && c.changeId != Some(id)
    ensures Synced(c, b.(cell := Some(id)), bare)
  {
  }

  lemma NoopSaveKeepsSynced(c: Cached, b: Backend, bare: set<string>, name: string)
    requires Synced(c, b, bare) && !SameChangeId(c, b) && name in b.rows
    ensures var value := b.rows[name].value;
      var added := !Behind(c, b.rows) && Interpolate(Contents(b.rows), value) != value;
      Synced(Announced(c, name, value), b, if added then bare + {name} else bare)
  {
    var value := b.rows[name].value;
    var c' := Announced(c, name, value);
    if Behind(c, b.rows) {
      AnnouncedKeepsSynced(c, b, name, value);
    } else {
      CaughtUpHasAllRows(c, b, bare);
      BareNameAdded(c.current, c.raw, bare, name);
      assert !Behind(c', b.rows) && !SameChangeId(c', b);
    }
  }

  lemma SaveKeepsSynced(w: World, s: Save, p: Pid, bare: set<string>)
    requires s.pid in w.processes && p in w.processes && OrderlySave(w, s)
    requires Synced(w.processes[p], w.backend, bare)
    ensures Synced(AfterSave(w, s).processes[p], AfterSaveBackend(w, s),
                   if ChangesRow(w.backend.rows, s) then {} else if SavesBare(w, s, p) then bare + {s.name} else bare)
  {
    var c, b := w.processes[p], w.backend;
    if ChangesRow(b.rows, s) {
      ChangePutsBehind(w, s, p, bare);
      if p == s.pid { AnnouncedKeepsSynced(c, AfterSaveBackend(w, s), s.name, s.value); }
    } else {
      NoopLeavesRows(w, s);
      NewIdKeepsSynced(c, b, bare, s.id);
      if p == s.pid { NoopSaveKeepsSynced(c, AfterSaveBackend(w, s), bare, s.name); }
    }
  }

  lemma StepKeepsSynced(w: World, e: Event, p: Pid, bare: set<string>)
    requires Orderly(w, e) && p in Next(w, e).processes
    requires p in w.processes ==> Synced(w.processes[p], w.backend, bare)
    ensures Synced(Next(w, e).processes[p], Next(w, e).backend, NextBare(w, e, p, bare))
  {
    if SaveOf(w, e).Some? {
      SaveKeepsSynced(w, SaveOf(w, e).value, p, bare);
    } else {
      QuietStepKeepsSynced(w, e, p, bare);
    }
  }

  lemma SameRowsKeepSynced(c: Cached, b: Backend, b': Backend, bare: set<string>)
    requires Synced(c, b, bare) && b'.rows == b.rows && (b'.cell == b.cell || b'.cell == None)
    ensures Synced(c, b', bare)
  {
  }

  /** A step that saves nothing leaves the rows alone, and the change id unless it expires. */
  lemma QuietStepLeavesRows(w: World, e: Event)
    requires HasPid(w, e) && SaveOf(w, e).None?
    ensures var b, b' := w.backend, Next(w, e).backend; b'.rows == b.rows && (b'.cell == b.cell || b'.cell == None)
    ensures !e.Tick? && !e.Expire? ==> Next(w, e).backend == w.backend
  {
  }

  ghost predicate ChangesCacheOf(e: Event, p: Pid) {
    (e.Get? && e.pid == p) || e == ForceReload(p) || e == Boot(p)
  }

  lemma OtherCachesStay(w: World, e: Event, p: Pid, bare: set<string>)
    requires HasPid(w, e) && SaveOf(w, e).None? && !ChangesCacheOf(e, p) && p in Next(w, e).processes
    ensures p in w.processes && Next(w, e).processes[p] == w.processes[p] && NextBare(w, e, p, bare) == bare
  {
  }

  lemma QuietStepKeepsSynced(w: World, e: Event, p: Pid, bare: set<string>)
    requires HasPid(w, e) && SaveOf(w, e).None? && p in Next(w, e).processes
    requires p in w.processes ==> Synced(w.processes[p], w.backend, bare)
    ensures Synced(Next(w, e).processes[p], Next(w, e).backend, NextBare(w, e, p, bare))
  {
    QuietStepLeavesRows(w, e);
    if !ChangesCacheOf(e, p) {
      OtherCachesStay(w, e, p, bare);
      SameRowsKeepSynced(w.processes[p], w.backend, Next(w, e).backend, bare);
    } else {
      CacheStepKeepsSynced(w, e, p, bare);
    }
  }

  lemma CacheStepKeepsSynced(w: World, e: Event, p: Pid, bare: set<string>)
    requires HasPid(w, e) && ChangesCacheOf(e, p) && Next(w, e).backend == w.backend
    requires p in w.processes ==> Synced(w.processes[p], w.backend, bare)
    ensures Synced(Next(w, e).processes[p], w.backend, NextBare(w, e, p, bare))
  {
    match e
    case Get(_, _) => LoadKeepsSynced(w.processes[p], w.backend, bare);
    case ForceReload(_) => ForcedReloadIsFull(w.processes[p], w.backend, bare);
    case Boot(_) => EmptyIsSynced(w.backend);
  }

  lemma EmptyIsSynced(b: Backend)
    ensures Synced(EMPTY, b, {})
  {
    RenderedIsAlmostRendered(map[], {});
  }

  /** The names for which the process may hold the template in world `i`. */
  ghost function Bare(run: Run, p: Pid, i: nat): set<string>
    requires i < |run.worlds| && i <= |run.events|
  {
    if i == 0 then {} else NextBare(run.worlds[i - 1], run.events[i - 1], p, Bare(run, p, i - 1))
  }

  lemma {:induction false} RunKeepsSynced(run: Run, i: nat, p: Pid)
    requires IsRun(run) && i < |run.worlds| && p in run.worlds[i].processes
    ensures Synced(run.worlds[i].processes[p], run.worlds[i].backend, Bare(run, p, i))
  {
    if i == 0 {
      EmptyIsSynced(run.worlds[0].backend);
    } else {
      var w, e := run.worlds[i - 1], run.events[i - 1];
      assert Orderly(w, e) && run.worlds[i] == Next(w, e);
      if p in w.processes { RunKeepsSynced(run, i - 1, p); }
      StepKeepsSynced(w, e, p, Bare(run, p, i - 1));
    }
  }

  /** In every run, whichever reloads went before, a reload ends where a full read would, but for such templates. */
  lemma ReloadInARunIsFull(run: Run, i: nat, p: Pid)
    requires IsRun(run) && i < |run.worlds| && p in run.worlds[i].processes
    ensures var c, b, bare := run.worlds[i].processes[p], run.worlds[i].backend, Bare(run, p, i);
      && Reloaded(c, b).raw == Contents(b.rows)
      && AlmostRendered(Reloaded(c, b).current, Contents(b.rows), bare)
      && (RowsToRead(c, b.rows) != map[] || bare == {} ==> Reloaded(c, b).current == FullRead(b.rows))
  {
    RunKeepsSynced(run, i, p);
    IncrementalReloadIsFull(run.worlds[i].processes[p], run.worlds[i].backend, Bare(run, p, i));
  }

  // ----- Bounded staleness -----

  predicate SavesAs(w: World, e: Event, p: Pid) {
    SaveOf(w, e).Some? && SaveOf(w, e).value.pid == p
  }

  /** The index of the world right after the process's last save before world `i`; 0 if there is none. */
  function LastSave(run: Run, p: Pid, i: nat): (j: nat)
    requires i < |run.worlds| && i <= |run.events|
    ensures j <= i
  {
    if i == 0 then 0
    else if SavesAs(run.worlds[i - 1], run.events[i - 1], p) then i
    else LastSave(run, p, i - 1)
  }

  /** What the process caches at world `i` is what the table held at world `j`, not before its own last save. */
  ghost predicate CachesMoment(run: Run, p: Pid, i: nat, j: nat)
    requires i < |run.worlds| && i <= |run.events| && p in run.worlds[i].processes
  {
    && LastSave(run, p, i) <= j <= i
    && AlmostRendered(run.worlds[i].processes[p].current, Contents(run.worlds[j].backend.rows), Bare(run, p, j))
    && run.worlds[i].processes[p].lookupAt == Some(run.worlds[j].backend.now)
  }

  lemma {:induction false} LookupTimeDatesTheCache(run: Run, p: Pid, i: nat)
    requires IsRun(run) && i < |run.worlds| && p in run.worlds[i].processes
    requires run.worlds[i].processes[p].lookupAt.Some?
    ensures exists j :: CachesMoment(run, p, i, j)
  {
    if i > 0 {
      var w, e, w' := run.worlds[i - 1], run.events[i - 1], run.worlds[i];
      assert Orderly(w, e) && w' == Next(w, e);
      if p in w.processes && w'.processes[p] == w.processes[p] {
        LookupTimeDatesTheCache(run, p, i - 1);
        var j :| CachesMoment(run, p, i - 1, j);
        assert CachesMoment(run, p, i, j);
      } else {
        RunKeepsSynced(run, i - 1, p);
        ChangedCacheIsCurrent(w, e, p, Bare(run, p, i - 1));
        assert CachesMoment(run, p, i, i);
      }
    }
  }

  /** A step that changes a process's cache and dates it leaves it equal to the table of that moment. */
  lemma ChangedCacheIsCurrent(w: World, e: Event, p: Pid, bare: set<string>)
    requires Orderly(w, e) && p in w.processes && p in Next(w, e).processes
    requires Synced(w.processes[p], w.backend, bare)
    requires Next(w, e).processes[p] != w.processes[p] && Next(w, e).processes[p].lookupAt.Some?
    ensures AlmostRendered(Next(w, e).processes[p].current, Contents(Next(w, e).backend.rows), NextBare(w, e, p, bare))
    ensures Next(w, e).processes[p].lookupAt == Some(Next(w, e).backend.now)
    ensures !SavesAs(w, e, p)
  {
    var c := w.processes[p];
    if SaveOf(w, e).Some? {
      assert false;
    } else if e.Get? {
      LoadedIsCurrent(c, w.backend, bare);
    } else {
      assert e == ForceReload(p);
      ForcedReloadIsFull(c, w.backend, bare);
      RenderedIsAlmostRendered(Contents(w.backend.rows), {});
    }
  }

  lemma LoadedIsCurrent(c: Cached, b: Backend, bare: set<string>)
    requires Synced(c, b, bare) && Loaded(c, b, false) != c
    ensures AlmostRendered(Loaded(c, b, false).current, Contents(b.rows), bare)
    ensures Loaded(c, b, false).lookupAt == Some(b.now)
  {
    if !(c.current != map[] && Checked(c, b).0) {
      IncrementalReloadIsFull(c, b, bare);
    }
  }

  ghost predicate RecentEnough(run: Run, i: nat, j: nat)
    requires i < |run.worlds| && j < |run.worlds|
  {
    j == i || run.worlds[j].backend.now > run.worlds[i].backend.now - run.worlds[i].backend.timeout
  }

  /** The answer is the interpolated value of world `j`, or its template if that is among the process's bare names. */
  ghost predicate AnsweredFrom(run: Run, i: nat, j: nat)
    requires IsRun(run) && i < |run.events| && run.events[i].Get? && j < |run.worlds|
  {
    var p, name, rows := run.events[i].pid, run.events[i].name, run.worlds[j].backend.rows;
    assert Orderly(run.worlds[i], run.events[i]);
    var answer := Answer(run.worlds[i], run.events[i]);
    answer == Lookup(FullRead(rows), name) || (name in Bare(run, p, j) && answer == Lookup(Contents(rows), name))
  }

  lemma AlmostRenderedAt(current: Values, raw: Values, bare: set<string>, name: string)
    requires AlmostRendered(current, raw, bare)
    ensures Lookup(current, name) == Lookup(Rendered(raw), name)
            || (name in bare && Lookup(current, name) == Lookup(raw, name))
  {
  }

  lemma ReadIsOfAMoment(run: Run, i: nat) returns (j: nat)
    requires IsRun(run) && i < |run.events| && run.events[i].Get?
    ensures LastSave(run, run.events[i].pid, i) <= j <= i && RecentEnough(run, i, j) && AnsweredFrom(run, i, j)
  {
    var w, e := run.worlds[i], run.events[i];
    assert Orderly(w, e);
    var c := w.processes[e.pid];
    RunKeepsSynced(run, i, e.pid);
    j := i;
    if c.current != map[] && WithinTimeout(c, w.backend) {
      LookupTimeDatesTheCache(run, e.pid, i);
      j :| CachesMoment(run, e.pid, i, j);
    } else {
      IncrementalReloadIsFull(c, w.backend, Bare(run, e.pid, i));
    }
    var rows := run.worlds[j].backend.rows;
    AlmostRenderedAt(Next(w, e).processes[e.pid].current, Contents(rows), Bare(run, e.pid, j), e.name);
  }

  /** In event `k` the process, being up to date, saves the template of the setting as it is. */
  ghost predicate SavesBareAt(run: Run, k: nat, p: Pid, name: string)
    requires IsRun(run) && k < |run.events|
  {
    match SaveOf(run.worlds[k], run.events[k])
    case None => false
    case Some(s) => s.name == name && SavesBare(run.worlds[k], s, p)
  }

  /** A bare name comes from such a save, and no row has been changed since. */
  lemma {:induction false} BareNamesWereSaved(run: Run, p: Pid, i: nat, name: string) returns (k: nat)
    requires IsRun(run) && i <= |run.events| && name in Bare(run, p, i)
    ensures k < i && SavesBareAt(run, k, p, name)
    ensures run.worlds[k].backend.rows == run.worlds[i].backend.rows
  {
    var w, e := run.worlds[i - 1], run.events[i - 1];
    assert Orderly(w, e) && run.worlds[i] == Next(w, e);
    if SavesBareAt(run, i - 1, p, name) {
      k := i - 1;
      NoopLeavesRows(w, SaveOf(w, e).value);
    } else {
      k := BareNamesWereSaved(run, p, i - 1, name);
      if SaveOf(w, e).Some? { NoopLeavesRows(w, SaveOf(w, e).value); }
    }
  }

  /** The reading process has saved the template as it is, and no row has been changed from then to world `j`. */
  ghost predicate SavedBareBefore(run: Run, p: Pid, name: string, j: nat)
    requires IsRun(run) && j <= |run.events|
  {
    exists k: nat :: k < j && SavesBareAt(run, k, p, name)
                     && run.worlds[k].backend.rows == run.worlds[j].backend.rows
  }

  /** The answer is the interpolated value of world `j`; its template only after such a save of the reader itself. */
  ghost predicate RightAsOf(run: Run, i: nat, j: nat)
    requires IsRun(run) && i < |run.events| && run.events[i].Get? && j <= |run.events|
  {
    var p, name, rows := run.events[i].pid, run.events[i].name, run.worlds[j].backend.rows;
    assert Orderly(run.worlds[i], run.events[i]);
    var answer := Answer(run.worlds[i], run.events[i]);
    answer == Lookup(FullRead(rows), name)
    || (SavedBareBefore(run, p, name, j) && answer == Lookup(Contents(rows), name))
  }

  /**
   Every read returns the interpolated value that the table held at some moment: the present one or one less
   than the timeout ago, and in any case not before the reading process's own last save. The one exception is a
   process that has itself saved the template of that setting as it was, as long as no row is changed.
   */
  lemma BoundedStaleness(run: Run, i: nat)
    requires IsRun(run) && i < |run.events| && run.events[i].Get?
    ensures exists j: nat :: LastSave(run, run.events[i].pid, i) <= j <= i && RecentEnough(run, i, j)
                             && RightAsOf(run, i, j)
  {
    var j := ReadIsOfAMoment(run, i);
    var p, name := run.events[i].pid, run.events[i].name;
    if name in Bare(run, p, j) {
      var k := BareNamesWereSaved(run, p, j, name);
      assert SavedBareBefore(run, p, name, j);
    }
    assert RightAsOf(run, i, j);
  }

  ghost predicate NoSaves(run: Run, first: nat, past: nat)
    requires IsRun(run) && past <= |run.events|
  {
    forall k :: first <= k < past ==> SaveOf(run.worlds[k], run.events[k]) == None
  }

  lemma {:induction false} RowsStay(run: Run, first: nat, past: nat)
    requires IsRun(run) && first <= past <= |run.events| && NoSaves(run, first, past)
    ensures run.worlds[past].backend.rows == run.worlds[first].backend.rows
    decreases past - first
  {
    if first < past {
      var w, e := run.worlds[past - 1], run.events[past - 1];
      assert Orderly(w, e) && run.worlds[past] == Next(w, e) && SaveOf(w, e) == None;
      RowsStay(run, first, past - 1);
    }
  }

  lemma {:induction false} LastSaveStays(run: Run, p: Pid, first: nat, past: nat)
    requires IsRun(run) && first <= past <= |run.events| && NoSaves(run, first, past)
    ensures LastSave(run, p, past) == LastSave(run, p, first)
    decreases past - first
  {
    if first < past {
      assert SaveOf(run.worlds[past - 1], run.events[past - 1]) == None;
      LastSaveStays(run, p, first, past - 1);
    }
  }

  lemma {:induction false} BareNamesStay(run: Run, p: Pid, first: nat, past: nat)
    requires IsRun(run) && first <= past <= |run.events| && NoSaves(run, first, past)
    ensures Bare(run, p, past) <= Bare(run, p, first)
    decreases past - first
  {
    if first < past {
      assert SaveOf(run.worlds[past - 1], run.events[past - 1]) == None;
      BareNamesStay(run, p, first, past - 1);
    }
  }

  /** A value that a `set` of this process has made current, or whose template is its own interpolation. */
  ghost predicate SeenAtOnce(w: World, e: Event)
    requires e.Set? && HasPid(w, e) && e.name in w.backend.rows
  {
    || w.backend.rows[e.name].value != e.value
    || Behind(w.processes[e.pid], w.backend.rows)
    || Interpolate(Contents(w.backend.rows), e.value) == e.value
  }

  lemma SetStores(w: World, e: Event, bare: set<string>)
    requires Orderly(w, e) && e.Set? && e.name in w.backend.rows
    requires Synced(w.processes[e.pid], w.backend, bare)
    ensures Lookup(FullRead(Next(w, e).backend.rows), e.name)
            == Some(Interpolate(Contents(Next(w, e).backend.rows), e.value))
    ensures Lookup(Contents(Next(w, e).backend.rows), e.name) == Some(e.value)
    ensures SavesAs(w, e, e.pid)
    ensures SeenAtOnce(w, e) ==>
      e.name !in NextBare(w, e, e.pid, bare) || Interpolate(Contents(Next(w, e).backend.rows), e.value) == e.value
  {
    var s := SaveOf(w, e).value;
    if !ChangesRow(w.backend.rows, s) { NoopLeavesRows(w, s); }
  }

  /**
   A process sees its own save at once: with no save after it, any later read of the name returns it. For a save
   that changes nothing this needs the process to be behind, or the value to be its own interpolation.
   */
  lemma OwnSaveIsSeenAtOnce(run: Run, k: nat, i: nat)
    requires IsRun(run) && k < i < |run.events|
    requires Orderly(run.worlds[k], run.events[k]) && run.events[k].Set?
    requires run.events[k].name in run.worlds[k].backend.rows && SeenAtOnce(run.worlds[k], run.events[k])
    requires NoSaves(run, k + 1, i)
    requires run.events[i] == Get(run.events[k].pid, run.events[k].name)
    ensures HasPid(run.worlds[i], run.events[i])
    ensures Answer(run.worlds[i], run.events[i])
            == Some(Interpolate(Contents(run.worlds[k + 1].backend.rows), run.events[k].value))
  {
    var p, name := run.events[k].pid, run.events[k].name;
    assert Orderly(run.worlds[i], run.events[i]) && run.worlds[k + 1] == Next(run.worlds[k], run.events[k]);
    RunKeepsSynced(run, k, p);
    SetStores(run.worlds[k], run.events[k], Bare(run, p, k));
    assert LastSave(run, p, k + 1) == k + 1;
    LastSaveStays(run, p, k + 1, i);
    var j := ReadIsOfAMoment(run, i);
    assert NoSaves(run, k + 1, j);
    RowsStay(run, k + 1, j);
    BareNamesStay(run, p, k + 1, j);
  }

  // ----- Why `load` has to be one step -----

  /** A load that reads the rows and is overtaken by another process's save before it reads the change id (line 129). */
  ghost function Torn(c: Cached, b: Backend, s: Save): Cached {
    Reloaded(c, b).(changeId := Some(s.id))
  }

  /**
   Such a process keeps the old values as long as it trusts its cache: within the timeout, and then for as long as
   the cell holds that change id. Once the id has expired or given way to another one, it reads the row it missed.
   */
  lemma TornLoadStaysStale(c: Cached, b: Backend, bare: set<string>, s: Save, later: Backend)
    requires Synced(c, b, bare) && b.rows != map[]
    requires ChangesRow(b.rows, s) && forall n :: n in b.rows ==> b.rows[n].updatedAt < s.stamp
    requires later.rows == SavedBackend(b, s.name, s.value, s.stamp, s.id).rows
    ensures Loaded(Torn(c, b, s), later, false).current
            == if WithinTimeout(Torn(c, b, s), later) || later.cell == Some(s.id) then Reloaded(c, b).current
               else FullRead(later.rows)
  {
    var torn := Torn(c, b, s);
    TornLoadHasTheOldRows(c, b, bare, s);
    if !Checked(torn, later).0 {
      MissedRowIsRead(torn, b.rows, s, later);
    }
  }

  lemma TornLoadHasTheOldRows(c: Cached, b: Backend, bare: set<string>, s: Save)
    requires Synced(c, b, bare) && b.rows != map[]
    ensures var torn := Torn(c, b, s);
      torn.raw == Contents(b.rows) && torn.current.Keys == b.rows.Keys && torn.current != map[]
      && torn.lastChangedAt.Some? && IsLatest(b.rows, torn.lastChangedAt)
  {
    IncrementalReloadIsFull(c, b, bare);
    var n :| n in b.rows;
    assert n in Torn(c, b, s).current;
    assert IsLatest(b.rows, Latest(b.rows));
  }

  /** A process with the rows `was` reads the one row that has changed and renders everything. */
  lemma MissedRowIsRead(c: Cached, was: Rows, s: Save, later: Backend)
    requires c.raw == Contents(was) && c.current.Keys == was.Keys && c.current != map[]
    requires c.lastChangedAt.Some? && IsLatest(was, c.lastChangedAt)
    requires ChangesRow(was, s) && forall n :: n in was ==> was[n].updatedAt < s.stamp
    requires later.rows == was[s.name := SavedRow(Lookup(was, s.name), s.value, s.stamp)]
    ensures Reloaded(c, later).current == FullRead(later.rows)
  {
    assert s.name in RowsToRead(c, later.rows);
    assert ReadRaw(c, later.rows) == Contents(later.rows);
    assert c.current.Keys <= Rendered(Contents(later.rows)).Keys;
  }

  // ----- The save that changes nothing -----

  /** After a save that changes nothing, a process that is up to date finds no newer row and renders nothing. */
  lemma NoopSaveSkipsRendering(c: Cached, b: Backend, bare: set<string>, name: string, id: ChangeId, stamp: int)
    requires Synced(c, b, bare) && !Behind(c, b.rows)
    requires name in b.rows && c.changeId != Some(id)
    ensures
      var value := b.rows[name].value;
      var b' := SavedBackend(b, name, value, stamp, id);
      b'.rows == b.rows
      && Loaded(Announced(c, name, value), b', false).current == c.current[name := value]
  {
    var value := b.rows[name].value;
    var b' := SavedBackend(b, name, value, stamp, id);
    assert b'.rows == b.rows;
    var c' := Announced(c, name, value);
    assert name in c'.current;
    assert !Checked(c', b').0;
    assert RowsToRead(c', b.rows) == map[] by {
      assert forall n :: n in b.rows ==> !(c.lastChangedAt.value < b.rows[n].updatedAt);
    }
  }

  /**
   A process saves the value a setting already has. The row keeps its updated_at, so that a process that is up to
   date finds nothing new at its next read and skips the interpolation: it then reads the bare value. The read is
   right exactly if there was something else to read or interpolation would not have changed the value.
   */
  lemma NoopSaveExact(c: Cached, b: Backend, bare: set<string>, name: string, id: ChangeId, stamp: int)
    requires Synced(c, b, bare) && name in b.rows && c.changeId != Some(id)
    ensures
      var value := b.rows[name].value;
      var b' := SavedBackend(b, name, value, stamp, id);
      Lookup(Loaded(Announced(c, name, value), b', false).current, name) == Lookup(FullRead(b'.rows), name)
      <==> Behind(c, b.rows) || Interpolate(Contents(b.rows), value) == value
  {
    var value := b.rows[name].value;
    var b' := SavedBackend(b, name, value, stamp, id);
    assert b'.rows == b.rows;
    if Behind(c, b.rows) {
      var c' := Announced(c, name, value);
      assert Behind(c', b.rows) && !Checked(c', b').0;
      assert Synced(c', b', {});
      NothingToReadMeansCaughtUp(c', b', {});
      IncrementalReloadIsFull(c', b', {});
    } else {
      NoopSaveSkipsRendering(c, b, bare, name, id, stamp);
    }
  }

  lemma TemplateIsReadBare(b: Backend, name: string, id: ChangeId, stamp: int)
    requires name in b.rows && b.cell != Some(id)
    requires Interpolate(Contents(b.rows), b.rows[name].value) != b.rows[name].value
    ensures
      var value := b.rows[name].value;
      var b' := SavedBackend(b, name, value, stamp, id);
      Lookup(FullRead(b'.rows), name) == Some(Interpolate(Contents(b.rows), value))
      && Lookup(Loaded(Announced(Reloaded(EMPTY, b), name, value), b', false).current, name) == Some(value)
  {
    EmptyIsSynced(b);
    ReloadKeepsSynced(EMPTY, b, {});
    NoopSaveSkipsRendering(Reloaded(EMPTY, b), b, {}, name, id, stamp);
  }

  /** A setting for which it goes wrong: a URL built from the host name, saved a second time. */
  lemma NoopSaveOfATemplate(b: Backend, id: ChangeId, stamp: int)
    requires "fqdn" in b.rows && b.rows["fqdn"].value == Text("desk")
    requires "url" in b.rows && b.rows["url"].value == Text(OPENING + "fqdn" + "}")
    requires b.cell != Some(id)
    ensures
      var c := Announced(Reloaded(EMPTY, b), "url", b.rows["url"].value);
      var b' := SavedBackend(b, "url", b.rows["url"].value, stamp, id);
      Lookup(FullRead(b'.rows), "url") == Some(Text("desk"))
      && Lookup(Loaded(c, b', false).current, "url") != Some(Text("desk"))
  {
    HostNameIsFilledIn(Contents(b.rows));
    TemplateIsReadBare(b, "url", id, stamp);
  }

  lemma HostNameIsFilledIn(raw: Values)
    requires "fqdn" in raw && raw["fqdn"] == Text("desk")
    ensures Substitute(raw, OPENING + "fqdn" + "}") == "desk"
    ensures OPENING + "fqdn" + "}" != "desk"
  {
    var text := OPENING + "fqdn" + "}";
    PlaceholderIsReplaced(raw, "", "fqdn", "");
    assert "" + (text + "") == text;
    assert |text| > |"desk"|;
  }
}
