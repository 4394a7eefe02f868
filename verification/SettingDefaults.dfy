/**
 app/models/setting.rb: what the reads of all processes return after a save or a `reset`, which goes back to the value
 that the setting was created with, and how often they look whether their cache is still valid.
 */
module SettingDefaults {
  import opened Prelude
  import opened Interpolation
  import opened SettingCache
  import opened SettingRuns

  // ----- The value a setting was created with -----

  ghost predicate CreatedAs(run: Run, c: nat, name: string, value: Value)
    requires IsRun(run) && c < |run.events|
  {
    && run.events[c].Create? && run.events[c].name == name && run.events[c].value == value
    && name !in run.worlds[c].backend.rows
  }

  lemma StepKeepsInitial(w: World, e: Event, name: string)
    requires Orderly(w, e) && name in w.backend.rows
    ensures name in Next(w, e).backend.rows
    ensures Next(w, e).backend.rows[name].initial == w.backend.rows[name].initial
  {
  }

  /** No save touches the initial value. */
  lemma {:induction false} InitialStays(run: Run, c: nat, k: nat, name: string, value: Value)
    requires IsRun(run) && c < k < |run.worlds| && CreatedAs(run, c, name, value)
    ensures name in run.worlds[k].backend.rows && run.worlds[k].backend.rows[name].initial == value
  {
    var w, e := run.worlds[k - 1], run.events[k - 1];
    assert Orderly(w, e) && run.worlds[k] == Next(w, e);
    if k > c + 1 {
      InitialStays(run, c, k - 1, name, value);
      StepKeepsInitial(w, e, name);
    }
  }

  // ----- Who sees a change, and when -----

  lemma {:induction false} ClockGoesForward(run: Run, first: nat, past: nat)
    requires IsRun(run) && first <= past < |run.worlds|
    ensures run.worlds[first].backend.now <= run.worlds[past].backend.now
    decreases past - first
  {
    if first < past {
      var w, e := run.worlds[past - 1], run.events[past - 1];
      assert Orderly(w, e) && run.worlds[past] == Next(w, e);
      ClockGoesForward(run, first, past - 1);
    }
  }

  /** Event `k` is a save that changes its row. */
  ghost predicate ChangesAt(run: Run, k: nat, s: Save)
    requires IsRun(run) && k < |run.events|
  {
    SaveOf(run.worlds[k], run.events[k]) == Some(s) && ChangesRow(run.worlds[k].backend.rows, s)
  }

  /** Read by the process itself, or when the timeout has passed since. */
  predicate LateEnough(run: Run, k: nat, i: nat, s: Save)
    requires k < i < |run.events| && i < |run.worlds| && run.events[i].Get?
  {
    run.events[i].pid == s.pid
    || run.worlds[k + 1].backend.now + run.worlds[i].backend.timeout <= run.worlds[i].backend.now
  }

  lemma ReadAfterTheSave(run: Run, k: nat, i: nat, j: nat, s: Save)
    requires IsRun(run) && k < i < |run.events| && run.events[i].Get? && ChangesAt(run, k, s)
    requires NoSaves(run, k + 1, i) && LateEnough(run, k, i, s)
    requires LastSave(run, run.events[i].pid, i) <= j <= i && RecentEnough(run, i, j)
    ensures k < j
  {
    if run.events[i].pid == s.pid {
      assert LastSave(run, s.pid, k + 1) == k + 1;
      LastSaveStays(run, s.pid, k + 1, i);
    } else if j <= k {
      ClockGoesForward(run, j, k + 1);
    }
  }

  /** A changed value is read by its process at once and by all others when the timeout has passed. */
  lemma ChangeIsSeen(run: Run, k: nat, i: nat, s: Save)
    requires IsRun(run) && k < i < |run.events| && ChangesAt(run, k, s) && NoSaves(run, k + 1, i)
    requires run.events[i].Get? && run.events[i].name == s.name && LateEnough(run, k, i, s)
    ensures HasPid(run.worlds[i], run.events[i])
    ensures Answer(run.worlds[i], run.events[i])
            == Some(Interpolate(Contents(run.worlds[k + 1].backend.rows), s.value))
  {
    var w, e := run.worlds[k], run.events[k];
    assert Orderly(w, e) && run.worlds[k + 1] == Next(w, e) && Orderly(run.worlds[i], run.events[i]);
    var j := ReadIsOfAMoment(run, i);
    ReadAfterTheSave(run, k, i, j, s);
    assert NoSaves(run, k + 1, j);
    RowsStay(run, k + 1, j);
    BareNamesStay(run, run.events[i].pid, k + 1, j);
    assert Bare(run, run.events[i].pid, k + 1) == {};
    assert run.worlds[k + 1].backend.rows[s.name].value == s.value;
  }

  // ----- One look-up within the timeout -----

  /** The event neither saves as this process nor resets its cache. */
  predicate Undisturbed(w: World, e: Event, p: Pid) {
    !SavesAs(w, e, p) && e != ForceReload(p) && e != Boot(p)
  }

  lemma {:induction false} CacheStays(run: Run, i: nat, k: nat, p: Pid)
    requires IsRun(run) && i < k < |run.worlds| && p in run.worlds[i + 1].processes
    requires run.worlds[i + 1].processes[p].lookupAt == Some(run.worlds[i].backend.now)
    requires run.worlds[i + 1].processes[p].current != map[]
    requires forall m :: i < m < k ==> Undisturbed(run.worlds[m], run.events[m], p)
    requires run.worlds[k].backend.now < run.worlds[i].backend.now + run.worlds[i].backend.timeout
    ensures p in run.worlds[k].processes && run.worlds[k].processes[p] == run.worlds[i + 1].processes[p]
    ensures run.worlds[k].backend.timeout == run.worlds[i].backend.timeout
  {
    var w, e := run.worlds[k - 1], run.events[k - 1];
    assert Orderly(w, e) && run.worlds[k] == Next(w, e);
    if i + 1 < k {
      ClockGoesForward(run, k - 1, k);
      CacheStays(run, i, k - 1, p);
    }
  }

  /**
   A read that has to look whether the cache is still valid renews it, whatever it finds: until the timeout has passed,
   all reads of the process are answered from its cache without looking again, unless it saves or reloads itself.
   */
  lemma OneLookUpWithinTheTimeout(run: Run, i: nat, k: nat, p: Pid)
    requires IsRun(run) && i < k < |run.events|
    requires run.events[i].Get? && run.events[i].pid == p && run.events[k].Get? && run.events[k].pid == p
    requires p in run.worlds[i].processes && p in run.worlds[i + 1].processes
    requires match run.worlds[i].processes[p].lookupAt
      case None => true
      case Some(at) => at + run.worlds[i].backend.timeout <= run.worlds[i].backend.now
    requires run.worlds[i + 1].processes[p].current != map[]
    requires forall m :: i < m < k ==> Undisturbed(run.worlds[m], run.events[m], p)
    requires run.worlds[k].backend.now < run.worlds[i].backend.now + run.worlds[i].backend.timeout
    ensures p in run.worlds[k + 1].processes && run.worlds[k + 1].processes[p] == run.worlds[i + 1].processes[p]
  {
    var w, e := run.worlds[i], run.events[i];
    assert Orderly(w, e) && run.worlds[i + 1] == Next(w, e);
    assert Orderly(run.worlds[k], run.events[k]) && run.worlds[k + 1] == Next(run.worlds[k], run.events[k]);
    CacheStays(run, i, k, p);
  }

  // ----- Resets -----

  /**
   After a reset the table holds the value that the setting was created with, whatever was saved since; if it was
   another one before, all processes read its interpolation, the resetting one at once and the others when the timeout
   has passed.
   */
  lemma ResetRestores(run: Run, c: nat, k: nat, i: nat, name: string, value: Value)
    requires IsRun(run) && c < k < i < |run.events| && CreatedAs(run, c, name, value)
    requires run.events[k].Reset? && run.events[k].name == name
    ensures name in run.worlds[k].backend.rows && name in run.worlds[k + 1].backend.rows
    ensures run.worlds[k + 1].backend.rows[name].value == value
    ensures && run.worlds[k].backend.rows[name].value != value
            && NoSaves(run, k + 1, i) && run.events[i].Get? && run.events[i].name == name
            && (run.events[i].pid == run.events[k].pid
                || run.worlds[k + 1].backend.now + run.worlds[i].backend.timeout <= run.worlds[i].backend.now)
            ==> HasPid(run.worlds[i], run.events[i])
                && Answer(run.worlds[i], run.events[i])
                   == Some(Interpolate(Contents(run.worlds[k + 1].backend.rows), value))
  {
    InitialStays(run, c, k, name, value);
    var w, e := run.worlds[k], run.events[k];
    assert Orderly(w, e) && run.worlds[k + 1] == Next(w, e);
    if w.backend.rows[name].value != value {
      var s := Save(e.pid, name, value, e.stamp, e.id);
      assert ChangesAt(run, k, s);
      if NoSaves(run, k + 1, i) && run.events[i].Get? && run.events[i].name == name && LateEnough(run, k, i, s) {
        ChangeIsSeen(run, k, i, s);
      }
    }
  }
}
