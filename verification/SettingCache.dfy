/**
 app/models/setting.rb, one process: the class-level cache in front of the settings table and of the
 shared change id. `Process` is the cache as the program keeps it, in fields; `Cached` is its value,
 on which the specification functions work.
 */
module SettingCache {
  import opened Prelude
  import opened Interpolation

  /** `initial` is state_initial, the value `Setting.reset` goes back to. */
  datatype Row = Row(value: Value, initial: Value, updatedAt: int)

  /** The settings table; names are unique there (db/migrate/20120101000001_create_base.rb:437). */
  type Rows = map<string, Row>

  /** A change id, a random UUID in the program. */
  type ChangeId = nat

  /** What all processes share: the table, the change-id cell (it can expire) and the clock. */
  datatype Backend = Backend(rows: Rows, cell: Option<ChangeId>, now: int, timeout: int)

  datatype Cached = Cached(raw: Values, current: Values, changeId: Option<ChangeId>,
                           lastChangedAt: Option<int>, lookupAt: Option<int>)

  const EMPTY := Cached(map[], map[], None, None, None)

  function Contents(rows: Rows): Values {
    map n | n in rows :: rows[n].value
  }

  /** A from-scratch read of the table with every text interpolated once. */
  function FullRead(rows: Rows): Values {
    Rendered(Contents(rows))
  }

  ghost predicate IsLatest(rows: Rows, latest: Option<int>) {
    match latest
    case None => rows == map[]
    case Some(t) => (exists n :: n in rows && rows[n].updatedAt == t)
                    && forall n :: n in rows ==> rows[n].updatedAt <= t
  }

  predicate IsLatestRow(rows: Rows, n: string) {
    n in rows && forall m :: m in rows ==> rows[m].updatedAt <= rows[n].updatedAt
  }

  lemma {:induction false} LatestExists(rows: Rows)
    requires rows != map[]
    ensures exists n :: IsLatestRow(rows, n)
    decreases |rows|
  {
    var n :| n in rows;
    var rest := rows - {n};
    assert rest.Keys == rows.Keys - {n};
    assert forall k :: k in rows ==> k == n || k in rest;
    if rest == map[] {
      assert IsLatestRow(rows, n);
    } else {
      assert |rest.Keys| < |rows.Keys|;
      LatestExists(rest);
      var m :| IsLatestRow(rest, m);
      assert IsLatestRow(rows, if rows[n].updatedAt < rows[m].updatedAt then m else n);
    }
  }

  /** `order(updated_at: :desc).limit(1)` */
  ghost function Latest(rows: Rows): (latest: Option<int>)
    ensures IsLatest(rows, latest)
  {
    if rows == map[] then None
    else
      LatestExists(rows);
      var n :| IsLatestRow(rows, n);
      Some(rows[n].updatedAt)
  }

  lemma LatestIsUnique(rows: Rows, a: Option<int>, b: Option<int>)
    requires IsLatest(rows, a) && IsLatest(rows, b)
    ensures a == b
  {
  }

  /** `where('updated_at > ?', since)` */
  function Newer(rows: Rows, since: int): Rows {
    map n | n in rows && since < rows[n].updatedAt :: rows[n]
  }

  /** The rows a reload reads. */
  function RowsToRead(c: Cached, rows: Rows): Rows {
    if c.lastChangedAt.Some? && c.current != map[] then Newer(rows, c.lastChangedAt.value) else rows
  }

  function ReadRaw(c: Cached, rows: Rows): Values {
    c.raw + Contents(RowsToRead(c, rows))
  }

  /** Lines 103-131 of `load`. */
  ghost function Reloaded(c: Cached, b: Backend): Cached {
    var raw := ReadRaw(c, b.rows);
    var current := if RowsToRead(c, b.rows) == map[] then c.current else c.current + Rendered(raw);
    Cached(raw, current, b.cell, Latest(b.rows), Some(b.now))
  }

  predicate WithinTimeout(c: Cached, b: Backend) {
    c.lookupAt.Some? && c.lookupAt.value > b.now - b.timeout
  }

  predicate SameChangeId(c: Cached, b: Backend) {
    c.changeId.Some? && b.cell == c.changeId
  }

  /** `cache_valid?`; a match of the change ids renews the lookup time. */
  function Checked(c: Cached, b: Backend): (r: (bool, Cached)) {
    if WithinTimeout(c, b) then (true, c)
    else if SameChangeId(c, b) then (true, c.(lookupAt := Some(b.now)))
    else (false, c)
  }

  ghost function Loaded(c: Cached, b: Backend, force: bool): Cached {
    if !force && c.current != map[] && Checked(c, b).0 then Checked(c, b).1
    else Reloaded(c, b)
  }

  /** `reset_change_id`, run after every save: the value goes into the cache as it is, not interpolated. */
  function Announced(c: Cached, name: string, value: Value): Cached {
    c.(current := c.current[name := value], lookupAt := None)
  }

  /**
   A save of a new row (`existing` is None) or of an existing one. A save that changes nothing leaves the row
   and its updated_at alone, but still runs the callbacks.
   */
  function SavedRow(existing: Option<Row>, value: Value, stamp: int): Row {
    match existing
    case None => Row(value, value, stamp)
    case Some(row) => if row.value == value then row else row.(value := value, updatedAt := stamp)
  }

  function SavedBackend(b: Backend, name: string, value: Value, stamp: int, id: ChangeId): Backend {
    b.(rows := b.rows[name := SavedRow(Lookup(b.rows, name), value, stamp)], cell := Some(id))
  }

  /** The database and cache server, shared by all processes. */
  class Shared {
    var rows: Rows
    var cell: Option<ChangeId>
    var now: int
    const timeout: int

    constructor (rows: Rows, now: int, timeout: int)
      ensures View() == Backend(rows, None, now, timeout)
    {
      this.rows, this.cell, this.now, this.timeout := rows, None, now, timeout;
    }

    function View(): Backend
      reads this
    {
      Backend(rows, cell, now, timeout)
    }

    method QueryLatest() returns (latest: Option<int>)
      ensures latest == Latest(rows)
    {
      if rows == map[] {
        return None;
      }
      LatestExists(rows);
      var n :| n in rows && IsLatestRow(rows, n);
      latest := Some(rows[n].updatedAt);
      LatestIsUnique(rows, latest, Latest(rows));
    }
  }

  /** One process with its class variables. */
  class Process {
    var raw: Values
    var current: Values
    var changeId: Option<ChangeId>
    var lastChangedAt: Option<int>
    var lookupAt: Option<int>

    constructor ()
      ensures View() == EMPTY
    {
      raw, current, changeId, lastChangedAt, lookupAt := map[], map[], None, None, None;
    }

    function View(): Cached
      reads this
    {
      Cached(raw, current, changeId, lastChangedAt, lookupAt)
    }

    method CacheValid(shared: Shared) returns (valid: bool)
      modifies this`lookupAt
      ensures (valid, View()) == Checked(old(View()), shared.View())
    {
      if lookupAt.Some? && lookupAt.value > shared.now - shared.timeout {
        return true;
      }
      if changeId.Some? && shared.cell == changeId {
        lookupAt := Some(shared.now);
        return true;
      }
      return false;
    }

    /** Takes the rows over into `raw`, in whatever order the database gives them. */
    method TakeOver(rows: Rows)
      modifies this`raw
      ensures raw == old(raw) + Contents(rows)
    {
      var todo := rows.Keys;
      while todo != {}
        invariant todo <= rows.Keys
        invariant raw == old(raw) + Contents(map n | n in rows && n !in todo :: rows[n])
        decreases todo
      {
        var n :| n in todo;
        raw := raw[n := rows[n].value];
        todo := todo - {n};
      }
      assert (map n | n in rows && n !in todo :: rows[n]) == rows;
    }

    /** Recomputes the cached value of every raw value, in whatever order the hash gives them. */
    method RenderAll()
      modifies this`current
      ensures current == old(current) + Rendered(raw)
    {
      var todo := raw.Keys;
      while todo != {}
        invariant todo <= raw.Keys
        invariant current == old(current) + (map n | n in raw && n !in todo :: Interpolate(raw, raw[n]))
        decreases todo
      {
        var n :| n in todo;
        match raw[n] {
          case Other(_, _) => current := current[n := raw[n]];
          case Text(s) => current := current[n := Text(Substitute(raw, s))];
        }
        todo := todo - {n};
      }
      assert (map n | n in raw && n !in todo :: Interpolate(raw, raw[n])) == Rendered(raw);
    }

    method Load(shared: Shared, force: bool) returns (loaded: bool)
      modifies this
      ensures View() == Loaded(old(View()), shared.View(), force)
    {
      if !force && current != map[] {
        var valid := CacheValid(shared);
        if valid {
          return false;
        }
      }
      var latest := shared.QueryLatest();
      var settings := shared.rows;
      if lastChangedAt.Some? && current != map[] {
        var since := lastChangedAt.value;
        settings := map n | n in shared.rows && since < shared.rows[n].updatedAt :: shared.rows[n];
        assert settings == Newer(shared.rows, since);
      }
      assert settings == RowsToRead(old(View()), shared.rows);
      lastChangedAt := latest;
      if settings != map[] {
        TakeOver(settings);
        RenderAll();
      } else {
        assert Contents(settings) == map[];
        assert old(raw) + map[] == old(raw);
      }
      changeId := shared.cell;
      lookupAt := Some(shared.now);
      return true;
    }

    method Get(shared: Shared, name: string) returns (value: Option<Value>)
      modifies this
      ensures View() == Loaded(old(View()), shared.View(), false)
      ensures value == Lookup(View().current, name)
    {
      var _ := Load(shared, false);
      value := Lookup(current, name);
    }

    /** `Setting.reload` */
    method ForceReload(shared: Shared)
      modifies this
      ensures View() == Loaded(old(View()).(lastChangedAt := None), shared.View(), true)
    {
      lastChangedAt := None;
      var _ := Load(shared, true);
    }

    /** Creating a setting; the unique index refuses a name that is taken. */
    method Create(shared: Shared, name: string, value: Value, stamp: int, id: ChangeId) returns (ok: bool)
      modifies this, shared
      ensures ok == (name !in old(shared.rows))
      ensures !ok ==> View() == old(View()) && shared.View() == old(shared.View())
      ensures ok ==> View() == Announced(old(View()), name, value)
      ensures ok ==> shared.View() == SavedBackend(old(shared.View()), name, value, stamp, id)
    {
      if name in shared.rows {
        return false;
      }
      shared.rows := shared.rows[name := Row(value, value, stamp)];
      ResetChangeId(shared, name, value, id);
      return true;
    }

    method ResetChangeId(shared: Shared, name: string, value: Value, id: ChangeId)
      modifies this, shared`cell
      ensures View() == Announced(old(View()), name, value)
      ensures shared.View() == old(shared.View()).(cell := Some(id))
    {
      current := current[name := value];
      shared.cell := Some(id);
      lookupAt := None;
    }

    method Set(shared: Shared, name: string, value: Value, stamp: int, id: ChangeId) returns (ok: bool)
      modifies this, shared
      ensures ok == (name in old(shared.rows))
      ensures !ok ==> View() == old(View()) && shared.View() == old(shared.View())
      ensures ok ==> View() == Announced(old(View()), name, value)
      ensures ok ==> shared.View() == SavedBackend(old(shared.View()), name, value, stamp, id)
    {
      if name !in shared.rows {
        return false;
      }
      if shared.rows[name].value != value {
        shared.rows := shared.rows[name := shared.rows[name].(value := value, updatedAt := stamp)];
      } else {
        assert shared.rows == shared.rows[name := shared.rows[name]];
      }
      ResetChangeId(shared, name, value, id);
      return true;
    }

    /** `Setting.reset`: back to the initial value; without `force` only if it differs. */
    method Reset(shared: Shared, name: string, force: bool, stamp: int, id: ChangeId) returns (ok: bool)
      modifies this, shared
      ensures ok == (name in old(shared.rows))
      ensures !ok || (!force && old(shared.rows)[name].value == old(shared.rows)[name].initial)
              ==> View() == old(View()) && shared.View() == old(shared.View())
      ensures ok && (force || old(shared.rows)[name].value != old(shared.rows)[name].initial)
              ==> var initial := old(shared.rows)[name].initial;
                  View() == Announced(old(View()), name, initial)
                  && shared.View() == SavedBackend(old(shared.View()), name, initial, stamp, id)
    {
      if name !in shared.rows {
        return false;
      }
      if !force && shared.rows[name].value == shared.rows[name].initial {
        return true;
      }
      ok := Set(shared, name, shared.rows[name].initial, stamp, id);
    }
  }
}
