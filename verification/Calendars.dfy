/**
 app/models/calendar.rb: the after_save and after_destroy callbacks that keep one default calendar and no SLA
 without a calendar. The callbacks save calendars themselves, which runs them again.
 */
module Calendars {
  import opened Prelude

  type Id = nat

  datatype Calendar = Calendar(isDefault: bool, createdAt: int)

  type Rows = map<Id, Calendar>

  /** The calendar of each SLA; nil or a dangling id is possible. */
  type Slas = map<Id, Option<Id>>

  predicate HasDefault(rows: Rows) {
    exists c :: c in rows && rows[c].isDefault
  }

  predicate ComesFirst(rows: Rows, c: Id) {
    c in rows && forall d :: d in rows ==>
      rows[c].createdAt < rows[d].createdAt || (rows[c].createdAt == rows[d].createdAt && c <= d)
  }

  lemma {:induction false} SomeCalendarComesFirst(rows: Rows)
    requires rows != map[]
    ensures exists c :: ComesFirst(rows, c)
    decreases |rows|
  {
    var c :| c in rows;
    var rest := rows - {c};
    assert rest.Keys == rows.Keys - {c};
    assert forall d :: d in rows ==> d == c || d in rest;
    if rest == map[] {
      assert ComesFirst(rows, c);
    } else {
      assert |rest.Keys| < |rows.Keys|;
      SomeCalendarComesFirst(rest);
      var d :| ComesFirst(rest, d);
      var before := rows[c].createdAt < rows[d].createdAt || (rows[c].createdAt == rows[d].createdAt && c <= d);
      assert ComesFirst(rows, if before then c else d);
    }
  }

  // ----- What a save or destroy is to achieve -----

  /** The default flags after saving or destroying: if there is none left, the first calendar becomes the default. */
  ghost predicate OneIsChosen(was: Rows, now: Rows) {
    if was == map[] then now == was
    else if HasDefault(was) then now == was
    else exists c :: ComesFirst(was, c) && now == was[c := was[c].(isDefault := true)]
  }

  function OthersCleared(rows: Rows, id: Id): Rows {
    map c | c in rows :: if c == id then rows[c] else rows[c].(isDefault := false)
  }

  predicate HasCalendar(slas: Slas, s: Id, rows: Rows)
    requires s in slas
  {
    slas[s].Some? && slas[s].value in rows
  }

  /** SLAs without an existing calendar get the default calendar `d`; the others are not changed. */
  predicate MendedWith(was: Slas, now: Slas, rows: Rows, d: Id) {
    && d in rows && rows[d].isDefault && now.Keys == was.Keys
    && forall s :: s in was ==> now[s] == if HasCalendar(was, s, rows) then was[s] else Some(d)
  }

  ghost predicate SlasMended(was: Slas, now: Slas, rows: Rows) {
    exists d :: MendedWith(was, now, rows, d)
  }

  predicate AllHaveCalendars(slas: Slas, rows: Rows) {
    forall s :: s in slas ==> HasCalendar(slas, s, rows)
  }

  lemma MendedHaveCalendars(was: Slas, now: Slas, rows: Rows)
    requires SlasMended(was, now, rows)
    ensures AllHaveCalendars(now, rows)
    ensures AllHaveCalendars(was, rows) ==> now == was
  {
  }

  /** The calendars and SLAs. */
  datatype Tables = Tables(rows: Rows, slas: Slas)

  datatype Operation = Saving(id: Id, calendar: Calendar) | Destroying(id: Id)

  /**
   The effect of one save or destroy with all its callbacks. The SLAs are mended before the flags of the other
   calendars are cleared.
   */
  ghost predicate Effect(was: Tables, op: Operation, now: Tables) {
    match op
    case Saving(id, calendar) =>
      var written := was.rows[id := calendar];
      if calendar.isDefault then now.rows == OthersCleared(written, id) && SlasMended(was.slas, now.slas, written)
      else OneIsChosen(written, now.rows) && SlasMended(was.slas, now.slas, now.rows)
    case Destroying(id) =>
      && id in was.rows && OneIsChosen(was.rows - {id}, now.rows)
      && (if now.rows == map[] then now.slas == was.slas else SlasMended(was.slas, now.slas, now.rows))
  }

  class CalendarTable {
    var rows: Rows
    var slas: Slas

    constructor (rows: Rows, slas: Slas)
      ensures this.rows == rows && this.slas == slas
    {
      this.rows, this.slas := rows, slas;
    }

    function View(): Tables
      reads this
    {
      Tables(rows, slas)
    }

    /** How deep the callbacks of a save can go: they save again only to choose a default or to clear the others. */
    ghost function Depth(id: Id, isDefault: bool): nat
      reads this
    {
      if isDefault then 1
      else if exists c :: c in rows && c != id && rows[c].isDefault then 0
      else 2
    }

    /** `save`, of a new calendar or an existing one: the row is written, then the callbacks run. */
    method Save(id: Id, calendar: Calendar)
      modifies this
      ensures Effect(old(View()), Saving(id, calendar), View())
      decreases Depth(id, calendar.isDefault), 2
    {
      ghost var before := rows;
      rows := rows[id := calendar];
      if calendar.isDefault {
        assert rows[id].isDefault;
      } else if c :| c in before && c != id && before[c].isDefault {
        assert rows[c].isDefault;
      }
      MinOneCheck();
      SyncDefault(id, calendar.isDefault);
    }

    method Destroy(id: Id)
      requires id in rows
      modifies this
      ensures Effect(old(View()), Destroying(id), View())
    {
      rows := rows - {id};
      MinOneCheck();
    }

    method MinOneCheck()
      modifies this
      ensures OneIsChosen(old(rows), rows)
      ensures rows != map[] ==> SlasMended(old(slas), slas, rows)
      ensures rows == map[] ==> slas == old(slas)
      decreases if HasDefault(rows) then 0 else 2, 1
    {
      if !HasDefault(rows) {
        if rows == map[] {
          return;
        }
        SomeCalendarComesFirst(rows);
        var first :| first in rows && ComesFirst(rows, first);
        ghost var written := rows[first := rows[first].(isDefault := true)];
        Save(first, rows[first].(isDefault := true));
        assert rows == written;
        MendedHaveCalendars(old(slas), slas, rows);
      }
      var default :| default in rows && rows[default].isDefault;
      ghost var before := slas;
      MendSlas(default);
      assert SlasMended(before, slas, rows);
      MendedHaveCalendars(before, slas, rows);
    }

    /** The loop over all SLAs. */
    method MendSlas(default: Id)
      requires default in rows && rows[default].isDefault
      modifies this`slas
      ensures MendedWith(old(slas), slas, rows, default)
    {
      var todo := slas.Keys;
      while todo != {}
        invariant todo <= slas.Keys == old(slas).Keys
        invariant forall s :: s in slas && s in todo ==> slas[s] == old(slas)[s]
        invariant forall s :: s in slas && s !in todo ==>
                    slas[s] == if HasCalendar(old(slas), s, rows) then old(slas)[s] else Some(default)
        decreases todo
      {
        var s :| s in todo;
        if slas[s].None? || slas[s].value !in rows {
          slas := slas[s := Some(default)];
        }
        todo := todo - {s};
      }
    }

    /** Clears the flag of all others; the rows are read before the loop, as `find_each` does. */
    method SyncDefault(id: Id, isDefault: bool)
      requires id in rows
      requires isDefault ==> rows[id].isDefault
      requires AllHaveCalendars(slas, rows)
      modifies this
      ensures isDefault ==> rows == OthersCleared(old(rows), id)
      ensures !isDefault ==> rows == old(rows)
      ensures slas == old(slas)
      decreases if isDefault then 1 else 0, 0
    {
      if !isDefault {
        return;
      }
      var batch := rows;
      var todo := batch.Keys;
      while todo != {}
        invariant todo <= batch.Keys == rows.Keys
        invariant rows[id] == batch[id]
        invariant forall c :: c in batch && (c in todo || c == id) ==> rows[c] == batch[c]
        invariant forall c :: c in batch && c !in todo && c != id ==> rows[c] == batch[c].(isDefault := false)
        invariant slas == old(slas)
        decreases todo
      {
        var c :| c in todo;
        todo := todo - {c};
        if c != id && batch[c].isDefault {
          Save(c, batch[c].(isDefault := false));
        }
      }
    }
  }

  // ----- How many defaults there are -----

  predicate OnlyDefault(rows: Rows, c: Id) {
    c in rows && rows[c].isDefault && forall d :: d in rows && rows[d].isDefault ==> d == c
  }

  ghost predicate ExactlyOneDefault(rows: Rows) {
    exists c :: OnlyDefault(rows, c)
  }

  predicate AtMostOneDefault(rows: Rows) {
    forall c, d :: c in rows && d in rows && rows[c].isDefault && rows[d].isDefault ==> c == d
  }

  lemma ChoosingOne(was: Rows, now: Rows)
    requires OneIsChosen(was, now) && was != map[]
    ensures ExactlyOneDefault(now) <==> AtMostOneDefault(was)
  {
    if HasDefault(was) {
      var c :| c in was && was[c].isDefault;
      if AtMostOneDefault(was) {
        assert OnlyDefault(now, c);
      }
    } else {
      var c :| ComesFirst(was, c) && now == was[c := was[c].(isDefault := true)];
      assert OnlyDefault(now, c);
    }
  }

  /**
   A save leaves exactly one default exactly if the saved calendar is the default or the others had at most one
   between them.
   */
  lemma ExactlyOneAfterSave(was: Tables, id: Id, calendar: Calendar, now: Tables)
    requires Effect(was, Saving(id, calendar), now)
    ensures ExactlyOneDefault(now.rows) <==> calendar.isDefault || AtMostOneDefault(was.rows - {id})
  {
    var written := was.rows[id := calendar];
    if calendar.isDefault {
      assert OnlyDefault(now.rows, id);
    } else {
      assert id in written;
      ChoosingOne(written, now.rows);
      assert AtMostOneDefault(written) <==> AtMostOneDefault(was.rows - {id}) by {
        assert forall c :: c in was.rows - {id} ==> c in written && written[c] == was.rows[c];
        assert forall c :: c in written && written[c].isDefault ==> c in was.rows - {id};
      }
    }
  }

  /** A destroy does so exactly if a calendar remains and the remaining ones had at most one default. */
  lemma ExactlyOneAfterDestroy(was: Tables, id: Id, now: Tables)
    requires Effect(was, Destroying(id), now)
    ensures ExactlyOneDefault(now.rows) <==> was.rows - {id} != map[] && AtMostOneDefault(was.rows - {id})
  {
    if was.rows - {id} != map[] {
      ChoosingOne(was.rows - {id}, now.rows);
    }
  }

  /** The calendars that an operation leaves, before its callbacks run. */
  function Remaining(rows: Rows, op: Operation): Rows {
    match op
    case Saving(id, calendar) => rows[id := calendar]
    case Destroying(id) => rows - {id}
  }

  lemma ChosenIsTheOldest(was: Rows, now: Rows)
    requires OneIsChosen(was, now)
    ensures now.Keys == was.Keys && forall c :: c in was ==> now[c].createdAt == was[c].createdAt
    ensures forall c :: c in was ==>
      (now[c].isDefault
       <==> if forall d :: d in was ==> !was[d].isDefault
            then forall d :: d in was && d != c ==>
                   was[c].createdAt < was[d].createdAt || (was[c].createdAt == was[d].createdAt && c < d)
            else was[c].isDefault)
  {
    if !HasDefault(was) && was != map[] {
      var first :| ComesFirst(was, first) && now == was[first := was[first].(isDefault := true)];
      forall c | c in was && c != first
        ensures !now[c].isDefault
        ensures was[first].createdAt < was[c].createdAt || (was[first].createdAt == was[c].createdAt && first < c)
      {
      }
    }
  }

  /**
   Without a default among the remaining calendars the oldest one becomes it, of several the one with the smallest id;
   with one, no flag is set, and none is cleared unless the saved calendar is the default.
   */
  lemma OldestIsChosen(was: Tables, op: Operation, now: Tables)
    requires Effect(was, op, now)
    ensures var rows := Remaining(was.rows, op);
      && now.rows.Keys == rows.Keys
      && (forall c :: c in rows ==> now.rows[c].createdAt == rows[c].createdAt)
      && forall c :: c in rows ==>
           (now.rows[c].isDefault
            <==> if forall d :: d in rows ==> !rows[d].isDefault
                 then forall d :: d in rows && d != c ==>
                        rows[c].createdAt < rows[d].createdAt || (rows[c].createdAt == rows[d].createdAt && c < d)
                 else rows[c].isDefault && (op.Saving? && op.calendar.isDefault ==> c == op.id))
  {
    var rows := Remaining(was.rows, op);
    if op.Saving? && op.calendar.isDefault {
      assert rows[op.id].isDefault;
    } else {
      ChosenIsTheOldest(rows, now.rows);
    }
  }

  ghost predicate InOrder(t: Tables) {
    t.rows != map[] ==>
      ExactlyOneDefault(t.rows) && AllHaveCalendars(t.slas, t.rows)
  }

  lemma OneOperation(was: Tables, op: Operation, now: Tables)
    requires AtMostOneDefault(was.rows) && Effect(was, op, now)
    ensures InOrder(now) && AtMostOneDefault(now.rows)
  {
    match op
    case Saving(id, calendar) => ExactlyOneAfterSave(was, id, calendar, now);
    case Destroying(id) => ExactlyOneAfterDestroy(was, id, now);
  }

  /**
   From any tables with at most one default, after every save or destroy there is exactly one default calendar
   and every SLA refers to an existing calendar, or no calendar is left.
   */
  lemma {:induction false} AlwaysInOrder(states: seq<Tables>, ops: seq<Operation>, i: nat)
    requires |states| == |ops| + 1 && AtMostOneDefault(states[0].rows)
    requires forall k :: 0 <= k < |ops| ==> Effect(states[k], ops[k], states[k + 1])
    requires i < |states|
    ensures AtMostOneDefault(states[i].rows) && (0 < i ==> InOrder(states[i]))
  {
    if i > 0 {
      AlwaysInOrder(states, ops, i - 1);
      assert Effect(states[i - 1], ops[i - 1], states[i]);
      OneOperation(states[i - 1], ops[i - 1], states[i]);
    }
  }

  // ----- Which calendar a mended SLA gets -----

  /** The SLAs when the calendar `d` was found as the default. */
  function MendedSlas(was: Slas, rows: Rows, d: Id): Slas {
    map s | s in was :: if HasCalendar(was, s, rows) then was[s] else Some(d)
  }

  /** One way in which a save can turn out: any of the defaults may be found. */
  lemma SaveMayTurnOut(was: Tables, id: Id, calendar: Calendar, d: Id) returns (now: Tables)
    requires d in was.rows[id := calendar] && was.rows[id := calendar][d].isDefault
    ensures Effect(was, Saving(id, calendar), now) && now.slas == MendedSlas(was.slas, was.rows[id := calendar], d)
    ensures !calendar.isDefault ==> now.rows == was.rows[id := calendar]
  {
    var written := was.rows[id := calendar];
    now := Tables(if calendar.isDefault then OthersCleared(written, id) else written,
                  MendedSlas(was.slas, written, d));
    assert MendedWith(was.slas, now.slas, written, d);
  }

  /** However the save turns out, the SLA refers to the only default calendar. */
  ghost predicate AlwaysGetsTheDefault(was: Tables, id: Id, calendar: Calendar, s: Id) {
    forall now :: Effect(was, Saving(id, calendar), now) ==>
      s in now.slas && now.slas[s].Some? && OnlyDefault(now.rows, now.slas[s].value)
  }

  /** No other default, if this one is saved as the default; at most one, if it is not. */
  predicate FewOtherDefaults(rows: Rows, id: Id, calendar: Calendar) {
    if calendar.isDefault then !HasDefault(rows - {id}) else AtMostOneDefault(rows - {id})
  }

  lemma OnlyDefaultIsFound(was: Tables, id: Id, calendar: Calendar, s: Id, now: Tables)
    requires s in was.slas && !HasCalendar(was.slas, s, was.rows[id := calendar])
    requires FewOtherDefaults(was.rows, id, calendar) && Effect(was, Saving(id, calendar), now)
    ensures s in now.slas && now.slas[s].Some? && OnlyDefault(now.rows, now.slas[s].value)
  {
    var written := was.rows[id := calendar];
    ExactlyOneAfterSave(was, id, calendar, now);
    var c :| OnlyDefault(now.rows, c);
    if calendar.isDefault {
      var d :| MendedWith(was.slas, now.slas, written, d);
      assert d == id || d in was.rows - {id};
    } else {
      var d :| MendedWith(was.slas, now.slas, now.rows, d);
      assert now.rows.Keys == written.Keys;
    }
  }

  /**
   An SLA without a calendar gets the only default one in every case, whichever default the database finds, exactly
   if no other calendar is the default while this one is saved as such, or at most one while it is not.
   */
  lemma MendedSlaHasTheDefaultExactly(was: Tables, id: Id, calendar: Calendar, s: Id)
    requires s in was.slas && !HasCalendar(was.slas, s, was.rows[id := calendar])
    ensures AlwaysGetsTheDefault(was, id, calendar, s) <==> FewOtherDefaults(was.rows, id, calendar)
  {
    if FewOtherDefaults(was.rows, id, calendar) {
      forall now | Effect(was, Saving(id, calendar), now)
        ensures s in now.slas && now.slas[s].Some? && OnlyDefault(now.rows, now.slas[s].value)
      {
        OnlyDefaultIsFound(was, id, calendar, s, now);
      }
    } else {
      var others := was.rows - {id};
      var d :| d in others && others[d].isDefault;
      var now := SaveMayTurnOut(was, id, calendar, d);
      ExactlyOneAfterSave(was, id, calendar, now);
      assert now.slas[s] == Some(d);
      assert !OnlyDefault(now.rows, d);
    }
  }

  /** After a destroy it always gets the only default one exactly if at most one of the others was the default. */
  lemma MendedAfterDestroyExactly(was: Tables, id: Id, s: Id)
    requires id in was.rows && was.rows - {id} != map[]
    requires s in was.slas && !HasCalendar(was.slas, s, was.rows - {id})
    ensures (forall now :: Effect(was, Destroying(id), now) ==>
              s in now.slas && now.slas[s].Some? && OnlyDefault(now.rows, now.slas[s].value))
            <==> AtMostOneDefault(was.rows - {id})
  {
    var left := was.rows - {id};
    if AtMostOneDefault(left) {
      forall now | Effect(was, Destroying(id), now)
        ensures s in now.slas && now.slas[s].Some? && OnlyDefault(now.rows, now.slas[s].value)
      {
        ChoosingOne(left, now.rows);
        assert now.rows.Keys == left.Keys;
        var d :| MendedWith(was.slas, now.slas, now.rows, d);
      }
    } else {
      var d :| d in left && left[d].isDefault;
      var now := Tables(left, MendedSlas(was.slas, left, d));
      assert MendedWith(was.slas, now.slas, left, d);
      assert Effect(was, Destroying(id), now);
      ChoosingOne(left, now.rows);
    }
  }

  /** A new default calendar is saved next to the old one, and the SLA ends with the old one, no default any more. */
  lemma MendedSlaMissesTheDefault() returns (was: Tables, now: Tables)
    ensures AtMostOneDefault(was.rows) && Effect(was, Saving(2, Calendar(true, 20)), now)
    ensures OnlyDefault(now.rows, 2) && now.slas == map[5 := Some(1)]
  {
    was := Tables(map[1 := Calendar(true, 10)], map[5 := None]);
    now := SaveMayTurnOut(was, 2, Calendar(true, 20), 1);
    assert OnlyDefault(now.rows, 2);
  }

  /** Tables with two defaults stay so when a third calendar is saved without the flag. */
  lemma TwoDefaultsStay(was: Tables, now: Tables, id: Id, calendar: Calendar, c: Id, d: Id)
    requires Effect(was, Saving(id, calendar), now) && !calendar.isDefault
    requires c != d && c != id && d != id && c in was.rows && d in was.rows
    requires was.rows[c].isDefault && was.rows[d].isDefault
    ensures !ExactlyOneDefault(now.rows)
  {
    var others := was.rows - {id};
    assert c in others && d in others && others[c].isDefault && others[d].isDefault;
    ExactlyOneAfterSave(was, id, calendar, now);
  }
}
