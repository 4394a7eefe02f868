/** app/models/overview.rb: renumbering of the priorities and the search for a free link. */
module Overviews {
  import opened Prelude
  import opened Decimal

  type Id = nat

  datatype Overview = Overview(prio: int, updatedAt: int, link: string)

  type Table = map<Id, Overview>

  // ----- Renumbering -----

  predicate Distinct(ids: seq<Id>) {
    forall i, j :: 0 <= i < j < |ids| ==> ids[i] != ids[j]
  }

  /** `order(prio: :asc, updated_at: :desc)`; the database may put ties in any order. */
  ghost predicate IsOrdered(t: Table, ids: seq<Id>) {
    && Distinct(ids)
    && (forall id :: id in t <==> id in ids)
    && (forall i, j :: 0 <= i < j < |ids| ==>
         t[ids[i]].prio < t[ids[j]].prio
         || (t[ids[i]].prio == t[ids[j]].prio && t[ids[i]].updatedAt >= t[ids[j]].updatedAt))
  }

  /** The ids of the others, without the overview that is being updated. */
  function Without(ids: seq<Id>, id: Id): seq<Id> {
    if ids == [] then []
    else
      var n := |ids| - 1;
      Without(ids[..n], id) + if ids[n] == id then [] else [ids[n]]
  }

  /** What the counter shows for the n-th of the others, n counted from 1: it leaves out the new priority. */
  function Number(n: nat, prio: int): int {
    if 1 <= prio <= n then n + 1 else n
  }

  /** A row is written only if its priority has to change. */
  function Renumbered(t: Table, id: Id, prio: int, now: int): Table {
    if id in t && t[id].prio != prio then t[id := t[id].(prio := prio, updatedAt := now)] else t
  }

  function Rearranged(t: Table, others: seq<Id>, prio: int, now: int): Table {
    if others == [] then t
    else
      var n := |others| - 1;
      Renumbered(Rearranged(t, others[..n], prio, now), others[n], Number(n + 1, prio), now)
  }

  lemma RearrangedOneMore(t: Table, others: seq<Id>, id: Id, prio: int, now: int)
    ensures Rearranged(t, others + [id], prio, now)
            == Renumbered(Rearranged(t, others, prio, now), id, Number(|others| + 1, prio), now)
  {
    assert (others + [id])[..|others|] == others;
  }

  /** An update of one priority: the callback renumbers the others, then the row itself is written. */
  function PrioUpdated(t: Table, id: Id, prio: int, ordered: seq<Id>, now: int): Table
    requires id in t
  {
    if t[id].prio == prio then t
    else Rearranged(t, Without(ordered, id), prio, now)[id := t[id].(prio := prio, updatedAt := now)]
  }

  lemma {:induction false} WithoutContents(ids: seq<Id>, id: Id)
    requires Distinct(ids)
    ensures forall x :: x in Without(ids, id) <==> x in ids && x != id
    ensures Distinct(Without(ids, id))
    ensures |Without(ids, id)| == if id in ids then |ids| - 1 else |ids|
  {
    if ids != [] {
      var n := |ids| - 1;
      assert ids == ids[..n] + [ids[n]];
      WithoutContents(ids[..n], id);
      assert ids[n] !in ids[..n];
    }
  }

  lemma RenumberedOnly(t: Table, id: Id, prio: int, now: int)
    requires id in t
    ensures Renumbered(t, id, prio, now).Keys == t.Keys
    ensures forall x :: x in t && x != id ==> Renumbered(t, id, prio, now)[x] == t[x]
  {
  }

  lemma {:induction false} RearrangedAt(t: Table, others: seq<Id>, prio: int, now: int)
    requires Distinct(others) && forall i :: 0 <= i < |others| ==> others[i] in t
    ensures var t' := Rearranged(t, others, prio, now);
      && t'.Keys == t.Keys
      && (forall i :: 0 <= i < |others| ==>
           t'[others[i]] == Renumbered(t, others[i], Number(i + 1, prio), now)[others[i]])
      && (forall id :: id in t && id !in others ==> t'[id] == t[id])
  {
    if others != [] {
      var n := |others| - 1;
      var front, last := others[..n], others[n];
      assert others == front + [last] && last !in front;
      RearrangedAt(t, front, prio, now);
      var t1 := Rearranged(t, front, prio, now);
      assert t1[last] == t[last];
      RenumberedOnly(t1, last, Number(n + 1, prio), now);
      forall i | 0 <= i < n
        ensures Rearranged(t, others, prio, now)[others[i]]
                == Renumbered(t, others[i], Number(i + 1, prio), now)[others[i]]
      {
        assert front[i] == others[i] && others[i] != last;
      }
    }
  }

  /** The row itself has the new priority and each other one the number of its place. */
  ghost predicate Numbered(t: Table, id: Id, others: seq<Id>, prio: int) {
    && id in t && id !in others && t[id].prio == prio
    && (forall x :: x in t ==> x == id || x in others)
    && (forall i :: 0 <= i < |others| ==> others[i] in t && t[others[i]].prio == Number(i + 1, prio))
    && |others| == |t| - 1
  }

  lemma NumberedAfterUpdate(t: Table, id: Id, prio: int, ordered: seq<Id>, now: int)
    requires id in t && IsOrdered(t, ordered) && t[id].prio != prio
    ensures Numbered(PrioUpdated(t, id, prio, ordered, now), id, Without(ordered, id), prio)
    ensures PrioUpdated(t, id, prio, ordered, now).Keys == t.Keys
  {
    var others := Without(ordered, id);
    WithoutContents(ordered, id);
    RearrangedAt(t, others, prio, now);
    var t1 := Rearranged(t, others, prio, now);
    OrderedHasAll(t, ordered);
    NumberedWithOwnRow(t, t1, id, others, prio, now);
  }

  lemma NumberedWithOwnRow(t: Table, t1: Table, id: Id, others: seq<Id>, prio: int, now: int)
    requires id in t && id !in others && t1.Keys == t.Keys && |others| == |t| - 1
    requires forall x :: x in t <==> x == id || x in others
    requires forall i :: 0 <= i < |others| ==> t1[others[i]].prio == Number(i + 1, prio)
    ensures Numbered(t1[id := t[id].(prio := prio, updatedAt := now)], id, others, prio)
    ensures t1[id := t[id].(prio := prio, updatedAt := now)].Keys == t.Keys
  {
    var t' := t1[id := t[id].(prio := prio, updatedAt := now)];
    assert t'.Keys == t.Keys;
    assert |t'.Keys| == |t'| && |t.Keys| == |t|;
  }

  lemma {:induction false} OrderedHasAll(t: Table, ids: seq<Id>)
    requires Distinct(ids) && forall id :: id in t <==> id in ids
    ensures |ids| == |t|
    decreases |ids|
  {
    if ids == [] {
      assert t.Keys == {};
    } else {
      var n := |ids| - 1;
      assert ids == ids[..n] + [ids[n]];
      assert ids[n] !in ids[..n];
      var rest := t - {ids[n]};
      assert rest.Keys == t.Keys - {ids[n]};
      OrderedHasAll(rest, ids[..n]);
      assert |rest.Keys| == |t.Keys| - 1;
    }
  }

  lemma NumberedAreDistinct(t: Table, id: Id, others: seq<Id>, prio: int, x: Id, y: Id)
    requires Numbered(t, id, others, prio) && x in t && y in t && x != y
    ensures t[x].prio != t[y].prio
  {
    if x != id {
      var i :| 0 <= i < |others| && others[i] == x;
      if y != id {
        var j :| 0 <= j < |others| && others[j] == y;
      }
    } else {
      var j :| 0 <= j < |others| && others[j] == y;
    }
  }

  /** After an update of one priority all priorities differ, whatever they were before. */
  lemma PrioritiesAreDistinct(t: Table, id: Id, prio: int, ordered: seq<Id>, now: int)
    requires id in t && IsOrdered(t, ordered) && t[id].prio != prio
    ensures var t' := PrioUpdated(t, id, prio, ordered, now);
      forall x, y :: x in t' && y in t' && x != y ==> t'[x].prio != t'[y].prio
  {
    NumberedAfterUpdate(t, id, prio, ordered, now);
    var t' := PrioUpdated(t, id, prio, ordered, now);
    forall x, y | x in t' && y in t' && x != y
      ensures t'[x].prio != t'[y].prio
    {
      NumberedAreDistinct(t', id, Without(ordered, id), prio, x, y);
    }
  }

  /** In the order by priority, newest first, `x` comes before `y` or may do so. */
  predicate NotAfter(t: Table, x: Id, y: Id) {
    x in t && y in t
    && (t[x].prio < t[y].prio || (t[x].prio == t[y].prio && t[x].updatedAt >= t[y].updatedAt))
  }

  lemma {:induction false} WithoutKeepsOrder(t: Table, ids: seq<Id>, id: Id)
    requires Distinct(ids)
    requires forall i, j :: 0 <= i < j < |ids| ==> NotAfter(t, ids[i], ids[j])
    ensures forall i, j :: 0 <= i < j < |Without(ids, id)| ==> NotAfter(t, Without(ids, id)[i], Without(ids, id)[j])
  {
    if ids != [] {
      var n := |ids| - 1;
      WithoutKeepsOrder(t, ids[..n], id);
      WithoutContents(ids[..n], id);
      forall x | x in ids[..n]
        ensures NotAfter(t, x, ids[n])
      {
        var k :| 0 <= k < n && ids[..n][k] == x;
        assert NotAfter(t, ids[k], ids[n]);
      }
    }
  }

  /** The others keep the order they had, by priority and newest first. */
  lemma OthersKeepTheirOrder(t: Table, id: Id, prio: int, ordered: seq<Id>, now: int, x: Id, y: Id)
    requires id in t && IsOrdered(t, ordered) && t[id].prio != prio
    requires x != id && y != id && x in t && y in t && !NotAfter(t, y, x)
    ensures var t' := PrioUpdated(t, id, prio, ordered, now);
      x in t' && y in t' && t'[x].prio < t'[y].prio
  {
    NumberedAfterUpdate(t, id, prio, ordered, now);
    WithoutKeepsOrder(t, ordered, id);
    var t', others := PrioUpdated(t, id, prio, ordered, now), Without(ordered, id);
    InOrderMeansBelow(t, t', id, others, prio, x, y);
  }

  lemma InOrderMeansBelow(t: Table, t': Table, id: Id, others: seq<Id>, prio: int, x: Id, y: Id)
    requires Numbered(t', id, others, prio)
    requires forall i, j :: 0 <= i < j < |others| ==> NotAfter(t, others[i], others[j])
    requires x != id && y != id && x in t' && y in t' && x in t && y in t && !NotAfter(t, y, x)
    ensures t'[x].prio < t'[y].prio
  {
    var i :| 0 <= i < |others| && others[i] == x;
    var j :| 0 <= j < |others| && others[j] == y;
    assert !(j < i);
    assert i != j;
  }

  function Priorities(t: Table): set<int> {
    set id | id in t :: t[id].prio
  }

  lemma NumberedAreOneToN(t: Table, id: Id, others: seq<Id>, prio: int)
    requires Numbered(t, id, others, prio)
    ensures (forall k :: k in Priorities(t) <==> 1 <= k <= |t|) <==> 1 <= prio <= |t|
  {
    assert prio in Priorities(t);
    if 1 <= prio <= |t| {
      forall k | 1 <= k <= |t|
        ensures k in Priorities(t)
      {
        if k != prio {
          var i := if k < prio then k - 1 else k - 2;
          assert t[others[i]].prio == k;
        }
      }
      forall k | k in Priorities(t)
        ensures 1 <= k <= |t|
      {
        var x :| x in t && t[x].prio == k;
        if x != id {
          var i :| 0 <= i < |others| && others[i] == x;
        }
      }
    }
  }

  /** The priorities are then exactly 1 to n if and only if the new one is among these numbers. */
  lemma PrioritiesAreOneToN(t: Table, id: Id, prio: int, ordered: seq<Id>, now: int)
    requires id in t && IsOrdered(t, ordered) && t[id].prio != prio
    ensures (forall k :: k in Priorities(PrioUpdated(t, id, prio, ordered, now)) <==> 1 <= k <= |t|)
            <==> 1 <= prio <= |t|
  {
    NumberedAfterUpdate(t, id, prio, ordered, now);
    var t' := PrioUpdated(t, id, prio, ordered, now);
    assert |t'.Keys| == |t'| && |t.Keys| == |t|;
    NumberedAreOneToN(t', id, Without(ordered, id), prio);
  }

  /** The row is as it was, or has got another priority and the time of the update. */
  predicate OnlyPrioWritten(was: Overview, became: Overview, now: int) {
    became == if became.prio == was.prio then was else Overview(became.prio, now, was.link)
  }

  lemma OthersOnlyPrioWritten(t: Table, id: Id, prio: int, ordered: seq<Id>, now: int, x: Id)
    requires IsOrdered(t, ordered) && x in t && x != id
    ensures var t1 := Rearranged(t, Without(ordered, id), prio, now);
      x in t1 && OnlyPrioWritten(t[x], t1[x], now)
  {
    var others := Without(ordered, id);
    WithoutContents(ordered, id);
    RearrangedAt(t, others, prio, now);
    assert x in others;
    var i :| 0 <= i < |others| && others[i] == x;
    var row := Renumbered(t, x, Number(i + 1, prio), now)[x];
    assert Rearranged(t, others, prio, now)[others[i]] == row && OnlyPrioWritten(t[x], row, now);
  }

  /**
   An update changes something exactly if the row gets another priority. A row is written exactly if its priority
   changes, and then gets the time of the update; no row's link is ever changed.
   */
  lemma OnlyChangedPrioritiesAreWritten(t: Table, id: Id, prio: int, ordered: seq<Id>, now: int)
    requires id in t && IsOrdered(t, ordered)
    ensures var t' := PrioUpdated(t, id, prio, ordered, now);
      && (t' == t <==> t[id].prio == prio) && t'.Keys == t.Keys && t'[id].prio == prio
      && forall x :: x in t ==> OnlyPrioWritten(t[x], t'[x], now)
  {
    if t[id].prio != prio {
      NumberedAfterUpdate(t, id, prio, ordered, now);
      forall x | x in t && x != id
        ensures OnlyPrioWritten(t[x], PrioUpdated(t, id, prio, ordered, now)[x], now)
      {
        OthersOnlyPrioWritten(t, id, prio, ordered, now, x);
      }
    }
  }

  // ----- Links -----

  /** The k-th link that is tried. */
  function Candidate(base: string, k: nat): string {
    if k == 0 then base else base + "_" + Print(k)
  }

  lemma CandidatesDiffer(base: string, j: nat, k: nat)
    requires Candidate(base, j) == Candidate(base, k)
    ensures j == k
  {
    if j > 0 && k > 0 {
      assert Candidate(base, j)[|base| + 1..] == Print(j);
      assert Candidate(base, k)[|base| + 1..] == Print(k);
      PrintIsInjective(j, k);
    } else {
      assert |Candidate(base, j)| == |Candidate(base, k)|;
    }
  }

  /** Another overview than `id` (a new one has no id) has the link. */
  predicate Held(t: Table, id: Option<Id>, link: string) {
    exists x :: x in t && Some(x) != id && t[x].link == link
  }

  predicate UniqueLinks(t: Table) {
    forall x, y :: x in t && y in t && x != y ==> t[x].link != t[y].link
  }

  lemma SubsetIsNotLarger<T>(a: set<T>, b: set<T>)
    requires a <= b
    ensures |a| <= |b|
  {
    assert |b| == |a| + |b - a| by { assert b == a + (b - a); }
  }

  function Others(t: Table, id: Option<Id>): set<Id> {
    set x | x in t && Some(x) != id
  }

  ghost predicate HoldersOf(t: Table, id: Option<Id>, base: string, k: nat, holders: set<Id>) {
    && holders <= Others(t, id) && |holders| == k
    && forall x :: x in holders ==> exists j: nat :: j < k && t[x].link == Candidate(base, j)
  }

  /** Each candidate that is taken is taken by a different overview. */
  lemma {:induction false} HoldersExist(t: Table, id: Option<Id>, base: string, k: nat)
    requires forall j :: 0 <= j < k ==> Held(t, id, Candidate(base, j))
    ensures exists holders :: HoldersOf(t, id, base, k, holders)
  {
    if k == 0 {
      assert HoldersOf(t, id, base, 0, {});
    } else {
      HoldersExist(t, id, base, k - 1);
      var holders :| HoldersOf(t, id, base, k - 1, holders);
      assert Held(t, id, Candidate(base, k - 1));
      var x :| x in t && Some(x) != id && t[x].link == Candidate(base, k - 1);
      if x in holders {
        var j: nat :| j < k - 1 && t[x].link == Candidate(base, j);
        CandidatesDiffer(base, j, k - 1);
      }
      assert HoldersOf(t, id, base, k, holders + {x});
    }
  }

  /** Not more candidates are taken than there are overviews, without the one that the link is for. */
  lemma HeldCandidatesAreFew(t: Table, id: Option<Id>, base: string, k: nat)
    requires forall j :: 0 <= j < k ==> Held(t, id, Candidate(base, j))
    ensures k <= |Others(t, id)|
    ensures |Others(t, id)| == if id.Some? && id.value in t then |t| - 1 else |t|
  {
    HoldersExist(t, id, base, k);
    var holders :| HoldersOf(t, id, base, k, holders);
    SubsetIsNotLarger(holders, Others(t, id));
    if id.Some? && id.value in t {
      assert Others(t, id) == t.Keys - {id.value};
    } else {
      assert Others(t, id) == t.Keys;
    }
  }

  // ----- The table -----

  class OverviewTable {
    var rows: Table

    constructor (rows: Table)
      ensures this.rows == rows
    {
      this.rows := rows;
    }

    /**
     The loop of `rearrangement` for overview `id`, whose new priority is `prio`; its own row still has the old one.
     `ordered` is what the database returned.
     */
    method Rearrange(id: Id, prio: int, ordered: seq<Id>, now: int)
      requires IsOrdered(rows, ordered)
      modifies this
      ensures rows == Rearranged(old(rows), Without(ordered, id), prio, now)
    {
      var rearranged := 0;
      for i := 0 to |ordered|
        invariant rearranged == Number(|Without(ordered[..i], id)|, prio)
        invariant rows == Rearranged(old(rows), Without(ordered[..i], id), prio, now)
      {
        var overview := ordered[i];
        assert ordered[..i + 1][..i] == ordered[..i];
        if overview != id {
          rearranged := rearranged + 1;
          if rearranged == prio {
            rearranged := rearranged + 1;
          }
          RearrangedOneMore(old(rows), Without(ordered[..i], id), overview, prio, now);
          Renumber(overview, rearranged, now);
        } else {
          assert Without(ordered[..i], id) + [] == Without(ordered[..i], id);
        }
      }
      assert ordered[..|ordered|] == ordered;
    }

    /** The inner update, which reads the row only if its priority has to change. */
    method Renumber(id: Id, prio: int, now: int)
      modifies this
      ensures rows == Renumbered(old(rows), id, prio, now)
    {
      if id in rows && rows[id].prio != prio {
        rows := rows[id := rows[id].(prio := prio, updatedAt := now)];
      }
    }

    /** An update of the priority with its callback. */
    method UpdatePrio(id: Id, prio: int, ordered: seq<Id>, now: int)
      requires id in rows && IsOrdered(rows, ordered)
      modifies this
      ensures rows == PrioUpdated(old(rows), id, prio, ordered, now)
    {
      if rows[id].prio == prio {
        return;
      }
      var row := rows[id];
      Rearrange(id, prio, ordered, now);
      rows := rows[id := row.(prio := prio, updatedAt := now)];
    }

    /** `calculate_prio`: one above the highest, or 0 in an empty table. */
    method CalculatePrio() returns (prio: int)
      ensures rows == map[] ==> prio == 0
      ensures rows != map[] ==> exists x :: x in rows && prio == rows[x].prio + 1
      ensures forall x :: x in rows ==> rows[x].prio < prio
    {
      if rows == map[] {
        return 0;
      }
      var ids := rows.Keys;
      var top :| top in ids;
      ids := ids - {top};
      while ids != {}
        invariant ids < rows.Keys && top in rows
        invariant forall x :: x in rows && x !in ids ==> rows[x].prio <= rows[top].prio
        decreases ids
      {
        var x :| x in ids;
        if rows[top].prio < rows[x].prio {
          top := x;
        }
        ids := ids - {x};
      }
      return rows[top].prio + 1;
    }

    /** `find_by(link: ...)`: any overview that has the link. */
    method FindByLink(link: string) returns (found: Option<Id>)
      ensures match found
        case Some(x) => x in rows && rows[x].link == link
        case None => forall x :: x in rows ==> rows[x].link != link
    {
      if exists x :: x in rows && rows[x].link == link {
        var x :| x in rows && rows[x].link == link;
        return Some(x);
      }
      return None;
    }

    /**
     The search of `link_name`: `base` is the name made into a link. The candidates are all different, so one more of
     them than there are other overviews cannot all be taken, and the loop ends.
     */
    method LinkName(id: Option<Id>, base: string) returns (link: string, ghost k: nat)
      ensures link == Candidate(base, k) && k <= |Others(rows, id)|
      ensures UniqueLinks(rows) ==> !Held(rows, id, link)
      ensures forall j :: 0 <= j < k ==> Held(rows, id, Candidate(base, j))
    {
      var check := true;
      var count := 0;
      var lookup := base;
      link := base;
      k := 0;
      while check
        invariant lookup == Candidate(base, k) && k <= |Others(rows, id)|
        invariant if check then count == k else link == lookup
        invariant forall j :: 0 <= j < k ==> Held(rows, id, Candidate(base, j))
        invariant !check && UniqueLinks(rows) ==> !Held(rows, id, link)
        decreases check, |Others(rows, id)| - k
      {
        count := count + 1;
        var found := FindByLink(lookup);
        if found.Some? && found != id {
          assert Held(rows, id, Candidate(base, k));
          HeldCandidatesAreFew(rows, id, base, k + 1);
          lookup := base + "_" + Print(count);
          k := k + 1;
        } else {
          check := false;
          link := lookup;
        }
      }
    }
  }

  /** Storing a link that no other overview has keeps the links unique. */
  lemma FreeLinkKeepsUniqueness(t: Table, id: Id, overview: Overview)
    requires UniqueLinks(t) && !Held(t, Some(id), overview.link)
    ensures UniqueLinks(t[id := overview])
  {
    var t' := t[id := overview];
    forall x, y | x in t' && y in t' && x != y
      ensures t'[x].link != t'[y].link
    {
      if x == id {
        assert Some(y) != Some(id);
      } else if y == id {
        assert Some(x) != Some(id);
      }
    }
  }
}
