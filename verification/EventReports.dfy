/**
 lib/transaction_dispatcher.rb: what the items of `get_uniq_changes` say, in terms of the events and the rows alone.
 New articles are reported with their ticket, whatever else happens to the ticket before and after.
 */
module EventReports {
  import opened Prelude
  import opened EventCoalescing

  // ----- The events that an item is about -----

  predicate OfArticle(e: Event) {
    e.objectClass == "Ticket::Article"
  }

  /** An article concerns its ticket if it is new and still there; every other event concerns its own object. */
  predicate Concerns(db: Database, key: Key, e: Event) {
    if OfArticle(e) then
      e.kind != "update" && e.id in db.articles && key == Key("Ticket", db.articles[e.id])
    else key == Key(e.objectClass, e.id)
  }

  /** A new article whose ticket is gone. */
  predicate Orphan(db: Database, e: Event) {
    OfArticle(e) && e.kind != "update" && e.id in db.articles && ("Ticket", db.articles[e.id]) !in db.objects
  }

  function Concerning(db: Database, key: Key, events: seq<Event>): (own: seq<Event>)
    ensures forall i :: 0 <= i < |own| ==> Concerns(db, key, own[i])
  {
    if events == [] then []
    else
      var n := |events| - 1;
      Concerning(db, key, events[..n]) + if Concerns(db, key, events[n]) then [events[n]] else []
  }

  predicate Exists(db: Database, key: Key) {
    (key.objectClass, key.id) in db.objects
  }

  // ----- What it says about them -----

  /** An event that is not just an update. */
  predicate Makes(e: Event) {
    !OfArticle(e) && e.kind != "update"
  }

  predicate Touches(e: Event, a: Attribute) {
    !OfArticle(e) && e.changes.Some? && a in e.changes.value
  }

  /** The first event that is not just an update gives the kind. */
  predicate ReportsKind(item: Item, own: seq<Event>) {
    if forall i :: 0 <= i < |own| ==> !Makes(own[i]) then item.kind == "update"
    else exists i :: 0 <= i < |own| && Makes(own[i]) && (forall j :: 0 <= j < i ==> !Makes(own[j]))
                     && item.kind == own[i].kind
  }

  /** The last new article is named. */
  predicate ReportsArticle(item: Item, own: seq<Event>) {
    match item.articleId
    case None => forall i :: 0 <= i < |own| ==> !OfArticle(own[i])
    case Some(id) => exists i :: 0 <= i < |own| && OfArticle(own[i]) && own[i].id == id
                                 && forall j :: i < j < |own| ==> !OfArticle(own[j])
  }

  /** The pair of an attribute is its value before the first and after the last event that touches it. */
  predicate ReportsPair(pair: Change, own: seq<Event>, a: Attribute) {
    exists first, last :: 0 <= first <= last < |own| && Touches(own[first], a) && Touches(own[last], a)
      && (forall i :: 0 <= i < first ==> !Touches(own[i], a))
      && (forall i :: last < i < |own| ==> !Touches(own[i], a))
      && pair == Change(own[first].changes.value[a].before, own[last].changes.value[a].after)
  }

  predicate ReportsAttribute(item: Item, own: seq<Event>, a: Attribute) {
    if Mentions(item, a) then ReportsPair(item.changes.value[a], own, a)
    else forall i :: 0 <= i < |own| ==> !Touches(own[i], a)
  }

  ghost predicate ReportsChanges(item: Item, own: seq<Event>) {
    && (item.changes.Some? <==> exists i :: 0 <= i < |own| && !OfArticle(own[i]) && own[i].changes.Some?)
    && forall a :: ReportsAttribute(item, own, a)
  }

  ghost predicate Reports(item: Item, key: Key, own: seq<Event>)
    requires own != []
  {
    && item.key == key
    && item.userId == own[|own| - 1].userId && item.createdAt == own[|own| - 1].createdAt
    && ReportsKind(item, own) && ReportsArticle(item, own) && ReportsChanges(item, own)
  }

  // ----- One more event -----

  function ItemFor(key: Key, e: Event): Item {
    if OfArticle(e) then Item(key, "update", e.userId, e.createdAt, None, Some(e.id))
    else Item(key, e.kind, e.userId, e.createdAt, e.changes, None)
  }

  lemma OneEvent(key: Key, e: Event)
    ensures Reports(ItemFor(key, e), key, [e])
  {
    var item, own := ItemFor(key, e), [e];
    assert own[0] == e;
    forall a
      ensures ReportsAttribute(item, own, a)
    {
      assert 0 <= 0 <= 0 < |own|;
    }
  }

  lemma KindOneMore(item: Item, own: seq<Event>, key: Key, e: Event)
    requires ReportsKind(item, own)
    ensures ReportsKind(Combine(item, ItemFor(key, e)), own + [e])
  {
    var more := own + [e];
    if forall i :: 0 <= i < |own| ==> !Makes(own[i]) {
      if Makes(e) { assert more[|own|] == e; }
    } else {
      var i :| 0 <= i < |own| && Makes(own[i]) && (forall j :: 0 <= j < i ==> !Makes(own[j]))
               && item.kind == own[i].kind;
      assert more[i] == own[i];
    }
  }

  lemma ArticleOneMore(item: Item, own: seq<Event>, key: Key, e: Event)
    requires ReportsArticle(item, own)
    ensures ReportsArticle(Combine(item, ItemFor(key, e)), own + [e])
  {
    var more := own + [e];
    if OfArticle(e) {
      assert more[|own|] == e;
    } else if item.articleId.Some? {
      var i :| 0 <= i < |own| && OfArticle(own[i]) && own[i].id == item.articleId.value
               && forall j :: i < j < |own| ==> !OfArticle(own[j]);
      assert more[i] == own[i];
    }
  }

  lemma PairOneMore(pair: Change, own: seq<Event>, e: Event, a: Attribute)
    requires ReportsPair(pair, own, a)
    ensures ReportsPair(if Touches(e, a) then Change(pair.before, e.changes.value[a].after) else pair, own + [e], a)
  {
    var more := own + [e];
    var first, last :| 0 <= first <= last < |own| && Touches(own[first], a) && Touches(own[last], a)
      && (forall i :: 0 <= i < first ==> !Touches(own[i], a))
      && (forall i :: last < i < |own| ==> !Touches(own[i], a))
      && pair == Change(own[first].changes.value[a].before, own[last].changes.value[a].after);
    var newLast := if Touches(e, a) then |own| else last;
    assert more[first] == own[first] && more[|own|] == e && more[newLast] == if Touches(e, a) then e else own[last];
    assert forall i :: 0 <= i < first ==> more[i] == own[i];
    assert forall i :: newLast < i < |more| ==> !Touches(more[i], a);
  }

  lemma FirstPair(own: seq<Event>, e: Event, a: Attribute)
    requires Touches(e, a) && forall i :: 0 <= i < |own| ==> !Touches(own[i], a)
    ensures ReportsPair(e.changes.value[a], own + [e], a)
  {
    var more, n := own + [e], |own|;
    assert more[n] == e && forall i :: 0 <= i < n ==> more[i] == own[i];
    assert e.changes.value[a] == Change(more[n].changes.value[a].before, more[n].changes.value[a].after);
  }

  lemma AttributeOneMore(item: Item, own: seq<Event>, key: Key, e: Event, a: Attribute)
    requires ReportsAttribute(item, own, a)
    ensures ReportsAttribute(Combine(item, ItemFor(key, e)), own + [e], a)
  {
    var more, now := own + [e], Combine(item, ItemFor(key, e));
    assert Mentions(now, a) <==> Mentions(item, a) || Touches(e, a);
    if Mentions(item, a) {
      PairOneMore(item.changes.value[a], own, e, a);
      assert now.changes.value[a]
          == if Touches(e, a) then Change(item.changes.value[a].before, e.changes.value[a].after)
             else item.changes.value[a];
    } else if Touches(e, a) {
      FirstPair(own, e, a);
      assert now.changes.value[a] == e.changes.value[a];
    } else {
      assert forall i :: 0 <= i < |more| ==> more[i] == if i < |own| then own[i] else e;
    }
  }

  lemma ChangesOneMore(item: Item, own: seq<Event>, key: Key, e: Event)
    requires ReportsChanges(item, own)
    ensures ReportsChanges(Combine(item, ItemFor(key, e)), own + [e])
  {
    var more := own + [e];
    assert more[|own|] == e;
    assert forall i :: 0 <= i < |own| ==> more[i] == own[i];
    forall a
      ensures ReportsAttribute(Combine(item, ItemFor(key, e)), more, a)
    {
      AttributeOneMore(item, own, key, e, a);
    }
    if item.changes.Some? {
      var i :| 0 <= i < |own| && !OfArticle(own[i]) && own[i].changes.Some?;
      assert !OfArticle(more[i]) && more[i].changes.Some?;
    }
  }

  function ItemsFor(key: Key, own: seq<Event>): (items: seq<Item>)
    ensures |items| == |own|
  {
    seq(|own|, i requires 0 <= i < |own| => ItemFor(key, own[i]))
  }

  lemma ItemsForOneMore(key: Key, own: seq<Event>, e: Event)
    ensures ItemsFor(key, own + [e]) == ItemsFor(key, own) + [ItemFor(key, e)]
  {
  }

  lemma {:induction false} FoldReports(key: Key, own: seq<Event>)
    requires own != []
    ensures Reports(Folded(ItemsFor(key, own)), key, own)
  {
    var n := |own| - 1;
    var front, e := own[..n], own[n];
    assert own == front + [e];
    ItemsForOneMore(key, front, e);
    if n == 0 {
      OneEvent(key, e);
    } else {
      FoldReports(key, front);
      FoldedOneMore(ItemsFor(key, front), ItemFor(key, e));
      var item := Folded(ItemsFor(key, front));
      KindOneMore(item, front, key, e);
      ArticleOneMore(item, front, key, e);
      ChangesOneMore(item, front, key, e);
    }
  }

  // ----- All events -----

  lemma ResolvedEvent(db: Database, key: Key, e: Event)
    ensures Resolve(db, e).Raises? <==> Orphan(db, e)
    ensures Exists(db, key) && Concerns(db, key, e) ==> Resolve(db, e) == Counts(ItemFor(key, e))
    ensures Resolve(db, e).Counts? && Resolve(db, e).item.key == key ==> Exists(db, key) && Concerns(db, key, e)
  {
  }

  lemma {:induction false} ResolvedOf(db: Database, key: Key, events: seq<Event>)
    requires ResolvedAll(db, events).Some?
    ensures Of(ResolvedAll(db, events).value, key)
         == if Exists(db, key) then ItemsFor(key, Concerning(db, key, events)) else []
  {
    if events == [] {
      assert ItemsFor(key, Concerning(db, key, events)) == [];
    } else {
      var n := |events| - 1;
      ResolvedOf(db, key, events[..n]);
      ResolvedEvent(db, key, events[n]);
      var items := ResolvedAll(db, events[..n]).value;
      if Resolve(db, events[n]).Counts? {
        var item := Resolve(db, events[n]).item;
        assert (items + [item])[..|items|] == items;
      }
      ItemsForOneMore(key, Concerning(db, key, events[..n]), events[n]);
      assert ItemsFor(key, Concerning(db, key, events[..n])) + []
          == ItemsFor(key, Concerning(db, key, events[..n]));
    }
  }

  lemma UniqChangesOf(db: Database, key: Key, events: seq<Event>)
    requires UniqChanges(db, events).Some?
    ensures Lookup(UniqChanges(db, events).value, key)
         == if Exists(db, key) then FoldedOrNone(ItemsFor(key, Concerning(db, key, events))) else None
  {
    ResolvedOf(db, key, events);
    CoalescedPerObject(ResolvedAll(db, events).value, key);
  }

  /** The nil error comes exactly if a new article that is still there has lost its ticket. */
  lemma UniqChangesRaisesExactly(db: Database, events: seq<Event>)
    ensures UniqChanges(db, events).None? <==> exists i :: 0 <= i < |events| && Orphan(db, events[i])
  {
    RaisesExactly(db, events);
    forall i | 0 <= i < |events|
      ensures Resolve(db, events[i]).Raises? <==> Orphan(db, events[i])
    {
      ResolvedEvent(db, Key("", 0), events[i]);
    }
  }

  /** There is one item for each existing object that some event concerns, none under articles, and what it says. */
  lemma UniqChangesReports(db: Database, key: Key, events: seq<Event>)
    requires UniqChanges(db, events).Some?
    ensures var own := Concerning(db, key, events);
      match Lookup(UniqChanges(db, events).value, key)
      case None => !Exists(db, key) || own == []
      case Some(item) => Exists(db, key) && key.objectClass != "Ticket::Article" && own != [] && Reports(item, key, own)
  {
    var own := Concerning(db, key, events);
    UniqChangesOf(db, key, events);
    if own != [] {
      assert Concerns(db, key, own[0]);
      FoldReports(key, own);
    }
  }

  // ----- The saves of a record among all other events -----

  function SavesAmong(own: seq<Event>): (saves: seq<Event>)
    ensures forall i :: 0 <= i < |saves| ==> saves[i] in own && !OfArticle(saves[i])
  {
    if own == [] then []
    else
      var n := |own| - 1;
      SavesAmong(own[..n]) + if OfArticle(own[n]) then [] else [own[n]]
  }

  lemma {:induction false} AllSavesAreAmong(own: seq<Event>, i: nat)
    requires i < |own| && !OfArticle(own[i])
    ensures own[i] in SavesAmong(own)
  {
    if i < |own| - 1 { AllSavesAreAmong(own[..|own| - 1], i); }
  }

  lemma FitsUpTo(start: Attributes, items: seq<Item>, item: Item)
    requires FitsInTurn(start, items + [item])
    ensures FitsInTurn(start, items) && Fits(Replayed(start, items), item.changes)
    ensures Replayed(start, items + [item]) == Applied(Replayed(start, items), item.changes)
  {
    var more := items + [item];
    assert more[..|items|] == items;
    forall i | 0 <= i < |items|
      ensures Fits(Replayed(start, items[..i]), items[i].changes)
    {
      assert more[..i] == items[..i] && more[i] == items[i];
    }
  }

  /** Articles between the saves do not change where these lead. */
  lemma {:induction false} SavesLead(key: Key, own: seq<Event>, start: Attributes)
    requires FitsInTurn(start, ItemsOf(SavesAmong(own)))
    requires forall i :: 0 <= i < |own| ==> !OfArticle(own[i]) ==> Key(own[i].objectClass, own[i].id) == key
    ensures LeadsTo(start, ItemsFor(key, own), Replayed(start, ItemsOf(SavesAmong(own))))
  {
    if own == [] {
      assert ItemsFor(key, own) == [] && ItemsOf(SavesAmong(own)) == [];
    } else {
      var n := |own| - 1;
      var front, e := own[..n], own[n];
      assert own == front + [e];
      ItemsForOneMore(key, front, e);
      if OfArticle(e) {
        assert SavesAmong(own) == SavesAmong(front);
      } else {
        ItemsOfConcat(SavesAmong(front), [e]);
        assert ItemsOf([e]) == [ItemFor(key, e)];
        FitsUpTo(start, ItemsOf(SavesAmong(front)), ItemFor(key, e));
      }
      SavesLead(key, front, start);
      OneMoreFits(start, ItemsFor(key, front), ItemFor(key, e));
    }
  }

  /** The events list the creation and the saves of a record in their order, among any others. */
  predicate Lists(db: Database, key: Key, versions: seq<Version>, created: bool, events: seq<Event>)
    requires versions != [] && SameKeys(versions)
  {
    SavesAmong(Concerning(db, key, events)) == EventsOf(false, key, versions, created)
  }

  lemma ReportedKind(item: Item, own: seq<Event>, versions: seq<Version>, created: bool)
    requires versions != [] && own != [] && ReportsKind(item, own) && Tells(SavesAmong(own), versions, created)
    ensures item.kind == if created then "create" else "update"
  {
    var saves := SavesAmong(own);
    forall i | 0 <= i < |own| && Makes(own[i])
      ensures created && own[i].kind == "create"
    {
      AllSavesAreAmong(own, i);
    }
    if created {
      assert saves[0] in own && Makes(saves[0]);
      var i :| 0 <= i < |own| && own[i] == saves[0];
      assert Makes(own[i]);
    }
  }

  /**
   A record is created and saved any number of times, among saves of other objects and new, changed and deleted
   articles, its own included. Its item is a creation exactly if the record was created, and its changes take the
   visible attributes from their first to their last state; who, when and which article is as `Reports` says. There is
   no item exactly if nothing visible has happened to it and it has no new article.
   */
  lemma SummedUpAmongOthers(db: Database, key: Key, versions: seq<Version>, created: bool, events: seq<Event>)
    requires versions != [] && SameKeys(versions) && Lists(db, key, versions, created, events)
    requires UniqChanges(db, events).Some? && Exists(db, key)
    ensures var own := Concerning(db, key, events);
      match Lookup(UniqChanges(db, events).value, key)
      case None => own == [] && !created && LastChange(versions) == 0
      case Some(item) =>
        && own != [] && Reports(item, key, own)
        && item.kind == (if created then "create" else "update")
        && Fits(Visible(versions[0].attrs), item.changes)
        && Applied(Visible(versions[0].attrs), item.changes) == Visible(versions[|versions| - 1].attrs)
  {
    var own := Concerning(db, key, events);
    UniqChangesReports(db, key, events);
    EventsTell(key, versions, created);
    if own != [] {
      UniqChangesOf(db, key, events);
      ReportedKind(Folded(ItemsFor(key, own)), own, versions, created);
      SavesFitInTurn(key, versions, created);
      SavesLead(key, own, Visible(versions[0].attrs));
      MergedIsReplay(Visible(versions[0].attrs), ItemsFor(key, own));
    }
  }
}
