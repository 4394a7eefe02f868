/**
 lib/transaction_dispatcher.rb: the events of a transaction are merged to one item per object
 (`get_uniq_changes`), and events are made from the changes of a save (`before_update`).
 */
module EventCoalescing {
  import opened Prelude

  type Id = nat
  type Attribute = string

  /** A stored attribute value; nil is one of them. */
  type Value = int

  datatype Change = Change(before: Value, after: Value)

  type Changes = map<Attribute, Change>

  /** An event as `after_create` and `before_update` put it into the buffer. */
  datatype Event = Event(objectClass: string, kind: string, id: Id, changes: Option<Changes>, userId: int,
                         createdAt: int)

  /** The rows that `find_by` can see: articles with their ticket, and all other objects. */
  datatype Database = Database(articles: map<Id, Id>, objects: set<(string, Id)>)

  datatype Key = Key(objectClass: string, id: Id)

  datatype Item = Item(key: Key, kind: string, userId: int, createdAt: int, changes: Option<Changes>,
                       articleId: Option<Id>)

  /** A new article counts as an update of its ticket; `Raises` is the nil error when that ticket is gone. */
  datatype Resolution = Skipped | Raises | Counts(item: Item)

  const ARTICLE := "Ticket::Article"
  const TICKET := "Ticket"

  function Resolve(db: Database, e: Event): Resolution {
    if e.objectClass == ARTICLE then
      if e.id !in db.articles || e.kind == "update" then Skipped
      else
        var ticket := db.articles[e.id];
        if (TICKET, ticket) !in db.objects then Raises
        else Counts(Item(Key(TICKET, ticket), "update", e.userId, e.createdAt, None, Some(e.id)))
    else if (e.objectClass, e.id) !in db.objects then Skipped
    else Counts(Item(Key(e.objectClass, e.id), e.kind, e.userId, e.createdAt, e.changes, None))
  }

  // ----- Merging -----

  function MergedChanges(a: Changes, b: Changes): Changes {
    map k | k in a.Keys + b.Keys ::
      if k in a && k in b then Change(a[k].before, b[k].after) else if k in a then a[k] else b[k]
  }

  function MergedOptions(a: Option<Changes>, b: Option<Changes>): Option<Changes> {
    if a.None? then b
    else if b.None? then a
    else Some(MergedChanges(a.value, b.value))
  }

  /** An earlier and a later item of the same object in one. */
  function Combine(a: Item, b: Item): Item {
    Item(b.key, if a.kind == "update" then b.kind else a.kind, b.userId, b.createdAt,
         MergedOptions(a.changes, b.changes), if b.articleId.Some? then b.articleId else a.articleId)
  }

  type Store = map<Key, Item>

  function Stored(store: Store, item: Item): Store {
    store[item.key := if item.key in store then Combine(store[item.key], item) else item]
  }

  function CombineStores(a: Store, b: Store): Store {
    map k | k in a.Keys + b.Keys ::
      if k in a && k in b then Combine(a[k], b[k]) else if k in a then a[k] else b[k]
  }

  /** The items of a list of events, one after the other. */
  function Coalesced(items: seq<Item>): Store {
    if items == [] then map[] else Stored(Coalesced(items[..|items| - 1]), items[|items| - 1])
  }

  /** The events that count, resolved; None if one of them raises. */
  function ResolvedAll(db: Database, events: seq<Event>): Option<seq<Item>> {
    if events == [] then Some([])
    else
      var n := |events| - 1;
      match ResolvedAll(db, events[..n])
      case None => None
      case Some(items) =>
        match Resolve(db, events[n])
        case Skipped => Some(items)
        case Raises => None
        case Counts(item) => Some(items + [item])
  }

  lemma {:induction false} RaisesExactly(db: Database, events: seq<Event>)
    ensures ResolvedAll(db, events) == None <==> exists i :: 0 <= i < |events| && Resolve(db, events[i]).Raises?
  {
    if events != [] {
      var n := |events| - 1;
      RaisesExactly(db, events[..n]);
      if i :| 0 <= i < n && Resolve(db, events[i]).Raises? {
        assert events[..n][i] == events[i];
      }
    }
  }

  /** What `get_uniq_changes` yields; None stands for the nil error. What that means is said in EventReports. */
  function UniqChanges(db: Database, events: seq<Event>): Option<Store> {
    match ResolvedAll(db, events)
    case None => None
    case Some(items) => Some(Coalesced(items))
  }

  /** `get_uniq_changes`; the store is changed in place, attribute by attribute. */
  method GetUniqChanges(db: Database, events: seq<Event>) returns (r: Option<Store>)
    ensures r == UniqChanges(db, events)
  {
    var store: Store := map[];
    ghost var items: seq<Item> := [];
    for i := 0 to |events|
      invariant ResolvedAll(db, events[..i]) == Some(items) && store == Coalesced(items)
    {
      var event := events[i];
      assert events[..i + 1][..i] == events[..i];
      var resolution := Resolve(db, event);
      if resolution.Raises? {
        RaisesExactly(db, events);
        return None;
      }
      if resolution.Counts? {
        var item := resolution.item;
        store := StoreItem(store, item);
        assert (items + [item])[..|items|] == items;
        items := items + [item];
      }
    }
    assert events[..|events|] == events;
    return Some(store);
  }

  method StoreItem(store: Store, item: Item) returns (r: Store)
    ensures r == Stored(store, item)
  {
    if item.key !in store {
      return store[item.key := item];
    }
    var entry := store[item.key];
    entry := entry.(key := item.key, userId := item.userId, createdAt := item.createdAt);
    if entry.kind == "update" {
      entry := entry.(kind := item.kind);
    }
    if item.changes.Some? {
      if entry.changes.Some? {
        var changes := MergeInPlace(entry.changes.value, item.changes.value);
        entry := entry.(changes := Some(changes));
      } else {
        entry := entry.(changes := item.changes);
      }
    }
    if item.articleId.Some? {
      entry := entry.(articleId := item.articleId);
    }
    return store[item.key := entry];
  }

  method MergeInPlace(stored: Changes, added: Changes) returns (r: Changes)
    ensures r == MergedChanges(stored, added)
  {
    r := stored;
    var todo := added.Keys;
    while todo != {}
      invariant todo <= added.Keys
      invariant r == MergedChanges(stored, map k | k in added && k !in todo :: added[k])
      decreases todo
    {
      var k :| k in todo;
      if k in r {
        r := r[k := r[k].(after := added[k].after)];
      } else {
        r := r[k := added[k]];
      }
      todo := todo - {k};
    }
    assert (map k | k in added && k !in todo :: added[k]) == added;
  }

  // ----- The laws of merging -----

  lemma CombineIsAssociative(a: Item, b: Item, c: Item)
    ensures Combine(Combine(a, b), c) == Combine(a, Combine(b, c))
  {
    if a.changes.Some? && b.changes.Some? && c.changes.Some? {
      assert MergedChanges(MergedChanges(a.changes.value, b.changes.value), c.changes.value)
          == MergedChanges(a.changes.value, MergedChanges(b.changes.value, c.changes.value));
    }
  }

  /** Coalescing a list of events in two parts and combining the results is coalescing them all. */
  lemma {:induction false} CoalescingComposes(a: seq<Item>, b: seq<Item>)
    ensures Coalesced(a + b) == CombineStores(Coalesced(a), Coalesced(b))
  {
    if b == [] {
      assert a + b == a;
      assert CombineStores(Coalesced(a), map[]) == Coalesced(a);
    } else {
      var n := |b| - 1;
      assert (a + b)[..|a + b| - 1] == a + b[..n];
      CoalescingComposes(a, b[..n]);
      CombineWithOneMore(Coalesced(a), Coalesced(b[..n]), b[n]);
    }
  }

  lemma CombineWithOneMore(a: Store, b: Store, item: Item)
    ensures Stored(CombineStores(a, b), item) == CombineStores(a, Stored(b, item))
  {
    var k := item.key;
    if k in a && k in b {
      CombineIsAssociative(a[k], b[k], item);
    }
  }

  /** The events of one object, in their order. */
  function Of(items: seq<Item>, key: Key): seq<Item> {
    if items == [] then []
    else
      var n := |items| - 1;
      Of(items[..n], key) + if items[n].key == key then [items[n]] else []
  }

  /** All items of one object in one. */
  function Folded(own: seq<Item>): Item
    requires own != []
  {
    var n := |own| - 1;
    if n == 0 then own[0] else Combine(Folded(own[..n]), own[n])
  }

  lemma FoldedOneMore(own: seq<Item>, item: Item)
    ensures Folded(own + [item]) == if own == [] then item else Combine(Folded(own), item)
  {
    assert (own + [item])[..|own|] == own;
  }

  /** The fold of an object's own events, if it has any. */
  function FoldedOrNone(own: seq<Item>): Option<Item> {
    if own == [] then None else Some(Folded(own))
  }

  lemma StoredLookup(store: Store, own: seq<Item>, item: Item, key: Key)
    requires Lookup(store, key) == FoldedOrNone(own)
    ensures Lookup(Stored(store, item), key) == FoldedOrNone(own + if item.key == key then [item] else [])
  {
    if item.key == key {
      FoldedOneMore(own, item);
    } else {
      assert own + [] == own;
    }
  }

  /** What is stored for an object depends on its own events only. */
  lemma {:induction false} CoalescedPerObject(items: seq<Item>, key: Key)
    ensures Lookup(Coalesced(items), key) == FoldedOrNone(Of(items, key))
  {
    if items != [] {
      var front, item := items[..|items| - 1], items[|items| - 1];
      CoalescedPerObject(front, key);
      StoredLookup(Coalesced(front), Of(front, key), item, key);
    }
  }

  /** How the events of different objects are interleaved makes no difference. */
  lemma InterleavingIsIrrelevant(a: seq<Item>, b: seq<Item>)
    requires forall key :: Of(a, key) == Of(b, key)
    ensures Coalesced(a) == Coalesced(b)
  {
    forall key
      ensures Lookup(Coalesced(a), key) == Lookup(Coalesced(b), key)
    {
      CoalescedPerObject(a, key);
      CoalescedPerObject(b, key);
      assert Of(a, key) == Of(b, key);
    }
    SameLookups(Coalesced(a), Coalesced(b));
  }

  // ----- What a merged item says -----

  predicate Mentions(item: Item, a: Attribute) {
    item.changes.Some? && a in item.changes.value
  }

  /** The first kind that is not "update" stays; the last user and time win. */
  lemma {:induction false} FoldedKind(own: seq<Item>, i: nat)
    requires i < |own| && forall k :: 0 <= k < i ==> own[k].kind == "update"
    requires own[i].kind != "update" || i == |own| - 1
    ensures Folded(own).kind == own[i].kind
    ensures Folded(own).userId == own[|own| - 1].userId && Folded(own).createdAt == own[|own| - 1].createdAt
  {
    var n := |own| - 1;
    if n > 0 {
      FoldedKind(own[..n], if i < n then i else n - 1);
    }
  }

  /** A merged pair is the first value before and the last value after. */
  lemma {:induction false} FoldedChange(own: seq<Item>, a: Attribute, first: nat, last: nat)
    requires first <= last < |own| && Mentions(own[first], a) && Mentions(own[last], a)
    requires forall k :: 0 <= k < first ==> !Mentions(own[k], a)
    requires forall k :: last < k < |own| ==> !Mentions(own[k], a)
    ensures Mentions(Folded(own), a)
    ensures Folded(own).changes.value[a] == Change(own[first].changes.value[a].before, own[last].changes.value[a].after)
  {
    var n := |own| - 1;
    if n > 0 {
      if last < n {
        FoldedChange(own[..n], a, first, last);
      } else if first < n {
        var middle := LastMention(own[..n], a, first);
        FoldedChange(own[..n], a, first, middle);
      } else {
        UnmentionedStays(own[..n], a);
      }
    }
  }

  lemma {:induction false} LastMention(own: seq<Item>, a: Attribute, first: nat) returns (last: nat)
    requires first < |own| && Mentions(own[first], a)
    ensures first <= last < |own| && Mentions(own[last], a)
    ensures forall k :: last < k < |own| ==> !Mentions(own[k], a)
  {
    last := |own| - 1;
    while !Mentions(own[last], a)
      invariant first <= last < |own| && forall k :: last < k < |own| ==> !Mentions(own[k], a)
      decreases last
    {
      last := last - 1;
    }
  }

  lemma {:induction false} UnmentionedStays(own: seq<Item>, a: Attribute)
    requires own != [] && forall k :: 0 <= k < |own| ==> !Mentions(own[k], a)
    ensures !Mentions(Folded(own), a)
  {
    var n := |own| - 1;
    if n > 0 {
      UnmentionedStays(own[..n], a);
    }
  }

  /** The last article wins. */
  lemma {:induction false} FoldedArticle(own: seq<Item>, i: nat)
    requires i < |own| && forall k :: i < k < |own| ==> own[k].articleId.None?
    requires own[i].articleId.Some? || i == 0
    ensures Folded(own).articleId == own[i].articleId
  {
    var n := |own| - 1;
    if n > 0 && i < n {
      FoldedArticle(own[..n], i);
    }
  }

  // ----- Replay -----

  type Attributes = map<Attribute, Value>

  /** The before-values are the current ones. */
  predicate Fits(attrs: Attributes, changes: Option<Changes>) {
    changes.Some? ==> forall a :: a in changes.value ==> a in attrs && attrs[a] == changes.value[a].before
  }

  function Applied(attrs: Attributes, changes: Option<Changes>): Attributes {
    if changes.None? then attrs else attrs + map a | a in changes.value :: changes.value[a].after
  }

  function Replayed(attrs: Attributes, own: seq<Item>): Attributes {
    if own == [] then attrs
    else Applied(Replayed(attrs, own[..|own| - 1]), own[|own| - 1].changes)
  }

  predicate FitsInTurn(attrs: Attributes, own: seq<Item>) {
    forall i :: 0 <= i < |own| ==> Fits(Replayed(attrs, own[..i]), own[i].changes)
  }

  /** Applying an object's merged changes once has the effect of replaying all its updates. */
  lemma {:induction false} MergedIsReplay(attrs: Attributes, own: seq<Item>)
    requires own != [] && FitsInTurn(attrs, own)
    ensures Fits(attrs, Folded(own).changes)
    ensures Applied(attrs, Folded(own).changes) == Replayed(attrs, own)
  {
    var n := |own| - 1;
    if n == 0 {
      assert own[..0] == [];
    } else {
      var front := own[..n];
      forall i | 0 <= i < n
        ensures Fits(Replayed(attrs, front[..i]), front[i].changes)
      {
        assert front[..i] == own[..i];
      }
      MergedIsReplay(attrs, front);
      ApplyMerged(attrs, Folded(front).changes, own[n].changes);
    }
  }

  lemma ApplyMerged(attrs: Attributes, a: Option<Changes>, b: Option<Changes>)
    requires Fits(attrs, a) && Fits(Applied(attrs, a), b)
    ensures Fits(attrs, MergedOptions(a, b))
    ensures Applied(attrs, MergedOptions(a, b)) == Applied(Applied(attrs, a), b)
  {
    if a.Some? && b.Some? {
      var merged := MergedChanges(a.value, b.value);
      assert Fits(attrs, Some(merged)) by {
        forall k | k in merged
          ensures k in attrs && attrs[k] == merged[k].before
        {
          if k !in a.value { assert Applied(attrs, a)[k] == attrs[k]; }
        }
      }
      AppliedTwice(attrs, a.value, b.value);
    }
  }

  lemma AppliedAt(attrs: Attributes, changes: Changes, k: Attribute)
    ensures Lookup(Applied(attrs, Some(changes)), k)
         == if k in changes then Some(changes[k].after) else Lookup(attrs, k)
  {
  }

  lemma AppliedTwice(attrs: Attributes, a: Changes, b: Changes)
    ensures Applied(attrs, Some(MergedChanges(a, b))) == Applied(Applied(attrs, Some(a)), Some(b))
  {
    var once, twice := Applied(attrs, Some(MergedChanges(a, b))), Applied(Applied(attrs, Some(a)), Some(b));
    forall k
      ensures Lookup(once, k) == Lookup(twice, k)
    {
      AppliedAt(attrs, MergedChanges(a, b), k);
      AppliedAt(Applied(attrs, Some(a)), b, k);
      AppliedAt(attrs, a, k);
    }
    SameLookups(once, twice);
  }

  // ----- From saves to items -----

  predicate Ignored(a: Attribute) {
    a == "updated_at" || a == "article_count" || a == "create_article_type_id" || a == "create_article_sender_id"
  }

  function RealChanges(was: Attributes, now: Attributes): Changes
    requires was.Keys == now.Keys
  {
    map a | a in was && was[a] != now[a] && !Ignored(a) :: Change(was[a], now[a])
  }

  /** `before_update`: no event in import mode, nor if nothing that counts has changed. */
  function BeforeUpdate(importMode: bool, key: Key, was: Attributes, now: Attributes, userId: int, at: int)
    : Option<Event>
    requires was.Keys == now.Keys
  {
    if importMode || RealChanges(was, now) == map[] then None
    else Some(Event(key.objectClass, "update", key.id, Some(RealChanges(was, now)), userId, at))
  }

  /** `after_create` */
  function AfterCreate(importMode: bool, key: Key, userId: int, at: int): Option<Event> {
    if importMode then None else Some(Event(key.objectClass, "create", key.id, None, userId, at))
  }

  /** The attributes of a record as somebody has saved them. */
  datatype Version = Version(attrs: Attributes, userId: int, at: int)

  predicate SameKeys(versions: seq<Version>) {
    forall i :: 0 <= i < |versions| ==> versions[i].attrs.Keys == versions[0].attrs.Keys
  }

  function AsList(e: Option<Event>): seq<Event> {
    match e case None => [] case Some(event) => [event]
  }

  /** The events of a record whose versions are saved one after the other; the first may be its creation. */
  function EventsOf(importMode: bool, key: Key, versions: seq<Version>, created: bool): (events: seq<Event>)
    requires versions != [] && SameKeys(versions)
    ensures forall i :: 0 <= i < |events| ==> events[i].objectClass == key.objectClass && events[i].id == key.id
  {
    var n := |versions| - 1;
    var now := versions[n];
    if n == 0 then
      if created then AsList(AfterCreate(importMode, key, now.userId, now.at)) else []
    else
      EventsOf(importMode, key, versions[..n], created)
      + AsList(BeforeUpdate(importMode, key, versions[n - 1].attrs, now.attrs, now.userId, now.at))
  }

  /** In import mode nothing is recorded. */
  lemma {:induction false} NoEventsInImportMode(key: Key, versions: seq<Version>, created: bool)
    requires versions != [] && SameKeys(versions)
    ensures EventsOf(true, key, versions, created) == []
  {
    if |versions| > 1 {
      Front(versions);
      NoEventsInImportMode(key, versions[..|versions| - 1], created);
    }
  }

  const INVISIBLE: set<Attribute> :=
    {"article_count", "create_article_sender_id", "create_article_type_id", "updated_at"}

  /** The attributes that notifications are about. */
  function Visible(attrs: Attributes): Attributes {
    attrs - INVISIBLE
  }

  function ItemsOf(events: seq<Event>): (items: seq<Item>)
    ensures |items| == |events|
  {
    seq(|events|, i requires 0 <= i < |events| =>
      Item(Key(events[i].objectClass, events[i].id), events[i].kind, events[i].userId, events[i].createdAt,
           events[i].changes, None))
  }

  /** Replayed one after the other, the items fit and lead from `start` to `finish`. */
  predicate LeadsTo(start: Attributes, own: seq<Item>, finish: Attributes) {
    FitsInTurn(start, own) && Replayed(start, own) == finish
  }

  lemma Front(versions: seq<Version>)
    requires |versions| > 1 && SameKeys(versions)
    ensures var front := versions[..|versions| - 1];
      SameKeys(front) && front[0] == versions[0] && front[|front| - 1] == versions[|versions| - 2]
  {
  }

  lemma CreationLeadsNowhere(start: Attributes, events: seq<Event>)
    requires |events| <= 1 && forall i :: 0 <= i < |events| ==> events[i].changes == None
    ensures LeadsTo(start, ItemsOf(events), start)
  {
    var own := ItemsOf(events);
    if events == [] {
      assert own == [];
    } else {
      assert own == [own[0]] && own[0].changes == None;
      assert own[..0] == [];
    }
  }

  lemma {:induction false} SavesFitInTurn(key: Key, versions: seq<Version>, created: bool)
    requires versions != [] && SameKeys(versions)
    ensures LeadsTo(Visible(versions[0].attrs), ItemsOf(EventsOf(false, key, versions, created)),
                    Visible(versions[|versions| - 1].attrs))
  {
    var n := |versions| - 1;
    if n == 0 {
      CreationLeadsNowhere(Visible(versions[0].attrs), EventsOf(false, key, versions, created));
    } else {
      Front(versions);
      SavesFitInTurn(key, versions[..n], created);
      var own := ItemsOf(EventsOf(false, key, versions[..n], created));
      var added := OneMoreEvent(key, versions, created);
      OneMoreVersion(Visible(versions[0].attrs), own, added, versions[n - 1].attrs, versions[n].attrs);
    }
  }

  lemma OneMoreVersion(start: Attributes, own: seq<Item>, added: seq<Item>, was: Attributes, now: Attributes)
    requires LeadsTo(start, own, Visible(was)) && was.Keys == now.Keys
    requires if RealChanges(was, now) == map[] then added == []
             else |added| == 1 && added[0].changes == Some(RealChanges(was, now))
    ensures LeadsTo(start, own + added, Visible(now))
  {
    OneMoreSave(was, now);
    if added == [] {
      assert own + added == own;
    } else {
      assert added == [added[0]];
      OneMoreFits(start, own, added[0]);
    }
  }

  lemma ItemsOfConcat(a: seq<Event>, b: seq<Event>)
    ensures ItemsOf(a + b) == ItemsOf(a) + ItemsOf(b)
  {
  }

  lemma OneMoreEvent(key: Key, versions: seq<Version>, created: bool) returns (added: seq<Item>)
    requires |versions| > 1 && SameKeys(versions)
    ensures var n := |versions| - 1;
      var changes := RealChanges(versions[n - 1].attrs, versions[n].attrs);
      ItemsOf(EventsOf(false, key, versions, created)) == ItemsOf(EventsOf(false, key, versions[..n], created)) + added
      && if changes == map[] then added == [] else |added| == 1 && added[0].changes == Some(changes)
  {
    var n := |versions| - 1;
    var event := BeforeUpdate(false, key, versions[n - 1].attrs, versions[n].attrs, versions[n].userId,
                              versions[n].at);
    added := ItemsOf(AsList(event));
    ItemsOfConcat(EventsOf(false, key, versions[..n], created), AsList(event));
  }

  lemma OneMoreSave(was: Attributes, now: Attributes)
    requires was.Keys == now.Keys
    ensures Fits(Visible(was), Some(RealChanges(was, now)))
    ensures Applied(Visible(was), Some(RealChanges(was, now))) == Visible(now)
    ensures RealChanges(was, now) == map[] <==> Visible(was) == Visible(now)
  {
    if RealChanges(was, now) == map[] {
      OnlyIgnoredChanged(was, now);
    } else {
      var a :| a in RealChanges(was, now);
      assert Visible(was)[a] != Visible(now)[a];
    }
  }

  lemma OneMoreFits(attrs: Attributes, own: seq<Item>, item: Item)
    requires FitsInTurn(attrs, own) && Fits(Replayed(attrs, own), item.changes)
    ensures FitsInTurn(attrs, own + [item])
    ensures Replayed(attrs, own + [item]) == Applied(Replayed(attrs, own), item.changes)
  {
    var more := own + [item];
    assert more[..|own|] == own;
    forall i | 0 <= i < |more|
      ensures Fits(Replayed(attrs, more[..i]), more[i].changes)
    {
      if i < |own| {
        assert more[..i] == own[..i];
      }
    }
  }

  lemma OnlyIgnoredChanged(was: Attributes, now: Attributes)
    requires was.Keys == now.Keys && RealChanges(was, now) == map[]
    ensures Visible(was) == Visible(now)
  {
    forall a | a in was && a !in INVISIBLE
      ensures was[a] == now[a]
    {
      assert a !in RealChanges(was, now);
    }
  }

  // ----- Who did it, and whether anything happened -----

  /** The last version that differs visibly from the one before it; the first one if none does. */
  function LastChange(versions: seq<Version>): (m: nat)
    requires versions != []
    ensures m < |versions|
  {
    var n := |versions| - 1;
    if n == 0 then 0
    else if Visible(versions[n].attrs) != Visible(versions[n - 1].attrs) then n
    else LastChange(versions[..n])
  }

  /** What `EventsOf` yields, apart from the changes. */
  predicate Tells(events: seq<Event>, versions: seq<Version>, created: bool)
    requires versions != []
  {
    && (forall i :: 0 <= i < |events| ==> events[i].kind == if created && i == 0 then "create" else "update")
    && (events == [] <==> !created && LastChange(versions) == 0)
    && (events != [] ==> events[|events| - 1].userId == versions[LastChange(versions)].userId
                         && events[|events| - 1].createdAt == versions[LastChange(versions)].at)
  }

  lemma {:induction false} EventsTell(key: Key, versions: seq<Version>, created: bool)
    requires versions != [] && SameKeys(versions)
    ensures Tells(EventsOf(false, key, versions, created), versions, created)
  {
    var n := |versions| - 1;
    if n > 0 {
      Front(versions);
      EventsTell(key, versions[..n], created);
      var front := EventsOf(false, key, versions[..n], created);
      OneMoreSave(versions[n - 1].attrs, versions[n].attrs);
      var event := BeforeUpdate(false, key, versions[n - 1].attrs, versions[n].attrs, versions[n].userId,
                              versions[n].at);
      if event == None {
        assert front + AsList(event) == front;
        assert versions[..n][LastChange(versions[..n])] == versions[LastChange(versions)];
      }
    }
  }

  /** The item sums up the creation and the saves of a record. */
  predicate SumsUp(item: Item, versions: seq<Version>, created: bool)
    requires versions != []
  {
    && item.kind == (if created then "create" else "update")
    && item.userId == versions[LastChange(versions)].userId && item.createdAt == versions[LastChange(versions)].at
    && Fits(Visible(versions[0].attrs), item.changes)
    && Applied(Visible(versions[0].attrs), item.changes) == Visible(versions[|versions| - 1].attrs)
  }

  lemma FoldSumsUp(own: seq<Item>, events: seq<Event>, versions: seq<Version>, created: bool)
    requires versions != [] && own == ItemsOf(events) && own != [] && Tells(events, versions, created)
    requires LeadsTo(Visible(versions[0].attrs), own, Visible(versions[|versions| - 1].attrs))
    ensures SumsUp(Folded(own), versions, created)
  {
    MergedIsReplay(Visible(versions[0].attrs), own);
    FoldedKind(own, if created then 0 else |own| - 1);
  }

  lemma OwnItem(db: Database, key: Key, events: seq<Event>)
    requires key.objectClass != ARTICLE && (key.objectClass, key.id) in db.objects
    requires forall i :: 0 <= i < |events| ==> events[i].objectClass == key.objectClass && events[i].id == key.id
    ensures ResolvedAll(db, events) == Some(ItemsOf(events))
    ensures Lookup(Coalesced(ItemsOf(events)), key) == FoldedOrNone(ItemsOf(events))
  {
    ResolveOwn(db, key, events);
    OwnOnly(key, ItemsOf(events));
    CoalescedPerObject(ItemsOf(events), key);
  }

  /**
   From the creation and the saves of a record to the item that is dispatched: its merged changes take the visible
   attributes from their first to their last state, it is a creation exactly if the record was created, and it names
   who made the last visible change, and when. There is no item exactly if the record was not created and no save
   changed a visible attribute.
   */
  lemma SavesAreSummedUp(db: Database, key: Key, versions: seq<Version>, created: bool)
    requires versions != [] && SameKeys(versions)
    requires key.objectClass != ARTICLE && (key.objectClass, key.id) in db.objects
    ensures var events := EventsOf(false, key, versions, created);
      && ResolvedAll(db, events) == Some(ItemsOf(events))
      && match Lookup(Coalesced(ItemsOf(events)), key)
         case None => !created && LastChange(versions) == 0
         case Some(item) => (created || LastChange(versions) > 0) && SumsUp(item, versions, created)
  {
    var events := EventsOf(false, key, versions, created);
    OwnItem(db, key, events);
    EventsTell(key, versions, created);
    if events != [] {
      SavesFitInTurn(key, versions, created);
      FoldSumsUp(ItemsOf(events), events, versions, created);
    }
  }

  lemma {:induction false} ResolveOwn(db: Database, key: Key, events: seq<Event>)
    requires key.objectClass != ARTICLE && (key.objectClass, key.id) in db.objects
    requires forall i :: 0 <= i < |events| ==> events[i].objectClass == key.objectClass && events[i].id == key.id
    ensures ResolvedAll(db, events) == Some(ItemsOf(events))
  {
    if events != [] {
      var n := |events| - 1;
      ResolveOwn(db, key, events[..n]);
      assert ItemsOf(events) == ItemsOf(events[..n]) + [ItemsOf(events)[n]];
    } else {
      assert ItemsOf(events) == [];
    }
  }

  lemma {:induction false} OwnOnly(key: Key, items: seq<Item>)
    requires forall i :: 0 <= i < |items| ==> items[i].key == key
    ensures Of(items, key) == items
  {
    if items != [] {
      var n := |items| - 1;
      var front := items[..n];
      assert items[n].key == key && items == front + [items[n]];
      OwnOnly(key, front);
    }
  }
}
