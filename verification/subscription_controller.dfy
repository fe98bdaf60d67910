/**
 The read-state endpoints of src/Controller/SubscriptionController.php:
 readAll, readAllBefore and unread, each as a transition of the rss_item
 table. The subscription repository is a map from id to subscription; the
 message bus is modelled by the list of item ids the handler dispatches;
 "now" and the database's CURRENT_TIMESTAMP are one parameter.
 */
module SubscriptionApi {
  import opened Wrappers
  import opened Subscriptions

  /** The subscription repository: id to entity. */
  type Repository = map<int, Subscription>

  /** Every subscription's collection lists rows of the table. */
  predicate Loaded(subs: Repository, t: Table) {
    forall id | id in subs :: InTable(subs[id], t)
  }

  datatype Response =
    | NotFound(error: string)
    | Accepted
    | Updated(update: nat)
    | UnreadList(items: seq<Item>)
    | ServerError

  const SubscriptionNotFound: string := "Subscription not found"

  /** Every row of `ids` gets read time `now`, whatever it had; other rows are kept. */
  function SetReadAt(t: Table, ids: seq<int>, now: int): (r: Table)
    ensures r.nextId == t.nextId && r.rows.Keys == t.rows.Keys
    ensures forall id | id in t.rows :: r.rows[id] == (if id in ids then t.rows[id].(readAt := Some(now)) else t.rows[id])
  {
    t.(rows := map id | id in t.rows :: if id in ids then t.rows[id].(readAt := Some(now)) else t.rows[id])
  }

  /**
   readAll: an unknown subscription is a 404 with an error body and changes
   nothing. Otherwise every item of its collection gets read time now, even
   one already read, an ItemReadMessage is dispatched per item in collection
   order, and the answer is 202.
   */
  function ReadAll(subs: Repository, t: Table, subId: int, now: int): (r: (Table, seq<int>, Response))
    requires Loaded(subs, t)
    ensures subId !in subs ==> r == (t, [], NotFound(SubscriptionNotFound))
    ensures subId in subs ==>
      && r.2 == Accepted && r.1 == subs[subId].items
      && r.0.nextId == t.nextId && r.0.rows.Keys == t.rows.Keys
      && (forall k | 0 <= k < |subs[subId].items| :: r.0.rows[subs[subId].items[k]] == t.rows[subs[subId].items[k]].(readAt := Some(now)))
      && (forall id | id in t.rows && id !in subs[subId].items :: r.0.rows[id] == t.rows[id])
  {
    if subId !in subs then (t, [], NotFound(SubscriptionNotFound))
    else
      var s := subs[subId];
      (SetReadAt(t, s.items, now), s.items, Accepted)
  }

  /** After readAll the subscription has nothing unread. */
  lemma ReadAllLeavesNothingUnread(subs: Repository, t: Table, subId: int, now: int)
    requires Loaded(subs, t) && subId in subs
    ensures InTable(subs[subId], ReadAll(subs, t, subId, now).0)
    ensures GetUnreadCount(subs[subId], ReadAll(subs, t, subId, now).0) == 0
  {
    var s := subs[subId];
    var t' := ReadAll(subs, t, subId, now).0;
    UnreadCountZero(s, t');
  }

  /** Unlike markAllRssAsRead, readAll overwrites a read time that was already set. */
  lemma ReadAllOverwritesReadTimes()
    ensures var it := Item("g", "l", "", "", None, Some(10), Some(1));
      var t := Table(map[3 := it], 4);
      var subs := map[1 := Subscription(1, None, [3])];
      && ReadAll(subs, t, 1, 20).0.rows[3].readAt == Some(20)
      && MarkAllRssAsRead(t, 1, 20).rows[3].readAt == Some(10)
  {
  }

  /** The rows readAllBefore updates: this subscription's unread rows dated at or before `pivot`. */
  predicate ReadBeforeTarget(x: Item, subId: int, pivot: int) {
    x.sub == Some(subId) && x.readAt.None? && x.pubDate.Some? && x.pubDate.value <= pivot
  }

  /** The ids of the rows the statement updates. */
  function ReadBeforeIds(t: Table, subId: int, pivot: int): set<int> {
    set id | id in t.rows && ReadBeforeTarget(t.rows[id], subId, pivot)
  }

  /** The UPDATE of readAllBefore; a row without a date never matches `pub_date <= :pub_date`. */
  function MarkReadBefore(t: Table, subId: int, pivot: int, now: int): (r: Table)
    ensures r.nextId == t.nextId && r.rows.Keys == t.rows.Keys
    ensures forall id | id in t.rows ::
      r.rows[id] == (if ReadBeforeTarget(t.rows[id], subId, pivot) then t.rows[id].(readAt := Some(now)) else t.rows[id])
  {
    t.(rows := map id | id in t.rows ::
      if ReadBeforeTarget(t.rows[id], subId, pivot) then t.rows[id].(readAt := Some(now)) else t.rows[id])
  }

  /**
   readAllBefore: an unknown subscription is a 404. The pivot item is looked
   up by id in the whole table; a missing pivot or one without a date makes
   the handler dereference null (a server error). Otherwise the statement
   runs and the answer carries the number of rows it updated.
   */
  function ReadAllBefore(subs: Repository, t: Table, subId: int, itemId: int, now: int): (r: (Table, Response))
    ensures subId !in subs ==> r == (t, NotFound(SubscriptionNotFound))
    ensures subId in subs && (itemId !in t.rows || t.rows[itemId].pubDate.None?) ==> r == (t, ServerError)
    ensures subId in subs && itemId in t.rows && t.rows[itemId].pubDate.Some? ==>
      var pivot := t.rows[itemId].pubDate.value;
      && r.0 == MarkReadBefore(t, subs[subId].id, pivot, now)
      && r.1 == Updated(|ReadBeforeIds(t, subs[subId].id, pivot)|)
  {
    if subId !in subs then (t, NotFound(SubscriptionNotFound))
    else if itemId !in t.rows || t.rows[itemId].pubDate.None? then (t, ServerError)
    else
      var pivot := t.rows[itemId].pubDate.value;
      var sid := subs[subId].id;
      (MarkReadBefore(t, sid, pivot, now), Updated(|ReadBeforeIds(t, sid, pivot)|))
  }

  /** The reported count is the number of rows whose contents the statement changed. */
  lemma ReadBeforeCountsChangedRows(t: Table, subId: int, pivot: int, now: int)
    ensures var t' := MarkReadBefore(t, subId, pivot, now);
      ReadBeforeIds(t, subId, pivot) == set id | id in t.rows && t'.rows[id] != t.rows[id]
  {
  }

  /**
   After readAllBefore no row of the subscription dated at or before the
   pivot is unread; rows dated later, undated rows and other subscriptions'
   rows are unchanged.
   */
  lemma ReadBeforeClearsUpToPivot(t: Table, subId: int, pivot: int, now: int)
    ensures var t' := MarkReadBefore(t, subId, pivot, now);
      && (forall id | id in t'.rows && t'.rows[id].sub == Some(subId) && t'.rows[id].pubDate.Some? && t'.rows[id].pubDate.value <= pivot ::
            t'.rows[id].readAt.Some?)
      && (forall id | id in t.rows && (t.rows[id].sub != Some(subId) || t.rows[id].pubDate.None? || t.rows[id].pubDate.value > pivot) ::
            t'.rows[id] == t.rows[id])
  {
  }

  /** Marking read before a pivot twice changes nothing the second time, and counts nothing. */
  lemma ReadBeforeIdempotent(t: Table, subId: int, pivot: int, now: int, later: int)
    ensures var t' := MarkReadBefore(t, subId, pivot, now);
      MarkReadBefore(t', subId, pivot, later) == t' && ReadBeforeIds(t', subId, pivot) == {}
  {
    var t' := MarkReadBefore(t, subId, pivot, now);
    assert forall id | id in t'.rows :: !ReadBeforeTarget(t'.rows[id], subId, pivot);
  }

  /** The pivot may belong to another subscription: only its date is used. */
  lemma PivotFromAnotherSubscription()
    ensures var mine := Item("a", "", "", "", Some(5), None, Some(1));
      var theirs := Item("b", "", "", "", Some(9), None, Some(2));
      var t := Table(map[1 := mine, 2 := theirs], 3);
      var r := ReadAllBefore(map[1 := Subscription(1, None, [1])], t, 1, 2, 100);
      r.1 == Updated(1) && r.0.rows[1].readAt == Some(100) && r.0.rows[2] == theirs
  {
    var mine := Item("a", "", "", "", Some(5), None, Some(1));
    var theirs := Item("b", "", "", "", Some(9), None, Some(2));
    var t := Table(map[1 := mine, 2 := theirs], 3);
    assert ReadBeforeIds(t, 1, 9) == {1};
  }

  /** unread: a 404 for an unknown subscription, else exactly its getUnreadRssItems. */
  function Unread(subs: Repository, t: Table, subId: int): (r: Response)
    requires Loaded(subs, t)
    ensures subId !in subs <==> r == NotFound(SubscriptionNotFound)
    ensures subId in subs ==>
      && r.UnreadList?
      && SortedByPub(r.items)
      && |r.items| == GetUnreadCount(subs[subId], t)
      && forall x :: x in r.items <==> x in CollectionItems(subs[subId], t) && x.readAt.None?
  {
    if subId !in subs then NotFound(SubscriptionNotFound)
    else
      var items := GetUnreadRssItems(subs[subId], t);
      assert |multiset(items)| == |items|;
      UnreadList(items)
  }

  /** After readAll, unread lists nothing for that subscription. */
  lemma UnreadAfterReadAllIsEmpty(subs: Repository, t: Table, subId: int, now: int)
    requires Loaded(subs, t) && subId in subs
    ensures Loaded(subs, ReadAll(subs, t, subId, now).0)
    ensures Unread(subs, ReadAll(subs, t, subId, now).0, subId) == UnreadList([])
  {
    var t' := ReadAll(subs, t, subId, now).0;
    ReadAllLeavesNothingUnread(subs, t, subId, now);
  }
}
