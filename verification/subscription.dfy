/**
 The PHP rewrite's Subscription entity (src/Entity/Subscription.php): its
 collection of RSS items, the unread view of it, the two bulk read-state
 statements, and the de-duplicating part of the feed check. Entities are
 values here: the rss_item table maps row ids to rows, and a subscription
 holds the row ids of its collection in collection order. Times are whole
 seconds; "now" is a parameter.
 */
module Subscriptions {
  import opened Wrappers
  import opened Comics

  /** An rss_item row: `sub` is the owning subscription's id, null when cleared. */
  datatype Item = Item(
    guid: string, link: string, title: string, description: string,
    pubDate: Option<int>, readAt: Option<int>, sub: Option<int>)

  /** The rss_item table and its next auto-increment id. */
  datatype Table = Table(rows: map<int, Item>, nextId: int)

  /** Every row id is below the auto-increment counter. */
  predicate WellFormed(t: Table) {
    forall id | id in t.rows :: id < t.nextId
  }

  /** A Subscription entity: its id, its nullable rss_url and the row ids of its rssItems collection. */
  datatype Subscription = Subscription(id: int, rssUrl: Option<string>, items: seq<int>)

  /** Every entry of the collection is a row of the table. */
  predicate InTable(s: Subscription, t: Table) {
    forall k | 0 <= k < |s.items| :: s.items[k] in t.rows
  }

  /**
   The collection and the table agree: the collection lists each row once,
   and it lists exactly the rows whose owner is the subscription.
   */
  predicate Consistent(s: Subscription, t: Table) {
    && InTable(s, t)
    && (forall j, k | 0 <= j < k < |s.items| :: s.items[j] != s.items[k])
    && (forall id | id in t.rows :: t.rows[id].sub == Some(s.id) <==> id in s.items)
  }

  /** The rows of the collection, in collection order. */
  function CollectionItems(s: Subscription, t: Table): (r: seq<Item>)
    requires InTable(s, t)
    ensures |r| == |s.items| && forall k | 0 <= k < |r| :: r[k] == t.rows[s.items[k]]
  {
    seq(|s.items|, k requires 0 <= k < |s.items| => t.rows[s.items[k]])
  }

  // ----- Ordering by publication date -----

  /** PHP's `a <=> b <= 0` on nullable dates: null sorts before every date. */
  predicate PubLe(a: Option<int>, b: Option<int>) {
    a.None? || (b.Some? && a.value <= b.value)
  }

  predicate SortedByPub(s: seq<Item>) {
    forall i, j | 0 <= i < j < |s| :: PubLe(s[i].pubDate, s[j].pubDate)
  }

  /** `x` placed after every element that does not sort after it. */
  function InsertByPub(x: Item, s: seq<Item>): seq<Item>
    decreases |s|
  {
    if |s| == 0 then [x]
    else if !PubLe(s[0].pubDate, x.pubDate) then [x] + s
    else [s[0]] + InsertByPub(x, s[1..])
  }

  /** A stable sort by publication date (PHP's sort is stable since 8.0). */
  function SortByPub(s: seq<Item>): (r: seq<Item>)
    ensures SortedByPub(r)
    ensures multiset(r) == multiset(s)
    decreases |s|
  {
    if |s| == 0 then []
    else
      var init := SortByPub(s[..|s| - 1]);
      InsertByPubSorted(s[|s| - 1], init);
      InsertByPubMultiset(s[|s| - 1], init);
      assert s == s[..|s| - 1] + [s[|s| - 1]];
      InsertByPub(s[|s| - 1], init)
  }

  /** Insertion adds exactly `x`. */
  lemma {:induction false} InsertByPubMultiset(x: Item, s: seq<Item>)
    ensures multiset(InsertByPub(x, s)) == multiset(s) + multiset{x}
    decreases |s|
  {
    if |s| > 0 && PubLe(s[0].pubDate, x.pubDate) {
      InsertByPubMultiset(x, s[1..]);
      assert s == [s[0]] + s[1..];
    }
  }

  /** Inserting into a sorted sequence keeps it sorted. */
  lemma {:induction false} InsertByPubSorted(x: Item, s: seq<Item>)
    requires SortedByPub(s)
    ensures SortedByPub(InsertByPub(x, s))
    decreases |s|
  {
    if |s| > 0 && PubLe(s[0].pubDate, x.pubDate) {
      var tail := InsertByPub(x, s[1..]);
      InsertByPubSorted(x, s[1..]);
      InsertByPubMultiset(x, s[1..]);
      forall y | y in tail
        ensures PubLe(s[0].pubDate, y.pubDate)
      {
        assert y in multiset(tail);
        if y != x {
          assert y in multiset(s[1..]);
        }
      }
      assert forall j | 0 < j < |[s[0]] + tail| :: ([s[0]] + tail)[j] in tail;
    }
  }

  /** The elements with publication date `k`. */
  function HasPub(k: Option<int>): Item -> bool {
    (y: Item) => y.pubDate == k
  }

  /** Keeping from a one-element sequence. */
  lemma KeepSingle<T>(x: T, p: T -> bool, want: bool)
    ensures Keep([x], p, want) == if p(x) == want then [x] else []
  {
    assert [x][..0] == [];
  }

  /** An element that sorts strictly before a sorted sequence shares its date with none of it. */
  lemma BeforeAllDiffers(x: Item, s: seq<Item>)
    requires SortedByPub(s) && |s| > 0 && !PubLe(s[0].pubDate, x.pubDate)
    ensures forall i | 0 <= i < |s| :: s[i].pubDate != x.pubDate
  {
    forall i | 0 < i < |s|
      ensures s[i].pubDate != x.pubDate
    {
      assert PubLe(s[0].pubDate, s[i].pubDate);
    }
  }

  /** Insertion in front of a sorted sequence. */
  lemma InsertInFrontStable(x: Item, s: seq<Item>, k: Option<int>)
    requires SortedByPub(s) && |s| > 0 && !PubLe(s[0].pubDate, x.pubDate)
    ensures Keep([x] + s, HasPub(k), true) == Keep(s, HasPub(k), true) + (if x.pubDate == k then [x] else [])
  {
    KeepConcat([x], s, HasPub(k), true);
    KeepSingle(x, HasPub(k), true);
    if x.pubDate == k {
      BeforeAllDiffers(x, s);
      KeepNone(s, HasPub(k), true);
    }
  }

  /** Insertion past the first element of a sorted sequence. */
  lemma InsertPastHeadStable(x: Item, s: seq<Item>, k: Option<int>)
    requires |s| > 0
    requires Keep(InsertByPub(x, s[1..]), HasPub(k), true) == Keep(s[1..], HasPub(k), true) + (if x.pubDate == k then [x] else [])
    ensures Keep([s[0]] + InsertByPub(x, s[1..]), HasPub(k), true) == Keep(s, HasPub(k), true) + (if x.pubDate == k then [x] else [])
  {
    KeepConcat([s[0]], InsertByPub(x, s[1..]), HasPub(k), true);
    KeepConcat([s[0]], s[1..], HasPub(k), true);
    assert s == [s[0]] + s[1..];
  }

  /** Insertion puts `x` after every element with the same date, so those stay in order. */
  lemma {:induction false} InsertByPubStable(x: Item, s: seq<Item>, k: Option<int>)
    requires SortedByPub(s)
    ensures Keep(InsertByPub(x, s), HasPub(k), true) == Keep(s, HasPub(k), true) + (if x.pubDate == k then [x] else [])
    decreases |s|
  {
    if |s| == 0 {
      KeepSingle(x, HasPub(k), true);
    } else if !PubLe(s[0].pubDate, x.pubDate) {
      InsertInFrontStable(x, s, k);
    } else {
      assert SortedByPub(s[1..]) by {
        assert forall i | 0 <= i < |s[1..]| :: s[1..][i] == s[i + 1];
      }
      InsertByPubStable(x, s[1..], k);
      InsertPastHeadStable(x, s, k);
    }
  }

  /** SortByPub is stable: the items of one date keep their relative order. */
  lemma {:induction false} SortByPubStable(s: seq<Item>, k: Option<int>)
    ensures Keep(SortByPub(s), HasPub(k), true) == Keep(s, HasPub(k), true)
    decreases |s|
  {
    if |s| > 0 {
      SortByPubStable(s[..|s| - 1], k);
      InsertByPubStable(s[|s| - 1], SortByPub(s[..|s| - 1]), k);
    }
  }

  // ----- The unread view -----

  predicate IsUnread(x: Item) {
    x.readAt.None?
  }

  /**
   getUnreadRssItems: exactly the collection's items without a read time,
   each as often as the collection lists it, ordered by publication date
   with the undated ones first.
   */
  function GetUnreadRssItems(s: Subscription, t: Table): (r: seq<Item>)
    requires InTable(s, t)
    ensures SortedByPub(r)
    ensures multiset(r) == multiset(Keep(CollectionItems(s, t), IsUnread, true))
    ensures forall x :: x in r <==> x in CollectionItems(s, t) && x.readAt.None?
  {
    var unread := Keep(CollectionItems(s, t), IsUnread, true);
    SameMembers(SortByPub(unread), unread);
    KeepMembers(CollectionItems(s, t), IsUnread, true);
    SortByPub(unread)
  }

  /** Sequences that are permutations of each other have the same members. */
  lemma SameMembers<T>(a: seq<T>, b: seq<T>)
    requires multiset(a) == multiset(b)
    ensures forall x :: x in a <==> x in b
  {
    forall x
      ensures x in a <==> x in b
    {
      assert x in a <==> x in multiset(a);
      assert x in b <==> x in multiset(b);
    }
  }

  /** Items of one publication date are listed in collection order. */
  lemma UnreadKeepsCollectionOrder(s: Subscription, t: Table, k: Option<int>)
    requires InTable(s, t)
    ensures Keep(GetUnreadRssItems(s, t), HasPub(k), true) == Keep(Keep(CollectionItems(s, t), IsUnread, true), HasPub(k), true)
  {
    SortByPubStable(Keep(CollectionItems(s, t), IsUnread, true), k);
  }

  /** getUnreadCount: the number of unread entries of the collection, sorted or not. */
  function GetUnreadCount(s: Subscription, t: Table): (n: nat)
    requires InTable(s, t)
    ensures n == |Keep(CollectionItems(s, t), IsUnread, true)|
  {
    var r := GetUnreadRssItems(s, t);
    assert |multiset(r)| == |r|;
    |r|
  }

  /** With no unread entry in the collection the count is zero, and conversely. */
  lemma UnreadCountZero(s: Subscription, t: Table)
    requires InTable(s, t)
    ensures GetUnreadCount(s, t) == 0 <==> forall k | 0 <= k < |s.items| :: t.rows[s.items[k]].readAt.Some?
  {
    var all := CollectionItems(s, t);
    var kept := Keep(all, IsUnread, true);
    KeepMembers(all, IsUnread, true);
    assert GetUnreadCount(s, t) == |kept|;
    if |kept| != 0 {
      assert kept[0] in kept;
      var k :| 0 <= k < |all| && all[k] == kept[0];
      assert t.rows[s.items[k]].readAt.None?;
    } else {
      forall k | 0 <= k < |s.items|
        ensures t.rows[s.items[k]].readAt.Some?
      {
        assert all[k] in all && all[k] !in kept;
      }
    }
  }


  /**
   getOldestUnreadItem: null when nothing is unread; otherwise an unread
   item of the collection whose publication date is not after any other
   unread item's.
   */
  function GetOldestUnreadItem(s: Subscription, t: Table): (r: Option<Item>)
    requires InTable(s, t)
    ensures r.None? <==> forall k | 0 <= k < |s.items| :: t.rows[s.items[k]].readAt.Some?
    ensures r.Some? ==>
      && r.value in CollectionItems(s, t) && r.value.readAt.None?
      && forall k | 0 <= k < |s.items| && t.rows[s.items[k]].readAt.None? :: PubLe(r.value.pubDate, t.rows[s.items[k]].pubDate)
  {
    var unread := GetUnreadRssItems(s, t);
    UnreadCountZero(s, t);
    if |unread| == 0 then None
    else
      assert unread[0] in unread;
      assert forall k | 0 <= k < |s.items| && t.rows[s.items[k]].readAt.None? :: CollectionItems(s, t)[k] in unread;
      assert forall y | y in unread :: y == unread[0] || PubLe(unread[0].pubDate, y.pubDate);
      Some(unread[0])
  }

  // ----- Collection maintenance -----

  /**
   addRssItem: an item already in the collection changes nothing; any other
   is appended and its owner set to this subscription.
   */
  function AddRssItem(s: Subscription, t: Table, id: int): (r: (Subscription, Table))
    requires id in t.rows
    ensures id in s.items ==> r == (s, t)
    ensures id !in s.items ==>
      && r.0 == s.(items := s.items + [id])
      && r.1.nextId == t.nextId && r.1.rows.Keys == t.rows.Keys
      && r.1.rows[id] == t.rows[id].(sub := Some(s.id))
      && forall other | other in t.rows && other != id :: r.1.rows[other] == t.rows[other]
  {
    if id in s.items then (s, t)
    else (s.(items := s.items + [id]), t.(rows := t.rows[id := t.rows[id].(sub := Some(s.id))]))
  }

  /** Adding twice is adding once. */
  lemma AddRssItemIdempotent(s: Subscription, t: Table, id: int)
    requires id in t.rows
    ensures var once := AddRssItem(s, t, id);
      AddRssItem(once.0, once.1, id) == once
  {
  }

  /** Adding keeps the collection and the table in agreement. */
  lemma AddRssItemKeepsConsistent(s: Subscription, t: Table, id: int)
    requires id in t.rows && Consistent(s, t)
    requires t.rows[id].sub.None?
    ensures var r := AddRssItem(s, t, id); Consistent(r.0, r.1)
  {
  }

  /** The collection without its first occurrence of `x`. */
  function RemoveFirst(items: seq<int>, x: int): (r: seq<int>)
    ensures x !in items ==> r == items
    ensures x in items ==> |r| == |items| - 1 && multiset(r) == multiset(items) - multiset{x}
  {
    if |items| == 0 then []
    else
      assert items == [items[0]] + items[1..];
      if items[0] == x then items[1..]
      else [items[0]] + RemoveFirst(items[1..], x)
  }

  /**
   removeRssItem: takes the item out of the collection; only if it was there
   and its owner is still this subscription does the owner become null.
   */
  function RemoveRssItem(s: Subscription, t: Table, id: int): (r: (Subscription, Table))
    requires id in t.rows
    ensures id !in s.items ==> r == (s, t)
    ensures id in s.items ==>
      && r.0 == s.(items := RemoveFirst(s.items, id))
      && r.1.nextId == t.nextId && r.1.rows.Keys == t.rows.Keys
      && r.1.rows[id] == (if t.rows[id].sub == Some(s.id) then t.rows[id].(sub := None) else t.rows[id])
      && forall other | other in t.rows && other != id :: r.1.rows[other] == t.rows[other]
  {
    if id !in s.items then (s, t)
    else
      var s' := s.(items := RemoveFirst(s.items, id));
      if t.rows[id].sub == Some(s.id) then (s', t.(rows := t.rows[id := t.rows[id].(sub := None)]))
      else (s', t)
  }

  /** Removing an item that was just added to the collection undoes the addition. */
  lemma RemoveUndoesAdd(s: Subscription, t: Table, id: int)
    requires id in t.rows && id !in s.items && t.rows[id].sub.None?
    ensures var a := AddRssItem(s, t, id); RemoveRssItem(a.0, a.1, id) == (s, t)
  {
    var a := AddRssItem(s, t, id);
    RemoveFirstOfAppended(s.items, id);
    assert a.1.rows[id := t.rows[id]] == t.rows;
  }

  lemma {:induction false} RemoveFirstOfAppended(items: seq<int>, x: int)
    requires x !in items
    ensures RemoveFirst(items + [x], x) == items
    decreases |items|
  {
    if |items| == 0 {
      assert items + [x] == [x];
    } else {
      RemoveFirstOfAppended(items[1..], x);
      assert (items + [x])[1..] == items[1..] + [x];
      assert items == [items[0]] + items[1..];
    }
  }

  // ----- Bulk read state -----

  /**
   markAllRssAsRead: every row of the subscription without a read time gets
   `now`; rows already read keep their time; other rows are unchanged.
   */
  function MarkAllRssAsRead(t: Table, subId: int, now: int): (r: Table)
    ensures r.nextId == t.nextId && r.rows.Keys == t.rows.Keys
    ensures forall id | id in t.rows ::
      r.rows[id] == (if t.rows[id].sub == Some(subId) && t.rows[id].readAt.None? then t.rows[id].(readAt := Some(now)) else t.rows[id])
  {
    t.(rows := map id | id in t.rows ::
      if t.rows[id].sub == Some(subId) && t.rows[id].readAt.None? then t.rows[id].(readAt := Some(now)) else t.rows[id])
  }

  /** markAllRssAsUnread: every row of the subscription loses its read time; other rows are unchanged. */
  function MarkAllRssAsUnread(t: Table, subId: int): (r: Table)
    ensures r.nextId == t.nextId && r.rows.Keys == t.rows.Keys
    ensures forall id | id in t.rows ::
      r.rows[id] == (if t.rows[id].sub == Some(subId) then t.rows[id].(readAt := None) else t.rows[id])
  {
    t.(rows := map id | id in t.rows ::
      if t.rows[id].sub == Some(subId) && t.rows[id].readAt.Some? then t.rows[id].(readAt := None) else t.rows[id])
  }

  /** Marking read again, at any later time, changes nothing: read times are never overwritten. */
  lemma MarkAllReadKeepsFirstTime(t: Table, subId: int, now: int, later: int)
    ensures MarkAllRssAsRead(MarkAllRssAsRead(t, subId, now), subId, later) == MarkAllRssAsRead(t, subId, now)
  {
  }

  /** Marking unread after marking read is marking unread. */
  lemma UnreadUndoesRead(t: Table, subId: int, now: int)
    ensures MarkAllRssAsUnread(MarkAllRssAsRead(t, subId, now), subId) == MarkAllRssAsUnread(t, subId)
  {
  }

  /** When the collection and the table agree, nothing is unread after markAllRssAsRead. */
  lemma MarkAllReadLeavesNothingUnread(s: Subscription, t: Table, now: int)
    requires Consistent(s, t)
    ensures InTable(s, MarkAllRssAsRead(t, s.id, now))
    ensures GetUnreadCount(s, MarkAllRssAsRead(t, s.id, now)) == 0
  {
    var t' := MarkAllRssAsRead(t, s.id, now);
    UnreadCountZero(s, t');
    forall k | 0 <= k < |s.items|
      ensures t'.rows[s.items[k]].readAt.Some?
    {
      var id := s.items[k];
      assert id in s.items && id in t.rows;
      assert t.rows[id].sub == Some(s.id);
    }
  }

  /** When the collection and the table agree, everything is unread after markAllRssAsUnread. */
  lemma MarkAllUnreadLeavesAllUnread(s: Subscription, t: Table)
    requires Consistent(s, t)
    ensures InTable(s, MarkAllRssAsUnread(t, s.id))
    ensures GetUnreadCount(s, MarkAllRssAsUnread(t, s.id)) == |s.items|
  {
    var t' := MarkAllRssAsUnread(t, s.id);
    var all := CollectionItems(s, t');
    forall k | 0 <= k < |s.items|
      ensures IsUnread(all[k])
    {
      var id := s.items[k];
      assert id in s.items && id in t.rows;
      assert t.rows[id].sub == Some(s.id);
    }
    KeepAll(all, IsUnread);
  }

  /** Nothing is dropped when every element is on the wanted side. */
  lemma {:induction false} KeepAll<T>(s: seq<T>, p: T -> bool)
    requires forall i | 0 <= i < |s| :: p(s[i])
    ensures Keep(s, p, true) == s
    decreases |s|
  {
    if |s| > 0 {
      KeepAll(s[..|s| - 1], p);
      assert s == s[..|s| - 1] + [s[|s| - 1]];
    }
  }

  // ----- checkRssFeed -----

  /**
   One <item> of the fetched feed: `guid` is null when the element is
   absent; `pubDate` is what DateTime makes of the raw text, null when it
   throws.
   */
  datatype FeedItem = FeedItem(
    title: string, description: string, link: string, guid: Option<string>, pubDate: Option<int>)

  /** What the HTTP client returned: the status and, if the body parsed as XML, its items. */
  datatype Fetched = Fetched(status: int, parsed: Option<seq<FeedItem>>)

  /** Why the check raises: a null rss_url fails the client's string-typed URL parameter, then the status and the parse. */
  datatype FeedError = NoUrl | HttpStatus(code: int) | Unparseable

  /** `guid ?? link`. */
  function GuidOf(e: FeedItem): string {
    e.guid.GetOr(e.link)
  }

  /** The guid column of the table. */
  function Guids(rows: map<int, Item>): set<string> {
    set id | id in rows :: rows[id].guid
  }

  /**
   The repository lookup by guid, over all subscriptions: it finds a row
   exactly when `g` is in the guid column.
   */
  predicate Known(rows: map<int, Item>, g: string): (found: bool)
    ensures found <==> g in Guids(rows)
  {
    exists id | id in rows :: rows[id].guid == g
  }

  /** The row made of feed item `e`: unread, owned by `subId`, dated `now` when its date does not parse. */
  function NewItem(e: FeedItem, subId: int, now: int): Item {
    Item(GuidOf(e), e.link, e.title, e.description, Some(e.pubDate.GetOr(now)), None, Some(subId))
  }

  /** Whether feed item `i` is added: its lookup threw, or it found no row with the guid. */
  predicate Adds(e: FeedItem, i: int, pre: map<int, Item>, failingLookups: set<int>) {
    i in failingLookups || !Known(pre, GuidOf(e))
  }

  /**
   The rows the loop adds, in feed order. The lookup only sees the table as
   it was before the run, since the new items are flushed at the end.
   */
  function FreshItems(entries: seq<FeedItem>, pre: map<int, Item>, failingLookups: set<int>, subId: int, now: int): (r: seq<Item>)
    ensures |r| <= |entries|
    ensures forall x | x in r :: x.readAt.None? && x.sub == Some(subId) && x.pubDate.Some?
    decreases |entries|
  {
    if |entries| == 0 then []
    else
      var n := |entries| - 1;
      FreshItems(entries[..n], pre, failingLookups, subId, now)
      + (if Adds(entries[n], n, pre, failingLookups) then [NewItem(entries[n], subId, now)] else [])
  }

  /** A guid gets a new row iff some feed item with that guid is added. */
  lemma FreshGuids(entries: seq<FeedItem>, pre: map<int, Item>, failingLookups: set<int>, subId: int, now: int, g: string)
    ensures (exists x | x in FreshItems(entries, pre, failingLookups, subId, now) :: x.guid == g)
        <==> exists i | 0 <= i < |entries| :: GuidOf(entries[i]) == g && Adds(entries[i], i, pre, failingLookups)
  {
    FreshGuidsSound(entries, pre, failingLookups, subId, now, g);
    if exists i | 0 <= i < |entries| :: GuidOf(entries[i]) == g && Adds(entries[i], i, pre, failingLookups) {
      var i :| 0 <= i < |entries| && GuidOf(entries[i]) == g && Adds(entries[i], i, pre, failingLookups);
      FreshGuidsComplete(entries, pre, failingLookups, subId, now, i);
    }
  }

  /** Every new row comes from an added feed item with its guid. */
  lemma {:induction false} FreshGuidsSound(entries: seq<FeedItem>, pre: map<int, Item>, failingLookups: set<int>, subId: int, now: int, g: string)
    ensures (exists x | x in FreshItems(entries, pre, failingLookups, subId, now) :: x.guid == g)
        ==> exists i | 0 <= i < |entries| :: GuidOf(entries[i]) == g && Adds(entries[i], i, pre, failingLookups)
    decreases |entries|
  {
    if |entries| > 0 {
      var n := |entries| - 1;
      var init := FreshItems(entries[..n], pre, failingLookups, subId, now);
      var last: seq<Item> := if Adds(entries[n], n, pre, failingLookups) then [NewItem(entries[n], subId, now)] else [];
      assert FreshItems(entries, pre, failingLookups, subId, now) == init + last;
      if exists x: Item | x in init + last :: x.guid == g {
        var x: Item :| x in init + last && x.guid == g;
        if x in init {
          FreshGuidsSound(entries[..n], pre, failingLookups, subId, now, g);
          var i :| 0 <= i < n && GuidOf(entries[..n][i]) == g && Adds(entries[..n][i], i, pre, failingLookups);
          assert entries[i] == entries[..n][i];
        } else {
          assert x in last;
          assert GuidOf(entries[n]) == g && Adds(entries[n], n, pre, failingLookups);
        }
      }
    }
  }

  /** Every added feed item leaves a new row with its guid. */
  lemma {:induction false} FreshGuidsComplete(entries: seq<FeedItem>, pre: map<int, Item>, failingLookups: set<int>, subId: int, now: int, i: int)
    requires 0 <= i < |entries| && Adds(entries[i], i, pre, failingLookups)
    ensures exists x | x in FreshItems(entries, pre, failingLookups, subId, now) :: x.guid == GuidOf(entries[i])
    decreases |entries|
  {
    var n := |entries| - 1;
    var init := FreshItems(entries[..n], pre, failingLookups, subId, now);
    var last: seq<Item> := if Adds(entries[n], n, pre, failingLookups) then [NewItem(entries[n], subId, now)] else [];
    assert FreshItems(entries, pre, failingLookups, subId, now) == init + last;
    if i < n {
      assert entries[..n][i] == entries[i];
      FreshGuidsComplete(entries[..n], pre, failingLookups, subId, now, i);
      var x :| x in init && x.guid == GuidOf(entries[i]);
      assert x in init + last;
    } else {
      assert last[0] in init + last;
    }
  }

  /** The table with `added` appended under consecutive ids from the counter. */
  function AppendRows(t: Table, added: seq<Item>): (r: Table)
    ensures r.nextId == t.nextId + |added|
    ensures forall id :: id in r.rows <==> id in t.rows || t.nextId <= id < t.nextId + |added|
    ensures forall k | 0 <= k < |added| :: r.rows[t.nextId + k] == added[k]
    ensures WellFormed(t) ==> WellFormed(r) && forall id | id in t.rows :: r.rows[id] == t.rows[id]
    decreases |added|
  {
    if |added| == 0 then t
    else
      var init := AppendRows(t, added[..|added| - 1]);
      init.(rows := init.rows[init.nextId := added[|added| - 1]], nextId := init.nextId + 1)
  }

  /** The ids `from`, `from + 1`, ... of `n` new rows. */
  function IdRun(from: int, n: nat): (r: seq<int>)
    ensures |r| == n && forall k | 0 <= k < n :: r[k] == from + k
  {
    seq(n, k requires 0 <= k < n => from + k)
  }

  /**
   checkRssFeed: a null rss_url, a status other than 200, or a body that is
   not XML raises before anything changes. Otherwise every feed item whose guid is not yet
   in the table (or whose lookup threw) becomes a new unread row of this
   subscription, appended to its collection in feed order.
   */
  function CheckRssFeed(s: Subscription, t: Table, fetched: Fetched, now: int, failingLookups: set<int>)
    : (r: Result<(Subscription, Table), FeedError>)
    ensures s.rssUrl.None? ==> r == Err(NoUrl)
    ensures s.rssUrl.Some? && fetched.status != 200 ==> r == Err(HttpStatus(fetched.status))
    ensures s.rssUrl.Some? && fetched.status == 200 && fetched.parsed.None? ==> r == Err(Unparseable)
    ensures r.Ok? <==> s.rssUrl.Some? && fetched.status == 200 && fetched.parsed.Some?
    ensures r.Ok? ==>
      var added := FreshItems(fetched.parsed.value, t.rows, failingLookups, s.id, now);
      && r.value.0 == s.(items := s.items + IdRun(t.nextId, |added|))
      && r.value.1 == AppendRows(t, added)
  {
    if s.rssUrl.None? then Err(NoUrl)
    else if fetched.status != 200 then Err(HttpStatus(fetched.status))
    else if fetched.parsed.None? then Err(Unparseable)
    else
      var added := FreshItems(fetched.parsed.value, t.rows, failingLookups, s.id, now);
      Ok((s.(items := s.items + IdRun(t.nextId, |added|)), AppendRows(t, added)))
  }

  /** An appended row's guid is in the table. */
  lemma AppendedIsKnown(t: Table, added: seq<Item>, k: int)
    requires 0 <= k < |added|
    ensures Known(AppendRows(t, added).rows, added[k].guid)
  {
    assert AppendRows(t, added).rows[t.nextId + k] == added[k];
  }

  /** A guid already in a well-formed table stays in it. */
  lemma AppendKeepsKnown(t: Table, added: seq<Item>, g: string)
    requires WellFormed(t) && Known(t.rows, g)
    ensures Known(AppendRows(t, added).rows, g)
  {
    var id :| id in t.rows && t.rows[id].guid == g;
    assert AppendRows(t, added).rows[id] == t.rows[id];
  }

  /** Every guid of the feed is in the table after a successful run on a well-formed table. */
  lemma CheckedFeedIsKnown(s: Subscription, t: Table, fetched: Fetched, now: int, failingLookups: set<int>, i: int)
    requires WellFormed(t)
    requires CheckRssFeed(s, t, fetched, now, failingLookups).Ok?
    requires 0 <= i < |fetched.parsed.value|
    ensures Known(CheckRssFeed(s, t, fetched, now, failingLookups).value.1.rows, GuidOf(fetched.parsed.value[i]))
  {
    var entries := fetched.parsed.value;
    var g := GuidOf(entries[i]);
    var added := FreshItems(entries, t.rows, failingLookups, s.id, now);
    if Known(t.rows, g) {
      AppendKeepsKnown(t, added, g);
    } else {
      FreshGuids(entries, t.rows, failingLookups, s.id, now, g);
      var x :| x in added && x.guid == g;
      var k :| 0 <= k < |added| && added[k] == x;
      AppendedIsKnown(t, added, k);
    }
  }

  /** With every guid known and no lookup failing, nothing is added. */
  lemma {:induction false} NothingFreshWhenAllKnown(entries: seq<FeedItem>, pre: map<int, Item>, subId: int, now: int)
    requires forall i | 0 <= i < |entries| :: Known(pre, GuidOf(entries[i]))
    ensures FreshItems(entries, pre, {}, subId, now) == []
    decreases |entries|
  {
    if |entries| > 0 {
      var n := |entries| - 1;
      assert forall i | 0 <= i < n :: entries[..n][i] == entries[i];
      NothingFreshWhenAllKnown(entries[..n], pre, subId, now);
    }
  }

  /** Running the check again on the same feed, with no lookup failing, adds nothing. */
  lemma SecondCheckAddsNothing(s: Subscription, t: Table, fetched: Fetched, now: int, failingLookups: set<int>, later: int)
    requires WellFormed(t)
    requires CheckRssFeed(s, t, fetched, now, failingLookups).Ok?
    ensures var first := CheckRssFeed(s, t, fetched, now, failingLookups).value;
      CheckRssFeed(first.0, first.1, fetched, later, {}) == Ok(first)
  {
    var first := CheckRssFeed(s, t, fetched, now, failingLookups).value;
    var entries := fetched.parsed.value;
    forall i | 0 <= i < |entries|
      ensures Known(first.1.rows, GuidOf(entries[i]))
    {
      CheckedFeedIsKnown(s, t, fetched, now, failingLookups, i);
    }
    NothingFreshWhenAllKnown(entries, first.1.rows, s.id, later);
    assert IdRun(first.1.nextId, 0) == [];
    assert first.0.items + [] == first.0.items;
  }

  /** Against an empty table both copies of a repeated item are fresh. */
  lemma BothCopiesFresh(e: FeedItem, now: int)
    ensures FreshItems([e, e], map[], {}, 1, now) == [NewItem(e, 1, now), NewItem(e, 1, now)]
  {
    assert [e, e][..1] == [e] && [e, e][..1][..0] == [];
    assert !Known(map[], GuidOf(e));
    assert FreshItems([e], map[], {}, 1, now) == [NewItem(e, 1, now)];
  }

  /** Against an empty table a single item is fresh. */
  lemma OnlyCopyFresh(e: FeedItem, now: int)
    ensures FreshItems([e], map[], {}, 1, now) == [NewItem(e, 1, now)]
  {
    assert [e][..0] == [];
    assert !Known(map[], GuidOf(e));
  }

  /**
   The lookup sees only the table before the run: a feed that repeats a new
   guid gets two rows for it.
   */
  lemma RepeatedGuidInOneFeedAddedTwice(now: int)
    ensures var e := FeedItem("t", "", "https://x/1", Some("g"), Some(5));
      var r := CheckRssFeed(Subscription(1, Some("u"), []), Table(map[], 1), Fetched(200, Some([e, e])), now, {});
      r.Ok? && r.value.0.items == [1, 2] && r.value.1.rows[1].guid == "g" && r.value.1.rows[2].guid == "g"
  {
    var e := FeedItem("t", "", "https://x/1", Some("g"), Some(5));
    var x := NewItem(e, 1, now);
    var t := Table(map[], 1);
    BothCopiesFresh(e, now);
    var r := CheckRssFeed(Subscription(1, Some("u"), []), t, Fetched(200, Some([e, e])), now, {});
    assert r.value.0.items == [] + IdRun(1, 2) == [1, 2];
    assert r.value.1 == AppendRows(t, [x, x]);
    assert r.value.1.rows[1 + 0] == [x, x][0];
    assert r.value.1.rows[1 + 1] == [x, x][1];
  }

  /** Without a guid element the link is the guid, and an unparseable date becomes `now`. */
  lemma MissingGuidAndDate(now: int)
    ensures var e := FeedItem("t", "", "https://x/1", None, None);
      var r := CheckRssFeed(Subscription(1, Some("u"), []), Table(map[], 1), Fetched(200, Some([e])), now, {});
      r.Ok? && r.value.1.rows[1].guid == "https://x/1" && r.value.1.rows[1].pubDate == Some(now)
  {
    var e := FeedItem("t", "", "https://x/1", None, None);
    var x := NewItem(e, 1, now);
    var t := Table(map[], 1);
    OnlyCopyFresh(e, now);
    var r := CheckRssFeed(Subscription(1, Some("u"), []), t, Fetched(200, Some([e])), now, {});
    assert r.value.1 == AppendRows(t, [x]);
    assert r.value.1.rows[1 + 0] == [x][0];
  }

  /** A throwing lookup still adds the item, even when its guid is already stored. */
  lemma FailedLookupStillAdds(prior: Item, now: int)
    ensures var e := FeedItem("t", "", "l", Some(prior.guid), Some(5));
      var r := CheckRssFeed(Subscription(1, Some("u"), [7]), Table(map[7 := prior], 8), Fetched(200, Some([e])), now, {0});
      r.Ok? && r.value.0.items == [7, 8] && r.value.1.rows[8].guid == prior.guid
  {
    var e := FeedItem("t", "", "l", Some(prior.guid), Some(5));
    var t := Table(map[7 := prior], 8);
    var x := NewItem(e, 1, now);
    assert [e][..0] == [];
    assert Adds(e, 0, t.rows, {0});
    assert FreshItems([e], t.rows, {0}, 1, now) == [x];
    assert IdRun(8, 1) == [8];
    assert AppendRows(t, [x]).rows[8] == x;
  }
}
