/**
 The RSS side of pkg/comics/rss.go: turning a parsed feed into items of a
 comic, storing a new item, reading a comic's known items, and marking an
 item read. The feed parser and the network are not modelled: the parsed
 feed (or the parser's error) is an input.
 */
module Rss {
  import opened Wrappers
  import opened Comics
  import opened ComicDb

  /** One entry of a parsed feed: what the parser reports for it; `posted` may be missing. */
  datatype FeedEntry = FeedEntry(posted: Option<int>, guid: string, title: string, link: string)

  /** The parser's or the network's failure, which the model does not look inside. */
  datatype FeedError = FeedError

  /** The item FetchRssFeed makes of one feed entry for comic `c`. */
  function ItemOfEntry(c: ComicRecord, e: FeedEntry): RssItem {
    RssItem(0, c.userId, c.id, e.posted, e.guid, false, e.title, e.link)
  }

  /**
   FetchRssFeed: a comic without an RSS URL has no items and nothing is
   fetched; otherwise the parser's error is returned, or one unread,
   unsaved item per feed entry, in feed order.
   */
  function FetchRssFeed(c: ComicRecord, parsed: Result<seq<FeedEntry>, FeedError>): (r: Result<seq<RssItem>, FeedError>)
    ensures c.rssUrl.None? ==> r == Ok([])
    ensures c.rssUrl.Some? && parsed.Err? ==> r == Err(parsed.error)
    ensures c.rssUrl.Some? && parsed.Ok? ==>
      && r.Ok? && |r.value| == |parsed.value|
      && forall i | 0 <= i < |r.value| ::
           && r.value[i].id == 0 && !r.value[i].isRead
           && r.value[i].userId == c.userId && r.value[i].webcomicId == c.id
           && r.value[i].guid == parsed.value[i].guid && r.value[i].posted == parsed.value[i].posted
           && r.value[i].title == parsed.value[i].title && r.value[i].link == parsed.value[i].link
  {
    if c.rssUrl.None? then Ok([])
    else if parsed.Err? then Err(parsed.error)
    else Ok(seq(|parsed.value|, i requires 0 <= i < |parsed.value| => ItemOfEntry(c, parsed.value[i])))
  }

  /** The feed entry an item came from: the fields FetchRssFeed copies. */
  function EntryOfItem(x: RssItem): FeedEntry {
    FeedEntry(x.posted, x.guid, x.title, x.link)
  }

  /** The feed can be read back from the items: the mapping loses nothing of the entries. */
  lemma FetchRssFeedLosesNothing(c: ComicRecord, entries: seq<FeedEntry>)
    requires c.rssUrl.Some?
    ensures var r := FetchRssFeed(c, Ok(entries));
      r.Ok? && seq(|r.value|, i requires 0 <= i < |r.value| => EntryOfItem(r.value[i])) == entries
  {
  }

  /** The row Insert writes: posted is not among its columns, and the table assigns the id. */
  function StoredItem(x: RssItem, id: int): RssItem {
    x.(id := id, posted := None)
  }

  /**
   Insert: writes user, comic, guid, read flag, link and title of the item
   as a new row; nothing is written when the statement fails.
   */
  function Insert(st: Store, x: RssItem, failing: set<Stmt>): (r: (Store, Outcome<DbError>))
    ensures InsertItem in failing ==> r == (st, Fail(DbError(InsertItem)))
    ensures InsertItem !in failing ==>
      && r.1 == Pass
      && r.0 == st.(items := st.items + [StoredItem(x, st.nextItemId)], nextItemId := st.nextItemId + 1)
  {
    if InsertItem in failing then (st, Fail(DbError(InsertItem)))
    else (st.(items := st.items + [StoredItem(x, st.nextItemId)], nextItemId := st.nextItemId + 1), Pass)
  }

  /** An insert keeps item ids positive, distinct and below the counter. */
  lemma InsertKeepsWellFormed(st: Store, x: RssItem, failing: set<Stmt>)
    requires WellFormed(st)
    ensures WellFormed(Insert(st, x, failing).0)
  {
  }

  /** The rows of `items` of user `u` and comic `comicId`, in table order. */
  function ItemsOf(items: seq<RssItem>, u: int, comicId: int): (r: seq<RssItem>)
    ensures forall x | x in r :: x in items && x.userId == u && x.webcomicId == comicId
    ensures forall x | x in items && x.userId == u && x.webcomicId == comicId :: x in r
  {
    if |items| == 0 then []
    else (if items[0].userId == u && items[0].webcomicId == comicId then [items[0]] else []) + ItemsOf(items[1..], u, comicId)
  }

  /**
   FetchKnownRssItems: every stored item of the comic's (user, comic) pair;
   a comic without items yields the empty list and no error.
   */
  function FetchKnownRssItems(st: Store, c: ComicRecord, failing: set<Stmt>): (r: Result<seq<RssItem>, DbError>)
    ensures SelectKnownItems in failing <==> r.Err?
    ensures r.Ok? ==> forall x :: x in r.value <==> x in st.items && x.userId == c.userId && x.webcomicId == c.id
    ensures r.Ok? && (forall i | 0 <= i < |st.items| :: !(st.items[i].userId == c.userId && st.items[i].webcomicId == c.id)) ==> r.value == []
  {
    if SelectKnownItems in failing then Err(DbError(SelectKnownItems))
    else
      var r := ItemsOf(st.items, c.userId, c.id);
      assert r != [] ==> r[0] in r;
      Ok(r)
  }

  /** MarkRead's statement: every stored item with the guid is read, whoever it belongs to. */
  function SetGuidRead(items: seq<RssItem>, guid: string): seq<RssItem> {
    seq(|items|, i requires 0 <= i < |items| => if items[i].guid == guid then items[i].(isRead := true) else items[i])
  }

  /**
   MarkRead: marks read every stored item that shares the item's guid, of
   any user and any comic; other items and the comics are unchanged.
   */
  function MarkRead(st: Store, x: RssItem, failing: set<Stmt>): (r: (Store, Outcome<DbError>))
    ensures MarkGuidRead in failing ==> r == (st, Fail(DbError(MarkGuidRead)))
    ensures MarkGuidRead !in failing ==>
      && r.1 == Pass && r.0.comics == st.comics && |r.0.items| == |st.items|
      && r.0.nextItemId == st.nextItemId && r.0.nextComicId == st.nextComicId
      && forall i | 0 <= i < |st.items| ::
           && r.0.items[i].isRead == (st.items[i].isRead || st.items[i].guid == x.guid)
           && r.0.items[i] == st.items[i].(isRead := r.0.items[i].isRead)
  {
    if MarkGuidRead in failing then (st, Fail(DbError(MarkGuidRead)))
    else (st.(items := SetGuidRead(st.items, x.guid)), Pass)
  }

  /** Marking an item read twice leaves the store as marking it once did. */
  lemma MarkReadIdempotent(st: Store, x: RssItem, failing: set<Stmt>)
    ensures var once := MarkRead(st, x, failing);
      MarkRead(once.0, x, failing) == once
  {
    var once := MarkRead(st, x, failing).0;
    assert MarkRead(once, x, failing).0.items == once.items;
  }

  /** Marking read keeps item ids positive, distinct and below the counter. */
  lemma MarkReadKeepsWellFormed(st: Store, x: RssItem, failing: set<Stmt>)
    requires WellFormed(st)
    ensures WellFormed(MarkRead(st, x, failing).0)
  {
  }

  /** The scope is global: another user's item with the same guid is marked read too. */
  lemma MarkReadCrossesUsers()
    ensures var mine := RssItem(1, 1, 10, None, "g", false, "", "");
      var theirs := RssItem(2, 2, 20, None, "g", false, "", "");
      var st := Store([], [mine, theirs], 1, 3, true, false);
      MarkRead(st, mine, {}).0.items[1].isRead
  {
  }
}
