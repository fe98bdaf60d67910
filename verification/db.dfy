/**
 The webcomic and rss_items tables and the statements of pkg/comics/db.go,
 each statement a function from the old store to the new one. A set of
 failing statements stands for the database errors the Go code handles; a
 failing statement changes nothing, and there is no transaction, so the
 effects of the statements before it remain.
 */
module ComicDb {
  import opened Wrappers
  import opened Comics

  /** Every SQL statement of the core whose error the Go code checks. */
  datatype Stmt =
    | SelectComicById | SelectComicItems
    | SelectJoined
    | UpdateLastRead | MarkComicItemsRead
    | CountConflicts | ShiftOrdinals | ReadRowsAffected
    | InsertComic | ReadLastInsertId
    | SelectKnownItems | InsertItem | MarkGuidRead

  /** The error a failing statement returns. */
  datatype DbError = DbError(stmt: Stmt)

  /**
   The two tables. Rows of `comics` are webcomic rows (their `rssItems` is
   not a column); `nextComicId` and `nextItemId` are the auto-increment
   counters; active and nsfw are not written by the INSERT and take the
   column defaults.
   */
  datatype Store = Store(
    comics: seq<ComicRecord>, items: seq<RssItem>,
    nextComicId: int, nextItemId: int,
    defaultActive: bool, defaultNsfw: bool)

  /** Ids are positive, distinct and below the auto-increment counter. */
  predicate ComicIdsBelow(cs: seq<ComicRecord>, next: int) {
    && (forall i | 0 <= i < |cs| :: 0 < cs[i].id < next)
    && (forall i, j | 0 <= i < j < |cs| :: cs[i].id != cs[j].id)
  }

  predicate ItemIdsBelow(items: seq<RssItem>, next: int) {
    && (forall i | 0 <= i < |items| :: 0 < items[i].id < next)
    && (forall i, j | 0 <= i < j < |items| :: items[i].id != items[j].id)
  }

  /** Primary keys are positive, distinct and below their counter, which starts at 1. */
  predicate WellFormed(st: Store) {
    && 0 < st.nextComicId && 0 < st.nextItemId
    && ComicIdsBelow(st.comics, st.nextComicId)
    && ItemIdsBelow(st.items, st.nextItemId)
  }

  /** Within one user's comics no two rows share an ordinal. */
  predicate OrdinalsDistinct(cs: seq<ComicRecord>) {
    forall i, j | 0 <= i < |cs| && 0 <= j < |cs| && i != j && cs[i].userId == cs[j].userId ::
      cs[i].ordinal != cs[j].ordinal
  }

  /** Some row of user `u` holds ordinal `o`. */
  predicate OrdinalTaken(cs: seq<ComicRecord>, u: int, o: int) {
    exists i | 0 <= i < |cs| :: cs[i].userId == u && cs[i].ordinal == o
  }

  // ----- FetchComicByID -----

  /** The index of the first row with the given id and user, or |cs|. */
  function FindComic(cs: seq<ComicRecord>, comicId: int, userId: int): (i: nat)
    ensures i <= |cs|
    ensures i < |cs| ==> cs[i].id == comicId && cs[i].userId == userId
    ensures forall j | 0 <= j < i :: !(cs[j].id == comicId && cs[j].userId == userId)
  {
    if |cs| == 0 then 0
    else if cs[0].id == comicId && cs[0].userId == userId then 0
    else 1 + FindComic(cs[1..], comicId, userId)
  }

  /** The items of one (comic, user) pair as the item query reads them: no posted column. */
  function ItemsOfComic(items: seq<RssItem>, comicId: int, userId: int): (r: seq<RssItem>)
    ensures forall x | x in r :: x.webcomicId == comicId && x.userId == userId && x.posted.None?
    ensures forall x | x in r :: exists j | 0 <= j < |items| :: items[j].(posted := None) == x
    ensures forall j | 0 <= j < |items| && items[j].webcomicId == comicId && items[j].userId == userId ::
      items[j].(posted := None) in r
    ensures |r| <= |items|
  {
    if |items| == 0 then []
    else
      var x := items[0];
      (if x.webcomicId == comicId && x.userId == userId then [x.(posted := None)] else [])
      + ItemsOfComic(items[1..], comicId, userId)
  }

  /** The item query reads the table in order: its rows from a concatenation are those of each part. */
  lemma {:induction false} ItemsOfComicConcat(a: seq<RssItem>, b: seq<RssItem>, comicId: int, userId: int)
    ensures ItemsOfComic(a + b, comicId, userId) == ItemsOfComic(a, comicId, userId) + ItemsOfComic(b, comicId, userId)
    decreases |a|
  {
    if |a| > 0 {
      assert (a + b)[0] == a[0] && (a + b)[1..] == a[1..] + b;
      ItemsOfComicConcat(a[1..], b, comicId, userId);
    } else {
      assert a + b == b;
    }
  }

  /**
   FetchComicByID: no row for the (id, user) pair is a normal outcome, absent
   with no error; a found comic carries the items of that pair, and it is
   found whenever it exists and neither select fails.
   */
  function FetchComicByID(st: Store, comicId: int, userId: int, failing: set<Stmt>): (r: Result<Option<ComicRecord>, DbError>)
    ensures SelectComicById in failing ==> r == Err(DbError(SelectComicById))
    ensures r.Err? ==> r.error.stmt in failing && r.error.stmt in {SelectComicById, SelectComicItems}
    ensures SelectComicById !in failing && !(exists i | 0 <= i < |st.comics| :: st.comics[i].id == comicId && st.comics[i].userId == userId)
      ==> r == Ok(None)
    ensures SelectComicById !in failing && SelectComicItems !in failing
      && (exists i | 0 <= i < |st.comics| :: st.comics[i].id == comicId && st.comics[i].userId == userId)
      ==> r.Ok? && r.value.Some?
    ensures r.Ok? && r.value.Some? ==>
      && r.value.value.id == comicId && r.value.value.userId == userId
      && exists i | 0 <= i < |st.comics| :: r.value.value == st.comics[i].(rssItems := ItemsOfComic(st.items, comicId, userId))
  {
    if SelectComicById in failing then Err(DbError(SelectComicById))
    else
      var i := FindComic(st.comics, comicId, userId);
      if i == |st.comics| then Ok(None)
      else if SelectComicItems in failing then Err(DbError(SelectComicItems))
      else Ok(Some(st.comics[i].(rssItems := ItemsOfComic(st.items, comicId, userId))))
  }

  // ----- FetchComics -----

  /** One row of the LEFT OUTER JOIN: the comic columns and the coalesced item columns. */
  datatype JoinRow = JoinRow(comic: ComicRecord, item: RssItem)

  /**
   The item part of a joined row: the comic's webcomic_id and the coalesced
   guid, title and link (NULL reads as ""); the other item columns are not
   selected and keep their zero values.
   */
  function JoinedItem(webcomicId: int, guid: string, title: string, link: string): RssItem {
    RssItem(0, 0, webcomicId, None, guid, false, title, link)
  }

  predicate MatchesFilters(c: ComicRecord, userId: int, filterActive: Option<bool>, filterNsfw: Option<bool>) {
    && c.userId == userId
    && (filterNsfw.Some? ==> c.nsfw == filterNsfw.value)
    && (filterActive.Some? ==> c.active == filterActive.value)
  }

  /** The comic columns the query selects: rss_url is not among them. */
  function SelectedColumns(c: ComicRecord): ComicRecord {
    c.(rssUrl := None, rssItems := [])
  }

  /** The row the join makes of comic `c` and item `x`. */
  function RowOf(c: ComicRecord, x: RssItem): JoinRow {
    JoinRow(SelectedColumns(c), JoinedItem(c.id, x.guid, x.title, x.link))
  }

  /** The row of a comic that no item joins: its item columns are NULL and read as "". */
  function NullRow(c: ComicRecord): JoinRow {
    JoinRow(SelectedColumns(c), JoinedItem(c.id, "", "", ""))
  }

  /**
   The joined rows of one comic: one per item whose webcomic_id is the
   comic's (of any user, as the ON clause does not mention the user), or a
   single row with NULL item columns when no item joins.
   */
  function RowsOfComic(c: ComicRecord, items: seq<RssItem>): (r: seq<JoinRow>)
    ensures |r| > 0
    ensures forall k | 0 <= k < |r| :: r[k].comic == SelectedColumns(c) && r[k].item.webcomicId == c.id
    ensures forall y | y in items && y.webcomicId == c.id :: RowOf(c, y) in r
    ensures forall x | x in r :: x == NullRow(c) || exists y | y in items :: y.webcomicId == c.id && x == RowOf(c, y)
    ensures (forall y | y in items :: y.webcomicId != c.id) ==> r == [NullRow(c)]
  {
    var mine := JoinItemsOf(c, items);
    if |mine| == 0 then [NullRow(c)] else mine
  }

  /** The rows the join makes of comic `c` and the items that join it, in table order. */
  function JoinItemsOf(c: ComicRecord, items: seq<RssItem>): (r: seq<JoinRow>)
    ensures forall k | 0 <= k < |r| :: r[k].comic == SelectedColumns(c) && r[k].item.webcomicId == c.id
    ensures forall y | y in items && y.webcomicId == c.id :: RowOf(c, y) in r
    ensures forall x | x in r :: exists y | y in items :: y.webcomicId == c.id && x == RowOf(c, y)
    ensures |r| == 0 <==> forall y | y in items :: y.webcomicId != c.id
  {
    if |items| == 0 then []
    else
      assert items == [items[0]] + items[1..];
      (if items[0].webcomicId == c.id then [RowOf(c, items[0])] else []) + JoinItemsOf(c, items[1..])
  }

  /**
   The result rows of the FetchComics query, comic by comic: the rows of
   exactly the comics of the user that pass the filters, and each row's
   item part carries the id of its comic.
   */
  function JoinRows(cs: seq<ComicRecord>, items: seq<RssItem>, userId: int, filterActive: Option<bool>, filterNsfw: Option<bool>): (r: seq<JoinRow>)
    ensures forall x | x in r :: x.item.webcomicId == x.comic.id
    ensures forall x | x in r :: exists c | c in cs :: MatchesFilters(c, userId, filterActive, filterNsfw) && x.comic == SelectedColumns(c)
    ensures forall c | c in cs && MatchesFilters(c, userId, filterActive, filterNsfw) :: exists x | x in r :: x.comic == SelectedColumns(c)
  {
    if |cs| == 0 then []
    else
      assert cs == [cs[0]] + cs[1..];
      var head := if MatchesFilters(cs[0], userId, filterActive, filterNsfw) then RowsOfComic(cs[0], items) else [];
      assert MatchesFilters(cs[0], userId, filterActive, filterNsfw) ==> head[0] in head;
      head + JoinRows(cs[1..], items, userId, filterActive, filterNsfw)
  }

  /** The item parts, with non-empty guid, of the rows of comic `id`, in row order. */
  function GuidItems(rows: seq<JoinRow>, id: int): seq<RssItem> {
    if |rows| == 0 then []
    else
      var last := rows[|rows| - 1];
      GuidItems(rows[..|rows| - 1], id) + (if last.comic.id == id && |last.item.guid| > 0 then [last.item] else [])
  }

  /** Some row belongs to comic `id`. */
  predicate Occurs(rows: seq<JoinRow>, id: int) {
    exists k | 0 <= k < |rows| :: rows[k].comic.id == id
  }

  /** The comic part of the first row of comic `id`. */
  function FirstComic(rows: seq<JoinRow>, id: int): ComicRecord
    requires Occurs(rows, id)
  {
    var init := rows[..|rows| - 1];
    if Occurs(init, id) then FirstComic(init, id) else rows[|rows| - 1].comic
  }

  /** A comic with no rows has no items. */
  lemma {:induction false} NoRowsNoItems(rows: seq<JoinRow>, id: int)
    requires !Occurs(rows, id)
    ensures GuidItems(rows, id) == []
  {
    if |rows| > 0 {
      NoRowsNoItems(rows[..|rows| - 1], id);
    }
  }

  /**
   `m` is the collation of `rows`: one record per comic id seen in the rows,
   taken from that comic's first row, with the item parts of its rows that
   carry a guid appended in row order.
   */
  ghost predicate Collated(rows: seq<JoinRow>, m: map<int, ComicRecord>) {
    && (forall id :: id in m <==> Occurs(rows, id))
    && (forall id | id in m :: m[id].id == id)
    && (forall id | id in m ::
          m[id] == FirstComic(rows, id).(rssItems := FirstComic(rows, id).rssItems + GuidItems(rows, id)))
  }

  /** The record a row adds to or creates in the collation so far. */
  function Absorb(m: map<int, ComicRecord>, row: JoinRow): map<int, ComicRecord> {
    var existing := if row.comic.id in m then m[row.comic.id] else row.comic;
    var updated := if |row.item.guid| > 0 then existing.(rssItems := existing.rssItems + [row.item]) else existing;
    m[row.comic.id := updated]
  }

  /** The record of the absorbed row's comic is the collated record of the longer sequence. */
  lemma AbsorbedRecord(rows: seq<JoinRow>, m: map<int, ComicRecord>, id: int)
    requires |rows| > 0 && Collated(rows[..|rows| - 1], m)
    requires id == rows[|rows| - 1].comic.id
    ensures Absorb(m, rows[|rows| - 1])[id] == FirstComic(rows, id).(rssItems := FirstComic(rows, id).rssItems + GuidItems(rows, id))
  {
    var init := rows[..|rows| - 1];
    var row := rows[|rows| - 1];
    var tail: seq<RssItem> := if |row.item.guid| > 0 then [row.item] else [];
    assert GuidItems(rows, id) == GuidItems(init, id) + tail;
    if id in m {
      assert Occurs(init, id);
      AbsorbedIntoKnown(rows, m, tail, id);
    } else {
      AbsorbedAsNew(rows, m, tail, id);
    }
  }

  /** A row of a comic already collated appends its item to that record. */
  lemma AbsorbedIntoKnown(rows: seq<JoinRow>, m: map<int, ComicRecord>, tail: seq<RssItem>, id: int)
    requires |rows| > 0 && id == rows[|rows| - 1].comic.id
    requires id in m && Occurs(rows[..|rows| - 1], id)
    requires m[id] == FirstComic(rows[..|rows| - 1], id).(rssItems := FirstComic(rows[..|rows| - 1], id).rssItems + GuidItems(rows[..|rows| - 1], id))
    requires GuidItems(rows, id) == GuidItems(rows[..|rows| - 1], id) + tail
    requires tail == if |rows[|rows| - 1].item.guid| > 0 then [rows[|rows| - 1].item] else []
    ensures Absorb(m, rows[|rows| - 1])[id] == FirstComic(rows, id).(rssItems := FirstComic(rows, id).rssItems + GuidItems(rows, id))
  {
    var init := rows[..|rows| - 1];
    var row := rows[|rows| - 1];
    var first := FirstComic(init, id);
    assert FirstComic(rows, id) == first;
    var before := GuidItems(init, id);
    var updated := if |row.item.guid| > 0 then m[id].(rssItems := m[id].rssItems + [row.item]) else m[id];
    assert Absorb(m, row)[id] == updated;
    assert first.rssItems + before + tail == first.rssItems + (before + tail);
  }

  /** The first row of a comic starts its record. */
  lemma AbsorbedAsNew(rows: seq<JoinRow>, m: map<int, ComicRecord>, tail: seq<RssItem>, id: int)
    requires |rows| > 0 && Collated(rows[..|rows| - 1], m)
    requires id == rows[|rows| - 1].comic.id && id !in m
    requires tail == if |rows[|rows| - 1].item.guid| > 0 then [rows[|rows| - 1].item] else []
    requires GuidItems(rows, id) == GuidItems(rows[..|rows| - 1], id) + tail
    ensures Absorb(m, rows[|rows| - 1])[id] == FirstComic(rows, id).(rssItems := FirstComic(rows, id).rssItems + GuidItems(rows, id))
  {
    var init := rows[..|rows| - 1];
    var row := rows[|rows| - 1];
    NoRowsNoItems(init, id);
    assert FirstComic(rows, id) == row.comic;
    assert GuidItems(rows, id) == tail;
    assert row.comic.rssItems + [] == row.comic.rssItems;
  }

  /** The record of any other comic is unchanged and stays collated. */
  lemma UntouchedRecord(rows: seq<JoinRow>, m: map<int, ComicRecord>, id: int)
    requires |rows| > 0 && Collated(rows[..|rows| - 1], m)
    requires id in m && id != rows[|rows| - 1].comic.id
    ensures Absorb(m, rows[|rows| - 1])[id] == FirstComic(rows, id).(rssItems := FirstComic(rows, id).rssItems + GuidItems(rows, id))
  {
    var init := rows[..|rows| - 1];
    assert Occurs(init, id);
    assert FirstComic(rows, id) == FirstComic(init, id);
    assert GuidItems(rows, id) == GuidItems(init, id) + [];
  }

  /** Absorbing one more row keeps the collation of the longer sequence. */
  lemma CollateStep(rows: seq<JoinRow>, m: map<int, ComicRecord>)
    requires |rows| > 0 && Collated(rows[..|rows| - 1], m)
    ensures Collated(rows, Absorb(m, rows[|rows| - 1]))
  {
    var init := rows[..|rows| - 1];
    var row := rows[|rows| - 1];
    var m' := Absorb(m, row);
    assert forall id :: Occurs(rows, id) <==> Occurs(init, id) || id == row.comic.id by {
      assert forall k | 0 <= k < |init| :: init[k] == rows[k];
    }
    forall id | id in m'
      ensures m'[id] == FirstComic(rows, id).(rssItems := FirstComic(rows, id).rssItems + GuidItems(rows, id))
    {
      if id == row.comic.id {
        AbsorbedRecord(rows, m, id);
      } else {
        UntouchedRecord(rows, m, id);
      }
    }
  }

  /** The collation loop of FetchComics, one row at a time. */
  function Collate(rows: seq<JoinRow>): (r: map<int, ComicRecord>)
    ensures Collated(rows, r)
    decreases |rows|
  {
    if |rows| == 0 then map[]
    else
      var m := Collate(rows[..|rows| - 1]);
      CollateStep(rows, m);
      Absorb(m, rows[|rows| - 1])
  }

  // ----- How the joined rows are scanned -----

  /**
   A joined row as sqlx fills fetchComicsRow, whose two embedded structs
   both tag fields webcomic_id, user_id and title: a column fills the first
   field with its name in breadth-first order, which is the ComicRecord's.
   Both "title" columns land in the comic, the item title (selected later)
   over the comic title, and the item part keeps a zero webcomic_id and an
   empty title.
   */
  function ScanAsWritten(row: JoinRow): JoinRow {
    JoinRow(row.comic.(title := row.item.title), row.item.(webcomicId := 0, userId := 0, title := ""))
  }

  /** One row absorbed the way the collation loop keys it: by the webcomic_id of the row's item part. */
  function AbsorbByItemKey(m: map<int, ComicRecord>, row: JoinRow): map<int, ComicRecord> {
    var key := row.item.webcomicId;
    var existing := if key in m then m[key] else row.comic;
    var updated := if |row.item.guid| > 0 then existing.(rssItems := existing.rssItems + [row.item]) else existing;
    m[key := updated]
  }

  /** The collation loop of FetchComics as written: one record per webcomic_id of the item parts. */
  function CollateByItemKey(rows: seq<JoinRow>): (m: map<int, ComicRecord>)
    ensures forall key :: key in m <==> exists k | 0 <= k < |rows| :: rows[k].item.webcomicId == key
    decreases |rows|
  {
    if |rows| == 0 then map[]
    else
      var init := rows[..|rows| - 1];
      assert forall k | 0 <= k < |init| :: init[k] == rows[k];
      AbsorbByItemKey(CollateByItemKey(init), rows[|rows| - 1])
  }

  /**
   Scanned as sqlx does it, every row is keyed 0: FetchComics returns one
   record however many comics match, titled with the first row's item
   title (empty when that comic has no items).
   */
  lemma ScannedRowsCollapse(rows: seq<JoinRow>)
    requires |rows| > 0
    ensures var m := CollateByItemKey(seq(|rows|, k requires 0 <= k < |rows| => ScanAsWritten(rows[k])));
      m.Keys == {0} && m[0].title == rows[0].item.title
  {
    var scanned := seq(|rows|, k requires 0 <= k < |rows| => ScanAsWritten(rows[k]));
    assert scanned[0].item.webcomicId == 0;
    KeyedByFirstRow(scanned);
  }

  /** Rows that all carry item key 0 collate into the comic part of the first row, items aside. */
  lemma {:induction false} KeyedByFirstRow(rows: seq<JoinRow>)
    requires |rows| > 0 && forall k | 0 <= k < |rows| :: rows[k].item.webcomicId == 0
    ensures 0 in CollateByItemKey(rows) && CollateByItemKey(rows)[0].title == rows[0].comic.title
    decreases |rows|
  {
    var n := |rows| - 1;
    if n > 0 {
      KeyedByFirstRow(rows[..n]);
    }
  }

  /**
   With every row's item part carrying the id of its comic, as JoinRows
   gives them, keying by the item's webcomic_id is keying by comic id: the
   loop as written computes Collate.
   */
  lemma {:induction false} CollateByItemKeyIsCollate(rows: seq<JoinRow>)
    requires forall k | 0 <= k < |rows| :: rows[k].item.webcomicId == rows[k].comic.id
    ensures CollateByItemKey(rows) == Collate(rows)
    decreases |rows|
  {
    if |rows| > 0 {
      CollateByItemKeyIsCollate(rows[..|rows| - 1]);
    }
  }

  /**
   FetchComics: the collated records in map-iteration order, which Go leaves
   unspecified; every comic of the rows appears exactly once.
   */
  method FetchComics(st: Store, userId: int, filterActive: Option<bool>, filterNsfw: Option<bool>, failing: set<Stmt>)
    returns (r: Result<seq<ComicRecord>, DbError>)
    ensures SelectJoined in failing <==> r.Err?
    ensures r.Ok? ==>
      var m := Collate(JoinRows(st.comics, st.items, userId, filterActive, filterNsfw));
      ListsOnce(m, m.Keys, r.value)
  {
    if SelectJoined in failing {
      return Err(DbError(SelectJoined));
    }
    var m := Collate(JoinRows(st.comics, st.items, userId, filterActive, filterNsfw));
    var out := Flatten(m);
    return Ok(out);
  }

  /** `out` lists the records of `m` under the keys in `done`, each exactly once. */
  predicate ListsOnce(m: map<int, ComicRecord>, done: set<int>, out: seq<ComicRecord>) {
    && |out| == |done|
    && (forall k | 0 <= k < |out| :: out[k].id in done && out[k].id in m && out[k] == m[out[k].id])
    && (forall j, k | 0 <= j < k < |out| :: out[j].id != out[k].id)
    && (forall id | id in done :: exists k | 0 <= k < |out| :: out[k].id == id)
  }

  /** Appending the record of an unvisited key lists it too. */
  lemma ListsOnceStep(m: map<int, ComicRecord>, done: set<int>, out: seq<ComicRecord>, id: int)
    requires id in m && m[id].id == id && id !in done
    requires ListsOnce(m, done, out)
    ensures ListsOnce(m, done + {id}, out + [m[id]])
  {
    var out' := out + [m[id]];
    assert forall k | 0 <= k < |out| :: out'[k] == out[k];
    assert out'[|out|].id == id;
  }

  /** The values of a map keyed by id, in an order of the implementation's choosing. */
  method Flatten(m: map<int, ComicRecord>) returns (out: seq<ComicRecord>)
    requires forall id | id in m :: m[id].id == id
    ensures ListsOnce(m, m.Keys, out)
  {
    out := [];
    var todo := m.Keys;
    ghost var done: set<int> := {};
    while todo != {}
      invariant todo <= m.Keys && done == m.Keys - todo
      invariant ListsOnce(m, done, out)
      decreases todo
    {
      var id := Pick(todo);
      ListsOnceStep(m, done, out, id);
      out := out + [m[id]];
      todo := todo - {id};
      done := done + {id};
    }
    assert done == m.Keys;
  }

  // ----- UpdateReadNow -----

  /** Every row of the (comic, user) pair gets last_read `t`; other rows are kept. */
  function SetLastRead(cs: seq<ComicRecord>, comicId: int, userId: int, t: int): seq<ComicRecord> {
    seq(|cs|, i requires 0 <= i < |cs| =>
      if cs[i].id == comicId && cs[i].userId == userId then cs[i].(lastRead := t) else cs[i])
  }

  /** Every item of the (comic, user) pair is marked read; other items are kept. */
  function MarkItemsRead(items: seq<RssItem>, comicId: int, userId: int): seq<RssItem> {
    seq(|items|, i requires 0 <= i < |items| =>
      if items[i].webcomicId == comicId && items[i].userId == userId then items[i].(isRead := true) else items[i])
  }

  /** The rows of the (comic, user) pair and nothing else have last_read `t`, items untouched. */
  predicate LastReadSet(st: Store, st': Store, comicId: int, userId: int, t: int) {
    && st'.items == st.items && st'.nextComicId == st.nextComicId && st'.nextItemId == st.nextItemId
    && st'.defaultActive == st.defaultActive && st'.defaultNsfw == st.defaultNsfw
    && |st'.comics| == |st.comics|
    && forall i | 0 <= i < |st.comics| ::
         if st.comics[i].id == comicId && st.comics[i].userId == userId
         then st'.comics[i] == st.comics[i].(lastRead := t)
         else st'.comics[i] == st.comics[i]
  }

  /**
   UpdateReadNow: last_read of the (comic, user) row becomes `t` whatever it
   was before, then that pair's items are marked read. The second statement
   runs only if the first succeeded; a failure of the second keeps the first.
   */
  function UpdateReadNow(st: Store, comicId: int, userId: int, t: int, failing: set<Stmt>): (r: (Store, Outcome<DbError>))
    ensures UpdateLastRead in failing ==> r == (st, Fail(DbError(UpdateLastRead)))
    ensures UpdateLastRead !in failing ==>
      && r.1 == (if MarkComicItemsRead in failing then Fail(DbError(MarkComicItemsRead)) else Pass)
      && r.0.comics == SetLastRead(st.comics, comicId, userId, t)
      && LastReadSet(st, r.0.(items := st.items), comicId, userId, t)
    ensures UpdateLastRead !in failing && MarkComicItemsRead in failing ==> r.0.items == st.items
    ensures r.1 == Pass ==>
      && |r.0.items| == |st.items|
      && forall i | 0 <= i < |st.items| ::
           if st.items[i].webcomicId == comicId && st.items[i].userId == userId
           then r.0.items[i] == st.items[i].(isRead := true)
           else r.0.items[i] == st.items[i]
  {
    if UpdateLastRead in failing then (st, Fail(DbError(UpdateLastRead)))
    else
      var st1 := st.(comics := SetLastRead(st.comics, comicId, userId, t));
      if MarkComicItemsRead in failing then (st1, Fail(DbError(MarkComicItemsRead)))
      else (st1.(items := MarkItemsRead(st.items, comicId, userId)), Pass)
  }

  /** Running UpdateReadNow twice with the same time is the same as running it once. */
  lemma UpdateReadNowIdempotent(st: Store, comicId: int, userId: int, t: int)
    ensures var once := UpdateReadNow(st, comicId, userId, t, {}).0;
      UpdateReadNow(once, comicId, userId, t, {}) == (once, Pass)
  {
    var once := UpdateReadNow(st, comicId, userId, t, {}).0;
    assert SetLastRead(once.comics, comicId, userId, t) == once.comics;
    assert MarkItemsRead(once.items, comicId, userId) == once.items;
  }

  /** No ordering check: a read time earlier than the stored one replaces it. */
  lemma LastReadCanMoveBackwards()
    ensures var c := ZeroComic.(id := 1, userId := 1, lastRead := 2000);
      var st := Store([c], [], 2, 1, true, false);
      UpdateReadNow(st, 1, 1, 1000, {}).0.comics[0].lastRead == 1000
  {
  }

  // ----- MoveComicsDownIfCollision -----

  /** The number of rows, of any user, holding ordinal `o`. */
  function CountOrdinal(cs: seq<ComicRecord>, o: int): (n: nat)
    ensures n <= |cs|
    ensures n == 0 <==> forall i | 0 <= i < |cs| :: cs[i].ordinal != o
  {
    if |cs| == 0 then 0
    else (if cs[0].ordinal == o then 1 else 0) + CountOrdinal(cs[1..], o)
  }

  /** A row the shift statement matches: user `u`, ordinal at least `o`. */
  predicate Shifted(c: ComicRecord, u: int, o: int) {
    c.userId == u && c.ordinal >= o
  }

  /** The number of rows the shift statement matches, which is the number it changes. */
  function CountShifted(cs: seq<ComicRecord>, u: int, o: int): nat {
    if |cs| == 0 then 0
    else (if Shifted(cs[0], u, o) then 1 else 0) + CountShifted(cs[1..], u, o)
  }

  /**
   The shift statement: matched rows move one ordinal down the list. Only
   ordinals change, each by at most one, and exactly those of the matched
   rows.
   */
  function ShiftOrdinalsFrom(cs: seq<ComicRecord>, u: int, o: int): (r: seq<ComicRecord>)
    ensures |r| == |cs|
    ensures forall i | 0 <= i < |cs| :: r[i] == cs[i].(ordinal := r[i].ordinal)
    ensures forall i | 0 <= i < |cs| :: cs[i].ordinal <= r[i].ordinal <= cs[i].ordinal + 1
    ensures forall i | 0 <= i < |cs| :: r[i].ordinal != cs[i].ordinal <==> Shifted(cs[i], u, o)
  {
    seq(|cs|, i requires 0 <= i < |cs| =>
      if Shifted(cs[i], u, o) then cs[i].(ordinal := cs[i].ordinal + 1) else cs[i])
  }

  /** What MoveComicsDownIfCollision leaves behind: the store, its error, and whether it logged the count mismatch. */
  datatype MoveResult = MoveResult(st: Store, outcome: Outcome<DbError>, warned: bool)

  /**
   MoveComicsDownIfCollision: counts the rows of every user at ordinal `o`;
   if there are any, shifts user `u`'s rows at `o` or below by one. A
   rows-affected figure that differs from the count is only logged.
   */
  function MoveComicsDownIfCollision(st: Store, o: int, u: int, failing: set<Stmt>): (r: MoveResult)
    ensures r.st.items == st.items && r.st.nextComicId == st.nextComicId && r.st.nextItemId == st.nextItemId
    ensures r.st.defaultActive == st.defaultActive && r.st.defaultNsfw == st.defaultNsfw
    ensures |r.st.comics| == |st.comics|
    ensures r.outcome.Fail? ==> r.outcome.error.stmt in {CountConflicts, ShiftOrdinals, ReadRowsAffected}
    ensures r.warned <==> r.outcome == Pass && CountOrdinal(st.comics, o) > 0 && CountShifted(st.comics, u, o) != CountOrdinal(st.comics, o)
    ensures CountConflicts !in failing && CountOrdinal(st.comics, o) > 0 && ShiftOrdinals !in failing ==>
      r.st.comics == ShiftOrdinalsFrom(st.comics, u, o)
    ensures r.st.comics == st.comics || r.st.comics == ShiftOrdinalsFrom(st.comics, u, o)
    ensures r.st.comics != st.comics ==> CountConflicts !in failing && CountOrdinal(st.comics, o) > 0
    ensures r.outcome == Pass <==> CountConflicts !in failing && (CountOrdinal(st.comics, o) == 0 || {ShiftOrdinals, ReadRowsAffected} !! failing)
  {
    if CountConflicts in failing then MoveResult(st, Fail(DbError(CountConflicts)), false)
    else
      var conflicts := CountOrdinal(st.comics, o);
      if conflicts == 0 then MoveResult(st, Pass, false)
      else if ShiftOrdinals in failing then MoveResult(st, Fail(DbError(ShiftOrdinals)), false)
      else
        var st' := st.(comics := ShiftOrdinalsFrom(st.comics, u, o));
        if ReadRowsAffected in failing then MoveResult(st', Fail(DbError(ReadRowsAffected)), false)
        else MoveResult(st', Pass, CountShifted(st.comics, u, o) != conflicts)
  }

  /** With no row anywhere at ordinal `o`, nothing changes and the result is success. */
  lemma NoCollisionNoChange(st: Store, o: int, u: int, failing: set<Stmt>)
    requires CountConflicts !in failing
    requires forall i | 0 <= i < |st.comics| :: st.comics[i].ordinal != o
    ensures MoveComicsDownIfCollision(st, o, u, failing) == MoveResult(st, Pass, false)
  {
  }

  /**
   Rows of other users and rows above `o` never change; a row of `u` at `o`
   or below either keeps its ordinal (no shift ran) or gets exactly one more.
   */
  lemma ShiftTouchesOnlyUserRowsFrom(st: Store, o: int, u: int, failing: set<Stmt>)
    ensures var r := MoveComicsDownIfCollision(st, o, u, failing);
      forall i | 0 <= i < |st.comics| ::
        if Shifted(st.comics[i], u, o)
        then r.st.comics[i] == st.comics[i] || r.st.comics[i] == st.comics[i].(ordinal := st.comics[i].ordinal + 1)
        else r.st.comics[i] == st.comics[i]
  {
  }

  /** The shift keeps a user's ordinals distinct and leaves ordinal `o` free for that user. */
  lemma ShiftKeepsOrdinalsDistinct(cs: seq<ComicRecord>, u: int, o: int)
    requires OrdinalsDistinct(cs)
    ensures OrdinalsDistinct(ShiftOrdinalsFrom(cs, u, o))
    ensures !OrdinalTaken(ShiftOrdinalsFrom(cs, u, o), u, o)
  {
    var cs' := ShiftOrdinalsFrom(cs, u, o);
    forall i, j | 0 <= i < |cs'| && 0 <= j < |cs'| && i != j && cs'[i].userId == cs'[j].userId
      ensures cs'[i].ordinal != cs'[j].ordinal
    {
      assert cs[i].userId == cs[j].userId;
    }
  }

  /**
   After a successful move, no row of user `u` holds ordinal `o`, and a
   user's ordinals that were distinct stay distinct.
   */
  lemma MoveFreesOrdinal(st: Store, o: int, u: int, failing: set<Stmt>)
    requires OrdinalsDistinct(st.comics)
    ensures var r := MoveComicsDownIfCollision(st, o, u, failing);
      && OrdinalsDistinct(r.st.comics)
      && (r.outcome == Pass ==> !OrdinalTaken(r.st.comics, u, o))
  {
    ShiftKeepsOrdinalsDistinct(st.comics, u, o);
    if CountOrdinal(st.comics, o) == 0 {
      assert !OrdinalTaken(st.comics, u, o);
    }
  }

  /**
   The rows-affected check compares against the wrong set: with user 1 at
   ordinals 1, 2 and 3, inserting at 2 counts one conflict but shifts two
   rows, and the mismatch is logged although nothing went wrong.
   */
  lemma ShiftCountMismatchOnOrdinaryInsert()
    ensures var st := Store([ZeroComic.(id := 1, userId := 1, ordinal := 1),
                             ZeroComic.(id := 2, userId := 1, ordinal := 2),
                             ZeroComic.(id := 3, userId := 1, ordinal := 3)], [], 4, 1, true, false);
      var r := MoveComicsDownIfCollision(st, 2, 1, {});
      r.outcome == Pass && r.warned
  {
    var st := Store([ZeroComic.(id := 1, userId := 1, ordinal := 1),
                     ZeroComic.(id := 2, userId := 1, ordinal := 2),
                     ZeroComic.(id := 3, userId := 1, ordinal := 3)], [], 4, 1, true, false);
    var cs := st.comics;
    assert CountOrdinal(cs[2..], 2) == 0;
    assert CountOrdinal(cs[1..], 2) == 1;
    assert CountOrdinal(cs, 2) == 1;
    assert CountShifted(cs[2..], 1, 2) == 1;
    assert CountShifted(cs[1..], 1, 2) == 2;
    assert CountShifted(cs, 1, 2) == 2;
  }

  /**
   The conflict count is not scoped to the user: another user's row at `o`
   makes user `u`'s rows shift even though `u` has nothing at `o`.
   */
  lemma OtherUsersOrdinalTriggersShift()
    ensures var st := Store([ZeroComic.(id := 1, userId := 1, ordinal := 5),
                             ZeroComic.(id := 2, userId := 2, ordinal := 2)], [], 3, 1, true, false);
      var r := MoveComicsDownIfCollision(st, 2, 1, {});
      r.outcome == Pass && r.st.comics[0].ordinal == 6 && r.st.comics[1].ordinal == 2
  {
    var cs := [ZeroComic.(id := 1, userId := 1, ordinal := 5), ZeroComic.(id := 2, userId := 2, ordinal := 2)];
    assert CountOrdinal(cs[1..], 2) == 1;
    assert CountOrdinal(cs, 2) == 1;
  }

  // ----- InsertNewComic -----

  /**
   The row the INSERT writes: the record's columns with the next id, the
   table defaults for active and nsfw, and no items (they live in rss_items).
   */
  function InsertedRow(c: ComicRecord, id: int, active: bool, nsfw: bool): ComicRecord {
    c.(id := id, active := active, nsfw := nsfw, rssItems := [])
  }

  /** What InsertNewComic leaves behind: the store, its error, and the id written back into the record. */
  datatype InsertResult = InsertResult(st: Store, outcome: Outcome<DbError>, id: int)

  /**
   InsertNewComic: makes room at the record's ordinal, then inserts it. A
   failed move inserts nothing; the id read back is 0 when the driver cannot
   report it, which is logged but not returned as an error.
   */
  function InsertNewComic(st: Store, c: ComicRecord, failing: set<Stmt>): (r: InsertResult)
    ensures var mv := MoveComicsDownIfCollision(st, c.ordinal, c.userId, failing);
      && (mv.outcome.Fail? ==> r == InsertResult(mv.st, mv.outcome, c.id))
      && (mv.outcome == Pass && InsertComic in failing ==> r == InsertResult(mv.st, Fail(DbError(InsertComic)), c.id))
      && (mv.outcome == Pass && InsertComic !in failing ==>
            && r.outcome == Pass
            && r.st.comics == mv.st.comics + [InsertedRow(c, st.nextComicId, st.defaultActive, st.defaultNsfw)]
            && r.st.nextComicId == st.nextComicId + 1
            && r.st.items == st.items
            && r.id == (if ReadLastInsertId in failing then 0 else st.nextComicId))
  {
    var mv := MoveComicsDownIfCollision(st, c.ordinal, c.userId, failing);
    if mv.outcome.Fail? then InsertResult(mv.st, mv.outcome, c.id)
    else if InsertComic in failing then InsertResult(mv.st, Fail(DbError(InsertComic)), c.id)
    else
      var row := InsertedRow(c, st.nextComicId, st.defaultActive, st.defaultNsfw);
      var st' := mv.st.(comics := mv.st.comics + [row], nextComicId := st.nextComicId + 1);
      InsertResult(st', Pass, if ReadLastInsertId in failing then 0 else row.id)
  }

  /** Appending a row with the counter's id and advancing the counter keeps the ids in order. */
  lemma AppendKeepsIds(cs: seq<ComicRecord>, next: int, row: ComicRecord)
    requires 0 < next && ComicIdsBelow(cs, next) && row.id == next
    ensures ComicIdsBelow(cs + [row], next + 1)
  {
  }

  /** The shift changes ordinals only, so ids are as before. */
  lemma ShiftKeepsIds(cs: seq<ComicRecord>, u: int, o: int, next: int)
    requires ComicIdsBelow(cs, next)
    ensures ComicIdsBelow(ShiftOrdinalsFrom(cs, u, o), next)
  {
    var cs' := ShiftOrdinalsFrom(cs, u, o);
    assert forall i | 0 <= i < |cs| :: cs'[i].id == cs[i].id;
  }

  /** The new row takes the next id, so ids stay positive, distinct and below the counter. */
  lemma InsertKeepsWellFormed(st: Store, c: ComicRecord, failing: set<Stmt>)
    requires WellFormed(st)
    ensures WellFormed(InsertNewComic(st, c, failing).st)
  {
    var mv := MoveComicsDownIfCollision(st, c.ordinal, c.userId, failing);
    ShiftKeepsIds(st.comics, c.userId, c.ordinal, st.nextComicId);
    if mv.outcome == Pass && InsertComic !in failing {
      AppendKeepsIds(mv.st.comics, st.nextComicId, InsertedRow(c, st.nextComicId, st.defaultActive, st.defaultNsfw));
    }
  }

  /**
   A successful insert keeps each user's ordinals distinct: the new row is
   the one row of its user at its ordinal.
   */
  lemma InsertKeepsOrdinalsDistinct(st: Store, c: ComicRecord, failing: set<Stmt>)
    requires OrdinalsDistinct(st.comics)
    ensures OrdinalsDistinct(InsertNewComic(st, c, failing).st.comics)
  {
    var mv := MoveComicsDownIfCollision(st, c.ordinal, c.userId, failing);
    MoveFreesOrdinal(st, c.ordinal, c.userId, failing);
    if mv.outcome == Pass && InsertComic !in failing {
      var row := InsertedRow(c, st.nextComicId, st.defaultActive, st.defaultNsfw);
      var cs := mv.st.comics;
      var cs' := cs + [row];
      assert InsertNewComic(st, c, failing).st.comics == cs';
      forall i, j | 0 <= i < |cs'| && 0 <= j < |cs'| && i != j && cs'[i].userId == cs'[j].userId
        ensures cs'[i].ordinal != cs'[j].ordinal
      {
        if i == |cs| {
          assert !(cs[j].userId == c.userId && cs[j].ordinal == c.ordinal);
        } else if j == |cs| {
          assert !(cs[i].userId == c.userId && cs[i].ordinal == c.ordinal);
        }
      }
    }
  }

  /** Inserting at an occupied ordinal: user 1 at 1, 2, 3, a new comic at 2 gives 1, 3, 4 and the new row at 2. */
  lemma InsertIntoMiddle()
    ensures var st := Store([ZeroComic.(id := 1, userId := 1, ordinal := 1),
                             ZeroComic.(id := 2, userId := 1, ordinal := 2),
                             ZeroComic.(id := 3, userId := 1, ordinal := 3)], [], 4, 1, true, false);
      var r := InsertNewComic(st, ZeroComic.(userId := 1, title := "x", ordinal := 2), {});
      && r.outcome == Pass && r.id == 4
      && |r.st.comics| == 4
      && r.st.comics[0].ordinal == 1 && r.st.comics[1].ordinal == 3 && r.st.comics[2].ordinal == 4
      && r.st.comics[3].ordinal == 2 && r.st.comics[3].id == 4
  {
  }
}
