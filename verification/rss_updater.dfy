/**
 The feed reconciliation job of cmd/rss_updater/main.go: look up one comic,
 take its parsed feed, pick the latest dated item, merge the feed into the
 stored items by guid and insert the items that are new.
 */
module RssUpdater {
  import opened Wrappers
  import opened Comics
  import opened ComicDb
  import opened Rss

  // ----- Latest item -----

  /** The item the latest-post scan settles on, or the nil dereference it can hit. */
  datatype Latest = NoLatest | LatestAt(index: nat) | NilDeref

  /**
   The scan for the latest item: it starts at the first item, skips items
   without a date and moves only to a strictly later one, so the first
   item with the greatest date wins. Comparing with an undated first item
   dereferences nil.
   */
  method LatestPosted(feed: seq<RssItem>) returns (r: Latest)
    ensures |feed| == 0 <==> r == NoLatest
    ensures r == NilDeref <==> |feed| > 0 && feed[0].posted.None? && exists j | 0 <= j < |feed| :: feed[j].posted.Some?
    ensures r.LatestAt? ==> r.index < |feed|
    ensures r.LatestAt? && feed[r.index].posted.None? ==>
      r.index == 0 && forall j | 0 <= j < |feed| :: feed[j].posted.None?
    ensures r.LatestAt? && feed[r.index].posted.Some? ==>
      && (forall j | 0 <= j < |feed| && feed[j].posted.Some? :: feed[j].posted.value <= feed[r.index].posted.value)
      && (forall j | 0 <= j < r.index && feed[j].posted.Some? :: feed[j].posted.value < feed[r.index].posted.value)
  {
    if |feed| == 0 {
      return NoLatest;
    }
    var best := 0;
    for i := 0 to |feed|
      invariant 0 <= best < |feed| && best <= i
      invariant feed[0].posted.None? ==> best == 0
      invariant feed[best].posted.None? ==> best == 0 && forall j | 0 <= j < i :: feed[j].posted.None?
      invariant feed[best].posted.Some? ==>
        && (forall j | 0 <= j < i && feed[j].posted.Some? :: feed[j].posted.value <= feed[best].posted.value)
        && (forall j | 0 <= j < best && feed[j].posted.Some? :: feed[j].posted.value < feed[best].posted.value)
    {
      if feed[i].posted.None? {
        continue;
      }
      if feed[best].posted.None? {
        assert feed[i].posted.Some?;
        return NilDeref;
      }
      if feed[i].posted.value > feed[best].posted.value {
        best := i;
      }
    }
    return LatestAt(best);
  }

  // ----- Merge by guid -----

  /** The guids of a list of items. */
  function Guids(s: seq<RssItem>): set<string> {
    set x | x in s :: x.guid
  }

  /** No item after index `i` has the guid of `s[i]`. */
  predicate LastWithGuid(s: seq<RssItem>, i: int)
    requires 0 <= i < |s|
  {
    forall j | i < j < |s| :: s[j].guid != s[i].guid
  }

  /** No item before index `i` has the guid of `s[i]`. */
  predicate FirstWithGuid(s: seq<RssItem>, i: int)
    requires 0 <= i < |s|
  {
    forall j | 0 <= j < i :: s[j].guid != s[i].guid
  }

  /**
   The known items keyed by guid, as the first loop of the merge builds it:
   a later item with the same guid replaces an earlier one.
   */
  function KnownByGuid(known: seq<RssItem>): (m: map<string, RssItem>)
    ensures m.Keys == Guids(known)
    ensures forall g | g in m :: m[g].guid == g && m[g] in known
    ensures forall i | 0 <= i < |known| && LastWithGuid(known, i) :: m[known[i].guid] == known[i]
    decreases |known|
  {
    if |known| == 0 then map[]
    else
      var init := known[..|known| - 1];
      var last := known[|known| - 1];
      assert known == init + [last];
      assert forall i | 0 <= i < |init| && LastWithGuid(known, i) :: LastWithGuid(init, i) && known[i].guid != last.guid;
      KnownByGuid(init)[last.guid := last]
  }

  /**
   The second loop of the merge: a feed item is added only under a guid
   that is not yet a key, so the first feed item of a guid wins and no
   existing entry is replaced.
   */
  function AddFresh(m: map<string, RssItem>, feed: seq<RssItem>): map<string, RssItem>
    decreases |feed|
  {
    if |feed| == 0 then m
    else AddFresh(if feed[0].guid in m then m else m[feed[0].guid := feed[0]], feed[1..])
  }

  /** The merge adds the feed's guids to the keys, and entries already there stay. */
  lemma {:induction false} AddFreshKeeps(m: map<string, RssItem>, feed: seq<RssItem>)
    ensures AddFresh(m, feed).Keys == m.Keys + Guids(feed)
    ensures forall g | g in m :: AddFresh(m, feed)[g] == m[g]
    ensures forall g | g in AddFresh(m, feed) && g !in m :: AddFresh(m, feed)[g] in feed && AddFresh(m, feed)[g].guid == g
    decreases |feed|
  {
    if |feed| > 0 {
      var x := feed[0];
      var m' := if x.guid in m then m else m[x.guid := x];
      AddFreshKeeps(m', feed[1..]);
      assert feed == [x] + feed[1..];
      assert Guids(feed) == {x.guid} + Guids(feed[1..]);
    }
  }

  /** A guid not yet a key gets the first feed item that has it. */
  lemma {:induction false} AddFreshFirstWins(m: map<string, RssItem>, feed: seq<RssItem>, i: nat)
    requires i < |feed| && feed[i].guid !in m && FirstWithGuid(feed, i)
    ensures feed[i].guid in AddFresh(m, feed) && AddFresh(m, feed)[feed[i].guid] == feed[i]
    decreases |feed|
  {
    var x := feed[0];
    var m' := if x.guid in m then m else m[x.guid := x];
    AddFreshKeeps(m', feed[1..]);
    if i > 0 {
      assert feed[i].guid != x.guid;
      assert FirstWithGuid(feed[1..], i - 1);
      AddFreshFirstWins(m', feed[1..], i - 1);
    }
  }

  /** The merge of the stored items of a comic with its current feed. */
  function Merge(known: seq<RssItem>, feed: seq<RssItem>): (r: map<string, RssItem>)
    ensures r.Keys == Guids(known) + Guids(feed)
    ensures forall g | g in r :: (r[g] in known || r[g] in feed) && r[g].guid == g
    ensures forall g | g in Guids(known) :: r[g] == KnownByGuid(known)[g]
    ensures forall i | 0 <= i < |known| && LastWithGuid(known, i) :: r[known[i].guid] == known[i]
    ensures forall i | 0 <= i < |feed| && feed[i].guid !in Guids(known) && FirstWithGuid(feed, i) :: r[feed[i].guid] == feed[i]
  {
    var k := KnownByGuid(known);
    AddFreshKeeps(k, feed);
    forall i | 0 <= i < |feed| && feed[i].guid !in Guids(known) && FirstWithGuid(feed, i)
      ensures AddFresh(k, feed)[feed[i].guid] == feed[i]
    {
      AddFreshFirstWins(k, feed, i);
    }
    AddFresh(k, feed)
  }

  /** A guid that is known is kept with a known item, whatever the feed says. */
  lemma MergeKeepsKnown(known: seq<RssItem>, feed: seq<RssItem>, g: string)
    requires g in Guids(known)
    ensures Merge(known, feed)[g] in known && Merge(known, feed)[g].guid == g
  {
  }

  /** The guids of the merged items that have no row yet. */
  function NewGuids(m: map<string, RssItem>): set<string> {
    set g | g in m && m[g].id == 0
  }

  /** The guids of the merged items that are unread. */
  function UnreadGuids(m: map<string, RssItem>): set<string> {
    set g | g in m && !m[g].isRead
  }

  /**
   A second run finds nothing new: once every feed guid is among the stored
   items of the comic, and stored items have ids, no merged item lacks one.
   */
  lemma RerunFindsNothingNew(known: seq<RssItem>, feed: seq<RssItem>)
    requires forall x | x in known :: x.id != 0
    requires Guids(feed) <= Guids(known)
    ensures NewGuids(Merge(known, feed)) == {}
  {
    var m := Merge(known, feed);
    forall g | g in m
      ensures m[g].id != 0
    {
      MergeKeepsKnown(known, feed, g);
    }
  }

  /**
   The reconciliation scenario: "a" stored and read, the feed holding "a"
   and "b". The merge has both, "a" stays read, and only "b" is new.
   */
  lemma ReconcileScenario()
    ensures var a := RssItem(1, 1, 1, None, "a", true, "", "");
      var a' := RssItem(0, 1, 1, None, "a", false, "", "");
      var b := RssItem(0, 1, 1, None, "b", false, "", "");
      var m := Merge([a], [a', b]);
      && m.Keys == {"a", "b"} && m["a"] == a && m["b"] == b
      && NewGuids(m) == {"b"}
  {
    var a := RssItem(1, 1, 1, None, "a", true, "", "");
    var a' := RssItem(0, 1, 1, None, "a", false, "", "");
    var b := RssItem(0, 1, 1, None, "b", false, "", "");
    var m := Merge([a], [a', b]);
    assert Guids([a]) == {"a"};
    assert Guids([a', b]) == {"a", "b"};
    assert LastWithGuid([a], 0);
    assert FirstWithGuid([a', b], 1);
    assert NewGuids(m) == {"b"};
  }

  // ----- Saving the new items -----

  /** The rows the inserts of `order` write, ids counting up from `base`. */
  function StoredRun(m: map<string, RssItem>, order: seq<string>, base: int): seq<RssItem>
    requires forall k | 0 <= k < |order| :: order[k] in m
  {
    seq(|order|, k requires 0 <= k < |order| => StoredItem(m[order[k]], base + k))
  }

  /** `order` lists, once each, the guids of `done` whose items have no id yet. */
  ghost predicate Listed(m: map<string, RssItem>, done: set<string>, order: seq<string>) {
    && (forall k | 0 <= k < |order| :: order[k] in m)
    && (forall g :: g in order <==> g in NewGuids(m) * done)
    && (forall j, k | 0 <= j < k < |order| :: order[j] != order[k])
  }

  /** `st'` is `st` with the rows of the items of `order` inserted in that order. */
  ghost predicate Written(m: map<string, RssItem>, order: seq<string>, st: Store, st': Store)
    requires forall k | 0 <= k < |order| :: order[k] in m
  {
    st' == st.(items := st.items + StoredRun(m, order, st.nextItemId), nextItemId := st.nextItemId + |order|)
  }

  /** Visiting one more guid: it joins the list exactly when its item has no id. */
  lemma ListedStep(m: map<string, RssItem>, done: set<string>, order: seq<string>, g: string)
    requires g in m && g !in done && Listed(m, done, order)
    ensures Listed(m, done + {g}, if m[g].id == 0 then order + [g] else order)
  {
    assert g !in order;
  }

  /** Inserting the item of one more guid extends the written rows by its row. */
  lemma WrittenStep(m: map<string, RssItem>, order: seq<string>, st: Store, st': Store, g: string)
    requires g in m && (forall k | 0 <= k < |order| :: order[k] in m)
    requires Written(m, order, st, st')
    ensures Written(m, order + [g], st, Insert(st', m[g], {}).0)
  {
    var order' := order + [g];
    assert StoredRun(m, order', st.nextItemId) == StoredRun(m, order, st.nextItemId) + [StoredItem(m[g], st'.nextItemId)];
  }

  /** `unread` counts the unread items among the guids of `done`. */
  ghost predicate CountedUnread(m: map<string, RssItem>, done: set<string>, unread: nat) {
    unread == |UnreadGuids(m) * done|
  }

  /** Visiting one more guid adds one to the unread count exactly when its item is unread. */
  lemma UnreadStep(m: map<string, RssItem>, done: set<string>, unread: nat, g: string)
    requires g in m && g !in done && CountedUnread(m, done, unread)
    ensures CountedUnread(m, done + {g}, if m[g].isRead then unread else unread + 1)
  {
    if !m[g].isRead {
      assert UnreadGuids(m) * (done + {g}) == UnreadGuids(m) * done + {g};
    } else {
      assert UnreadGuids(m) * (done + {g}) == UnreadGuids(m) * done;
    }
  }

  /** The state of the save loop after the guids of `done` were visited. */
  ghost predicate SaveInv(m: map<string, RssItem>, done: set<string>, st: Store, st': Store,
                          inserted: seq<string>, unread: nat, added: nat)
  {
    && (forall k | 0 <= k < |inserted| :: inserted[k] in m)
    && Listed(m, done, inserted) && added == |inserted|
    && Written(m, inserted, st, st')
    && CountedUnread(m, done, unread)
  }

  /** One visit of the save loop keeps its state. */
  lemma SaveStep(m: map<string, RssItem>, done: set<string>, st: Store, st': Store,
                 inserted: seq<string>, unread: nat, added: nat, g: string)
    requires g in m && g !in done && SaveInv(m, done, st, st', inserted, unread, added)
    ensures var unread' := if m[g].isRead then unread else unread + 1;
      if m[g].id == 0
      then SaveInv(m, done + {g}, st, Insert(st', m[g], {}).0, inserted + [g], unread', added + 1)
      else SaveInv(m, done + {g}, st, st', inserted, unread', added)
  {
    ListedStep(m, done, inserted, g);
    UnreadStep(m, done, unread, g);
    if m[g].id == 0 {
      WrittenStep(m, inserted, st, st', g);
    }
  }

  /**
   The save loop: visits every merged item in map order, counts the unread
   ones and the ones without an id, and inserts each of the latter, in the
   order `inserted`. A failed insert ends the process at once, keeping the
   rows inserted before it.
   */
  method SaveNewItems(st: Store, m: map<string, RssItem>, failing: set<Stmt>)
    returns (st': Store, inserted: seq<string>, unread: nat, added: nat, outcome: Outcome<DbError>)
    ensures outcome.Fail? ==> InsertItem in failing && outcome == Fail(DbError(InsertItem))
    ensures outcome == Pass ==> unread == |UnreadGuids(m)| && added == |NewGuids(m)|
    ensures Listed(m, m.Keys, inserted) || outcome.Fail?
    ensures (forall k | 0 <= k < |inserted| :: inserted[k] in m) && Written(m, inserted, st, st')
    ensures added == |inserted|
  {
    st' := st;
    unread := 0;
    added := 0;
    outcome := Pass;
    var todo := m.Keys;
    ghost var done: set<string> := {};
    inserted := [];
    assert StoredRun(m, inserted, st.nextItemId) == [];
    while todo != {}
      invariant done <= m.Keys && todo == m.Keys - done
      invariant SaveInv(m, done, st, st', inserted, unread, added)
      decreases todo
    {
      var g := Pick(todo);
      SaveStep(m, done, st, st', inserted, unread, added, g);
      if !m[g].isRead {
        unread := unread + 1;
      }
      if m[g].id == 0 {
        var (next, result) := Insert(st', m[g], failing);
        if result.Fail? {
          return st', inserted, unread, added, result;
        }
        st' := next;
        inserted := inserted + [g];
        added := added + 1;
      }
      todo := todo - {g};
      done := done + {g};
    }
    assert done == m.Keys;
    SaveDone(m, inserted, unread);
  }

  /** With every guid visited, the counts are those of the whole merge. */
  lemma SaveDone(m: map<string, RssItem>, order: seq<string>, unread: nat)
    requires Listed(m, m.Keys, order) && CountedUnread(m, m.Keys, unread)
    ensures unread == |UnreadGuids(m)|
    ensures |order| == |NewGuids(m)|
  {
    assert UnreadGuids(m) * m.Keys == UnreadGuids(m);
    assert NewGuids(m) * m.Keys == NewGuids(m);
    DistinctSeqSize(order, NewGuids(m));
  }

  /** A list without repeats of exactly the elements of a set is as long as the set. */
  lemma {:induction false} DistinctSeqSize(s: seq<string>, e: set<string>)
    requires forall g :: g in s <==> g in e
    requires forall j, k | 0 <= j < k < |s| :: s[j] != s[k]
    ensures |s| == |e|
    decreases |s|
  {
    if |s| > 0 {
      var init := s[..|s| - 1];
      var last := s[|s| - 1];
      assert s == init + [last];
      assert last !in init;
      DistinctSeqSize(init, e - {last});
    }
  }

  // ----- The whole job -----

  /** Why the job stops with log.Fatal. */
  datatype FatalReason =
    | MissingParameters | ComicQuery(e: DbError) | FeedFetch | KnownQuery(e: DbError) | ItemInsert(e: DbError)

  /** How the job ends: with its two counts logged, through log.Fatal, or in a nil-pointer panic. */
  datatype Exit = Finished(unread: nat, added: nat) | Fatal(reason: FatalReason) | Panic

  /** Every guid of `guids` has a stored item of the (user, comic) pair with an id. */
  ghost predicate Covers(items: seq<RssItem>, u: int, comicId: int, guids: set<string>) {
    forall g | g in guids :: exists x | x in items :: x.guid == g && x.userId == u && x.webcomicId == comicId && x.id > 0
  }

  /** Rows appended with ids from the counter keep the item ids in order. */
  lemma WrittenKeepsWellFormed(m: map<string, RssItem>, order: seq<string>, st: Store, st': Store)
    requires (forall k | 0 <= k < |order| :: order[k] in m) && Written(m, order, st, st')
    requires WellFormed(st)
    ensures WellFormed(st')
  {
    var run := StoredRun(m, order, st.nextItemId);
    assert forall k | 0 <= k < |run| :: run[k].id == st.nextItemId + k;
    RunKeepsIds(st.items, run, st.nextItemId);
  }

  /** Rows numbered on from the counter keep item ids positive, distinct and below it. */
  lemma RunKeepsIds(items: seq<RssItem>, run: seq<RssItem>, next: int)
    requires 0 < next && ItemIdsBelow(items, next)
    requires forall k | 0 <= k < |run| :: run[k].id == next + k
    ensures ItemIdsBelow(items + run, next + |run|)
  {
    var all := items + run;
    forall i | 0 <= i < |all|
      ensures 0 < all[i].id < next + |run|
      ensures i < |items| ==> all[i].id < next
      ensures i >= |items| ==> all[i].id == next + i - |items|
    {
    }
  }

  /**
   After a finished save every merged guid is stored for the pair: a known
   item is still there, a new one was inserted with the pair of the item.
   */
  lemma SavedCoversMerge(m: map<string, RssItem>, order: seq<string>, st: Store, st': Store, u: int, comicId: int)
    requires (forall k | 0 <= k < |order| :: order[k] in m) && Written(m, order, st, st') && Listed(m, m.Keys, order)
    requires WellFormed(st)
    requires forall g | g in m :: m[g].userId == u && m[g].webcomicId == comicId && m[g].guid == g
    requires forall g | g in m && m[g].id != 0 :: m[g] in st.items
    ensures Covers(st'.items, u, comicId, m.Keys)
  {
    var run := StoredRun(m, order, st.nextItemId);
    forall g | g in m
      ensures exists x | x in st'.items :: x.guid == g && x.userId == u && x.webcomicId == comicId && x.id > 0
    {
      if m[g].id == 0 {
        assert g in order;
        var k :| 0 <= k < |order| && order[k] == g;
        assert st'.items[|st.items| + k] == run[k];
      } else {
        var i :| 0 <= i < |st.items| && st.items[i] == m[g];
        assert st'.items[i] == m[g];
      }
    }
  }

  /**
   When the stored items are those of one (user, comic) pair and the feed
   items carry that pair and no id, so does every merged item, and a merged
   item with an id is a stored one.
   */
  lemma MergeOfPair(known: seq<RssItem>, feed: seq<RssItem>, items: seq<RssItem>, u: int, comicId: int)
    requires forall x | x in known :: x in items && x.userId == u && x.webcomicId == comicId
    requires forall x | x in feed :: x.userId == u && x.webcomicId == comicId && x.id == 0
    ensures var m := Merge(known, feed);
      && (forall g | g in m :: m[g].userId == u && m[g].webcomicId == comicId && m[g].guid == g)
      && (forall g | g in m && m[g].id != 0 :: m[g] in items)
  {
  }

  /**
   The second half of the job, for a comic and its feed: read the stored
   items, merge, save the new ones.
   */
  method Reconcile(st: Store, c: ComicRecord, feed: seq<RssItem>, failing: set<Stmt>)
    returns (st': Store, exit: Exit)
    requires forall x | x in feed :: x.userId == c.userId && x.webcomicId == c.id && x.id == 0
    ensures exit.Finished? || exit.Fatal?
    ensures st'.comics == st.comics && |st'.items| >= |st.items| && st'.items[..|st.items|] == st.items
    ensures WellFormed(st) ==> WellFormed(st')
    ensures SelectKnownItems in failing ==> st' == st && exit == Fatal(KnownQuery(DbError(SelectKnownItems)))
    ensures exit.Fatal? ==> SelectKnownItems in failing || InsertItem in failing
    ensures exit.Finished? ==> |st'.items| == |st.items| + exit.added
    ensures exit.Finished? ==>
      && SelectKnownItems !in failing
      && var known := FetchKnownRssItems(st, c, failing).value;
         && exit.added == |NewGuids(Merge(known, feed))|
         && exit.unread == |UnreadGuids(Merge(known, feed))|
         && (WellFormed(st) ==> Covers(st'.items, c.userId, c.id, Guids(feed)))
  {
    var knownResult := FetchKnownRssItems(st, c, failing);
    if knownResult.Err? {
      return st, Fatal(KnownQuery(knownResult.error));
    }
    var known := knownResult.value;
    var m := Merge(known, feed);
    var inserted, unread, added, outcome;
    st', inserted, unread, added, outcome := SaveNewItems(st, m, failing);
    if WellFormed(st) {
      WrittenKeepsWellFormed(m, inserted, st, st');
    }
    if outcome.Fail? {
      return st', Fatal(ItemInsert(outcome.error));
    }
    if WellFormed(st) {
      MergeOfPair(known, feed, st.items, c.userId, c.id);
      SavedCoversMerge(m, inserted, st, st', c.userId, c.id);
      assert Guids(feed) <= m.Keys;
    }
    exit := Finished(unread, added);
  }

  /**
   The latest-post scan and the log line after it both read the date of
   the first item when it is the current latest; without a date that is a
   nil dereference, whether or not a later item has a date.
   */
  predicate LatestPanics(feed: seq<RssItem>) {
    |feed| > 0 && feed[0].posted.None?
  }

  /** The feed the job goes on to reconcile: that of the comic found, when the lookup and the fetch succeed. */
  function JobFeed(st: Store, userId: int, comicId: int, parsed: Result<seq<FeedEntry>, FeedError>, failing: set<Stmt>): Option<seq<RssItem>> {
    var found := FetchComicByID(st, comicId, userId, failing);
    if found.Ok? && found.value.Some? && FetchRssFeed(found.value.value, parsed).Ok?
    then Some(FetchRssFeed(found.value.value, parsed).value)
    else None
  }

  /**
   The rss_updater job for one (user, comic) pair. `parsed` stands for what
   the feed parser returns for the comic's RSS URL. A comic that is not
   found is dereferenced anyway; so is the date of a latest item without one.
   */
  method RunUpdater(st: Store, userId: int, comicId: int, parsed: Result<seq<FeedEntry>, FeedError>, failing: set<Stmt>)
    returns (st': Store, exit: Exit)
    ensures userId <= 0 || comicId <= 0 ==> st' == st && exit == Fatal(MissingParameters)
    ensures userId > 0 && comicId > 0 && FetchComicByID(st, comicId, userId, failing) == Ok(None) ==> st' == st && exit == Panic
    ensures st'.comics == st.comics && |st'.items| >= |st.items| && st'.items[..|st.items|] == st.items
    ensures WellFormed(st) ==> WellFormed(st')
    ensures exit == Panic <==>
      && userId > 0 && comicId > 0
      && (|| FetchComicByID(st, comicId, userId, failing) == Ok(None)
          || (JobFeed(st, userId, comicId, parsed, failing).Some? && LatestPanics(JobFeed(st, userId, comicId, parsed, failing).value)))
    ensures exit.Fatal? ==>
      || userId <= 0 || comicId <= 0
      || SelectComicById in failing || SelectComicItems in failing || parsed.Err?
      || SelectKnownItems in failing || InsertItem in failing
    ensures exit.Finished? ==> |st'.items| == |st.items| + exit.added
    ensures exit.Finished? ==>
      && SelectKnownItems !in failing && FetchComicByID(st, comicId, userId, failing).Ok?
      && FetchComicByID(st, comicId, userId, failing).value.Some?
      && var c := FetchComicByID(st, comicId, userId, failing).value.value;
         && FetchRssFeed(c, parsed).Ok?
         && var feed := FetchRssFeed(c, parsed).value;
            var known := FetchKnownRssItems(st, c, failing).value;
            && exit.added == |NewGuids(Merge(known, feed))|
            && exit.unread == |UnreadGuids(Merge(known, feed))|
            && (WellFormed(st) ==> Covers(st'.items, userId, comicId, Guids(feed)))
  {
    if userId <= 0 || comicId <= 0 {
      return st, Fatal(MissingParameters);
    }
    var found := FetchComicByID(st, comicId, userId, failing);
    if found.Err? {
      return st, Fatal(ComicQuery(found.error));
    }
    if found.value.None? {
      return st, Panic;
    }
    var c := found.value.value;
    var fetched := FetchRssFeed(c, parsed);
    if fetched.Err? {
      return st, Fatal(FeedFetch);
    }
    var feed := fetched.value;
    var latest := LatestPosted(feed);
    if latest.NilDeref? || (latest.LatestAt? && feed[latest.index].posted.None?) {
      assert LatestPanics(feed);
      return st, Panic;
    }
    assert !LatestPanics(feed);
    st', exit := Reconcile(st, c, feed, failing);
  }

  /**
   A second run against a store the first run finished on inserts nothing:
   every feed guid now has a stored item with an id, so the merge has no
   item without one.
   */
  lemma SecondRunAddsNothing(st: Store, c: ComicRecord, feed: seq<RssItem>)
    requires WellFormed(st)
    requires Covers(st.items, c.userId, c.id, Guids(feed))
    ensures NewGuids(Merge(FetchKnownRssItems(st, c, {}).value, feed)) == {}
  {
    var known := FetchKnownRssItems(st, c, {}).value;
    forall x | x in known
      ensures x.id != 0
    {
      var i :| 0 <= i < |st.items| && st.items[i] == x;
    }
    forall g | g in Guids(feed)
      ensures g in Guids(known)
    {
      var x :| x in st.items && x.guid == g && x.userId == c.userId && x.webcomicId == c.id && x.id > 0;
      assert x in known;
    }
    RerunFindsNothingNew(known, feed);
  }
}
