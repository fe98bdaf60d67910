# Comics tracker: a Dafny model

This project models a personal webcomic tracker. The tracker has two generations:

- The Go generation keeps one row per subscribed comic (`webcomic`), one row per RSS entry (`rss_items`), an in-memory cache in the HTTP server, a command-line tool that adds comics, and a job that reconciles a comic's feed with the stored entries. It also has a user-registration endpoint and request filters.
- The PHP (Symfony) rewrite keeps a `Subscription` entity with a collection of `RssItem` rows, the read-state endpoints that act on them, and a feed check that appends new entries.

The model treats every record as an immutable value and every SQL statement, handler or command as a function from the old state to the new one:

- Time is a whole number of seconds.
- A failing database statement is named in a `failing: set<Stmt>` parameter. A failing statement changes nothing, and the statements before it keep their effect, because the source runs no transactions.
- Map iteration, which is unordered in Go, is modelled by methods that pick the next key arbitrarily. Their contracts hold for every order.
- The feed parser, the HTTP client, bcrypt, the UUID generator and the clock are not modelled. Their results are parameters.

Modules follow the program's structure:

| module | file | models |
|---|---|---|
| `Wrappers` | wrappers.dfy | `Option`, `Result`, `Outcome`; arbitrary choice from a set |
| `GoStrings` | strings.dfy | the parts of Go's `strings` and `strconv` the code calls |
| `Comics` | comic.dfy | pkg/comics/comic.go |
| `ComicDb` | db.dfy | pkg/comics/db.go |
| `Rss` | rss.dfy | pkg/comics/rss.go |
| `RssUpdater` | rss_updater.dfy | cmd/rss_updater/main.go |
| `Server` | server.dfy | cmd/server/server.go |
| `Cli` | cli.dfy | cmd/cli/main.go (addNewComic, parseDateString) |
| `Registration` | registration.dfy | pkg/userserver/handler_registeruser.go |
| `Filters` | filters.dfy | pkg/filters/filters.go |
| `Subscriptions` | subscription.dfy | src/Entity/Subscription.php |
| `SubscriptionApi` | subscription_controller.dfy | src/Controller/SubscriptionController.php |

## Where the code does something surprising

- `UpdateReadNow` writes whatever time it is given; there is no check that last-read only moves forward (`ComicDb.LastReadCanMoveBackwards`).
- `MoveComicsDownIfCollision` counts rows holding the ordinal across all users. It shifts only the inserting user's rows, and its "rows affected" comparison is against that global count (`ComicDb.OtherUsersOrdinalTriggersShift`, `ComicDb.ShiftCountMismatchOnOrdinaryInsert`).
- `InsertNewComic` does not validate the record. Only the command-line tool calls `IsValid`.
- `parseDateString` tests `strings.Index(...) > 0`, so a code at the start of the string is missed. The command-line model parses as written (`Cli.BuildComic` uses `Cli.ParseDateString`); the corrected parse is `Cli.ParseSchedule` (see Findings).
- The `-rss` flag of the add command writes into the latest-comic URL, so a comic added from the command line never has an RSS URL (`Cli.AddedComicHasNoFeed`).
- `MarkRead` on an RSS item marks every stored row with the same guid, for every user and comic (`Rss.MarkReadCrossesUsers`).
- In the PHP feed check, the guid lookup sees only rows that existed before the run, because new rows are flushed at the end. A guid repeated inside one feed is added twice (`Subscriptions.RepeatedGuidInOneFeedAddedTwice`).
- `readAll` overwrites read times that were already set, unlike `markAllRssAsRead` (`SubscriptionApi.ReadAllOverwritesReadTimes`).
- `readAllBefore` looks the pivot item up in the whole table. It uses only the pivot's date, even when the pivot belongs to another subscription (`SubscriptionApi.PivotFromAnotherSubscription`).

## Model

| member | source | states |
|---|---|---|
| Comics.IsValid | pkg/comics/comic.go:43-55 | passes iff title and base URL are non-empty and ordinal is non-zero; otherwise names the first missing field in the order title, base URL, ordinal, each as an if-and-only-if |
| Comics.SupportedDayCodes | pkg/comics/comic.go:57-81 | empty iff no day is set; at most 11 characters; with Sunday set it starts with "Su" |
| Comics.SupportedDayCodesExtremes | pkg/comics/comic.go:57-81 | all seven flags give "SuMTuWThFSa" and none give "" |
| Comics.DueStaysDue | pkg/comics/comic.go:94-106 | a comic due for a start of day stays due for every later start of day on the same weekday |
| Comics.ReadTodayIsNotDue | pkg/comics/comic.go:94-106 | a comic whose last-read is at or after the start of day is not due, whatever its schedule |
| Comics.TodaySelector | pkg/comics/comic.go:91-107 | a comic is due iff it updates on today's weekday and was last read before the start of the day |
| Comics.KeepSide | pkg/comics/comic.go:135-146 | every element kept for one side satisfies the selector exactly as that side demands |
| Comics.KeepMultiset | pkg/comics/comic.go:135-146 | the two sides together are a permutation of the input |
| Comics.KeepMembers | pkg/comics/comic.go:135-146 | an element is on a side iff it is in the input and the selector puts it there |
| Comics.KeepConcat | pkg/comics/comic.go:135-146 | filtering distributes over concatenation, so relative order is kept |
| Comics.SelectSubset | pkg/comics/comic.go:135-146 | the outputs are the order-preserving filters of the input: selected satisfy the selector, the rest do not, and together they are a permutation of the input |
| Comics.OrdinalsWhereSizes | pkg/comics/comic.go:147-158 | with distinct ordinals the two sides' ordinal sets have sizes summing to the number of keys |
| Comics.SelectMapSubset | pkg/comics/comic.go:147-158 | each output map is keyed by ordinal over exactly the ordinals of its side; each value has its key as ordinal, comes from the input and satisfies (or fails) the selector; with distinct ordinals no record is lost |
| Comics.IndexBy | pkg/comics/comic.go:159-165 | the map's keys are exactly the keys of the slice's records, each value comes from the slice under its own key, and the last record with a key wins |
| Comics.LastWithKeyOfPrefix | pkg/comics/comic.go:159-165 | a record that is last with its key stays so without the final element, whose key differs from it |
| Comics.SortByOrdinal | pkg/comics/comic.go:159-165 | keys are exactly the slice's ordinals; the later record with an ordinal wins; nothing is sorted |
| ComicDb.FindComic | pkg/comics/db.go:17-19 | the first row of the (id, user) pair, or the table length when there is none |
| ComicDb.ItemsOfComic | pkg/comics/db.go:28-37 | every returned item is a stored item of the pair without the unselected date column, and every stored item of the pair is returned |
| ComicDb.ItemsOfComicConcat | pkg/comics/db.go:28-37 | the items follow table order: those of two concatenated tables are the first's followed by the second's |
| ComicDb.FetchComicByID | pkg/comics/db.go:12-40 | an error names a failing select; no matching row is absent with no error; when both selects succeed and the pair has a row the comic is found, and it is the stored row of that pair with that pair's items |
| ComicDb.RowsOfComic | pkg/comics/db.go:54-63 | a comic contributes at least one row, each with its selected columns and its id in the item part: one row per item joining it (of any user), or a single row with empty item columns when none joins |
| ComicDb.JoinRows | pkg/comics/db.go:54-74 | every row comes from a comic of the user passing the active and nsfw filters, every such comic has a row, and each row's item part carries its comic's id |
| ComicDb.NoRowsNoItems | pkg/comics/db.go:84-94 | a comic with no joined rows collects no items |
| ComicDb.CollateStep | pkg/comics/db.go:84-94 | absorbing one more row keeps the collation invariant: one record per comic id, taken from the comic's first row, whose items are its rows with non-empty guid in row order |
| ComicDb.AbsorbedRecord | pkg/comics/db.go:85-93 | the record a row updates is the first row's comic with the items of all rows so far |
| ComicDb.AbsorbedIntoKnown | pkg/comics/db.go:85-93 | a row for a comic already collected appends its item only when its guid is non-empty |
| ComicDb.AbsorbedAsNew | pkg/comics/db.go:86-89 | a row for a new comic starts its record from that row's comic columns |
| ComicDb.UntouchedRecord | pkg/comics/db.go:85-93 | a row leaves every other comic's record unchanged |
| ComicDb.Collate | pkg/comics/db.go:84-94 | the collation has a key exactly for every comic id in the rows, and each record is the comic's first row plus its non-empty-guid items |
| ComicDb.ScannedRowsCollapse | pkg/comics/db.go:42-93 | with the rows scanned as sqlx fills the embedded structs, the loop keys every row 0: one record, titled with the first row's item title |
| ComicDb.CollateByItemKeyIsCollate | pkg/comics/db.go:84-94 | when every row's item part carries its comic's id, as the join's ON clause gives it, the loop keyed by the item's webcomic_id computes the collation keyed by comic id |
| ComicDb.ListsOnceStep | pkg/comics/db.go:97-100 | appending the record of an unvisited key keeps every record listed exactly once |
| ComicDb.Flatten | pkg/comics/db.go:97-101 | the output lists every record of the map exactly once, in some order |
| ComicDb.FetchComics | pkg/comics/db.go:49-102 | the result is an error iff the select fails; otherwise it lists each collated comic of the filtered join exactly once |
| ComicDb.UpdateReadNow | pkg/comics/db.go:131-153 | the pair's last-read becomes the given time and every other row is kept; its items are marked read only when the first statement succeeded; a failing first statement changes nothing |
| ComicDb.UpdateReadNowIdempotent | pkg/comics/db.go:131-153 | running the update twice with one time equals running it once |
| ComicDb.LastReadCanMoveBackwards | pkg/comics/db.go:137-140 | an earlier time replaces a later stored one |
| ComicDb.CountOrdinal | pkg/comics/db.go:162-167 | the count is zero iff no row of any user holds the ordinal, and never exceeds the table size |
| ComicDb.MoveComicsDownIfCollision | pkg/comics/db.go:155-193 | other tables and counters are unchanged; rows change only by the shift of the user's rows at or above the ordinal, which happens only after a successful nonzero count, and when the count and the shift succeed the rows are exactly the shifted ones; success iff the count succeeds and either nothing collides or the shift and its row count succeed; the warning is logged iff the move succeeds after a nonzero count that differs from the number of rows shifted |
| ComicDb.NoCollisionNoChange | pkg/comics/db.go:162-168 | when no row holds the ordinal the store is unchanged, the outcome is success and nothing is logged |
| ComicDb.ShiftTouchesOnlyUserRowsFrom | pkg/comics/db.go:169-175 | only this user's rows at or above the ordinal may change, and only by one |
| ComicDb.ShiftOrdinalsFrom | pkg/comics/db.go:169-171 | the table keeps its length and every field but the ordinal; an ordinal goes up by one exactly for the user's rows at or above the inserted ordinal |
| ComicDb.ShiftKeepsOrdinalsDistinct | pkg/comics/db.go:169-175 | the shift keeps each user's ordinals distinct and frees the ordinal for that user |
| ComicDb.MoveFreesOrdinal | pkg/comics/db.go:155-193 | distinct ordinals stay distinct, and on success the user no longer holds the ordinal |
| ComicDb.ShiftCountMismatchOnOrdinaryInsert | pkg/comics/db.go:176-187 | inserting at ordinal 2 among 1,2,3 shifts two rows against a count of one, so the mismatch warning is logged on success |
| ComicDb.OtherUsersOrdinalTriggersShift | pkg/comics/db.go:162-175 | another user's row at the ordinal makes this user's higher rows shift |
| ComicDb.InsertNewComic | pkg/comics/db.go:195-237 | a failed move stops the insert; a failed insert keeps the move; otherwise the row is appended under the next id with the table's default active and nsfw flags, and the id is written back unless reading it fails |
| ComicDb.AppendKeepsIds | pkg/comics/db.go:207-228 | appending a row under the counter keeps ids positive, distinct and below the advanced counter |
| ComicDb.ShiftKeepsIds | pkg/comics/db.go:169-175 | the shift does not disturb the id invariant |
| ComicDb.InsertKeepsWellFormed | pkg/comics/db.go:195-237 | every outcome of the insert keeps the primary-key invariants of both tables |
| ComicDb.InsertKeepsOrdinalsDistinct | pkg/comics/db.go:195-237 | an insert keeps every user's ordinals distinct |
| ComicDb.InsertIntoMiddle | pkg/comics/db.go:195-237 | inserting at ordinal 2 among 1,2,3 gives 1,3,4 and the new row at 2 with id 4 |
| Rss.FetchRssFeed | pkg/comics/rss.go:24-51 | no RSS URL gives no items and no error; a parser error is returned; otherwise one unread, unsaved item of the comic per entry, position by position, with guid, date, title and link copied |
| Rss.FetchRssFeedLosesNothing | pkg/comics/rss.go:37-48 | the entries can be read back from the items |
| Rss.Insert | pkg/comics/rss.go:54-58 | a failing insert changes nothing; otherwise one row is appended under the next item id, without the date column |
| Rss.InsertKeepsWellFormed | pkg/comics/rss.go:54-58 | an insert keeps the primary-key invariants |
| Rss.ItemsOf | pkg/comics/rss.go:67-69 | exactly the stored items of the (user, comic) pair |
| Rss.FetchKnownRssItems | pkg/comics/rss.go:61-78 | an error iff the select fails; otherwise exactly the pair's stored items, and an empty list when there are none |
| Rss.MarkRead | pkg/comics/rss.go:81-85 | a failing update changes nothing; otherwise exactly the rows with the item's guid become read |
| Rss.MarkReadIdempotent | pkg/comics/rss.go:81-85 | marking the same item read a second time changes nothing more |
| Rss.MarkReadKeepsWellFormed | pkg/comics/rss.go:81-85 | marking read keeps the primary-key invariants |
| Rss.MarkReadCrossesUsers | pkg/comics/rss.go:82 | marking one user's item read marks another user's row with the same guid |
| RssUpdater.LatestPosted | cmd/rss_updater/main.go:48-59 | no item gives none; the scan dereferences nil iff the first item is undated and some item is dated; otherwise it picks a dated item with the greatest date, the first such, or the undated first item when nothing is dated |
| RssUpdater.KnownByGuid | cmd/rss_updater/main.go:75-78 | keys are exactly the known guids, and for a repeated guid the last known item wins |
| RssUpdater.AddFreshKeeps | cmd/rss_updater/main.go:81-85 | adding the feed keeps every existing entry, and its keys become the union of both guid sets |
| RssUpdater.AddFreshFirstWins | cmd/rss_updater/main.go:81-85 | among feed items with a guid not yet present, the first one wins |
| RssUpdater.Merge | cmd/rss_updater/main.go:75-85 | keys are the union of known and feed guids; known items are kept exactly as fetched (last wins); a fresh guid maps to its first feed item |
| RssUpdater.MergeKeepsKnown | cmd/rss_updater/main.go:76-84 | a known guid keeps a known item, never a feed item |
| RssUpdater.RerunFindsNothingNew | cmd/rss_updater/main.go:82-84 | when every feed guid is known with an id, the merge has nothing to insert |
| RssUpdater.ReconcileScenario | cmd/rss_updater/main.go:75-106 | a concrete merge in which a read known item stays read and one fresh item is new |
| RssUpdater.ListedStep | cmd/rss_updater/main.go:93-106 | visiting one more key lists it exactly when its id is zero |
| RssUpdater.WrittenStep | cmd/rss_updater/main.go:98-99 | inserting the next listed item extends the written rows by that item |
| RssUpdater.UnreadStep | cmd/rss_updater/main.go:94-97 | visiting one more key counts it exactly when it is unread |
| RssUpdater.SaveStep | cmd/rss_updater/main.go:93-106 | one loop iteration keeps the save invariant |
| RssUpdater.SaveNewItems | cmd/rss_updater/main.go:93-106 | on success the unread count is the number of unread merged items and the added count the number with id zero; exactly those are inserted; a failure is the insert's |
| RssUpdater.SaveDone | cmd/rss_updater/main.go:93-106 | at loop end the counters equal the sizes of the unread and new guid sets |
| RssUpdater.DistinctSeqSize | cmd/rss_updater/main.go:93-106 | a repetition-free list of a set's elements has the set's size |
| RssUpdater.WrittenKeepsWellFormed | cmd/rss_updater/main.go:98-99 | the loop's inserts keep the primary-key invariants |
| RssUpdater.RunKeepsIds | cmd/rss_updater/main.go:98-99 | rows appended under consecutive ids keep ids positive, distinct and below the counter |
| RssUpdater.SavedCoversMerge | cmd/rss_updater/main.go:93-106 | after the loop every merged guid has a stored row of the pair with an id |
| RssUpdater.MergeOfPair | cmd/rss_updater/main.go:68-85 | every merged entry belongs to the pair under its own guid, and an entry with an id is a stored item |
| RssUpdater.Reconcile | cmd/rss_updater/main.go:68-106 | the job only appends rows; a failing known-items query stops it with the store unchanged; a stop is caused by that query or an insert; on completion the table grows by exactly the added count, the counters match the merge and every feed guid is stored |
| RssUpdater.RunUpdater | cmd/rss_updater/main.go:14-114 | non-positive ids stop before anything; a panic happens iff the ids are positive and the comic is missing or its fetched feed starts with an undated item; a stop is caused by a non-positive id, a failing select, a feed error, the known-items query or an insert; the store only gains rows and stays well formed; on completion the table grows by the added count and the counters match the merge of known items and feed |
| RssUpdater.SecondRunAddsNothing | cmd/rss_updater/main.go:82-105 | after a completed run, running again on the same feed inserts nothing |
| Server.CacheComicsData | cmd/server/server.go:33-44 | keys are exactly the slice's ids; each value is from the slice under its id; the last record with an id wins |
| Server.ListedIds | cmd/server/server.go:33-44 | a list of each map record once has exactly the map's keys as ids |
| Server.ListedRecord | cmd/server/server.go:33-44 | caching such a list stores each key's own record |
| Server.DistinctIdsAreLast | cmd/server/server.go:36-38 | without repeated ids every record is the last with its id |
| Server.CacheOfListedMap | cmd/server/server.go:81-85 | caching a list of each map record once gives back the map |
| Server.WorkerStep | cmd/server/server.go:63-76 | the store gets the update for user 1; the cache entry gets last-read t, a missing id becomes a zero record with last-read t, and every other entry is kept |
| Server.WorkerIgnoresStoreErrors | cmd/server/server.go:66-76 | the cache update does not depend on whether the store update failed |
| Server.WorkerKeepsCacheInStep | cmd/server/server.go:63-76 | after a successful update the store row of user 1 and the cache agree on last-read |
| Server.WorkerTakesComicOffToday | cmd/server/server.go:63-76 | after a step at or after the start of today the comic is not due |
| Server.ReadComic | cmd/server/server.go:107-133 | empty id gives 404; an id that is not a 32-bit decimal gives 400; a parsed id is enqueued whether or not cached; a redirect to the base URL iff the id is cached, 404 otherwise |
| Server.ReadLinkRedirects | cmd/server/server.go:107-133 | the read link of a cached id round-trips through formatting and parsing to a redirect |
| Server.ReadWithoutIdIsNotFound | cmd/server/server.go:109-114 | the bare prefix gives 404 and enqueues nothing |
| Server.LoadCache | cmd/server/server.go:81-85 | an error iff the select fails; otherwise the cache equals the collation of the filtered join |
| Server.ListsValuesStep | cmd/server/server.go:165-170 | appending one more side value keeps the list of values complete so far |
| Server.Values | cmd/server/server.go:165-170 | the list holds each value of the map, one per key |
| Server.ListsEveryOrdinal | cmd/server/server.go:165-170 | listing a side keyed by ordinal carries every ordinal of the side |
| Server.ListSides | cmd/server/server.go:160-170 | the today list holds cached records the selector picks and the rest list those it does not, each list as long as its side's ordinal set and carrying every one of those ordinals, and with distinct ordinals all records between them |
| Server.GetActiveComics | cmd/server/server.go:141-170 | a non-empty cache is used as is; an empty one is refilled with active, non-NSFW comics, or the answer is 500 and the cache stays empty; the response lists are those of ListSides for today's selector |
| Cli.IndexFindsOccurrence | cmd/cli/main.go:88-94 | Index is non-negative iff the code occurs, and zero iff it occurs at the start |
| Cli.ParseDateString | cmd/cli/main.go:87-95 | as written: a day is set iff its code occurs in the string but not at its start |
| Cli.ParseSchedule | cmd/cli/main.go:87-95 | corrected: a day is set iff its code occurs anywhere in the string |
| Cli.ParseDateStringDropsLeadingCode | cmd/cli/main.go:87-95 | the parse as written is the corrected one minus the day whose code starts the string |
| Cli.SameFlagsSameSchedule | cmd/cli/main.go:87-95 | schedules agreeing on every weekday are equal |
| Cli.FoundInConcat | cmd/cli/main.go:88-94 | a one- or two-letter code occurs in a concatenation iff in a part, unless it straddles the join |
| Cli.FoundInPiece | pkg/comics/comic.go:57-81 | a weekday's piece of the schedule string contains a day's code iff it is that day and the flag is set |
| Cli.CodeInCode | pkg/comics/comic.go:57-81 | no day code occurs inside another's |
| Cli.FoundInSupported | pkg/comics/comic.go:57-81 | the schedule string contains a day's code iff that day's flag is set |
| Cli.ParseScheduleRoundTrip | cmd/cli/main.go:87-95 | parsing the schedule string of any schedule with the corrected test gives back that schedule |
| Cli.ParseDateStringLosesSunday | cmd/cli/main.go:87-95 | parsing as written the schedule string of any schedule with Sunday set, "SuMTuWThFSa" among them, gives that schedule without Sunday |
| Cli.LeadingCodeIsSunday | pkg/comics/comic.go:57-61 | in a string starting with "Su" only Sunday's code occurs at the start |
| Cli.UpdatesFlagLosesSunday | cmd/cli/main.go:51-57 | adding a comic with -updates set to the schedule string of a schedule with Sunday records that schedule without Sunday |
| Cli.ParseFlags | cmd/cli/main.go:39-46 | for each variable the last flag writing it decides its value, -rss writing the latest-comic URL; a variable no flag writes keeps its default; the RSS string stays empty |
| Cli.RssFlagWritesLatest | cmd/cli/main.go:44 | a trailing -rss flag sets the latest-comic URL |
| Cli.NonEmpty | cmd/cli/main.go:58-66 | an optional URL is set iff its string is non-empty, to that string |
| Cli.BuildComic | cmd/cli/main.go:18-66 | the record carries the flags' title, base and ordinal, last-read 2000-01-01, no schedule unless the updates string is non-empty and then the as-written parse of it, and the non-empty URLs |
| Cli.AddNewComic | cmd/cli/main.go:16-86 | rejected iff the built record is invalid, with the store untouched; otherwise the insert's store, and its id or error |
| Cli.NoFlagsIsRejected | cmd/cli/main.go:18-34 | with no flags the record has ordinal 9999, last-read 2000-01-01 and no schedule, and is rejected for its title |
| Cli.AddedComicHasNoFeed | cmd/cli/main.go:44 | no flag combination gives the record an RSS URL |
| Cli.ZeroOrdinalRejected | cmd/cli/main.go:68-75 | -ord 0 is rejected before any statement runs, even if all would fail |
| Cli.TitleAndBaseAreAdded | cmd/cli/main.go:16-86 | a title and a base are inserted as the last row with ordinal 9999 and the next id |
| Registration.IsValid | pkg/userserver/handler_registeruser.go:26-34 | an accepted e-mail holds exactly one "@"; a failure is always the invalid-format error |
| Registration.IsValidMeansShape | pkg/userserver/handler_registeruser.go:26-34 | the validator passes iff the e-mail has exactly one "@" and a "." after it |
| Registration.IndexOfChar | pkg/userserver/handler_registeruser.go:28 | Index of a one-character string is non-negative iff the character occurs |
| Registration.OnlyOneAt | pkg/userserver/handler_registeruser.go:27-28 | with a single "@" two "@" positions coincide |
| Registration.PasswordIgnored | pkg/userserver/handler_registeruser.go:25-34 | the password plays no part in the decision |
| Registration.EmptyLocalPartAccepted | pkg/userserver/handler_registeruser.go:27-33 | "@a.b" is accepted |
| Registration.TrailingDotAccepted | pkg/userserver/handler_registeruser.go:27-33 | "a@." is accepted |
| Registration.DomainEndingInDotAccepted | pkg/userserver/handler_registeruser.go:27-33 | "a@b." is accepted |
| Registration.DotlessDomainRejected | pkg/userserver/handler_registeruser.go:28-30 | "a@b" is rejected |
| Registration.TwoAtsRejected | pkg/userserver/handler_registeruser.go:27-30 | "a@b@c.d" is rejected |
| Registration.RegisterUser | pkg/userserver/handler_registeruser.go:57-105 | 500 without a connection; 400 for an undecodable or invalid body; 200 iff valid and hashing and saving succeed, and then exactly one user with the e-mail and digest is added; otherwise no user is added |
| Registration.InvalidNeverHashed | pkg/userserver/handler_registeruser.go:75-81 | an invalid request gives 400 whatever the hasher does |
| Filters.ExtractOriginatingIP | pkg/filters/filters.go:14-22 | the flag is set iff the header is present; with it the result starts with the first value, followed by a space when there are more, and is empty when there are none; without it the result is a colon-free prefix of the address ending at its first ":" |
| Filters.AddressWithoutPortIsWhole | pkg/filters/filters.go:19-21 | an address without ":" is returned whole |
| Filters.HostOfHostPort | pkg/filters/filters.go:20 | "host:port" gives the host |
| Filters.BracketedIPv6Truncated | pkg/filters/filters.go:20 | "[::1]:80" gives "[" |
| Filters.JoinInjective | pkg/filters/filters.go:18 | joining space-free values with a space is injective |
| Filters.ForwardedValuesRecoverable | pkg/filters/filters.go:15-18 | the header's space-free values split back out of the joined result |
| Filters.SingleHopForwarded | pkg/filters/filters.go:15-18 | a single header value is returned as is |
| Filters.GetRequestContext | pkg/filters/filters.go:24-38 | a stored context is returned with nothing changed; otherwise a new one with the fresh id is stored under "ctx"; other attributes are kept |
| Filters.RequestContextIsStable | pkg/filters/filters.go:24-38 | after the first call later calls return the same context and change nothing |
| Subscriptions.CollectionItems | src/Entity/Subscription.php:351-354 | the collection's rows in collection order |
| Subscriptions.InsertByPubMultiset | src/Entity/Subscription.php:105 | inserting by date adds exactly the element |
| Subscriptions.InsertByPubSorted | src/Entity/Subscription.php:105 | inserting by date keeps a list sorted |
| Subscriptions.InsertByPubStable | src/Entity/Subscription.php:105 | inserting by date places the element after its equals |
| Subscriptions.SortByPub | src/Entity/Subscription.php:105 | the sort is sorted by date, undated first, and a permutation of its input |
| Subscriptions.SortByPubStable | src/Entity/Subscription.php:105 | items with equal dates keep their relative order, as PHP 8's stable sort does |
| Subscriptions.GetUnreadRssItems | src/Entity/Subscription.php:100-107 | sorted by date, a permutation of the collection's unread items, and an item is listed iff it is in the collection and unread |
| Subscriptions.UnreadKeepsCollectionOrder | src/Entity/Subscription.php:103-106 | unread items with equal dates keep collection order |
| Subscriptions.GetUnreadCount | src/Entity/Subscription.php:109-112 | the number of unread items of the collection |
| Subscriptions.UnreadCountZero | src/Entity/Subscription.php:109-112 | the count is zero iff every collection row has a read time |
| Subscriptions.GetOldestUnreadItem | src/Entity/Subscription.php:118-125 | null iff nothing is unread; otherwise an unread collection item dated no later than any other unread one |
| Subscriptions.AddRssItem | src/Entity/Subscription.php:356-364 | a contained item changes nothing; another is appended and its owner set, other rows unchanged |
| Subscriptions.AddRssItemIdempotent | src/Entity/Subscription.php:356-364 | adding twice is adding once |
| Subscriptions.AddRssItemKeepsConsistent | src/Entity/Subscription.php:356-364 | adding an unowned row keeps collection and owners in agreement |
| Subscriptions.RemoveFirst | src/Entity/Subscription.php:368 | removes one occurrence when present, else nothing |
| Subscriptions.RemoveRssItem | src/Entity/Subscription.php:366-375 | an absent item changes nothing; otherwise it leaves the collection, and its owner is cleared only if it was this subscription |
| Subscriptions.RemoveUndoesAdd | src/Entity/Subscription.php:356-375 | removing a freshly added unowned row restores the subscription and the table |
| Subscriptions.RemoveFirstOfAppended | src/Entity/Subscription.php:368 | removing an appended element not otherwise present restores the list |
| Subscriptions.MarkAllRssAsRead | src/Entity/Subscription.php:377-384 | exactly this subscription's unread rows get now; read times already set and other rows are kept |
| Subscriptions.MarkAllRssAsUnread | src/Entity/Subscription.php:386-393 | exactly this subscription's rows lose their read time; other rows are kept |
| Subscriptions.MarkAllReadKeepsFirstTime | src/Entity/Subscription.php:382 | marking all read again changes nothing, so the first read time is kept |
| Subscriptions.UnreadUndoesRead | src/Entity/Subscription.php:382-391 | unread after read is the same as unread alone |
| Subscriptions.MarkAllReadLeavesNothingUnread | src/Entity/Subscription.php:377-384 | afterwards the subscription has no unread item |
| Subscriptions.MarkAllUnreadLeavesAllUnread | src/Entity/Subscription.php:386-393 | afterwards every item of the subscription is unread |
| Subscriptions.FreshItems | src/Entity/Subscription.php:414-450 | at most one new row per feed item, each unread, owned by this subscription and dated |
| Subscriptions.FreshGuids | src/Entity/Subscription.php:419-447 | a guid gets a new row iff some feed item with it has an unknown guid or a failed lookup |
| Subscriptions.Known | src/Entity/Subscription.php:428-435 | the lookup finds a row iff the guid is in the table's guid column |
| Subscriptions.AppendRows | src/Entity/Subscription.php:447-451 | new rows get consecutive ids from the counter; existing rows are kept |
| Subscriptions.CheckRssFeed | src/Entity/Subscription.php:396-454 | a null rss_url, a status other than 200 or an unparseable body is an error before any change; otherwise the fresh rows are appended to the table and their ids to the collection |
| Subscriptions.CheckedFeedIsKnown | src/Entity/Subscription.php:428-449 | after a check every feed guid has a row |
| Subscriptions.NothingFreshWhenAllKnown | src/Entity/Subscription.php:428-435 | when every guid is known and no lookup fails nothing is added |
| Subscriptions.SecondCheckAddsNothing | src/Entity/Subscription.php:428-449 | checking the same feed again adds nothing |
| Subscriptions.BothCopiesFresh | src/Entity/Subscription.php:428-447 | a guid twice in one feed is added twice |
| Subscriptions.RepeatedGuidInOneFeedAddedTwice | src/Entity/Subscription.php:428-451 | the repeated guid gets two rows |
| Subscriptions.MissingGuidAndDate | src/Entity/Subscription.php:419-426 | an item without guid and date gets its link as guid and now as date |
| Subscriptions.FailedLookupStillAdds | src/Entity/Subscription.php:436-447 | an item whose lookup throws is added even when its guid exists |
| SubscriptionApi.SetReadAt | src/Controller/SubscriptionController.php:78-85 | exactly the listed rows get now, whatever they had |
| SubscriptionApi.ReadAll | src/Controller/SubscriptionController.php:71-87 | an unknown subscription is 404 with no change and no message; otherwise every collection row gets now, one message per item in order, and 202 |
| SubscriptionApi.ReadAllLeavesNothingUnread | src/Controller/SubscriptionController.php:78-85 | afterwards the subscription has no unread item |
| SubscriptionApi.ReadAllOverwritesReadTimes | src/Controller/SubscriptionController.php:78-85 | a read time already set is overwritten, unlike markAllRssAsRead |
| SubscriptionApi.MarkReadBefore | src/Controller/SubscriptionController.php:98-102 | exactly this subscription's unread rows dated at or before the pivot get now |
| SubscriptionApi.ReadAllBefore | src/Controller/SubscriptionController.php:89-105 | an unknown subscription is 404; a missing or undated pivot is a server error; otherwise the update runs and the answer counts the rows it matched |
| SubscriptionApi.ReadBeforeCountsChangedRows | src/Controller/SubscriptionController.php:98-103 | the rows counted are exactly the rows the update changes |
| SubscriptionApi.ReadBeforeClearsUpToPivot | src/Controller/SubscriptionController.php:98-102 | afterwards no such row is unread; later, undated and other subscriptions' rows are unchanged |
| SubscriptionApi.ReadBeforeIdempotent | src/Controller/SubscriptionController.php:98-103 | a second run changes and counts nothing |
| SubscriptionApi.PivotFromAnotherSubscription | src/Controller/SubscriptionController.php:98-102 | a pivot of another subscription supplies only its date |
| SubscriptionApi.Unread | src/Controller/SubscriptionController.php:107-118 | 404 iff the subscription is unknown; otherwise the sorted unread items of its collection, as many as the unread count |
| SubscriptionApi.UnreadAfterReadAllIsEmpty | src/Controller/SubscriptionController.php:71-118 | after readAll the unread list is empty |
| GoStrings.Index | pkg/userserver/handler_registeruser.go:28 | -1 iff the substring never occurs; otherwise its first occurrence |
| GoStrings.Split | pkg/userserver/handler_registeruser.go:27 | one more part than separators, none containing it, and joining them gives back the string |
| GoStrings.Join | pkg/filters/filters.go:18 | no parts give the empty string; otherwise the result starts with the first part, followed by the separator when there are more parts |
| GoStrings.ParseFormatRoundTrip | cmd/server/server.go:115 | every 32-bit integer parses back from its decimal form |
| GoStrings.ParseInt32 | cmd/server/server.go:115 | parses exactly the strings of an optional sign and at least one digit whose value fits in 32 bits, each to that value |
| GoStrings.NonCanonicalForms | cmd/server/server.go:115 | "+5", "007" and "-0" parse; "1a", "+" and the empty string do not |
| GoStrings.TrimPrefixOfConcat | cmd/server/server.go:109 | trimming a prefix from prefix + rest gives rest |
| GoStrings.TrimPrefix | cmd/server/server.go:109 | a present prefix is removed, so prefix and result give back the input; otherwise the input is unchanged; the result is always a suffix of the input |

## Left out

- Concurrency in cmd/server/server.go: the goroutine, the channel and the read-write lock. The worker step and the handlers are modelled one at a time.
- healthCheckHandler, launchServer's routing and the JSON encoding of responses. The JSON marshal error of getActiveComicsHandler is not modelled.
- The gofeed parser, the network, the Symfony HTTP client and simplexml. Their results are inputs (`Rss.FeedEntry`, `Subscriptions.Fetched`).
- bcrypt, the UUID generator and logging (GetContextLogger, GetRequestLogger, RequestLogFilter). bcrypt's result and the new request id are parameters.
- startOfToday's time-zone lookup: the weekday and start of day are parameters of the selector.
- daysAgo, ToString and DaysAgoNow: they format durations with floating point and the clock.
- listActiveComics and markComicRead in cmd/cli/main.go: they are thin wrappers over FetchComics and UpdateReadNow.
- Flag parsing errors, configuration loading and the database connection. A failed connection is fatal before any statement, except in the registration handler, where it is a parameter.
- The controller's index, update, listSubs and createSubscription actions: they render templates or forms.
- Doctrine's flush and the message bus handlers. readAll's dispatched messages are returned as a list of ids.
- ComicDb.FetchComics: it follows the evidently intended scan, in which each column fills its own record, rather than sqlx's (see Findings). Rows are taken comic by comic in table order, each comic's items in table order; the SQL has no ORDER BY, so that order is not promised by the database. Nothing in its contract depends on the order.
- ComicDb.RowsOfComic: the same scan and row-order caveat as FetchComics.
- ComicDb.JoinRows: the same row-order caveat; its contract speaks of membership only.
- Subscriptions.CheckRssFeed: guids are compared exactly. The rss_item table uses the utf8mb4_unicode_ci collation, under which the lookup also matches guids differing in letter case or trailing spaces.
- Subscriptions.MarkAllRssAsRead: it assumes the untyped `new \DateTime()` parameter binds as a date and the UPDATE succeeds. A failure to bind or run the statement is not modelled.
- SubscriptionApi.ReadAll: each item gets its own `new DateTime()` in the source. The model uses one `now` for all of them.
- Rss.FeedError: the parser's error is opaque; the model does not distinguish its kinds.
- RssUpdater.RunUpdater: a nil dereference on a missing comic or an undated first feed item is reported as `Panic` rather than modelled as a crash. The log output, including the latest item's fields, is not modelled.
- Comics.SelectMapSubset, ComicDb.Flatten, Server.Values: the order of the outputs is not stated, because Go's map iteration order is unspecified.

## Findings

| source | as written | input that shows it | evidently intended | confidence | as-written member | corrected member |
|---|---|---|---|---|---|---|
| cmd/cli/main.go:88-94 | each day flag is `strings.Index(s, code) > 0`, which is false for a code at position 0 | `-updates SuMTuWThFSa`, the string SupportedDayCodes produces for every day, leaves Sunday unset; so does any schedule string with Sunday set | `>= 0`: a code anywhere in the string sets its day | high; not executed | Cli.UpdatesFlagLosesSunday | Cli.ParseScheduleRoundTrip |
| pkg/comics/db.go:42-93 | the rows scan into a struct embedding both ComicRecord and RssItem; sqlx maps each column to the first field with its name, so webcomic_id, user_id and both title columns fill the ComicRecord, and the loop keys by the RssItem's webcomic_id, which stays 0 | any user with two comics: FetchComics returns one record, carrying the first row's item title as its title | each column fills its own record and the loop keys by comic id, one record per comic | medium; not executed | ComicDb.ScannedRowsCollapse | ComicDb.CollateByItemKeyIsCollate |
