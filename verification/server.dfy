/**
 The sequential parts of cmd/server/server.go: the in-memory comic cache,
 one step of the read-update worker, the read handler's outcome and the
 active-comics handler. The goroutine, the channel and the lock around the
 cache are not modelled; the worker step and the handlers are taken one at
 a time, and the clock reading and the weekday are parameters.
 */
module Server {
  import opened Wrappers
  import opened GoStrings
  import opened Comics
  import opened ComicDb

  /** The server's cache: comic id to record. */
  type Cache = map<int, ComicRecord>

  /** The user id the server hard-codes for every query and update. */
  const ServerUser: int := 1

  /** The path prefix the read handler strips. */
  const ReadPrefix: string := "/api/read/"

  /**
   cacheComicsData: the cache holds every record of the slice under its id;
   when two records share an id the later one is kept.
   */
  function CacheComicsData(s: seq<ComicRecord>): (r: Cache)
    ensures r.Keys == set c | c in s :: c.id
    ensures forall id | id in r :: r[id].id == id && r[id] in s
    ensures forall i | 0 <= i < |s| && LastWithKey(s, ById, i) :: r[s[i].id] == s[i]
  {
    IndexBy(s, ById)
  }

  /** Caching a list that holds each record of `m` once gives back `m` itself. */
  lemma CacheOfListedMap(m: map<int, ComicRecord>, out: seq<ComicRecord>)
    requires ListsOnce(m, m.Keys, out)
    ensures CacheComicsData(out) == m
  {
    var r := CacheComicsData(out);
    ListedIds(m, out);
    forall id | id in m
      ensures r[id] == m[id]
    {
      ListedRecord(m, out, id);
    }
  }

  /** The cached record of a listed id is the one `m` holds. */
  lemma ListedRecord(m: map<int, ComicRecord>, out: seq<ComicRecord>, id: int)
    requires ListsOnce(m, m.Keys, out) && id in m
    ensures id in CacheComicsData(out) && CacheComicsData(out)[id] == m[id]
  {
    var k :| 0 <= k < |out| && out[k].id == id;
    DistinctIdsAreLast(out, k);
  }

  /** The ids of a list that holds each record of `m` once are the keys of `m`. */
  lemma ListedIds(m: map<int, ComicRecord>, out: seq<ComicRecord>)
    requires ListsOnce(m, m.Keys, out)
    ensures (set c | c in out :: c.id) == m.Keys
  {
    forall id | id in m
      ensures id in set c | c in out :: c.id
    {
      var k :| 0 <= k < |out| && out[k].id == id;
      assert out[k] in out;
    }
  }

  /** In a list without repeated ids every element is the last with its id. */
  lemma DistinctIdsAreLast(out: seq<ComicRecord>, k: int)
    requires 0 <= k < |out|
    requires forall i, j | 0 <= i < j < |out| :: out[i].id != out[j].id
    ensures LastWithKey(out, ById, k)
  {
  }

  /**
   One step of the worker for comic `id` at time `t`: the store gets
   UpdateReadNow for the server's user, and, whatever the store reported,
   the cache entry gets last-read `t`. An id missing from the cache gets a
   zero record with that last-read.
   */
  function WorkerStep(st: Store, cache: Cache, id: int, t: int, failing: set<Stmt>): (r: (Store, Cache))
    ensures r.0 == UpdateReadNow(st, id, ServerUser, t, failing).0
    ensures r.1.Keys == cache.Keys + {id}
    ensures r.1[id].lastRead == t
    ensures id in cache ==> r.1[id] == cache[id].(lastRead := t)
    ensures id !in cache ==> r.1[id] == ZeroComic.(lastRead := t)
    ensures forall k | k in cache && k != id :: r.1[k] == cache[k]
  {
    var stored := UpdateReadNow(st, id, ServerUser, t, failing).0;
    var before := if id in cache then cache[id] else ZeroComic;
    (stored, cache[id := before.(lastRead := t)])
  }

  /** The cache side of a step does not depend on whether the store update failed. */
  lemma WorkerIgnoresStoreErrors(st: Store, cache: Cache, id: int, t: int, failing: set<Stmt>)
    ensures WorkerStep(st, cache, id, t, failing).1 == WorkerStep(st, cache, id, t, {}).1
  {
  }

  /**
   The cache agrees with the store on the read comic's last-read after a
   step whose store update went through, for the server's user.
   */
  lemma WorkerKeepsCacheInStep(st: Store, cache: Cache, id: int, t: int, failing: set<Stmt>, i: int)
    requires UpdateLastRead !in failing
    requires 0 <= i < |st.comics| && st.comics[i].id == id && st.comics[i].userId == ServerUser
    ensures var r := WorkerStep(st, cache, id, t, failing);
      r.0.comics[i].lastRead == r.1[id].lastRead == t
  {
  }

  /** After a step at or after the start of today the read comic is not due today. */
  lemma WorkerTakesComicOffToday(st: Store, cache: Cache, id: int, t: int, failing: set<Stmt>, today: Weekday, startOfDay: int)
    requires startOfDay <= t
    ensures !TodaySelector(today, startOfDay)(WorkerStep(st, cache, id, t, failing).1[id])
  {
    var before := if id in cache then cache[id] else ZeroComic;
    ReadTodayIsNotDue(today, before, startOfDay, t);
  }

  /** What a handler writes back. */
  datatype Response =
    | NotFound
    | BadRequest
    | InternalError
    | SeeOther(location: string)
    | ComicLists(today: seq<ComicRecord>, theRest: seq<ComicRecord>)

  /**
   readComicHandler: the id after "/api/read/" must be present (else 404)
   and a base-10 integer that fits in 32 bits (else 400). A parsed id is
   handed to the worker before the cache is consulted, so it is enqueued
   even when the cache has no such comic (404); otherwise the response
   redirects to the comic's base URL. The result's first half is the id
   handed to the worker, if any.
   */
  function ReadComic(cache: Cache, path: string): (r: (Option<int>, Response))
    ensures TrimPrefix(path, ReadPrefix) == "" ==> r == (None, NotFound)
    ensures TrimPrefix(path, ReadPrefix) != "" && ParseInt32(TrimPrefix(path, ReadPrefix)).None? ==> r == (None, BadRequest)
    ensures r.0.Some? <==> ParseInt32(TrimPrefix(path, ReadPrefix)).Some?
    ensures r.0.Some? ==> r.0.value == ParseInt32(TrimPrefix(path, ReadPrefix)).value && MinInt32 <= r.0.value <= MaxInt32
    ensures r.1.SeeOther? <==> r.0.Some? && r.0.value in cache
    ensures r.1.SeeOther? ==> r.1.location == cache[r.0.value].baseUrl
    ensures r.0.Some? && r.0.value !in cache ==> r.1 == NotFound
  {
    var idStr := TrimPrefix(path, ReadPrefix);
    if |idStr| == 0 then (None, NotFound)
    else
      match ParseInt32(idStr)
      case None => (None, BadRequest)
      case Some(id) => (Some(id), if id in cache then SeeOther(cache[id].baseUrl) else NotFound)
  }

  /** The link "/api/read/<id>" of a cached comic redirects to its base URL and enqueues the id. */
  lemma ReadLinkRedirects(cache: Cache, id: int)
    requires MinInt32 <= id <= MaxInt32 && id in cache
    ensures ReadComic(cache, ReadPrefix + FormatInt(id)) == (Some(id), SeeOther(cache[id].baseUrl))
  {
    TrimPrefixOfConcat(ReadPrefix, FormatInt(id));
    ParseFormatRoundTrip(id);
  }

  /** The bare prefix names no comic and enqueues nothing. */
  lemma ReadWithoutIdIsNotFound(cache: Cache)
    ensures ReadComic(cache, ReadPrefix) == (None, NotFound)
  {
    TrimPrefixOfConcat(ReadPrefix, "");
    assert ReadPrefix + "" == ReadPrefix;
  }

  /**
   Loading the cache from the store: FetchComics for the server's user with
   the given filters, indexed by id. The loaded cache is exactly the
   collation of the joined rows.
   */
  method LoadCache(st: Store, filterActive: Option<bool>, filterNsfw: Option<bool>, failing: set<Stmt>)
    returns (r: Result<Cache, DbError>)
    ensures SelectJoined in failing <==> r.Err?
    ensures r.Ok? ==> r.value == Collate(JoinRows(st.comics, st.items, ServerUser, filterActive, filterNsfw))
  {
    var fetched := FetchComics(st, ServerUser, filterActive, filterNsfw, failing);
    if fetched.Err? {
      return Err(fetched.error);
    }
    var m := Collate(JoinRows(st.comics, st.items, ServerUser, filterActive, filterNsfw));
    CacheOfListedMap(m, fetched.value);
    return Ok(CacheComicsData(fetched.value));
  }

  /** `out` holds exactly the values of `side`, once per key. */
  predicate ListsValues(side: map<int, ComicRecord>, out: seq<ComicRecord>) {
    && |out| == |side|
    && (forall k | 0 <= k < |out| :: out[k] in side.Values)
    && (forall o | o in side :: side[o] in out)
  }

  lemma ListsValuesStep(side: map<int, ComicRecord>, done: set<int>, out: seq<ComicRecord>, o: int)
    requires o in side && o !in done && done <= side.Keys
    requires |out| == |done| && (forall k | 0 <= k < |out| :: out[k] in side.Values)
    requires forall p | p in done :: side[p] in out
    ensures |out + [side[o]]| == |done + {o}|
    ensures forall k | 0 <= k < |out + [side[o]]| :: (out + [side[o]])[k] in side.Values
    ensures forall p | p in done + {o} :: side[p] in out + [side[o]]
  {
  }

  /** A listing of a side keyed by ordinal carries every one of its ordinals. */
  lemma ListsEveryOrdinal(side: map<int, ComicRecord>, out: seq<ComicRecord>)
    requires ListsValues(side, out)
    requires forall o | o in side :: side[o].ordinal == o
    ensures forall o | o in side.Keys :: exists k | 0 <= k < |out| :: out[k].ordinal == o
  {
    forall o | o in side.Keys
      ensures exists k | 0 <= k < |out| :: out[k].ordinal == o
    {
      var k :| 0 <= k < |out| && out[k] == side[o];
    }
  }

  /** The values of a map in an order of the implementation's choosing. */
  method Values(side: map<int, ComicRecord>) returns (out: seq<ComicRecord>)
    ensures ListsValues(side, out)
  {
    out := [];
    var todo := side.Keys;
    ghost var done: set<int> := {};
    while todo != {}
      invariant todo <= side.Keys && done == side.Keys - todo
      invariant |out| == |done| && (forall k | 0 <= k < |out| :: out[k] in side.Values)
      invariant forall p | p in done :: side[p] in out
      decreases todo
    {
      var o := Pick(todo);
      ListsValuesStep(side, done, out, o);
      out := out + [side[o]];
      todo := todo - {o};
      done := done + {o};
    }
  }

  /**
   The two lists of the response for selector `due`: every entry of `due`
   lists a cached comic `due` selects and the rest one it does not, and each
   list carries every ordinal of its side exactly once.
   */
  ghost predicate SidesListed(c: Cache, due: ComicRecord -> bool, today: seq<ComicRecord>, theRest: seq<ComicRecord>) {
    && |today| == |OrdinalsWhere(c, due, true, c.Keys)|
    && |theRest| == |OrdinalsWhere(c, due, false, c.Keys)|
    && (forall k | 0 <= k < |today| :: today[k] in c.Values && due(today[k]))
    && (forall k | 0 <= k < |theRest| :: theRest[k] in c.Values && !due(theRest[k]))
    && (forall o | o in OrdinalsWhere(c, due, true, c.Keys) :: exists k | 0 <= k < |today| :: today[k].ordinal == o)
    && (forall o | o in OrdinalsWhere(c, due, false, c.Keys) :: exists k | 0 <= k < |theRest| :: theRest[k].ordinal == o)
    && (DistinctOrdinals(c) ==> |today| + |theRest| == |c|)
  }

  /** Splits the cache with `due` and lists both sides. */
  method ListSides(c: Cache, due: ComicRecord -> bool) returns (today: seq<ComicRecord>, theRest: seq<ComicRecord>)
    ensures SidesListed(c, due, today, theRest)
  {
    var selected, rest := SelectMapSubset(c, due);
    today := Values(selected);
    theRest := Values(rest);
    ListsEveryOrdinal(selected, today);
    ListsEveryOrdinal(rest, theRest);
  }

  /**
   getActiveComicsHandler: an empty cache is first refilled with the
   active, non-NSFW comics (a failed fetch is a 500 and the cache stays
   empty); the cache is then split by the today-selector into two lists,
   each keyed by ordinal on the way, so one record per ordinal and side.
   */
  method GetActiveComics(st: Store, cache: Cache, today: Weekday, startOfDay: int, failing: set<Stmt>)
    returns (cache': Cache, resp: Response)
    ensures cache != map[] ==> cache' == cache && resp.ComicLists?
    ensures cache == map[] && SelectJoined in failing ==> cache' == cache && resp == InternalError
    ensures cache == map[] && SelectJoined !in failing ==>
      cache' == Collate(JoinRows(st.comics, st.items, ServerUser, Some(true), Some(false))) && resp.ComicLists?
    ensures resp.ComicLists? ==> SidesListed(cache', TodaySelector(today, startOfDay), resp.today, resp.theRest)
  {
    cache' := cache;
    if |cache| == 0 {
      var loaded := LoadCache(st, Some(true), Some(false), failing);
      if loaded.Err? {
        return cache, InternalError;
      }
      cache' := loaded.value;
    }
    var todayList, restList := ListSides(cache', TodaySelector(today, startOfDay));
    resp := ComicLists(todayList, restList);
  }
}
