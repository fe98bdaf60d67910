/**
 Comic records, their weekly update schedule, the "due today" selector and
 the partitioning helpers of pkg/comics/comic.go. Time is whole seconds
 since the Unix epoch.
 */
module Comics {
  import opened Wrappers

  datatype Weekday = Sunday | Monday | Tuesday | Wednesday | Thursday | Friday | Saturday

  /** The seven updates_* columns of a webcomic row. */
  datatype Schedule = Schedule(
    sunday: bool, monday: bool, tuesday: bool, wednesday: bool,
    thursday: bool, friday: bool, saturday: bool)
  {
    /** The flag that belongs to weekday `d`. */
    function UpdatesOn(d: Weekday): bool {
      match d
      case Sunday => sunday
      case Monday => monday
      case Tuesday => tuesday
      case Wednesday => wednesday
      case Thursday => thursday
      case Friday => friday
      case Saturday => saturday
    }
  }

  const NoUpdates: Schedule := Schedule(false, false, false, false, false, false, false)
  const EveryDay: Schedule := Schedule(true, true, true, true, true, true, true)

  /** A row of rss_items as the Go code sees it; `posted` may be nil. */
  datatype RssItem = RssItem(
    id: int, userId: int, webcomicId: int, posted: Option<int>,
    guid: string, isRead: bool, title: string, link: string)

  /** ComicRecord: a webcomic row plus, after a fetch, its RSS items. */
  datatype ComicRecord = ComicRecord(
    id: int, userId: int, title: string, baseUrl: string,
    firstComicUrl: Option<string>, latestComicUrl: Option<string>, rssUrl: Option<string>,
    updates: Schedule, ordinal: int, lastRead: int, active: bool, nsfw: bool,
    rssItems: seq<RssItem>)

  /** The zero value of ComicRecord, which Go yields for a missing map key. */
  const ZeroComic: ComicRecord :=
    ComicRecord(0, 0, "", "", None, None, None, NoUpdates, 0, 0, false, false, [])

  datatype ValidationError = MissingTitle | MissingBaseUrl | MissingOrdinal

  /**
   IsValid: the first missing required field, checked in the order title,
   base URL, ordinal; a record with all three passes.
   */
  function IsValid(c: ComicRecord): (r: Outcome<ValidationError>)
    ensures r == Pass <==> |c.title| > 0 && |c.baseUrl| > 0 && c.ordinal != 0
    ensures r == Fail(MissingTitle) <==> |c.title| == 0
    ensures r == Fail(MissingBaseUrl) <==> |c.title| > 0 && |c.baseUrl| == 0
    ensures r == Fail(MissingOrdinal) <==> |c.title| > 0 && |c.baseUrl| > 0 && c.ordinal == 0
  {
    if |c.title| == 0 then Fail(MissingTitle)
    else if |c.baseUrl| == 0 then Fail(MissingBaseUrl)
    else if c.ordinal == 0 then Fail(MissingOrdinal)
    else Pass
  }

  /** The code of each weekday in the schedule string. */
  function DayCode(d: Weekday): string {
    match d
    case Sunday => "Su"
    case Monday => "M"
    case Tuesday => "Tu"
    case Wednesday => "W"
    case Thursday => "Th"
    case Friday => "F"
    case Saturday => "Sa"
  }

  /** The fixed order in which the codes are written. */
  const WeekOrder: seq<Weekday> := [Sunday, Monday, Tuesday, Wednesday, Thursday, Friday, Saturday]

  /**
   SupportedDayCodes: one code per set flag, Sunday first. The string is
   empty exactly for a schedule without days, at most the eleven letters
   of all seven codes, and starts with "Su" when Sunday is set.
   */
  function SupportedDayCodes(u: Schedule): (s: string)
    ensures |s| == 0 <==> u == NoUpdates
    ensures |s| <= 11
    ensures u.sunday ==> |s| >= 2 && s[0] == 'S' && s[1] == 'u'
  {
    (if u.sunday then "Su" else "")
    + (if u.monday then "M" else "")
    + (if u.tuesday then "Tu" else "")
    + (if u.wednesday then "W" else "")
    + (if u.thursday then "Th" else "")
    + (if u.friday then "F" else "")
    + (if u.saturday then "Sa" else "")
  }

  /** All flags give every code in week order; no flags give the empty string. */
  lemma SupportedDayCodesExtremes()
    ensures SupportedDayCodes(EveryDay) == "SuMTuWThFSa"
    ensures SupportedDayCodes(NoUpdates) == ""
  {
  }

  /**
   The selector GetTodaySelector returns, with the weekday and the start of
   today (both derived from the wall clock in the source) as parameters.
   */
  function TodaySelector(today: Weekday, startOfDay: int): (due: ComicRecord -> bool)
    ensures forall c: ComicRecord :: due(c) ==> c.updates.UpdatesOn(today)
    ensures forall c: ComicRecord :: c.lastRead >= startOfDay ==> !due(c)
    ensures forall c: ComicRecord :: c.updates.UpdatesOn(today) && c.lastRead < startOfDay ==> due(c)
  {
    (c: ComicRecord) => c.updates.UpdatesOn(today) && c.lastRead < startOfDay
  }

  /**
   Scheduling monotonicity: with last-read fixed, a comic due at one start
   of day is still due at any later start of day of the same weekday.
   */
  lemma DueStaysDue(today: Weekday, c: ComicRecord, startOfDay: int, later: int)
    requires TodaySelector(today, startOfDay)(c)
    requires startOfDay <= later
    ensures TodaySelector(today, later)(c)
  {
  }

  /** Reading a comic at or after the start of today takes it off the due list. */
  lemma ReadTodayIsNotDue(today: Weekday, c: ComicRecord, startOfDay: int, t: int)
    requires startOfDay <= t
    ensures !TodaySelector(today, startOfDay)(c.(lastRead := t))
  {
  }

  /** The elements x of `s` with p(x) == want, in their original order. */
  function Keep<T>(s: seq<T>, p: T -> bool, want: bool): seq<T>
    decreases |s|
  {
    if |s| == 0 then []
    else Keep(s[..|s| - 1], p, want) + (if p(s[|s| - 1]) == want then [s[|s| - 1]] else [])
  }

  /** Extending the input by one element extends one side by that element. */
  lemma KeepStep<T>(s: seq<T>, i: nat, p: T -> bool, want: bool)
    requires i < |s|
    ensures Keep(s[..i + 1], p, want) == Keep(s[..i], p, want) + (if p(s[i]) == want then [s[i]] else [])
  {
    assert s[..i + 1][..i] == s[..i];
  }

  /** Every element kept on a side is on that side of the predicate. */
  lemma {:induction false} KeepSide<T>(s: seq<T>, p: T -> bool, want: bool)
    ensures forall x | x in Keep(s, p, want) :: p(x) == want
    decreases |s|
  {
    if |s| > 0 {
      KeepSide(s[..|s| - 1], p, want);
    }
  }

  /** The two sides together are a permutation of the input. */
  lemma {:induction false} KeepMultiset<T>(s: seq<T>, p: T -> bool)
    ensures multiset(Keep(s, p, true)) + multiset(Keep(s, p, false)) == multiset(s)
    decreases |s|
  {
    if |s| > 0 {
      var init := s[..|s| - 1];
      var last := s[|s| - 1];
      calc {
        multiset(Keep(s, p, true)) + multiset(Keep(s, p, false));
        == { KeepMultisetStep(s, p); }
        multiset(Keep(init, p, true)) + multiset(Keep(init, p, false)) + multiset{last};
        == { KeepMultiset(init, p); }
        multiset(init) + multiset{last};
        == { assert s == init + [last]; }
        multiset(s);
      }
    }
  }

  /** The last element of the input lands on exactly one side. */
  lemma KeepMultisetStep<T>(s: seq<T>, p: T -> bool)
    requires |s| > 0
    ensures multiset(Keep(s, p, true)) + multiset(Keep(s, p, false))
      == multiset(Keep(s[..|s| - 1], p, true)) + multiset(Keep(s[..|s| - 1], p, false)) + multiset{s[|s| - 1]}
  {
  }

  /** An element is kept exactly when it is in the input on the wanted side. */
  lemma {:induction false} KeepMembers<T>(s: seq<T>, p: T -> bool, want: bool)
    ensures forall x :: x in Keep(s, p, want) <==> x in s && p(x) == want
    decreases |s|
  {
    if |s| > 0 {
      var init := s[..|s| - 1];
      KeepMembers(init, p, want);
      assert s == init + [s[|s| - 1]];
    }
  }

  /** Keeping from a concatenation keeps from each part. */
  lemma {:induction false} KeepConcat<T>(a: seq<T>, b: seq<T>, p: T -> bool, want: bool)
    ensures Keep(a + b, p, want) == Keep(a, p, want) + Keep(b, p, want)
    decreases |b|
  {
    if |b| > 0 {
      var init := b[..|b| - 1];
      KeepConcat(a, init, p, want);
      assert (a + b)[..|a + b| - 1] == a + init;
      assert (a + b)[|a + b| - 1] == b[|b| - 1];
    } else {
      assert a + b == a;
    }
  }

  /** Nothing is kept when no element is on the wanted side. */
  lemma {:induction false} KeepNone<T>(s: seq<T>, p: T -> bool, want: bool)
    requires forall i | 0 <= i < |s| :: p(s[i]) != want
    ensures Keep(s, p, want) == []
    decreases |s|
  {
    if |s| > 0 {
      KeepNone(s[..|s| - 1], p, want);
    }
  }

  /**
   SelectSubset: splits a slice by the selector. Each output keeps the
   relative order of the input, and together they are a permutation of it.
   */
  method SelectSubset(s: seq<ComicRecord>, sel: ComicRecord -> bool)
    returns (selected: seq<ComicRecord>, theRest: seq<ComicRecord>)
    ensures selected == Keep(s, sel, true)
    ensures theRest == Keep(s, sel, false)
    ensures forall c | c in selected :: sel(c)
    ensures forall c | c in theRest :: !sel(c)
    ensures multiset(selected) + multiset(theRest) == multiset(s)
  {
    selected := [];
    theRest := [];
    for i := 0 to |s|
      invariant selected == Keep(s[..i], sel, true)
      invariant theRest == Keep(s[..i], sel, false)
    {
      KeepStep(s, i, sel, true);
      KeepStep(s, i, sel, false);
      if sel(s[i]) {
        selected := selected + [s[i]];
      } else {
        theRest := theRest + [s[i]];
      }
    }
    assert s[..|s|] == s;
    KeepSide(s, sel, true);
    KeepSide(s, sel, false);
    KeepMultiset(s, sel);
  }

  /** The ordinals of the records of `m` on the side of `sel` given by `want`. */
  function OrdinalsWhere(m: map<int, ComicRecord>, sel: ComicRecord -> bool, want: bool, keys: set<int>): set<int> {
    set k | k in keys && k in m && sel(m[k]) == want :: m[k].ordinal
  }

  /** Processing one more key adds its ordinal to its own side only. */
  lemma OrdinalsWhereAdd(m: map<int, ComicRecord>, sel: ComicRecord -> bool, keys: set<int>, k: int)
    requires k in m
    ensures OrdinalsWhere(m, sel, sel(m[k]), keys + {k}) == OrdinalsWhere(m, sel, sel(m[k]), keys) + {m[k].ordinal}
    ensures OrdinalsWhere(m, sel, !sel(m[k]), keys + {k}) == OrdinalsWhere(m, sel, !sel(m[k]), keys)
  {
  }

  /** No two records of the map share an ordinal. */
  predicate DistinctOrdinals(m: map<int, ComicRecord>) {
    forall j, k | j in m && k in m && j != k :: m[j].ordinal != m[k].ordinal
  }

  /** With distinct ordinals, a key not yet processed has an ordinal not yet used. */
  lemma UnseenOrdinal(m: map<int, ComicRecord>, sel: ComicRecord -> bool, want: bool, keys: set<int>, k: int)
    requires DistinctOrdinals(m)
    requires k in m && k !in keys
    ensures m[k].ordinal !in OrdinalsWhere(m, sel, want, keys)
  {
    forall j | j in keys && j in m
      ensures m[j].ordinal != m[k].ordinal
    {
      assert j != k;
    }
  }

  /** With distinct ordinals, the two sides together have one ordinal per key. */
  lemma {:induction false} OrdinalsWhereSizes(m: map<int, ComicRecord>, sel: ComicRecord -> bool, keys: set<int>)
    requires DistinctOrdinals(m) && keys <= m.Keys
    ensures |OrdinalsWhere(m, sel, true, keys)| + |OrdinalsWhere(m, sel, false, keys)| == |keys|
    decreases keys
  {
    if keys == {} {
      assert OrdinalsWhere(m, sel, true, keys) == {};
      assert OrdinalsWhere(m, sel, false, keys) == {};
    } else {
      var k := Any(keys);
      var rest := keys - {k};
      OrdinalsWhereSizes(m, sel, rest);
      assert keys == rest + {k};
      OrdinalsWhereAdd(m, sel, rest, k);
      UnseenOrdinal(m, sel, sel(m[k]), rest, k);
    }
  }

  /**
   One side of SelectMapSubset after the keys in `done` were visited: keyed
   by the ordinals of the visited records on that side, each entry one of
   those records.
   */
  predicate SideInv(m: map<int, ComicRecord>, sel: ComicRecord -> bool, want: bool, done: set<int>, side: map<int, ComicRecord>) {
    && side.Keys == OrdinalsWhere(m, sel, want, done)
    && forall o | o in side :: side[o].ordinal == o && sel(side[o]) == want && side[o] in m.Values
  }

  /** Visiting key `k` adds its record to its own side and leaves the other alone. */
  lemma SideStep(m: map<int, ComicRecord>, sel: ComicRecord -> bool, want: bool, done: set<int>, side: map<int, ComicRecord>, k: int)
    requires k in m && SideInv(m, sel, want, done, side)
    ensures SideInv(m, sel, want, done + {k}, if sel(m[k]) == want then side[m[k].ordinal := m[k]] else side)
  {
    OrdinalsWhereAdd(m, sel, done, k);
    assert m[k] in m.Values;
  }

  /**
   SelectMapSubset: re-keys the records by ordinal on each side of the
   selector. Go visits the map in no fixed order, so when two records on the
   same side share an ordinal, either may be the one kept.
   */
  method SelectMapSubset(m: map<int, ComicRecord>, sel: ComicRecord -> bool)
    returns (selected: map<int, ComicRecord>, theRest: map<int, ComicRecord>)
    ensures selected.Keys == OrdinalsWhere(m, sel, true, m.Keys)
    ensures theRest.Keys == OrdinalsWhere(m, sel, false, m.Keys)
    ensures forall o | o in selected :: selected[o].ordinal == o && sel(selected[o]) && selected[o] in m.Values
    ensures forall o | o in theRest :: theRest[o].ordinal == o && !sel(theRest[o]) && theRest[o] in m.Values
    ensures DistinctOrdinals(m) ==> |selected| + |theRest| == |m|
  {
    selected := map[];
    theRest := map[];
    var todo := m.Keys;
    ghost var done: set<int> := {};
    assert OrdinalsWhere(m, sel, true, done) == {};
    assert OrdinalsWhere(m, sel, false, done) == {};
    while todo != {}
      invariant todo <= m.Keys && done == m.Keys - todo
      invariant SideInv(m, sel, true, done, selected)
      invariant SideInv(m, sel, false, done, theRest)
      decreases todo
    {
      var k := Pick(todo);
      var c := m[k];
      SideStep(m, sel, true, done, selected, k);
      SideStep(m, sel, false, done, theRest, k);
      if sel(c) {
        selected := selected[c.ordinal := c];
      } else {
        theRest := theRest[c.ordinal := c];
      }
      todo := todo - {k};
      done := done + {k};
    }
    if DistinctOrdinals(m) {
      OrdinalsWhereSizes(m, sel, m.Keys);
    }
  }

  /** The field a slice of records is indexed by. */
  datatype Key = ById | ByOrdinal

  function KeyOf(c: ComicRecord, key: Key): int {
    match key
    case ById => c.id
    case ByOrdinal => c.ordinal
  }

  /** No element after index `i` of `s` has the key of `s[i]`. */
  predicate LastWithKey(s: seq<ComicRecord>, key: Key, i: int)
    requires 0 <= i < |s|
  {
    forall j | i < j < |s| :: KeyOf(s[j], key) != KeyOf(s[i], key)
  }

  /** An element that is last with its key in `s` is so in `s` minus its last element. */
  lemma LastWithKeyOfPrefix(s: seq<ComicRecord>, key: Key)
    requires |s| > 0
    ensures forall i | 0 <= i < |s| - 1 && LastWithKey(s, key, i) ::
      LastWithKey(s[..|s| - 1], key, i) && KeyOf(s[i], key) != KeyOf(s[|s| - 1], key)
  {
    forall i | 0 <= i < |s| - 1 && LastWithKey(s, key, i)
      ensures LastWithKey(s[..|s| - 1], key, i)
    {
    }
  }

  /**
   A map from the key of x to x for every element x of `s`; on a repeated
   key the later element wins.
   */
  function IndexBy(s: seq<ComicRecord>, key: Key): (r: map<int, ComicRecord>)
    ensures r.Keys == set x | x in s :: KeyOf(x, key)
    ensures forall k | k in r :: KeyOf(r[k], key) == k && r[k] in s
    ensures forall i | 0 <= i < |s| && LastWithKey(s, key, i) :: r[KeyOf(s[i], key)] == s[i]
    decreases |s|
  {
    if |s| == 0 then map[]
    else
      var init := s[..|s| - 1];
      var last := s[|s| - 1];
      var r0 := IndexBy(init, key);
      assert s == init + [last];
      LastWithKeyOfPrefix(s, key);
      r0[KeyOf(last, key) := last]
  }

  /**
   SortByOrdinal: despite its name it does not sort; it indexes the slice by
   ordinal, the later element winning on a repeated ordinal.
   */
  function SortByOrdinal(s: seq<ComicRecord>): (r: map<int, ComicRecord>)
    ensures r.Keys == set c | c in s :: c.ordinal
    ensures forall o | o in r :: r[o].ordinal == o && r[o] in s
    ensures forall i | 0 <= i < |s| && LastWithKey(s, ByOrdinal, i) :: r[s[i].ordinal] == s[i]
  {
    IndexBy(s, ByOrdinal)
  }
}
