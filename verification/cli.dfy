/**
 The `add` command of cmd/cli/main.go: turning the command-line flags into
 a comic record, parsing the update-schedule string, and validating the
 record before it reaches the store. Flag values arrive already parsed (an
 unparseable value makes the flag package exit); connecting to the database
 is not modelled.
 */
module Cli {
  import opened Wrappers
  import opened GoStrings
  import opened Comics
  import opened ComicDb

  // ----- The schedule string -----

  /** `sub` occurs somewhere in `s`, which is what strings.Index(s, sub) >= 0 reports. */
  predicate Found(s: string, sub: string) {
    exists i | 0 <= i <= |s| :: OccursAt(s, sub, i)
  }

  lemma IndexFindsOccurrence(s: string, sub: string)
    ensures Index(s, sub) >= 0 <==> Found(s, sub)
    ensures Index(s, sub) == 0 <==> OccursAt(s, sub, 0)
  {
    if Found(s, sub) {
      var i :| 0 <= i <= |s| && OccursAt(s, sub, i);
    }
  }

  lemma IndexFindsEveryCode(s: string)
    ensures forall d: Weekday :: Index(s, DayCode(d)) >= 0 <==> Found(s, DayCode(d))
    ensures forall d: Weekday :: Index(s, DayCode(d)) == 0 <==> OccursAt(s, DayCode(d), 0)
  {
    forall d: Weekday
      ensures Index(s, DayCode(d)) >= 0 <==> Found(s, DayCode(d))
      ensures Index(s, DayCode(d)) == 0 <==> OccursAt(s, DayCode(d), 0)
    {
      IndexFindsOccurrence(s, DayCode(d));
    }
  }

  /** A schedule whose flags each compare the first index of the day's code with `lo`. */
  lemma FlagsFromIndex(s: string, lo: int, u: Schedule)
    requires u == Schedule(
      Index(s, "Su") >= lo, Index(s, "M") >= lo, Index(s, "Tu") >= lo, Index(s, "W") >= lo,
      Index(s, "Th") >= lo, Index(s, "F") >= lo, Index(s, "Sa") >= lo)
    ensures forall d: Weekday :: u.UpdatesOn(d) == (Index(s, DayCode(d)) >= lo)
  {
    forall d: Weekday
      ensures u.UpdatesOn(d) == (Index(s, DayCode(d)) >= lo)
    {
      match d {
        case Sunday =>
        case Monday =>
        case Tuesday =>
        case Wednesday =>
        case Thursday =>
        case Friday =>
        case Saturday =>
      }
    }
  }

  /**
   parseDateString as written: a flag is set when the first occurrence of
   its code is at an index greater than 0, so a code at the very start of
   the string is not recognised.
   */
  function ParseDateString(s: string): (u: Schedule)
    ensures forall d: Weekday :: u.UpdatesOn(d) <==> Found(s, DayCode(d)) && !OccursAt(s, DayCode(d), 0)
  {
    var u := Schedule(
      Index(s, "Su") > 0, Index(s, "M") > 0, Index(s, "Tu") > 0, Index(s, "W") > 0,
      Index(s, "Th") > 0, Index(s, "F") > 0, Index(s, "Sa") > 0);
    IndexFindsEveryCode(s);
    FlagsFromIndex(s, 1, u);
    u
  }

  /** The intended parse: a flag is set iff its code occurs anywhere in the string. */
  function ParseSchedule(s: string): (u: Schedule)
    ensures forall d: Weekday :: u.UpdatesOn(d) <==> Found(s, DayCode(d))
  {
    var u := Schedule(
      Index(s, "Su") >= 0, Index(s, "M") >= 0, Index(s, "Tu") >= 0, Index(s, "W") >= 0,
      Index(s, "Th") >= 0, Index(s, "F") >= 0, Index(s, "Sa") >= 0);
    IndexFindsEveryCode(s);
    FlagsFromIndex(s, 0, u);
    u
  }

  /**
   The parse as written loses exactly the codes found at index 0: a day is
   set iff the intended parse sets it and the string does not start with
   its code.
   */
  lemma ParseDateStringDropsLeadingCode(s: string)
    ensures forall d: Weekday :: ParseDateString(s).UpdatesOn(d) <==> ParseSchedule(s).UpdatesOn(d) && !OccursAt(s, DayCode(d), 0)
  {
  }

  /** Two schedules with the same flag on every day are the same schedule. */
  lemma SameFlagsSameSchedule(a: Schedule, b: Schedule)
    requires forall d: Weekday :: a.UpdatesOn(d) == b.UpdatesOn(d)
    ensures a == b
  {
    assert a.UpdatesOn(Sunday) == b.UpdatesOn(Sunday);
    assert a.UpdatesOn(Monday) == b.UpdatesOn(Monday);
    assert a.UpdatesOn(Tuesday) == b.UpdatesOn(Tuesday);
    assert a.UpdatesOn(Wednesday) == b.UpdatesOn(Wednesday);
    assert a.UpdatesOn(Thursday) == b.UpdatesOn(Thursday);
    assert a.UpdatesOn(Friday) == b.UpdatesOn(Friday);
    assert a.UpdatesOn(Saturday) == b.UpdatesOn(Saturday);
  }

  /** The code day `d` contributes to the schedule string of `u`. */
  function Piece(u: Schedule, d: Weekday): string {
    if u.UpdatesOn(d) then DayCode(d) else ""
  }

  /** The characters a code can end with: never the first character of a two-letter code. */
  predicate EndsWell(s: string) {
    |s| == 0 || s[|s| - 1] !in {'S', 'T'}
  }

  /** An occurrence in either part is one in the concatenation. */
  lemma FoundInPart(a: string, b: string, x: string)
    ensures Found(a, x) || Found(b, x) ==> Found(a + b, x)
  {
    var s := a + b;
    if Found(a, x) {
      var i :| 0 <= i <= |a| && OccursAt(a, x, i);
      assert s[i..i + |x|] == a[i..i + |x|];
      assert OccursAt(s, x, i);
    }
    if Found(b, x) {
      var i :| 0 <= i <= |b| && OccursAt(b, x, i);
      assert s[|a| + i..|a| + i + |x|] == b[i..i + |x|];
      assert OccursAt(s, x, |a| + i);
    }
  }

  /**
   An occurrence of a one- or two-letter `x` in `a + b` is one in `a` or
   one in `b` when no occurrence straddles the joint.
   */
  lemma FoundInConcat(a: string, b: string, x: string)
    requires 1 <= |x| <= 2
    requires |x| == 2 && |a| > 0 && |b| > 0 ==> a[|a| - 1] != x[0] || b[0] != x[1]
    ensures Found(a + b, x) <==> Found(a, x) || Found(b, x)
  {
    FoundInPart(a, b, x);
    var s := a + b;
    if Found(s, x) {
      var i :| 0 <= i <= |s| && OccursAt(s, x, i);
      assert x[0] == s[i] && (|x| == 2 ==> x[1] == s[i + 1]);
      if |a| > 0 && |b| > 0 {
        assert s[|a| - 1] == a[|a| - 1] && s[|a|] == b[0];
      }
      // the occurrence does not straddle the joint
      assert i + |x| <= |a| || i >= |a|;
      if i + |x| <= |a| {
        assert s[i..i + |x|] == a[i..i + |x|];
        assert OccursAt(a, x, i);
      } else {
        assert s[i..i + |x|] == b[i - |a|..i - |a| + |x|];
        assert OccursAt(b, x, i - |a|);
      }
    }
  }

  /** A day's code occurs in another day's code only when the days are the same. */
  lemma FoundInPiece(u: Schedule, e: Weekday, d: Weekday)
    ensures Found(Piece(u, e), DayCode(d)) <==> u.UpdatesOn(e) && e == d
    ensures EndsWell(Piece(u, e))
  {
    if u.UpdatesOn(e) && e == d {
      assert OccursAt(Piece(u, e), DayCode(d), 0);
    }
    if Found(Piece(u, e), DayCode(d)) {
      var i :| 0 <= i <= |Piece(u, e)| && OccursAt(Piece(u, e), DayCode(d), i);
      CodeInCode(e, d, i);
    }
  }

  /** The only place a day's code occurs inside a day's code is the start of its own. */
  lemma CodeInCode(e: Weekday, d: Weekday, i: int)
    requires OccursAt(DayCode(e), DayCode(d), i)
    ensures e == d && i == 0
  {
    assert DayCode(e)[i] == DayCode(d)[0];
    assert |DayCode(d)| == 2 ==> DayCode(e)[i + 1] == DayCode(d)[1];
    match e
    case Sunday =>
      match d {
        case Sunday =>
        case Monday =>
        case Tuesday =>
        case Wednesday =>
        case Thursday =>
        case Friday =>
        case Saturday =>
      }
    case Monday =>
      match d {
        case Sunday =>
        case Monday =>
        case Tuesday =>
        case Wednesday =>
        case Thursday =>
        case Friday =>
        case Saturday =>
      }
    case Tuesday =>
      match d {
        case Sunday =>
        case Monday =>
        case Tuesday =>
        case Wednesday =>
        case Thursday =>
        case Friday =>
        case Saturday =>
      }
    case Wednesday =>
      match d {
        case Sunday =>
        case Monday =>
        case Tuesday =>
        case Wednesday =>
        case Thursday =>
        case Friday =>
        case Saturday =>
      }
    case Thursday =>
      match d {
        case Sunday =>
        case Monday =>
        case Tuesday =>
        case Wednesday =>
        case Thursday =>
        case Friday =>
        case Saturday =>
      }
    case Friday =>
      match d {
        case Sunday =>
        case Monday =>
        case Tuesday =>
        case Wednesday =>
        case Thursday =>
        case Friday =>
        case Saturday =>
      }
    case Saturday =>
      match d {
        case Sunday =>
        case Monday =>
        case Tuesday =>
        case Wednesday =>
        case Thursday =>
        case Friday =>
        case Saturday =>
      }
  }

  /** A concatenation of strings that end well ends well. */
  lemma EndsWellConcat(a: string, b: string)
    requires EndsWell(a) && EndsWell(b)
    ensures EndsWell(a + b)
  {
    if |b| == 0 {
      assert a + b == a;
    } else {
      assert (a + b)[|a + b| - 1] == b[|b| - 1];
    }
  }

  /** The codes that may follow a string that ends well without straddling the joint. */
  predicate CodeShaped(x: string) {
    1 <= |x| <= 2 && (|x| == 2 ==> x[0] in {'S', 'T'})
  }

  /** Appending a string that ends well: a code occurs in the result iff in one of the two. */
  lemma FoundAfter(a: string, b: string, x: string)
    requires EndsWell(a) && EndsWell(b) && CodeShaped(x)
    ensures Found(a + b, x) <==> Found(a, x) || Found(b, x)
    ensures EndsWell(a + b)
  {
    FoundInConcat(a, b, x);
    EndsWellConcat(a, b);
  }

  /** Seven strings that each end well, as the seven pieces of a schedule string. */
  lemma FoundInSeven(q0: string, q1: string, q2: string, q3: string, q4: string, q5: string, q6: string, x: string)
    requires EndsWell(q0) && EndsWell(q1) && EndsWell(q2) && EndsWell(q3)
    requires EndsWell(q4) && EndsWell(q5) && EndsWell(q6) && CodeShaped(x)
    ensures Found(q0 + q1 + q2 + q3 + q4 + q5 + q6, x) <==>
      Found(q0, x) || Found(q1, x) || Found(q2, x) || Found(q3, x) || Found(q4, x) || Found(q5, x) || Found(q6, x)
  {
    FoundAfter(q0, q1, x);
    FoundAfter(q0 + q1, q2, x);
    FoundAfter(q0 + q1 + q2, q3, x);
    FoundAfter(q0 + q1 + q2 + q3, q4, x);
    FoundAfter(q0 + q1 + q2 + q3 + q4, q5, x);
    FoundAfter(q0 + q1 + q2 + q3 + q4 + q5, q6, x);
  }

  /** The rendered schedule is the seven pieces in week order. */
  lemma SupportedIsPieces(u: Schedule)
    ensures SupportedDayCodes(u) ==
      Piece(u, Sunday) + Piece(u, Monday) + Piece(u, Tuesday) + Piece(u, Wednesday)
      + Piece(u, Thursday) + Piece(u, Friday) + Piece(u, Saturday)
  {
  }

  /** A day's code occurs in the rendered schedule exactly when the day is set. */
  lemma FoundInSupported(u: Schedule, d: Weekday)
    ensures Found(SupportedDayCodes(u), DayCode(d)) <==> u.UpdatesOn(d)
  {
    SupportedIsPieces(u);
    FoundInPieces(u, d);
  }

  lemma FoundInPieces(u: Schedule, d: Weekday)
    ensures var pieces := Piece(u, Sunday) + Piece(u, Monday) + Piece(u, Tuesday) + Piece(u, Wednesday)
      + Piece(u, Thursday) + Piece(u, Friday) + Piece(u, Saturday);
      Found(pieces, DayCode(d)) <==> u.UpdatesOn(d)
  {
    FoundInPiece(u, Sunday, d);
    FoundInPiece(u, Monday, d);
    FoundInPiece(u, Tuesday, d);
    FoundInPiece(u, Wednesday, d);
    FoundInPiece(u, Thursday, d);
    FoundInPiece(u, Friday, d);
    FoundInPiece(u, Saturday, d);
    assert CodeShaped(DayCode(d));
    FoundInSeven(Piece(u, Sunday), Piece(u, Monday), Piece(u, Tuesday), Piece(u, Wednesday),
                 Piece(u, Thursday), Piece(u, Friday), Piece(u, Saturday), DayCode(d));
  }

  /** The intended parser reads back exactly the schedule SupportedDayCodes rendered. */
  lemma ParseScheduleRoundTrip(u: Schedule)
    ensures ParseSchedule(SupportedDayCodes(u)) == u
  {
    forall d: Weekday
      ensures ParseSchedule(SupportedDayCodes(u)).UpdatesOn(d) == u.UpdatesOn(d)
    {
      FoundInSupported(u, d);
    }
    SameFlagsSameSchedule(ParseSchedule(SupportedDayCodes(u)), u);
  }

  /** A string that starts with "Su" starts with Sunday's code and with no other day's. */
  lemma LeadingCodeIsSunday(s: string, d: Weekday)
    requires |s| >= 2 && s[0] == 'S' && s[1] == 'u'
    ensures OccursAt(s, DayCode(d), 0) <==> d == Sunday
  {
    if d == Sunday {
      assert s[..2] == "Su";
    }
  }

  /**
   The parse as written reads back the schedule string of any schedule with
   Sunday set, such as "SuMTuWThFSa" for every day, without its Sunday: the
   string starts with Sunday's code.
   */
  lemma ParseDateStringLosesSunday(u: Schedule)
    requires u.sunday
    ensures ParseDateString(SupportedDayCodes(u)) == u.(sunday := false)
  {
    var s := SupportedDayCodes(u);
    ParseScheduleRoundTrip(u);
    ParseDateStringDropsLeadingCode(s);
    forall d: Weekday
      ensures ParseDateString(s).UpdatesOn(d) == u.(sunday := false).UpdatesOn(d)
    {
      LeadingCodeIsSunday(s, d);
    }
    SameFlagsSameSchedule(ParseDateString(s), u.(sunday := false));
  }

  // ----- addNewComic -----

  /** One command-line flag of `add` with its value. */
  datatype Flag =
    | Updates(schedule: string)
    | Ord(ordinal: int)
    | First(url: string)
    | Latest(url: string)
    | Rss(url: string)
    | Title(title: string)
    | Base(url: string)

  /**
   The variables the flags write. The -rss flag is bound to the same
   variable as -latest, and the variable for the RSS URL is never written.
   */
  datatype AddArgs = AddArgs(
    updates: string, ordinal: int, first: string, latest: string, rss: string,
    title: string, baseUrl: string)

  /** Flag defaults: an empty string everywhere and ordinal 9999. */
  const DefaultArgs: AddArgs := AddArgs("", 9999, "", "", "", "", "")

  /** 2000-01-01T00:00:00Z in seconds since the epoch: the last-read of a new comic. */
  const DefaultLastRead: int := 946684800

  function ApplyFlag(a: AddArgs, f: Flag): AddArgs {
    match f
    case Updates(s) => a.(updates := s)
    case Ord(n) => a.(ordinal := n)
    case First(s) => a.(first := s)
    case Latest(s) => a.(latest := s)
    case Rss(s) => a.(latest := s)
    case Title(s) => a.(title := s)
    case Base(s) => a.(baseUrl := s)
  }

  /** The variables after the flag package has processed `flags` left to right. */
  /** The variables of AddArgs that a flag can write. */
  datatype ArgVar = UpdatesVar | OrdinalVar | FirstVar | LatestVar | TitleVar | BaseVar

  /** The variable a flag writes: -rss writes the one -latest writes. */
  function Target(f: Flag): ArgVar {
    match f
    case Updates(_) => UpdatesVar
    case Ord(_) => OrdinalVar
    case First(_) => FirstVar
    case Latest(_) => LatestVar
    case Rss(_) => LatestVar
    case Title(_) => TitleVar
    case Base(_) => BaseVar
  }

  /** The variable `f` writes holds the value `f` carries. */
  predicate Holds(a: AddArgs, f: Flag) {
    match f
    case Updates(s) => a.updates == s
    case Ord(n) => a.ordinal == n
    case First(s) => a.first == s
    case Latest(s) => a.latest == s
    case Rss(s) => a.latest == s
    case Title(s) => a.title == s
    case Base(s) => a.baseUrl == s
  }

  /** `a` and `b` agree on variable `v`. */
  predicate SameVar(a: AddArgs, b: AddArgs, v: ArgVar) {
    match v
    case UpdatesVar => a.updates == b.updates
    case OrdinalVar => a.ordinal == b.ordinal
    case FirstVar => a.first == b.first
    case LatestVar => a.latest == b.latest
    case TitleVar => a.title == b.title
    case BaseVar => a.baseUrl == b.baseUrl
  }

  /** Flag `k` is the last of `flags` to write its variable. */
  predicate LastWriter(flags: seq<Flag>, k: int) {
    0 <= k < |flags| && forall j | k < j < |flags| :: Target(flags[j]) != Target(flags[k])
  }

  /** Applying a flag keeps what holds of every other variable. */
  lemma ApplyFlagFrame(a: AddArgs, f: Flag)
    ensures Holds(ApplyFlag(a, f), f)
    ensures forall g | Target(g) != Target(f) && Holds(a, g) :: Holds(ApplyFlag(a, f), g)
    ensures forall v, b | v != Target(f) && SameVar(a, b, v) :: SameVar(ApplyFlag(a, f), b, v)
    ensures ApplyFlag(a, f).rss == a.rss
  {
  }

  /**
   The flag package's parse: for each variable the last flag that writes it
   decides its value, a variable no flag writes keeps its default, and the
   RSS variable is never written.
   */
  function ParseFlags(flags: seq<Flag>): (a: AddArgs)
    ensures forall k | LastWriter(flags, k) :: Holds(a, flags[k])
    ensures forall v: ArgVar | (forall j | 0 <= j < |flags| :: Target(flags[j]) != v) :: SameVar(a, DefaultArgs, v)
    ensures a.rss == ""
    decreases |flags|
  {
    if |flags| == 0 then DefaultArgs
    else
      var init := flags[..|flags| - 1];
      var a := ParseFlags(init);
      ApplyFlagFrame(a, flags[|flags| - 1]);
      assert forall k | LastWriter(flags, k) && k < |init| :: LastWriter(init, k) && init[k] == flags[k];
      ApplyFlag(a, flags[|flags| - 1])
  }

  /** The last -rss flag, given after every -latest flag, decides the latest-comic URL. */
  lemma RssFlagWritesLatest(flags: seq<Flag>, url: string)
    ensures ParseFlags(flags + [Rss(url)]).latest == url
  {
    assert (flags + [Rss(url)])[..|flags|] == flags;
  }

  /** A string flag value as an optional column: empty means none. */
  function NonEmpty(s: string): (r: Option<string>)
    ensures r.Some? <==> |s| > 0
    ensures r.Some? ==> r.value == s
  {
    if |s| > 0 then Some(s) else None
  }

  /**
   The record addNewComic builds: id and user 0, last-read 2000-01-01, the
   schedule parsed only from a non-empty -updates value, optional URLs set
   only when non-empty. The RSS URL is always absent.
   */
  function BuildComic(a: AddArgs): (c: ComicRecord)
    ensures c.id == 0 && c.userId == 0 && c.lastRead == DefaultLastRead
    ensures c.title == a.title && c.baseUrl == a.baseUrl && c.ordinal == a.ordinal
    ensures |a.updates| == 0 ==> c.updates == NoUpdates
    ensures |a.updates| > 0 ==> c.updates == ParseDateString(a.updates)
    ensures c.firstComicUrl == NonEmpty(a.first) && c.latestComicUrl == NonEmpty(a.latest)
    ensures c.rssUrl == NonEmpty(a.rss)
    ensures !c.active && !c.nsfw && c.rssItems == []
  {
    var updates := if |a.updates| > 0 then ParseDateString(a.updates) else NoUpdates;
    ComicRecord(0, 0, a.title, a.baseUrl, NonEmpty(a.first), NonEmpty(a.latest), NonEmpty(a.rss),
                updates, a.ordinal, DefaultLastRead, false, false, [])
  }

  /** How `add` ends. */
  datatype AddOutcome =
    | Rejected(reason: ValidationError)
    | Added(id: int)
    | InsertFailed(error: DbError)

  /**
   addNewComic: build the record from the flags and validate it; an invalid
   record ends the command before the store is touched; a valid one goes
   through InsertNewComic, whose failure is fatal.
   */
  function AddNewComic(st: Store, flags: seq<Flag>, failing: set<Stmt>): (r: (Store, AddOutcome))
    ensures var c := BuildComic(ParseFlags(flags));
      && (IsValid(c).Fail? <==> r.1.Rejected?)
      && (IsValid(c).Fail? ==> r == (st, Rejected(IsValid(c).error)))
      && (IsValid(c) == Pass ==>
            var ins := InsertNewComic(st, c, failing);
            && r.0 == ins.st
            && (ins.outcome == Pass ==> r.1 == Added(ins.id))
            && (ins.outcome.Fail? ==> r.1 == InsertFailed(ins.outcome.error)))
  {
    var c := BuildComic(ParseFlags(flags));
    match IsValid(c)
    case Fail(e) => (st, Rejected(e))
    case Pass =>
      var ins := InsertNewComic(st, c, failing);
      if ins.outcome.Fail? then (ins.st, InsertFailed(ins.outcome.error)) else (ins.st, Added(ins.id))
  }

  /** With no flags at all the record has the defaults and is rejected for its missing title. */
  lemma NoFlagsIsRejected(st: Store, failing: set<Stmt>)
    ensures var c := BuildComic(ParseFlags([]));
      && c.ordinal == 9999 && c.lastRead == DefaultLastRead && c.updates == NoUpdates
      && AddNewComic(st, [], failing) == (st, Rejected(MissingTitle))
  {
  }

  /**
   The schedule string the program itself writes for a comic that updates
   on Sundays, given back through -updates, yields a record that does not
   update on Sundays.
   */
  lemma UpdatesFlagLosesSunday(u: Schedule)
    requires u.sunday
    ensures BuildComic(ParseFlags([Updates(SupportedDayCodes(u))])).updates == u.(sunday := false)
  {
    assert [Updates(SupportedDayCodes(u))][..0] == [];
    ParseDateStringLosesSunday(u);
  }

  /** However the flags are given, the RSS URL of the record stays absent. */
  lemma AddedComicHasNoFeed(flags: seq<Flag>)
    ensures BuildComic(ParseFlags(flags)).rssUrl.None?
  {
  }

  /**
   A title, a base URL and -ord 0 are rejected for the ordinal, before any
   statement runs, even when every statement would fail.
   */
  lemma ZeroOrdinalRejected(st: Store, t: string, b: string, failing: set<Stmt>)
    requires |t| > 0 && |b| > 0
    ensures AddNewComic(st, [Title(t), Base(b), Ord(0)], failing) == (st, Rejected(MissingOrdinal))
  {
    var flags := [Title(t), Base(b), Ord(0)];
    assert flags[..2] == [Title(t), Base(b)] && flags[..2][..1] == [Title(t)] && flags[..2][..1][..0] == [];
    assert ParseFlags(flags[..1]) == DefaultArgs.(title := t);
    assert ParseFlags(flags[..2]) == DefaultArgs.(title := t, baseUrl := b);
    assert ParseFlags(flags) == DefaultArgs.(title := t, baseUrl := b, ordinal := 0);
  }

  /**
   A title and a base URL with the default ordinal are inserted: the new
   row is the last of the table and carries ordinal 9999 and the store's
   next id, the id InsertNewComic writes back into the record.
   */
  lemma TitleAndBaseAreAdded(st: Store, t: string, b: string)
    requires |t| > 0 && |b| > 0
    ensures var r := AddNewComic(st, [Title(t), Base(b)], {});
      && r.1 == Added(st.nextComicId)
      && |r.0.comics| == |st.comics| + 1
      && r.0.comics[|st.comics|].ordinal == 9999 && r.0.comics[|st.comics|].id == st.nextComicId
  {
    var flags := [Title(t), Base(b)];
    assert flags[..1] == [Title(t)] && flags[..1][..0] == [];
    assert ParseFlags(flags[..1]) == DefaultArgs.(title := t);
    assert ParseFlags(flags) == DefaultArgs.(title := t, baseUrl := b);
  }
}
