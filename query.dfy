/**
 * Looking entries up: `find_entries` (a day, a month, a year, or today) and
 * `find_entries_week` (Monday to Sunday of the current week). Each scans
 * month directories with `read_dir`, keeps the `.md` names with the wanted
 * day prefix, skips directories that are missing, and sorts what it found.
 */
module QueryEngine {
  import opened Wrappers
  import opened Decimal
  import opened Strings
  import opened Paths
  import opened Calendar
  import opened FileSystems
  import opened Journal

  /** The name filter: the day prefix when there is one, and the `.md` suffix. */
  predicate IsMatch(name: string, prefix: Option<string>) {
    (prefix.None? || StartsWith(name, prefix.value)) && EndsWith(name, ".md")
  }

  /** The paths of `listing` whose last component passes the filter. */
  function Select(listing: set<Path>, prefix: Option<string>): (r: set<Path>)
    ensures forall p :: p in r <==> p in listing && |p| > 0 && IsMatch(FileName(p), prefix)
  {
    set p | p in listing && |p| > 0 && IsMatch(FileName(p), prefix)
  }

  /** A larger listing never keeps fewer paths. */
  lemma SelectMonotone(a: set<Path>, b: set<Path>, prefix: Option<string>)
    requires a <= b
    ensures Select(a, prefix) <= Select(b, prefix)
  {
  }

  /** The day filter keeps some of what the `.md` filter alone keeps, and both keep only listed paths. */
  lemma SelectDayWithinAll(listing: set<Path>, prefix: string)
    ensures Select(listing, Some(prefix)) <= Select(listing, None) <= listing
  {
  }

  /** What one scan of `read_dir(dir)` keeps; nothing when `dir` is not a directory. */
  function Matching(t: Tree, dir: Path, prefix: Option<string>): set<Path> {
    Select(ReadDir(t, dir), prefix)
  }

  /** The union of `f(x)` over the elements of `xs`. */
  function UnionOf<T>(f: T -> set<Path>, xs: seq<T>): set<Path>
    decreases |xs|
  {
    if xs == [] then {} else UnionOf(f, xs[..|xs| - 1]) + f(xs[|xs| - 1])
  }

  lemma {:induction false} UnionOfMembers<T>(f: T -> set<Path>, xs: seq<T>)
    ensures forall p :: p in UnionOf(f, xs) <==> exists i :: 0 <= i < |xs| && p in f(xs[i])
    decreases |xs|
  {
    if xs != [] {
      var xs' := xs[..|xs| - 1];
      UnionOfMembers(f, xs');
      assert UnionOf(f, xs) == UnionOf(f, xs') + f(xs[|xs| - 1]);
      forall p | p in UnionOf(f, xs)
        ensures exists i :: 0 <= i < |xs| && p in f(xs[i])
      {
        if p !in f(xs[|xs| - 1]) {
          var i :| 0 <= i < |xs'| && p in f(xs'[i]);
          assert xs[i] == xs'[i];
        }
      }
      forall p, i | 0 <= i < |xs| && p in f(xs[i])
        ensures p in UnionOf(f, xs)
      {
        if i < |xs'| {
          assert xs'[i] == xs[i];
        }
      }
    }
  }

  lemma UnionOfSnoc<T>(f: T -> set<Path>, xs: seq<T>, x: T)
    ensures UnionOf(f, xs + [x]) == UnionOf(f, xs) + f(x)
  {
    assert (xs + [x])[..|xs|] == xs;
  }

  lemma {:induction false} UnionOfDisjoint<T>(f: T -> set<Path>, xs: seq<T>, ys: seq<T>)
    requires forall i, j :: 0 <= i < |xs| && 0 <= j < |ys| ==> f(xs[i]) !! f(ys[j])
    ensures UnionOf(f, xs) !! UnionOf(f, ys)
  {
    UnionOfMembers(f, xs);
    UnionOfMembers(f, ys);
  }

  /** The entries of one day: in its month's directory, named after the day's two digits. */
  function DayMatches(t: Tree, root: Path, d: Date): set<Path> {
    Matching(t, MonthDir(root, d.year, d.month), Some(Pad2(d.day)))
  }

  /** The entries of several days. */
  function DatesMatches(t: Tree, root: Path, ds: seq<Date>): set<Path> {
    UnionOf(d => DayMatches(t, root, d), ds)
  }

  /** The months 1 to `k`. */
  function Months(k: nat): (r: seq<nat>)
    ensures |r| == k && forall i :: 0 <= i < k ==> r[i] == i + 1
  {
    seq(k, i requires 0 <= i => i + 1)
  }

  /** The `.md` entries of months 1 to `k` of a year. */
  function YearMatches(t: Tree, root: Path, year: int, k: nat): set<Path> {
    UnionOf((m: nat) => Matching(t, MonthDir(root, year, m), None), Months(k))
  }

  /**
   * What `find_entries` answers, as a set. A missing year or month is taken
   * from `now`; then a day asks for that day's entries of the month, a month
   * for all of the month, a year alone for all twelve months, and nothing
   * at all for today's entries.
   */
  function EntriesQuery(t: Tree, root: Path, day: Option<nat>, month: Option<nat>, year: Option<int>, now: Date)
    : set<Path>
  {
    var targetYear := year.GetOr(now.year);
    var targetMonth := month.GetOr(now.month);
    var monthDir := MonthDir(root, targetYear, targetMonth);
    if day.Some? then Matching(t, monthDir, Some(Pad2(day.value)))
    else if month.Some? then Matching(t, monthDir, None)
    else if year.Some? then YearMatches(t, root, targetYear, 12)
    else Matching(t, monthDir, Some(Pad2(now.day)))
  }

  /** What `find_entries_week` answers, as a set: the entries of the seven days of the week. */
  function WeekQuery(t: Tree, root: Path, now: Date): set<Path> {
    DatesMatches(t, root, WeekDates(now))
  }

  /** `p` is on disk, directly inside the directory `dir`. */
  predicate InDir(t: Tree, p: Path, dir: Path) {
    dir in t.dirs && Exists(t, p) && IsChild(p, dir)
  }

  /** A scan keeps exactly the things inside the directory whose names pass the filter. */
  lemma MatchingMembers(t: Tree, dir: Path, prefix: Option<string>)
    ensures forall p :: p in Matching(t, dir, prefix) <==> InDir(t, p, dir) && IsMatch(FileName(p), prefix)
  {
    ReadDirChildren(t, dir);
  }

  /** A directory that is missing, or is a file, contributes nothing and is not an error. */
  lemma MatchingMissingDir(t: Tree, dir: Path, prefix: Option<string>)
    requires dir !in t.dirs
    ensures Matching(t, dir, prefix) == {}
  {
  }

  /** A year's entries are those of its months 1 to `k`. */
  lemma YearMatchesMembers(t: Tree, root: Path, year: int, k: nat)
    ensures forall p :: p in YearMatches(t, root, year, k) <==>
      exists m :: 1 <= m <= k && p in Matching(t, MonthDir(root, year, m), None)
  {
    var f := (m: nat) => Matching(t, MonthDir(root, year, m), None);
    var ms := Months(k);
    UnionOfMembers(f, ms);
    forall p, m | 1 <= m <= k && p in Matching(t, MonthDir(root, year, m), None)
      ensures p in YearMatches(t, root, year, k)
    {
      assert ms[m - 1] == m && p in f(ms[m - 1]);
    }
  }

  /** The entries of several days are those of each of the days. */
  lemma DatesMatchesMembers(t: Tree, root: Path, ds: seq<Date>)
    ensures forall p :: p in DatesMatches(t, root, ds) <==>
      exists i :: 0 <= i < |ds| && p in DayMatches(t, root, ds[i])
  {
    UnionOfMembers(d => DayMatches(t, root, d), ds);
  }

  /**
   * The four branches of `find_entries`, stated by where an entry sits and
   * what it is called; every entry found is an `.md` name.
   */
  lemma EntriesQueryMembers(t: Tree, root: Path, day: Option<nat>, month: Option<nat>, year: Option<int>, now: Date)
    ensures var y := year.GetOr(now.year);
      var m := month.GetOr(now.month);
      forall p :: p in EntriesQuery(t, root, day, month, year, now) <==>
        if day.Some? then
          InDir(t, p, MonthDir(root, y, m)) && StartsWith(FileName(p), Pad2(day.value)) && EndsWith(FileName(p), ".md")
        else if month.Some? then
          InDir(t, p, MonthDir(root, y, m)) && EndsWith(FileName(p), ".md")
        else if year.Some? then
          (exists k :: 1 <= k <= 12 && InDir(t, p, MonthDir(root, y, k))) && EndsWith(FileName(p), ".md")
        else
          InDir(t, p, MonthDir(root, now.year, now.month))
          && StartsWith(FileName(p), Pad2(now.day)) && EndsWith(FileName(p), ".md")
  {
    var y := year.GetOr(now.year);
    var m := month.GetOr(now.month);
    MatchingMembers(t, MonthDir(root, y, m), if day.Some? then Some(Pad2(day.value)) else None);
    MatchingMembers(t, MonthDir(root, now.year, now.month), Some(Pad2(now.day)));
    if day.None? && month.None? && year.Some? {
      YearMatchesMembers(t, root, y, 12);
      forall k | 1 <= k <= 12
        ensures forall p :: p in Matching(t, MonthDir(root, y, k), None) <==>
          InDir(t, p, MonthDir(root, y, k)) && EndsWith(FileName(p), ".md")
      {
        MatchingMembers(t, MonthDir(root, y, k), None);
      }
    }
  }

  /**
   * The queries nest: a day's entries are among its month's, a month's
   * (1..12) among its year's, and asking for nothing is asking for today.
   */
  lemma QueryNesting(t: Tree, root: Path, day: nat, month: nat, year: int, now: Date)
    ensures EntriesQuery(t, root, Some(day), Some(month), Some(year), now)
            <= EntriesQuery(t, root, None, Some(month), Some(year), now)
    ensures 1 <= month <= 12 ==>
      EntriesQuery(t, root, None, Some(month), Some(year), now) <= EntriesQuery(t, root, None, None, Some(year), now)
    ensures EntriesQuery(t, root, None, None, None, now)
            == EntriesQuery(t, root, Some(now.day), Some(now.month), Some(now.year), now)
  {
    SelectDayWithinAll(ReadDir(t, MonthDir(root, year, month)), Pad2(day));
    if 1 <= month <= 12 {
      YearMatchesMembers(t, root, year, 12);
    }
  }

  /** The week's entries are those of its seven days, Monday to Sunday. */
  lemma WeekQueryMembers(t: Tree, root: Path, now: Date)
    requires ValidDate(now)
    ensures forall p :: p in WeekQuery(t, root, now) <==>
      exists i :: 0 <= i < 7 && p in DayMatches(t, root, WeekDates(now)[i])
  {
    WeekDatesConsecutive(now);
    DatesMatchesMembers(t, root, WeekDates(now));
  }

  /** Scans of two different directories of the same depth find different things. */
  lemma MatchingDisjointDirs(t: Tree, d1: Path, d2: Path, pre1: Option<string>, pre2: Option<string>)
    requires |d1| == |d2| && d1 != d2
    ensures Matching(t, d1, pre1) !! Matching(t, d2, pre2)
  {
    ReadDirChildren(t, d1);
    ReadDirChildren(t, d2);
  }

  /** Two different days below the 100th never share an entry. */
  lemma DayMatchesDisjoint(t: Tree, root: Path, a: Date, b: Date)
    requires a != b && a.day < 100 && b.day < 100
    ensures DayMatches(t, root, a) !! DayMatches(t, root, b)
  {
    var da, db := MonthDir(root, a.year, a.month), MonthDir(root, b.year, b.month);
    if da != db {
      MatchingDisjointDirs(t, da, db, Some(Pad2(a.day)), Some(Pad2(b.day)));
    } else {
      MonthDirInjective(root, a.year, a.month, b.year, b.month);
      Pad2Value(a.day);
      Pad2Value(b.day);
      forall p | p in DayMatches(t, root, a)
        ensures p !in DayMatches(t, root, b)
      {
        if p in DayMatches(t, root, b) {
          var name := FileName(p);
          assert name[..2] == Pad2(a.day) && name[..2] == Pad2(b.day);
          Pad2Injective(a.day, b.day);
        }
      }
    }
  }

  /** A day not among `ds` shares no entry with them. */
  lemma DatesMatchesDisjoint(t: Tree, root: Path, ds: seq<Date>, d: Date)
    requires d.day < 100
    requires forall i :: 0 <= i < |ds| ==> ds[i] != d && ds[i].day < 100
    ensures DatesMatches(t, root, ds) !! DayMatches(t, root, d)
  {
    var f := e => DayMatches(t, root, e);
    forall i | 0 <= i < |ds|
      ensures f(ds[i]) !! f([d][0])
    {
      DayMatchesDisjoint(t, root, ds[i], d);
    }
    UnionOfDisjoint(f, ds, [d]);
  }

  /** Days of two different months share no entry. */
  lemma DayRangesDisjoint(t: Tree, root: Path, y1: int, m1: nat, lo1: nat, hi1: nat,
                          y2: int, m2: nat, lo2: nat, hi2: nat)
    requires (y1, m1) != (y2, m2) && hi1 < 100 && hi2 < 100
    ensures DatesMatches(t, root, DayRange(y1, m1, lo1, hi1)) !! DatesMatches(t, root, DayRange(y2, m2, lo2, hi2))
  {
    var xs, ys := DayRange(y1, m1, lo1, hi1), DayRange(y2, m2, lo2, hi2);
    forall i, j | 0 <= i < |xs| && 0 <= j < |ys|
      ensures DayMatches(t, root, xs[i]) !! DayMatches(t, root, ys[j])
    {
      DayMatchesDisjoint(t, root, xs[i], ys[j]);
    }
    UnionOfDisjoint(e => DayMatches(t, root, e), xs, ys);
  }

  lemma DatesMatchesSnoc(t: Tree, root: Path, ds: seq<Date>, d: Date)
    ensures DatesMatches(t, root, ds + [d]) == DatesMatches(t, root, ds) + DayMatches(t, root, d)
  {
    UnionOfSnoc(e => DayMatches(t, root, e), ds, d);
  }

  lemma DatesMatchesAppend(t: Tree, root: Path, ds: seq<Date>, es: seq<Date>)
    ensures DatesMatches(t, root, ds + es) == DatesMatches(t, root, ds) + DatesMatches(t, root, es)
  {
    var f := e => DayMatches(t, root, e);
    UnionOfMembers(f, ds + es);
    UnionOfMembers(f, ds);
    UnionOfMembers(f, es);
    forall p | p in DatesMatches(t, root, ds + es)
      ensures p in DatesMatches(t, root, ds) + DatesMatches(t, root, es)
    {
      var i :| 0 <= i < |ds + es| && p in f((ds + es)[i]);
      if i >= |ds| {
        assert (ds + es)[i] == es[i - |ds|];
      }
    }
    forall p | p in DatesMatches(t, root, ds) + DatesMatches(t, root, es)
      ensures p in DatesMatches(t, root, ds + es)
    {
      if p in DatesMatches(t, root, ds) {
        var i :| 0 <= i < |ds| && p in f(ds[i]);
        assert (ds + es)[i] == ds[i];
      } else {
        var i :| 0 <= i < |es| && p in f(es[i]);
        assert (ds + es)[|ds| + i] == es[i];
      }
    }
  }

  lemma DayRangeSnoc(year: int, month: nat, lo: nat, hi: nat)
    requires lo <= hi + 1
    ensures DayRange(year, month, lo, hi) + [Date(year, month, hi + 1)] == DayRange(year, month, lo, hi + 1)
  {
  }

  /** Month `m` shares no entry with the months before it. */
  lemma YearMatchesDisjoint(t: Tree, root: Path, year: int, k: nat, m: nat)
    requires k < m
    ensures YearMatches(t, root, year, k) !! Matching(t, MonthDir(root, year, m), None)
  {
    var f := (n: nat) => Matching(t, MonthDir(root, year, n), None);
    var ms := Months(k);
    forall i | 0 <= i < |ms|
      ensures f(ms[i]) !! f([m][0])
    {
      if MonthDir(root, year, ms[i]) == MonthDir(root, year, m) {
        MonthDirInjective(root, year, ms[i], year, m);
      }
      MatchingDisjointDirs(t, MonthDir(root, year, ms[i]), MonthDir(root, year, m), None, None);
    }
    UnionOfDisjoint(f, ms, [m]);
  }

  lemma YearMatchesSnoc(t: Tree, root: Path, year: int, k: nat)
    ensures YearMatches(t, root, year, k + 1) == YearMatches(t, root, year, k) + Matching(t, MonthDir(root, year, k + 1), None)
  {
    assert Months(k + 1) == Months(k) + [k + 1];
    UnionOfSnoc<nat>((m: nat) => Matching(t, MonthDir(root, year, m), None), Months(k), k + 1);
  }

  /** Adding one listed path to what has been scanned adds it to the matches exactly when it passes. */
  lemma SelectAdd(done: set<Path>, p: Path, prefix: Option<string>)
    requires |p| > 0
    ensures Select(done + {p}, prefix) == Select(done, prefix) + (if IsMatch(FileName(p), prefix) then {p} else {})
  {
  }

  /** Taking `p` off what is still to be scanned adds it to what has been scanned. */
  lemma ScanStep<T>(listing: set<T>, pending: set<T>, p: T)
    requires p in pending && pending <= listing
    ensures listing - (pending - {p}) == (listing - pending) + {p}
  {
  }

  /** `entries.push(p)` for a path not yet listed. */
  lemma PushFresh(s: seq<Path>, p: Path)
    requires NoDup(s) && p !in Elems(s)
    ensures NoDup(s + [p]) && Elems(s + [p]) == Elems(s) + {p}
  {
  }

  /** One turn of the scan keeps the scan's invariant. */
  lemma ScanOne(entries: seq<Path>, out: seq<Path>, listing: set<Path>, pending: set<Path>, p: Path,
                prefix: Option<string>)
    requires p in pending && pending <= listing && |p| > 0
    requires Elems(entries) !! Select(listing, prefix)
    requires NoDup(out) && Elems(out) == Elems(entries) + Select(listing - pending, prefix)
    ensures var out' := if IsMatch(FileName(p), prefix) then out + [p] else out;
      NoDup(out') && Elems(out') == Elems(entries) + Select(listing - (pending - {p}), prefix)
  {
    ScanStep(listing, pending, p);
    SelectAdd(listing - pending, p, prefix);
    if IsMatch(FileName(p), prefix) {
      assert p in Select(listing, prefix) && p !in Select(listing - pending, prefix);
      PushFresh(out, p);
    }
  }

  /**
   * One `for file in read_dir(dir)` loop: appends, in listing order, every
   * path whose name passes the filter. The listing order is left open, as
   * `read_dir` leaves it.
   */
  method CollectMatching(fs: FileSystem, dir: Path, prefix: Option<string>, entries: seq<Path>)
    returns (out: seq<Path>)
    requires NoDup(entries) && Elems(entries) !! Matching(fs.State(), dir, prefix)
    ensures NoDup(out) && Elems(out) == Elems(entries) + Matching(fs.State(), dir, prefix)
  {
    var listing := fs.List(dir);
    ghost var matching := Select(listing, prefix);
    assert matching == Matching(fs.State(), dir, prefix);
    out := entries;
    var pending := listing;
    while pending != {}
      invariant pending <= listing
      invariant NoDup(out)
      invariant Elems(out) == Elems(entries) + Select(listing - pending, prefix)
      decreases |pending|
    {
      var p :| p in pending;
      assert IsChild(p, dir);
      ScanOne(entries, out, listing, pending, p, prefix);
      if IsMatch(FileName(p), prefix) {
        out := out + [p];
      }
      pending := pending - {p};
    }
    assert listing - pending == listing;
  }

  /** `collect_entries_for_day`: the day's entries, when its month directory exists. */
  method CollectDay(fs: FileSystem, root: Path, year: int, month: nat, day: nat, entries: seq<Path>)
    returns (out: seq<Path>)
    requires NoDup(entries) && Elems(entries) !! DayMatches(fs.State(), root, Date(year, month, day))
    ensures NoDup(out) && Elems(out) == Elems(entries) + DayMatches(fs.State(), root, Date(year, month, day))
  {
    var monthDir := YearDir(root, year) + [Pad2(month)];
    out := entries;
    if fs.PathExists(monthDir) {
      var dayPrefix := Pad2(day);
      out := CollectMatching(fs, monthDir, Some(dayPrefix), entries);
    }
  }

  /** `for day in lo..=hi { collect_entries_for_day(year, month, day) }`. */
  method CollectDays(fs: FileSystem, root: Path, year: int, month: nat, lo: nat, hi: nat, entries: seq<Path>)
    returns (out: seq<Path>)
    requires 1 <= lo && hi < 100
    requires NoDup(entries) && Elems(entries) !! DatesMatches(fs.State(), root, DayRange(year, month, lo, hi))
    ensures NoDup(out)
    ensures Elems(out) == Elems(entries) + DatesMatches(fs.State(), root, DayRange(year, month, lo, hi))
  {
    ghost var t := fs.State();
    DatesMatchesMembers(t, root, DayRange(year, month, lo, hi));
    out := entries;
    if lo <= hi {
      for day: nat := lo to hi + 1
        invariant NoDup(out)
        invariant Elems(out) == Elems(entries) + DatesMatches(t, root, DayRange(year, month, lo, day - 1))
      {
        ghost var done := DayRange(year, month, lo, day - 1);
        DayRangeSnoc(year, month, lo, day - 1);
        DatesMatchesSnoc(t, root, done, Date(year, month, day));
        DatesMatchesDisjoint(t, root, done, Date(year, month, day));
        assert DayRange(year, month, lo, hi)[day - lo] == Date(year, month, day);
        out := CollectDay(fs, root, year, month, day, out);
      }
    }
  }

  /** The year loop of `find_entries`: the months 1 to 12 that exist, in order. */
  method CollectYear(fs: FileSystem, root: Path, year: int) returns (entries: seq<Path>)
    ensures NoDup(entries) && Elems(entries) == YearMatches(fs.State(), root, year, 12)
  {
    var yearDir := YearDir(root, year);
    entries := [];
    for m: nat := 1 to 13
      invariant NoDup(entries) && Elems(entries) == YearMatches(fs.State(), root, year, m - 1)
    {
      var monthDir := yearDir + [Pad2(m)];
      YearMatchesDisjoint(fs.State(), root, year, m - 1, m);
      YearMatchesSnoc(fs.State(), root, year, m - 1);
      if fs.PathExists(monthDir) {
        entries := CollectMatching(fs, monthDir, None, entries);
      }
    }
  }

  /**
   * `find_entries`: always succeeds, lists each matching entry once, in path
   * order, and lists exactly what the query describes.
   */
  method FindEntries(fs: FileSystem, root: Path, day: Option<nat>, month: Option<nat>, year: Option<int>, now: Date)
    returns (r: Result<seq<Path>, string>)
    ensures r.Ok? && StrictlySorted(r.value)
    ensures Elems(r.value) == EntriesQuery(fs.State(), root, day, month, year, now)
  {
    var targetYear := year.GetOr(now.year);
    var targetMonth := month.GetOr(now.month);
    var yearDir := YearDir(root, targetYear);
    var searchDir := if year.Some? && day.None? && month.None? then yearDir else yearDir + [Pad2(targetMonth)];
    var entries: seq<Path> := [];
    if day.Some? {
      var dayPrefix := Pad2(day.value);
      entries := CollectMatching(fs, searchDir, Some(dayPrefix), entries);
    } else if month.Some? {
      entries := CollectMatching(fs, searchDir, None, entries);
    } else if year.Some? {
      entries := CollectYear(fs, root, targetYear);
    } else {
      var dayPrefix := Pad2(now.day);
      entries := CollectMatching(fs, searchDir, Some(dayPrefix), entries);
    }
    SortStrictlySorted(entries);
    return Ok(SortPaths(entries));
  }

  /**
   * The loops of `find_entries_week`: the days from `start` to `end` when
   * both are in one month, otherwise the rest of `start`'s month and then
   * `end`'s month up to `end`.
   */
  method CollectSpan(fs: FileSystem, root: Path, start: Date, end: Date) returns (entries: seq<Path>)
    requires ValidDate(start) && ValidDate(end)
    ensures NoDup(entries) && Elems(entries) == DatesMatches(fs.State(), root, SpanVisits(start, end))
  {
    ghost var t := fs.State();
    entries := [];
    if start.year == end.year && start.month == end.month {
      entries := CollectDays(fs, root, start.year, start.month, start.day, end.day, entries);
    } else {
      var daysInStartMonth := DaysInMonth(start.month, start.year);
      ghost var first := DayRange(start.year, start.month, start.day, daysInStartMonth);
      ghost var second := DayRange(end.year, end.month, 1, end.day);
      entries := CollectDays(fs, root, start.year, start.month, start.day, daysInStartMonth, entries);
      DayRangesDisjoint(t, root, start.year, start.month, start.day, daysInStartMonth, end.year, end.month, 1, end.day);
      entries := CollectDays(fs, root, end.year, end.month, 1, end.day, entries);
      assert Elems(entries) == DatesMatches(t, root, first) + DatesMatches(t, root, second);
      DatesMatchesAppend(t, root, first, second);
    }
  }

  /** The week's span runs between two real dates and visits the seven dates of the week. */
  lemma WeekSpan(t: Tree, root: Path, now: Date)
    requires ValidDate(now)
    ensures var start := WeekStart(now);
      var end := AddDays(start, 6);
      ValidDate(start) && ValidDate(end)
      && DatesMatches(t, root, SpanVisits(start, end)) == WeekQuery(t, root, now)
  {
    WeekEnds(now);
    WeekVisitsAreWeek(now);
  }

  /**
   * `find_entries_week`: always succeeds and lists, once each and in path
   * order, the entries of the seven days from the Monday on or before `now`
   * to the Sunday after it.
   */
  method FindEntriesWeek(fs: FileSystem, root: Path, now: Date) returns (r: Result<seq<Path>, string>)
    requires ValidDate(now)
    ensures r.Ok? && StrictlySorted(r.value)
    ensures Elems(r.value) == WeekQuery(fs.State(), root, now)
  {
    // The Monday: `now` moved back by its weekday number; the Sunday six days on.
    var start := WeekStart(now);
    var end := AddDays(start, 6);
    WeekSpan(fs.State(), root, now);
    var entries := CollectSpan(fs, root, start, end);
    SortStrictlySorted(entries);
    return Ok(SortPaths(entries));
  }

  /**
   * `get_entries` up to its output: without a journal path it stops with an
   * error; otherwise `--week` asks for the week and anything else goes to
   * `find_entries`.
   */
  method GetEntries(fs: FileSystem, day: Option<nat>, month: Option<nat>, year: Option<int>, week: bool,
                    explicitPath: Option<Path>, config: Option<Config>, now: Date)
    returns (r: Result<seq<Path>, JournalError>)
    requires ValidDate(now)
    ensures GetJournalPath(explicitPath, config).None? ==> r == Err(NoJournalPath)
    ensures GetJournalPath(explicitPath, config).Some? ==>
      var root := GetJournalPath(explicitPath, config).value;
      && r.Ok? && StrictlySorted(r.value)
      && Elems(r.value) == if week then WeekQuery(fs.State(), root, now)
                           else EntriesQuery(fs.State(), root, day, month, year, now)
  {
    var journalPath := GetJournalPath(explicitPath, config);
    if journalPath.None? {
      return Err(NoJournalPath);
    }
    var found;
    if week {
      found := FindEntriesWeek(fs, journalPath.value, now);
    } else {
      found := FindEntries(fs, journalPath.value, day, month, year, now);
    }
    return Ok(found.value);
  }
}
