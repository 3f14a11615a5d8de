/**
 * Creating and finding agree: an entry `create_entry` writes is one that
 * `find_entries` and `find_entries_week` list. That holds when the entry's
 * directory and its name come from the same clock reading; `create_entry`
 * reads the clock twice, and an entry made across midnight at the end of a
 * month is filed where no query for its own day looks.
 */
module Lookup {
  import opened Wrappers
  import opened Decimal
  import opened Strings
  import opened Paths
  import opened Calendar
  import opened FileSystems
  import opened Slugifier
  import opened Journal
  import opened EntryWriter
  import opened QueryEngine

  /**
   * A new entry is listed under the month of the clock reading that chose its
   * directory and the day of the reading that named it, and under no other
   * day.
   */
  lemma EntryFiledUnder(t: Tree, title: string, note: Option<string>, explicitPath: Option<Path>,
                        config: Option<Config>, cwd: Path, dirTime: DateTime, nameTime: DateTime)
    requires WellFormed(t) && ValidDateTime(nameTime)
    ensures var (r, t') := CreateEntrySpec(t, title, note, explicitPath, config, cwd, dirTime, nameTime);
      var root := GetJournalPath(explicitPath, config).GetOr(cwd);
      var home := Date(dirTime.date.year, dirTime.date.month, nameTime.date.day);
      r.Ok? ==>
        && r.value in DayMatches(t', root, home)
        && forall d: Date :: d.day < 100 && r.value in DayMatches(t', root, d) ==> d == home
  {
    var root := GetJournalPath(explicitPath, config).GetOr(cwd);
    var home := Date(dirTime.date.year, dirTime.date.month, nameTime.date.day);
    CreateEntryAddsOne(t, title, note, explicitPath, config, cwd, dirTime, nameTime);
    var (r, t') := CreateEntrySpec(t, title, note, explicitPath, config, cwd, dirTime, nameTime);
    if r.Ok? {
      var slug := Slug(TrimEndMatches(title, ".md"));
      var dir := TargetDir(root, dirTime);
      EntryFileNameFields(nameTime, slug);
      assert r.value[..|dir|] == dir;
      MatchingMembers(t', dir, Some(Pad2(nameTime.date.day)));
      assert r.value in DayMatches(t', root, home);
      forall d: Date | d.day < 100 && r.value in DayMatches(t', root, d)
        ensures d == home
      {
        if d != home {
          DayMatchesDisjoint(t', root, d, home);
        }
      }
    }
  }

  /**
   * With one clock reading, a new entry is listed by the query for today,
   * by the query for its own day, month and year, and by the week query.
   */
  lemma CreatedEntryFound(t: Tree, title: string, note: Option<string>, explicitPath: Option<Path>,
                          config: Option<Config>, cwd: Path, now: DateTime)
    requires WellFormed(t) && ValidDateTime(now)
    ensures var (r, t') := CreateEntrySpec(t, title, note, explicitPath, config, cwd, now, now);
      var root := GetJournalPath(explicitPath, config).GetOr(cwd);
      var d := now.date;
      r.Ok? ==>
        && r.value in EntriesQuery(t', root, None, None, None, d)
        && r.value in EntriesQuery(t', root, Some(d.day), Some(d.month), Some(d.year), d)
        && r.value in WeekQuery(t', root, d)
  {
    EntryFiledUnder(t, title, note, explicitPath, config, cwd, now, now);
    var (r, t') := CreateEntrySpec(t, title, note, explicitPath, config, cwd, now, now);
    var root := GetJournalPath(explicitPath, config).GetOr(cwd);
    if r.Ok? {
      WeekDatesConsecutive(now.date);
      WeekQueryMembers(t', root, now.date);
      assert r.value in DayMatches(t', root, WeekDates(now.date)[Weekday(now.date)]);
    }
  }

  /**
   * A new file in directory `dir` joins the day query of `d` exactly when
   * `dir` is `d`'s month directory and the name carries `d`'s day prefix.
   */
  lemma WrittenIntoDay(t: Tree, root: Path, dir: Path, name: string, content: string, d: Date)
    requires Write(t, dir + [name], content).Ok? && dir + [name] !in t.files
    requires EndsWith(name, ".md")
    ensures DayMatches(Write(t, dir + [name], content).value, root, d)
      == DayMatches(t, root, d)
         + (if MonthDir(root, d.year, d.month) == dir && StartsWith(name, Pad2(d.day)) then {dir + [name]} else {})
  {
    var path := dir + [name];
    var q := MonthDir(root, d.year, d.month);
    WriteListing(t, path, content, q);
    assert Parent(path) == dir;
    if q == dir {
      SelectAdd(ReadDir(t, q), path, Some(Pad2(d.day)));
      assert FileName(path) == name;
    }
  }

  /** The entry's directory and day prefix pick out one date: the month of one reading, the day of the other. */
  lemma EntryDay(root: Path, dirTime: DateTime, nameTime: DateTime, slug: string, d: Date)
    requires ValidDateTime(nameTime) && d.day < 100
    ensures var name := EntryFileName(nameTime, slug);
      MonthDir(root, d.year, d.month) == TargetDir(root, dirTime) && StartsWith(name, Pad2(d.day))
      <==> d == Date(dirTime.date.year, dirTime.date.month, nameTime.date.day)
  {
    var name := EntryFileName(nameTime, slug);
    EntryFileNameFields(nameTime, slug);
    Pad2Value(d.day);
    if MonthDir(root, d.year, d.month) == TargetDir(root, dirTime) && StartsWith(name, Pad2(d.day)) {
      MonthDirInjective(root, d.year, d.month, dirTime.date.year, dirTime.date.month);
      Pad2Injective(d.day, nameTime.date.day);
    }
  }

  /**
   * Creating an entry adds exactly that entry to the day query of its own day
   * (the month of the directory's reading, the day of the name's) and changes
   * the day query of no other day.
   */
  lemma EntryJoinsDay(t: Tree, title: string, note: Option<string>, explicitPath: Option<Path>,
                      config: Option<Config>, cwd: Path, dirTime: DateTime, nameTime: DateTime)
    requires WellFormed(t) && ValidDateTime(nameTime)
    ensures var (r, t') := CreateEntrySpec(t, title, note, explicitPath, config, cwd, dirTime, nameTime);
      var root := GetJournalPath(explicitPath, config).GetOr(cwd);
      var home := Date(dirTime.date.year, dirTime.date.month, nameTime.date.day);
      r.Ok? ==> forall d: Date :: d.day < 100 ==>
        DayMatches(t', root, d) == DayMatches(t, root, d) + (if d == home then {r.value} else {})
  {
    if EndsWith(title, ".md") {
      var root := GetJournalPath(explicitPath, config).GetOr(cwd);
      var (dir, t1) := Resolve(t, root, dirTime);
      ResolveValidates(t, root, dirTime);
      if dir.Ok? {
        var target := TargetDir(root, dirTime);
        var slug := Slug(TrimEndMatches(title, ".md"));
        var name := EntryFileName(nameTime, slug);
        var text := EntryTemplate(title, note, nameTime);
        var home := Date(dirTime.date.year, dirTime.date.month, nameTime.date.day);
        if !Exists(t1, target + [name]) && Write(t1, target + [name], text).Ok? {
          EntryFileNameFields(nameTime, slug);
          var t' := Write(t1, target + [name], text).value;
          forall d: Date | d.day < 100
            ensures DayMatches(t', root, d) == DayMatches(t, root, d) + (if d == home then {target + [name]} else {})
          {
            ResolveListing(t, root, dirTime, MonthDir(root, d.year, d.month));
            WrittenIntoDay(t1, root, target, name, text, d);
            EntryDay(root, dirTime, nameTime, slug, d);
          }
        }
      }
    }
  }

  /** The journal of the example below: the root directory `j`, still empty. */
  function EmptyJournal(): (t: Tree)
    ensures WellFormed(t)
  {
    Tree({["j"]}, map[])
  }

  /**
   * Writing an entry into the empty journal succeeds for any Markdown title
   * and any clock readings, once the year has four digits.
   */
  lemma FirstEntryWritten(title: string, dirTime: DateTime, nameTime: DateTime)
    requires EndsWith(title, ".md")
    requires ValidDateTime(dirTime) && 1000 <= dirTime.date.year <= 9999
    ensures CreateEntrySpec(EmptyJournal(), title, None, Some(["j"]), None, [], dirTime, nameTime).0.Ok?
  {
    var t := EmptyJournal();
    var root: Path := ["j"];
    var target := TargetDir(root, dirTime);
    assert GetJournalPath(Some(root), None).GetOr([]) == root;
    ResolveYearRange(t, root, dirTime);
    assert MkdirAll(t, target).Ok?;
    var (dir, t1) := Resolve(t, root, dirTime);
    assert dir == Ok(target) && t1 == Tree({["j"]} + Ancestry(target), map[]);
    var name := EntryFileName(nameTime, Slug(TrimEndMatches(title, ".md")));
    var path := target + [name];
    FreshDirIsEmpty(t, target, name);
    assert Parent(path) == target;
    assert Write(t1, path, EntryTemplate(title, None, nameTime)).Ok?;
  }

  /**
   * `create_entry` as written, one second either side of midnight on
   * 31 January 2026: the directory is `2026/01`, the name starts `01-`, and
   * the entry is then listed as one of 1 January. Neither the query for
   * 31 January nor the query for today, 1 February, lists it.
   */
  lemma MidnightEntryMisfiled()
    ensures var dirTime := DateTime(Date(2026, 1, 31), 23, 59, 59);
      var nameTime := DateTime(Date(2026, 2, 1), 0, 0, 0);
      var (r, t') := CreateEntrySpec(EmptyJournal(), "x.md", None, Some(["j"]), None, [], dirTime, nameTime);
      && r.Ok?
      && r.value in DayMatches(t', ["j"], Date(2026, 1, 1))
      && r.value !in DayMatches(t', ["j"], dirTime.date)
      && r.value !in EntriesQuery(t', ["j"], None, None, None, nameTime.date)
  {
    var dirTime := DateTime(Date(2026, 1, 31), 23, 59, 59);
    var nameTime := DateTime(Date(2026, 2, 1), 0, 0, 0);
    assert EndsWith("x.md", ".md");
    FirstEntryWritten("x.md", dirTime, nameTime);
    EntryFiledUnder(EmptyJournal(), "x.md", None, Some(["j"]), None, [], dirTime, nameTime);
  }
}
