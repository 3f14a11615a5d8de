/**
 * The journal the queries are exercised on: months 2026/02, 2026/03 and
 * 2025/01 under the root `t`, with three entries in February (two on the
 * 17th, one on the 18th), one on 1 March and one on 15 January 2025. What
 * follows the day in each name is a parameter, so each fact below holds for
 * every choice of titles and times of day; `Setup` is the one the source's
 * tests create.
 */
module JournalFixture {
  import opened Wrappers
  import opened Decimal
  import opened Strings
  import opened Paths
  import opened Calendar
  import opened FileSystems
  import opened Journal
  import opened QueryEngine

  /** An entry name: two digits of day, the rest of the stamp and title, and `.md`. */
  function EntryName(day: string, rest: string): string {
    day + rest + ".md"
  }

  /** What follows the day in each of the five names. */
  datatype Tails = Tails(note1: string, note2: string, note3: string, march: string, older: string)

  const Setup := Tails("-081503-note1", "-101200-note2", "-090000-note3", "-120000-march-note", "-080000-2025-note")

  const Root: Path := ["t"]
  const Feb: Path := ["t", "2026", "02"]
  const Mar: Path := ["t", "2026", "03"]
  const Jan2025: Path := ["t", "2025", "01"]

  function Note1(x: Tails): Path { Feb + [EntryName("17", x.note1)] }
  function Note2(x: Tails): Path { Feb + [EntryName("17", x.note2)] }
  function Note3(x: Tails): Path { Feb + [EntryName("18", x.note3)] }
  function MarchNote(x: Tails): Path { Mar + [EntryName("01", x.march)] }
  function OldNote(x: Tails): Path { Jan2025 + [EntryName("15", x.older)] }

  /** The disk after the setup; what the files hold does not matter to a query. */
  function Fixture(x: Tails): Tree {
    Tree({Root, ["t", "2026"], Feb, Mar, ["t", "2025"], Jan2025},
         map[Note1(x) := "", Note2(x) := "", Note3(x) := "", MarchNote(x) := "", OldNote(x) := ""])
  }

  /** An entry name passes the filter for its own day, and for a whole month. */
  lemma EntryNameMatches(day: string, rest: string)
    ensures IsMatch(EntryName(day, rest), Some(day)) && IsMatch(EntryName(day, rest), None)
  {
    var name := EntryName(day, rest);
    assert name[..|day|] == day;
    assert name[|name| - 3..] == ".md";
  }

  /** An entry name does not pass the filter for another two-digit day. */
  lemma EntryNameOtherDay(day: string, rest: string, other: string)
    requires |day| == 2 && |other| == 2 && day != other
    ensures !IsMatch(EntryName(day, rest), Some(other))
  {
    assert EntryName(day, rest)[..2] == day;
  }

  /** The year and month directories are named `2026`/`2025` and `01`..`03`. */
  lemma FixtureDirs()
    ensures MonthDir(Root, 2026, 2) == Feb && MonthDir(Root, 2026, 3) == Mar
    ensures MonthDir(Root, 2025, 1) == Jan2025
  {
    YearNames();
    Pad2Digits(1);
    Pad2Digits(2);
    Pad2Digits(3);
  }

  lemma YearNames()
    ensures IntToString(2026) == "2026" && IntToString(2025) == "2025"
  {
    assert IntToString(2026) == "2026";
  }

  /** Exactly the five files are inside month directories; no directory is. */
  lemma FixtureChildren(x: Tails, p: Path, dir: Path)
    requires |dir| == 3 && Exists(Fixture(x), p) && IsChild(p, dir)
    ensures p == Note1(x) || p == Note2(x) || p == Note3(x) || p == MarchNote(x) || p == OldNote(x)
  {
  }

  lemma FebListing(x: Tails)
    ensures ReadDir(Fixture(x), Feb) == {Note1(x), Note2(x), Note3(x)}
  {
    var t := Fixture(x);
    ReadDirChildren(t, Feb);
    assert Mar[2][1] != Feb[2][1] && Jan2025[1][3] != Feb[1][3];
    assert MarchNote(x)[..3] == Mar && OldNote(x)[..3] == Jan2025;
    forall p | p in ReadDir(t, Feb)
      ensures p == Note1(x) || p == Note2(x) || p == Note3(x)
    {
      FixtureChildren(x, p, Feb);
    }
    assert Note1(x)[..3] == Feb && Note2(x)[..3] == Feb && Note3(x)[..3] == Feb;
  }

  lemma MarListing(x: Tails)
    ensures ReadDir(Fixture(x), Mar) == {MarchNote(x)}
  {
    var t := Fixture(x);
    ReadDirChildren(t, Mar);
    assert Feb[2][1] != Mar[2][1] && Jan2025[1][3] != Mar[1][3];
    assert Note1(x)[..3] == Feb && Note2(x)[..3] == Feb && Note3(x)[..3] == Feb && OldNote(x)[..3] == Jan2025;
    forall p | p in ReadDir(t, Mar)
      ensures p == MarchNote(x)
    {
      FixtureChildren(x, p, Mar);
    }
    assert MarchNote(x)[..3] == Mar;
  }

  lemma Jan2025Listing(x: Tails)
    ensures ReadDir(Fixture(x), Jan2025) == {OldNote(x)}
  {
    var t := Fixture(x);
    ReadDirChildren(t, Jan2025);
    assert Feb[1][3] != Jan2025[1][3];
    assert Note1(x)[..3] == Feb && Note2(x)[..3] == Feb && Note3(x)[..3] == Feb && MarchNote(x)[..3] == Mar;
    forall p | p in ReadDir(t, Jan2025)
      ensures p == OldNote(x)
    {
      FixtureChildren(x, p, Jan2025);
    }
    assert OldNote(x)[..3] == Jan2025;
  }

  /** The filter keeps exactly `keep` when it passes those listed paths and no others. */
  lemma SelectExactly(listing: set<Path>, prefix: Option<string>, keep: set<Path>)
    requires keep <= listing
    requires forall p :: p in listing ==> |p| > 0 && (p in keep <==> IsMatch(FileName(p), prefix))
    ensures Select(listing, prefix) == keep
  {
  }

  lemma FebruaryNames(x: Tails)
    ensures FileName(Note1(x)) == EntryName("17", x.note1)
    ensures FileName(Note2(x)) == EntryName("17", x.note2)
    ensures FileName(Note3(x)) == EntryName("18", x.note3)
  {
  }

  /** A query inside February 2026 filters February's three entries. */
  lemma FebQuery(x: Tails, now: Date, day: Option<nat>)
    ensures EntriesQuery(Fixture(x), Root, day, Some(2), Some(2026), now)
            == Select({Note1(x), Note2(x), Note3(x)}, if day.Some? then Some(Pad2(day.value)) else None)
  {
    FixtureDirs();
    FebListing(x);
  }

  lemma DayPrefixes()
    ensures Pad2(17) == "17" && Pad2(18) == "18" && Pad2(25) == "25"
  {
    Pad2Digits(17);
    Pad2Digits(18);
    Pad2Digits(25);
  }

  /** Day 17 of February 2026 has two entries. */
  lemma DayQueryExample(x: Tails, now: Date)
    ensures EntriesQuery(Fixture(x), Root, Some(17), Some(2), Some(2026), now) == {Note1(x), Note2(x)}
  {
    FebQuery(x, now, Some(17));
    DayPrefixes();
    Select17(x);
  }

  lemma Select17(x: Tails)
    ensures Select({Note1(x), Note2(x), Note3(x)}, Some("17")) == {Note1(x), Note2(x)}
  {
    FebruaryNames(x);
    EntryNameMatches("17", x.note1);
    EntryNameMatches("17", x.note2);
    EntryNameOtherDay("18", x.note3, "17");
    SelectExactly({Note1(x), Note2(x), Note3(x)}, Some("17"), {Note1(x), Note2(x)});
  }

  /**
   * Listed in path order, the two entries of the 17th come in the order of
   * their time stamps; in the setup, `note1` (08:15:03) comes first.
   */
  lemma DayQueryOrder(x: Tails, r: seq<Path>)
    requires |x.note1| > 1 && |x.note2| > 1 && x.note1[0] == x.note2[0] && x.note1[1] < x.note2[1]
    requires StrictlySorted(r) && Elems(r) == {Note1(x), Note2(x)}
    ensures r == [Note1(x), Note2(x)]
  {
    var n1, n2 := FileName(Note1(x)), FileName(Note2(x));
    assert n1[3..] == x.note1[1..] + ".md" && n2[3..] == x.note2[1..] + ".md";
    assert StrLess(n1[3..], n2[3..]);
    assert n1[..3] == n2[..3];
    assert StrLess(n1[2..], n2[2..]) by {
      assert n1[2..][1..] == n1[3..] && n2[2..][1..] == n2[3..];
    }
    assert StrLess(n1[1..], n2[1..]) by {
      assert n1[1..][1..] == n1[2..] && n2[1..][1..] == n2[2..];
    }
    assert StrLess(n1, n2);
    assert PathLess(Note1(x)[3..], Note2(x)[3..]);
    assert PathLess(Note1(x), Note2(x));
    SortedUnique(r, [Note1(x), Note2(x)]);
  }

  /** The setup's stamps put `note1` before `note2`. */
  lemma SetupOrder(r: seq<Path>)
    requires StrictlySorted(r) && Elems(r) == {Note1(Setup), Note2(Setup)}
    ensures r == [Note1(Setup), Note2(Setup)]
  {
    assert Setup.note1[1] == '0' && Setup.note2[1] == '1';
    DayQueryOrder(Setup, r);
  }

  /** Day 18 has one entry. */
  lemma Day18Example(x: Tails, now: Date)
    ensures EntriesQuery(Fixture(x), Root, Some(18), Some(2), Some(2026), now) == {Note3(x)}
  {
    FebQuery(x, now, Some(18));
    DayPrefixes();
    Select18(x);
  }

  lemma Select18(x: Tails)
    ensures Select({Note1(x), Note2(x), Note3(x)}, Some("18")) == {Note3(x)}
  {
    FebruaryNames(x);
    EntryNameOtherDay("17", x.note1, "18");
    EntryNameOtherDay("17", x.note2, "18");
    EntryNameMatches("18", x.note3);
    SelectExactly({Note1(x), Note2(x), Note3(x)}, Some("18"), {Note3(x)});
  }

  /** Day 25 has none. */
  lemma EmptyDayExample(x: Tails, now: Date)
    ensures EntriesQuery(Fixture(x), Root, Some(25), Some(2), Some(2026), now) == {}
  {
    FebQuery(x, now, Some(25));
    DayPrefixes();
    FebruaryNames(x);
    EntryNameOtherDay("17", x.note1, "25");
    EntryNameOtherDay("17", x.note2, "25");
    EntryNameOtherDay("18", x.note3, "25");
    SelectExactly({Note1(x), Note2(x), Note3(x)}, Some("25"), {});
  }

  /** February 2026 has three entries. */
  lemma MonthQueryExample(x: Tails, now: Date)
    ensures EntriesQuery(Fixture(x), Root, None, Some(2), Some(2026), now) == {Note1(x), Note2(x), Note3(x)}
  {
    FebQuery(x, now, None);
    SelectFebruary(x);
  }

  lemma SelectFebruary(x: Tails)
    ensures Select({Note1(x), Note2(x), Note3(x)}, None) == {Note1(x), Note2(x), Note3(x)}
  {
    FebruaryNames(x);
    EntryNameMatches("17", x.note1);
    EntryNameMatches("17", x.note2);
    EntryNameMatches("18", x.note3);
    SelectExactly({Note1(x), Note2(x), Note3(x)}, None, {Note1(x), Note2(x), Note3(x)});
  }

  /** A month directory of a year other than the fixture's months is not there. */
  lemma OtherMonthsMissing(x: Tails, year: int, m: nat)
    requires (year, m) != (2026, 2) && (year, m) != (2026, 3) && (year, m) != (2025, 1)
    ensures MonthDir(Root, year, m) !in Fixture(x).dirs
  {
    FixtureDirs();
    if MonthDir(Root, year, m) == Feb {
      MonthDirInjective(Root, year, m, 2026, 2);
    } else if MonthDir(Root, year, m) == Mar {
      MonthDirInjective(Root, year, m, 2026, 3);
    } else if MonthDir(Root, year, m) == Jan2025 {
      MonthDirInjective(Root, year, m, 2025, 1);
    }
  }

  /** The query for 2026 scans February and March; the other months are missing. */
  lemma Year2026Query(x: Tails, now: Date)
    ensures EntriesQuery(Fixture(x), Root, None, None, Some(2026), now)
            == Select({Note1(x), Note2(x), Note3(x)}, None) + Select({MarchNote(x)}, None)
  {
    Year2026Months(x);
    FebListing(x);
    MarListing(x);
  }

  lemma Year2026Months(x: Tails)
    ensures YearMatches(Fixture(x), Root, 2026, 12) == Matching(Fixture(x), Feb, None) + Matching(Fixture(x), Mar, None)
  {
    var t := Fixture(x);
    FixtureDirs();
    YearMatchesMembers(t, Root, 2026, 12);
    forall p | p in YearMatches(t, Root, 2026, 12)
      ensures p in Matching(t, Feb, None) + Matching(t, Mar, None)
    {
      Year2026Only(x, p);
    }
    forall p | p in Matching(t, Feb, None) + Matching(t, Mar, None)
      ensures p in YearMatches(t, Root, 2026, 12)
    {
      if p in Matching(t, Feb, None) {
        assert p in Matching(t, MonthDir(Root, 2026, 2), None);
      } else {
        assert p in Matching(t, MonthDir(Root, 2026, 3), None);
      }
    }
  }

  /** Whatever the 2026 query finds is in February or in March. */
  lemma Year2026Only(x: Tails, p: Path)
    requires p in YearMatches(Fixture(x), Root, 2026, 12)
    ensures p in Matching(Fixture(x), Feb, None) + Matching(Fixture(x), Mar, None)
  {
    var t := Fixture(x);
    FixtureDirs();
    YearMatchesMembers(t, Root, 2026, 12);
    var m :| 1 <= m <= 12 && p in Matching(t, MonthDir(Root, 2026, m), None);
    if m != 2 && m != 3 {
      OtherMonthsMissing(x, 2026, m);
      MatchingMissingDir(t, MonthDir(Root, 2026, m), None);
    }
  }

  /** The year 2026 has four entries: February's three and March's one. */
  lemma YearQueryExample(x: Tails, now: Date)
    ensures EntriesQuery(Fixture(x), Root, None, None, Some(2026), now) == {Note1(x), Note2(x), Note3(x), MarchNote(x)}
  {
    Year2026Query(x, now);
    SelectFebruary(x);
    SelectMarch(x);
  }

  lemma SelectMarch(x: Tails)
    ensures Select({MarchNote(x)}, None) == {MarchNote(x)}
  {
    EntryNameMatches("01", x.march);
    assert FileName(MarchNote(x)) == EntryName("01", x.march);
    SelectExactly({MarchNote(x)}, None, {MarchNote(x)});
  }

  /** The query for 2025 scans only January. */
  lemma Year2025Query(x: Tails, now: Date)
    ensures EntriesQuery(Fixture(x), Root, None, None, Some(2025), now) == Select({OldNote(x)}, None)
  {
    Year2025Months(x);
  }

  lemma Year2025Months(x: Tails)
    ensures YearMatches(Fixture(x), Root, 2025, 12) == Select({OldNote(x)}, None)
  {
    var t := Fixture(x);
    FixtureDirs();
    Jan2025Listing(x);
    YearMatchesMembers(t, Root, 2025, 12);
    forall p | p in YearMatches(t, Root, 2025, 12)
      ensures p in Select({OldNote(x)}, None)
    {
      var m :| 1 <= m <= 12 && p in Matching(t, MonthDir(Root, 2025, m), None);
      if m != 1 {
        OtherMonthsMissing(x, 2025, m);
        MatchingMissingDir(t, MonthDir(Root, 2025, m), None);
      }
    }
    assert Matching(t, MonthDir(Root, 2025, 1), None) == Select({OldNote(x)}, None);
  }

  /** The year 2025 has its one entry. */
  lemma OtherYearExample(x: Tails, now: Date)
    ensures EntriesQuery(Fixture(x), Root, None, None, Some(2025), now) == {OldNote(x)}
  {
    Year2025Query(x, now);
    EntryNameMatches("15", x.older);
    assert FileName(OldNote(x)) == EntryName("15", x.older);
    SelectExactly({OldNote(x)}, None, {OldNote(x)});
  }
}
