# file-journal, modelled in Dafny

`file-journal` is a command-line journal. Each entry is a Markdown file. It
lives under `<journal>/<year>/<month>/` and is named `dd-HHMMSS-<slug>.md`.
This project models the program's core in `src/main.rs`:

- how the journal directory is chosen (`get_journal_path`);
- how the month directory is resolved, created and validated
  (`resolve_target_dir`, `is_valid_month`, `is_valid_year`);
- how an entry's file name and text are built, and how an existing entry is
  refused (`create_entry`, `sanitize_title`);
- how entries are found by day, month, year, today or the current week
  (`find_entries`, `find_entries_week`, `get_entries`).

The disk is a value `Tree`: a set of directory paths plus a map from file
paths to contents. A `Path` is a sequence of components. The class
`FileSystems.FileSystem` holds the tree as mutable fields. Its methods
`CreateDirAll` and `WriteFile` update it as `create_dir_all` and `fs::write`
do, and the operations that touch the disk (`ResolveTargetDir`,
`CreateEntryAt`, `FindEntries`, `FindEntriesWeek`, `GetEntries`) are methods
on it. Each of those methods is proved against a specification function of
the old state (`Resolve`, `CreateEntrySpec`, `EntriesQuery`, `WeekQuery`),
and the properties are lemmas about those functions. The clock is a
parameter (`DateTime`). So is the current directory that `create_entry`
falls back to.

Some functions only define a Rust function or primitive and carry no row
of their own below; what they mean is stated by lemmas that do have rows:
- `FolderNames.IsValidMonth` is `is_valid_month` (src/main.rs:343-352) and
  `FolderNames.IsValidYear` is `is_valid_year` (src/main.rs:354-360); see
  `MonthFolderShape`, `YearFolderShape` and the folder examples.
- `Decimal.ParseU32` is `str::parse::<u32>` (src/main.rs:348 and 359); see
  `ParsePad2` and `ParsedIsAscii`.
- `Slugifier.Slug` is `sanitize_title` (src/main.rs:362-383),
  `Slugifier.ReplaceChar` one `str::replace` of a character (src/main.rs:363-374)
  and `Slugifier.ReplaceDoubleDash` one `replace("--", "-")` (src/main.rs:378);
  see `SanitizeTitle`, `SlugProperties`, `SlugOfSlugForm`,
  `ReplaceCharRemoves`, `PassShape` and `PassShortens`.
- `FileSystems.Write` is `fs::write` (src/main.rs:221), see `WriteEffect` and
  `WriteListing`; `FileSystems.Ancestry` is the set of directories
  `fs::create_dir_all` creates (src/main.rs:135), see `AncestrySnoc`.
- `Calendar.DayRange` is `lo..=hi`, see `DayRangeValid`;
  `QueryEngine.Select` is the name filter of `find_entries`, see
  `SelectMonotone` and `SelectDayWithinAll`; `QueryEngine.Months` is
  `1..=12`, see `YearMatchesMembers`.
- `FileSystems.FileSystem.PathExists` / `List` are `exists()` and
  `read_dir`, see `ReadDirChildren`.

Files, one module each: `wrappers` (Option, Result), `decimal` (decimal
text, `{:02}`, `u32` parsing, UTF-8 length), `strings` (`trim_end_matches`),
`folder_names`, `slug`, `paths` (path order and the sort), `calendar`
(calendar arithmetic of the week query), `filesystem`, `journal`, `entries`
(`resolve_target_dir`, `create_entry`), `query` (`find_entries*`,
`get_entries`), `lookup` (creating and finding together) and `fixture` (the
test journal of the source's unit tests).

Where the code behaves differently from what its comments and names suggest
(`// Build path: journal_path/YYYY/MM` at src/main.rs:130, and folder checks
named `is_valid_month` and `is_valid_year`), the model follows the code:

- Year directories are `year.to_string()`, not padded to four digits. So a
  year outside 1000..9999 gives a folder that `is_valid_year` refuses, and
  `create_entry` fails with "Invalid year folder" (`ResolveYearRange`).
- `is_valid_month` and `is_valid_year` parse with `u32::from_str`, which
  accepts a leading `+`. So `"+5"` is a valid month folder and `"+999"` a
  valid year folder (`MonthFolderShape`, `YearFolderShape`).
- `find_entries` does not check that the day, month or year given is in
  range. A month of 13 searches `…/13`, and a day of 40 looks for the prefix
  `40`.
- Results are sorted but never deduplicated. They are duplicate-free
  anyway, because each directory listing names each path once and the
  directories the listings read are distinct (`NoDup` in the query methods).

## Model

| member | source | states |
|---|---|---|
| Journal.GetJournalPath | src/main.rs:108-122 | a path results exactly when one is given or the config has a default; an explicit path wins over the config's |
| Journal.MonthDir | src/main.rs:131 | the month directory lies two levels under the journal root, its parent is the year directory and its name is the month padded with `{:02}` |
| Journal.MonthDirInjective | src/main.rs:131 | different (year, month) pairs give different month directories |
| Decimal.Pad2Value | src/main.rs:127 | `{:02}` gives only digits, denotes its number, is at least two characters, and is exactly two characters iff the number is below 100 |
| Decimal.Pad2Digits | src/main.rs:201 | below 100, `{:02}` is the tens digit followed by the units digit |
| Decimal.Pad2Small | src/main.rs:201 | below 100, the padded field is two characters and parses back to its number |
| Decimal.Pad2Injective | src/main.rs:127 | different numbers give different padded fields |
| Decimal.ParsePad2 | src/main.rs:343-352 | the padded form of any `u32` value parses back to that value |
| Decimal.NatToStringValue | src/main.rs:126 | `to_string` of a non-negative number is a non-empty string of digits that denotes it |
| Decimal.NatToStringLength | src/main.rs:126 | the decimal text has 1, 2, 3 or 4 digits exactly for numbers below 10, 100, 1000 and 10000, and at least 5 otherwise |
| Decimal.IntToStringInjective | src/main.rs:126 | different years give different year folder names |
| Decimal.IntToStringAscii | src/main.rs:355 | a year's text is ASCII, so its byte length is its character count |
| Decimal.Utf8LenBounds | src/main.rs:344 | `len()` counts at least one byte per character and exactly one per ASCII character |
| Decimal.ParsedIsAscii | src/main.rs:348 | a string that parses as a `u32` is all ASCII |
| FolderNames.MonthFolderShape | src/main.rs:343-352 | a month folder name is valid iff it is two digits denoting 1..12, or `+` followed by a digit 1..9 |
| FolderNames.YearFolderShape | src/main.rs:354-360 | a year folder name is valid iff it is four characters, all digits or `+` and three digits |
| FolderNames.PaddedMonthValid | src/main.rs:127-147 | the month folder `resolve_target_dir` builds passes `is_valid_month` iff the month is 1..12 |
| FolderNames.YearStringValid | src/main.rs:126-157 | the year folder `resolve_target_dir` builds passes `is_valid_year` iff the year is 1000..9999 |
| FolderNames.MonthExamples | src/main.rs:549-553 | `01`, `06`, `12` and `+5` are valid month folders |
| FolderNames.MonthCounterExamples | src/main.rs:556-559 | `00`, `13` and `1` are not valid month folders |
| FolderNames.MonthMalformedExamples | src/main.rs:560-562 | `001`, `ab` and the empty name are not valid month folders |
| FolderNames.YearExamples | src/main.rs:566-569 | `2024`, `2025` and `2026` are valid year folders |
| FolderNames.YearPaddedExamples | src/main.rs:570-571 | `1999`, `0001` and `+999` are valid year folders |
| FolderNames.YearCounterExamples | src/main.rs:575-580 | `202`, `20245`, `abcd`, the empty name and `2a24` are not valid year folders |
| Strings.TrimEndMatchesDone | src/main.rs:199 | after `trim_end_matches(pat)` the string no longer ends with `pat` |
| Strings.TrimEndMatchesSplit | src/main.rs:199 | the original string is the trimmed string followed by some number of copies of the pattern |
| Strings.TrimEndMatchesPrefix | src/main.rs:382 | the trimmed string is a prefix of the original |
| Strings.TrimEndCharKeeps | src/main.rs:382 | trimming one character keeps every position up to the last character that differs from it |
| Strings.TrimEndMatchesExample | src/main.rs:199 | `a.md.md` trims to `a`: every trailing `.md` is removed |
| Strings.TrimEndMatchesTitleExample | src/main.rs:604-605 | `niet-lekker-geslapen.md` trims to `niet-lekker-geslapen` |
| Slugifier.ReplaceCharRemoves | src/main.rs:363-374 | after `replace(c, "-")` no `c` is left, no character other than `-` appears that was not there, a second replace changes nothing, and a string without `c` is left alone |
| Slugifier.ReplaceReservedAt | src/main.rs:363-374 | the eleven replacements keep the length and put `-` exactly where a space or one of `/\:?*"'<>\|` stood |
| Slugifier.ReplaceReservedClean | src/main.rs:363-374 | no reserved character survives the replacements |
| Slugifier.SanitizeTitle | src/main.rs:362-383 | the loop ends, with no reserved character, no `--` and no trailing `-` left |
| Slugifier.PassShape | src/main.rs:378 | one `replace("--", "-")` never lengthens the string, empties only the empty string and keeps its first character |
| Slugifier.PassShortens | src/main.rs:377-379 | a pass over a string containing `--` makes it strictly shorter, so the loop ends |
| Slugifier.CollapseOfPass | src/main.rs:377-379 | a pass does not change what the loop ends with |
| Slugifier.CollapseWithoutDoubleDash | src/main.rs:377 | the loop leaves a string without `--` as it is |
| Slugifier.CollapseNoDoubleDash | src/main.rs:377-379 | the loop's result contains no `--` |
| Slugifier.CollapseShape | src/main.rs:376-379 | collapsing never lengthens, empties only the empty string and keeps the first character |
| Slugifier.CollapseKeepsCharacters | src/main.rs:376-379 | collapsing adds no character and loses none except `-` |
| Slugifier.CollapseDropsDash | src/main.rs:378 | a `--` anywhere collapses as a single `-` would |
| Slugifier.SlugProperties | src/main.rs:362-383 | a slug has no reserved character, no `--` and no trailing `-` |
| Slugifier.SlugKeepsLeadingDash | src/main.rs:381-382 | a title that starts with `-` or a reserved character, and has some other character, gives a slug that starts with `-` |
| Slugifier.SlugExampleSpaces | src/main.rs:585 | `my daily notes` becomes `my-daily-notes` |
| Slugifier.SlugExampleColon | src/main.rs:586 | `test: file/name` becomes `test-file-name` |
| Slugifier.SlugExampleStar | src/main.rs:589 | `file*name` becomes `file-name` |
| Slugifier.SlugExampleHyphens | src/main.rs:592 | `multi--hyphens` becomes `multi-hyphens` |
| Slugifier.SlugExampleTrailing | src/main.rs:593 | `trailing?` becomes `trailing` |
| Slugifier.SlugExampleLeading | src/main.rs:594 | `?leading` becomes `-leading`: the leading dash is kept |
| Slugifier.SlugOfSlugForm | src/main.rs:362-383 | a title already in slug form (no reserved character, no `--`, no trailing `-`) is its own slug |
| Slugifier.SlugExampleClean | src/main.rs:606 | `niet-lekker-geslapen` is left alone |
| Paths.StrLessIrreflexive | src/main.rs:466 | no file name sorts before itself |
| Paths.StrLessTransitive | src/main.rs:466 | the file-name order is transitive |
| Paths.StrLessTotal | src/main.rs:466 | of two different file names, one sorts first |
| Paths.PathLessIrreflexive | src/main.rs:466 | no path sorts before itself |
| Paths.PathLessTransitive | src/main.rs:466 | the path order, component by component, is transitive |
| Paths.PathLessTotal | src/main.rs:466 | of two different paths, one sorts first |
| Paths.PathLessAsymmetric | src/main.rs:466 | two paths never sort each before the other |
| Paths.SortPermutation | src/main.rs:466 | `entries.sort()` returns a permutation of its input |
| Paths.SortStrictlySorted | src/main.rs:466 | sorting a duplicate-free list gives a strictly increasing list of the same paths |
| Paths.SortedUnique | src/main.rs:682-684 | a strictly sorted list is determined by its set of paths, so the order a test reads is fixed |
| Calendar.DaysInMonth | src/main.rs:515-526 | the days-in-month table gives 28..31 for every real month |
| Calendar.FebruaryLength | src/main.rs:518-524 | February has 29 days exactly in Gregorian leap years, 28 otherwise |
| Calendar.YearLengthRule | src/main.rs:515-526 | the table's twelve months add up to 366 days in a leap year and 365 otherwise |
| Calendar.LeapStep | src/main.rs:519 | the day-number reference gains 366 days across a leap year and 365 across another, matching the table's leap rule |
| Calendar.MonthEndNext | src/main.rs:515-526 | the day after a month's last day, by the table, has the next day number |
| Calendar.NextDayValid | src/main.rs:482 | the next day of a real date is a real date |
| Calendar.PrevDayValid | src/main.rs:476 | the day before a real date is a real date |
| Calendar.NextOfPrev | src/main.rs:476 | stepping back a day and then forward again gives the same date |
| Calendar.DayNumberNext | src/main.rs:482 | one step forward is one day later in the day-number reference |
| Calendar.DayNumberPrev | src/main.rs:476 | one step back is one day earlier in the day-number reference |
| Calendar.AddDaysNumber | src/main.rs:476-482 | adding `n` days (`chrono::Duration::days`) gives a real date exactly `n` days away in the reference |
| Calendar.AddDaysForward | src/main.rs:482 | adding `k + 1` days is the day after adding `k` |
| Calendar.AddDaysBackward | src/main.rs:476 | going back `k + 1` days is the day before going back `k` |
| Calendar.AddDaysUndo | src/main.rs:476-482 | going back `k` days and then forward `k` returns to the date |
| Calendar.Weekday | src/main.rs:473 | `num_days_from_monday` lies in 0..6 |
| Calendar.WeekStartIsMonday | src/main.rs:473-476 | the start of the week is a real date, a Monday, and 0..6 days before the date |
| Calendar.WeekStartReachesDate | src/main.rs:476 | adding the weekday number to the start of the week gives the date back |
| Calendar.WeekEnds | src/main.rs:476-485 | the week's Monday and its Sunday, six days on, are real dates |
| Calendar.WeekDatesConsecutive | src/main.rs:473-485 | the week is seven consecutive real days starting on a Monday, with the date at its weekday's place |
| Calendar.DayRangeValid | src/main.rs:509 | inside one month, `lo..=hi` visits only real dates, each the day after the one before |
| Calendar.AddDaysWithinMonth | src/main.rs:507-511 | a step that stays in the month only moves the day number |
| Calendar.AddDaysIntoNextMonth | src/main.rs:512-535 | a step of up to 28 days past the month's end lands in the next month, at the overshoot |
| Calendar.WeekVisitsAreWeek | src/main.rs:506-536 | the same-month loop and the two spanning loops, days-in-month table included, visit exactly the seven days of the week, Monday to Sunday |
| Calendar.WeekdayExample | src/main.rs:473 | 16 February 2026 is a Monday |
| Calendar.WeekdaySundayExample | src/main.rs:473 | 22 February 2026 is a Sunday |
| Calendar.WeekdayEpochExample | src/main.rs:473 | 1 January 1970 is a Thursday |
| Calendar.WeekAcrossMonthExample | src/main.rs:512-535 | on 27 February 2026 the week runs from Monday 23 February to Sunday 1 March |
| FileSystems.AncestrySnoc | src/main.rs:135 | creating `p/x` with `create_dir_all` creates what creating `p` does plus `p/x` itself |
| FileSystems.ReadDirChildren | src/main.rs:415 | `read_dir` lists exactly what sits directly inside the directory, when it is a directory |
| FileSystems.MkdirAllFails | src/main.rs:135-136 | `create_dir_all` fails exactly when a prefix of the path is a file |
| FileSystems.MkdirAllCreates | src/main.rs:135 | on success the path is a directory, no file changes and only its prefixes are new |
| FileSystems.MkdirAllExisting | src/main.rs:134-137 | on an existing directory `create_dir_all` changes nothing |
| FileSystems.WriteIntoDirectory | src/main.rs:221 | writing a new name into a directory succeeds |
| FileSystems.MkdirAllListing | src/main.rs:135 | `create_dir_all(p)` adds nothing to the listing of a directory at least as deep as `p` |
| FileSystems.WriteListing | src/main.rs:221 | writing a new file adds it to its parent's listing and to no other |
| FileSystems.WriteEffect | src/main.rs:221 | a write changes only the one file's content and keeps the tree well formed |
| FileSystems.FileSystem.CreateDirAll | src/main.rs:135-136 | the disk becomes what `create_dir_all` makes of it, or stays as it was on an error |
| FileSystems.FileSystem.WriteFile | src/main.rs:221 | the disk becomes what the write makes of it, or stays as it was on an error |
| EntryWriter.ResolveTargetDir | src/main.rs:124-160 | result and new disk are those of `Resolve` on the old disk: create the month directory if missing, then check the month and year folder names |
| EntryWriter.ResolveValidates | src/main.rs:134-159 | success iff the directory exists or can be created and both folder names are valid; the result is `<root>/<year>/<MM>`; the directory error comes first and the month check before the year check |
| EntryWriter.ResolveYearRange | src/main.rs:145-157 | for a real clock reading it succeeds iff the directory can be had and the year is 1000..9999; any other error is "Invalid year folder" |
| EntryWriter.ResolveEffect | src/main.rs:133-137 | no file changes, no directory is removed, and the only new directories are the target and its parents; the target exists afterwards unless creation failed; an existing target leaves the disk alone |
| EntryWriter.ResolveListing | src/main.rs:133-137 | resolving adds nothing to the listing of a month directory or anything deeper |
| EntryWriter.ResolveErrorKinds | src/main.rs:135-156 | every error is a directory failure or an invalid month or year folder |
| EntryWriter.ResolveIdempotent | src/main.rs:133-137 | resolving twice is the same as resolving once |
| EntryWriter.EntryFileNameFields | src/main.rs:201 | the name is `dd-HHMMSS-<slug>.md`: each two-character field parses back to the day, hour, minute and second, and the slug sits between them and `.md` |
| EntryWriter.DateStampFields | src/main.rs:213 | the date line is `DD-MM-<year>`, each field parsing back to its part |
| EntryWriter.EntryTemplateShape | src/main.rs:212-219 | the text opens with `# <title without .md>` and the date line, ends with the note, and the heading no longer ends in `.md` |
| EntryWriter.CreateEntryAt | src/main.rs:162-221 | `create_entry` as written, with one clock reading for the directory and a later one for the name: result and new disk are those of `CreateEntrySpec` |
| EntryWriter.CreateEntry | src/main.rs:162-221 | `create_entry` with one clock reading for both |
| EntryWriter.CreateEntryChecksTitle | src/main.rs:164-167 | a title not ending in `.md` is refused and the disk is untouched |
| EntryWriter.CreateEntryKeepsFiles | src/main.rs:204-221 | success or not, no existing entry is changed or removed, the only new directories are the month directory and its parents, and the disk stays well formed |
| EntryWriter.CreateEntryAddsOne | src/main.rs:198-221 | on success the entry is `<month dir>/dd-HHMMSS-<slug>.md`, it did not exist before, it holds the template, no other file changed, and the only new directories are the month directory and its parents |
| EntryWriter.FreshDirIsEmpty | src/main.rs:134-136 | a directory just created holds no entry |
| EntryWriter.ResolveOccupied | src/main.rs:205 | when the entry name is already taken, resolving made no change |
| EntryWriter.CreateEntryDuplicateUntouched | src/main.rs:204-208 | an entry that already exists is refused and the disk is left exactly as it was |
| EntryWriter.CreateEntryWriteFails | src/main.rs:221 | the write fails only when the month directory's path is taken by a file |
| EntryWriter.FileNamePrefixExample | src/main.rs:598-607 | at 08:15:03 on the 17th, the name starts `17-081503-` |
| EntryWriter.FileNameExample | src/main.rs:598-608 | the title `niet-lekker-geslapen.md` at that time gives `17-081503-niet-lekker-geslapen.md` |
| EntryWriter.DateStampExample | src/main.rs:612-631 | 17 February 2026 is written as `17-02-2026` |
| EntryWriter.HeadingExample | src/main.rs:214 | the heading of `test-entry.md` is `test-entry` |
| EntryWriter.TemplateExample | src/main.rs:612-631 | the entry made on 17 February 2026 reads `# test-entry`, `Date: 17-02-2026`, then the note |
| QueryEngine.SelectMonotone | src/main.rs:415-423 | a larger listing never keeps fewer entries |
| QueryEngine.SelectDayWithinAll | src/main.rs:412-434 | the day filter keeps a subset of what the `.md` filter alone keeps, and both keep only listed paths |
| QueryEngine.MatchingMembers | src/main.rs:415-423 | a path matches iff it sits in the directory and its name passes the prefix and `.md` filters |
| QueryEngine.MatchingMissingDir | src/main.rs:439-440 | a missing directory contributes nothing |
| QueryEngine.YearMatchesMembers | src/main.rs:437-450 | the year search finds exactly the Markdown files of the year's month directories 1..12 |
| QueryEngine.DatesMatchesMembers | src/main.rs:490-504 | a run of days finds exactly the entries of each of its days |
| QueryEngine.EntriesQueryMembers | src/main.rs:392-463 | by day, by month, by year, or for today: which paths `find_entries` returns, with the missing month and year taken from today |
| QueryEngine.QueryNesting | src/main.rs:393-463 | a day's entries are among its month's, a month's (1..12) among its year's, and no arguments give exactly the query for today's day, month and year |
| QueryEngine.WeekQueryMembers | src/main.rs:471-541 | the week query finds exactly the entries of its seven days |
| QueryEngine.MatchingDisjointDirs | src/main.rs:416 | two different month directories never share a match |
| QueryEngine.DayMatchesDisjoint | src/main.rs:493-497 | two different days never share an entry |
| QueryEngine.DatesMatchesDisjoint | src/main.rs:509-510 | a day not among a run of days shares no entry with it |
| QueryEngine.DayRangesDisjoint | src/main.rs:528-535 | the start month's days and the end month's days share no entry |
| QueryEngine.DatesMatchesSnoc | src/main.rs:509-510 | one more day adds its own entries |
| QueryEngine.DatesMatchesAppend | src/main.rs:528-535 | two loops one after the other find the union of what each finds |
| QueryEngine.DayRangeSnoc | src/main.rs:509 | extending `lo..=hi` by one day appends that day |
| QueryEngine.YearMatchesDisjoint | src/main.rs:437-438 | a later month shares no entry with the months already searched |
| QueryEngine.YearMatchesSnoc | src/main.rs:437-450 | one more month adds its own entries |
| QueryEngine.CollectMatching | src/main.rs:415-422 | the scan of one listing appends each match once, to entries it does not yet hold |
| QueryEngine.CollectDay | src/main.rs:490-504 | collecting one day appends exactly that day's entries |
| QueryEngine.CollectDays | src/main.rs:509-511 | the `for day in lo..=hi` loop appends exactly the entries of those days, each once |
| QueryEngine.CollectYear | src/main.rs:437-450 | the `for m in 1..=12` loop collects exactly the year's Markdown entries, each once |
| QueryEngine.FindEntries | src/main.rs:386-467 | never an error; the result is strictly sorted and holds exactly the paths `EntriesQuery` describes |
| QueryEngine.CollectSpan | src/main.rs:506-536 | the same-month and spanning branches collect exactly the entries of the days they visit |
| QueryEngine.WeekSpan | src/main.rs:473-485 | the Monday and the Sunday are real dates, and the days visited between them are the week |
| QueryEngine.FindEntriesWeek | src/main.rs:471-541 | never an error; the result is strictly sorted and holds exactly the entries of the week's seven days |
| QueryEngine.GetEntries | src/main.rs:226-265 | without a journal path it fails; otherwise `--week` gives the week's entries and anything else `find_entries`' result, strictly sorted |
| Lookup.EntryFiledUnder | src/main.rs:182-202 | a new entry is listed under the month of the directory's clock reading and the day of the name's, and under no other day |
| Lookup.WrittenIntoDay | src/main.rs:221 | a new file joins a day's query exactly when it lies in that day's month directory and carries its day prefix |
| Lookup.EntryDay | src/main.rs:131-201 | the entry's directory and day prefix pick out exactly one date: the month of the directory's reading and the day of the name's |
| Lookup.EntryJoinsDay | src/main.rs:182-221 | creating an entry adds exactly that entry to its own day's query and changes no other day's query |
| Lookup.CreatedEntryFound | src/main.rs:190-202 | with one clock reading, a new entry is listed for today, for its own day, month and year, and in the week |
| Lookup.FirstEntryWritten | src/main.rs:162-221 | in an empty journal any Markdown title is written, once the year has four digits |
| Lookup.MidnightEntryMisfiled | src/main.rs:125-201 | `create_entry` as written, one second either side of midnight on 31 January 2026, files the entry as one of 1 January, where neither its own day nor today's query looks |
| JournalFixture.EntryNameMatches | src/main.rs:418 | an entry name passes its own day's prefix and the `.md` filter |
| JournalFixture.EntryNameOtherDay | src/main.rs:418 | an entry name fails another day's prefix |
| JournalFixture.FixtureDirs | src/main.rs:638-641 | the test journal's three month directories are the ones the queries build |
| JournalFixture.FixtureChildren | src/main.rs:643-671 | the only files in any month directory of the test journal are its five entries |
| JournalFixture.FebListing | src/main.rs:648-659 | `2026/02` lists the three February entries |
| JournalFixture.MarListing | src/main.rs:662-665 | `2026/03` lists the March entry |
| JournalFixture.Jan2025Listing | src/main.rs:668-671 | `2025/01` lists the 2025 entry |
| JournalFixture.OtherMonthsMissing | src/main.rs:638-645 | no other month directory exists |
| JournalFixture.FebQuery | src/main.rs:690 | every February 2026 query reads the February listing |
| JournalFixture.DayQueryExample | src/main.rs:677-682 | day 17 of February 2026 finds note1 and note2 |
| JournalFixture.DayQueryOrder | src/main.rs:682-684 | sorted, the entry at 08:15:03 comes before the one at 10:12:00 |
| JournalFixture.SetupOrder | src/main.rs:682-684 | the day-17 result is `[note1, note2]` in that order |
| JournalFixture.Day18Example | src/main.rs:740-746 | day 18 finds note3 only |
| JournalFixture.EmptyDayExample | src/main.rs:731-736 | day 25 finds nothing |
| JournalFixture.MonthQueryExample | src/main.rs:688-700 | February 2026 finds all three February entries |
| JournalFixture.Year2026Query | src/main.rs:704-708 | the year 2026 reads the February and March listings |
| JournalFixture.YearQueryExample | src/main.rs:704-717 | the year 2026 finds the four 2026 entries |
| JournalFixture.Year2025Query | src/main.rs:723 | the year 2025 reads the January 2025 listing |
| JournalFixture.OtherYearExample | src/main.rs:721-727 | the year 2025 finds only the 2025 entry |

## Left out

- Command-line parsing (`clap`, `main`) and the `init` subcommand (`init_config`): argument handling and configuration writing are outside the core.
- `load_config`: reading and parsing TOML is I/O. The loaded configuration is a parameter (`Option<Config>`).
- The clock (`chrono::Local::now`) and time zones: each clock reading is a `DateTime` parameter, assumed to be a real date and time of day.
- `env::current_dir`: the directory `create_entry` falls back to is a parameter. Its failure is not modelled.
- Printing, `std::process::exit` and the `--format` output of `get_entries`, including the failing exit code on an empty result: errors become `Err` values and the entries are returned.
- `fs::write(...).expect` panics on failure; the model returns `Err(WriteFailed)` instead.
- File permissions, other processes, symbolic links and races between `exists()` and `create_dir_all`/`fs::write`.
- File names that are not valid UTF-8 (where `to_str()` fails): names are Dafny strings.
- The `file_name()`/`parent()` failures in `resolve_target_dir`: they cannot happen for the two-level path it builds.
- Directory listings that fail part-way (`files.flatten()` skipping errors): `read_dir` either lists the whole directory or the directory is missing.
- The order in which `read_dir` lists entries: the model only tracks which paths a query collects. The final sort fixes the order.
- `entries.sort()`: an insertion sort (`Paths.SortPaths`) stands in for the standard library sort. Both produce the one strictly sorted order of a duplicate-free list.
- `PathBuf` ordering: it is modelled as lexicographic by components, each compared by code point. Rust compares the UTF-8 bytes, and UTF-8 keeps code point order, so the two agree.
- The contents of the test journal's files: the queries never read them.
- QueryEngine.FindEntriesWeek: requires today's date to be a real date. The source gets it from the clock, which always is.
- QueryEngine.GetEntries: requires today's date to be a real date, for the same reason.
- Calendar.WeekStart: the Monday is computed by stepping back day by day, not by `chrono`'s own date arithmetic. `AddDaysNumber` ties it to an independent day count. With time zones left out, the model does not capture that `now - Duration::days(n)` subtracts elapsed time: in a week with a fall-back daylight-saving change, a reading late on Sunday lands the start on Tuesday and Monday's entries are missed (src/main.rs:476).
- Integer widths: `u32` and `i32` are not bounded in the model. The clock's values and the `u32` parser's 2^32 limit are the only bounds that arise. `%` in the leap-year rule is Euclidean in Dafny and truncating in Rust, but the two agree on whether a remainder is zero.

## Findings

| source | as written | input that shows it | evidently intended | confidence | as-written member | corrected member |
|---|---|---|---|---|---|---|
| src/main.rs:125-201 | `resolve_target_dir` reads the clock to choose the month directory, then `create_entry` reads it again to name the file | the first reading at 2026-01-31 23:59:59 and the second at 2026-02-01 00:00:00: the entry is `2026/01/01-000000-….md`, which the queries for 31 January and for 1 February both miss | one clock reading for both the directory and the name, so the entry is found under its own day | not executed | EntryWriter.CreateEntryAt (with Lookup.MidnightEntryMisfiled) | EntryWriter.CreateEntry (with Lookup.CreatedEntryFound) |
