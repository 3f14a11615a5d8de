/**
 * Creating a journal entry: the year/month directory it goes in
 * (`resolve_target_dir`), its file name `DD-HHMMSS-<slug>.md`, the text it
 * starts with, and the checks made before it is written (`create_entry`).
 */
module EntryWriter {
  import opened Wrappers
  import opened Decimal
  import opened Strings
  import opened FolderNames
  import opened Slugifier
  import opened Paths
  import opened Calendar
  import opened FileSystems
  import opened Journal

  /** The directory an entry made at `now` goes in: `root/<year>/<MM>`. */
  function TargetDir(root: Path, now: DateTime): Path {
    MonthDir(root, now.date.year, now.date.month)
  }

  /**
   * `resolve_target_dir` as a function of the disk: the result and the disk
   * afterwards. A missing directory is created first; only then are the
   * month name and the year name checked, month first, so a rejected year
   * still leaves its directory behind.
   */
  function Resolve(t: Tree, root: Path, now: DateTime): (Result<Path, JournalError>, Tree) {
    var year := IntToString(now.date.year);
    var month := Pad2(now.date.month);
    var target := TargetDir(root, now);
    var made := if Exists(t, target) then Ok(t) else MkdirAll(t, target);
    if made.Err? then (Err(CreateDirFailed), t)
    else if !IsValidMonth(month) then (Err(InvalidMonthFolder(month)), made.value)
    else if !IsValidYear(year) then (Err(InvalidYearFolder(year)), made.value)
    else (Ok(target), made.value)
  }

  /** `resolve_target_dir(journal_path)`, with the clock reading `now` passed in. */
  method ResolveTargetDir(fs: FileSystem, root: Path, now: DateTime) returns (r: Result<Path, JournalError>)
    modifies fs
    ensures (r, fs.State()) == Resolve(old(fs.State()), root, now)
  {
    var year := IntToString(now.date.year);
    var month := Pad2(now.date.month);
    var target := TargetDir(root, now);
    if !fs.PathExists(target) {
      var made := fs.CreateDirAll(target);
      if made.Err? {
        return Err(CreateDirFailed);
      }
    }
    if !IsValidMonth(month) {
      return Err(InvalidMonthFolder(month));
    }
    if !IsValidYear(year) {
      return Err(InvalidYearFolder(year));
    }
    return Ok(target);
  }

  /**
   * The call succeeds exactly when the directory is there or can be made and
   * both folder names pass their validators; its answer is `root/<year>/<MM>`;
   * a month that fails is reported before the year is looked at.
   */
  lemma ResolveValidates(t: Tree, root: Path, now: DateTime)
    ensures var (r, _) := Resolve(t, root, now);
      var target := TargetDir(root, now);
      && (r.Ok? <==> (Exists(t, target) || MkdirAll(t, target).Ok?)
                     && IsValidMonth(Pad2(now.date.month)) && IsValidYear(IntToString(now.date.year)))
      && (r.Ok? ==> r.value == target)
      && (r == Err(CreateDirFailed) <==> !Exists(t, target) && MkdirAll(t, target).Err?)
      && (r.Err? && r.error.InvalidYearFolder? ==> IsValidMonth(Pad2(now.date.month)))
  {
  }

  /**
   * For a real clock reading the month always passes, so the call fails on
   * validation exactly for years outside 1000..9999, and says so about the year.
   */
  lemma ResolveYearRange(t: Tree, root: Path, now: DateTime)
    requires ValidDateTime(now)
    ensures var (r, _) := Resolve(t, root, now);
      var target := TargetDir(root, now);
      && (r.Ok? <==> (Exists(t, target) || MkdirAll(t, target).Ok?) && 1000 <= now.date.year <= 9999)
      && (r.Err? && r.error != CreateDirFailed ==> r.error == InvalidYearFolder(IntToString(now.date.year)))
  {
    PaddedMonthValid(now.date.month);
    YearStringValid(now.date.year);
  }

  /**
   * Afterwards the target directory exists unless it could not be created;
   * files are untouched; the only directories added are the target and its
   * parents, and none when the target was already there.
   */
  lemma ResolveEffect(t: Tree, root: Path, now: DateTime)
    requires WellFormed(t)
    ensures var (r, t') := Resolve(t, root, now);
      var target := TargetDir(root, now);
      && WellFormed(t') && t'.files == t.files && t.dirs <= t'.dirs
      && t'.dirs - t.dirs <= Ancestry(target)
      && (r != Err(CreateDirFailed) ==> Exists(t', target))
      && (!Exists(t, target) && r != Err(CreateDirFailed) ==> target in t'.dirs)
      && (Exists(t, target) ==> t' == t)
  {
    var target := TargetDir(root, now);
    if !Exists(t, target) && MkdirAll(t, target).Ok? {
      MkdirAllCreates(t, target);
    }
  }

  /** The call fails only for the three reasons `resolve_target_dir` reports. */
  lemma ResolveErrorKinds(t: Tree, root: Path, now: DateTime)
    ensures var (r, _) := Resolve(t, root, now);
      r.Err? ==> r.error.CreateDirFailed? || r.error.InvalidMonthFolder? || r.error.InvalidYearFolder?
  {
  }

  /** A second call with the same clock reading creates nothing and answers the same. */
  lemma ResolveIdempotent(t: Tree, root: Path, now: DateTime)
    requires WellFormed(t)
    ensures Resolve(Resolve(t, root, now).1, root, now) == Resolve(t, root, now)
  {
    ResolveEffect(t, root, now);
  }

  /** Resolving adds nothing to the listing of a month directory, or of anything deeper. */
  lemma ResolveListing(t: Tree, root: Path, now: DateTime, q: Path)
    requires WellFormed(t) && |q| >= |root| + 2
    ensures ReadDir(Resolve(t, root, now).1, q) == ReadDir(t, q)
  {
    var target := TargetDir(root, now);
    if !Exists(t, target) && MkdirAll(t, target).Ok? {
      MkdirAllListing(t, target, q);
    }
  }

  /** `format!("{:02}-{:02}-{}", day, month, year)`: the date line of a new entry. */
  function DateStamp(d: Date): string {
    Pad2(d.day) + "-" + Pad2(d.month) + "-" + IntToString(d.year)
  }

  /** `format!("{:02}-{:02}{:02}{:02}-{}.md", day, hour, minute, second, slug)`. */
  function EntryFileName(t: DateTime, slug: string): string {
    Pad2(t.date.day) + "-" + Pad2(t.hour) + Pad2(t.minute) + Pad2(t.second) + "-" + slug + ".md"
  }

  /** The text a new entry starts with: a heading, the date line, and the note. */
  function EntryTemplate(title: string, note: Option<string>, t: DateTime): string {
    "# " + TrimEndMatches(title, ".md") + "\n\nDate: " + DateStamp(t.date) + "\n\n" + note.GetOr("") + "\n"
  }

  /**
   * A file name made at a real time reads back: two digits of day, a dash,
   * two digits each of hour, minute and second, a dash, the slug and `.md`.
   */
  lemma EntryFileNameFields(t: DateTime, slug: string)
    requires ValidDateTime(t)
    ensures var name := EntryFileName(t, slug);
      && |name| == |slug| + 13
      && name[..2] == Pad2(t.date.day) && name[2] == '-' && name[9] == '-'
      && ParseU32(name[..2]) == Some(t.date.day)
      && ParseU32(name[3..5]) == Some(t.hour)
      && ParseU32(name[5..7]) == Some(t.minute)
      && ParseU32(name[7..9]) == Some(t.second)
      && name[10..|name| - 3] == slug
      && StartsWith(name, Pad2(t.date.day)) && EndsWith(name, ".md")
  {
    Pad2Small(t.date.day);
    Pad2Small(t.hour);
    Pad2Small(t.minute);
    Pad2Small(t.second);
    NameLayout(Pad2(t.date.day), Pad2(t.hour), Pad2(t.minute), Pad2(t.second), slug);
  }

  /** Where each field of a name `DD-HHMMSS-<slug>.md` sits, for any two-character fields. */
  lemma NameLayout(day: string, hour: string, minute: string, second: string, slug: string)
    requires |day| == 2 && |hour| == 2 && |minute| == 2 && |second| == 2
    ensures var name := day + "-" + hour + minute + second + "-" + slug + ".md";
      && |name| == |slug| + 13
      && name[..2] == day && name[2] == '-' && name[3..5] == hour && name[5..7] == minute
      && name[7..9] == second && name[9] == '-' && name[10..|name| - 3] == slug
      && name[|name| - 3..] == ".md"
  {
    var name := day + "-" + hour + minute + second + "-" + slug + ".md";
    assert name[..2] == day;
    assert name[3..5] == hour;
    assert name[5..7] == minute;
    assert name[7..9] == second;
    assert name[10..|name| - 3] == slug;
    assert name[|name| - 3..] == ".md";
  }

  /** The date line of a real date reads back as day, month and year. */
  lemma DateStampFields(d: Date)
    requires ValidDate(d)
    ensures var s := DateStamp(d);
      && ParseU32(s[..2]) == Some(d.day) && s[2] == '-'
      && ParseU32(s[3..5]) == Some(d.month) && s[5] == '-'
      && s[6..] == IntToString(d.year)
  {
    Pad2Value(d.day);
    Pad2Value(d.month);
    ParsePad2(d.day);
    ParsePad2(d.month);
    var s := DateStamp(d);
    assert s[..2] == Pad2(d.day);
    assert s[3..5] == Pad2(d.month);
    assert s[6..] == IntToString(d.year);
  }

  /**
   * The heading is the title with every trailing `.md` removed, the date line
   * follows a blank line, and the note ends the text after another.
   */
  lemma EntryTemplateShape(title: string, note: Option<string>, t: DateTime)
    ensures var text := EntryTemplate(title, note, t);
      var heading := TrimEndMatches(title, ".md");
      && StartsWith(text, "# " + heading + "\n\nDate: ")
      && text[|heading| + 10..|heading| + 10 + |DateStamp(t.date)|] == DateStamp(t.date)
      && EndsWith(text, "\n\n" + note.GetOr("") + "\n")
      && !EndsWith(heading, ".md")
  {
    TrimEndMatchesDone(title, ".md");
    TemplateLayout(TrimEndMatches(title, ".md"), DateStamp(t.date), note.GetOr(""));
  }

  /** Where the heading, the date and the note sit in the template, whatever they are. */
  lemma TemplateLayout(heading: string, stamp: string, note: string)
    ensures var text := "# " + heading + "\n\nDate: " + stamp + "\n\n" + note + "\n";
      && StartsWith(text, "# " + heading + "\n\nDate: ")
      && text[|heading| + 10..|heading| + 10 + |stamp|] == stamp
      && EndsWith(text, "\n\n" + note + "\n")
  {
    var head := "# " + heading + "\n\nDate: ";
    var tail := "\n\n" + note + "\n";
    assert "# " + heading + "\n\nDate: " + stamp + "\n\n" + note + "\n" == head + stamp + tail;
    ConcatParts(head, stamp, tail);
  }

  /**
   * `create_entry` as a function of the disk, with the two clock readings it
   * makes: `dirTime` when the directory is resolved, `nameTime` when the
   * file name and the date line are made.
   */
  function CreateEntrySpec(t: Tree, title: string, note: Option<string>, explicitPath: Option<Path>,
                           config: Option<Config>, cwd: Path, dirTime: DateTime, nameTime: DateTime)
    : (Result<Path, JournalError>, Tree)
  {
    if !EndsWith(title, ".md") then (Err(TitleNotMarkdown), t)
    else
      var root := GetJournalPath(explicitPath, config).GetOr(cwd);
      var (dir, t1) := Resolve(t, root, dirTime);
      if dir.Err? then (Err(dir.error), t1)
      else
        var name := EntryFileName(nameTime, Slug(TrimEndMatches(title, ".md")));
        var path := dir.value + [name];
        if Exists(t1, path) then (Err(EntryExists(name)), t1)
        else
          match Write(t1, path, EntryTemplate(title, note, nameTime))
          case Err(_) => (Err(WriteFailed), t1)
          case Ok(t2) => (Ok(path), t2)
  }

  /**
   * `create_entry` as written: the directory comes from one clock reading and
   * the name and date line from a later one. The current directory stands in
   * for `env::current_dir()`, and the loaded configuration is a parameter.
   */
  method CreateEntryAt(fs: FileSystem, title: string, note: Option<string>, explicitPath: Option<Path>,
                       config: Option<Config>, cwd: Path, dirTime: DateTime, nameTime: DateTime)
    returns (r: Result<Path, JournalError>)
    modifies fs
    ensures (r, fs.State())
            == CreateEntrySpec(old(fs.State()), title, note, explicitPath, config, cwd, dirTime, nameTime)
  {
    if !EndsWith(title, ".md") {
      return Err(TitleNotMarkdown);
    }
    var root := GetJournalPath(explicitPath, config).GetOr(cwd);
    var dir := ResolveTargetDir(fs, root, dirTime);
    if dir.Err? {
      return Err(dir.error);
    }
    var slug := SanitizeTitle(TrimEndMatches(title, ".md"));
    var name := EntryFileName(nameTime, slug);
    var path := dir.value + [name];
    if fs.PathExists(path) {
      return Err(EntryExists(name));
    }
    var written := fs.WriteFile(path, EntryTemplate(title, note, nameTime));
    if written.Err? {
      return Err(WriteFailed);
    }
    return Ok(path);
  }

  /** Creating an entry with a single clock reading for directory, name and date line. */
  method CreateEntry(fs: FileSystem, title: string, note: Option<string>, explicitPath: Option<Path>,
                     config: Option<Config>, cwd: Path, now: DateTime)
    returns (r: Result<Path, JournalError>)
    modifies fs
    ensures (r, fs.State()) == CreateEntrySpec(old(fs.State()), title, note, explicitPath, config, cwd, now, now)
  {
    r := CreateEntryAt(fs, title, note, explicitPath, config, cwd, now, now);
  }

  /** A title without `.md` is refused before anything is created. */
  lemma CreateEntryChecksTitle(t: Tree, title: string, note: Option<string>, explicitPath: Option<Path>,
                               config: Option<Config>, cwd: Path, dirTime: DateTime, nameTime: DateTime)
    requires !EndsWith(title, ".md")
    ensures CreateEntrySpec(t, title, note, explicitPath, config, cwd, dirTime, nameTime) == (Err(TitleNotMarkdown), t)
  {
  }

  /**
   * Whatever happens, no existing file is changed or removed, directories are
   * only added, and only those on the way to the month directory, and the
   * disk stays well formed.
   */
  lemma CreateEntryKeepsFiles(t: Tree, title: string, note: Option<string>, explicitPath: Option<Path>,
                              config: Option<Config>, cwd: Path, dirTime: DateTime, nameTime: DateTime)
    requires WellFormed(t)
    ensures var (_, t') := CreateEntrySpec(t, title, note, explicitPath, config, cwd, dirTime, nameTime);
      && WellFormed(t') && t.dirs <= t'.dirs
      && t'.dirs - t.dirs <= Ancestry(TargetDir(GetJournalPath(explicitPath, config).GetOr(cwd), dirTime))
      && (forall f :: f in t.files ==> f in t'.files && t'.files[f] == t.files[f])
  {
    if EndsWith(title, ".md") {
      var root := GetJournalPath(explicitPath, config).GetOr(cwd);
      ResolveEffect(t, root, dirTime);
      var (dir, t1) := Resolve(t, root, dirTime);
      if dir.Ok? {
        var name := EntryFileName(nameTime, Slug(TrimEndMatches(title, ".md")));
        var path := dir.value + [name];
        var text := EntryTemplate(title, note, nameTime);
        if !Exists(t1, path) && Write(t1, path, text).Ok? {
          WriteEffect(t1, path, text);
        }
      }
    }
  }

  /**
   * On success exactly one file is added: a new one, named from the time and
   * the title, in the resolved directory, holding the template. The only new
   * directories are the resolved directory and its parents.
   */
  lemma CreateEntryAddsOne(t: Tree, title: string, note: Option<string>, explicitPath: Option<Path>,
                           config: Option<Config>, cwd: Path, dirTime: DateTime, nameTime: DateTime)
    requires WellFormed(t)
    ensures var (r, t') := CreateEntrySpec(t, title, note, explicitPath, config, cwd, dirTime, nameTime);
      var root := GetJournalPath(explicitPath, config).GetOr(cwd);
      r.Ok? ==>
        && EndsWith(title, ".md")
        && r.value == TargetDir(root, dirTime) + [EntryFileName(nameTime, Slug(TrimEndMatches(title, ".md")))]
        && r.value !in t.files
        && t'.files == t.files[r.value := EntryTemplate(title, note, nameTime)]
        && TargetDir(root, dirTime) in t'.dirs
        && t'.dirs - t.dirs <= Ancestry(TargetDir(root, dirTime))
  {
    if EndsWith(title, ".md") {
      var root := GetJournalPath(explicitPath, config).GetOr(cwd);
      ResolveEffect(t, root, dirTime);
      var (dir, t1) := Resolve(t, root, dirTime);
      if dir.Ok? {
        var name := EntryFileName(nameTime, Slug(TrimEndMatches(title, ".md")));
        var path := dir.value + [name];
        var text := EntryTemplate(title, note, nameTime);
        if !Exists(t1, path) && Write(t1, path, text).Ok? {
          WriteEffect(t1, path, text);
          assert Parent(path) == dir.value;
        }
      }
    }
  }

  /** A directory `create_dir_all` has just made is empty. */
  lemma FreshDirIsEmpty(t: Tree, target: Path, name: string)
    requires WellFormed(t) && target != [] && !Exists(t, target) && MkdirAll(t, target).Ok?
    ensures !Exists(MkdirAll(t, target).value, target + [name])
  {
    MkdirAllCreates(t, target);
    var path := target + [name];
    assert path[..|target|] == target;
    forall k | 0 < k <= |target|
      ensures path != target[..k]
    {
    }
  }

  /** When something is already inside the resolved directory, resolving changed nothing. */
  lemma ResolveOccupied(t: Tree, root: Path, now: DateTime, name: string)
    requires WellFormed(t)
    requires Resolve(t, root, now).0.Ok? && Exists(Resolve(t, root, now).1, Resolve(t, root, now).0.value + [name])
    ensures Resolve(t, root, now).1 == t
  {
    ResolveValidates(t, root, now);
    var target := TargetDir(root, now);
    if !Exists(t, target) {
      FreshDirIsEmpty(t, target, name);
    }
  }

  /** An entry that already exists is reported and nothing at all changes on disk. */
  lemma CreateEntryDuplicateUntouched(t: Tree, title: string, note: Option<string>, explicitPath: Option<Path>,
                                      config: Option<Config>, cwd: Path, dirTime: DateTime, nameTime: DateTime)
    requires WellFormed(t)
    ensures var (r, t') := CreateEntrySpec(t, title, note, explicitPath, config, cwd, dirTime, nameTime);
      r.Err? && r.error.EntryExists? ==> t' == t
  {
    if EndsWith(title, ".md") {
      var root := GetJournalPath(explicitPath, config).GetOr(cwd);
      var name := EntryFileName(nameTime, Slug(TrimEndMatches(title, ".md")));
      ResolveErrorKinds(t, root, dirTime);
      var (dir, t1) := Resolve(t, root, dirTime);
      if dir.Ok? && Exists(t1, dir.value + [name]) {
        ResolveOccupied(t, root, dirTime, name);
      }
    }
  }

  /** The write itself fails only when the month "directory" is in fact a file. */
  lemma CreateEntryWriteFails(t: Tree, title: string, note: Option<string>, explicitPath: Option<Path>,
                              config: Option<Config>, cwd: Path, dirTime: DateTime, nameTime: DateTime)
    requires WellFormed(t)
    ensures var (r, _) := CreateEntrySpec(t, title, note, explicitPath, config, cwd, dirTime, nameTime);
      var root := GetJournalPath(explicitPath, config).GetOr(cwd);
      r == Err(WriteFailed) ==> TargetDir(root, dirTime) in t.files
  {
    if EndsWith(title, ".md") {
      var root := GetJournalPath(explicitPath, config).GetOr(cwd);
      var target := TargetDir(root, dirTime);
      ResolveEffect(t, root, dirTime);
      ResolveValidates(t, root, dirTime);
      ResolveErrorKinds(t, root, dirTime);
      var (dir, t1) := Resolve(t, root, dirTime);
      if dir.Ok? && target !in t.files {
        var name := EntryFileName(nameTime, Slug(TrimEndMatches(title, ".md")));
        assert target in t1.dirs;
        if !Exists(t1, target + [name]) {
          WriteIntoDirectory(t1, target, name, EntryTemplate(title, note, nameTime));
        }
      }
    }
  }

  /** At 08:15:03 on the 17th every file name starts `17-081503-`. */
  lemma FileNamePrefixExample(slug: string)
    ensures EntryFileName(DateTime(Date(2026, 2, 17), 8, 15, 3), slug) == "17-081503-" + slug + ".md"
  {
    Pad2Digits(17);
    Pad2Digits(8);
    Pad2Digits(15);
    Pad2Digits(3);
  }

  /** The title `niet-lekker-geslapen.md` gives the file name `17-081503-niet-lekker-geslapen.md`. */
  lemma FileNameExample()
    ensures EntryFileName(DateTime(Date(2026, 2, 17), 8, 15, 3), Slug(TrimEndMatches("niet-lekker-geslapen.md", ".md")))
            == "17-081503-niet-lekker-geslapen.md"
  {
    TrimEndMatchesTitleExample();
    SlugExampleClean();
    FileNamePrefixExample("niet-lekker-geslapen");
    FileNameTextExample();
  }

  lemma FileNameTextExample()
    ensures "17-081503-" + "niet-lekker-geslapen" + ".md" == "17-081503-niet-lekker-geslapen.md"
  {
    assert "17-081503-" + "niet-lekker-geslapen" == "17-081503-niet-lekker-geslapen";
  }

  lemma DateStampExample()
    ensures DateStamp(Date(2026, 2, 17)) == "17-02-2026"
  {
    Pad2Digits(17);
    Pad2Digits(2);
    assert IntToString(2026) == "2026";
  }

  lemma HeadingExample()
    ensures TrimEndMatches("test-entry.md", ".md") == "test-entry"
  {
    var t := "test-entry.md";
    assert EndsWith(t, ".md") && t[..|t| - 3] == "test-entry";
    assert !EndsWith("test-entry", ".md");
  }

  lemma TemplateHeadExample()
    ensures "# " + "test-entry" + "\n\nDate: " + "17-02-2026" == "# test-entry\n\nDate: 17-02-2026"
  {
    assert "# " + "test-entry" == "# test-entry";
    assert "# test-entry" + "\n\nDate: " == "# test-entry\n\nDate: ";
  }

  lemma TemplateTailExample()
    ensures "# test-entry\n\nDate: 17-02-2026" + "\n\n" + "Test note content" + "\n"
            == "# test-entry\n\nDate: 17-02-2026\n\nTest note content\n"
  {
    assert "# test-entry\n\nDate: 17-02-2026" + "\n\n" == "# test-entry\n\nDate: 17-02-2026\n\n";
    assert "# test-entry\n\nDate: 17-02-2026\n\n" + "Test note content"
           == "# test-entry\n\nDate: 17-02-2026\n\nTest note content";
  }

  /** The entry made on 17 February 2026 reads `# test-entry`, `Date: 17-02-2026`, then the note. */
  lemma TemplateExample()
    ensures EntryTemplate("test-entry.md", Some("Test note content"), DateTime(Date(2026, 2, 17), 8, 15, 3))
            == "# test-entry\n\nDate: 17-02-2026\n\nTest note content\n"
  {
    HeadingExample();
    DateStampExample();
    TemplateHeadExample();
    TemplateTailExample();
  }
}
