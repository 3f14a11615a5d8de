/**
 * The journal's layout on disk: a root directory holding one directory per
 * year (`year.to_string()`, not zero-padded) and, inside it, one per month
 * (`format!("{:02}", month)`); and how the root is chosen.
 */
module Journal {
  import opened Wrappers
  import opened Decimal
  import opened Paths

  /** What the configuration file holds: an optional default journal directory. */
  datatype Config = Config(defaultPath: Option<Path>)

  /** Why creating an entry or answering a query stops, in place of a message and exit code. */
  datatype JournalError =
    | TitleNotMarkdown
    | CreateDirFailed
    | InvalidMonthFolder(month: string)
    | InvalidYearFolder(year: string)
    | EntryExists(fileName: string)
    | WriteFailed
    | NoJournalPath

  /**
   * `get_journal_path`: a path given on the command line wins over the
   * configured default; with neither there is no journal path.
   */
  function GetJournalPath(explicitPath: Option<Path>, config: Option<Config>): (r: Option<Path>)
    ensures r.Some? <==> explicitPath.Some? || (config.Some? && config.value.defaultPath.Some?)
    ensures explicitPath.Some? ==> r == explicitPath
    ensures explicitPath.None? && r.Some? ==> config.Some? && r == config.value.defaultPath
  {
    if explicitPath.Some? then explicitPath
    else if config.Some? && config.value.defaultPath.Some? then config.value.defaultPath
    else None
  }

  /** `journal_path.join(year.to_string())`. */
  function YearDir(root: Path, year: int): Path {
    root + [IntToString(year)]
  }

  /** `journal_path.join(year.to_string()).join(format!("{:02}", month))`. */
  function MonthDir(root: Path, year: int, month: nat): (p: Path)
    ensures |p| == |root| + 2 && p[..|root|] == root
    ensures Parent(p) == YearDir(root, year)
    ensures FileName(p) == Pad2(month)
  {
    YearDir(root, year) + [Pad2(month)]
  }

  /** Different (year, month) pairs never share a month directory. */
  lemma MonthDirInjective(root: Path, y1: int, m1: nat, y2: int, m2: nat)
    requires MonthDir(root, y1, m1) == MonthDir(root, y2, m2)
    ensures y1 == y2 && m1 == m2
  {
    var p := MonthDir(root, y1, m1);
    assert p[|root|] == IntToString(y1) && p[|root|] == IntToString(y2);
    IntToStringInjective(y1, y2);
    Pad2Injective(m1, m2);
  }
}
