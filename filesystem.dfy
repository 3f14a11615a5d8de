/**
 * The part of the file system the journal touches: which directories exist,
 * which files exist and what they hold, and the four calls made on it
 * (`Path::exists`, `fs::create_dir_all`, `fs::read_dir`, `fs::write`).
 */
module FileSystems {
  import opened Wrappers
  import opened Paths

  /** A snapshot of the disk: the directories, and the files with their contents. */
  datatype Tree = Tree(dirs: set<Path>, files: map<Path, string>)

  datatype IoError = NotADirectory | NotFound | IsADirectory

  /** `Path::exists`: a directory or a file is there. */
  predicate Exists(t: Tree, p: Path) {
    p in t.dirs || p in t.files
  }

  /** `p` sits directly inside `d`. */
  predicate IsChild(p: Path, d: Path) {
    |p| == |d| + 1 && p[..|d|] == d
  }

  /**
   * A tree the way a disk is: nothing is both a directory and a file, and
   * every proper ancestor of a directory or a file is a directory.
   */
  predicate WellFormed(t: Tree) {
    (forall p | p in t.dirs :: p !in t.files)
    && (forall p, k | p in t.dirs && 0 < k < |p| :: p[..k] in t.dirs)
    && (forall f, k | f in t.files && 0 < k < |f| :: f[..k] in t.dirs)
  }

  /** The non-empty prefixes of `p`, `p` itself included: what `create_dir_all(p)` creates. */
  function Ancestry(p: Path): (r: set<Path>)
    ensures p != [] ==> p in r
    ensures forall q :: q in r <==> exists k :: 0 < k <= |p| && q == p[..k]
  {
    assert p != [] ==> p == p[..|p|];
    set k | 0 < k <= |p| :: p[..k]
  }

  /** One more component adds exactly the longer path to what `create_dir_all` creates. */
  lemma AncestrySnoc(p: Path, x: string)
    ensures Ancestry(p + [x]) == Ancestry(p) + {p + [x]}
  {
    forall q | q in Ancestry(p)
      ensures q in Ancestry(p + [x])
    {
      var k :| 0 < k <= |p| && q == p[..k];
      assert q == (p + [x])[..k];
    }
    forall q | q in Ancestry(p + [x])
      ensures q in Ancestry(p) + {p + [x]}
    {
      var k :| 0 < k <= |p| + 1 && q == (p + [x])[..k];
      if k <= |p| {
        assert q == p[..k];
      }
    }
  }

  /**
   * `fs::read_dir(d)`, as a set of paths: everything directly inside `d`,
   * directories and files alike. Reading a path that is not a directory fails,
   * and the callers treat that failure as an empty listing.
   */
  function ReadDir(t: Tree, d: Path): set<Path> {
    if d in t.dirs then
      (set p | p in t.dirs && IsChild(p, d)) + (set f | f in t.files && IsChild(f, d))
    else {}
  }

  /**
   * `fs::create_dir_all(p)`: fails when one of `p`'s prefixes is a file,
   * otherwise every missing prefix becomes a directory.
   */
  function MkdirAll(t: Tree, p: Path): Result<Tree, IoError> {
    if exists k :: 0 < k <= |p| && p[..k] in t.files then Err(NotADirectory)
    else Ok(Tree(t.dirs + Ancestry(p), t.files))
  }

  /**
   * `fs::write(p, content)`: creates the file, or replaces what it holds.
   * Fails when `p`'s parent is not a directory or `p` is a directory.
   */
  function Write(t: Tree, p: Path, content: string): Result<Tree, IoError> {
    if |p| == 0 || Parent(p) !in t.dirs then Err(NotFound)
    else if p in t.dirs then Err(IsADirectory)
    else Ok(Tree(t.dirs, t.files[p := content]))
  }

  /** Everything `read_dir` lists is directly inside the directory read, and is there. */
  lemma ReadDirChildren(t: Tree, d: Path)
    ensures forall p :: p in ReadDir(t, d) <==> d in t.dirs && Exists(t, p) && IsChild(p, d)
  {
  }

  /** `create_dir_all` fails exactly when a prefix of the path is a file. */
  lemma MkdirAllFails(t: Tree, p: Path)
    ensures MkdirAll(t, p).Err? <==> exists k :: 0 < k <= |p| && p[..k] in t.files
  {
  }

  /**
   * On success the directory and all its ancestors exist, no file changed,
   * and the only new directories are ancestors of `p`.
   */
  lemma MkdirAllCreates(t: Tree, p: Path)
    requires WellFormed(t) && p != [] && MkdirAll(t, p).Ok?
    ensures var t' := MkdirAll(t, p).value;
      p in t'.dirs && t'.files == t.files && t.dirs <= t'.dirs
      && (forall q :: q in t'.dirs - t.dirs ==> q in Ancestry(p))
      && WellFormed(t')
  {
    var t' := MkdirAll(t, p).value;
    forall q, k | q in t'.dirs && 0 < k < |q|
      ensures q[..k] in t'.dirs
    {
      if q !in t.dirs {
        var j :| 0 < j <= |p| && q == p[..j];
        assert q[..k] == p[..k];
      }
    }
    forall q | q in t'.dirs
      ensures q !in t'.files
    {
      if q !in t.dirs {
        var j :| 0 < j <= |p| && q == p[..j];
      }
    }
  }

  /** Creating a directory that is already there changes nothing. */
  lemma MkdirAllExisting(t: Tree, p: Path)
    requires WellFormed(t) && p in t.dirs
    ensures MkdirAll(t, p) == Ok(t)
  {
    forall k | 0 < k <= |p|
      ensures p[..k] in t.dirs && p[..k] !in t.files
    {
      if k == |p| {
        assert p[..k] == p;
      }
    }
    assert !exists k :: 0 < k <= |p| && p[..k] in t.files;
    assert t.dirs + Ancestry(p) == t.dirs;
  }

  /** Writing a new file directly inside an existing directory succeeds. */
  lemma WriteIntoDirectory(t: Tree, d: Path, name: string, content: string)
    requires d in t.dirs && !Exists(t, d + [name])
    ensures Write(t, d + [name], content).Ok?
  {
    assert Parent(d + [name]) == d;
  }

  /**
   * A successful write adds or replaces exactly one file and keeps the tree
   * well formed; the directories stay as they were.
   */
  lemma WriteEffect(t: Tree, p: Path, content: string)
    requires WellFormed(t) && Write(t, p, content).Ok?
    ensures var t' := Write(t, p, content).value;
      t'.dirs == t.dirs && t'.files == t.files[p := content] && WellFormed(t')
  {
    var t' := Write(t, p, content).value;
    forall f, k | f in t'.files && 0 < k < |f|
      ensures f[..k] in t'.dirs
    {
      if f == p {
        var d := Parent(p);
        if k < |d| {
          assert f[..k] == d[..k];
        } else {
          assert f[..k] == d;
        }
      }
    }
  }

  /**
   * `create_dir_all(p)` adds nothing to the listing of a directory at least as
   * deep as `p`: everything it creates is shallower than that.
   */
  lemma MkdirAllListing(t: Tree, p: Path, q: Path)
    requires WellFormed(t) && MkdirAll(t, p).Ok? && |q| >= |p|
    ensures ReadDir(MkdirAll(t, p).value, q) == ReadDir(t, q)
  {
  }

  /** A successful write of a new file adds it to its parent's listing and to no other. */
  lemma WriteListing(t: Tree, p: Path, content: string, q: Path)
    requires Write(t, p, content).Ok? && p !in t.files
    ensures ReadDir(Write(t, p, content).value, q) == ReadDir(t, q) + (if q == Parent(p) then {p} else {})
  {
    if q == Parent(p) {
      assert IsChild(p, q);
    }
  }

  /** The disk the journal works on. */
  class FileSystem {
    var dirs: set<Path>
    var files: map<Path, string>

    function State(): Tree
      reads this
    {
      Tree(dirs, files)
    }

    constructor (t: Tree)
      ensures State() == t
    {
      dirs := t.dirs;
      files := t.files;
    }

    /** `path.exists()`. */
    function PathExists(p: Path): (b: bool)
      reads this
      ensures b <==> p in dirs || p in files
    {
      Exists(State(), p)
    }

    /** `fs::read_dir(d)`, with a failed read given as an empty listing. */
    function List(d: Path): (r: set<Path>)
      reads this
      ensures forall p :: p in r <==> d in dirs && (p in dirs || p in files) && IsChild(p, d)
    {
      ReadDirChildren(State(), d);
      ReadDir(State(), d)
    }

    /** `fs::create_dir_all(p)`. */
    method CreateDirAll(p: Path) returns (r: Result<(), IoError>)
      modifies this
      ensures match MkdirAll(old(State()), p)
              case Ok(t) => r == Ok(()) && State() == t
              case Err(e) => r == Err(e) && State() == old(State())
    {
      match MkdirAll(State(), p)
      case Ok(t) =>
        dirs := t.dirs;
        r := Ok(());
      case Err(e) =>
        r := Err(e);
    }

    /** `fs::write(p, content)`. */
    method WriteFile(p: Path, content: string) returns (r: Result<(), IoError>)
      modifies this
      ensures match Write(old(State()), p, content)
              case Ok(t) => r == Ok(()) && State() == t
              case Err(e) => r == Err(e) && State() == old(State())
    {
      if |p| == 0 || Parent(p) !in dirs {
        r := Err(NotFound);
      } else if p in dirs {
        r := Err(IsADirectory);
      } else {
        files := files[p := content];
        r := Ok(());
      }
    }
  }
}
