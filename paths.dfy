/**
 * Paths as sequences of components, and the order `Vec<PathBuf>::sort`
 * uses: component by component, each component compared as a string (by
 * character, which for UTF-8 is the same as by byte).
 */
module Paths {

  type Path = seq<string>

  /** The last component: `Path::file_name`. */
  function FileName(p: Path): string
    requires |p| > 0
  {
    p[|p| - 1]
  }

  /** The path without its last component: `Path::parent`. */
  function Parent(p: Path): Path
    requires |p| > 0
  {
    p[..|p| - 1]
  }

  /** Lexicographic order on strings. */
  predicate StrLess(a: string, b: string)
    decreases |a|
  {
    b != [] && (a == [] || a[0] < b[0] || (a[0] == b[0] && StrLess(a[1..], b[1..])))
  }

  /** Lexicographic order on paths, component by component. */
  predicate PathLess(p: Path, q: Path)
    decreases |p|
  {
    q != [] && (p == [] || StrLess(p[0], q[0]) || (p[0] == q[0] && PathLess(p[1..], q[1..])))
  }

  lemma {:induction false} StrLessIrreflexive(a: string)
    ensures !StrLess(a, a)
    decreases |a|
  {
    if a != [] {
      StrLessIrreflexive(a[1..]);
    }
  }

  lemma {:induction false} StrLessTransitive(a: string, b: string, c: string)
    requires StrLess(a, b) && StrLess(b, c)
    ensures StrLess(a, c)
    decreases |a|
  {
    if a != [] && a[0] == b[0] && b[0] == c[0] {
      StrLessTransitive(a[1..], b[1..], c[1..]);
    }
  }

  lemma {:induction false} StrLessTotal(a: string, b: string)
    requires a != b
    ensures StrLess(a, b) || StrLess(b, a)
    decreases |a|
  {
    if a != [] && b != [] && a[0] == b[0] {
      assert a == [a[0]] + a[1..] && b == [b[0]] + b[1..];
      StrLessTotal(a[1..], b[1..]);
    }
  }

  lemma {:induction false} PathLessIrreflexive(p: Path)
    ensures !PathLess(p, p)
    decreases |p|
  {
    if p != [] {
      StrLessIrreflexive(p[0]);
      PathLessIrreflexive(p[1..]);
    }
  }

  lemma {:induction false} PathLessTransitive(p: Path, q: Path, r: Path)
    requires PathLess(p, q) && PathLess(q, r)
    ensures PathLess(p, r)
    decreases |p|
  {
    if p != [] {
      if StrLess(p[0], q[0]) && StrLess(q[0], r[0]) {
        StrLessTransitive(p[0], q[0], r[0]);
      } else if p[0] == q[0] && q[0] == r[0] {
        PathLessTransitive(p[1..], q[1..], r[1..]);
      }
    }
  }

  lemma {:induction false} PathLessTotal(p: Path, q: Path)
    requires p != q
    ensures PathLess(p, q) || PathLess(q, p)
    decreases |p|
  {
    if p != [] && q != [] {
      if p[0] == q[0] {
        assert p == [p[0]] + p[1..] && q == [q[0]] + q[1..];
        PathLessTotal(p[1..], q[1..]);
      } else {
        StrLessTotal(p[0], q[0]);
      }
    }
  }

  lemma PathLessAsymmetric(p: Path, q: Path)
    requires PathLess(p, q)
    ensures !PathLess(q, p)
  {
    if PathLess(q, p) {
      PathLessTransitive(p, q, p);
      PathLessIrreflexive(p);
    }
  }

  /** The elements of a sequence, as a set. */
  function Elems(s: seq<Path>): set<Path> {
    set x | x in s
  }

  predicate NoDup(s: seq<Path>) {
    forall i, j :: 0 <= i < j < |s| ==> s[i] != s[j]
  }

  /** In increasing path order, each path once. */
  predicate StrictlySorted(s: seq<Path>) {
    forall i, j :: 0 <= i < j < |s| ==> PathLess(s[i], s[j])
  }

  function Insert(x: Path, s: seq<Path>): seq<Path> {
    if s == [] then [x]
    else if PathLess(x, s[0]) then [x] + s
    else [s[0]] + Insert(x, s[1..])
  }

  /** `entries.sort()`: an insertion sort stands in for the library's sort. */
  function SortPaths(s: seq<Path>): seq<Path> {
    if s == [] then [] else Insert(s[0], SortPaths(s[1..]))
  }

  lemma {:induction false} InsertPermutation(x: Path, s: seq<Path>)
    ensures multiset(Insert(x, s)) == multiset(s) + multiset{x}
    decreases |s|
  {
    if s != [] && !PathLess(x, s[0]) {
      InsertPermutation(x, s[1..]);
      assert s == [s[0]] + s[1..];
    }
  }

  /** Sorting rearranges the paths and neither adds nor drops any. */
  lemma {:induction false} SortPermutation(s: seq<Path>)
    ensures multiset(SortPaths(s)) == multiset(s)
    decreases |s|
  {
    if s != [] {
      SortPermutation(s[1..]);
      InsertPermutation(s[0], SortPaths(s[1..]));
      assert s == [s[0]] + s[1..];
    }
  }

  lemma {:induction false} InsertSorted(x: Path, s: seq<Path>)
    requires StrictlySorted(s) && x !in s
    ensures StrictlySorted(Insert(x, s))
    ensures Elems(Insert(x, s)) == Elems(s) + {x}
    decreases |s|
  {
    if s == [] {
    } else if PathLess(x, s[0]) {
      var r := [x] + s;
      forall i, j | 0 <= i < j < |r|
        ensures PathLess(r[i], r[j])
      {
        if i == 0 && j > 1 {
          PathLessTransitive(x, s[0], s[j - 1]);
        }
      }
    } else {
      var t := s[1..];
      assert StrictlySorted(t);
      InsertSorted(x, t);
      PathLessTotal(x, s[0]);
      var r := [s[0]] + Insert(x, t);
      forall i, j | 0 <= i < j < |r|
        ensures PathLess(r[i], r[j])
      {
        if i == 0 {
          assert r[j] in Elems(Insert(x, t));
          if r[j] != x {
            var k :| 0 <= k < |t| && t[k] == r[j];
            assert s[k + 1] == r[j];
          }
        }
      }
      assert s == [s[0]] + t;
    }
  }

  /**
   * Sorting distinct paths gives each of them once, in strictly increasing
   * order.
   */
  lemma {:induction false} SortStrictlySorted(s: seq<Path>)
    requires NoDup(s)
    ensures StrictlySorted(SortPaths(s))
    ensures Elems(SortPaths(s)) == Elems(s)
    decreases |s|
  {
    if s != [] {
      var t := s[1..];
      assert NoDup(t);
      SortStrictlySorted(t);
      assert s[0] !in t by {
        forall k | 0 <= k < |t|
          ensures t[k] != s[0]
        {
          assert t[k] == s[k + 1];
        }
      }
      assert s[0] !in Elems(SortPaths(t));
      InsertSorted(s[0], SortPaths(t));
      assert s == [s[0]] + t;
    }
  }

  /** A strictly sorted sequence is determined by its set of elements. */
  lemma {:induction false} SortedUnique(a: seq<Path>, b: seq<Path>)
    requires StrictlySorted(a) && StrictlySorted(b) && Elems(a) == Elems(b)
    ensures a == b
    decreases |a|
  {
    if a != [] {
      assert a[0] in Elems(b);
    }
    if b != [] {
      assert b[0] in Elems(a);
    }
    if a != [] && b != [] {
      if a[0] != b[0] {
        var i :| 0 <= i < |a| && a[i] == b[0];
        var j :| 0 <= j < |b| && b[j] == a[0];
        assert PathLess(a[0], a[i]) && PathLess(b[0], b[j]);
        PathLessAsymmetric(a[0], b[0]);
        assert false;
      }
      var a', b' := a[1..], b[1..];
      assert Elems(a') == Elems(b') by {
        forall x | x in Elems(a')
          ensures x in Elems(b')
        {
          var i :| 0 <= i < |a'| && a'[i] == x;
          assert PathLess(a[0], a[i + 1]);
          PathLessIrreflexive(x);
          assert a[i + 1] == x && x in Elems(a);
          var j :| 0 <= j < |b| && b[j] == x;
          assert j != 0;
          assert b'[j - 1] == x;
        }
        forall x | x in Elems(b')
          ensures x in Elems(a')
        {
          var j :| 0 <= j < |b'| && b'[j] == x;
          assert PathLess(b[0], b[j + 1]);
          PathLessIrreflexive(x);
          assert b[j + 1] == x && x in Elems(b);
          var i :| 0 <= i < |a| && a[i] == x;
          assert i != 0;
          assert a'[i - 1] == x;
        }
      }
      SortedUnique(a', b');
      assert a == [a[0]] + a' && b == [b[0]] + b';
    }
  }
}
