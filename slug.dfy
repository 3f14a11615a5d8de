/**
 * The title slugifier (`sanitize_title`): reserved characters become `-`,
 * runs of `-` shrink to one, and trailing `-` go; a leading `-` stays.
 */
module Slugifier {
  import opened Strings

  /** The eleven characters `sanitize_title` replaces with `-`. */
  const Reserved: set<char> := {' ', '/', '\\', ':', '?', '*', '"', '\'', '<', '>', '|'}

  predicate NoReserved(s: string) {
    forall i :: 0 <= i < |s| ==> s[i] !in Reserved
  }

  /** `s` contains `"--"`. */
  predicate HasDoubleDash(s: string) {
    exists i :: 0 <= i < |s| - 1 && s[i] == '-' && s[i + 1] == '-'
  }

  /** `s.replace(c, "-")` for a single character `c`. */
  function ReplaceChar(s: string, c: char): (r: string)
    ensures |r| == |s|
    ensures forall i :: 0 <= i < |s| ==> r[i] == if s[i] == c then '-' else s[i]
  {
    seq(|s|, i requires 0 <= i < |s| => if s[i] == c then '-' else s[i])
  }

  /**
   * What one `replace(c, "-")` does for a caller: `c` is gone (unless it is
   * `-` itself), no other character appears that was not there, a second
   * call changes nothing, and a string without `c` is left alone.
   */
  lemma ReplaceCharRemoves(s: string, c: char)
    ensures c != '-' ==> c !in ReplaceChar(s, c)
    ensures forall x :: x in ReplaceChar(s, c) && x != '-' ==> x in s && x != c
    ensures ReplaceChar(ReplaceChar(s, c), c) == ReplaceChar(s, c)
    ensures c !in s ==> ReplaceChar(s, c) == s
  {
    var r := ReplaceChar(s, c);
    forall x | x in r && x != '-'
      ensures x in s && x != c
    {
      var i :| 0 <= i < |r| && r[i] == x;
    }
  }

  /** The chain of eleven `replace` calls that opens `sanitize_title`. */
  function ReplaceReserved(title: string): string {
    ReplaceChar(ReplaceChar(ReplaceChar(ReplaceChar(ReplaceChar(ReplaceChar(
      ReplaceChar(ReplaceChar(ReplaceChar(ReplaceChar(ReplaceChar(
        title, ' '), '/'), '\\'), ':'), '?'), '*'), '"'), '\''), '<'), '>'), '|')
  }

  /**
   * One `s.replace("--", "-")`: scanning left to right, each non-overlapping
   * `"--"` becomes `"-"` (so `"---"` becomes `"--"`, not `"-"`).
   */
  function ReplaceDoubleDash(s: string): string
    decreases |s|
  {
    if |s| < 2 then s
    else if s[0] == '-' && s[1] == '-' then "-" + ReplaceDoubleDash(s[2..])
    else [s[0]] + ReplaceDoubleDash(s[1..])
  }

  /** Reference definition: every maximal run of `-` replaced by a single `-`. */
  function Collapse(s: string): string
    decreases |s|
  {
    if |s| < 2 then s
    else if s[0] == '-' && s[1] == '-' then Collapse(s[1..])
    else [s[0]] + Collapse(s[1..])
  }

  /** What `sanitize_title` returns, stated through the reference definition. */
  function Slug(title: string): string {
    TrimEndMatches(Collapse(ReplaceReserved(title)), "-")
  }

  /** `sanitize_title`: the `while safe.contains("--")` loop, then the trailing trim. */
  method SanitizeTitle(title: string) returns (slug: string)
    ensures slug == Slug(title)
    ensures NoReserved(slug) && !HasDoubleDash(slug) && !EndsWith(slug, "-")
  {
    var safe := ReplaceReserved(title);
    while HasDoubleDash(safe)
      invariant Collapse(safe) == Collapse(ReplaceReserved(title))
      decreases |safe|
    {
      CollapseOfPass(safe);
      PassShortens(safe);
      safe := ReplaceDoubleDash(safe);
    }
    CollapseWithoutDoubleDash(safe);
    slug := TrimEndMatches(safe, "-");
    SlugProperties(title);
  }

  /** Each mapped character is `-` or was already there. */
  lemma ReplaceReservedAt(title: string)
    ensures |ReplaceReserved(title)| == |title|
    ensures forall i :: 0 <= i < |title| ==>
      ReplaceReserved(title)[i] == if title[i] in Reserved then '-' else title[i]
  {
  }

  lemma ReplaceReservedClean(title: string)
    ensures NoReserved(ReplaceReserved(title))
  {
    ReplaceReservedAt(title);
  }

  /** One pass keeps the first character and never lengthens the string. */
  lemma {:induction false} PassShape(s: string)
    ensures |ReplaceDoubleDash(s)| <= |s|
    ensures |ReplaceDoubleDash(s)| == 0 <==> |s| == 0
    ensures |s| > 0 ==> ReplaceDoubleDash(s)[0] == s[0]
    decreases |s|
  {
    if |s| >= 2 {
      if s[0] == '-' && s[1] == '-' {
        PassShape(s[2..]);
      } else {
        PassShape(s[1..]);
      }
    }
  }

  /** A pass over a string that contains `"--"` makes it strictly shorter: the loop ends. */
  lemma {:induction false} PassShortens(s: string)
    requires HasDoubleDash(s)
    ensures |ReplaceDoubleDash(s)| < |s|
    decreases |s|
  {
    var i :| 0 <= i < |s| - 1 && s[i] == '-' && s[i + 1] == '-';
    if s[0] == '-' && s[1] == '-' {
      PassShape(s[2..]);
    } else {
      assert i >= 1 && s[1..][i - 1] == '-' && s[1..][i] == '-';
      PassShortens(s[1..]);
    }
  }

  /** Collapsing keeps the first character and never lengthens the string. */
  lemma {:induction false} CollapseShape(s: string)
    ensures |Collapse(s)| <= |s|
    ensures |Collapse(s)| == 0 <==> |s| == 0
    ensures |s| > 0 ==> Collapse(s)[0] == s[0]
    decreases |s|
  {
    if |s| >= 2 {
      CollapseShape(s[1..]);
    }
  }

  /** Collapsing a character in front of `u`. */
  lemma CollapseCons(c: char, u: string)
    ensures Collapse([c] + u) ==
      if c == '-' && |u| > 0 && u[0] == '-' then Collapse(u) else [c] + Collapse(u)
  {
    var s := [c] + u;
    if |u| > 0 {
      assert s[1..] == u;
    }
  }

  /** A pass of `replace("--", "-")` does not change what the string collapses to. */
  lemma {:induction false} CollapseOfPass(s: string)
    ensures Collapse(ReplaceDoubleDash(s)) == Collapse(s)
    decreases |s|
  {
    if |s| >= 2 {
      if s[0] == '-' && s[1] == '-' {
        var t := s[2..];
        CollapseOfPass(t);
        PassShape(t);
        CollapseCons('-', ReplaceDoubleDash(t));
        CollapseCons('-', t);
        assert s[1..] == "-" + t;
      } else {
        var t := s[1..];
        CollapseOfPass(t);
        PassShape(t);
        CollapseCons(s[0], ReplaceDoubleDash(t));
        assert s == [s[0]] + t;
      }
    }
  }

  /** Once no `"--"` is left, collapsing changes nothing: the loop's exit state. */
  lemma {:induction false} CollapseWithoutDoubleDash(s: string)
    requires !HasDoubleDash(s)
    ensures Collapse(s) == s
    decreases |s|
  {
    if |s| >= 2 {
      var t := s[1..];
      assert !HasDoubleDash(t) by {
        forall i | 0 <= i < |t| - 1
          ensures !(t[i] == '-' && t[i + 1] == '-')
        {
          assert t[i] == s[i + 1] && t[i + 1] == s[i + 2];
        }
      }
      CollapseWithoutDoubleDash(t);
      assert !(s[0] == '-' && s[1] == '-');
    }
  }

  /** The collapsed string contains no `"--"`. */
  lemma {:induction false} CollapseNoDoubleDash(s: string)
    ensures !HasDoubleDash(Collapse(s))
    decreases |s|
  {
    if |s| >= 2 {
      var t := s[1..];
      CollapseNoDoubleDash(t);
      CollapseShape(t);
      if !(s[0] == '-' && s[1] == '-') {
        var r := Collapse(s);
        assert r == [s[0]] + Collapse(t);
        forall i | 0 <= i < |r| - 1
          ensures !(r[i] == '-' && r[i + 1] == '-')
        {
          if i == 0 {
            assert r[1] == Collapse(t)[0] == t[0] == s[1];
          } else {
            assert r[i] == Collapse(t)[i - 1] && r[i + 1] == Collapse(t)[i];
          }
        }
      }
    }
  }

  /**
   * Collapsing only drops dashes: a character other than `-` occurs in the
   * result exactly when it occurs in the input.
   */
  lemma {:induction false} CollapseKeepsCharacters(s: string)
    ensures forall i :: 0 <= i < |Collapse(s)| ==> Collapse(s)[i] in s
    ensures forall c :: c != '-' && c in s ==> c in Collapse(s)
    decreases |s|
  {
    if |s| >= 2 {
      var t := s[1..];
      CollapseKeepsCharacters(t);
      assert s == [s[0]] + t;
      if !(s[0] == '-' && s[1] == '-') {
        var r := Collapse(s);
        assert r == [s[0]] + Collapse(t);
        assert forall i :: 1 <= i < |r| ==> r[i] == Collapse(t)[i - 1];
      }
    }
  }

  /**
   * What `sanitize_title` promises of its output: none of the eleven reserved
   * characters, no `"--"`, and no trailing `-`.
   */
  lemma SlugProperties(title: string)
    ensures NoReserved(Slug(title))
    ensures !HasDoubleDash(Slug(title))
    ensures !EndsWith(Slug(title), "-")
  {
    var u := ReplaceReserved(title);
    var v := Collapse(u);
    var w := Slug(title);
    ReplaceReservedClean(title);
    CollapseKeepsCharacters(u);
    CollapseNoDoubleDash(u);
    TrimEndMatchesDone(v, "-");
    TrimEndMatchesPrefix(v, "-");
    forall i | 0 <= i < |w| - 1
      ensures !(w[i] == '-' && w[i + 1] == '-')
    {
      assert w[i] == v[i] && w[i + 1] == v[i + 1];
    }
  }

  /**
   * Only trailing dashes are trimmed: a title that opens with `-` or a reserved
   * character and holds some other character yields a slug that opens with `-`.
   */
  lemma SlugKeepsLeadingDash(title: string, i: nat)
    requires |title| > 0 && (title[0] == '-' || title[0] in Reserved)
    requires i < |title| && title[i] != '-' && title[i] !in Reserved
    ensures |Slug(title)| > 0 && Slug(title)[0] == '-'
  {
    var u := ReplaceReserved(title);
    var v := Collapse(u);
    ReplaceReservedAt(title);
    CollapseShape(u);
    CollapseKeepsCharacters(u);
    assert u[i] == title[i] && title[i] in u;
    var j :| 0 <= j < |v| && v[j] == title[i];
    TrimEndCharKeeps(v, '-', j);
    TrimEndMatchesPrefix(v, "-");
    assert Slug(title)[0] == v[0];
  }

  /** The reserved-character pass, read off one character at a time. */
  lemma ReplaceReservedIs(title: string, mapped: string)
    requires |mapped| == |title|
    requires forall i :: 0 <= i < |title| ==> mapped[i] == if title[i] in Reserved then '-' else title[i]
    ensures ReplaceReserved(title) == mapped
  {
    ReplaceReservedAt(title);
  }

  /** The slug of a title whose reserved-character pass leaves no `"--"`. */
  lemma SlugOfClean(title: string, mapped: string)
    requires ReplaceReserved(title) == mapped && !HasDoubleDash(mapped)
    ensures Slug(title) == TrimEndMatches(mapped, "-")
  {
    CollapseWithoutDoubleDash(mapped);
  }

  /** Dropping one dash of a `"--"` anywhere does not change what a string collapses to. */
  lemma {:induction false} CollapseDropsDash(a: string, b: string)
    ensures Collapse(a + "--" + b) == Collapse(a + "-" + b)
    decreases |a|
  {
    if a == [] {
      assert ("--" + b)[1..] == "-" + b;
    } else {
      var a' := a[1..];
      CollapseDropsDash(a', b);
      assert a + "--" + b == [a[0]] + (a' + "--" + b);
      assert a + "-" + b == [a[0]] + (a' + "-" + b);
      CollapseCons(a[0], a' + "--" + b);
      CollapseCons(a[0], a' + "-" + b);
      assert (a' + "--" + b)[0] == (a' + "-" + b)[0];
    }
  }

  /** `"my daily notes"` becomes `"my-daily-notes"`. */
  lemma SlugExampleSpaces()
    ensures Slug("my daily notes") == "my-daily-notes"
  {
    ReplaceReservedIs("my daily notes", "my-daily-notes");
    SlugOfClean("my daily notes", "my-daily-notes");
    assert !EndsWith("my-daily-notes", "-");
  }

  /**
   * A title already in slug form (no reserved character, no `--`, no
   * trailing `-`) is its own slug: `sanitize_title` is idempotent.
   */
  lemma SlugOfSlugForm(s: string)
    requires NoReserved(s) && !HasDoubleDash(s) && !EndsWith(s, "-")
    ensures Slug(s) == s
  {
    ReplaceReservedIs(s, s);
    SlugOfClean(s, s);
  }

  /** A title with nothing to replace is its own slug: `"niet-lekker-geslapen"`. */
  lemma SlugExampleClean()
    ensures Slug("niet-lekker-geslapen") == "niet-lekker-geslapen"
  {
    var t := "niet-lekker-geslapen";
    ReplaceReservedIs(t, t);
    assert !HasDoubleDash(t);
    SlugOfClean(t, t);
    assert !EndsWith(t, "-");
  }

  /** `"file*name"` becomes `"file-name"`. */
  lemma SlugExampleStar()
    ensures Slug("file*name") == "file-name"
  {
    ReplaceReservedIs("file*name", "file-name");
    SlugOfClean("file*name", "file-name");
    assert !EndsWith("file-name", "-");
  }

  /** `"?leading"` becomes `"-leading"`: the leading dash is kept. */
  lemma SlugExampleLeading()
    ensures Slug("?leading") == "-leading"
  {
    ReplaceReservedIs("?leading", "-leading");
    SlugOfClean("?leading", "-leading");
    assert !EndsWith("-leading", "-");
  }

  /** `"trailing?"` becomes `"trailing"`: the trailing dash is trimmed. */
  lemma SlugExampleTrailing()
    ensures Slug("trailing?") == "trailing"
  {
    ReplaceReservedIs("trailing?", "trailing-");
    SlugOfClean("trailing?", "trailing-");
    assert EndsWith("trailing-", "-") && "trailing-"[..8] == "trailing";
    assert !EndsWith("trailing", "-");
  }

  lemma DropDashHyphens()
    ensures Collapse("multi--hyphens") == Collapse("multi-hyphens")
  {
    CollapseDropsDash("multi", "hyphens");
    assert "multi" + "--" + "hyphens" == "multi--hyphens";
    assert "multi" + "-" + "hyphens" == "multi-hyphens";
  }

  lemma CleanHyphens()
    ensures Collapse("multi-hyphens") == "multi-hyphens"
  {
    CollapseWithoutDoubleDash("multi-hyphens");
  }

  lemma CollapseExampleHyphens()
    ensures Collapse("multi--hyphens") == "multi-hyphens"
  {
    DropDashHyphens();
    CleanHyphens();
  }

  lemma DropDashColon()
    ensures Collapse("test--file-name") == Collapse("test-file-name")
  {
    CollapseDropsDash("test", "file-name");
    assert "test" + "--" + "file-name" == "test--file-name";
    assert "test" + "-" + "file-name" == "test-file-name";
  }

  lemma CleanColon()
    ensures Collapse("test-file-name") == "test-file-name"
  {
    CollapseWithoutDoubleDash("test-file-name");
  }

  lemma CollapseExampleColon()
    ensures Collapse("test--file-name") == "test-file-name"
  {
    DropDashColon();
    CleanColon();
  }

  /** The slug of a title whose collapsed form is known and clean. */
  lemma SlugOfCollapsed(title: string, mapped: string, collapsed: string)
    requires ReplaceReserved(title) == mapped && Collapse(mapped) == collapsed
    requires !EndsWith(collapsed, "-")
    ensures Slug(title) == collapsed
  {
  }

  /** `"multi--hyphens"` becomes `"multi-hyphens"`: a run of dashes shrinks to one. */
  lemma SlugExampleHyphens()
    ensures Slug("multi--hyphens") == "multi-hyphens"
  {
    ReplaceReservedIs("multi--hyphens", "multi--hyphens");
    CollapseExampleHyphens();
    SlugOfCollapsed("multi--hyphens", "multi--hyphens", "multi-hyphens");
  }

  /** `"test: file/name"` becomes `"test-file-name"`: `": "` gives two dashes, then one. */
  lemma SlugExampleColon()
    ensures Slug("test: file/name") == "test-file-name"
  {
    ReplaceReservedIs("test: file/name", "test--file-name");
    CollapseExampleColon();
    SlugOfCollapsed("test: file/name", "test--file-name", "test-file-name");
  }
}
