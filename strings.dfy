/** The `str` methods the journal uses: `starts_with`, `ends_with`, `trim_end_matches`. */
module Strings {

  predicate StartsWith(s: string, prefix: string) {
    |prefix| <= |s| && s[..|prefix|] == prefix
  }

  predicate EndsWith(s: string, suffix: string) {
    |suffix| <= |s| && s[|s| - |suffix|..] == suffix
  }

  /** `k` copies of `pat`, one after another. */
  function Repeat(pat: string, k: nat): string {
    if k == 0 then "" else Repeat(pat, k - 1) + pat
  }

  /** `s.trim_end_matches(pat)`: strip `pat` from the end for as long as it is there. */
  function TrimEndMatches(s: string, pat: string): string
    decreases |s|
  {
    if pat != "" && EndsWith(s, pat) then TrimEndMatches(s[..|s| - |pat|], pat) else s
  }

  /** How many copies of `pat` `trim_end_matches` strips from the end of `s`. */
  function TrimmedCount(s: string, pat: string): nat
    decreases |s|
  {
    if pat != "" && EndsWith(s, pat) then TrimmedCount(s[..|s| - |pat|], pat) + 1 else 0
  }

  /** Each part of `a + b + c` is found again at its own offset. */
  lemma ConcatParts(a: string, b: string, c: string)
    ensures var s := a + b + c;
      && |s| == |a| + |b| + |c|
      && s[..|a|] == a && s[|a|..|a| + |b|] == b && s[|a| + |b|..] == c
  {
    var s := a + b + c;
    assert s[..|a|] == a;
    assert s[|a|..|a| + |b|] == b;
  }

  /** Every trailing repetition is removed: the result no longer ends with `pat`. */
  lemma {:induction false} TrimEndMatchesDone(s: string, pat: string)
    requires pat != ""
    ensures !EndsWith(TrimEndMatches(s, pat), pat)
    decreases |s|
  {
    if EndsWith(s, pat) {
      TrimEndMatchesDone(s[..|s| - |pat|], pat);
    }
  }

  /** `s` is the trimmed result followed by the copies of `pat` it lost. */
  lemma {:induction false} TrimEndMatchesSplit(s: string, pat: string)
    ensures s == TrimEndMatches(s, pat) + Repeat(pat, TrimmedCount(s, pat))
    decreases |s|
  {
    if pat != "" && EndsWith(s, pat) {
      var t := s[..|s| - |pat|];
      TrimEndMatchesSplit(t, pat);
      var r, k := TrimEndMatches(t, pat), TrimmedCount(t, pat);
      assert TrimEndMatches(s, pat) == r;
      assert TrimmedCount(s, pat) == k + 1;
      assert Repeat(pat, k + 1) == Repeat(pat, k) + pat;
      assert s == t + pat;
      assert t == r + Repeat(pat, k);
    }
  }

  /** Trimming keeps a prefix of the input, and keeps it whole when nothing trails. */
  lemma {:induction false} TrimEndMatchesPrefix(s: string, pat: string)
    ensures |TrimEndMatches(s, pat)| <= |s|
    ensures TrimEndMatches(s, pat) == s[..|TrimEndMatches(s, pat)|]
    decreases |s|
  {
    if pat != "" && EndsWith(s, pat) {
      var t := s[..|s| - |pat|];
      TrimEndMatchesPrefix(t, pat);
      assert t[..|TrimEndMatches(t, pat)|] == s[..|TrimEndMatches(t, pat)|];
    }
  }

  /** A single-character pattern trims a run of that character and nothing before it. */
  lemma {:induction false} TrimEndCharKeeps(s: string, c: char, i: nat)
    requires i < |s| && s[i] != c
    ensures i < |TrimEndMatches(s, [c])|
    decreases |s|
  {
    if EndsWith(s, [c]) {
      assert s[|s| - 1] == c;
      TrimEndCharKeeps(s[..|s| - 1], c, i);
    }
  }

  /** `"a.md.md".trim_end_matches(".md")` is `"a"`: every repetition goes. */
  lemma TrimEndMatchesExample()
    ensures TrimEndMatches("a.md.md", ".md") == "a"
  {
    assert EndsWith("a.md.md", ".md");
    assert "a.md.md"[..4] == "a.md";
    assert EndsWith("a.md", ".md");
    assert "a.md"[..1] == "a";
    assert !EndsWith("a", ".md");
  }

  /** `"niet-lekker-geslapen.md".trim_end_matches(".md")` is `"niet-lekker-geslapen"`. */
  lemma TrimEndMatchesTitleExample()
    ensures TrimEndMatches("niet-lekker-geslapen.md", ".md") == "niet-lekker-geslapen"
  {
    var t := "niet-lekker-geslapen.md";
    assert EndsWith(t, ".md");
    assert t[..|t| - 3] == "niet-lekker-geslapen";
    assert !EndsWith("niet-lekker-geslapen", ".md");
  }
}
