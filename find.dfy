/** The part of `std::string` the parser relies on: `find` of a pattern from a start offset. */
module StringSearch {
  import opened Wrappers

  /** `pat` occurs in `s` starting at offset `i`. */
  predicate MatchAt(s: string, pat: string, i: nat)
  {
    i + |pat| <= |s| && s[i..i + |pat|] == pat
  }

  /** `pat` occurs somewhere in `s`. */
  predicate Contains(s: string, pat: string)
  {
    exists i: nat :: i <= |s| && MatchAt(s, pat, i)
  }

  /**
   * `s.find(pat, from)`: the first offset at or after `from` where `pat` occurs,
   * or `None` (`npos`) when there is none, in particular when `from` is past the end.
   */
  function Find(s: string, pat: string, from: nat): (r: Option<nat>)
    decreases |s| - from
    ensures r.Some? ==> from <= r.value && MatchAt(s, pat, r.value)
    ensures r.Some? ==> forall j: nat :: from <= j < r.value ==> !MatchAt(s, pat, j)
    ensures r.None? ==> forall j: nat :: from <= j ==> !MatchAt(s, pat, j)
  {
    if from + |pat| > |s| then None
    else if s[from..from + |pat|] == pat then Some(from)
    else Find(s, pat, from + 1)
  }

  /**
   * The first occurrence from `a` is at `b` when `pat` occurs at `b` and the first
   * character of `pat` does not appear in between.
   */
  lemma {:induction false} FindFirst(s: string, pat: string, a: nat, b: nat)
    requires |pat| > 0 && a <= b && MatchAt(s, pat, b)
    requires pat[0] !in s[a..b]
    ensures Find(s, pat, a) == Some(b)
    decreases b - a
  {
    if a < b {
      assert s[a] == s[a..b][0];
      assert s[a..a + |pat|][0] == s[a];
      assert s[a + 1..b] == s[a..b][1..];
      FindFirst(s, pat, a + 1, b);
    }
  }

  /** There is no occurrence from `a` when the first character of `pat` does not appear there. */
  lemma {:induction false} FindNone(s: string, pat: string, a: nat)
    requires |pat| > 0 && a <= |s|
    requires pat[0] !in s[a..]
    ensures Find(s, pat, a).None?
    decreases |s| - a
  {
    if a + |pat| <= |s| {
      assert s[a] == s[a..][0];
      assert s[a..a + |pat|][0] == s[a];
      assert s[a + 1..] == s[a..][1..];
      FindNone(s, pat, a + 1);
    }
  }
}
