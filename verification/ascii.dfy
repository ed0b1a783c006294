/** ASCII-only text helpers of the Rust standard library (`eq_ignore_ascii_case`, `starts_with`). */
module Ascii {

  /** `u8::to_ascii_lowercase` on a character: only `A`..`Z` change. */
  function Lower(c: char): char
  {
    if 'A' <= c <= 'Z' then (c as int + 32) as char else c
  }

  function LowerAll(s: string): (r: string)
    ensures |r| == |s|
    ensures forall i :: 0 <= i < |s| ==> r[i] == Lower(s[i])
  {
    if |s| == 0 then "" else [Lower(s[0])] + LowerAll(s[1..])
  }

  /** `str::eq_ignore_ascii_case`. */
  predicate EqIgnoreCase(a: string, b: string)
  {
    |a| == |b| && forall i :: 0 <= i < |a| ==> Lower(a[i]) == Lower(b[i])
  }

  /** A string no character of which `Lower` changes. */
  predicate IsLowerCase(s: string)
  {
    forall i :: 0 <= i < |s| ==> Lower(s[i]) == s[i]
  }

  /** Comparing against a lower-case pattern ignoring case is comparing the lowered text exactly. */
  lemma EqIgnoreCaseLowerPattern(s: string, p: string)
    requires IsLowerCase(p)
    ensures EqIgnoreCase(s, p) <==> LowerAll(s) == p
  {
    if EqIgnoreCase(s, p) {
      assert forall i :: 0 <= i < |p| ==> LowerAll(s)[i] == p[i];
    }
  }

  /** A pattern without letters, such as a version number, matches ignoring case only itself. */
  lemma EqIgnoreCaseWithoutLetters(s: string, p: string)
    requires forall i :: 0 <= i < |p| ==> !('A' <= p[i] <= 'Z') && !('a' <= p[i] <= 'z')
    ensures EqIgnoreCase(s, p) <==> s == p
  {
    if EqIgnoreCase(s, p) {
      forall i | 0 <= i < |s|
        ensures s[i] == p[i]
      {
        assert Lower(s[i]) == Lower(p[i]);
      }
    }
  }

  predicate StartsWith(s: string, prefix: string)
  {
    |prefix| <= |s| && s[..|prefix|] == prefix
  }

  predicate EndsWith(s: string, suffix: string)
  {
    |suffix| <= |s| && s[|s| - |suffix|..] == suffix
  }
}
