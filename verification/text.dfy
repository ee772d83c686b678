/**
 Character and string helpers shared by the server-side and the page-side models:
 ASCII lower-casing, suffix tests and the last-occurrence search that Python's
 `str.rfind` performs.
 */
module Text {

  /** Lower-cases one character. Only the ASCII letters `A`..`Z` change. */
  function LowerChar(c: char): char {
    if 'A' <= c <= 'Z' then (c as int + 32) as char else c
  }

  /** Lower-cases every character of `s`, keeping its length. */
  function Lower(s: string): (r: string)
    ensures |r| == |s|
    ensures forall i :: 0 <= i < |s| ==> r[i] == LowerChar(s[i])
  {
    seq(|s|, i requires 0 <= i < |s| => LowerChar(s[i]))
  }

  /** Lower-casing commutes with taking a suffix. */
  lemma LowerSuffix(s: string, k: nat)
    requires k <= |s|
    ensures Lower(s[k..]) == Lower(s)[k..]
  {
  }

  /** Characters that are not letters are left alone by `LowerChar`. */
  lemma LowerCharKeepsNonLetters(c: char)
    ensures !('A' <= c <= 'Z') ==> LowerChar(c) == c
    ensures 'a' <= LowerChar(c) <= 'z' <==> ('a' <= c <= 'z' || 'A' <= c <= 'Z')
  {
  }

  predicate EndsWith(s: string, suffix: string) {
    |suffix| <= |s| && s[|s| - |suffix|..] == suffix
  }

  /** Index of the last occurrence of `c` in `s`, or -1 when there is none. */
  function RFind(s: string, c: char): (k: int)
    ensures -1 <= k < |s|
    ensures 0 <= k ==> s[k] == c
    ensures forall j :: k < j < |s| ==> s[j] != c
  {
    if |s| == 0 then -1
    else if s[|s| - 1] == c then |s| - 1
    else RFind(s[..|s| - 1], c)
  }

  /** The three properties in `RFind`'s contract pin its result down. */
  lemma RFindUnique(s: string, c: char, k: int)
    requires -1 <= k < |s|
    requires 0 <= k ==> s[k] == c
    requires forall j :: k < j < |s| ==> s[j] != c
    ensures RFind(s, c) == k
  {
    var r := RFind(s, c);
    assert 0 <= r ==> s[r] == c;
  }
}
