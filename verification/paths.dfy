/**
 The three Windows path operations the upload handler relies on: splitting off the
 final extension, joining a directory with a name, and taking the last component.
 The handler only gets past its platform check on Windows, so both `\` and `/` act
 as separators.
 */
module Paths {
  import opened Text

  const Sep: char := '\\'
  const AltSep: char := '/'
  const ExtSep: char := '.'

  predicate IsSep(c: char) {
    c == Sep || c == AltSep
  }

  /** Index of the last separator of `p`, or -1 when `p` has none. */
  function SepIndex(p: string): (k: int)
    ensures -1 <= k < |p|
    ensures 0 <= k ==> IsSep(p[k])
    ensures forall j :: k < j < |p| ==> !IsSep(p[j])
  {
    var a := RFind(p, Sep);
    var b := RFind(p, AltSep);
    if a >= b then a else b
  }

  /** The three properties in `SepIndex`'s contract pin its result down. */
  lemma SepIndexUnique(p: string, k: int)
    requires -1 <= k < |p|
    requires 0 <= k ==> IsSep(p[k])
    requires forall j :: k < j < |p| ==> !IsSep(p[j])
    ensures SepIndex(p) == k
  {
    var r := SepIndex(p);
    assert 0 <= r ==> IsSep(p[r]);
  }

  /** A final extension: a dot followed only by characters that are neither dots nor separators. */
  predicate IsExtension(e: string) {
    && |e| > 0
    && e[0] == ExtSep
    && forall j :: 0 < j < |e| ==> e[j] != ExtSep && !IsSep(e[j])
  }

  /** The last component of `s` holds a character other than a dot, so a dot after it starts an extension. */
  predicate HasStem(s: string) {
    exists j :: SepIndex(s) < j < |s| && s[j] != ExtSep
  }

  /**
   Splits `p` into a root and its final extension. A dot counts only when it lies
   in the last component and something other than dots precedes it there, so
   `.pptx` and `dir\..ppt` have no extension.
   */
  function SplitExt(p: string): (r: (string, string))
    ensures r.0 + r.1 == p
    ensures r.1 != "" ==> HasStem(r.0) && IsExtension(r.1)
  {
    var sepIndex := SepIndex(p);
    var dotIndex := RFind(p, ExtSep);
    if dotIndex > sepIndex && exists j :: sepIndex < j < dotIndex && p[j] != ExtSep then
      SepIndexUnique(p[..dotIndex], sepIndex);
      (p[..dotIndex], p[dotIndex..])
    else
      (p, "")
  }

  /** Converse of `SplitExt`'s contract: a root with a stem followed by an extension splits exactly there. */
  lemma SplitExtOfExtension(s: string, e: string)
    requires HasStem(s)
    requires IsExtension(e)
    ensures SplitExt(s + e) == (s, e)
  {
    var p := s + e;
    RFindUnique(p, ExtSep, |s|);
    SepIndexUnique(p, SepIndex(s));
    var j :| SepIndex(s) < j < |s| && s[j] != ExtSep;
    assert p[j] != ExtSep;
    assert p[..|s|] == s && p[|s|..] == e;
  }

  /** A name that cannot be split into a stem and an extension keeps its whole text as root. */
  lemma SplitExtWithoutExtension(p: string)
    requires forall s, e :: p == s + e ==> !(HasStem(s) && IsExtension(e))
    ensures SplitExt(p) == (p, "")
  {
    var r := SplitExt(p);
    assert p == r.0 + r.1;
  }

  /** Joins a directory and a relative name with the primary separator. */
  function Join(dir: string, name: string): string {
    dir + [Sep] + name
  }

  /** The text after the last separator: the longest suffix of `p` without one. */
  function Basename(p: string): (r: string)
    ensures forall j :: 0 <= j < |r| ==> !IsSep(r[j])
    ensures EndsWith(p, r)
    ensures |r| == |p| || IsSep(p[|p| - |r| - 1])
  {
    p[SepIndex(p) + 1..]
  }

  /** Taking the last component of a joined path ignores the directory. */
  lemma BasenameJoin(dir: string, name: string)
    ensures Basename(Join(dir, name)) == Basename(name)
  {
    var p := Join(dir, name);
    var k := |dir| + 1 + SepIndex(name);
    assert forall j :: k < j < |p| ==> p[j] == name[j - |dir| - 1];
    SepIndexUnique(p, k);
    assert p[k + 1..] == name[SepIndex(name) + 1..];
  }

  /** A name without separators is its own last component. */
  lemma BasenameOfPlainName(name: string)
    requires forall j :: 0 <= j < |name| ==> !IsSep(name[j])
    ensures Basename(name) == name
  {
    SepIndexUnique(name, -1);
  }
}
