/** The POSIX path functions the backend calls (`os.path.basename`,
    `os.path.join` with two arguments, `os.path.splitext`), stated over
    strings with `/` as the only separator. */
module Paths {
  import Strings

  /** `s.rfind(c)`: the index of the last `c` in `s`, or -1. */
  function RFind(s: string, c: char): (i: int)
    ensures -1 <= i < |s|
    ensures i >= 0 ==> s[i] == c
    ensures forall j :: i < j < |s| ==> s[j] != c
    decreases |s|
  {
    if s == [] then -1
    else if s[|s| - 1] == c then |s| - 1
    else RFind(s[..|s| - 1], c)
  }

  /** Everything after the last `/`. */
  function Basename(p: string): (b: string)
    ensures '/' !in b
    ensures |b| <= |p| && p == p[..|p| - |b|] + b
    ensures |b| < |p| ==> p[|p| - |b| - 1] == '/'
  {
    p[RFind(p, '/') + 1..]
  }

  /** A path with no separator is its own basename. */
  lemma BasenameOfName(name: string)
    requires '/' !in name
    ensures Basename(name) == name
  {
  }

  /** A path ending in a separator has an empty basename. */
  lemma BasenameOfDirectory(p: string)
    requires |p| > 0 && p[|p| - 1] == '/'
    ensures Basename(p) == ""
  {
  }

  /** `os.path.join(a, b)`: an absolute `b` replaces `a`; otherwise a
      separator is inserted unless `a` is empty or already ends in one. */
  function Join(a: string, b: string): string {
    if |b| > 0 && b[0] == '/' then b
    else if a == [] || a[|a| - 1] == '/' then a + b
    else a + "/" + b
  }

  /** The joined path always ends with `b`; for a relative `b` it starts
      with `a`, and an absolute `b` is the whole result. */
  lemma JoinKeepsParts(a: string, b: string)
    ensures |b| <= |Join(a, b)| && Join(a, b)[|Join(a, b)| - |b|..] == b
    ensures (b == [] || b[0] != '/') ==> |a| <= |Join(a, b)| && Join(a, b)[..|a|] == a
    ensures |b| > 0 && b[0] == '/' ==> Join(a, b) == b
  {
    var r := Join(a, b);
    if !(|b| > 0 && b[0] == '/') && !(a == [] || a[|a| - 1] == '/') {
      assert r == a + ("/" + b);
    }
  }

  /** Joining a relative name onto a folder that does not end in a separator
      inserts exactly one separator. */
  lemma JoinName(folder: string, name: string)
    requires folder != [] && folder[|folder| - 1] != '/'
    requires '/' !in name
    ensures Join(folder, name) == folder + "/" + name
  {
  }

  /** Some character strictly between `lo` and `hi` is not a dot. */
  predicate HasNonDot(p: string, lo: int, hi: int)
    requires -1 <= lo && hi <= |p|
  {
    exists k :: lo < k < hi && p[k] != '.'
  }

  /** `os.path.splitext(p)`: the extension runs from the last `.` of the last
      path component, unless every character of that component before the
      dot is itself a dot (so `.png` and `a/..png` have no extension). */
  function SplitExt(p: string): (r: (string, string))
    ensures r.0 + r.1 == p
    ensures r.1 == [] || (r.1[0] == '.' && '.' !in r.1[1..] && '/' !in r.1)
  {
    var sepIndex := RFind(p, '/');
    var dotIndex := RFind(p, '.');
    if dotIndex > sepIndex && HasNonDot(p, sepIndex, dotIndex) then
      (p[..dotIndex], p[dotIndex..])
    else
      (p, [])
  }

  /** The extension is what follows the last dot, provided the stem ends in an
      ordinary character of the last component. */
  lemma SplitExtLastDot(stem: string, ext: string)
    requires '.' !in ext && '/' !in ext
    requires stem != [] && stem[|stem| - 1] != '.' && stem[|stem| - 1] != '/'
    ensures SplitExt(stem + "." + ext) == (stem, "." + ext)
  {
    var p := stem + "." + ext;
    assert p[|stem|] == '.';
    var sepIndex := RFind(p, '/');
    var dotIndex := RFind(p, '.');
    assert forall j :: |stem| < j < |p| ==> p[j] == ext[j - |stem| - 1];
    assert dotIndex == |stem|;
    assert sepIndex < |stem| - 1;
    assert p[|stem| - 1] != '.';
    assert p[..dotIndex] == stem;
    assert p[dotIndex..] == "." + ext;
  }

  /** Lower-casing moves no separator and no dot. */
  lemma RFindLower(s: string, c: char)
    requires c == '/' || c == '.'
    ensures RFind(Strings.Lower(s), c) == RFind(s, c)
  {
    forall j | 0 <= j < |s|
      ensures Strings.Lower(s)[j] == c <==> s[j] == c
    {
      Strings.LowerCharFixes(s[j], c);
    }
  }

  /** Lower-casing turns no character into a dot and no dot into another
      character. */
  lemma HasNonDotLower(p: string, lo: int, hi: int)
    requires -1 <= lo && hi <= |p|
    ensures HasNonDot(Strings.Lower(p), lo, hi) == HasNonDot(p, lo, hi)
  {
    var q := Strings.Lower(p);
    forall j | 0 <= j < |p|
      ensures q[j] == '.' <==> p[j] == '.'
    {
      Strings.LowerCharFixes(p[j], '.');
    }
  }

  /** Splitting a lower-cased path gives the lower-cased parts. */
  lemma SplitExtLower(p: string)
    ensures SplitExt(Strings.Lower(p)).0 == Strings.Lower(SplitExt(p).0)
    ensures SplitExt(Strings.Lower(p)).1 == Strings.Lower(SplitExt(p).1)
  {
    var q := Strings.Lower(p);
    RFindLower(p, '/');
    RFindLower(p, '.');
    var sepIndex := RFind(p, '/');
    var dotIndex := RFind(p, '.');
    if -1 <= sepIndex && dotIndex <= |p| {
      HasNonDotLower(p, sepIndex, dotIndex);
    }
    if dotIndex >= 0 {
      Strings.LowerSlice(p, 0, dotIndex);
      Strings.LowerSlice(p, dotIndex, |p|);
    }
  }
}
