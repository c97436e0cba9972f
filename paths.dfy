/** `os.path.basename` and `os.path.splitext` with the POSIX separator `/`. */
module Paths {

  /** `s.rfind(c)`: the last index holding `c`, or -1. */
  function RFind(s: string, c: char): (r: int)
    ensures -1 <= r < |s|
    ensures r >= 0 ==> s[r] == c
    ensures forall j :: r < j < |s| ==> s[j] != c
  {
    if |s| == 0 then -1
    else if s[|s| - 1] == c then |s| - 1
    else RFind(s[..|s| - 1], c)
  }

  /** `os.path.basename(p)`: what follows the last `/`. */
  function Basename(p: string): (name: string)
    ensures '/' !in name
    ensures |name| <= |p| && name == p[|p| - |name|..]
    ensures |name| == |p| || p[|p| - |name| - 1] == '/'
  {
    p[RFind(p, '/') + 1..]
  }

  /** `os.path.splitext(p)`: the extension starts at the last `.` of the last
      path component, unless only dots precede it in that component
      (so `.bashrc` and `..` have no extension). */
  function SplitExt(p: string): (parts: (string, string))
  {
    var sepIndex := RFind(p, '/');
    var dotIndex := RFind(p, '.');
    if dotIndex > sepIndex && exists k :: sepIndex < k < dotIndex && p[k] != '.' then
      (p[..dotIndex], p[dotIndex..])
    else
      (p, "")
  }

  /** `os.path.splitext(p)[0]` */
  function Root(p: string): string {
    SplitExt(p).0
  }

  /** The base name without its extension, as the matchers compute it:
      `os.path.splitext(os.path.basename(f))[0]`. */
  function Stem(path: string): string {
    Root(Basename(path))
  }

  /** `splitext` cuts the path in two: the root followed by the extension is the
      path, and the extension is empty or one dot followed by a dot-free,
      separator-free tail. */
  lemma SplitExtParts(p: string)
    ensures SplitExt(p).0 + SplitExt(p).1 == p
    ensures var ext := SplitExt(p).1;
      ext == [] || (ext[0] == '.' && '.' !in ext[1..] && '/' !in ext)
  {
    var sepIndex := RFind(p, '/');
    var dotIndex := RFind(p, '.');
    if dotIndex > sepIndex && exists k :: sepIndex < k < dotIndex && p[k] != '.' {
      var ext := p[dotIndex..];
      assert p[..dotIndex] + ext == p;
      assert forall j :: 0 < j < |ext| ==> ext[j] == p[dotIndex + j];
    }
  }

  /** A name ending in a dot and a dot-free, separator-free extension loses just
      that extension, provided the name before it does not end in a dot or a
      separator. */
  lemma SplitExtLast(name: string, ext: string)
    requires |name| > 0 && name[|name| - 1] != '.' && name[|name| - 1] != '/'
    requires '.' !in ext && '/' !in ext
    ensures SplitExt(name + "." + ext) == (name, "." + ext)
  {
    var p := name + "." + ext;
    var n := |name|;
    assert p[n] == '.';
    forall j | n < j < |p| ensures p[j] != '.' && p[j] != '/' {
      assert p[j] == ext[j - n - 1];
    }
    assert RFind(p, '.') == n;
    assert p[n - 1] == name[n - 1];
    assert RFind(p, '/') < n - 1;
    assert p[..n] == name;
    assert p[n..] == "." + ext;
  }

  /** A separator-free name holding a character other than a dot, followed by
      a dot and a dot-free extension, loses just that extension; the name may
      itself end in dots, as in `Vol.` before `.srt`. */
  lemma SplitExtPlain(name: string, ext: string)
    requires '/' !in name && exists k :: 0 <= k < |name| && name[k] != '.'
    requires '.' !in ext && '/' !in ext
    ensures SplitExt(name + "." + ext) == (name, "." + ext)
  {
    var p := name + "." + ext;
    var n := |name|;
    assert p[n] == '.';
    forall j | n < j < |p| ensures p[j] != '.' && p[j] != '/' {
      assert p[j] == ext[j - n - 1];
    }
    assert RFind(p, '.') == n;
    forall j | 0 <= j < n ensures p[j] != '/' {
      assert p[j] == name[j];
    }
    assert RFind(p, '/') == -1;
    var k :| 0 <= k < n && name[k] != '.';
    assert p[k] == name[k];
    assert p[..n] == name;
    assert p[n..] == "." + ext;
  }

  /** A name without a separator is its own base name. */
  lemma BasenamePlain(p: string)
    requires '/' !in p
    ensures Basename(p) == p
  {
    assert RFind(p, '/') == -1;
  }
}
