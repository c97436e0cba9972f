/**
  The Python `str` operations the converters are written with: `isspace`/`strip`,
  `lower`, the `in` substring test, `split`/`join`/`replace` with a non-empty
  separator, `str(int)`, `f"{n:0Wd}"` and `int(str)` in base 10.
 */
module Text {
  import opened Results

  // ---------------------------------------------------------------- whitespace

  /** `c.isspace()`: the characters Python's `str.strip()` removes. */
  predicate IsSpace(c: char) {
    || ('\t' <= c <= '\r')
    || ('\U{1C}' <= c <= ' ')
    || c == '\U{85}' || c == '\U{A0}' || c == '\U{1680}'
    || ('\U{2000}' <= c <= '\U{200A}')
    || c == '\U{2028}' || c == '\U{2029}' || c == '\U{202F}' || c == '\U{205F}' || c == '\U{3000}'
  }

  /** `s.lstrip()`: drops exactly the leading run of whitespace. */
  function LStrip(s: string): (r: string)
    ensures |r| <= |s| && r == s[|s| - |r|..]
    ensures forall i :: 0 <= i < |s| - |r| ==> IsSpace(s[i])
    ensures r == [] || !IsSpace(r[0])
  {
    if |s| > 0 && IsSpace(s[0]) then LStrip(s[1..]) else s
  }

  /** `s.rstrip()`: drops exactly the trailing run of whitespace. */
  function RStrip(s: string): (r: string)
    ensures |r| <= |s| && r == s[..|r|]
    ensures forall i :: |r| <= i < |s| ==> IsSpace(s[i])
    ensures r == [] || !IsSpace(r[|r| - 1])
  {
    if |s| > 0 && IsSpace(s[|s| - 1]) then RStrip(s[..|s| - 1]) else s
  }

  /** `s.strip()` */
  function Strip(s: string): (r: string)
    ensures r == [] || (!IsSpace(r[0]) && !IsSpace(r[|r| - 1]))
  {
    RStrip(LStrip(s))
  }

  /** Text that neither starts nor ends with whitespace is its own `strip()`. */
  lemma StripUnchanged(s: string)
    requires s == [] || (!IsSpace(s[0]) && !IsSpace(s[|s| - 1]))
    ensures Strip(s) == s
  {
  }

  /** Trailing whitespace after text with non-space ends is stripped away. */
  lemma StripTrailing(s: string, ws: string)
    requires |s| > 0 && !IsSpace(s[0]) && !IsSpace(s[|s| - 1])
    requires forall i :: 0 <= i < |ws| ==> IsSpace(ws[i])
    ensures Strip(s + ws) == s
  {
    var t := s + ws;
    assert t[0] == s[0];
    assert LStrip(t) == t;
    var r := RStrip(t);
    assert t[|s| - 1] == s[|s| - 1];
    assert |r| >= |s|;
    assert forall i :: |s| <= i < |t| ==> t[i] == ws[i - |s|];
    assert |r| <= |s|;
    assert r == t[..|s|] == s;
  }

  /** Text with no whitespace at all. */
  predicate NoSpace(s: string) {
    forall i :: 0 <= i < |s| ==> !IsSpace(s[i])
  }

  // ---------------------------------------------------------------- case

  /** `lower()` on the ASCII letters; every other character is kept. */
  function LowerChar(c: char): char {
    if 'A' <= c <= 'Z' then (c as int + 32) as char else c
  }

  function Lower(s: string): string {
    seq(|s|, i requires 0 <= i < |s| => LowerChar(s[i]))
  }

  lemma LowerIdempotent(s: string)
    ensures Lower(Lower(s)) == Lower(s)
  {
  }

  // ---------------------------------------------------------------- search

  /** `pat` occurs in `s` starting at index `j`. */
  predicate OccursAt(s: string, pat: string, j: nat)
    requires j <= |s|
  {
    pat <= s[j..]
  }

  /** `s.find(pat)`: the first index at which `pat` occurs, if any. */
  function Find(s: string, pat: string): (r: Option<nat>)
    ensures r.Some? ==> r.value + |pat| <= |s| && pat <= s[r.value..]
    ensures r.Some? ==> forall j :: 0 <= j < r.value ==> !OccursAt(s, pat, j)
    ensures r.None? ==> forall j :: 0 <= j <= |s| ==> !OccursAt(s, pat, j)
  {
    if pat <= s then Some(0)
    else if |s| == 0 then None
    else
      match Find(s[1..], pat)
      case None =>
        NoneShift(s, pat, |s|);
        None
      case Some(i) =>
        NoneShift(s, pat, i);
        assert s[i + 1..] == s[1..][i..];
        Some(i + 1)
  }

  /** No occurrence in the tail up to `bound - 1` means none in `s` from 1
      up to `bound`. */
  lemma NoneShift(s: string, pat: string, bound: nat)
    requires 0 < |s| && bound <= |s|
    requires forall j :: 0 <= j < bound ==> !OccursAt(s[1..], pat, j)
    ensures forall j :: 1 <= j <= bound ==> !OccursAt(s, pat, j)
  {
    forall j | 1 <= j <= bound ensures !OccursAt(s, pat, j) {
      assert !OccursAt(s[1..], pat, j - 1);
      assert s[j..] == s[1..][j - 1..];
    }
  }

  /** `pat in s` */
  predicate Contains(s: string, pat: string) {
    Find(s, pat).Some?
  }

  /** An occurrence of `pat` at index `j` of `s` makes `pat in s` true. */
  lemma ContainsAt(s: string, pat: string, j: nat)
    requires j <= |s| && pat <= s[j..]
    ensures Contains(s, pat)
  {
    assert OccursAt(s, pat, j);
  }

  /** Text lacking the first character of `pat` does not hold `pat`. */
  lemma LacksFirst(s: string, pat: string)
    requires |pat| > 0 && pat[0] !in s
    ensures !Contains(s, pat)
  {
    forall j | 0 <= j <= |s| ensures !(pat <= s[j..]) {
      if j < |s| {
        assert s[j..][0] == s[j] != pat[0];
      }
    }
  }

  /** Text that holds `pat` holds it inside every text around it. */
  lemma ContainsInfix(a: string, s: string, b: string, pat: string)
    requires Contains(s, pat)
    ensures Contains(a + s + b, pat)
  {
    var j := Find(s, pat).value;
    assert (a + s + b)[|a| + j..] == s[j..] + b;
    ContainsAt(a + s + b, pat, |a| + j);
  }

  /** What a suffix holds, the whole text holds. */
  lemma ContainsSuffix(s: string, i: nat, pat: string)
    requires i <= |s|
    ensures Contains(s[i..], pat) ==> Contains(s, pat)
  {
    if Contains(s[i..], pat) {
      assert s == s[..i] + s[i..] + [];
      ContainsInfix(s[..i], s[i..], [], pat);
    }
  }

  /** A single character is found exactly when it is an element. */
  lemma ContainsChar(s: string, c: char)
    ensures Contains(s, [c]) <==> c in s
  {
    if c in s {
      var j :| 0 <= j < |s| && s[j] == c;
      ContainsAt(s, [c], j);
    }
    if Contains(s, [c]) {
      var j := Find(s, [c]).value;
      assert s[j] == c;
    }
  }

  predicate StartsWith(s: string, prefix: string) {
    prefix <= s
  }

  predicate EndsWith(s: string, suffix: string) {
    |suffix| <= |s| && s[|s| - |suffix|..] == suffix
  }

  // ---------------------------------------------------------------- split and join

  /** `s.split(sep)` for a non-empty separator: the pieces between the
      non-overlapping occurrences of `sep`, found from the left. */
  function Split(s: string, sep: string): (parts: seq<string>)
    requires |sep| > 0
    ensures |parts| > 0
    decreases |s|
  {
    match Find(s, sep)
    case None => [s]
    case Some(i) => [s[..i]] + Split(s[i + |sep|..], sep)
  }

  /** `sep.join(parts)` */
  function Join(parts: seq<string>, sep: string): string {
    if |parts| == 0 then ""
    else if |parts| == 1 then parts[0]
    else parts[0] + sep + Join(parts[1..], sep)
  }

  /** A character found in no part and not in the separator is not in the join. */
  lemma {:induction false} JoinAvoids(parts: seq<string>, sep: string, x: char)
    requires forall i :: 0 <= i < |parts| ==> x !in parts[i]
    requires x !in sep
    ensures x !in Join(parts, sep)
    decreases |parts|
  {
    if |parts| > 1 {
      JoinAvoids(parts[1..], sep, x);
      assert parts[0] == parts[0];
    }
  }

  /** `s.replace(old, new)` for a non-empty `old`, which Python defines as
      replacing the same occurrences `split` cuts at. */
  function Replace(s: string, pattern: string, replacement: string): string
    requires |pattern| > 0
  {
    Join(Split(s, pattern), replacement)
  }

  /** Joining the pieces of a split with the same separator gives the text back. */
  lemma {:induction false} JoinSplit(s: string, sep: string)
    requires |sep| > 0
    ensures Join(Split(s, sep), sep) == s
    decreases |s|
  {
    match Find(s, sep)
    case None =>
    case Some(i) =>
      var a, b := s[..i], s[i + |sep|..];
      assert s == a + sep + b;
      JoinSplit(b, sep);
      JoinCons(a, Split(b, sep), sep);
  }

  lemma JoinCons(a: string, rest: seq<string>, sep: string)
    requires |rest| > 0
    ensures Join([a] + rest, sep) == a + sep + Join(rest, sep)
  {
    assert ([a] + rest)[1..] == rest;
  }

  /** Text without the separator is not split. */
  lemma SplitNone(s: string, sep: string)
    requires |sep| > 0 && !Contains(s, sep)
    ensures Split(s, sep) == [s]
  {
  }

  /** `p` is Clean for `sep` when no occurrence of `sep` starts inside `p`,
      even one running on into a following separator. */
  predicate Clean(p: string, sep: string) {
    forall j :: 0 <= j < |p| ==> !(sep <= (p + sep)[j..])
  }

  lemma CleanChar(p: string, c: char)
    requires c !in p
    ensures Clean(p, [c])
  {
    forall j | 0 <= j < |p| ensures !([c] <= (p + [c])[j..]) {
      assert (p + [c])[j..][0] == p[j];
    }
  }

  /** Cutting `a + sep + b` where no occurrence starts inside `a`. */
  lemma SplitCons(a: string, b: string, sep: string)
    requires |sep| > 0 && Clean(a, sep)
    ensures Split(a + sep + b, sep) == [a] + Split(b, sep)
  {
    var s := a + sep + b;
    assert s[|a|..] == sep + b;
    forall j | 0 <= j < |a|
      ensures !OccursAt(s, sep, j)
    {
      assert (a + sep)[j..] == s[j..|a| + |sep|];
      assert !(sep <= s[j..|a| + |sep|]);
    }
    assert OccursAt(s, sep, |a|);
    var f := Find(s, sep);
    assert f.Some? && OccursAt(s, sep, f.value);
    assert f.value == |a|;
    assert s[..|a|] == a;
    assert s[|a| + |sep|..] == b;
  }

  /** Every part but the last is Clean for `sep`. */
  predicate CleanParts(parts: seq<string>, sep: string) {
    forall k :: 0 <= k < |parts| - 1 ==> Clean(parts[k], sep)
  }

  /** Splitting a join of clean pieces gives the pieces back. */
  lemma {:induction false} SplitJoin(parts: seq<string>, sep: string)
    requires |sep| > 0 && |parts| > 0
    requires CleanParts(parts, sep)
    requires !Contains(parts[|parts| - 1], sep)
    ensures Split(Join(parts, sep), sep) == parts
    decreases |parts|
  {
    if |parts| == 1 {
      SplitNone(parts[0], sep);
    } else {
      var rest := parts[1..];
      CleanPartsTail(parts, sep);
      SplitJoin(rest, sep);
      SplitCons(parts[0], Join(rest, sep), sep);
    }
  }

  lemma CleanPartsTail(parts: seq<string>, sep: string)
    requires |parts| > 1 && CleanParts(parts, sep)
    ensures Clean(parts[0], sep) && CleanParts(parts[1..], sep)
    ensures parts[1..][|parts| - 2] == parts[|parts| - 1]
  {
    assert forall k :: 0 <= k < |parts| - 2 ==> parts[1..][k] == parts[k + 1];
  }

  /** Text lacking the first character of the separator has no separator
      starting inside it, even one running into a following separator. */
  lemma CleanLacksFirst(p: string, sep: string)
    requires |sep| > 0 && sep[0] !in p
    ensures Clean(p, sep)
  {
    forall j | 0 <= j < |p| ensures !(sep <= (p + sep)[j..]) {
      assert (p + sep)[j..][0] == p[j];
    }
  }

  /** A join begins with the first part's first character and ends with the
      last part's last character. */
  lemma {:induction false} JoinEnds(parts: seq<string>, sep: string)
    requires |parts| > 0 && |parts[0]| > 0 && |parts[|parts| - 1]| > 0
    ensures var j := Join(parts, sep); var last := parts[|parts| - 1];
      |j| > 0 && j[0] == parts[0][0] && j[|j| - 1] == last[|last| - 1]
    decreases |parts|
  {
    if |parts| > 1 {
      JoinLast(parts[1..], sep);
    }
  }

  lemma {:induction false} JoinLast(parts: seq<string>, sep: string)
    requires |parts| > 0 && |parts[|parts| - 1]| > 0
    ensures var j := Join(parts, sep); var last := parts[|parts| - 1];
      |j| > 0 && j[|j| - 1] == last[|last| - 1]
    decreases |parts|
  {
    if |parts| > 1 {
      JoinLast(parts[1..], sep);
    }
  }

  /** Splitting at a character recovers parts that do not contain it. */
  lemma SplitJoinChar(parts: seq<string>, c: char)
    requires |parts| > 0 && forall k :: 0 <= k < |parts| ==> c !in parts[k]
    ensures Split(Join(parts, [c]), [c]) == parts
  {
    assert CleanParts(parts, [c]) by {
      forall k | 0 <= k < |parts| - 1 ensures Clean(parts[k], [c]) {
        CleanChar(parts[k], c);
      }
    }
    ContainsChar(parts[|parts| - 1], c);
    SplitJoin(parts, [c]);
  }

  /** `a, b = s.split(c)` on text holding `c` once. */
  lemma SplitTwo(a: string, b: string, c: char)
    requires c !in a && c !in b
    ensures Split(a + [c] + b, [c]) == [a, b]
  {
    assert a + [c] + b == Join([a, b], [c]) by {
      assert [a, b][1..] == [b];
    }
    SplitJoinChar([a, b], c);
  }

  /** `a, b, d = s.split(c)` on text holding `c` twice. */
  lemma SplitThree(a: string, b: string, d: string, c: char)
    requires c !in a && c !in b && c !in d
    ensures Split(a + [c] + b + [c] + d, [c]) == [a, b, d]
  {
    assert a + [c] + b + [c] + d == Join([a, b, d], [c]) by {
      assert [a, b, d][1..] == [b, d];
      assert [b, d][1..] == [d];
      assert Join([b, d], [c]) == b + [c] + d;
    }
    SplitJoinChar([a, b, d], c);
  }

  /** A single-character separator cuts a text into one more piece than it
      has occurrences of that character. */
  lemma {:induction false} SplitCount(s: string, c: char)
    ensures |Split(s, [c])| == multiset(s)[c] + 1
    decreases |s|
  {
    match Find(s, [c])
    case None =>
      ContainsChar(s, c);
    case Some(i) =>
      SplitCount(s[i + 1..], c);
      SplitAtFirst(s, c, i);
      CountAround(s, i, c);
  }

  /** The first occurrence of a character: one piece before it, none of the
      character before it. */
  lemma SplitAtFirst(s: string, c: char, i: nat)
    requires Find(s, [c]) == Some(i)
    ensures i < |s| && [c] <= s[i..]
    ensures |Split(s, [c])| == 1 + |Split(s[i + 1..], [c])|
    ensures multiset(s[..i])[c] == 0
  {
    forall j | 0 <= j < i ensures s[j] != c {
      assert !OccursAt(s, [c], j);
    }
    ContainsChar(s[..i], c);
  }

  /** The count of `c` in `s` is its count on each side of an occurrence, plus one. */
  lemma CountAround(s: string, i: nat, c: char)
    requires i < |s| && [c] <= s[i..]
    ensures multiset(s)[c] == multiset(s[..i])[c] + 1 + multiset(s[i + 1..])[c]
  {
    assert s == s[..i] + [c] + s[i + 1..];
    assert multiset(s) == multiset(s[..i]) + multiset{c} + multiset(s[i + 1..]);
  }

  // ---------------------------------------------------------------- integers

  predicate IsDigit(c: char) {
    '0' <= c <= '9'
  }

  function DigitChar(d: nat): (c: char)
    requires d < 10
    ensures IsDigit(c)
  {
    "0123456789"[d]
  }

  function DigitValue(c: char): nat {
    if IsDigit(c) then c as int - '0' as int else 0
  }

  /** `str(n)` for `n >= 0` */
  function NatToString(n: nat): (r: string)
    ensures |r| > 0 && IsDigit(r[0])
    ensures forall i :: 0 <= i < |r| ==> IsDigit(r[i])
  {
    if n < 10 then [DigitChar(n)] else NatToString(n / 10) + [DigitChar(n % 10)]
  }

  /** `str(n)` */
  function IntToString(n: int): string {
    if n < 0 then "-" + NatToString(-n) else NatToString(n)
  }

  /** `digits` preceded by enough `0`s to be `width` long. */
  function ZeroPad(digits: string, width: nat): (r: string)
    ensures |r| == if |digits| < width then width else |digits|
    ensures r[|r| - |digits|..] == digits
  {
    if |digits| < width then Zeros(width - |digits|) + digits else digits
  }

  function Zeros(k: nat): (r: string)
    ensures |r| == k && forall i :: 0 <= i < k ==> r[i] == '0'
  {
    seq(k, _ => '0')
  }

  /** `f"{n:0{width}d}"`: the sign counts towards the width. */
  function FormatPadded(n: int, width: nat): string {
    if n < 0 then "-" + ZeroPad(NatToString(-n), if width > 0 then width - 1 else 0)
    else ZeroPad(NatToString(n), width)
  }

  /** A non-negative number formats to digits only. */
  lemma PaddedDigits(n: nat, width: nat)
    ensures |FormatPadded(n, width)| > 0
    ensures forall i :: 0 <= i < |FormatPadded(n, width)| ==> IsDigit(FormatPadded(n, width)[i])
  {
    var d := NatToString(n);
    if |d| < width {
      ZerosThenDigits(width - |d|, d);
    }
  }

  /** The body of a base-10 literal `int()` accepts: digits, with single
      underscores allowed between two digits. */
  predicate IsDigitGroups(s: string) {
    && |s| > 0 && IsDigit(s[0]) && IsDigit(s[|s| - 1])
    && (forall i :: 0 <= i < |s| ==> IsDigit(s[i]) || s[i] == '_')
    && (forall i, j {:trigger s[i], s[j]} :: 0 <= i < |s| - 1 && j == i + 1 ==> !(s[i] == '_' && s[j] == '_'))
  }

  /** The value of a digit string, underscores skipped. */
  function DigitsValue(s: string): nat
    decreases |s|
  {
    if |s| == 0 then 0
    else if s[|s| - 1] == '_' then DigitsValue(s[..|s| - 1])
    else DigitsValue(s[..|s| - 1]) * 10 + DigitValue(s[|s| - 1])
  }

  /** `int(s)`: surrounding whitespace, an optional sign, then digit groups;
      `None` where Python raises. */
  function ParseInt(s: string): Option<int> {
    var t := Strip(s);
    if |t| > 0 && (t[0] == '+' || t[0] == '-') then
      if IsDigitGroups(t[1..]) then
        Some(if t[0] == '-' then -(DigitsValue(t[1..]) as int) else DigitsValue(t[1..]))
      else None
    else if IsDigitGroups(t) then Some(DigitsValue(t))
    else None
  }

  lemma {:induction false} DigitsValueOfNat(n: nat)
    ensures DigitsValue(NatToString(n)) == n
    decreases n
  {
    if n >= 10 {
      DigitsValueOfNat(n / 10);
      var r := NatToString(n);
      assert r[..|r| - 1] == NatToString(n / 10);
    }
  }

  /** Leading zeros do not change the value of a digit string. */
  lemma {:induction false} DigitsValueZeros(k: nat, s: string)
    ensures DigitsValue(Zeros(k) + s) == DigitsValue(s)
    decreases |s| + k
  {
    var z := Zeros(k) + s;
    if |s| > 0 {
      assert z[..|z| - 1] == Zeros(k) + s[..|s| - 1];
      DigitsValueZeros(k, s[..|s| - 1]);
    } else if k > 0 {
      assert z[..|z| - 1] == Zeros(k - 1) + s;
      DigitsValueZeros(k - 1, s);
    }
  }

  /** `int(f"{n:0{width}d}") == n`: formatting then parsing gives the number back. */
  lemma ParsePadded(n: nat, width: nat)
    ensures ParseInt(ZeroPad(NatToString(n), width)) == Some(n)
  {
    var d := NatToString(n);
    var t := ZeroPad(d, width);
    DigitsValueOfNat(n);
    if |d| < width {
      DigitsValueZeros(width - |d|, d);
      ZerosThenDigits(width - |d|, d);
    }
    AllDigits(t);
    assert !(t[0] == '+' || t[0] == '-');
  }

  lemma ZerosThenDigits(k: nat, d: string)
    requires forall i :: 0 <= i < |d| ==> IsDigit(d[i])
    ensures forall i :: 0 <= i < k + |d| ==> IsDigit((Zeros(k) + d)[i])
  {
  }

  /** Plain digits are digit groups, with no whitespace to strip. */
  lemma AllDigits(t: string)
    requires |t| > 0 && forall i :: 0 <= i < |t| ==> IsDigit(t[i])
    ensures IsDigitGroups(t) && Strip(t) == t
  {
    assert IsDigit(t[0]) && IsDigit(t[|t| - 1]);
    StripUnchanged(t);
  }

  /** `int(str(n)) == n` */
  lemma ParseIntToString(n: int)
    ensures ParseInt(IntToString(n)) == Some(n)
  {
    if n < 0 {
      var s := IntToString(n);
      assert s == "-" + NatToString(-n);
      ParseNegative(s, -n);
    } else {
      ParsePadded(n, 0);
      assert ZeroPad(NatToString(n), 0) == IntToString(n);
    }
  }

  /** A minus sign before the digits of `m` parses to `-m`. */
  lemma ParseNegative(s: string, m: nat)
    requires s == "-" + NatToString(m)
    ensures ParseInt(s) == Some(-(m as int))
  {
    var d := NatToString(m);
    assert s[1..] == d;
    AllDigits(d);
    assert IsDigit(s[|s| - 1]);
    StripUnchanged(s);
    DigitsValueOfNat(m);
  }
}
