/** The handful of Python `str` methods the bot relies on, over `string = seq<char>`:
    `strip()`, `upper()`, `endswith()`, `replace(old, "")` and `", ".join(...)`,
    together with a splitter that undoes the join. */
module Text {

  /** Python's `str.isspace()` for a single character (the White_Space code points
      plus the four ASCII separator controls U+001C..U+001F). */
  predicate IsSpace(c: char) {
    var n := c as int;
    || n == 0x20 || 0x09 <= n <= 0x0D || 0x1C <= n <= 0x1F
    || n == 0x85 || n == 0xA0 || n == 0x1680 || 0x2000 <= n <= 0x200A
    || n == 0x2028 || n == 0x2029 || n == 0x202F || n == 0x205F || n == 0x3000
  }

  predicate AllSpace(s: string) {
    forall k :: 0 <= k < |s| ==> IsSpace(s[k])
  }

  /** Neither the first nor the last character is whitespace. */
  predicate Trimmed(s: string) {
    |s| == 0 || (!IsSpace(s[0]) && !IsSpace(s[|s| - 1]))
  }

  /** `s.lstrip()`: the longest suffix of `s` after a run of whitespace. */
  function TrimStart(s: string): (r: string)
    ensures |r| <= |s| && r == s[|s| - |r|..]
    ensures AllSpace(s[..|s| - |r|])
    ensures |r| == 0 || !IsSpace(r[0])
  {
    if |s| > 0 && IsSpace(s[0]) then
      var u := s[1..];
      var r := TrimStart(u);
      assert u[|u| - |r|..] == s[|s| - |r|..];
      assert s[..|s| - |r|] == [s[0]] + u[..|u| - |r|];
      AllSpaceConcat([s[0]], u[..|u| - |r|]);
      r
    else s
  }

  /** `s.rstrip()`: the longest prefix of `s` before a run of whitespace. */
  function TrimEnd(s: string): (r: string)
    ensures |r| <= |s| && r == s[..|r|]
    ensures AllSpace(s[|r|..])
    ensures |r| == 0 || !IsSpace(r[|r| - 1])
  {
    if |s| > 0 && IsSpace(s[|s| - 1]) then
      var t := s[..|s| - 1];
      var r := TrimEnd(t);
      assert t[..|r|] == s[..|r|];
      assert s[|r|..] == t[|r|..] + [s[|s| - 1]];
      AllSpaceConcat(t[|r|..], [s[|s| - 1]]);
      r
    else s
  }

  /** `s.strip()`: `s` with leading and trailing whitespace removed. */
  function Strip(s: string): (r: string)
    ensures Trimmed(r)
    ensures |r| == 0 ==> AllSpace(s)
  {
    var t := TrimStart(s);
    var r := TrimEnd(t);
    if |r| == 0 then
      assert t[|r|..] == t;
      AllSpaceConcat(s[..|s| - |t|], t);
      assert s[..|s| - |t|] + t == s;
      r
    else r
  }

  lemma AllSpaceConcat(a: string, b: string)
    requires AllSpace(a) && AllSpace(b)
    ensures AllSpace(a + b)
  {
  }

  /** What `strip()` returns is the input with a whitespace run cut off each end. */
  lemma StripCutsEnds(s: string)
    ensures exists i, j :: 0 <= i <= j <= |s| && Strip(s) == s[i..j] && AllSpace(s[..i]) && AllSpace(s[j..])
  {
    var t := TrimStart(s);
    var r := TrimEnd(t);
    var i := |s| - |t|;
    var j := i + |r|;
    assert t == s[i..];
    assert r == s[i..j];
    assert s[j..] == t[|r|..];
    assert Strip(s) == r;
  }

  /** Stripping a string that is already trimmed changes nothing. */
  lemma StripTrimmed(s: string)
    requires Trimmed(s)
    ensures Strip(s) == s
  {
  }

  predicate IsLower(c: char) {
    'a' <= c <= 'z'
  }

  /** `c.upper()` restricted to ASCII: only 'a'..'z' change. */
  function UpperChar(c: char): (u: char)
    ensures !IsLower(u)
    ensures IsLower(c) ==> u as int == c as int - 32
    ensures IsSpace(u) <==> IsSpace(c)
    ensures !IsLower(c) ==> u == c
  {
    if IsLower(c) then (c as int - 32) as char else c
  }

  predicate NoLower(s: string) {
    forall k :: 0 <= k < |s| ==> !IsLower(s[k])
  }

  /** `s.upper()`: the same length, each character upper-cased in place. */
  function Upper(s: string): (r: string)
    ensures |r| == |s| && NoLower(r)
    ensures forall k :: 0 <= k < |s| ==> r[k] == UpperChar(s[k])
  {
    seq(|s|, k requires 0 <= k < |s| => UpperChar(s[k]))
  }

  /** Upper-casing a string without lower-case letters changes nothing; in
      particular `upper()` is idempotent. */
  lemma UpperNoLower(s: string)
    requires NoLower(s)
    ensures Upper(s) == s
  {
  }

  /** Upper-casing keeps a string trimmed, since whitespace is neither created nor removed. */
  lemma UpperKeepsTrimmed(s: string)
    requires Trimmed(s)
    ensures Trimmed(Upper(s))
  {
    if |s| > 0 {
      assert UpperChar(s[0]) == Upper(s)[0];
      assert UpperChar(s[|s| - 1]) == Upper(s)[|s| - 1];
    }
  }

  predicate EndsWith(s: string, suffix: string) {
    |suffix| <= |s| && s[|s| - |suffix|..] == suffix
  }

  predicate OccursAt(s: string, pat: string, i: int) {
    0 <= i && i + |pat| <= |s| && s[i..i + |pat|] == pat
  }

  /** `pat in s` for a string pattern. */
  predicate Contains(s: string, pat: string) {
    exists i :: 0 <= i <= |s| && OccursAt(s, pat, i)
  }

  /** `s.replace(pat, "")`: a left-to-right scan deleting non-overlapping occurrences. */
  function RemoveAll(s: string, pat: string): (r: string)
    requires |pat| > 0
    ensures |r| <= |s|
    decreases |s|
  {
    if |pat| <= |s| && s[..|pat|] == pat then RemoveAll(s[|pat|..], pat)
    else if |s| == 0 then ""
    else [s[0]] + RemoveAll(s[1..], pat)
  }

  /** An occurrence in the tail of a string is an occurrence in the string. */
  lemma ContainsTail(s: string, pat: string)
    requires |s| > 0 && Contains(s[1..], pat)
    ensures Contains(s, pat)
  {
    var i :| 0 <= i <= |s[1..]| && OccursAt(s[1..], pat, i);
    assert s[1..][i..i + |pat|] == s[i + 1..i + 1 + |pat|];
    assert OccursAt(s, pat, i + 1);
  }

  /** An occurrence that is not at the front lies in the tail. */
  lemma ContainsHead(s: string, pat: string)
    requires Contains(s, pat) && !OccursAt(s, pat, 0)
    ensures |s| > 0 && Contains(s[1..], pat)
  {
    var i :| 0 <= i <= |s| && OccursAt(s, pat, i);
    assert i > 0 && i + |pat| <= |s|;
    var t := s[1..];
    var a, b := t[i - 1..i - 1 + |pat|], s[i..i + |pat|];
    assert forall k :: 0 <= k < |a| ==> a[k] == b[k];
    assert a == b;
    assert OccursAt(s[1..], pat, i - 1);
  }

  /** `replace` leaves a string alone exactly when the pattern does not occur in it. */
  lemma {:induction false} RemoveAllIdentity(s: string, pat: string)
    requires |pat| > 0
    ensures RemoveAll(s, pat) == s <==> !Contains(s, pat)
    decreases |s|
  {
    if |pat| <= |s| && s[..|pat|] == pat {
      assert OccursAt(s, pat, 0);
    } else if |s| > 0 {
      var r := RemoveAll(s[1..], pat);
      RemoveAllIdentity(s[1..], pat);
      assert RemoveAll(s, pat) == [s[0]] + r;
      assert RemoveAll(s, pat) == s <==> r == s[1..] by {
        assert s == [s[0]] + s[1..];
        assert ([s[0]] + r)[1..] == r;
      }
      assert !OccursAt(s, pat, 0);
      if Contains(s[1..], pat) {
        ContainsTail(s, pat);
      }
      if Contains(s, pat) {
        ContainsHead(s, pat);
      }
    }
  }

  /** Characters only disappear under `replace(pat, "")`: a character absent
      from the input is absent from the output. */
  lemma {:induction false} RemoveAllKeepsAbsent(s: string, pat: string, c: char)
    requires |pat| > 0
    requires c !in s
    ensures c !in RemoveAll(s, pat)
    decreases |s|
  {
    if |pat| <= |s| && s[..|pat|] == pat {
      RemoveAllKeepsAbsent(s[|pat|..], pat, c);
    } else if |s| > 0 {
      RemoveAllKeepsAbsent(s[1..], pat, c);
    }
  }

  const Separator: string := ", "

  /** `", ".join(parts)`. */
  function Join(parts: seq<string>): string {
    if |parts| == 0 then ""
    else if |parts| == 1 then parts[0]
    else parts[0] + Separator + Join(parts[1..])
  }

  /** Splits a string at every ", ", the inverse of `Join` on comma-free parts. */
  function Split(s: string): (parts: seq<string>)
    ensures |parts| >= 1
    decreases |s|
  {
    if |s| < 2 then [s]
    else if s[..2] == Separator then [""] + Split(s[2..])
    else
      var rest := Split(s[1..]);
      [[s[0]] + rest[0]] + rest[1..]
  }

  /** A comma-free string splits into itself. */
  lemma {:induction false} SplitSingle(x: string)
    requires ',' !in x
    ensures Split(x) == [x]
    decreases |x|
  {
    if |x| >= 2 {
      assert x[0] != ',';
      assert x[..2] != Separator;
      SplitSingle(x[1..]);
      assert [x[0]] + x[1..] == x;
    }
  }

  /** Splitting at the first separator yields the comma-free head. */
  lemma {:induction false} SplitHead(x: string, y: string)
    requires ',' !in x
    ensures Split(x + Separator + y) == [x] + Split(y)
    decreases |x|
  {
    var s := x + Separator + y;
    if |x| == 0 {
      assert s == Separator + y;
      assert s[..2] == Separator && s[2..] == y;
    } else {
      assert s[0] == x[0] != ',';
      assert s[..2] != Separator;
      assert s[1..] == x[1..] + Separator + y;
      SplitHead(x[1..], y);
      assert [x[0]] + x[1..] == x;
    }
  }

  /** Joining comma-free parts and splitting again gives the parts back. */
  lemma {:induction false} SplitJoin(parts: seq<string>)
    requires |parts| >= 1
    requires forall k :: 0 <= k < |parts| ==> ',' !in parts[k]
    ensures Split(Join(parts)) == parts
    decreases |parts|
  {
    if |parts| == 1 {
      SplitSingle(parts[0]);
    } else {
      SplitHead(parts[0], Join(parts[1..]));
      SplitJoin(parts[1..]);
      assert [parts[0]] + parts[1..] == parts;
    }
  }
}
