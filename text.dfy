/**
 * The Python `str` operations the crawler relies on: `isspace`, `lower`, `strip`,
 * the `in` substring test, `sep.join(...)` and prefix slicing `s[:n]`.
 * Lower-casing is ASCII only; whitespace is the set Python's `str.isspace` accepts.
 */
module Text {

  /** Python's `str.isspace` for one character (also what `\s` matches in a `str` regex). */
  predicate IsSpace(c: char) {
    || c == ' '
    || ('\t' <= c <= '\r')
    || ('\U{1c}' <= c <= '\U{1f}')
    || c == '\U{85}' || c == '\U{a0}' || c == '\U{1680}'
    || ('\U{2000}' <= c <= '\U{200a}')
    || c == '\U{2028}' || c == '\U{2029}' || c == '\U{202f}' || c == '\U{205f}' || c == '\U{3000}'
  }

  predicate IsUpper(c: char) {
    'A' <= c <= 'Z'
  }

  /** ASCII lower-casing of one character. */
  function Lower(c: char): (r: char)
    ensures !IsUpper(r)
    ensures IsUpper(c) ==> r as int == c as int + 32
    ensures !IsUpper(c) ==> r == c
  {
    if IsUpper(c) then (c as int + 32) as char else c
  }

  /** `s.lower()`. */
  function LowerStr(s: string): string {
    seq(|s|, i requires 0 <= i < |s| => Lower(s[i]))
  }

  /** `[x.lower() for x in xs]`. */
  function LowerAll(xs: seq<string>): seq<string> {
    seq(|xs|, i requires 0 <= i < |xs| => LowerStr(xs[i]))
  }

  predicate IsLowerStr(s: string) {
    forall i :: 0 <= i < |s| ==> !IsUpper(s[i])
  }

  /** `needle` occurs in `hay` starting at position `i`. */
  predicate OccursAt(hay: string, needle: string, i: int) {
    0 <= i <= |hay| - |needle| && hay[i..i + |needle|] == needle
  }

  /** `needle in hay` for strings: `needle` occurs as a contiguous slice of `hay`. */
  predicate Contains(hay: string, needle: string) {
    exists i | 0 <= i <= |hay| :: OccursAt(hay, needle, i)
  }

  /** Literal, case-insensitive containment: what a regex built from `re.escape(needle)`
      with `re.IGNORECASE` finds by `search` (with ASCII case folding). */
  predicate ContainsIgnoreCase(hay: string, needle: string) {
    Contains(LowerStr(hay), LowerStr(needle))
  }

  /** Number of whitespace characters `s` starts with. */
  function LeadingSpaces(s: string): (n: nat)
    ensures n <= |s|
    ensures forall k :: 0 <= k < n ==> IsSpace(s[k])
    ensures n < |s| ==> !IsSpace(s[n])
  {
    if s == [] || !IsSpace(s[0]) then 0 else 1 + LeadingSpaces(s[1..])
  }

  /** The leading whitespace ends at the first non-whitespace character. */
  lemma {:induction false} LeadingSpacesAt(s: string, d: nat)
    requires d < |s| && !IsSpace(s[d])
    requires forall k :: 0 <= k < d ==> IsSpace(s[k])
    ensures LeadingSpaces(s) == d
  {
    if d > 0 {
      assert IsSpace(s[0]);
      forall k | 0 <= k < d - 1
        ensures IsSpace(s[1..][k])
      {
        assert s[1..][k] == s[k + 1];
      }
      LeadingSpacesAt(s[1..], d - 1);
    }
  }

  /** Number of whitespace characters `s` ends with. */
  function TrailingSpaces(s: string): (n: nat)
    ensures n <= |s|
    ensures forall k :: |s| - n <= k < |s| ==> IsSpace(s[k])
    ensures n < |s| ==> !IsSpace(s[|s| - 1 - n])
  {
    if s == [] || !IsSpace(s[|s| - 1]) then 0 else 1 + TrailingSpaces(s[..|s| - 1])
  }

  /** `s.lstrip()`. */
  function TrimStart(s: string): string {
    s[LeadingSpaces(s)..]
  }

  /** `s.rstrip()`. */
  function TrimEnd(s: string): string {
    s[..|s| - TrailingSpaces(s)]
  }

  /** `s.strip()`: no longer than `s`, and without whitespace at either end. */
  function Strip(s: string): (r: string)
    ensures |r| <= |s|
    ensures r != [] ==> !IsSpace(r[0]) && !IsSpace(r[|r| - 1])
  {
    var t := TrimStart(s);
    assert t != [] ==> t[0] == s[LeadingSpaces(s)];
    var r := TrimEnd(t);
    assert r != [] ==> r[0] == t[0] && r[|r| - 1] == t[|t| - 1 - TrailingSpaces(t)];
    r
  }

  /** `r` is the slice of `s` at `a`, and everything of `s` before and after it is whitespace. */
  predicate StrippedAt(s: string, r: string, a: int) {
    && 0 <= a <= |s| - |r|
    && s[a..a + |r|] == r
    && (forall k :: 0 <= k < a ==> IsSpace(s[k]))
    && (forall k :: a + |r| <= k < |s| ==> IsSpace(s[k]))
  }

  /** `s.strip()` is a slice of `s` with only whitespace before and after it, and it is
      empty exactly when `s` is all whitespace. */
  lemma StripSpec(s: string)
    ensures exists a :: StrippedAt(s, Strip(s), a)
    ensures Strip(s) == [] <==> forall k :: 0 <= k < |s| ==> IsSpace(s[k])
  {
    var a := LeadingSpaces(s);
    var t := s[a..];
    var b := TrailingSpaces(t);
    var r := t[..|t| - b];
    assert r == Strip(s) && r == s[a..a + |r|];
    forall k | a + |r| <= k < |s|
      ensures IsSpace(s[k])
    {
      assert s[k] == t[k - a];
    }
    assert StrippedAt(s, r, a);
  }

  /** `s[:n]`. */
  function Take(s: string, n: nat): (r: string)
    ensures |r| <= n
    ensures |r| == if |s| <= n then |s| else n
    ensures r == s[..|r|]
  {
    if |s| <= n then s else s[..n]
  }

  /** `sep.join(xs)`: empty for no parts, and otherwise starting with the first part. */
  function Join(xs: seq<string>, sep: string): (r: string)
    ensures xs == [] ==> r == ""
    ensures xs != [] ==> |xs[0]| <= |r| && r[..|xs[0]|] == xs[0]
  {
    if xs == [] then ""
    else if |xs| == 1 then xs[0]
    else xs[0] + sep + Join(xs[1..], sep)
  }

  lemma LowerIdempotent(s: string)
    ensures LowerStr(LowerStr(s)) == LowerStr(s)
    ensures IsLowerStr(LowerStr(s))
  {
  }

  lemma LowerConcat(a: string, b: string)
    ensures LowerStr(a + b) == LowerStr(a) + LowerStr(b)
  {
  }

  /** Lower-casing a joined string is joining the lower-cased parts. */
  lemma {:induction false} LowerJoin(xs: seq<string>, sep: string)
    ensures LowerStr(Join(xs, sep)) == Join(LowerAll(xs), LowerStr(sep))
  {
    if |xs| > 1 {
      LowerJoin(xs[1..], sep);
      assert LowerAll(xs[1..]) == LowerAll(xs)[1..];
      LowerConcat(xs[0] + sep, Join(xs[1..], sep));
      LowerConcat(xs[0], sep);
    }
  }

  lemma ContainsTransitive(a: string, b: string, c: string)
    requires Contains(a, b) && Contains(b, c)
    ensures Contains(a, c)
  {
    var i :| 0 <= i <= |a| && OccursAt(a, b, i);
    var j :| 0 <= j <= |b| && OccursAt(b, c, j);
    assert a[i..i + |b|] == b;
    forall k | 0 <= k < |c|
      ensures a[i + j + k] == c[k]
    {
      assert a[i + j + k] == a[i..i + |b|][j + k];
    }
    assert a[i + j..i + j + |c|] == c;
    assert OccursAt(a, c, i + j);
  }

  /** Every part of `sep.join(xs)` occurs in it. */
  lemma {:induction false} PartInJoin(xs: seq<string>, sep: string, k: nat)
    requires k < |xs|
    ensures Contains(Join(xs, sep), xs[k])
  {
    var j := Join(xs, sep);
    if |xs| == 1 || k == 0 {
      assert OccursAt(j, xs[0], 0);
    } else {
      PartInJoin(xs[1..], sep, k - 1);
      var rest := Join(xs[1..], sep);
      var off := |xs[0]| + |sep|;
      assert OccursAt(j, rest, off);
      ContainsTransitive(j, rest, xs[k]);
    }
  }

  /** `sep.join(xs)` ends with `sep` followed by the last part, when there are two or more. */
  lemma {:induction false} JoinLast(xs: seq<string>, sep: string)
    requires |xs| >= 2
    ensures Join(xs, sep) == Join(xs[..|xs| - 1], sep) + sep + xs[|xs| - 1]
  {
    if |xs| > 2 {
      JoinLast(xs[1..], sep);
      assert xs[1..][..|xs| - 2] == xs[..|xs| - 1][1..];
    }
  }

  /** A join of at least two parts ends with the separator and the last part. */
  lemma JoinSuffix(xs: seq<string>, sep: string)
    requires |xs| >= 2
    ensures |Join(xs, sep)| >= |sep| + |xs[|xs| - 1]|
    ensures Join(xs, sep)[|Join(xs, sep)| - |sep| - |xs[|xs| - 1]|..] == sep + xs[|xs| - 1]
  {
    JoinLast(xs, sep);
    var front := Join(xs[..|xs| - 1], sep);
    var last := xs[|xs| - 1];
    assert Join(xs, sep) == front + (sep + last);
  }
}
