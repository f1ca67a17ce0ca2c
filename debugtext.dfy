/**
 * `get_debug_text`: the record written for a term that fired on a page. It lists every
 * text string of the (cleaned) document that contains the term, ignoring case, each as a
 * `MATCH:` line and a `Snippet:` line, and ends with a separator line.
 */
module DebugText {
  import opened Text

  /** Snippets are cut to this many characters. */
  const SnippetLength := 300

  /** The closing line of every record: 61 dashes. */
  const Separator := "-------------------------------------------------------------"

  /** The strings `soup.find_all(string=pattern)` returns, for the pattern
      `re.compile(re.escape(term), re.IGNORECASE)`: those containing `term` literally,
      ignoring case, in document order. */
  function MatchingStrings(strings: seq<string>, term: string): (r: seq<string>)
    ensures forall s :: multiset(r)[s] == if ContainsIgnoreCase(s, term) then multiset(strings)[s] else 0
    ensures |strings| == 1 ==> r == if ContainsIgnoreCase(strings[0], term) then strings else []
  {
    if strings == [] then []
    else
      var rest := MatchingStrings(strings[1..], term);
      assert strings == [strings[0]] + strings[1..];
      if ContainsIgnoreCase(strings[0], term) then [strings[0]] + rest else rest
  }

  /** The matches of a concatenation are those of its parts, in order: together with the
      one-string case of `MatchingStrings`, this fixes the result to the matching strings
      in document order. */
  lemma {:induction false} MatchingStringsConcat(a: seq<string>, b: seq<string>, term: string)
    ensures MatchingStrings(a + b, term) == MatchingStrings(a, term) + MatchingStrings(b, term)
    decreases |a|
  {
    if a == [] {
      assert a + b == b;
    } else {
      assert (a + b)[0] == a[0];
      assert (a + b)[1..] == a[1..] + b;
      MatchingStringsConcat(a[1..], b, term);
    }
  }

  /** `match.strip()[:300]`: the stripped string when that has at most 300 characters, and
      its first 300 characters otherwise. */
  function Snippet(s: string): (r: string)
    ensures |r| <= SnippetLength && |r| <= |Strip(s)|
    ensures r == Strip(s)[..|r|]
    ensures |Strip(s)| <= SnippetLength ==> r == Strip(s)
    ensures |Strip(s)| > SnippetLength ==> |r| == SnippetLength
  {
    Take(Strip(s), SnippetLength)
  }

  function NoMatchLine(term: string, url: string): string {
    "DEBUG: No direct text match for '" + term + "' in " + url
  }

  function MatchLine(term: string, url: string): string {
    "MATCH:  for '" + term + "' in " + url
  }

  function SnippetLine(s: string): string {
    "       Snippet: " + Snippet(s) + "..."
  }

  /** The snippet line of every match, in order. */
  function SnippetLines(matches: seq<string>): (r: seq<string>)
    ensures |r| == |matches|
  {
    seq(|matches|, k requires 0 <= k < |matches| => SnippetLine(matches[k]))
  }

  /** Each of `bs` preceded by `a`: two lines per element of `bs`. */
  function Pairs(a: string, bs: seq<string>): (r: seq<string>)
    ensures |r| == 2 * |bs|
  {
    if bs == [] then [] else [a, bs[0]] + Pairs(a, bs[1..])
  }

  /** The `MATCH:` / `Snippet:` line pairs for the given matching strings: two lines per match. */
  function MatchBlock(term: string, url: string, matches: seq<string>): (r: seq<string>)
    ensures |r| == 2 * |matches|
  {
    Pairs(MatchLine(term, url), SnippetLines(matches))
  }

  /** The lines of the record, before they are joined: two lines when no string matches, and
      `2n + 1` lines for `n` matches; the last one is the separator. */
  function DebugLines(term: string, url: string, matches: seq<string>): (r: seq<string>)
    ensures |r| == (if matches == [] then 2 else 2 * |matches| + 1)
    ensures r[|r| - 1] == Separator
    ensures matches == [] ==> r[0] == NoMatchLine(term, url)
  {
    (if matches == [] then [NoMatchLine(term, url)] else MatchBlock(term, url, matches)) + [Separator]
  }

  /** `get_debug_text(url, term, soup)` where `strings` are the text strings of `soup`. */
  method GetDebugText(url: string, term: string, strings: seq<string>) returns (text: string)
    ensures text == Join(DebugLines(term, url, MatchingStrings(strings, term)), "\n")
  {
    var matches := MatchingStrings(strings, term);
    var outputLines: seq<string> := [];
    if matches == [] {
      outputLines := outputLines + [NoMatchLine(term, url)];
    } else {
      for i := 0 to |matches|
        invariant outputLines == MatchBlock(term, url, matches[..i])
      {
        MatchBlockStep(term, url, matches, i);
        outputLines := outputLines + [MatchLine(term, url)];
        var snippet := Take(Strip(matches[i]), SnippetLength);
        assert "       Snippet: " + snippet + "..." == SnippetLine(matches[i]);
        outputLines := outputLines + ["       Snippet: " + snippet + "..."];
      }
      assert matches[..|matches|] == matches;
    }
    outputLines := outputLines + [Separator];
    text := Join(outputLines, "\n");
  }

  /** `s` ends with a newline followed by the separator line. */
  predicate EndsWithSeparator(s: string) {
    |s| >= |Separator| + 1 && s[|s| - |Separator| - 1..] == "\n" + Separator
  }

  /** The record ends with a newline and the separator; with no matching string it is
      exactly the "no direct text match" line and the separator. */
  lemma DebugTextEnds(term: string, url: string, matches: seq<string>)
    ensures var text := Join(DebugLines(term, url, matches), "\n");
      && EndsWithSeparator(text)
      && (matches == [] ==> text == NoMatchLine(term, url) + "\n" + Separator)
  {
    var lines := DebugLines(term, url, matches);
    JoinSuffix(lines, "\n");
    if matches == [] {
      assert lines == [NoMatchLine(term, url), Separator];
      assert lines[1..] == [Separator];
    }
  }

  /** Appending one element appends its pair. */
  lemma {:induction false} PairsSnoc(a: string, bs: seq<string>, b: string)
    ensures Pairs(a, bs + [b]) == Pairs(a, bs) + [a, b]
  {
    if bs == [] {
      assert [b][1..] == [];
    } else {
      assert (bs + [b])[1..] == bs[1..] + [b];
      PairsSnoc(a, bs[1..], b);
    }
  }

  /** The pairs of the first `i + 1` matches extend those of the first `i`. */
  lemma MatchBlockStep(term: string, url: string, matches: seq<string>, i: int)
    requires 0 <= i < |matches|
    ensures MatchBlock(term, url, matches[..i + 1]) ==
      MatchBlock(term, url, matches[..i]) + [MatchLine(term, url), SnippetLine(matches[i])]
  {
    assert SnippetLines(matches[..i + 1]) == SnippetLines(matches[..i]) + [SnippetLine(matches[i])];
    PairsSnoc(MatchLine(term, url), SnippetLines(matches[..i]), SnippetLine(matches[i]));
  }

  /** Line `2k` of the pairs is `a` and line `2k + 1` is the `k`-th element of `bs`. */
  lemma {:induction false} PairsAt(a: string, bs: seq<string>, k: nat)
    requires k < |bs|
    ensures Pairs(a, bs)[2 * k] == a && Pairs(a, bs)[2 * k + 1] == bs[k]
  {
    if k > 0 {
      PairsAt(a, bs[1..], k - 1);
    }
  }

  /** The line pairs: line `2k` names the term and page, line `2k + 1` is the snippet of
      the `k`-th match. */
  lemma MatchBlockLines(term: string, url: string, matches: seq<string>)
    ensures forall k :: 0 <= k < |matches| ==>
      MatchBlock(term, url, matches)[2 * k] == MatchLine(term, url) &&
      MatchBlock(term, url, matches)[2 * k + 1] == SnippetLine(matches[k])
  {
    forall k | 0 <= k < |matches|
      ensures MatchBlock(term, url, matches)[2 * k] == MatchLine(term, url)
      ensures MatchBlock(term, url, matches)[2 * k + 1] == SnippetLine(matches[k])
    {
      PairsAt(MatchLine(term, url), SnippetLines(matches), k);
    }
  }

  /** Before the separator, line `2k` of the record names the term and page and line
      `2k + 1` is the snippet of the `k`-th match. */
  lemma DebugLinesShape(term: string, url: string, matches: seq<string>)
    ensures var lines := DebugLines(term, url, matches);
      forall k :: 0 <= k < |matches| ==>
        lines[2 * k] == MatchLine(term, url) && lines[2 * k + 1] == SnippetLine(matches[k])
  {
    MatchBlockLines(term, url, matches);
  }
}
