/**
 * `get_page_content`: the cleaning pipeline that turns a parsed page into the text the
 * search terms are matched against. Each `decompose` loop of the source is one pruning
 * pass over the document; the result is the pruned document (the source prunes the very
 * tree it was given) and its lower-cased visible text.
 */
module Cleaning {
  import opened Text
  import opened Tree

  /** The `id` of the one site-specific container `div` that is removed first. */
  const HeaderMainId := "ExampleClass"

  /** Element kinds that are never visible. */
  const NonVisibleTags: set<string> := {"script", "style", "meta", "noscript", "link", "comment"}

  /** Navigational element kinds. */
  const NavigationTags: set<string> := {"nav", "header", "footer", "aside", "headerMain"}

  /** `soup.find('div', id='ExampleClass')` looks for this. */
  predicate IsHeaderMain(tag: string, attrs: map<string, string>) {
    tag == "div" && "id" in attrs && attrs["id"] == HeaderMainId
  }

  predicate IsNonVisible(tag: string, attrs: map<string, string>) {
    tag in NonVisibleTags
  }

  /** An element with a style attribute that the pattern `display:\s*none|visibility:\s*hidden`
      finds something in. */
  predicate IsHiddenByStyle(tag: string, attrs: map<string, string>) {
    "style" in attrs && HiddenStyle(attrs["style"])
  }

  predicate IsNavigation(tag: string, attrs: map<string, string>) {
    tag in NavigationTags
  }

  predicate IsAnchor(tag: string, attrs: map<string, string>) {
    tag == "a"
  }

  /** Every character of `s` is whitespace. */
  predicate AllSpace(s: string) {
    forall k :: 0 <= k < |s| ==> IsSpace(s[k])
  }

  /** Regex-search meaning of `key\s*value`: `key` at some `i`, then only whitespace, then
      `value` at some `j`. */
  ghost predicate KeySpaceValue(s: string, key: string, value: string) {
    exists i, j :: OccursAt(s, key, i) && OccursAt(s, value, j) && i + |key| <= j && AllSpace(s[i + |key|..j])
  }

  /** `key` at `i`, and `value` right after the whitespace that follows it. */
  predicate KeySpaceValueAt(s: string, key: string, value: string, i: int) {
    OccursAt(s, key, i) && var after := TrimStart(s[i + |key|..]); |value| <= |after| && after[..|value|] == value
  }

  /** `re.search(key + r'\s*' + value, s)` succeeds. */
  predicate SearchKeySpaceValue(s: string, key: string, value: string) {
    exists i | 0 <= i <= |s| :: KeySpaceValueAt(s, key, value, i)
  }

  /** `re.compile(r'display:\s*none|visibility:\s*hidden')` finds something in `s`. */
  predicate HiddenStyle(s: string) {
    SearchKeySpaceValue(s, "display:", "none") || SearchKeySpaceValue(s, "visibility:", "hidden")
  }

  /** The selector of every element that one of the passes after the first removes. */
  function Removable(): Selector {
    Either(Either(Either(IsNonVisible, IsHiddenByStyle), IsNavigation), IsAnchor)
  }

  /** The document after the five `decompose` passes, in the source's order. They remove
      exactly what removing the header and then one pass with the union of the other four
      selectors removes. */
  function Clean(doc: seq<Node>): (r: seq<Node>)
    ensures r == Prune(RemoveFirst(doc, IsHeaderMain), Removable())
  {
    var withoutHeader := RemoveFirst(doc, IsHeaderMain);
    var visible := Prune(withoutHeader, IsNonVisible);
    var shown := Prune(visible, IsHiddenByStyle);
    var content := Prune(shown, IsNavigation);
    PruneCompose(withoutHeader, IsNonVisible, IsHiddenByStyle);
    PruneCompose(withoutHeader, Either(IsNonVisible, IsHiddenByStyle), IsNavigation);
    PruneCompose(withoutHeader, Either(Either(IsNonVisible, IsHiddenByStyle), IsNavigation), IsAnchor);
    Prune(content, IsAnchor)
  }

  /** The strings `get_text(strip=True)` joins: each one stripped, empty ones dropped. */
  function StrippedNonEmpty(xs: seq<string>): (r: seq<string>)
    ensures |r| <= |xs|
    ensures forall k :: 0 <= k < |r| ==> r[k] != [] && !IsSpace(r[k][0]) && !IsSpace(r[k][|r[k]| - 1])
    ensures forall k :: 0 <= k < |xs| && Strip(xs[k]) != [] ==> Strip(xs[k]) in r
  {
    if xs == [] then []
    else
      var rest := StrippedNonEmpty(xs[1..]);
      assert forall k :: 1 <= k < |xs| ==> xs[k] == xs[1..][k - 1];
      var s := Strip(xs[0]);
      if s == [] then rest else [s] + rest
  }

  /** Every string stripped. */
  function StripAll(xs: seq<string>): (ys: seq<string>)
    ensures |ys| == |xs|
  {
    seq(|xs|, k requires 0 <= k < |xs| => Strip(xs[k]))
  }

  /** The non-empty strings of `ys`, in order. */
  function NonEmptyParts(ys: seq<string>): seq<string> {
    if ys == [] then []
    else (if ys[0] != [] then [ys[0]] else []) + NonEmptyParts(ys[1..])
  }

  /** The positions from `i` on that hold a non-empty string, in increasing order. */
  function NonEmptyFrom(ys: seq<string>, i: nat): (idx: seq<nat>)
    requires i <= |ys|
    ensures forall a :: 0 <= a < |idx| ==> i <= idx[a] < |ys| && ys[idx[a]] != []
    ensures forall a, b :: 0 <= a < b < |idx| ==> idx[a] < idx[b]
    ensures forall k :: i <= k < |ys| && ys[k] != [] ==> k in idx
    decreases |ys| - i
  {
    if i == |ys| then []
    else (if ys[i] != [] then [i] else []) + NonEmptyFrom(ys, i + 1)
  }

  /** The `a`-th non-empty string of `ys[i..]` sits at the `a`-th position `NonEmptyFrom` lists. */
  lemma {:induction false} NonEmptyPartsAt(ys: seq<string>, i: nat)
    requires i <= |ys|
    ensures |NonEmptyFrom(ys, i)| == |NonEmptyParts(ys[i..])|
    ensures forall a :: 0 <= a < |NonEmptyFrom(ys, i)| ==> NonEmptyParts(ys[i..])[a] == ys[NonEmptyFrom(ys, i)[a]]
    decreases |ys| - i
  {
    if i < |ys| {
      NonEmptyPartsAt(ys, i + 1);
      assert ys[i..][0] == ys[i] && ys[i..][1..] == ys[i + 1..];
      var n := if ys[i] != [] then 1 else 0;
      var parts, idx := NonEmptyParts(ys[i..]), NonEmptyFrom(ys, i);
      var parts', idx' := NonEmptyParts(ys[i + 1..]), NonEmptyFrom(ys, i + 1);
      assert parts == (if n == 1 then [ys[i]] else []) + parts';
      assert idx == (if n == 1 then [i] else []) + idx';
      forall a | 0 <= a < |idx|
        ensures parts[a] == ys[idx[a]]
      {
        if a >= n {
          assert parts[a] == parts'[a - n] && idx[a] == idx'[a - n];
        }
      }
    }
  }

  /** Stripping each string and dropping the empty ones is `StrippedNonEmpty`. */
  lemma {:induction false} StrippedIsNonEmptyParts(xs: seq<string>)
    ensures StrippedNonEmpty(xs) == NonEmptyParts(StripAll(xs))
  {
    if xs != [] {
      StrippedIsNonEmptyParts(xs[1..]);
      assert StripAll(xs)[1..] == StripAll(xs[1..]);
    }
  }

  /** The positions of the strings `StrippedNonEmpty` keeps. */
  function KeptIndices(xs: seq<string>): seq<nat> {
    NonEmptyFrom(StripAll(xs), 0)
  }

  /** `get_text(strip=True)` keeps exactly the strings with a non-empty stripped form, each
      stripped, once each and in document order: the `a`-th kept string is the stripped
      string at the `a`-th kept position, the positions increase strictly, and every
      position whose stripped string is non-empty is kept. */
  lemma StrippedNonEmptyExact(xs: seq<string>)
    ensures var r, idx := StrippedNonEmpty(xs), KeptIndices(xs);
      && |idx| == |r|
      && (forall a :: 0 <= a < |r| ==> idx[a] < |xs| && r[a] == Strip(xs[idx[a]]))
      && (forall a, b :: 0 <= a < b < |idx| ==> idx[a] < idx[b])
      && (forall k :: 0 <= k < |xs| && Strip(xs[k]) != [] ==> k in idx)
  {
    var ys := StripAll(xs);
    StrippedIsNonEmptyParts(xs);
    assert ys[0..] == ys;
    NonEmptyPartsAt(ys, 0);
    forall k | 0 <= k < |xs| && Strip(xs[k]) != []
      ensures k in KeptIndices(xs)
    {
      assert ys[k] == Strip(xs[k]);
    }
  }

  /** `tree.get_text(separator=' ', strip=True).lower()`: lower case, so lower-casing it
      again changes nothing. */
  function PageText(tree: seq<Node>): (r: string)
    ensures IsLowerStr(r)
    ensures LowerStr(r) == r
  {
    LowerIdempotent(Join(StrippedNonEmpty(Leaves(tree)), " "));
    LowerStr(Join(StrippedNonEmpty(Leaves(tree)), " "))
  }

  /** `get_page_content(soup)`: the text of the document once the header `div` is gone and
      every removable element is pruned. */
  function PageContent(doc: seq<Node>): (r: string)
    ensures r == PageText(Prune(RemoveFirst(doc, IsHeaderMain), Removable()))
  {
    PageText(Clean(doc))
  }

  /** The regex search is the greedy test: whitespace cannot begin the value, so the
      whitespace run after the key must be taken whole. */
  lemma SearchIsRegexSearch(s: string, key: string, value: string)
    requires value != [] && !IsSpace(value[0])
    ensures SearchKeySpaceValue(s, key, value) <==> KeySpaceValue(s, key, value)
  {
    if SearchKeySpaceValue(s, key, value) {
      var i :| 0 <= i <= |s| && KeySpaceValueAt(s, key, value, i);
      GreedyMatchIsRegexMatch(s, key, value, i);
    }
    if KeySpaceValue(s, key, value) {
      var i, j :| OccursAt(s, key, i) && OccursAt(s, value, j) && i + |key| <= j && AllSpace(s[i + |key|..j]);
      RegexMatchIsGreedyMatch(s, key, value, i, j);
    }
  }

  lemma GreedyMatchIsRegexMatch(s: string, key: string, value: string, i: int)
    requires KeySpaceValueAt(s, key, value, i)
    ensures KeySpaceValue(s, key, value)
  {
    var tail := s[i + |key|..];
    var after := TrimStart(tail);
    var j := i + |key| + (|tail| - |after|);
    assert s[i + |key|..j] == tail[..|tail| - |after|];
    assert s[j..j + |value|] == after[..|value|];
    assert OccursAt(s, value, j);
  }

  lemma RegexMatchIsGreedyMatch(s: string, key: string, value: string, i: int, j: int)
    requires value != [] && !IsSpace(value[0])
    requires OccursAt(s, key, i) && OccursAt(s, value, j) && i + |key| <= j && AllSpace(s[i + |key|..j])
    ensures KeySpaceValueAt(s, key, value, i)
  {
    var tail := s[i + |key|..];
    var d := j - (i + |key|);
    forall k | 0 <= k < d
      ensures IsSpace(tail[k])
    {
      assert tail[k] == s[i + |key|..j][k];
    }
    assert tail[d] == s[j..j + |value|][0];
    LeadingSpacesAt(tail, d);
    assert TrimStart(tail)[..|value|] == s[j..j + |value|];
  }

  /** No script, style, meta, noscript, link, comment, hidden, navigational or anchor
      element is left in the cleaned document. */
  lemma CleanLeavesNoRemovable(doc: seq<Node>, n: Node)
    requires n in Elements(Clean(doc))
    ensures n.Element?
    ensures n.tag !in NonVisibleTags && n.tag !in NavigationTags && n.tag != "a"
    ensures !IsHiddenByStyle(n.tag, n.attrs)
  {
    ElementsAreElements(Clean(doc), n);
    assert !Removable()(n.tag, n.attrs);
    assert !IsNonVisible(n.tag, n.attrs) && !IsNavigation(n.tag, n.attrs);
  }

  /** `Elements` lists only elements. */
  lemma {:induction false} ElementsAreElements(f: seq<Node>, n: Node)
    requires n in Elements(f)
    ensures n.Element?
    decreases f
  {
    if f != [] {
      match f[0]
      case Text(_) =>
        ElementsAreElements(f[1..], n);
      case Element(_, _, c) =>
        if n != f[0] {
          if n in Elements(c) {
            ElementsAreElements(c, n);
          } else {
            ElementsAreElements(f[1..], n);
          }
        }
    }
  }

  /** The text strings of the cleaned document are exactly those of the document without
      the header `div` that lie below no removable element, in document order. */
  lemma CleanStrings(doc: seq<Node>)
    ensures Leaves(Clean(doc)) == Unhidden(LeafRecords(RemoveFirst(doc, IsHeaderMain), Removable(), false))
  {
    PruneLeaves(RemoveFirst(doc, IsHeaderMain), Removable());
  }

  /** The same in terms of the document as fetched: the cleaned strings are those of the
      document that lie below no removable element, once the text of the header `div`
      (when there is one) is cut out as one block where that text starts; every other
      string keeps its place. */
  lemma CleanStringsOfDocument(doc: seq<Node>)
    ensures FindFirst(doc, IsHeaderMain).None? ==>
      Leaves(Clean(doc)) == Unhidden(LeafRecords(doc, Removable(), false))
    ensures FindFirst(doc, IsHeaderMain).Some? ==>
      exists rs, v :: SplicedAt(LeafRecords(doc, Removable(), false),
                                LeafRecords([FindFirst(doc, IsHeaderMain).value], Removable(), v), rs,
                                CutPosition(doc, IsHeaderMain))
                      && Leaves(Clean(doc)) == Unhidden(rs)
  {
    CleanStrings(doc);
    var found := FindFirst(doc, IsHeaderMain);
    if found.Some? {
      RemoveFirstFrame(doc, IsHeaderMain, found.value, Removable(), false);
      var rs := LeafRecords(RemoveFirst(doc, IsHeaderMain), Removable(), false);
      var v :| SplicedAt(LeafRecords(doc, Removable(), false), LeafRecords([found.value], Removable(), v), rs,
                         CutPosition(doc, IsHeaderMain));
      assert Leaves(Clean(doc)) == Unhidden(rs);
    }
  }

  /** A text string of the document whose stripped form contains `term` (ignoring case)
      puts the lower-cased term into the page text. */
  lemma StringMatchInPageText(tree: seq<Node>, k: nat, term: string)
    requires k < |Leaves(tree)|
    requires ContainsIgnoreCase(Strip(Leaves(tree)[k]), term)
    ensures Contains(PageText(tree), LowerStr(term))
  {
    var leaves := Leaves(tree);
    var pieces := StrippedNonEmpty(leaves);
    var s := Strip(leaves[k]);
    var joined := Join(pieces, " ");
    if s == [] {
      assert |LowerStr(term)| == 0;
      assert OccursAt(PageText(tree), LowerStr(term), 0);
    } else {
      var p :| 0 <= p < |pieces| && pieces[p] == s;
      PartInJoin(LowerAll(pieces), " ", p);
      LowerJoin(pieces, " ");
      assert LowerStr(" ") == " ";
      ContainsTransitive(PageText(tree), LowerStr(s), LowerStr(term));
    }
  }
}
