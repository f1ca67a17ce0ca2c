# termspider, modelled in Dafny

termspider is a single-file crawler. For every base URL it crawls the pages of that URL's
site, up to a page cap. It cleans each page's text of invisible and navigational markup,
and records which of the configured search terms the cleaned text contains. A record is
either the page URL or a debug block that quotes the matching text strings.

The model follows `termspider.py` in seven modules:

- `Wrappers` (wrappers.dfy): the `Option` type.
- `Text` (text.dfy): the Python `str` operations the crawler uses. These are `isspace`, `lower`
  (ASCII), `strip`, `lstrip`, `rstrip`, substring `in`, `sep.join` and `s[:n]`.
- `Tree` (tree.dfy): a parsed document as a forest of text strings and elements. It has
  `find` / `find_all` in document order, `decompose` of every selected element (`Prune`)
  or of the first one (`RemoveFirst`), and the list of text strings (`Leaves`).
- `Cleaning` (cleaning.dfy): `get_page_content`, as the five pruning passes (`Clean`)
  followed by `get_text(separator=' ', strip=True).lower()` (`PageText`).
- `DebugText` (debugtext.dfy): `get_debug_text`, as a method with the source's loop, proved
  against the line list `DebugLines`.
- `Links` (links.dfy): fragment stripping, and the link loop of one page as a method
  (`DiscoverLinks`) proved against the set function `Discovered`.
- `Crawler` (crawler.dfy): `main`'s loops.
  - `Crawl` is the loop over the base URLs.
  - `CrawlSite` is the frontier `while` loop over `visited` and the pending set.
  - `RecordTerms` is the term gate.
  - `set.pop()` is an arbitrary choice (`:|`), so every proved property holds for every pop order.
  - The request, `urljoin` and `urlparse(..).netloc` are functions held in the `Env`
    datatype. A fetch that raises is `None`, and a `urljoin` that raises is `None`.

Properties proved:

- **Frontier loop.** At every loop head, `Frontier` holds:
  - `visited` and the pending set are disjoint, so the "already visited" skip never fires;
  - the cap holds;
  - the visit order lists each page once, starts with the base URL, and every later page
    is on the site, has no fragment, and was found as a link on an earlier page;
  - every link of a visited page is visited or pending.
- **Termination.** Every visit adds exactly one page, so the loop ends on any link graph.
  It ends with nothing pending or with the cap reached. Either way the crawl has run to its
  end (`Finished`): the cap is reached, or the base URL and every link of every visited page
  were visited. `Crawl` states this for the crawl of every base URL.
- **Closure.** A crawl that ran to its end below the cap has visited every page reachable
  from the base URL along site links.
- **Failed pages.** A page that fails or does not answer 200 adds no link and no entry.
- **Result lists.** These only grow by appending, and keep the term keys. For each page,
  each term's list grows by that page's record once per occurrence of the term in the term
  list when the term fires, and not at all otherwise.
- **Cleaning.** The five passes equal removing the header `div` and then one pass with the
  union of the other selectors. No removable element survives. The cleaned strings are
  those of the document that lie below no removed element, in order. `get_text(strip=True)`
  keeps exactly the non-empty stripped strings, in order and with multiplicity. The page
  text is lower case.
- **Header `div`.** Removing the first match cuts exactly its text out of the document, as
  one block, and removes no other selected element. The block is cut where the match's text
  starts: at `CutPosition`, the number of strings before the first one that lies below a
  selected element. The rest stays in place for any other selector: every string outside
  the block keeps its position and whether it lies below a selected element, so the
  remaining records are the document's records with that block taken out. The selected
  elements lost are exactly those below the match. Hence the cleaned strings are those of
  the document as fetched that lie below no removed element, with the header's text cut
  out at that position.
- **Debug record.** A record ends with a newline and the separator. With no matching
  string it is exactly two lines; with `n` matches it is `2n + 1` lines, as pairs of
  `MATCH:` and `Snippet:` lines. A snippet is the stripped string cut to 300 characters.

Behaviour of `termspider.py` worth noting, all of it followed by the model:

- The debug record is built from the cleaned tree, not the raw one. The comment at
  termspider.py:123 speaks of a copy, but `content_soup = soup` (termspider.py:124) is an
  alias, so `get_page_content` prunes the very tree that `get_debug_text` later searches
  (termspider.py:77). `Crawler.Record` passes `Clean(doc)`.
- A term that fires adds one entry per page and per occurrence of the term in the term
  list: the whole debug block, or the URL. It does not add one entry per matching string
  (termspider.py:74-80).
- The cleaned text is not whitespace-collapsed. `get_text(separator=' ', strip=True)`
  (termspider.py:148) strips each string and joins the non-empty ones by single spaces, so
  runs of whitespace inside a string stay.
- A `urljoin` that raises does not just drop that link. The exception leaves the page's
  `try` (termspider.py:54, 101-103), so the rest of that page's links are not looked at
  (`Links.Discovered` stops there). The terms were already recorded at that point.

## Model

| member | source | states |
|---|---|---|
| Text.Strip | termspider.py:185 | `strip()` is no longer than the string and has no whitespace at either end |
| Text.StripSpec | termspider.py:185 | `strip()` removes only leading and trailing whitespace: it is a slice of the string with nothing but whitespace before and after it, empty exactly when the string is all whitespace |
| Text.Take | termspider.py:185 | `s[:n]` is the string when it has at most `n` characters, and its first `n` characters otherwise |
| Text.Join | termspider.py:188 | `'\n'.join` of no lines is empty, and otherwise starts with the first line |
| Text.LowerJoin | termspider.py:148 | lower-casing the joined text is joining the lower-cased strings |
| Text.PartInJoin | termspider.py:148 | every joined string occurs in `' '.join(...)` |
| Text.JoinSuffix | termspider.py:188 | `'\n'.join` of two or more lines ends with the newline and the last line |
| Text.LeadingSpacesAt | termspider.py:136 | the leading whitespace run ends exactly at the first non-whitespace character |
| Tree.Prune | termspider.py:132-145 | after `decompose` of every selected element, no selected element is left |
| Tree.FindFirst | termspider.py:127 | what `find` returns is an element of the document that the selector selects |
| Tree.FindFirstSpec | termspider.py:127 | `find` returns nothing exactly when no element is selected, and otherwise a selected element with no selected element before it in document order |
| Tree.FindFirstElementCons | termspider.py:127 | `find` looks inside an unselected first element before the elements after it |
| Tree.RemoveFirst | termspider.py:127-129 | when `find` returns nothing, the document is left as it is |
| Tree.RemoveFirstNone | termspider.py:128-129 | when no element is selected, the document stays as it is |
| Tree.RemoveFirstSome | termspider.py:127-129 | `decompose` of the found element cuts exactly that element's text out of the document as one block, at the position where that text starts (the strings before the first string below a selected element), and removes exactly the selected elements of its subtree |
| Tree.RemoveFirstFrame | termspider.py:127-129 | for any selector `q`, `decompose` of the found element cuts its text strings, with their below-a-`q`-element flags, out as one block at the position where that text starts, and leaves every other string with its position and flag; the `q`-selected elements lost are exactly those of its subtree |
| Tree.RemoveFirstCut | termspider.py:127-129 | for any selector, the records after `decompose` of the found element are the document's records with the block of its strings taken out at the position where its text starts |
| Tree.PruneUnchanged | termspider.py:132-145 | a pass that selects nothing changes nothing |
| Tree.PruneCompose | termspider.py:132-145 | two passes in a row remove what one pass with the union of the two selectors removes |
| Tree.PruneLeaves | termspider.py:132-148 | the text strings after a pass are those that lie below no selected element, in order |
| Cleaning.SearchIsRegexSearch | termspider.py:136 | the style test is the regex search `key\s*value`: some occurrence of the key is followed by only whitespace and then the value |
| Cleaning.Clean | termspider.py:127-145 | the five `decompose` passes equal removing the header `div` and then one pass with the union of the other four selectors |
| Cleaning.StrippedNonEmpty | termspider.py:148 | `get_text(strip=True)` keeps no more strings than it is given, each non-empty with no whitespace at either end, and keeps every string whose stripped form is non-empty |
| Cleaning.NonEmptyFrom | termspider.py:148 | the listed positions hold non-empty strings, increase strictly, and include every position that holds one |
| Cleaning.StrippedNonEmptyExact | termspider.py:148 | the kept strings are exactly the non-empty stripped strings, in document order and with multiplicity: the `a`-th kept string is the stripped form of the `a`-th string whose stripped form is non-empty, and nothing else is kept |
| Cleaning.CleanLeavesNoRemovable | termspider.py:132-145 | no script/style/meta/noscript/link/comment, hidden-by-style, navigational or anchor element is left in the cleaned document |
| Cleaning.CleanStrings | termspider.py:127-148 | the cleaned strings are those of the document without the header `div` that lie below no removed element, in document order |
| Cleaning.CleanStringsOfDocument | termspider.py:127-148 | the cleaned strings are those of the fetched document that lie below no removed element, once the header `div`'s text is cut out as one block at the position where it starts (and all of them when there is no header `div`) |
| Cleaning.PageText | termspider.py:148 | the page text is lower case, so lower-casing it again changes nothing |
| Cleaning.PageContent | termspider.py:122-148 | `get_page_content` is the text of the document after the header `div` is removed and one pass with the union of the other selectors |
| Cleaning.StringMatchInPageText | termspider.py:75 | a string whose stripped form contains the term, ignoring case, puts the lower-cased term into the cleaned text |
| DebugText.MatchingStrings | termspider.py:176-177 | `find_all(string=pattern)` keeps each string as often as it occurs when it contains the term literally, ignoring case, and drops it otherwise; a single string is kept exactly when it contains the term |
| DebugText.MatchingStringsConcat | termspider.py:177 | the matches of a concatenation are the matches of its first part followed by those of the second, so with the single-string case the matches are the matching strings in document order |
| DebugText.Snippet | termspider.py:185 | the snippet is the stripped string when that is at most 300 characters long, and otherwise its first 300 characters |
| DebugText.DebugLines | termspider.py:178-188 | the record has 2 lines when nothing matches (the no-match line first) and `2n + 1` lines for `n` matches, the last being the separator |
| DebugText.GetDebugText | termspider.py:172-188 | the loop builds the `MATCH:`/`Snippet:` pairs of the matching strings (or the no-match line), then the separator, joined by newlines |
| DebugText.MatchBlockStep | termspider.py:183-186 | one more turn of the match loop appends one `MATCH:` line and one `Snippet:` line |
| DebugText.MatchBlockLines | termspider.py:183-186 | line `2k` of the pairs names the term and page, and line `2k + 1` is the snippet of the `k`-th match |
| DebugText.DebugLinesShape | termspider.py:178-188 | before the separator, line `2k` of the record names the term and page, and line `2k + 1` is the snippet of the `k`-th match |
| DebugText.DebugTextEnds | termspider.py:180-188 | the record ends with a newline and the separator, and with no matching string it is exactly the no-match line and the separator |
| Links.HashIndex | termspider.py:92-93 | index of the first `#`, or the length when there is none |
| Links.StripFragment | termspider.py:92-93 | the clean URL is a prefix of the URL without a `#`, cut exactly at the first `#` when there is one |
| Links.StripFragmentNoHash | termspider.py:92-93 | a URL with no fragment is left as it is |
| Links.StripFragmentIdempotent | termspider.py:92-93 | stripping the fragment twice is stripping it once |
| Links.StripFragmentIgnoresFragment | termspider.py:90-93 | two URLs that differ only in their fragment give the same clean URL |
| Links.Discovered | termspider.py:85-96 | every discovered URL is on the domain, has no `#`, and is its own clean form |
| Links.DiscoveredExact | termspider.py:85-96 | a URL is discovered exactly when some href that the loop reaches is non-empty and resolves to it, once its fragment is stripped and its netloc is the domain |
| Links.DiscoverLinks | termspider.py:84-96 | the link loop adds to the pending set exactly the discovered URLs that are not visited |
| Crawler.Record | termspider.py:76-80 | without debug output the entry is the page URL; with it, the debug text, which ends with a newline and the separator |
| Crawler.Repeat | termspider.py:74-80 | `n` copies of the record |
| Crawler.AddTerms | termspider.py:74-80 | the term loop keeps exactly the keys it is given: one list per configured term |
| Crawler.AddTermsEntries | termspider.py:74-80 | the term loop appends to each term's list one record per occurrence of the term in the loop when it fires, nothing otherwise |
| Crawler.AddPageEntries | termspider.py:74-80 | a 200 page appends its term entries to every list |
| Crawler.RecordTerms | termspider.py:74-80 | the term loop of one page yields the lists `AddPage` describes over the same keys |
| Crawler.SingleTermOneEntry | termspider.py:74-80 | a term listed once gets exactly one entry, the page's record, from a page it fires on, and none otherwise |
| Crawler.Visit | termspider.py:54-80 | a visit keeps the keys |
| Crawler.VisitEntries | termspider.py:53-80 | a visit appends that page's entries to each list |
| Crawler.VisitAllEntries | termspider.py:49-80 | visiting pages only appends to the lists: each list holds the entries of the visited pages, page by page |
| Crawler.FailedPageAddsNothing | termspider.py:54-57 | a page whose fetch raises or whose status is not 200 adds no entry and no link |
| Crawler.Succ | termspider.py:84-96 | every link a page queues is on the domain and has no `#` |
| Crawler.VisitPage | termspider.py:54-96 | the `try` block of one page leaves the lists `Visit` describes over the same keys, and adds to the pending set exactly the page's links that are not visited |
| Crawler.SetStep | termspider.py:50-53 | a visit moves the popped URL from pending to visited; the sets stay disjoint and the visited count grows by one |
| Crawler.OrderStep | termspider.py:50-53 | appending a pending URL keeps the visit order a crawl of the site |
| Crawler.PendingStep | termspider.py:95-96 | after a visit, every pending URL other than the base is on the site, fragment-free and a link of a visited page |
| Crawler.LinksStep | termspider.py:84-96 | after a visit, every link of a visited page is visited or pending |
| Crawler.FrontierInit | termspider.py:45-46 | with nothing visited and only the base URL pending, the loop-head invariant holds |
| Crawler.FrontierStep | termspider.py:49-96 | one visit keeps the loop-head invariant and adds exactly one page |
| Crawler.SiteFinished | termspider.py:49 | when the loop exits, the crawl has run to its end: the cap is reached, or the base URL and every link of every visited page were visited |
| Crawler.FinishedReachesAll | termspider.py:49-96 | a crawl that ran to its end below the cap has visited every page reachable from the base URL along site links |
| Crawler.CrawlSite | termspider.py:45-103 | the site loop ends with the frontier invariant, with nothing pending or the cap reached, having run to its end, and with every list extended by the entries of the visit order |
| Crawler.ClosedHoldsPaths | termspider.py:49-96 | a link-closed set that holds the start of a link path holds all of it |
| Crawler.CrawlReachesAll | termspider.py:49-96 | a crawl that ends with nothing pending has visited every page reachable from the base URL along site links |
| Crawler.VisitSitesEntries | termspider.py:44-103 | the crawls of the sites in turn append each crawl's entries in order |
| Crawler.Crawl | termspider.py:35-103 | one list per term, holding the entries of every site's crawl in base-URL order; each crawl is a crawl of its site that ran to its end (the cap reached, or the base URL and every link of every visited page visited) |

## Left out

- HTTP (`requests.get`, headers, timeout): a fetch is a function of the URL in `Env`. `None` stands for a `RequestException` and a response for a completed request. The fetch is deterministic. Within one site the loop never asks for a URL twice. Across base URLs that share pages, or a base URL listed twice, the same URL is fetched again, and the model then gives the same answer, where a live server might not.
- HTML parsing: the input is a parsed forest. Parser leniency, tag-name lower-casing (which makes `headerMain` unmatchable in practice) and comment nodes are not modelled. `comment` is treated as the tag name the source passes.
- String kinds: `get_text()` (termspider.py:148) yields only plain strings and CData, while `find_all(string=...)` (termspider.py:177) also visits Doctype strings and the strings of `<template>`, `<rt>` and `<rp>`. The model has only one kind of text string and feeds the same `Leaves` to both.
- The second parse for link discovery (termspider.py:71): the links are read from the document as fetched, which the cleaning never touches.
- `urljoin` and `urlparse(..).netloc`: these are uninterpreted functions. A fragment is everything from the first `#`. Other normalisation `geturl()` may perform is not modelled.
- Regular expressions: the style pattern and the term pattern become string predicates (`Cleaning.HiddenStyle`, `Text.ContainsIgnoreCase`).
- Lower-casing is ASCII only, and case-insensitive matching is ASCII case folding. Full Unicode case mapping is not modelled.
- Exceptions other than a failing fetch and a raising `urljoin` (for example inside the parser or the cleaning) are not modelled.
- Console output: the progress line every 50 pages, the error lines, and `debug_keyword_match`, which only prints what `get_debug_text` builds.
- The per-term output files and the printed totals (termspider.py:106-113), the warnings filter, and the unused `ElementTree` import.
- The order `set.pop()` returns: it is an arbitrary choice, and nothing proved depends on it.
- The settings at the top of `main` (terms, base URLs, `max_pages = 1000`, the two flags): these are parameters (`Crawler.Config`, the base-URL sequence). The `debug` flag only controls printing.
- Crawler.AddTermsEntries: with a term listed twice, the source appends twice per page, and the model counts occurrences (`multiset`). "Exactly one entry" is stated for a term listed once, in Crawler.SingleTermOneEntry.
- Crawler.CrawlReachesAll: is stated for a crawl that ends with nothing pending. A crawl stopped by the cap has no completeness claim.
