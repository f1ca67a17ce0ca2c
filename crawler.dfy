/**
 * The crawl of `main`: for each base URL, a frontier loop over a `visited` set and a
 * pending set, capped at `maxPages` visits, that fetches each page once, records the
 * terms the cleaned page text contains, and queues the on-site links of the page.
 */
module Crawler {
  import opened Wrappers
  import opened Text
  import opened Tree
  import opened Cleaning
  import opened DebugText
  import opened Links

  /** A completed request: its status code and the parsed document. */
  datatype Response = Response(status: int, doc: seq<Node>)

  /** The outside world: `requests.get` (`None` when it raises), `urljoin`, and
      `urlparse(..).netloc`. */
  datatype Env = Env(fetch: string -> Option<Response>, join: Joiner, netloc: Netloc)

  /** The settings at the top of `main`: the terms, the page cap and
      `includeDebugWithOutput`. */
  datatype Config = Config(terms: seq<string>, maxPages: nat, includeDebug: bool)

  /** The page is processed further only when the request completed with status 200. */
  predicate Ok(r: Option<Response>) {
    r.Some? && r.value.status == 200
  }

  /** `term.lower() in clean_page_content.lower()`. */
  predicate Fires(term: string, content: string) {
    Contains(LowerStr(content), LowerStr(term))
  }

  /** What is appended for a term that fires on a page: the debug record built from the
      cleaned tree (the alias at termspider.py:124 makes `soup` the cleaned tree), or the URL. */
  function Record(cfg: Config, url: string, doc: seq<Node>, term: string): (r: string)
    ensures !cfg.includeDebug ==> r == url
    ensures cfg.includeDebug ==> EndsWithSeparator(r)
  {
    if cfg.includeDebug then
      var matches := MatchingStrings(Leaves(Clean(doc)), term);
      DebugTextEnds(term, url, matches);
      Join(DebugLines(term, url, matches), "\n")
    else url
  }

  /** `n` copies of `x`. */
  function Repeat(x: string, n: nat): (r: seq<string>)
    ensures |r| == n && forall i :: 0 <= i < n ==> r[i] == x
  {
    if n == 0 then [] else Repeat(x, n - 1) + [x]
  }

  /** The entries a 200 page adds to the list of `term`: one per occurrence of `term` in the
      term list when it fires, none otherwise. */
  function TermEntries(cfg: Config, url: string, doc: seq<Node>, term: string): seq<string> {
    if Fires(term, PageContent(doc)) then Repeat(Record(cfg, url, doc, term), multiset(cfg.terms)[term]) else []
  }

  /** The entries visiting `url` adds to the list of `term`. */
  function PageEntries(env: Env, cfg: Config, url: string, term: string): seq<string> {
    var r := env.fetch(url);
    if Ok(r) then TermEntries(cfg, url, r.value.doc, term) else []
  }

  /** The entries visiting the pages of `order`, in that order, adds to the list of `term`. */
  function Entries(env: Env, cfg: Config, order: seq<string>, term: string): seq<string>
    decreases |order|
  {
    if order == [] then []
    else Entries(env, cfg, order[..|order| - 1], term) + PageEntries(env, cfg, order[|order| - 1], term)
  }

  /** The URLs visiting `url` queues (before the `visited` filter): all on the site and
      fragment-free. */
  function Succ(env: Env, url: string, domain: string): (r: set<string>)
    ensures forall u :: u in r ==> env.netloc(u) == domain && '#' !in u
  {
    var r := env.fetch(url);
    if Ok(r) then Discovered(url, Hrefs(r.value.doc), env.join, env.netloc, domain) else {}
  }

  /** The result lists after the term loop has run over `terms` on a 200 page: each term
      that fires gets the page's record appended to its list. */
  function AddTerms(cfg: Config, url: string, doc: seq<Node>, terms: seq<string>, results: map<string, seq<string>>)
    : (r: map<string, seq<string>>)
    ensures r.Keys == results.Keys
    decreases |terms|
  {
    if terms == [] then results
    else
      var r := AddTerms(cfg, url, doc, terms[..|terms| - 1], results);
      var t := terms[|terms| - 1];
      if t in r && Fires(t, PageContent(doc)) then r[t := r[t] + [Record(cfg, url, doc, t)]] else r
  }

  /** The result lists after the term loop of a 200 page. */
  function AddPage(cfg: Config, url: string, doc: seq<Node>, results: map<string, seq<string>>): (r: map<string, seq<string>>)
    ensures r.Keys == results.Keys
  {
    AddTerms(cfg, url, doc, cfg.terms, results)
  }

  /** A term's list grows by one copy of the page's record
      per occurrence of the term in the loop when the term fires, and is unchanged otherwise. */
  lemma {:induction false} AddTermsEntries(cfg: Config, url: string, doc: seq<Node>, terms: seq<string>, results: map<string, seq<string>>)
    ensures forall k :: k in results ==>
      AddTerms(cfg, url, doc, terms, results)[k] ==
      results[k] + (if Fires(k, PageContent(doc)) then Repeat(Record(cfg, url, doc, k), multiset(terms)[k]) else [])
    decreases |terms|
  {
    if terms != [] {
      var front, t := terms[..|terms| - 1], terms[|terms| - 1];
      AddTermsEntries(cfg, url, doc, front, results);
      assert terms == front + [t];
      assert multiset(terms) == multiset(front) + multiset{t};
      forall k | k in results
        ensures AddTerms(cfg, url, doc, terms, results)[k] ==
          results[k] + (if Fires(k, PageContent(doc)) then Repeat(Record(cfg, url, doc, k), multiset(terms)[k]) else [])
      {
        AddTermsLast(cfg, url, doc, terms, results, k);
        if k != t {
          assert multiset(terms)[k] == multiset(front)[k];
        } else {
          assert multiset(terms)[k] == multiset(front)[k] + 1;
        }
      }
    }
  }

  /** The last turn of the term loop touches only the list of its own term. */
  lemma AddTermsLast(cfg: Config, url: string, doc: seq<Node>, terms: seq<string>, results: map<string, seq<string>>, k: string)
    requires terms != [] && k in results
    ensures var t := terms[|terms| - 1];
      AddTerms(cfg, url, doc, terms, results)[k] ==
        AddTerms(cfg, url, doc, terms[..|terms| - 1], results)[k] +
        (if k == t && Fires(t, PageContent(doc)) then [Record(cfg, url, doc, t)] else [])
  {
  }

  /** A page that answered 200 adds its term entries to every list. */
  lemma AddPageEntries(cfg: Config, url: string, doc: seq<Node>, results: map<string, seq<string>>)
    ensures forall k :: k in results ==> AddPage(cfg, url, doc, results)[k] == results[k] + TermEntries(cfg, url, doc, k)
  {
    AddTermsEntries(cfg, url, doc, cfg.terms, results);
  }

  /** One more turn of the term loop. */
  lemma AddTermsStep(cfg: Config, url: string, doc: seq<Node>, results: map<string, seq<string>>, i: int)
    requires 0 <= i < |cfg.terms|
    ensures var r := AddTerms(cfg, url, doc, cfg.terms[..i], results);
      var t := cfg.terms[i];
      AddTerms(cfg, url, doc, cfg.terms[..i + 1], results) ==
        if t in r && Fires(t, PageContent(doc)) then r[t := r[t] + [Record(cfg, url, doc, t)]] else r
  {
    assert cfg.terms[..i + 1][..i] == cfg.terms[..i];
  }

  /** The term loop of one page (termspider.py:74-80). */
  method RecordTerms(cfg: Config, url: string, doc: seq<Node>, results: map<string, seq<string>>)
    returns (results': map<string, seq<string>>)
    requires forall t :: t in cfg.terms ==> t in results
    ensures results' == AddPage(cfg, url, doc, results)
    ensures results'.Keys == results.Keys
  {
    var cleaned := Clean(doc);
    var content := PageText(cleaned);
    results' := results;
    for i := 0 to |cfg.terms|
      invariant results' == AddTerms(cfg, url, doc, cfg.terms[..i], results)
      invariant results'.Keys == results.Keys
    {
      var term := cfg.terms[i];
      AddTermsStep(cfg, url, doc, results, i);
      if Contains(LowerStr(content), LowerStr(term)) {
        var entry;
        if cfg.includeDebug {
          entry := GetDebugText(url, term, Leaves(cleaned));
        } else {
          entry := url;
        }
        assert entry == Record(cfg, url, doc, term);
        results' := results'[term := results'[term] + [entry]];
      }
    }
    assert cfg.terms[..|cfg.terms|] == cfg.terms;
  }

  /** The result lists after visiting `url`. */
  function Visit(env: Env, cfg: Config, url: string, results: map<string, seq<string>>): (r: map<string, seq<string>>)
    ensures r.Keys == results.Keys
  {
    var r := env.fetch(url);
    if Ok(r) then AddPage(cfg, url, r.value.doc, results) else results
  }

  /** The result lists after visiting the pages of `order`, in that order. */
  function VisitAll(env: Env, cfg: Config, order: seq<string>, results: map<string, seq<string>>): (r: map<string, seq<string>>)
    ensures r.Keys == results.Keys
    decreases |order|
  {
    if order == [] then results
    else Visit(env, cfg, order[|order| - 1], VisitAll(env, cfg, order[..|order| - 1], results))
  }

  /** Visiting one more page applies that page's visit to the lists. */
  lemma VisitAllSnoc(env: Env, cfg: Config, order: seq<string>, url: string, results: map<string, seq<string>>)
    ensures VisitAll(env, cfg, order + [url], results) == Visit(env, cfg, url, VisitAll(env, cfg, order, results))
  {
    assert (order + [url])[..|order|] == order;
  }

  /** Visiting pages only appends to each list: the entries of the visited pages, page by
      page. */
  lemma {:induction false} VisitAllEntries(env: Env, cfg: Config, order: seq<string>, results: map<string, seq<string>>)
    ensures forall k :: k in results ==> VisitAll(env, cfg, order, results)[k] == results[k] + Entries(env, cfg, order, k)
    decreases |order|
  {
    if order != [] {
      var front := order[..|order| - 1];
      var url := order[|order| - 1];
      VisitAllEntries(env, cfg, front, results);
      var before := VisitAll(env, cfg, front, results);
      VisitEntries(env, cfg, url, before);
      forall k | k in results
        ensures VisitAll(env, cfg, order, results)[k] == results[k] + Entries(env, cfg, order, k)
      {
        assert VisitAll(env, cfg, order, results)[k] == before[k] + PageEntries(env, cfg, url, k);
        assert Entries(env, cfg, order, k) == Entries(env, cfg, front, k) + PageEntries(env, cfg, url, k);
      }
    }
  }

  /** Visiting a page appends that page's entries to each list. */
  lemma VisitEntries(env: Env, cfg: Config, url: string, results: map<string, seq<string>>)
    ensures forall k :: k in results ==> Visit(env, cfg, url, results)[k] == results[k] + PageEntries(env, cfg, url, k)
  {
    if Ok(env.fetch(url)) {
      AddPageEntries(cfg, url, env.fetch(url).value.doc, results);
    }
  }

  /** The visit order is a crawl of the site of `base`: no page twice, at most `maxPages`
      pages, the base first, and every later page on the site, without a fragment, and found
      as a link on a page visited before it. */
  ghost predicate CrawlOrder(env: Env, cfg: Config, base: string, order: seq<string>) {
    && |order| <= cfg.maxPages
    && (forall i, j :: 0 <= i < j < |order| ==> order[i] != order[j])
    && (|order| > 0 ==> order[0] == base)
    && (forall i :: 0 < i < |order| ==>
          env.netloc(order[i]) == env.netloc(base) && '#' !in order[i] &&
          exists j :: 0 <= j < i && order[i] in Succ(env, order[j], env.netloc(base)))
  }

  /** Every link of a page of `from` is in `within`. */
  ghost predicate LinksWithin(env: Env, domain: string, from: set<string>, within: set<string>) {
    forall u :: u in from ==> Succ(env, u, domain) <= within
  }

  /** Every link of a page of `s` is in `s`. */
  ghost predicate Closed(env: Env, domain: string, s: set<string>) {
    LinksWithin(env, domain, s, s)
  }

  /** Every pending URL other than the base is on the site, fragment-free, and a link of a
      page of `order`. */
  ghost predicate FoundPending(env: Env, base: string, pending: set<string>, order: seq<string>) {
    forall u :: u in pending && u != base ==>
      env.netloc(u) == env.netloc(base) && '#' !in u &&
      exists j :: 0 <= j < |order| && u in Succ(env, order[j], env.netloc(base))
  }

  /** The state of the frontier loop at its head: `visited` and `pending` are disjoint, the
      cap holds, `order` lists the visited pages in visiting order, the base URL is visited or
      pending, every other pending URL is a link found on a visited page, and every link of a
      visited page is visited or pending. */
  ghost predicate Frontier(env: Env, cfg: Config, base: string, visited: set<string>, pending: set<string>, order: seq<string>) {
    && visited !! pending
    && |visited| <= cfg.maxPages
    && (forall u :: u in visited <==> u in order)
    && |order| == |visited|
    && CrawlOrder(env, cfg, base, order)
    && (base in visited || base in pending)
    && FoundPending(env, base, pending, order)
    && LinksWithin(env, env.netloc(base), visited, visited + pending)
  }

  /** The crawl of a site ran to its end: it reached the page cap, or it visited the base URL
      and every link of every visited page. */
  ghost predicate Finished(env: Env, cfg: Config, base: string, order: seq<string>) {
    || |order| == cfg.maxPages
    || (base in order && forall u, v :: u in order && v in Succ(env, u, env.netloc(base)) ==> v in order)
  }

  /** The loop's exit condition together with the loop-head state means the crawl finished. */
  lemma SiteFinished(env: Env, cfg: Config, base: string, visited: set<string>, pending: set<string>, order: seq<string>)
    requires Frontier(env, cfg, base, visited, pending, order)
    requires pending == {} || |visited| == cfg.maxPages
    ensures Finished(env, cfg, base, order)
  {
    if |visited| != cfg.maxPages {
      assert base in visited;
      forall u, v | u in order && v in Succ(env, u, env.netloc(base))
        ensures v in order
      {
        assert u in visited;
        assert v in visited + pending;
      }
    }
  }

  /** In a finished crawl that stopped below the cap, every page reachable from the base URL
      along site links was visited. */
  lemma FinishedReachesAll(env: Env, cfg: Config, base: string, order: seq<string>, p: seq<string>)
    requires Finished(env, cfg, base, order) && |order| < cfg.maxPages
    requires LinkPath(env, env.netloc(base), p) && |p| > 0 && p[0] == base
    ensures forall i :: 0 <= i < |p| ==> p[i] in order
  {
    var n := 0;
    while n < |p| - 1
      invariant 0 <= n <= |p| - 1
      invariant forall i :: 0 <= i <= n ==> p[i] in order
    {
      assert p[n + 1] in Succ(env, p[n], env.netloc(base));
      n := n + 1;
    }
  }

  /** The crawl of one site (termspider.py:45-103). */
  method CrawlSite(env: Env, cfg: Config, base: string, results: map<string, seq<string>>)
    returns (visited: set<string>, pending: set<string>, results': map<string, seq<string>>, ghost order: seq<string>)
    requires forall t :: t in cfg.terms ==> t in results
    ensures Frontier(env, cfg, base, visited, pending, order)
    ensures pending == {} || |visited| == cfg.maxPages
    ensures Finished(env, cfg, base, order)
    ensures results' == VisitAll(env, cfg, order, results)
    ensures results'.Keys == results.Keys
    ensures forall k :: k in results ==> results'[k] == results[k] + Entries(env, cfg, order, k)
  {
    var domain := env.netloc(base);
    visited := {};
    pending := {base};
    results' := results;
    order := [];
    FrontierInit(env, cfg, base);
    while pending != {} && |visited| < cfg.maxPages
      invariant Frontier(env, cfg, base, visited, pending, order)
      invariant results' == VisitAll(env, cfg, order, results)
      invariant results'.Keys == results.Keys
      decreases cfg.maxPages - |visited|, |pending|
    {
      ghost var visited0, pending0, order0 := visited, pending, order;
      var url :| url in pending;
      // The frontier keeps the two sets disjoint, so the skip below never fires.
      assert url !in visited;
      pending := pending - {url};
      if url !in visited {
        visited := visited + {url};
        order := order + [url];
        pending, results' := VisitPage(env, cfg, url, domain, visited, pending, results');
        FrontierStep(env, cfg, base, visited0, pending0, order0, url, Succ(env, url, domain), pending);
        VisitAllSnoc(env, cfg, order0, url, results);
      }
    }
    SiteFinished(env, cfg, base, visited, pending, order);
    VisitAllEntries(env, cfg, order, results);
  }

  /** The `try` block for one newly visited page (termspider.py:54-96): fetch it, and on a 200
      answer record its terms and queue its unvisited on-site links. */
  method VisitPage(env: Env, cfg: Config, url: string, domain: string, visited: set<string>, pending: set<string>,
                   results: map<string, seq<string>>)
    returns (pending': set<string>, results': map<string, seq<string>>)
    requires forall t :: t in cfg.terms ==> t in results
    ensures results' == Visit(env, cfg, url, results)
    ensures results'.Keys == results.Keys
    ensures pending' == pending + (Succ(env, url, domain) - visited)
  {
    var response := env.fetch(url);
    if response.Some? && response.value.status == 200 {
      var doc := response.value.doc;
      SuccOk(env, url, domain);
      results' := RecordTerms(cfg, url, doc, results);
      pending' := DiscoverLinks(url, Hrefs(doc), env.join, env.netloc, domain, visited, pending);
    } else {
      FailedPageAddsNothing(env, cfg, url, domain);
      assert pending + ({} - visited) == pending;
      pending', results' := pending, results;
    }
  }

  /** The loop starts with nothing visited and the base URL pending. */
  lemma FrontierInit(env: Env, cfg: Config, base: string)
    ensures Frontier(env, cfg, base, {}, {base}, [])
  {
  }

  /** Visiting a pending URL keeps the loop-head state. */
  lemma FrontierStep(env: Env, cfg: Config, base: string, visited: set<string>, pending: set<string>, order: seq<string>,
                     url: string, links: set<string>, pending': set<string>)
    requires Frontier(env, cfg, base, visited, pending, order)
    requires url in pending && |visited| < cfg.maxPages
    requires links == Succ(env, url, env.netloc(base))
    requires pending' == (pending - {url}) + (links - (visited + {url}))
    ensures Frontier(env, cfg, base, visited + {url}, pending', order + [url])
    ensures |visited + {url}| == |visited| + 1
  {
    SetStep(base, visited, pending, order, url, links, pending');
    OrderStep(env, cfg, base, order, url);
    PendingStep(env, base, pending, order, url, links, pending');
    LinksStep(env, env.netloc(base), visited, pending, url, links, pending');
  }

  /** The set bookkeeping of a visit: the popped URL moves from pending to visited. */
  lemma SetStep(base: string, visited: set<string>, pending: set<string>, order: seq<string>,
                url: string, links: set<string>, pending': set<string>)
    requires visited !! pending && url in pending
    requires (forall u :: u in visited <==> u in order) && |order| == |visited|
    requires |order| > 0 ==> order[0] == base
    requires base in visited || base in pending
    requires pending' == (pending - {url}) + (links - (visited + {url}))
    ensures url !in order && (url == base ==> order == [])
    ensures (visited + {url}) !! pending'
    ensures |visited + {url}| == |visited| + 1 == |order + [url]|
    ensures forall u :: u in visited + {url} <==> u in order + [url]
    ensures base in visited + {url} || base in pending'
    ensures pending' <= pending + links
  {
    forall u ensures u in visited + {url} <==> u in order + [url] {
      assert u in order + [url] <==> u in order || u == url;
    }
  }

  /** The links of a page that answered 200 are the ones its link loop discovers. */
  lemma SuccOk(env: Env, url: string, domain: string)
    requires Ok(env.fetch(url))
    ensures Succ(env, url, domain) == Discovered(url, Hrefs(env.fetch(url).value.doc), env.join, env.netloc, domain)
  {
  }

  /** Appending a pending URL to the visit order keeps it a crawl of the site. */
  lemma OrderStep(env: Env, cfg: Config, base: string, order: seq<string>, url: string)
    requires CrawlOrder(env, cfg, base, order) && |order| < cfg.maxPages
    requires url !in order
    requires url == base ==> order == []
    requires url != base ==>
      env.netloc(url) == env.netloc(base) && '#' !in url &&
      exists j :: 0 <= j < |order| && url in Succ(env, order[j], env.netloc(base))
    ensures CrawlOrder(env, cfg, base, order + [url])
  {
    var domain := env.netloc(base);
    var order' := order + [url];
    forall i | 0 < i < |order'|
      ensures env.netloc(order'[i]) == domain && '#' !in order'[i] &&
        exists j :: 0 <= j < i && order'[i] in Succ(env, order'[j], domain)
    {
      if i < |order| {
        assert order'[i] == order[i];
        var j :| 0 <= j < i && order[i] in Succ(env, order[j], domain);
        assert order'[j] == order[j];
      } else {
        assert order'[i] == url && url != base;
        var j :| 0 <= j < |order| && url in Succ(env, order[j], domain);
        assert order'[j] == order[j];
      }
    }
    forall i, j | 0 <= i < j < |order'|
      ensures order'[i] != order'[j]
    {
      if j == |order| {
        assert order'[i] == order[i];
      }
    }
  }

  /** The URLs pending after a visit are still links found on visited pages. */
  lemma PendingStep(env: Env, base: string, pending: set<string>, order: seq<string>,
                    url: string, links: set<string>, pending': set<string>)
    requires FoundPending(env, base, pending, order)
    requires links == Succ(env, url, env.netloc(base))
    requires pending' <= pending + links
    ensures FoundPending(env, base, pending', order + [url])
  {
    var domain := env.netloc(base);
    var order' := order + [url];
    forall u | u in pending' && u != base
      ensures env.netloc(u) == domain && '#' !in u &&
        exists j :: 0 <= j < |order'| && u in Succ(env, order'[j], domain)
    {
      if u in pending {
        var j :| 0 <= j < |order| && u in Succ(env, order[j], domain);
        assert order'[j] == order[j];
      } else {
        assert order'[|order|] == url;
      }
    }
  }

  /** After a visit, the links of every visited page are still visited or pending. */
  lemma LinksStep(env: Env, domain: string, visited: set<string>, pending: set<string>,
                  url: string, links: set<string>, pending': set<string>)
    requires LinksWithin(env, domain, visited, visited + pending)
    requires url in pending && links == Succ(env, url, domain)
    requires pending' == (pending - {url}) + (links - (visited + {url}))
    ensures LinksWithin(env, domain, visited + {url}, visited + {url} + pending')
  {
    assert visited + pending <= visited + {url} + pending';
    assert links <= visited + {url} + pending';
  }

  /** A page that could not be fetched or did not answer 200 adds no entry and no link. */
  lemma FailedPageAddsNothing(env: Env, cfg: Config, url: string, domain: string)
    requires !Ok(env.fetch(url))
    ensures forall k :: PageEntries(env, cfg, url, k) == []
    ensures Succ(env, url, domain) == {}
  {
  }

  /** A sequence of pages, each linked from the one before it. */
  ghost predicate LinkPath(env: Env, domain: string, p: seq<string>) {
    forall i :: 0 <= i < |p| - 1 ==> p[i + 1] in Succ(env, p[i], domain)
  }

  /** A closed set holding the start of a link path holds all of it: a crawl that ends with
      nothing pending has visited every page reachable from the base URL. */
  lemma {:induction false} ClosedHoldsPaths(env: Env, domain: string, s: set<string>, p: seq<string>)
    requires Closed(env, domain, s) && LinkPath(env, domain, p) && |p| > 0 && p[0] in s
    ensures forall i :: 0 <= i < |p| ==> p[i] in s
  {
    var n := 0;
    while n < |p| - 1
      invariant 0 <= n <= |p| - 1
      invariant forall i :: 0 <= i <= n ==> p[i] in s
    {
      assert p[n + 1] in Succ(env, p[n], domain);
      n := n + 1;
    }
  }

  /** When the crawl of a site stops with nothing pending, the visited set holds every page
      reachable from the base along site links. */
  lemma CrawlReachesAll(env: Env, cfg: Config, base: string, visited: set<string>, pending: set<string>,
                        order: seq<string>, p: seq<string>)
    requires Frontier(env, cfg, base, visited, pending, order) && pending == {}
    requires LinkPath(env, env.netloc(base), p) && |p| > 0 && p[0] == base
    ensures forall i :: 0 <= i < |p| ==> p[i] in visited
  {
    assert visited + pending == visited;
    ClosedHoldsPaths(env, env.netloc(base), visited, p);
  }

  /** One term listed exactly once gets exactly one entry from a page it fires on, and none
      from a page it does not fire on. */
  lemma SingleTermOneEntry(cfg: Config, url: string, doc: seq<Node>, term: string)
    requires multiset(cfg.terms)[term] == 1
    ensures |TermEntries(cfg, url, doc, term)| == if Fires(term, PageContent(doc)) then 1 else 0
    ensures Fires(term, PageContent(doc)) ==> TermEntries(cfg, url, doc, term) == [Record(cfg, url, doc, term)]
  {
  }

  /** The entries of the crawls in `orders`, one crawl after the other, for `term`. */
  function AllEntries(env: Env, cfg: Config, orders: seq<seq<string>>, term: string): seq<string>
    decreases |orders|
  {
    if orders == [] then []
    else AllEntries(env, cfg, orders[..|orders| - 1], term) + Entries(env, cfg, orders[|orders| - 1], term)
  }

  /** The result lists after the crawls in `orders`, one after the other. */
  function VisitSites(env: Env, cfg: Config, orders: seq<seq<string>>, results: map<string, seq<string>>)
    : (r: map<string, seq<string>>)
    ensures r.Keys == results.Keys
    decreases |orders|
  {
    if orders == [] then results
    else VisitAll(env, cfg, orders[|orders| - 1], VisitSites(env, cfg, orders[..|orders| - 1], results))
  }

  /** Each term's list holds the entries of every crawl in turn. */
  lemma {:induction false} VisitSitesEntries(env: Env, cfg: Config, orders: seq<seq<string>>, results: map<string, seq<string>>)
    ensures forall k :: k in results ==> VisitSites(env, cfg, orders, results)[k] == results[k] + AllEntries(env, cfg, orders, k)
    decreases |orders|
  {
    if orders != [] {
      var front := orders[..|orders| - 1];
      VisitSitesEntries(env, cfg, front, results);
      VisitAllEntries(env, cfg, orders[|orders| - 1], VisitSites(env, cfg, front, results));
    }
  }

  /** The crawl of `base` is a crawl of its site that ran to its end. */
  ghost predicate SiteDone(env: Env, cfg: Config, base: string, order: seq<string>) {
    CrawlOrder(env, cfg, base, order) && Finished(env, cfg, base, order)
  }

  /** One more finished site crawl extends the crawls of the sites before it. */
  lemma SitesStep(env: Env, cfg: Config, baseUrls: seq<string>, orders: seq<seq<string>>, order: seq<string>)
    requires |orders| < |baseUrls|
    requires forall j :: 0 <= j < |orders| ==> SiteDone(env, cfg, baseUrls[j], orders[j])
    requires SiteDone(env, cfg, baseUrls[|orders|], order)
    ensures forall j :: 0 <= j < |orders| + 1 ==> SiteDone(env, cfg, baseUrls[j], (orders + [order])[j])
  {
  }

  /** The crawl of all base URLs (termspider.py:35, 44-103): one list per term, holding the
      entries of every site's crawl in order. */
  method Crawl(env: Env, cfg: Config, baseUrls: seq<string>)
    returns (keywordToUrls: map<string, seq<string>>, ghost orders: seq<seq<string>>)
    ensures keywordToUrls.Keys == set t | t in cfg.terms
    ensures |orders| == |baseUrls|
    ensures forall i :: 0 <= i < |baseUrls| ==> SiteDone(env, cfg, baseUrls[i], orders[i])
    ensures forall k :: k in keywordToUrls ==> keywordToUrls[k] == AllEntries(env, cfg, orders, k)
  {
    keywordToUrls := map t | t in cfg.terms :: [];
    ghost var initial := keywordToUrls;
    orders := [];
    for i := 0 to |baseUrls|
      invariant keywordToUrls == VisitSites(env, cfg, orders, initial)
      invariant keywordToUrls.Keys == initial.Keys
      invariant |orders| == i
      invariant forall j :: 0 <= j < i ==> SiteDone(env, cfg, baseUrls[j], orders[j])
    {
      var visited, pending;
      ghost var order;
      visited, pending, keywordToUrls, order := CrawlSite(env, cfg, baseUrls[i], keywordToUrls);
      assert (orders + [order])[..i] == orders;
      SitesStep(env, cfg, baseUrls, orders, order);
      orders := orders + [order];
    }
    VisitSitesEntries(env, cfg, orders, initial);
  }
}
