/**
 * Link discovery on a fetched page: every `a` element's `href` is resolved against the
 * page URL, its fragment is dropped, and the result is queued when it lies on the crawled
 * site and has not been visited yet.
 */
module Links {
  import opened Wrappers
  import opened Tree

  /** `urljoin(page, href)`; `None` stands for the `ValueError` it raises on a malformed URL. */
  type Joiner = (string, string) -> Option<string>

  /** `urlparse(url).netloc`. */
  type Netloc = string -> string

  /** Index of the first `'#'` in `u`, or `|u|` when there is none. */
  function HashIndex(u: string): (i: nat)
    ensures i <= |u|
    ensures forall k :: 0 <= k < i ==> u[k] != '#'
    ensures i < |u| ==> u[i] == '#'
  {
    if u == [] || u[0] == '#' then 0 else 1 + HashIndex(u[1..])
  }

  /** `urlparse(u)._replace(fragment="").geturl()`: the URL without its fragment, that is
      the longest prefix of `u` without a `'#'`. */
  function StripFragment(u: string): (r: string)
    ensures r <= u
    ensures '#' !in r
    ensures |r| < |u| ==> u[|r|] == '#'
  {
    u[..HashIndex(u)]
  }

  /** A URL without a fragment is left alone. */
  lemma StripFragmentNoHash(u: string)
    requires '#' !in u
    ensures StripFragment(u) == u
  {
  }

  /** Stripping is idempotent. */
  lemma StripFragmentIdempotent(u: string)
    ensures StripFragment(StripFragment(u)) == StripFragment(u)
  {
    StripFragmentNoHash(StripFragment(u));
  }

  /** Two URLs that differ only in their fragment strip to the same URL. */
  lemma {:induction false} StripFragmentIgnoresFragment(u: string, f1: string, f2: string)
    requires '#' !in u
    ensures StripFragment(u + "#" + f1) == StripFragment(u + "#" + f2) == u
  {
    if u == [] {
      assert (u + "#" + f1)[0] == '#' && (u + "#" + f2)[0] == '#';
    } else {
      assert (u + "#" + f1)[1..] == u[1..] + "#" + f1;
      assert (u + "#" + f2)[1..] == u[1..] + "#" + f2;
      StripFragmentIgnoresFragment(u[1..], f1, f2);
    }
  }

  /** `link.get('href')` for every `a` element among `es`, in order. */
  function AnchorHrefs(es: seq<Node>): seq<Option<string>> {
    if es == [] then []
    else
      (if es[0].Element? && es[0].tag == "a"
       then [if "href" in es[0].attrs then Some(es[0].attrs["href"]) else None]
       else [])
      + AnchorHrefs(es[1..])
  }

  /** The hrefs of `link_soup.find_all('a')`, in document order. */
  function Hrefs(doc: seq<Node>): seq<Option<string>> {
    AnchorHrefs(Elements(doc))
  }

  /** `if not href: continue` skips a missing and an empty `href`. */
  predicate Usable(href: Option<string>) {
    href.Some? && href.value != ""
  }

  /** The URL an href contributes on its own: resolved, stripped of its fragment, and kept
      when its network location is the site's. */
  function Accepted(page: string, href: Option<string>, join: Joiner, netloc: Netloc, domain: string): Option<string> {
    if !Usable(href) then None
    else match join(page, href.value)
      case None => None
      case Some(full) => if netloc(StripFragment(full)) == domain then Some(StripFragment(full)) else None
  }

  /** No href before index `i` made `urljoin` raise, so the loop reached index `i`. */
  ghost predicate Reached(page: string, hrefs: seq<Option<string>>, join: Joiner, i: int) {
    forall j :: 0 <= j < i && j < |hrefs| && Usable(hrefs[j]) ==> join(page, hrefs[j].value).Some?
  }

  /** The candidate URLs of the link loop over `hrefs`, in loop order: a raising `urljoin`
      ends the loop, since the exception leaves the `try` of the page. Every one of them lies
      on the site and has no fragment. */
  function Discovered(page: string, hrefs: seq<Option<string>>, join: Joiner, netloc: Netloc, domain: string): (r: set<string>)
    ensures forall u :: u in r ==> netloc(u) == domain && '#' !in u && StripFragment(u) == u
    decreases |hrefs|
  {
    if hrefs == [] then {}
    else if !Usable(hrefs[0]) then Discovered(page, hrefs[1..], join, netloc, domain)
    else match join(page, hrefs[0].value)
      case None => {}
      case Some(full) =>
        StripFragmentIdempotent(full);
        (if netloc(StripFragment(full)) == domain then {StripFragment(full)} else {})
        + Discovered(page, hrefs[1..], join, netloc, domain)
  }

  /** A discovered URL is what some href reached by the loop contributes, and conversely. */
  lemma {:induction false} DiscoveredExact(page: string, hrefs: seq<Option<string>>, join: Joiner, netloc: Netloc, domain: string, u: string)
    ensures u in Discovered(page, hrefs, join, netloc, domain) <==>
      exists i :: 0 <= i < |hrefs| && Reached(page, hrefs, join, i) && Accepted(page, hrefs[i], join, netloc, domain) == Some(u)
    decreases |hrefs|
  {
    if hrefs != [] {
      var rest := hrefs[1..];
      DiscoveredExact(page, rest, join, netloc, domain, u);
      if u in Discovered(page, hrefs, join, netloc, domain) {
        if Accepted(page, hrefs[0], join, netloc, domain) == Some(u) {
          assert Reached(page, hrefs, join, 0);
        } else {
          assert u in Discovered(page, rest, join, netloc, domain);
          var i :| 0 <= i < |rest| && Reached(page, rest, join, i) && Accepted(page, rest[i], join, netloc, domain) == Some(u);
          assert rest[i] == hrefs[i + 1];
          assert Reached(page, hrefs, join, i + 1) by {
            forall j | 0 <= j < i + 1 && j < |hrefs| && Usable(hrefs[j])
              ensures join(page, hrefs[j].value).Some?
            {
              if j > 0 {
                assert hrefs[j] == rest[j - 1];
              }
            }
          }
        }
      } else {
        forall i | 0 <= i < |hrefs| && Reached(page, hrefs, join, i)
          ensures Accepted(page, hrefs[i], join, netloc, domain) != Some(u)
        {
          if i > 0 {
            assert Usable(hrefs[0]) ==> join(page, hrefs[0].value).Some?;
            assert u !in Discovered(page, rest, join, netloc, domain);
            assert hrefs[i] == rest[i - 1];
            assert Reached(page, rest, join, i - 1) by {
              forall j | 0 <= j < i - 1 && j < |rest| && Usable(rest[j])
                ensures join(page, rest[j].value).Some?
              {
                assert rest[j] == hrefs[j + 1];
              }
            }
          }
        }
      }
    }
  }

  /** The link loop: `pending` grows by the discovered URLs that are not visited yet. */
  method DiscoverLinks(page: string, hrefs: seq<Option<string>>, join: Joiner, netloc: Netloc, domain: string,
                       visited: set<string>, pending: set<string>) returns (pending': set<string>)
    ensures pending' == pending + (Discovered(page, hrefs, join, netloc, domain) - visited)
  {
    pending' := pending;
    var i := 0;
    while i < |hrefs|
      invariant 0 <= i <= |hrefs|
      invariant pending' + (Discovered(page, hrefs[i..], join, netloc, domain) - visited)
             == pending + (Discovered(page, hrefs, join, netloc, domain) - visited)
      decreases |hrefs| - i
    {
      assert hrefs[i..][0] == hrefs[i] && hrefs[i..][1..] == hrefs[i + 1..];
      var href := hrefs[i];
      if !Usable(href) {
        i := i + 1;
        continue;
      }
      var full := join(page, href.value);
      if full == None {
        return;
      }
      var cleanUrl := StripFragment(full.value);
      if netloc(cleanUrl) == domain && cleanUrl !in visited {
        pending' := pending' + {cleanUrl};
      }
      i := i + 1;
    }
    assert hrefs[i..] == [];
  }
}
