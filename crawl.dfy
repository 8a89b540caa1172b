/**
 * The link crawl `get_all_internal_links` (website_to_pdf.py:33-53): a
 * depth-first worklist over a last-in-first-out stack `to_visit` and a
 * `visited` set, confined to the network location of the seed URL, whose
 * result is the sorted snapshot of `visited`.
 *
 * The browser fetch, the HTML parse, `urljoin` and `urlparse(...).netloc` are
 * foreign calls; they are the fields of `Web`.
 */
module Crawl {
  import opened Wrappers
  import opened Strings

  /** An absolute URL; two URLs are the same exactly when the strings are equal. */
  type Url = string

  /** What the crawl can observe of the web. */
  datatype Web = Web(
    // For each URL whose `driver.get` and parse succeed: the `href` values of its
    // `<a href=...>` elements in document order. A URL that is not a key fails
    // before it is added to `visited`.
    pages: map<Url, seq<string>>,
    // `urljoin(page, href)`; `None` when it raises, which ends the processing of
    // the rest of that page's links (the `except` is outside the `for`).
    join: (Url, string) -> Option<Url>,
    // `urlparse(u).netloc`
    netloc: Url -> string)

  /**
   * The URLs the inner `for` loop appends to `to_visit` for page `url`: each href
   * is joined in order until a join raises, and a joined URL is appended when
   * its netloc is `domain` and it is not in `visited`.
   */
  function Pushed(web: Web, domain: string, visited: set<Url>, url: Url, hrefs: seq<string>): seq<Url>
    decreases |hrefs|
  {
    if hrefs == [] then []
    else match web.join(url, hrefs[0])
      case None => []
      case Some(u) =>
        (if web.netloc(u) == domain && u !in visited then [u] else []) +
        Pushed(web, domain, visited, url, hrefs[1..])
  }

  /** The same-domain links of page `url` that the crawl follows, ignoring `visited`. */
  function Links(web: Web, domain: string, url: Url, hrefs: seq<string>): seq<Url> {
    Pushed(web, domain, {}, url, hrefs)
  }

  /** What is appended is exactly the followed links not yet visited. */
  lemma {:induction false} PushedIsUnvisitedLinks(web: Web, domain: string, visited: set<Url>, url: Url, hrefs: seq<string>)
    ensures forall u :: u in Pushed(web, domain, visited, url, hrefs) <==> u in Links(web, domain, url, hrefs) && u !in visited
    decreases |hrefs|
  {
    if hrefs != [] {
      PushedIsUnvisitedLinks(web, domain, visited, url, hrefs[1..]);
    }
  }

  /** Every followed link lies in the domain. */
  lemma {:induction false} LinksInDomain(web: Web, domain: string, url: Url, hrefs: seq<string>)
    ensures forall u :: u in Links(web, domain, url, hrefs) ==> web.netloc(u) == domain
    decreases |hrefs|
  {
    if hrefs != [] {
      LinksInDomain(web, domain, url, hrefs[1..]);
    }
  }

  /** The links of a page whose fetch succeeded. */
  function Successors(web: Web, seed: Url, v: Url): seq<Url>
    requires v in web.pages
  {
    Links(web, web.netloc(seed), v, web.pages[v])
  }

  /** `p` is a chain of followed links starting at the seed. */
  ghost predicate IsLinkPath(web: Web, seed: Url, p: seq<Url>) {
    |p| > 0 && p[0] == seed &&
    forall i :: 0 <= i < |p| - 1 ==> p[i] in web.pages && p[i + 1] in Successors(web, seed, p[i])
  }

  /** Some chain of followed links from the seed ends at `u`. */
  ghost predicate HasLinkPath(web: Web, seed: Url, u: Url) {
    exists p :: IsLinkPath(web, seed, p) && p[|p| - 1] == u
  }

  /** A page the crawl should reach: it loads, and a chain of followed links leads to it. */
  ghost predicate Reachable(web: Web, seed: Url, u: Url) {
    u in web.pages && HasLinkPath(web, seed, u)
  }

  /** Following one more link of a loaded page extends a chain. */
  lemma ExtendLinkPath(web: Web, seed: Url, v: Url, u: Url)
    requires v in web.pages && HasLinkPath(web, seed, v) && u in Successors(web, seed, v)
    ensures HasLinkPath(web, seed, u)
  {
    var p :| IsLinkPath(web, seed, p) && p[|p| - 1] == v;
    assert IsLinkPath(web, seed, p + [u]);
  }

  /** Every loaded page linked from a page of `visited` is in `visited`. */
  ghost predicate ClosedUnderLinks(web: Web, seed: Url, visited: set<Url>) {
    forall v, u :: v in visited && v in web.pages && u in Successors(web, seed, v) && u in web.pages ==> u in visited
  }

  /** A set that holds the (loadable) seed and is closed under links holds every reachable page. */
  lemma {:induction false} ClosedHoldsPath(web: Web, seed: Url, visited: set<Url>, p: seq<Url>, n: nat)
    requires seed in web.pages ==> seed in visited
    requires ClosedUnderLinks(web, seed, visited)
    requires IsLinkPath(web, seed, p)
    requires n < |p| && p[n] in web.pages
    ensures p[n] in visited
  {
    if n > 0 {
      ClosedHoldsPath(web, seed, visited, p, n - 1);
    }
  }

  /** A reachable page is in the seed's domain. */
  lemma ReachableInDomain(web: Web, seed: Url, u: Url)
    requires Reachable(web, seed, u)
    ensures web.netloc(u) == web.netloc(seed)
  {
    var p :| IsLinkPath(web, seed, p) && p[|p| - 1] == u;
    if |p| > 1 {
      LinksInDomain(web, web.netloc(seed), p[|p| - 2], web.pages[p[|p| - 2]]);
    }
  }

  /**
   * The inner `for` loop of `get_all_internal_links` (website_to_pdf.py:47-50) for
   * page `url`: appends to `toVisit` what `Pushed` describes.
   */
  method PushLinks(web: Web, domain: string, visited: set<Url>, url: Url, hrefs: seq<string>, toVisit: seq<Url>)
    returns (toVisit': seq<Url>)
    ensures toVisit' == toVisit + Pushed(web, domain, visited, url, hrefs)
  {
    toVisit' := toVisit;
    var k := 0;
    while k < |hrefs|
      invariant 0 <= k <= |hrefs|
      invariant toVisit' + Pushed(web, domain, visited, url, hrefs[k..]) == toVisit + Pushed(web, domain, visited, url, hrefs)
    {
      assert hrefs[k..][0] == hrefs[k] && hrefs[k..][1..] == hrefs[k + 1..];
      var absUrl := web.join(url, hrefs[k]);
      if absUrl.None? {
        break;
      }
      if web.netloc(absUrl.value) == domain && absUrl.value !in visited {
        toVisit' := toVisit' + [absUrl.value];
      }
      k := k + 1;
    }
  }

  /**
   * What holds of the crawl's state before each iteration of its `while`: the
   * visited set is the successful part of the fetch log, with no URL fetched
   * successfully twice; everything logged or stacked is in the domain and at
   * the end of a chain of links from the seed; and every loaded link of a
   * visited page is visited or still on the stack.
   */
  ghost predicate CrawlInv(web: Web, seed: Url, visited: set<Url>, toVisit: seq<Url>, fetched: seq<Url>) {
    LogInv(web, seed, visited, fetched) &&
    StackInv(web, seed, visited, toVisit) &&
    ClosureInv(web, seed, visited, toVisit) &&
    (fetched == [] ==> toVisit == [seed]) &&
    (fetched != [] ==> fetched[0] == seed)
  }

  /** The fetch log: visited is its successful part; no success repeats; all in the domain. */
  ghost predicate LogInv(web: Web, seed: Url, visited: set<Url>, fetched: seq<Url>) {
    visited <= web.pages.Keys &&
    (forall u :: u in visited <==> u in fetched && u in web.pages) &&
    (forall i, j :: 0 <= i < j < |fetched| && fetched[i] == fetched[j] ==> fetched[i] !in web.pages) &&
    (forall i :: 0 <= i < |fetched| ==> web.netloc(fetched[i]) == web.netloc(seed))
  }

  /** Everything visited or stacked is reached by a chain of links; the stack stays in the domain. */
  ghost predicate StackInv(web: Web, seed: Url, visited: set<Url>, toVisit: seq<Url>) {
    (forall i :: 0 <= i < |toVisit| ==> web.netloc(toVisit[i]) == web.netloc(seed) && HasLinkPath(web, seed, toVisit[i])) &&
    (forall u :: u in visited ==> HasLinkPath(web, seed, u))
  }

  /** The loaded seed and the loaded links of visited pages are visited or still stacked. */
  ghost predicate ClosureInv(web: Web, seed: Url, visited: set<Url>, toVisit: seq<Url>) {
    (seed in web.pages ==> seed in visited || seed in toVisit) &&
    (forall v, u :: v in visited && v in web.pages && u in Successors(web, seed, v) && u in web.pages ==>
       u in visited || u in toVisit)
  }

  lemma CrawlInvInit(web: Web, seed: Url)
    ensures CrawlInv(web, seed, {}, [seed], [])
  {
    assert IsLinkPath(web, seed, [seed]);
  }

  /** A popped URL that is already visited is dropped (website_to_pdf.py:39-41). */
  lemma CrawlInvSkip(web: Web, seed: Url, visited: set<Url>, toVisit: seq<Url>, fetched: seq<Url>)
    requires CrawlInv(web, seed, visited, toVisit, fetched)
    requires toVisit != [] && toVisit[|toVisit| - 1] in visited
    ensures CrawlInv(web, seed, visited, toVisit[..|toVisit| - 1], fetched)
  {
    var url, rest := toVisit[|toVisit| - 1], toVisit[..|toVisit| - 1];
    assert toVisit == rest + [url];
    assert forall x :: x in toVisit ==> x == url || x in rest;
    assert StackInv(web, seed, visited, rest);
    assert ClosureInv(web, seed, visited, rest);
  }

  /** A popped URL whose fetch fails is logged and not visited (website_to_pdf.py:42-45, 51-52). */
  lemma CrawlInvFail(web: Web, seed: Url, visited: set<Url>, toVisit: seq<Url>, fetched: seq<Url>)
    requires CrawlInv(web, seed, visited, toVisit, fetched)
    requires toVisit != [] && toVisit[|toVisit| - 1] !in visited && toVisit[|toVisit| - 1] !in web.pages
    ensures CrawlInv(web, seed, visited, toVisit[..|toVisit| - 1], fetched + [toVisit[|toVisit| - 1]])
  {
    var url, rest := toVisit[|toVisit| - 1], toVisit[..|toVisit| - 1];
    assert toVisit == rest + [url];
    assert forall x :: x in toVisit ==> x == url || x in rest;
    assert LogInv(web, seed, visited, fetched + [url]);
    assert StackInv(web, seed, visited, rest);
    assert ClosureInv(web, seed, visited, rest);
  }

  /** A popped URL whose fetch succeeds is visited and its unvisited links stacked (website_to_pdf.py:43-50). */
  lemma CrawlInvLoad(web: Web, seed: Url, visited: set<Url>, toVisit: seq<Url>, fetched: seq<Url>)
    requires CrawlInv(web, seed, visited, toVisit, fetched)
    requires toVisit != [] && toVisit[|toVisit| - 1] !in visited && toVisit[|toVisit| - 1] in web.pages
    ensures var url := toVisit[|toVisit| - 1];
            CrawlInv(web, seed, visited + {url},
                     toVisit[..|toVisit| - 1] + Pushed(web, web.netloc(seed), visited + {url}, url, web.pages[url]),
                     fetched + [url])
  {
    var url, rest := toVisit[|toVisit| - 1], toVisit[..|toVisit| - 1];
    var domain := web.netloc(seed);
    var visited' := visited + {url};
    var pushed := Pushed(web, domain, visited', url, web.pages[url]);
    var toVisit' := rest + pushed;
    var fetched' := fetched + [url];
    assert toVisit == rest + [url];
    assert forall x :: x in toVisit ==> x == url || x in rest;
    PushedIsUnvisitedLinks(web, domain, visited', url, web.pages[url]);
    LinksInDomain(web, domain, url, web.pages[url]);
    forall i | 0 <= i < |toVisit'|
      ensures web.netloc(toVisit'[i]) == domain && HasLinkPath(web, seed, toVisit'[i])
    {
      if i >= |rest| {
        assert toVisit'[i] == pushed[i - |rest|];
        ExtendLinkPath(web, seed, url, toVisit'[i]);
      }
    }
    forall v, u | v in visited' && v in web.pages && u in Successors(web, seed, v) && u in web.pages
      ensures u in visited' || u in toVisit'
    {
      if v != url && u !in visited' {
        assert u in rest;
      }
    }
  }

  /** When the stack is empty, the visited set is exactly the reachable pages. */
  lemma CrawlInvDone(web: Web, seed: Url, visited: set<Url>, fetched: seq<Url>)
    requires CrawlInv(web, seed, visited, [], fetched)
    ensures forall u :: u in visited <==> Reachable(web, seed, u)
    ensures forall u :: u in visited ==> web.netloc(u) == web.netloc(seed)
    ensures |fetched| > 0 && fetched[0] == seed
  {
    forall u | Reachable(web, seed, u) ensures u in visited {
      var p :| IsLinkPath(web, seed, p) && p[|p| - 1] == u;
      ClosedHoldsPath(web, seed, visited, p, |p| - 1);
    }
    forall u | u in visited ensures web.netloc(u) == web.netloc(seed) {
      assert u in fetched;
    }
  }

  /**
   * One iteration of the `while` of `get_all_internal_links` (website_to_pdf.py:39-52)
   * on the state (visited, to_visit, fetch log): pop the last URL; drop it if
   * visited; otherwise fetch it, and if the fetch succeeds, visit it and stack
   * its unvisited same-domain links.
   */
  function Step(web: Web, seed: Url, visited: set<Url>, toVisit: seq<Url>, fetched: seq<Url>): (set<Url>, seq<Url>, seq<Url>)
    requires toVisit != []
  {
    var url, rest := toVisit[|toVisit| - 1], toVisit[..|toVisit| - 1];
    if url in visited then (visited, rest, fetched)
    else if url !in web.pages then (visited, rest, fetched + [url])
    else (visited + {url}, rest + Pushed(web, web.netloc(seed), visited + {url}, url, web.pages[url]), fetched + [url])
  }

  /** An iteration keeps the invariant. */
  lemma StepKeepsInv(web: Web, seed: Url, visited: set<Url>, toVisit: seq<Url>, fetched: seq<Url>)
    requires CrawlInv(web, seed, visited, toVisit, fetched) && toVisit != []
    ensures var (visited', toVisit', fetched') := Step(web, seed, visited, toVisit, fetched);
            CrawlInv(web, seed, visited', toVisit', fetched')
  {
    var url := toVisit[|toVisit| - 1];
    if url in visited {
      CrawlInvSkip(web, seed, visited, toVisit, fetched);
    } else if url !in web.pages {
      CrawlInvFail(web, seed, visited, toVisit, fetched);
    } else {
      CrawlInvLoad(web, seed, visited, toVisit, fetched);
    }
  }

  /**
   * An iteration either visits a page not visited before or shortens the stack
   * without visiting anything: on a web with finitely many loadable pages the
   * crawl ends.
   */
  lemma StepProgress(web: Web, seed: Url, visited: set<Url>, toVisit: seq<Url>, fetched: seq<Url>)
    requires visited <= web.pages.Keys && toVisit != []
    ensures var (visited', toVisit', fetched') := Step(web, seed, visited, toVisit, fetched);
            (visited < visited' <= web.pages.Keys && |web.pages.Keys - visited'| < |web.pages.Keys - visited|) ||
            (visited' == visited && |toVisit'| < |toVisit|)
  {
    var url := toVisit[|toVisit| - 1];
    if url !in visited && url in web.pages {
      assert web.pages.Keys - visited == (web.pages.Keys - (visited + {url})) + {url};
    }
  }

  /** The body of the `while` (website_to_pdf.py:39-52). */
  method VisitNext(web: Web, seed: Url, visited: set<Url>, toVisit: seq<Url>, fetched: seq<Url>)
    returns (visited': set<Url>, toVisit': seq<Url>, fetched': seq<Url>)
    requires toVisit != []
    ensures (visited', toVisit', fetched') == Step(web, seed, visited, toVisit, fetched)
  {
    var url := toVisit[|toVisit| - 1];
    visited', toVisit', fetched' := visited, toVisit[..|toVisit| - 1], fetched;
    if url in visited {
      return;
    }
    fetched' := fetched + [url];
    if url !in web.pages {
      return;
    }
    visited' := visited + {url};
    toVisit' := PushLinks(web, web.netloc(seed), visited', url, web.pages[url], toVisit');
  }

  /**
   * `get_all_internal_links(seed)`. Returns the sorted URLs and, as `fetched`,
   * the URLs handed to `driver.get`, in call order.
   */
  method GetAllInternalLinks(web: Web, seed: Url) returns (urls: seq<Url>, fetched: seq<Url>)
    ensures StrictlySorted(urls)
    ensures forall u :: u in urls <==> Reachable(web, seed, u)
    ensures forall u :: u in urls <==> u in fetched && u in web.pages
    ensures forall u :: u in urls ==> web.netloc(u) == web.netloc(seed)
    ensures |fetched| > 0 && fetched[0] == seed
    ensures forall i :: 0 <= i < |fetched| ==> web.netloc(fetched[i]) == web.netloc(seed)
    ensures forall i, j :: 0 <= i < j < |fetched| && fetched[i] == fetched[j] ==> fetched[i] !in web.pages
  {
    var visited: set<Url> := {};
    var toVisit: seq<Url> := [seed];
    var domain := web.netloc(seed);
    fetched := [];
    CrawlInvInit(web, seed);

    while toVisit != []
      invariant CrawlInv(web, seed, visited, toVisit, fetched)
      decreases |web.pages.Keys - visited|, |toVisit|
    {
      StepKeepsInv(web, seed, visited, toVisit, fetched);
      StepProgress(web, seed, visited, toVisit, fetched);
      visited, toVisit, fetched := VisitNext(web, seed, visited, toVisit, fetched);
    }

    CrawlInvDone(web, seed, visited, fetched);
    urls := SortedList(visited);
  }
}
