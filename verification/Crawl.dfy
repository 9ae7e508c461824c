/**
 archive/graph_invoice_finder.v3.7.4.py: the depth-limited crawl for download links.

 `web.get(u)` is the HTML page a GET of u ends on, if it ends on one: what the parser finds there. Pages
 may link to each other in any way, cycles included.
 */
module Crawl {
  import opened Strings
  import opened Wrappers
  import opened Chains

  type Url = string

  /** PDF links, download candidates, and the final URLs of submitted download forms ("" if one failed). */
  datatype Page = Page(pdfLinks: seq<Url>, candidates: seq<Url>, forms: seq<Url>)

  const DIRECT_HINTS: seq<string> := ["download", "invoice", "receipt", "חשבונית", "קבלה"]

  predicate IsPdfUrl(u: Url) {
    EndsWith(Lower(u), ".pdf")
  }

  predicate IsDirectLike(u: Url) {
    IsPdfUrl(u) || ContainsAny(Lower(u), DIRECT_HINTS)
  }

  /** What a GET gives, and the two tests on the text of a URL that steer the crawl. */
  datatype Web = Web(get: Url -> Option<Page>, isPdf: Url -> bool, isDirect: Url -> bool)

  /** The program's own tests. */
  function Standard(get: Url -> Option<Page>): Web {
    Web(get, u => IsPdfUrl(u), u => IsDirectLike(u))
  }

  function DirectLike(web: Web, us: seq<Url>): (r: seq<Url>)
    ensures forall u :: u in r <==> u in us && web.isDirect(u)
  {
    if us == [] then []
    else
      assert us == [us[0]] + us[1..];
      (if web.isDirect(us[0]) then [us[0]] else []) + DirectLike(web, us[1..])
  }

  function FormResults(p: Page, tryForms: bool): (r: seq<Url>)
    ensures forall u :: u in r <==> tryForms && u in p.forms && u != ""
  {
    if tryForms then NonEmpty(p.forms) else []
  }

  function NonEmpty(us: seq<Url>): (r: seq<Url>)
    ensures forall u :: u in r <==> u in us && u != ""
  {
    if us == [] then []
    else
      assert us == [us[0]] + us[1..];
      (if us[0] != "" then [us[0]] else []) + NonEmpty(us[1..])
  }

  // ---------- The crawl ----------

  function CrawlPage(web: Web, p: Page, tryForms: bool, depth: int): seq<Url>
    decreases if depth > 0 then depth else 0, 0
  {
    if depth <= 0 then []
    else Collect(web, p, tryForms, Descend(web, p.candidates, tryForms, depth - 1))
  }

  /** One page's harvest: its own URLs around those from deeper pages, first occurrences only. */
  function Collect(web: Web, p: Page, tryForms: bool, deeper: seq<Url>): (r: seq<Url>)
    ensures NoRepeats(r)
    ensures forall u :: u in r <==> Emits(web, p, tryForms, u) || u in deeper
  {
    Unique(p.pdfLinks + DirectLike(web, p.candidates) + deeper + FormResults(p, tryForms))
  }

  /** What the pages behind the candidates yield, one level down. */
  function Descend(web: Web, us: seq<Url>, tryForms: bool, depth: int): seq<Url>
    decreases if depth > 0 then depth else 0, |us| + 1
  {
    if us == [] then []
    else
      (if !web.isPdf(us[0]) && web.get(us[0]).Some? then CrawlPage(web, web.get(us[0]).value, tryForms, depth) else [])
      + Descend(web, us[1..], tryForms, depth)
  }

  method CrawlHtmlForPdf(web: Web, p: Page, tryForms: bool, depth: int) returns (found: seq<Url>)
    ensures found == CrawlPage(web, p, tryForms, depth)
    decreases if depth > 0 then depth else 0, 0
  {
    if depth <= 0 {
      return [];
    }
    found := p.pdfLinks + DirectLike(web, p.candidates);
    var deeper := CrawlCandidates(web, p.candidates, tryForms, depth - 1);
    found := found + deeper;
    var subs := [];
    if tryForms {
      subs := SubmitForms(p.forms);
    }
    assert subs == FormResults(p, tryForms);
    found := Unique(found + subs);
    assert found == Collect(web, p, tryForms, deeper);
  }

  /** Step 3 of the crawl, the descent into the pages behind the candidates. */
  method CrawlCandidates(web: Web, us: seq<Url>, tryForms: bool, depth: int) returns (found: seq<Url>)
    ensures found == Descend(web, us, tryForms, depth)
    decreases if depth > 0 then depth else 0, 1
  {
    found := [];
    for i := 0 to |us|
      invariant found + Descend(web, us[i..], tryForms, depth) == Descend(web, us, tryForms, depth)
    {
      assert us[i..][0] == us[i] && us[i..][1..] == us[i + 1..];
      ghost var rest := Descend(web, us[i + 1..], tryForms, depth);
      if web.isPdf(us[i]) || web.get(us[i]).None? {
        assert [] + rest == rest;
        continue;
      }
      var deeper := CrawlHtmlForPdf(web, web.get(us[i]).value, tryForms, depth);
      Associative(found, deeper, rest);
      found := found + deeper;
    }
  }

  lemma Associative<T>(a: seq<T>, b: seq<T>, c: seq<T>)
    ensures a + (b + c) == a + b + c
  {
  }

  /** The results of the download forms, without those that failed. */
  method SubmitForms(forms: seq<Url>) returns (found: seq<Url>)
    ensures found == NonEmpty(forms)
  {
    found := [];
    for i := 0 to |forms|
      invariant found + NonEmpty(forms[i..]) == NonEmpty(forms)
    {
      assert forms[i..][0] == forms[i] && forms[i..][1..] == forms[i + 1..];
      ghost var rest := NonEmpty(forms[i + 1..]);
      if forms[i] != "" {
        Associative(found, [forms[i]], rest);
        found := found + [forms[i]];
      } else {
        assert [] + rest == rest;
      }
    }
  }

  // ---------- What the crawl finds ----------

  /** The URLs one page emits. */
  predicate Emits(web: Web, p: Page, tryForms: bool, u: Url) {
    u in p.pdfLinks || (u in p.candidates && web.isDirect(u)) || (tryForms && u in p.forms && u != "")
  }

  /** One HTML hop: q is behind a candidate of p that is not itself a PDF link. */
  ghost predicate LeadsTo(web: Web, p: Page, q: Page) {
    exists u :: u in p.candidates && !web.isPdf(u) && web.get(u) == Some(q)
  }

  ghost function Hop(web: Web): (Page, Page) -> bool {
    (p: Page, q: Page) => LeadsTo(web, p, q)
  }

  /** A chain of fewer than `depth` hops from p to a page that emits u. */
  ghost predicate IsRoute(web: Web, p: Page, tryForms: bool, depth: int, u: Url, route: seq<Page>) {
    0 < |route| <= depth && IsChain(Hop(web), route) && route[0] == p && Emits(web, route[|route| - 1], tryForms, u)
  }

  lemma {:induction false} PickFromDescend(web: Web, us: seq<Url>, tryForms: bool, depth: int, x: Url) returns (u: Url)
    requires x in Descend(web, us, tryForms, depth)
    ensures u in us && !web.isPdf(u) && web.get(u).Some? && x in CrawlPage(web, web.get(u).value, tryForms, depth)
    decreases |us|
  {
    u := us[0];
    if web.isPdf(u) || web.get(u).None? || x !in CrawlPage(web, web.get(u).value, tryForms, depth) {
      u := PickFromDescend(web, us[1..], tryForms, depth, x);
    }
  }

  lemma {:induction false} StaysInDescend(web: Web, us: seq<Url>, tryForms: bool, depth: int, x: Url, u: Url)
    requires u in us && !web.isPdf(u) && web.get(u).Some? && x in CrawlPage(web, web.get(u).value, tryForms, depth)
    ensures x in Descend(web, us, tryForms, depth)
    decreases |us|
  {
    if us[0] == u {
    } else {
      assert us == [us[0]] + us[1..];
      StaysInDescend(web, us[1..], tryForms, depth, x, u);
    }
  }

  /** The crawl without its lists: u is emitted here, or found one hop on with one level less. */
  ghost predicate Found(web: Web, p: Page, tryForms: bool, depth: int, x: Url)
    decreases if depth > 0 then depth else 0
  {
    depth > 0 &&
    (Emits(web, p, tryForms, x) || exists q :: LeadsTo(web, p, q) && Found(web, q, tryForms, depth - 1, x))
  }

  lemma InCrawl(web: Web, p: Page, tryForms: bool, depth: int, x: Url)
    ensures x in CrawlPage(web, p, tryForms, depth)
       <==> (depth > 0 && (Emits(web, p, tryForms, x) || x in Descend(web, p.candidates, tryForms, depth - 1)))
  {
  }

  /** A URL not emitted by the page itself is crawled from a page one hop on. */
  lemma Behind(web: Web, p: Page, tryForms: bool, depth: int, x: Url) returns (q: Page)
    requires x in CrawlPage(web, p, tryForms, depth) && !Emits(web, p, tryForms, x)
    ensures LeadsTo(web, p, q) && x in CrawlPage(web, q, tryForms, depth - 1)
  {
    assert x in Descend(web, p.candidates, tryForms, depth - 1) by {
      InCrawl(web, p, tryForms, depth, x);
    }
    var u := PickFromDescend(web, p.candidates, tryForms, depth - 1, x);
    q := web.get(u).value;
  }

  lemma FoundStep(web: Web, p: Page, q: Page, tryForms: bool, depth: int, x: Url)
    requires depth > 0 && LeadsTo(web, p, q) && Found(web, q, tryForms, depth - 1, x)
    ensures Found(web, p, tryForms, depth, x)
  {
  }

  lemma FoundHere(web: Web, p: Page, tryForms: bool, depth: int, x: Url)
    requires depth > 0 && Emits(web, p, tryForms, x)
    ensures Found(web, p, tryForms, depth, x)
  {
  }

  lemma {:induction false} CrawledIsFound(web: Web, p: Page, tryForms: bool, depth: int, x: Url)
    requires x in CrawlPage(web, p, tryForms, depth)
    ensures Found(web, p, tryForms, depth, x)
    decreases if depth > 0 then depth else 0
  {
    if depth <= 0 {
    } else if Emits(web, p, tryForms, x) {
      FoundHere(web, p, tryForms, depth, x);
    } else {
      var q := Behind(web, p, tryForms, depth, x);
      CrawledIsFound(web, q, tryForms, depth - 1, x);
      FoundStep(web, p, q, tryForms, depth, x);
    }
  }

  lemma {:induction false} FoundIsCrawled(web: Web, p: Page, tryForms: bool, depth: int, x: Url)
    requires Found(web, p, tryForms, depth, x)
    ensures x in CrawlPage(web, p, tryForms, depth)
    decreases if depth > 0 then depth else 0
  {
    InCrawl(web, p, tryForms, depth, x);
    if Emits(web, p, tryForms, x) {
    } else {
      var q :| LeadsTo(web, p, q) && Found(web, q, tryForms, depth - 1, x);
      FoundIsCrawled(web, q, tryForms, depth - 1, x);
      var u :| u in p.candidates && !web.isPdf(u) && web.get(u) == Some(q);
      StaysInDescend(web, p.candidates, tryForms, depth - 1, x, u);
    }
  }

  lemma CrawlIsFound(web: Web, p: Page, tryForms: bool, depth: int, x: Url)
    ensures x in CrawlPage(web, p, tryForms, depth) <==> Found(web, p, tryForms, depth, x)
  {
    if x in CrawlPage(web, p, tryForms, depth) {
      CrawledIsFound(web, p, tryForms, depth, x);
    }
    if Found(web, p, tryForms, depth, x) {
      FoundIsCrawled(web, p, tryForms, depth, x);
    }
  }

  lemma {:induction false} FoundHasRoute(web: Web, p: Page, tryForms: bool, depth: int, x: Url) returns (route: seq<Page>)
    requires Found(web, p, tryForms, depth, x)
    ensures IsRoute(web, p, tryForms, depth, x, route)
    decreases depth
  {
    if Emits(web, p, tryForms, x) {
      route := [p];
    } else {
      var q :| LeadsTo(web, p, q) && Found(web, q, tryForms, depth - 1, x);
      var rest := FoundHasRoute(web, q, tryForms, depth - 1, x);
      route := [p] + rest;
      ChainCons(Hop(web), p, rest);
    }
  }

  lemma {:induction false} RouteIsFound(web: Web, p: Page, tryForms: bool, depth: int, x: Url, route: seq<Page>)
    requires IsRoute(web, p, tryForms, depth, x, route)
    ensures Found(web, p, tryForms, depth, x)
    decreases |route|
  {
    if |route| == 1 {
    } else {
      ChainTail(Hop(web), route);
      assert LeadsTo(web, p, route[1]);
      RouteIsFound(web, route[1], tryForms, depth - 1, x, route[1..]);
    }
  }

  /**
   The crawl returns, without repeats, exactly the URLs emitted by pages that fewer than `depth` HTML
   hops lead to: nothing is missed and nothing else gets in, on every link graph.
   */
  lemma CrawlExact(web: Web, p: Page, tryForms: bool, depth: int, x: Url)
    ensures NoRepeats(CrawlPage(web, p, tryForms, depth))
    ensures x in CrawlPage(web, p, tryForms, depth) <==>
      exists route :: IsRoute(web, p, tryForms, depth, x, route)
  {
    CrawlIsFound(web, p, tryForms, depth, x);
    if Found(web, p, tryForms, depth, x) {
      var route := FoundHasRoute(web, p, tryForms, depth, x);
    }
    if route :| IsRoute(web, p, tryForms, depth, x, route) {
      RouteIsFound(web, p, tryForms, depth, x, route);
    }
  }

  /** A deeper crawl, or one that also submits forms, finds everything a shallower one does. */
  lemma CrawlMonotone(web: Web, p: Page, depth: int, deeper: int, tryForms: bool, x: Url)
    requires depth <= deeper && x in CrawlPage(web, p, tryForms, depth)
    ensures x in CrawlPage(web, p, tryForms, deeper) && x in CrawlPage(web, p, true, depth)
  {
    CrawlIsFound(web, p, tryForms, depth, x);
    CrawlIsFound(web, p, tryForms, deeper, x);
    CrawlIsFound(web, p, true, depth, x);
    var route := FoundHasRoute(web, p, tryForms, depth, x);
    RouteIsFound(web, p, tryForms, deeper, x, route);
    RouteIsFound(web, p, true, depth, x, route);
  }

  /** Once no new page can be reached, more depth changes nothing: the depth is only a bound on hops. */
  lemma CrawlSaturates(web: Web, p: Page, tryForms: bool, depth: int, x: Url)
    requires depth > 0
    requires forall q, n :: n > 0 && ReachableIn(web, p, q, n) ==> ReachableIn(web, p, q, depth)
    requires exists deeper :: x in CrawlPage(web, p, tryForms, deeper)
    ensures x in CrawlPage(web, p, tryForms, depth)
  {
    var deeper :| x in CrawlPage(web, p, tryForms, deeper);
    CrawlIsFound(web, p, tryForms, depth, x);
    CrawlIsFound(web, p, tryForms, deeper, x);
    var route := FoundHasRoute(web, p, tryForms, deeper, x);
    var q := route[|route| - 1];
    assert IsPath(web, p, q, |route|, route);
    assert ReachableIn(web, p, q, |route|);
    assert ReachableIn(web, p, q, depth);
    var short :| IsPath(web, p, q, depth, short);
    RouteIsFound(web, p, tryForms, depth, x, short);
  }

  ghost predicate IsPath(web: Web, p: Page, q: Page, n: int, route: seq<Page>) {
    0 < |route| <= n && IsChain(Hop(web), route) && route[0] == p && route[|route| - 1] == q
  }

  ghost predicate ReachableIn(web: Web, p: Page, q: Page, n: int) {
    exists route :: IsPath(web, p, q, n, route)
  }
}
