/** archive/graph_invoice_finder.v3.7.4.py: what a fetch tries, in which order, said of the texts of URLs. */
module FetchRules {
  import opened Strings
  import opened Wrappers
  import opened Crawl
  import opened FetchLink

  // ---------- What a page offers ----------

  predicate PdfText(u: Url) {
    EndsWith(Lower(u), ".pdf")
  }

  predicate HintText(u: Url) {
    exists h :: h in ["download", "invoice", "receipt", "חשבונית", "קבלה"] && Contains(Lower(u), h)
  }

  /** Its PDF links, its candidates that end in ".pdf" or hold a hint, and where its forms lead. */
  predicate OnPage(p: Page, tryForms: bool, u: Url) {
    || u in p.pdfLinks
    || (u in p.candidates && (PdfText(u) || HintText(u)))
    || (tryForms && u in p.forms && u != "")
  }

  /** q is the page a candidate of p leads to that does not end in ".pdf". */
  ghost predicate IsBehind(get: Url -> Option<Page>, p: Page, q: Page) {
    exists v :: v in p.candidates && !PdfText(v) && get(v) == Some(q)
  }

  /** On the page or on one behind it. */
  ghost predicate WithinOneHop(get: Url -> Option<Page>, p: Page, tryForms: bool, u: Url) {
    OnPage(p, tryForms, u) || exists q :: IsBehind(get, p, q) && OnPage(q, tryForms, u)
  }

  lemma TextTests(get: Url -> Option<Page>, p: Page, q: Page, tryForms: bool, u: Url)
    ensures Emits(Standard(get), p, tryForms, u) <==> OnPage(p, tryForms, u)
    ensures LeadsTo(Standard(get), p, q) <==> IsBehind(get, p, q)
  {
    assert forall v :: Standard(get).isPdf(v) <==> PdfText(v);
    assert forall v :: Standard(get).isDirect(v) <==> PdfText(v) || HintText(v);
    assert Standard(get).get == get;
    if v :| v in p.candidates && !PdfText(v) && get(v) == Some(q) {
      assert !Standard(get).isPdf(v);
    }
  }

  lemma OneLevel(get: Url -> Option<Page>, p: Page, tryForms: bool, u: Url)
    ensures Found(Standard(get), p, tryForms, 1, u) <==> OnPage(p, tryForms, u)
  {
    TextTests(get, p, p, tryForms, u);
    assert forall q :: !Found(Standard(get), q, tryForms, 0, u);
  }

  lemma TwoLevels(get: Url -> Option<Page>, p: Page, tryForms: bool, u: Url)
    ensures Found(Standard(get), p, tryForms, 2, u) <==> WithinOneHop(get, p, tryForms, u)
  {
    TextTests(get, p, p, tryForms, u);
    forall q ensures LeadsTo(Standard(get), p, q) && Found(Standard(get), q, tryForms, 1, u) <==>
        IsBehind(get, p, q) && OnPage(q, tryForms, u) {
      TextTests(get, p, q, tryForms, u);
      OneLevel(get, q, tryForms, u);
    }
  }

  /** The deep crawl finds what is on the page or one hop behind it, and nothing else. */
  lemma DeepLinksExactly(env: Env, page: Page, u: Url)
    ensures u in DeepLinks(env, page) <==> env.deepHtml && WithinOneHop(env.get, page, env.tryForms, u)
  {
    CrawlIsFound(Standard(env.get), page, env.tryForms, 2, u);
    TwoLevels(env.get, page, env.tryForms, u);
  }

  // ---------- What a call tries ----------

  /** `https`, or `http` on an allowed domain or one below it. */
  predicate SecureLink(env: Env, u: Url) {
    || (|u| >= 8 && Lower(u)[..8] == "https://")
    || (|u| >= 7 && Lower(u)[..7] == "http://"
        && exists r :: r in env.allowedHttp && (Lower(env.domainOf(u)) == r || EndsWith(Lower(env.domainOf(u)), "." + r)))
  }

  lemma SecureExactly(env: Env, u: Url)
    ensures IsSecure(env, u) <==> SecureLink(env, u)
  {
    assert "https://" <= Lower(u) <==> |u| >= 8 && Lower(u)[..8] == "https://";
    assert "http://" <= Lower(u) <==> |u| >= 7 && Lower(u)[..7] == "http://";
  }

  /** After the link itself come the PDF links of its page, in page order, each under a numbered name. */
  lemma AttemptsInOrder(env: Env, url: Url, page: Page, i: nat)
    requires SecureLink(env, Strip(url)) && env.response(Strip(url), 0).NotPdf? && env.html(Strip(url)) == Html(page)
    requires i < |page.pdfLinks|
    ensures var all := Attempts(env, url);
      && |all| > i + 1 && all[0] == Candidate(Strip(url), 0, env.directPath)
      && all[i + 1] == Candidate(page.pdfLinks[i], i + 1, env.pathOf(page.pdfLinks[i], i + 1))
  {
    SecureExactly(env, Strip(url));
    assert Attempts(env, url)[i + 1] == Candidates(env, page)[i];
  }

  /** Attempts are numbered as they come, so each may get an answer of its own. */
  lemma AttemptsNumbered(env: Env, url: Url, i: nat)
    requires i < |Attempts(env, url)|
    ensures Attempts(env, url)[i].attempt == i
  {
    var su := Strip(url);
    if i > 0 {
      var page := env.html(su).page;
      assert Attempts(env, url)[i] == Candidates(env, page)[i - 1];
    }
  }

  /** Exactly the URLs that are tried after the link itself. */
  lemma TriedExactly(env: Env, url: Url, u: Url)
    ensures (exists i :: 0 < i < |Attempts(env, url)| && Attempts(env, url)[i].url == u) <==>
      && SecureLink(env, Strip(url)) && env.response(Strip(url), 0).NotPdf? && env.html(Strip(url)).Html?
      && var page := env.html(Strip(url)).page;
         u in page.pdfLinks || (env.deepHtml && WithinOneHop(env.get, page, env.tryForms, u))
  {
    var su, all := Strip(url), Attempts(env, url);
    SecureExactly(env, su);
    if SecureLink(env, su) && env.response(su, 0).NotPdf? && env.html(su).Html? {
      var page := env.html(su).page;
      DeepLinksExactly(env, page, u);
      assert forall i :: 0 < i < |all| ==> all[i] == Candidates(env, page)[i - 1];
      if u in page.pdfLinks || u in DeepLinks(env, page) {
        var i := CandidateOf(env, page, u);
        assert all[i + 1].url == u;
      }
      if i :| 0 < i < |all| && all[i].url == u {
        CandidateIsOffered(env, page, i - 1);
      }
    } else {
      assert |all| <= 1;
    }
  }

  lemma CandidateIsOffered(env: Env, page: Page, i: nat)
    requires i < |Candidates(env, page)|
    ensures Candidates(env, page)[i].url in page.pdfLinks || Candidates(env, page)[i].url in DeepLinks(env, page)
  {
  }

  /**
   A secure link that is an HTML page and gives None, with the deep crawl on: everything on the page and
   everything one hop behind it was downloaded in vain.
   */
  lemma NothingMissed(env: Env, url: Url, page: Page, u: Url)
    requires SecureLink(env, Strip(url)) && env.response(Strip(url), 0).NotPdf? && env.html(Strip(url)) == Html(page)
    requires env.deepHtml && Fetched(env, url).None? && WithinOneHop(env.get, page, env.tryForms, u)
    ensures TriedInVain(env, url, u)
  {
    TriedExactly(env, url, u);
    var i :| 0 < i < |Attempts(env, url)| && Attempts(env, url)[i].url == u;
    assert !Accepts(env, Attempts(env, url)[i]);
  }

  /** An invoice that is there is found: a PDF behind a page behind the link, say. */
  lemma AcceptableIsFetched(env: Env, url: Url, page: Page, u: Url)
    requires SecureLink(env, Strip(url)) && env.response(Strip(url), 0).NotPdf? && env.html(Strip(url)) == Html(page)
    requires env.deepHtml && WithinOneHop(env.get, page, env.tryForms, u)
    requires forall n :: env.response(u, n) == env.response(u, 0)
    requires Accepts(env, Candidate(u, 0, env.directPath))
    ensures Fetched(env, url).Some?
  {
    if Fetched(env, url).None? {
      NothingMissed(env, url, page, u);
    }
  }

  /** A candidate whose URL says "invoice" is both tried and looked behind. */
  lemma InvoicePageExample(get: Url -> Option<Page>, p: Page, q: Page, v: Url, u: Url)
    requires v == "https://s.example/invoice" && p == Page([], [v], []) && get(v) == Some(q) && u in q.pdfLinks
    ensures OnPage(p, false, v) && WithinOneHop(get, p, false, u)
  {
    var start := "https://s.example/";
    assert v == start + "invoice";
    InvoiceEnds(start, v);
    assert IsBehind(get, p, q);
  }

  lemma InvoiceEnds(start: string, v: Url)
    requires v == start + "invoice"
    ensures HintText(v) && !PdfText(v)
  {
    LowerConcat(start, "invoice");
    assert Lower("invoice") == "invoice";
    ContainsBetween(Lower(start), "invoice", "");
    assert Lower(v) == Lower(start) + "invoice" + "";
    assert Lower(v)[|v| - 1] == 'e' && ".pdf"[3] == 'f';
    EndsWithParts("", ".pdf", Lower(v));
  }

  // ---------- The order of the crawl ----------

  /** PDF links and candidates of the page itself, tried before what lies behind them. */
  predicate InFront(p: Page, u: Url) {
    u in p.pdfLinks || (u in p.candidates && (PdfText(u) || HintText(u)))
  }

  predicate BeforeForms(get: Url -> Option<Page>, p: Page, tryForms: bool, depth: int, u: Url) {
    InFront(p, u) || u in Descend(Standard(get), p.candidates, tryForms, depth - 1)
  }

  /** In a crawl PDF links come first, then the page's own candidates, then what lies behind, then what only forms give. */
  lemma CrawlOrder(get: Url -> Option<Page>, p: Page, tryForms: bool, depth: int, i: nat, j: nat)
    ensures var r := CrawlPage(Standard(get), p, tryForms, depth);
      i < |r| && j < |r| ==>
        && (r[i] in p.pdfLinks && r[j] !in p.pdfLinks ==> i < j)
        && (InFront(p, r[i]) && !InFront(p, r[j]) ==> i < j)
        && (BeforeForms(get, p, tryForms, depth, r[i]) && !BeforeForms(get, p, tryForms, depth, r[j]) ==> i < j)
  {
    var web := Standard(get);
    var r := CrawlPage(web, p, tryForms, depth);
    if i < |r| && j < |r| && depth > 0 {
      var deeper := Descend(web, p.candidates, tryForms, depth - 1);
      CollectOrder(web, p, tryForms, deeper, i, j);
      assert r == Collect(web, p, tryForms, deeper);
      TextTests(get, p, p, false, r[i]);
      TextTests(get, p, p, false, r[j]);
      assert forall u :: Emits(web, p, false, u) <==> u in p.pdfLinks || u in DirectLike(web, p.candidates);
    }
  }

  lemma CollectOrder(web: Web, p: Page, tryForms: bool, deeper: seq<Url>, i: nat, j: nat)
    requires i < |Collect(web, p, tryForms, deeper)| && j < |Collect(web, p, tryForms, deeper)|
    ensures var r, front := Collect(web, p, tryForms, deeper), p.pdfLinks + DirectLike(web, p.candidates);
      && (r[i] in p.pdfLinks && r[j] !in p.pdfLinks ==> i < j)
      && (r[i] in front && r[j] !in front ==> i < j)
      && (r[i] in front + deeper && r[j] !in front + deeper ==> i < j)
  {
    var a, b, c := p.pdfLinks, DirectLike(web, p.candidates), FormResults(p, tryForms);
    var r := Collect(web, p, tryForms, deeper);
    assert a + b + deeper + c == a + (b + deeper + c) == (a + b) + (deeper + c);
    if r[i] in a && r[j] !in a {
      UniqueRanks(a, b + deeper + c, i, j);
    }
    if r[i] in a + b && r[j] !in a + b {
      UniqueRanks(a + b, deeper + c, i, j);
    }
    if r[i] in a + b + deeper && r[j] !in a + b + deeper {
      UniqueRanks(a + b + deeper, c, i, j);
    }
  }
}
