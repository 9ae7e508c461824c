/**
 archive/graph_invoice_finder.v3.7.4.py: `fetch_invoice_from_link` and its downloads, on the files of
 the invoice directory.

 The answer to each download attempt, the HTML page behind a link, the domain of a URL, the name each
 candidate is stored under, the PDF verdict and whether a file can be removed are inputs.
 */
module FetchLink {
  import opened Strings
  import opened Wrappers
  import opened Crawl
  import opened FileSystem
  import opened InvoiceText
  import Confidence

  type Files = map<Path, Content>

  /**
   A streamed GET: an HTTP error; something that is not a PDF; a body; or an exception, before the
   file was opened or after some bytes had been written.
   */
  datatype Response = HttpError | NotPdf | Body(bytes: Content) | Breaks(written: Option<Content>)

  datatype Why = Ok | WhyHttp | WhyNotPdf | TooSmall | Exc

  /** The second GET, for the HTML path: an error status, another content type, an exception, or a page. */
  datatype HtmlAnswer = HtmlError | NotHtml | HtmlRaises | Html(page: Page)

  /** `response(u, n)` answers the n-th download of a call: a URL tried twice may answer differently. */
  datatype Env = Env(response: (Url, nat) -> Response, html: Url -> HtmlAnswer, get: Url -> Option<Page>,
                     isInvoice: Content -> bool, removable: Path -> bool,
                     domainOf: Url -> string, allowedHttp: seq<string>,
                     directPath: Path, pathOf: (Url, nat) -> Path,
                     deepHtml: bool, tryForms: bool)

  const DEEP_LEVELS := 2

  /** What is downloaded, as which attempt of the call, and where to. */
  datatype Candidate = Candidate(url: Url, attempt: nat, path: Path)

  /** `https`, or `http` on an allowed domain. */
  predicate IsSecure(env: Env, u: Url) {
    Confidence.IsUsable(Confidence.Link(u, env.domainOf(u), ""), env.allowedHttp)
  }

  /** The link itself is attempt 0. */
  function Direct(env: Env, u: Url): Candidate {
    Candidate(u, 0, env.directPath)
  }

  /** `enumerate(links, start=1)` with the names derived from it; the first is attempt `first`. */
  function Enumerated(env: Env, links: seq<Url>, first: nat): (r: seq<Candidate>)
    ensures |r| == |links|
    ensures forall i :: 0 <= i < |links| ==> r[i] == Candidate(links[i], first + i, env.pathOf(links[i], i + 1))
  {
    seq(|links|, i requires 0 <= i < |links| => Candidate(links[i], first + i, env.pathOf(links[i], i + 1)))
  }

  function DeepLinks(env: Env, page: Page): seq<Url> {
    if env.deepHtml then CrawlPage(Standard(env.get), page, env.tryForms, DEEP_LEVELS) else []
  }

  /** PDF links of the page first, then what the deep crawl found. */
  function Candidates(env: Env, page: Page): seq<Candidate> {
    Enumerated(env, page.pdfLinks, 1) + Enumerated(env, DeepLinks(env, page), 1 + |page.pdfLinks|)
  }

  /** Downloads and verifies. */
  predicate Accepts(env: Env, c: Candidate) {
    var r := env.response(c.url, c.attempt);
    r.Body? && |r.bytes| >= MIN_PDF_SIZE && env.isInvoice(r.bytes)
  }

  predicate AnyAccepted(env: Env, cs: seq<Candidate>) {
    exists i :: 0 <= i < |cs| && Accepts(env, cs[i])
  }

  function FirstAccepted(env: Env, cs: seq<Candidate>): (k: nat)
    requires AnyAccepted(env, cs)
    ensures k < |cs| && Accepts(env, cs[k]) && forall j :: 0 <= j < k ==> !Accepts(env, cs[j])
  {
    if Accepts(env, cs[0]) then 0
    else
      var i :| 0 <= i < |cs| && Accepts(env, cs[i]);
      assert Accepts(env, cs[1..][i - 1]);
      1 + FirstAccepted(env, cs[1..])
  }

  /** A candidate that cannot leave a file behind when it is rejected. */
  predicate Tidy(env: Env, c: Candidate) {
    var r := env.response(c.url, c.attempt);
    env.removable(c.path) && !(r.Breaks? && r.written.Some?)
  }

  predicate AllTidy(env: Env, cs: seq<Candidate>) {
    forall i :: 0 <= i < |cs| ==> Tidy(env, cs[i])
  }

  function Paths(cs: seq<Candidate>): set<Path> {
    set c | c in cs :: c.path
  }

  /** Files outside `names` are as before. */
  ghost predicate OnlyTouches(before: Files, after: Files, names: set<Path>) {
    forall p :: p !in names ==> (p in after <==> p in before) && (p in after ==> after[p] == before[p])
  }

  /** No file is new or changed, except possibly those in `but`. */
  ghost predicate NothingNew(before: Files, after: Files, but: set<Path>) {
    forall p :: p in after && p !in but ==> p in before && after[p] == before[p]
  }

  class InvoiceDir {
    var files: Files

    constructor (f: Files)
      ensures files == f
    {
      files := f;
    }

    /** `os.remove` under `except: pass` */
    method TryRemove(env: Env, p: Path)
      modifies this
      ensures files == if env.removable(p) then old(files) - {p} else old(files)
    {
      if env.removable(p) {
        files := files - {p};
      }
    }

    method DownloadPdf(env: Env, c: Candidate) returns (ok: bool, why: Why)
      modifies this
      ensures var r := env.response(c.url, c.attempt);
        && (ok <==> r.Body? && |r.bytes| >= MIN_PDF_SIZE)
        && (ok ==> files == old(files)[c.path := r.bytes])
        && (why.WhyNotPdf? <==> r.NotPdf?)
      ensures why.Ok? <==> ok
      ensures OnlyTouches(old(files), files, {c.path})
      ensures !ok && Tidy(env, c) ==> NothingNew(old(files), files, {})
    {
      match env.response(c.url, c.attempt)
      case HttpError => return false, WhyHttp;
      case NotPdf => return false, WhyNotPdf;
      case Breaks(written) =>
        if written.Some? {
          files := files[c.path := written.value];
        }
        return false, Exc;
      case Body(bytes) =>
        files := files[c.path := bytes];
        if |bytes| < MIN_PDF_SIZE {
          TryRemove(env, c.path);
          return false, TooSmall;
        }
        return true, Ok;
    }

    /** Download, verify, and drop the file again if it is no invoice. */
    method TryCandidate(env: Env, c: Candidate) returns (ok: bool, why: Why)
      modifies this
      ensures ok <==> Accepts(env, c)
      ensures ok ==> c.path in files && files[c.path] == env.response(c.url, c.attempt).bytes
      ensures OnlyTouches(old(files), files, {c.path})
      ensures !ok && Tidy(env, c) ==> NothingNew(old(files), files, {})
      ensures why.WhyNotPdf? <==> env.response(c.url, c.attempt).NotPdf?
    {
      ok, why := DownloadPdf(env, c);
      if ok {
        if env.isInvoice(files[c.path]) {
          return;
        }
        ok := false;
        TryRemove(env, c.path);
      }
    }

    /** The candidate loops of the HTML path. */
    method TryAll(env: Env, cs: seq<Candidate>) returns (r: Option<Path>)
      modifies this
      ensures r.Some? <==> AnyAccepted(env, cs)
      ensures r.Some? ==> var c := cs[FirstAccepted(env, cs)];
        r.value == c.path && c.path in files && files[c.path] == env.response(c.url, c.attempt).bytes
      ensures OnlyTouches(old(files), files, Paths(cs))
      ensures AllTidy(env, cs) ==> NothingNew(old(files), files, if r.Some? then {r.value} else {})
    {
      for i := 0 to |cs|
        invariant forall j :: 0 <= j < i ==> !Accepts(env, cs[j])
        invariant OnlyTouches(old(files), files, Paths(cs))
        invariant AllTidy(env, cs) ==> NothingNew(old(files), files, {})
      {
        var ok, why := TryCandidate(env, cs[i]);
        assert cs[i].path in Paths(cs);
        if ok {
          assert FirstAccepted(env, cs) == i;
          return Some(cs[i].path);
        }
      }
      r := None;
    }

    /** The HTML path of a link that is no PDF. */
    method TryHtml(env: Env, u: Url) returns (r: Option<Path>)
      requires env.response(u, 0).NotPdf?
      modifies this
      ensures r.Some? <==> AnyAccepted(env, Tried(env, u))
      ensures r.Some? ==> var c := Tried(env, u)[FirstAccepted(env, Tried(env, u))];
        r.value == c.path && c.path in files && files[c.path] == env.response(c.url, c.attempt).bytes
      ensures OnlyTouches(old(files), files, Paths(Tried(env, u)))
      ensures AllTidy(env, Tried(env, u)) ==> NothingNew(old(files), files, if r.Some? then {r.value} else {})
    {
      match env.html(u)
      case HtmlError => return None;
      case NotHtml => return None;
      case HtmlRaises => return None;
      case Html(page) =>
        var pdfLinks, deep := page.pdfLinks, [];
        if env.deepHtml {
          deep := CrawlHtmlForPdf(Standard(env.get), page, env.tryForms, DEEP_LEVELS);
        }
        r := TryAll(env, Enumerated(env, pdfLinks, 1) + Enumerated(env, deep, 1 + |pdfLinks|));
    }

    /** Behind the scheme test: the direct download, and the HTML path only if the link is no PDF. */
    method FetchSecure(env: Env, u: Url) returns (r: Option<Path>)
      modifies this
      ensures r.Some? <==> Accepts(env, Direct(env, u)) || AnyAccepted(env, Tried(env, u))
      ensures r.Some? ==> var c := Winner(env, u);
        r.value == c.path && c.path in files && files[c.path] == env.response(c.url, c.attempt).bytes
      ensures OnlyTouches(old(files), files, {env.directPath} + Paths(Tried(env, u)))
      ensures Tidy(env, Direct(env, u)) && AllTidy(env, Tried(env, u)) ==>
        NothingNew(old(files), files, if r.Some? then {r.value} else {})
    {
      var ok, why := TryCandidate(env, Direct(env, u));
      if ok {
        return Some(env.directPath);
      }
      if !why.WhyNotPdf? {
        return None;
      }
      r := TryHtml(env, u);
    }

    /**
     The whole of it. An insecure link is not tried at all. The direct PDF wins if it downloads and
     verifies; otherwise only a link that is no PDF at all goes on to its HTML page, where the first
     acceptable candidate wins, in the order PDF links, then deep links. When nothing breaks off and
     files can be removed, a None result leaves no file of this call, and a result leaves only its own.
     */
    method FetchInvoice(env: Env, url: Url) returns (r: Option<Path>)
      modifies this
      ensures r == Fetched(env, url)
      ensures r.Some? ==> r.value in files && files[r.value] == FetchedBytes(env, url)
      ensures OnlyTouches(old(files), files, Paths(Attempts(env, url)))
      ensures AllTidy(env, Attempts(env, url)) ==>
        NothingNew(old(files), files, if r.Some? then {r.value} else {})
    {
      var u := Strip(url);
      var isHttps := "https://" <= Lower(u);
      if !isHttps && !("http://" <= Lower(u) && Confidence.IsHttpAllowed(env.domainOf(u), env.allowedHttp)) {
        return None;
      }
      AttemptsOf(env, url);
      r := FetchSecure(env, u);
    }
  }

  /** The candidates of the HTML page, if the call gets to them. */
  function Tried(env: Env, u: Url): seq<Candidate> {
    if env.response(u, 0).NotPdf? && env.html(u).Html? then Candidates(env, env.html(u).page) else []
  }

  /** All downloads a call may attempt, in order. */
  function Attempts(env: Env, url: Url): seq<Candidate> {
    var u := Strip(url);
    if IsSecure(env, u) then [Direct(env, u)] + Tried(env, u) else []
  }

  function Winner(env: Env, u: Url): Candidate
    requires Accepts(env, Direct(env, u)) || AnyAccepted(env, Tried(env, u))
  {
    if Accepts(env, Direct(env, u)) then Direct(env, u) else Tried(env, u)[FirstAccepted(env, Tried(env, u))]
  }

  lemma AttemptsOf(env: Env, url: Url)
    requires IsSecure(env, Strip(url))
    ensures var u, cs := Strip(url), Attempts(env, url);
      && (AnyAccepted(env, cs) <==> Accepts(env, Direct(env, u)) || AnyAccepted(env, Tried(env, u)))
      && (AnyAccepted(env, cs) ==> cs[FirstAccepted(env, cs)] == Winner(env, u))
      && Paths(cs) == {env.directPath} + Paths(Tried(env, u))
      && (AllTidy(env, cs) <==> Tidy(env, Direct(env, u)) && AllTidy(env, Tried(env, u)))
  {
    FirstOfTwo(env, Direct(env, Strip(url)), Tried(env, Strip(url)));
  }

  /** The result is the first acceptable attempt. */
  function Fetched(env: Env, url: Url): Option<Path> {
    var cs := Attempts(env, url);
    if AnyAccepted(env, cs) then Some(cs[FirstAccepted(env, cs)].path) else None
  }

  function FetchedBytes(env: Env, url: Url): Content
    requires Fetched(env, url).Some?
  {
    var c := Attempts(env, url)[FirstAccepted(env, Attempts(env, url))];
    env.response(c.url, c.attempt).bytes
  }

  lemma FirstOfTwo(env: Env, c: Candidate, cs: seq<Candidate>)
    ensures AnyAccepted(env, [c] + cs) <==> Accepts(env, c) || AnyAccepted(env, cs)
    ensures AnyAccepted(env, [c] + cs) ==>
      FirstAccepted(env, [c] + cs) == if Accepts(env, c) then 0 else 1 + FirstAccepted(env, cs)
    ensures Paths([c] + cs) == {c.path} + Paths(cs)
    ensures AllTidy(env, [c] + cs) <==> Tidy(env, c) && AllTidy(env, cs)
  {
    var all := [c] + cs;
    assert all[1..] == cs && all[0] == c;
    assert forall i :: 0 < i < |all| ==> all[i] == cs[i - 1];
    assert forall i :: 0 <= i < |cs| ==> cs[i] == all[i + 1];
    if i :| 0 <= i < |cs| && Accepts(env, cs[i]) {
      assert Accepts(env, all[i + 1]);
    }
  }

  // ---------- What a result means, and what None means ----------

  /** The bytes as a file, with the pages two readers make of them. */
  function FileOf(read: Content -> (Engine, Engine), bytes: Content): PdfFile {
    PdfFile(|bytes|, read(bytes).0, read(bytes).1)
  }

  /** The environment whose PDF verdict is `verify_pdf_is_invoice`. */
  function Judging(env: Env, read: Content -> (Engine, Engine), threshold: int): Env {
    env.(isInvoice := (b: Content) => VerifyPdf(Some(FileOf(read, b)), threshold))
  }

  predicate HasRoot(f: PdfFile) {
    exists k :: k in STRICT_ROOTS && SomeContains(LowerAll(JudgedPages(f)), k)
  }

  /** At the strict threshold an attempt is accepted iff a body large enough arrives with one of the four words in it. */
  lemma AcceptsExactly(env: Env, read: Content -> (Engine, Engine), threshold: int, c: Candidate)
    requires 45 <= threshold <= 52
    ensures var r := env.response(c.url, c.attempt);
      Accepts(Judging(env, read, threshold), c) <==>
        r.Body? && |r.bytes| >= MIN_PDF_SIZE && HasRoot(FileOf(read, r.bytes))
  {
    var r := env.response(c.url, c.attempt);
    if r.Body? {
      StrictVerdictOnFile(Some(FileOf(read, r.bytes)), threshold);
    }
  }

  /** So every fetched file has at least 6000 bytes and one of the four words on the pages looked at. */
  lemma FetchedIsInvoice(env: Env, read: Content -> (Engine, Engine), threshold: int, url: Url)
    requires 45 <= threshold <= 52 && Fetched(Judging(env, read, threshold), url).Some?
    ensures var bytes := FetchedBytes(Judging(env, read, threshold), url);
      |bytes| >= MIN_PDF_SIZE && HasRoot(FileOf(read, bytes))
  {
    var e := Judging(env, read, threshold);
    var c := Attempts(e, url)[FirstAccepted(e, Attempts(e, url))];
    AcceptsExactly(env, read, threshold, c);
  }

  /** Some attempt of the call downloads u, and is rejected. */
  predicate TriedInVain(env: Env, url: Url, u: Url) {
    exists i :: 0 <= i < |Attempts(env, url)| && Attempts(env, url)[i].url == u && !Accepts(env, Attempts(env, url)[i])
  }

  /**
   None means there was nothing to find: a secure link was tried in vain, and if it is a readable page, so
   was every PDF link on it and every URL emitted by a page less than two hops away.
   */
  lemma NoneMeansNothingThere(env: Env, url: Url)
    requires Fetched(env, url).None? && IsSecure(env, Strip(url))
    ensures TriedInVain(env, url, Strip(url))
    ensures env.response(Strip(url), 0).NotPdf? && env.html(Strip(url)).Html? ==>
      var page := env.html(Strip(url)).page;
      && (forall u :: u in page.pdfLinks ==> TriedInVain(env, url, u))
      && (env.deepHtml ==> forall u, route ::
            IsRoute(Standard(env.get), page, env.tryForms, DEEP_LEVELS, u, route) ==> TriedInVain(env, url, u))
  {
    var su := Strip(url);
    assert Attempts(env, url)[0].url == su;
    if env.response(su, 0).NotPdf? && env.html(su).Html? {
      var page := env.html(su).page;
      forall u | u in page.pdfLinks || u in DeepLinks(env, page) ensures TriedInVain(env, url, u) {
        EveryCandidateTried(env, url, page, u);
      }
      if env.deepHtml {
        forall u, route | IsRoute(Standard(env.get), page, env.tryForms, DEEP_LEVELS, u, route)
          ensures TriedInVain(env, url, u)
        {
          CrawlExact(Standard(env.get), page, env.tryForms, DEEP_LEVELS, u);
        }
      }
    }
  }

  lemma EveryCandidateTried(env: Env, url: Url, page: Page, u: Url)
    requires Fetched(env, url).None? && IsSecure(env, Strip(url))
    requires env.response(Strip(url), 0).NotPdf? && env.html(Strip(url)) == Html(page)
    requires u in page.pdfLinks || u in DeepLinks(env, page)
    ensures TriedInVain(env, url, u)
  {
    var i := CandidateOf(env, page, u);
    assert Attempts(env, url)[i + 1] == Candidates(env, page)[i];
  }

  lemma CandidateOf(env: Env, page: Page, u: Url) returns (i: nat)
    requires u in page.pdfLinks || u in DeepLinks(env, page)
    ensures i < |Candidates(env, page)| && Candidates(env, page)[i].url == u
  {
    if u in page.pdfLinks {
      i :| 0 <= i < |page.pdfLinks| && page.pdfLinks[i] == u;
    } else {
      var deep := DeepLinks(env, page);
      var j :| 0 <= j < |deep| && deep[j] == u;
      i := |page.pdfLinks| + j;
    }
  }
}
