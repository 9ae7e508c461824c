/**
 archive/graph_invoice_finder.v3.7.4.py: how sure the finder is that a message carries an invoice.

 Scores are integer hundredths: every constant is a whole number of them, so `round(x, 3)` is the
 identity. URL parsing and regular expressions are inputs: a link carries its parsed domain and path,
 and `Patterns` holds the two regex tests and the word-character test behind `\b`.
 */
module Confidence {
  import opened Strings
  import opened InvoiceText

  function Max(a: int, b: int): int {
    if a >= b then a else b
  }

  /** `min(1.0, max(0.0, x))` */
  function Clamp(x: int): int {
    Min(100, Max(0, x))
  }

  // ---------- Links ----------

  datatype Link = Link(url: string, dom: string, path: string)

  const URL_KEYWORDS: seq<string> := ["invoice", "receipt", "statement", "bill", "חשבונית", "קבלה", "תשלום",
                                      "payment", "download", "voucher", "shovar", "ארנונה"]
  const PATH_PATTERNS: seq<string> := ["invoice", "receipt", "billing", "payments", "download", "documents",
                                       "חשבונית", "קבלה", "תשלום", "voucher", "ארנונה"]
  const FILE_SUFFIX := ".pdf"
  const TRACKING_DOMAINS: seq<string> := ["webversion.net", "web-view.net", "mandrillapp.com", "s4.exct.net"]
  const TRACKING_PREFIXES: seq<string> := ["click.", "image.", "view.", "trailer."]

  predicate UnderRoot(dom: string, root: string) {
    dom == root || EndsWith(dom, "." + root)
  }

  predicate IsTrustedDomain(dom: string, trusted: seq<string>) {
    exists r :: r in trusted && UnderRoot(Lower(dom), Lower(r))
  }

  predicate IsHttpAllowed(dom: string, allowed: seq<string>) {
    exists r :: r in allowed && UnderRoot(Lower(dom), r)
  }

  predicate IsTrackingDomain(dom: string) {
    dom in TRACKING_DOMAINS || exists p :: p in TRACKING_PREFIXES && p <= dom
  }

  predicate IsUsable(l: Link, allowed: seq<string>) {
    "https://" <= Lower(l.url) || ("http://" <= Lower(l.url) && IsHttpAllowed(l.dom, allowed))
  }

  predicate HasKeyword(l: Link) {
    ContainsAny(Lower(l.url), URL_KEYWORDS) || ContainsAny(Lower(l.path), PATH_PATTERNS)
  }

  predicate HasSuffix(l: Link) {
    EndsWith(Lower(l.url), FILE_SUFFIX) || Contains(Lower(l.url), "?" + FILE_SUFFIX)
  }

  predicate IsKept(l: Link, trusted: seq<string>, allowed: seq<string>) {
    IsUsable(l, allowed) && (IsTrustedDomain(l.dom, trusted) || HasKeyword(l) || HasSuffix(l))
  }

  predicate AnyTrusted(links: seq<Link>, trusted: seq<string>, allowed: seq<string>) {
    exists l :: l in links && IsUsable(l, allowed) && IsTrustedDomain(l.dom, trusted)
  }

  predicate AnySuffix(links: seq<Link>, allowed: seq<string>) {
    exists l :: l in links && IsUsable(l, allowed) && HasSuffix(l)
  }

  predicate AnyKeyword(links: seq<Link>, allowed: seq<string>) {
    exists l :: l in links && IsUsable(l, allowed) && HasKeyword(l)
  }

  /** The link score depends only on which of three facts hold of some usable link. */
  function LinkScore(links: seq<Link>, trusted: seq<string>, allowed: seq<string>): int {
    Min((if AnyTrusted(links, trusted, allowed) then 40 else 0)
        + (if AnySuffix(links, allowed) then 25 else 0)
        + (if AnyKeyword(links, allowed) then 15 else 0), 70)
  }

  /** The URLs of the kept links, in body order. */
  function KeptUrls(links: seq<Link>, trusted: seq<string>, allowed: seq<string>): (r: seq<string>)
    ensures forall u :: u in r <==> exists l :: l in links && l.url == u && IsKept(l, trusted, allowed)
  {
    if links == [] then []
    else
      var init, l := links[..|links| - 1], links[|links| - 1];
      assert links == init + [l];
      KeptUrls(init, trusted, allowed) + if IsKept(l, trusted, allowed) then [l.url] else []
  }

  /**
   `score_links`, tracking test included. Its contract speaks of no tracking domain: whatever that
   test says, the kept links and the score are the same, because it only skips what is dropped anyway.
   */
  method ScoreLinks(links: seq<Link>, trusted: seq<string>, allowed: seq<string>) returns (kept: seq<string>, score: int)
    ensures kept == Unique(KeptUrls(links, trusted, allowed))
    ensures NoRepeats(kept)
    ensures forall u :: u in kept <==> exists l :: l in links && l.url == u && IsKept(l, trusted, allowed)
    ensures score == LinkScore(links, trusted, allowed)
  {
    var all: seq<string> := [];
    var anyTrust, anyKwOrPat, anySuf := false, false, false;
    for i := 0 to |links|
      invariant all == KeptUrls(links[..i], trusted, allowed)
      invariant anyTrust == AnyTrusted(links[..i], trusted, allowed)
      invariant anyKwOrPat == AnyKeyword(links[..i], allowed)
      invariant anySuf == AnySuffix(links[..i], allowed)
    {
      var l := links[i];
      ghost var before := links[..i];
      assert links[..i + 1] == before + [l] && links[..i + 1][..i] == before;
      assert forall x :: x in links[..i + 1] <==> x in before || x == l;
      var uLow := Lower(l.url);
      var isHttps := "https://" <= uLow;
      if !isHttps && !("http://" <= uLow && IsHttpAllowed(l.dom, allowed)) {
        continue;
      }
      var domTrust := IsTrustedDomain(l.dom, trusted);
      var tracky := IsTrackingDomain(l.dom);
      var hasKwOrPat, hasSuf := HasKeyword(l), HasSuffix(l);
      if tracky && !(domTrust || hasKwOrPat || hasSuf) {
        continue;
      }
      if domTrust || hasKwOrPat || hasSuf {
        all := all + [l.url];
        anyTrust := anyTrust || domTrust;
        anyKwOrPat := anyKwOrPat || hasKwOrPat;
        anySuf := anySuf || hasSuf;
      }
    }
    assert links[..|links|] == links;
    score := 0;
    if anyTrust {
      score := score + 40;
    }
    if anySuf {
      score := score + 25;
    }
    if anyKwOrPat {
      score := score + 15;
    }
    kept, score := Unique(all), Min(score, 70);
  }

  /** Adding, reordering or repeating links never lowers the link score. */
  lemma MoreLinksScoreMore(a: seq<Link>, b: seq<Link>, trusted: seq<string>, allowed: seq<string>)
    requires forall l :: l in a ==> l in b
    ensures LinkScore(a, trusted, allowed) <= LinkScore(b, trusted, allowed)
  {
  }

  // ---------- Sender rules ----------

  function FromAt(s: string): string {
    if s == "" then "" else if s[0] == '@' then s[1..] else FromAt(s[1..])
  }

  /** What one rule adds for a lower-cased sender address. */
  function RuleDelta(rule: string, email: string): int {
    var r := Strip(rule);
    if r == "" then 0
    else
      var sign := if r[0] == '+' then 1 else -1;
      var token := Lower(r[1..]);
      if token != "" && token[0] == '@' && Lower(FromAt(email)) == token[1..] then 20 * sign
      else if token == email then 25 * sign
      else 0
  }

  function SenderDelta(rules: seq<string>, email: string): int {
    if rules == [] then 0 else SenderDelta(rules[..|rules| - 1], email) + RuleDelta(rules[|rules| - 1], email)
  }

  method ApplySenderBoost(base: int, email: string, rules: seq<string>) returns (conf: int)
    ensures conf == if rules == [] then base else Clamp(base + SenderDelta(rules, email))
  {
    if rules == [] {
      return base;
    }
    var dom := Lower(FromAt(email));
    var delta := 0;
    for i := 0 to |rules|
      invariant delta == SenderDelta(rules[..i], email)
    {
      assert rules[..i + 1][..i] == rules[..i];
      var rule := Strip(rules[i]);
      if rule == "" {
        continue;
      }
      var sign := if rule[0] == '+' then 1 else -1;
      var token := Lower(rule[1..]);
      if token != "" && token[0] == '@' && dom == token[1..] {
        delta := delta + 20 * sign;
      } else if token == email {
        delta := delta + 25 * sign;
      }
    }
    assert rules[..|rules|] == rules;
    conf := Clamp(base + delta);
  }

  // ---------- The pipeline ----------

  /** The ten things that are added up, in hundredths. */
  datatype Summands = Summands(lang: int, link: int, attach: int, strong: int, donation: int, muni: int,
                               notice: int, sender: int, negative: int, regex: int)

  function BaseConfidence(s: Summands): int {
    Min(100, s.lang + s.link + s.attach)
  }

  function AfterBonuses(s: Summands): int {
    Clamp(Min(100, BaseConfidence(s) + s.strong + s.donation + s.muni) + s.notice)
  }

  function Pipeline(s: Summands): int {
    Clamp(Clamp(Clamp(AfterBonuses(s) + s.sender) + s.negative) + s.regex)
  }

  predicate AtMost(a: Summands, b: Summands) {
    a.lang <= b.lang && a.link <= b.link && a.attach <= b.attach && a.strong <= b.strong
    && a.donation <= b.donation && a.muni <= b.muni && a.notice <= b.notice && a.sender <= b.sender
    && a.negative <= b.negative && a.regex <= b.regex
  }

  /** The result is a confidence and grows with every summand. */
  lemma PipelineMonotone(a: Summands, b: Summands)
    ensures 0 <= Pipeline(a) <= 100
    ensures AtMost(a, b) ==> Pipeline(a) <= Pipeline(b)
  {
    assert AtMost(a, b) ==> AfterBonuses(a) <= AfterBonuses(b);
  }

  function Total(s: Summands): int {
    s.lang + s.link + s.attach + s.strong + s.donation + s.muni + s.notice + s.sender + s.negative + s.regex
  }

  lemma ClampSlope(x: int, y: int)
    requires x <= y
    ensures 0 <= Clamp(y) - Clamp(x) <= y - x
  {
  }

  lemma MinSlope(x: int, y: int)
    requires x <= y
    ensures 0 <= Min(100, y) - Min(100, x) <= y - x
  {
  }

  lemma BonusesSlope(a: Summands, b: Summands)
    requires AtMost(a, b)
    ensures 0 <= AfterBonuses(b) - AfterBonuses(a) <=
      Total(b) - Total(a) - (b.sender - a.sender) - (b.negative - a.negative) - (b.regex - a.regex)
  {
    var a0, b0 := BaseConfidence(a) + a.strong + a.donation + a.muni, BaseConfidence(b) + b.strong + b.donation + b.muni;
    MinSlope(a.lang + a.link + a.attach, b.lang + b.link + b.attach);
    MinSlope(a0, b0);
    ClampSlope(Min(100, a0) + a.notice, Min(100, b0) + b.notice);
  }

  /** Raising summands raises the confidence by no more than they were raised. */
  lemma PipelineSlope(a: Summands, b: Summands)
    requires AtMost(a, b)
    ensures 0 <= Pipeline(b) - Pipeline(a) <= Total(b) - Total(a)
  {
    BonusesSlope(a, b);
    var a1, b1 := Clamp(AfterBonuses(a) + a.sender), Clamp(AfterBonuses(b) + b.sender);
    var a2, b2 := Clamp(a1 + a.negative), Clamp(b1 + b.negative);
    ClampSlope(AfterBonuses(a) + a.sender, AfterBonuses(b) + b.sender);
    ClampSlope(a1 + a.negative, b1 + b.negative);
    ClampSlope(a2 + a.regex, b2 + b.regex);
  }

  function Join(a: Summands, b: Summands): Summands {
    Summands(Max(a.lang, b.lang), Max(a.link, b.link), Max(a.attach, b.attach), Max(a.strong, b.strong),
             Max(a.donation, b.donation), Max(a.muni, b.muni), Max(a.notice, b.notice), Max(a.sender, b.sender),
             Max(a.negative, b.negative), Max(a.regex, b.regex))
  }

  lemma JoinIsAbove(a: Summands, b: Summands)
    ensures AtMost(a, Join(a, b)) && AtMost(b, Join(a, b))
  {
  }

  /**
   Non-expansive through all the intermediate clamps: one message outscores another by at most the
   sum of the amounts by which its summands exceed the other's.
   */
  lemma PipelineNonExpansive(a: Summands, b: Summands)
    ensures Pipeline(a) - Pipeline(b) <= Total(Join(a, b)) - Total(b)
  {
    JoinIsAbove(a, b);
    PipelineMonotone(a, Join(a, b));
    PipelineSlope(b, Join(a, b));
  }

  // ---------- From a message to its summands ----------

  datatype Attachment = Attachment(name: string, contentType: string)

  datatype Email = Email(subject: string, preview: string, bodyText: string, fromAddress: string,
                         links: seq<Link>, hits: seq<Attachment>)

  datatype Settings = Settings(trusted: seq<string>, allowedHttp: seq<string>, senderRules: seq<string>,
                               negatives: seq<string>)

  /** `ATT_NOTICE_RE`, the user's subject regexes, and the characters `\b` takes for part of a word. */
  datatype Patterns = Patterns(isNotice: string -> bool, subjectRegexes: seq<string -> bool>, isWordChar: char -> bool)

  const DONATION_TOKENS: seq<string> := ["תרומה", "עמותה", "מלכ\"ר", "ע\"ר"]
  const MUNICIPAL: seq<string> := ["ארנונה", "שובר תשלום", "עיריית", "עיריה", "עירייה", "רשות מקומית",
                                   "תאגיד מים", "ביוב", "אגרת", "היטל"]

  function Blob(m: Email): string {
    Lower(m.subject + "\n" + m.preview + "\n" + m.bodyText)
  }

  function LanguageConfidence(m: Email): int {
    Min(HebrewHits(Blob(m)) * 6 + EnglishHits(Blob(m)) * 5, 80)
  }

  /** `\bword\b` */
  predicate HasWord(s: string, word: string, isWordChar: char -> bool) {
    exists i :: 0 <= i <= |s| - |word| && OccursAt(s, word, i)
      && (i == 0 || !isWordChar(s[i - 1])) && (i + |word| == |s| || !isWordChar(s[i + |word|]))
  }

  predicate IsStrongSubject(subject: string, isWordChar: char -> bool) {
    var s := Lower(subject);
    Contains(s, "חשבונית") || Contains(s, "קבלה") || HasWord(s, "invoice", isWordChar) || HasWord(s, "receipt", isWordChar)
  }

  predicate IsDonation(subject: string) {
    Contains(Lower(subject), "קבלה") && ContainsAny(Lower(subject), DONATION_TOKENS)
  }

  predicate IsNumberedPdf(name: string) {
    |name| >= 10 && EndsWith(name, ".pdf") && forall i :: 0 <= i < |name| - 4 ==> '0' <= name[i] <= '9'
  }

  predicate HasMunicipalBill(m: Email) {
    CountHits(Lower(m.subject), MUNICIPAL) > 0
    && exists a :: a in m.hits && Lower(a.contentType) == "application/pdf" && IsNumberedPdf(Lower(a.name))
  }

  predicate HasNotice(m: Email, p: Patterns) {
    exists a :: a in m.hits && p.isNotice(a.name)
  }

  /** The negative keywords found; blank ones never count. */
  function NegativeHits(blob: string, negatives: seq<string>): nat {
    if negatives == [] then 0
    else (if Strip(negatives[0]) != "" && Contains(blob, Lower(negatives[0])) then 1 else 0)
         + NegativeHits(blob, negatives[1..])
  }

  function SummandsOf(m: Email, c: Settings, p: Patterns): Summands {
    Summands(LanguageConfidence(m),
             LinkScore(m.links, c.trusted, c.allowedHttp),
             AttachmentBonus(m.hits),
             SubjectStrongBonus(m.subject, p.isWordChar),
             DonationBonus(m.subject), MunicipalBonus(m), NoticePenalty(m, p),
             SenderDelta(c.senderRules, Lower(m.fromAddress)),
             -8 * NegativeHits(Blob(m), c.negatives),
             RegexBonus(m.subject, p.subjectRegexes))
  }

  /** The scoring steps of `main`, in their order. */
  method Score(m: Email, c: Settings, p: Patterns) returns (kept: seq<string>, conf: int)
    ensures conf == Pipeline(SummandsOf(m, c, p))
    ensures kept == Unique(KeptUrls(m.links, c.trusted, c.allowedHttp))
    ensures forall u :: u in kept <==> exists l :: l in m.links && l.url == u && IsKept(l, c.trusted, c.allowedHttp)
  {
    var linkScore;
    kept, linkScore := ScoreLinks(m.links, c.trusted, c.allowedHttp);
    conf := Combine(LanguageConfidence(m), linkScore, m.hits,
                    SubjectStrongBonus(m.subject, p.isWordChar), DonationBonus(m.subject), MunicipalBonus(m),
                    NoticePenalty(m, p), Lower(m.fromAddress), c.senderRules, Blob(m), c.negatives,
                    m.subject, p.subjectRegexes);
  }

  method Combine(lang: int, link: int, hits: seq<Attachment>, strong: int, donation: int, muni: int, notice: int,
                 email: string, rules: seq<string>, blob: string, negatives: seq<string>,
                 subject: string, regexes: seq<string -> bool>) returns (conf: int)
    ensures conf == Pipeline(Summands(lang, link, AttachmentBonus(hits), strong, donation, muni, notice,
                                      SenderDelta(rules, email), -8 * NegativeHits(blob, negatives),
                                      RegexBonus(subject, regexes)))
  {
    conf := BuildRow(lang, link, hits);
    conf := AddBonuses(conf, strong, donation, muni, notice);
    conf := ApplySenderBoost(conf, email, rules);
    conf := ApplyNegativeKeywords(conf, blob, negatives);
    conf := ApplySubjectRegexBoost(conf, subject, regexes);
  }

  function AttachmentBonus(hits: seq<Attachment>): int {
    if hits != [] then 25 else 0
  }

  predicate SomeMatches(subject: string, regexes: seq<string -> bool>) {
    exists i :: 0 <= i < |regexes| && regexes[i](subject)
  }

  function RegexBonus(subject: string, regexes: seq<string -> bool>): int {
    if SomeMatches(subject, regexes) then 20 else 0
  }

  /** The bonuses and the notice penalty, with the two clamps between them. */
  method AddBonuses(base: int, strong: int, donation: int, muni: int, notice: int) returns (conf: int)
    ensures conf == Clamp(Min(100, base + strong + donation + muni) + notice)
  {
    conf := base + strong;
    conf := conf + donation;
    conf := Min(100, conf + muni);
    conf := Clamp(conf + notice);
  }

  function DonationBonus(subject: string): int {
    if IsDonation(subject) then 20 else 0
  }

  function MunicipalBonus(m: Email): int {
    if HasMunicipalBill(m) then 18 else 0
  }

  function NoticePenalty(m: Email, p: Patterns): int {
    if HasNotice(m, p) then -25 else 0
  }

  /** The confidence part of `build_row`. */
  method BuildRow(lang: int, link: int, hits: seq<Attachment>) returns (conf: int)
    ensures conf <= 100 && conf <= lang + link + AttachmentBonus(hits)
    ensures conf < lang + link + AttachmentBonus(hits) ==> conf == 100
  {
    conf := Min(100, lang + link + if hits != [] then 25 else 0);
  }

  function SubjectStrongBonus(subject: string, isWordChar: char -> bool): int {
    if IsStrongSubject(subject, isWordChar) then 35 else 0
  }

  /** conf is the confidence nearest to x. */
  predicate IsNearest(conf: int, x: int) {
    0 <= conf <= 100 && (conf < x ==> conf == 100) && (conf > x ==> conf == 0)
  }

  /** An empty list leaves even an out-of-range value alone; in range it is no different from a list without hits. */
  method ApplyNegativeKeywords(base: int, blob: string, negatives: seq<string>) returns (conf: int)
    ensures negatives == [] ==> conf == base
    ensures negatives != [] || 0 <= base <= 100 ==> IsNearest(conf, base - 8 * NegativeHits(blob, negatives))
    ensures 0 <= base <= 100 ==> base - 8 * NegativeHits(blob, negatives) <= conf <= base
  {
    if negatives == [] {
      return base;
    }
    var hits := NegativeHits(blob, negatives);
    conf := Clamp(base - 8 * hits);
  }

  method ApplySubjectRegexBoost(base: int, subject: string, regexes: seq<string -> bool>) returns (conf: int)
    ensures regexes == [] ==> conf == base
    ensures regexes != [] || 0 <= base <= 100 ==> IsNearest(conf, base + RegexBonus(subject, regexes))
    ensures 0 <= base <= 100 ==> base <= conf <= base + 20
  {
    if regexes == [] {
      return base;
    }
    var delta := if SomeMatches(subject, regexes) then 20 else 0;
    conf := Clamp(base + delta);
  }

  // ---------- What the pipeline promises about messages ----------

  /** Adding, reordering or repeating the links of a body never lowers its confidence. */
  lemma MoreLinksNeverHurt(m: Email, links: seq<Link>, c: Settings, p: Patterns)
    requires forall l :: l in m.links ==> l in links
    ensures Pipeline(SummandsOf(m, c, p)) <= Pipeline(SummandsOf(m.(links := links), c, p))
  {
    var m' := m.(links := links);
    MoreLinksScoreMore(m.links, links, c.trusted, c.allowedHttp);
    assert Blob(m') == Blob(m) && HasMunicipalBill(m') == HasMunicipalBill(m) && HasNotice(m', p) == HasNotice(m, p);
    PipelineMonotone(SummandsOf(m, c, p), SummandsOf(m', c, p));
  }

  /** More attachments never lower a confidence, unless they bring the first notice; and add at most 0.43. */
  lemma MoreAttachmentsNeverHurt(m: Email, hits: seq<Attachment>, c: Settings, p: Patterns)
    requires (forall a :: a in m.hits ==> a in hits) && (HasNotice(m.(hits := hits), p) ==> HasNotice(m, p))
    ensures var before, after := Pipeline(SummandsOf(m, c, p)), Pipeline(SummandsOf(m.(hits := hits), c, p));
      before <= after <= before + 43
  {
    var m' := m.(hits := hits);
    assert Blob(m') == Blob(m);
    if m.hits != [] {
      assert m.hits[0] in hits;
    }
    assert HasNotice(m, p) ==> HasNotice(m', p);
    PipelineMonotone(SummandsOf(m, c, p), SummandsOf(m', c, p));
    PipelineSlope(SummandsOf(m, c, p), SummandsOf(m', c, p));
  }

  /** More subject expressions never lower it, add at most 0.20, and nothing once one of them matches. */
  lemma MoreRegexesNeverHurt(m: Email, more: seq<string -> bool>, c: Settings, p: Patterns)
    ensures var before, after := Pipeline(SummandsOf(m, c, p)),
                                 Pipeline(SummandsOf(m, c, p.(subjectRegexes := p.subjectRegexes + more)));
      && before <= after <= before + 20
      && (SomeMatches(m.subject, p.subjectRegexes) || !SomeMatches(m.subject, more) ==> after == before)
  {
    var p' := p.(subjectRegexes := p.subjectRegexes + more);
    MatchInEither(m.subject, p.subjectRegexes, more);
    assert HasNotice(m, p') == HasNotice(m, p);
    PipelineMonotone(SummandsOf(m, c, p), SummandsOf(m, c, p'));
    PipelineSlope(SummandsOf(m, c, p), SummandsOf(m, c, p'));
  }

  lemma MatchInEither(subject: string, a: seq<string -> bool>, b: seq<string -> bool>)
    ensures SomeMatches(subject, a + b) <==> SomeMatches(subject, a) || SomeMatches(subject, b)
  {
    if i :| 0 <= i < |a| && a[i](subject) {
      assert (a + b)[i](subject);
    }
    if i :| 0 <= i < |b| && b[i](subject) {
      assert (a + b)[|a| + i](subject);
    }
  }

  lemma {:induction false} NegativeHitsConcat(blob: string, a: seq<string>, b: seq<string>)
    ensures NegativeHits(blob, a + b) == NegativeHits(blob, a) + NegativeHits(blob, b)
  {
    if a == [] {
      assert a + b == b;
    } else {
      assert (a + b)[1..] == a[1..] + b;
      NegativeHitsConcat(blob, a[1..], b);
    }
  }

  /** More negative keywords never raise a confidence, and each costs at most 0.08. */
  lemma MoreNegativesNeverHelp(m: Email, more: seq<string>, c: Settings, p: Patterns)
    ensures var before, after := Pipeline(SummandsOf(m, c, p)),
                                 Pipeline(SummandsOf(m, c.(negatives := c.negatives + more), p));
      after <= before <= after + 8 * NegativeHits(Blob(m), more)
  {
    var c' := c.(negatives := c.negatives + more);
    NegativeHitsConcat(Blob(m), c.negatives, more);
    PipelineMonotone(SummandsOf(m, c', p), SummandsOf(m, c, p));
    PipelineSlope(SummandsOf(m, c', p), SummandsOf(m, c, p));
  }

  /** The words of a strong subject are core keywords, so the language score counts them again. */
  lemma StrongSubjectHits(m: Email, isWordChar: char -> bool)
    requires IsStrongSubject(m.subject, isWordChar)
    ensures LanguageConfidence(m) >= 5
  {
    var w := StrongWord(m.subject, isWordChar);
    SubjectInBlob(m);
    ContainsTransitive(Blob(m), Lower(m.subject), w);
    CoreWordHits(Blob(m), w);
  }

  lemma SubjectInBlob(m: Email)
    ensures Contains(Blob(m), Lower(m.subject))
  {
    var rest := "\n" + m.preview + "\n" + m.bodyText;
    assert m.subject + "\n" + m.preview + "\n" + m.bodyText == m.subject + rest;
    LowerConcat(m.subject, rest);
    ContainsBetween("", Lower(m.subject), Lower(rest));
    assert Blob(m) == "" + Lower(m.subject) + Lower(rest);
  }

  /** The word that makes a subject strong. */
  lemma StrongWord(subject: string, isWordChar: char -> bool) returns (w: string)
    requires IsStrongSubject(subject, isWordChar)
    ensures Contains(Lower(subject), w)
    ensures w == HEBREW_CORE[0] || w == HEBREW_CORE[2] || w == ENGLISH_CORE[0] || w == ENGLISH_CORE[2]
  {
    var s := Lower(subject);
    w := if Contains(s, "חשבונית") then "חשבונית" else if Contains(s, "קבלה") then "קבלה"
         else if Contains(s, "invoice") then "invoice" else "receipt";
  }

  lemma CoreWordHits(blob: string, w: string)
    requires Contains(blob, w)
    requires w == HEBREW_CORE[0] || w == HEBREW_CORE[2] || w == ENGLISH_CORE[0] || w == ENGLISH_CORE[2]
    ensures HebrewHits(blob) >= 1 || EnglishHits(blob) >= 1
  {
    if w == HEBREW_CORE[0] || w == HEBREW_CORE[2] {
      assert w in HEBREW_CORE;
      assert w in HEBREW_CORE + HEBREW_CONTEXT;
    } else {
      assert w in ENGLISH_CORE;
      assert w in ENGLISH_CORE + ENGLISH_CONTEXT;
    }
  }

  /** What sender rules and negative keywords take away. */
  function Deductions(m: Email, c: Settings): int {
    Max(0, -SenderDelta(c.senderRules, Lower(m.fromAddress))) + 8 * NegativeHits(Blob(m), c.negatives)
  }

  /**
   A strong subject and one usable link to a trusted domain give at least 0.80, less what sender rules
   and negative keywords take away; 0.75 with a notice. The notice penalty costs no more than that: it needs
   an attachment, and the attachment's bonus fills the score up to 1 first.
   */
  lemma StrongAndTrusted(m: Email, c: Settings, p: Patterns)
    requires IsStrongSubject(m.subject, p.isWordChar) && AnyTrusted(m.links, c.trusted, c.allowedHttp)
    ensures Pipeline(SummandsOf(m, c, p)) >= (if HasNotice(m, p) then 75 else 80) - Deductions(m, c)
  {
    StrongSubjectHits(m, p.isWordChar);
    var s := SummandsOf(m, c, p);
    assert s.lang >= 5 && s.link >= 40 && s.strong == 35;
    assert AfterBonuses(s) >= if HasNotice(m, p) then 75 else 80;
  }

  /** So it clears the default threshold even with one "-@domain" rule, or with two negative keywords. */
  lemma StrongAndTrustedPasses(m: Email, c: Settings, p: Patterns)
    requires IsStrongSubject(m.subject, p.isWordChar) && AnyTrusted(m.links, c.trusted, c.allowedHttp)
    requires Deductions(m, c) <= if HasNotice(m, p) then 20 else 25
    ensures Pipeline(SummandsOf(m, c, p)) >= 55
  {
    StrongAndTrusted(m, c, p);
  }
}
