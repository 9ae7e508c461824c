/**
 archive/graph_invoice_finder.v3.9.1.py: the keyword gates. `pdf_keyword_stats` reads pages until
 it has seen enough; `decide_pdf_relevance` judges the partial counts it returns.

 A PDF is the sequence of its page texts; None is a page whose extraction raises, which ends the
 reading and keeps the counts so far. A PDF that cannot be opened, or a missing PyMuPDF, is [].
 */
module PdfGate {
  import opened Strings
  import opened Wrappers

  const HEB_POS: seq<string> := ["חשבונית", "חשבונית מס", "חשבונית מס קבלה", "קבלה", "ארנונה",
                                 "שובר תשלום", "דרישת תשלום", "אגרת", "היטל", "מספר נכס"]
  const EN_POS: seq<string> := ["invoice", "tax invoice", "receipt", "bill"]
  const HEB_NEG: seq<string> := ["תלוש שכר", "תלוש", "משכורת", "שכר", "ברוטו", "נטו",
                                 "הפרשות פנסיה", "שעות נוספות"]
  const EN_NEG: seq<string> := ["payslip", "pay slip", "salary", "payroll", "net pay", "gross pay",
                                "employee", "employer"]
  const HEB_MUNICIPAL: seq<string> := ["ארנונה", "עיריית", "עיריה", "שובר תשלום", "רשות מקומית", "תאגיד מים"]

  datatype Stats = Stats(posHits: nat, negHits: nat, posTerms: seq<string>, negTerms: seq<string>)

  const NO_HITS := Stats(0, 0, [], [])

  // ---------- One page ----------

  function Terms(text: string, needles: seq<string>): (r: seq<string>)
    ensures |r| == CountHits(text, needles)
    ensures forall k :: k in r <==> k in needles && Contains(text, k)
  {
    if needles == [] then []
    else
      assert needles == [needles[0]] + needles[1..];
      (if Contains(text, needles[0]) then [needles[0]] else []) + Terms(text, needles[1..])
  }

  function PosHits(text: string): nat {
    CountHits(Lower(text), EN_POS) + CountHits(text, HEB_POS)
  }

  function NegHits(text: string): nat {
    CountHits(Lower(text), EN_NEG) + CountHits(text, HEB_NEG)
  }

  function AddPage(s: Stats, text: string): Stats {
    Stats(s.posHits + PosHits(text), s.negHits + NegHits(text),
          s.posTerms + Terms(Lower(text), EN_POS) + Terms(text, HEB_POS),
          s.negTerms + Terms(Lower(text), EN_NEG) + Terms(text, HEB_NEG))
  }

  /** The pages before the first one that cannot be read. */
  function Readable(pages: seq<Option<string>>): seq<string> {
    if pages == [] || pages[0].None? then [] else [pages[0].value] + Readable(pages[1..])
  }

  /** They are the pages up to the first unreadable one. */
  lemma {:induction false} ReadableExactly(pages: seq<Option<string>>)
    ensures var r := Readable(pages);
      && |r| <= |pages| && (forall i :: 0 <= i < |r| ==> pages[i] == Some(r[i]))
      && (|r| < |pages| ==> pages[|r|].None?)
  {
    if pages == [] || pages[0].None? {
    } else {
      ReadableExactly(pages[1..]);
    }
  }

  predicate SeenEnough(s: Stats) {
    s.posHits >= 3 || s.negHits >= 1
  }

  /** What the reading loop returns when it goes on from s. */
  function Scan(s: Stats, pages: seq<string>): Stats
    decreases |pages|
  {
    if pages == [] then s
    else
      var s1 := AddPage(s, pages[0]);
      if SeenEnough(s1) then s1 else Scan(s1, pages[1..])
  }

  // ---------- The loops ----------

  method AddTerms(text: string, keywords: seq<string>, hits: nat, terms: seq<string>)
    returns (hits': nat, terms': seq<string>)
    ensures hits' == hits + CountHits(text, keywords) && terms' == terms + Terms(text, keywords)
  {
    hits', terms' := hits, terms;
    for i := 0 to |keywords|
      invariant hits' + CountHits(text, keywords[i..]) == hits + CountHits(text, keywords)
      invariant terms' + Terms(text, keywords[i..]) == terms + Terms(text, keywords)
    {
      var k := keywords[i];
      assert keywords[i..][0] == k && keywords[i..][1..] == keywords[i + 1..];
      ghost var rest := Terms(text, keywords[i + 1..]);
      if Contains(text, k) {
        assert terms' + ([k] + rest) == terms' + [k] + rest;
        hits' := hits' + 1;
        terms' := terms' + [k];
      } else {
        assert [] + rest == rest;
      }
    }
  }

  /** One page of the reading loop. */
  method ReadPage(stats: Stats, text: string) returns (r: Stats)
    ensures r == AddPage(stats, text)
  {
    var low := Lower(text);
    var pos, posTerms := AddTerms(low, EN_POS, stats.posHits, stats.posTerms);
    pos, posTerms := AddTerms(text, HEB_POS, pos, posTerms);
    var neg, negTerms := AddTerms(low, EN_NEG, stats.negHits, stats.negTerms);
    neg, negTerms := AddTerms(text, HEB_NEG, neg, negTerms);
    r := Stats(pos, neg, posTerms, negTerms);
  }

  method PdfKeywordStats(pages: seq<Option<string>>) returns (stats: Stats)
    ensures stats == Scan(NO_HITS, Readable(pages))
  {
    stats := NO_HITS;
    var i := 0;
    while i < |pages|
      invariant 0 <= i <= |pages|
      invariant Scan(stats, Readable(pages[i..])) == Scan(NO_HITS, Readable(pages))
    {
      assert pages[i..][1..] == pages[i + 1..];
      if pages[i].None? {
        return;
      }
      stats := ReadPage(stats, pages[i].value);
      if stats.posHits >= 3 || stats.negHits >= 1 {
        return;
      }
      i := i + 1;
    }
  }

  method DecidePdfRelevance(pages: seq<Option<string>>, trustedHint: bool) returns (ok: bool, stats: Stats)
    ensures ok == Relevant(pages, trustedHint) && stats == Scan(NO_HITS, Readable(pages))
  {
    stats := PdfKeywordStats(pages);
    ok := stats.posHits >= 1 && stats.negHits == 0;
    if trustedHint && stats.negHits == 0 && stats.posHits == 0 {
      ok := true;
    }
  }

  // ---------- What the verdict means ----------

  predicate Relevant(pages: seq<Option<string>>, trustedHint: bool) {
    var stats := Scan(NO_HITS, Readable(pages));
    stats.negHits == 0 && (stats.posHits >= 1 || trustedHint)
  }

  function TotalPos(pages: seq<string>): nat {
    if pages == [] then 0 else PosHits(pages[0]) + TotalPos(pages[1..])
  }

  /** The pages before the first one with a negative hit. */
  function BeforeNegative(pages: seq<string>): seq<string> {
    if pages == [] || NegHits(pages[0]) > 0 then [] else [pages[0]] + BeforeNegative(pages[1..])
  }

  lemma {:induction false} BeforeNegativeExactly(pages: seq<string>)
    ensures var r := BeforeNegative(pages);
      && |r| <= |pages| && (forall i :: 0 <= i < |r| ==> r[i] == pages[i])
      && NoNegative(r) && (|r| < |pages| ==> NegHits(pages[|r|]) > 0)
  {
    if pages == [] || NegHits(pages[0]) > 0 {
    } else {
      var rest := pages[1..];
      BeforeNegativeExactly(rest);
      assert forall i :: 0 < i < |pages| ==> pages[i] == rest[i - 1];
      assert BeforeNegative(pages) == [pages[0]] + BeforeNegative(rest);
    }
  }

  predicate NoNegative(pages: seq<string>) {
    forall p :: p in pages ==> NegHits(p) == 0
  }

  lemma {:induction false} NoNegativeMeansAllBefore(pages: seq<string>)
    ensures NoNegative(pages) <==> BeforeNegative(pages) == pages
    ensures |BeforeNegative(pages)| <= |pages|
  {
    if pages == [] {
    } else {
      assert pages == [pages[0]] + pages[1..];
      NoNegativeMeansAllBefore(pages[1..]);
    }
  }

  lemma {:induction false} ScanNeverNegative(s: Stats, pages: seq<string>)
    requires s.posHits < 3 && s.negHits == 0
    ensures Scan(s, pages).negHits == 0
       <==> (NoNegative(pages) || s.posHits + TotalPos(BeforeNegative(pages)) >= 3)
    ensures NoNegative(pages) ==>
      (Scan(s, pages).posHits >= 1 <==> s.posHits + TotalPos(pages) >= 1)
    ensures s.posHits + TotalPos(BeforeNegative(pages)) >= 3 ==> Scan(s, pages).posHits >= 3
    decreases |pages|
  {
    if pages == [] {
    } else {
      assert pages == [pages[0]] + pages[1..];
      var s1 := AddPage(s, pages[0]);
      var rest := BeforeNegative(pages[1..]);
      if NegHits(pages[0]) == 0 {
        assert BeforeNegative(pages)[1..] == rest;
        if SeenEnough(s1) {
          assert TotalPos(BeforeNegative(pages)) >= PosHits(pages[0]);
        } else {
          ScanNeverNegative(s1, pages[1..]);
        }
      }
    }
  }

  /**
   The exact meaning of the early exit, over all PDFs: with `seen` the readable pages, accepted iff
   no page is negative (and, for an untrusted file, some page is positive), or the pages before the
   first negative one already hold three positive hits.
   */
  lemma VerdictMeaning(pages: seq<Option<string>>, trustedHint: bool)
    ensures var seen := Readable(pages);
      Relevant(pages, trustedHint) <==>
        || (NoNegative(seen) && (trustedHint || TotalPos(seen) >= 1))
        || TotalPos(BeforeNegative(seen)) >= 3
  {
    var seen := Readable(pages);
    ScanNeverNegative(NO_HITS, seen);
    NoNegativeMeansAllBefore(seen);
  }

  /** The stated rule "no negative keyword in the document" is broken exactly when three hits come first. */
  lemma NegativeAccepted(pages: seq<Option<string>>, trustedHint: bool)
    requires !NoNegative(Readable(pages))
    ensures Relevant(pages, trustedHint) <==> TotalPos(BeforeNegative(Readable(pages))) >= 3
  {
    VerdictMeaning(pages, trustedHint);
  }

  /** Such a document: an invoice page followed by a payslip page. */
  lemma NegativeAcceptedExample(first: string, second: string)
    requires first == "invoice receipt bill" && second == "תלוש"
    ensures Relevant([Some(first), Some(second)], false)
    ensures !NoNegative(Readable([Some(first), Some(second)]))
  {
    FirstPagePositive(first);
    FirstPageNotNegative(first);
    SecondPageNegative(second);
    TwoPages(first, second);
    VerdictMeaning([Some(first), Some(second)], false);
  }

  lemma TwoPages(first: string, second: string)
    requires NegHits(first) == 0 && PosHits(first) >= 3 && NegHits(second) > 0
    ensures Readable([Some(first), Some(second)]) == [first, second]
    ensures TotalPos(BeforeNegative([first, second])) >= 3 && !NoNegative([first, second])
  {
    var pages := [Some(first), Some(second)];
    assert pages[1..] == [Some(second)];
    assert pages[1..][1..] == [];
    assert Readable(pages[1..]) == [second];
    assert [first, second][1..] == [second];
    assert BeforeNegative([second]) == [];
    assert BeforeNegative([first, second]) == [first];
  }

  lemma SecondPageNegative(text: string)
    requires text == "תלוש"
    ensures NegHits(text) > 0
  {
    assert OccursAt(text, HEB_NEG[1], 0);
  }

  lemma FirstPagePositive(text: string)
    requires text == "invoice receipt bill"
    ensures PosHits(text) >= 3
  {
    assert Lower(text) == text;
    ThreeWords(text);
    CountHitsCons(text, "invoice", ["tax invoice", "receipt", "bill"]);
    CountHitsCons(text, "tax invoice", ["receipt", "bill"]);
    CountHitsCons(text, "receipt", ["bill"]);
    CountHitsCons(text, "bill", []);
    assert EN_POS == ["invoice"] + ["tax invoice", "receipt", "bill"];
  }

  lemma ThreeWords(text: string)
    requires text == "invoice receipt bill"
    ensures Contains(text, "invoice") && Contains(text, "receipt") && Contains(text, "bill")
  {
    ContainsBetween("", "invoice", " receipt bill");
    ContainsBetween("invoice ", "receipt", " bill");
    ContainsBetween("invoice receipt ", "bill", "");
    assert text == "" + "invoice" + " receipt bill";
    assert text == "invoice " + "receipt" + " bill";
    assert text == "invoice receipt " + "bill" + "";
  }

  lemma FirstPageNotNegative(text: string)
    requires text == "invoice receipt bill"
    ensures NegHits(text) == 0
  {
    assert Lower(text) == text;
    assert 'y' !in text;
    NoEnglishNegative(text);
    NoHebrewNegative(text);
  }

  /** Every English negative word has a "y". */
  lemma NoEnglishNegative(text: string)
    requires 'y' !in text
    ensures CountHits(text, EN_NEG) == 0
  {
    forall k | k in EN_NEG ensures !Contains(text, k) {
      OccurrenceKeepsChars(text, k);
      assert 'y' in k;
    }
  }

  lemma NoHebrewNegative(text: string)
    requires forall c :: c in text ==> c <= 'z'
    ensures CountHits(text, HEB_NEG) == 0
  {
    forall k | k in HEB_NEG ensures !Contains(text, k) {
      OccurrenceKeepsChars(text, k);
      assert k[0] in k && k[0] > 'z';
    }
  }

  /** Without PyMuPDF, or when already the first page cannot be read, exactly the untrusted files are rejected. */
  lemma NoPageIsRejected(pages: seq<Option<string>>, trustedHint: bool)
    requires pages == [] || pages[0].None?
    ensures Relevant(pages, trustedHint) <==> trustedHint
  {
    assert Readable(pages) == [];
  }

  /** A trusted document without any positive word is accepted. */
  lemma NeutralAcceptedExample(page: string)
    requires page == "hello"
    ensures TotalPos(Readable([Some(page)])) == 0
    ensures Relevant([Some(page)], true) && !Relevant([Some(page)], false)
  {
    NeutralPage(page);
    OnePage(page);
    VerdictMeaning([Some(page)], true);
    VerdictMeaning([Some(page)], false);
  }

  lemma OnePage(page: string)
    requires PosHits(page) == 0 && NegHits(page) == 0
    ensures Readable([Some(page)]) == [page] && NoNegative([page])
    ensures TotalPos([page]) == 0 && TotalPos(BeforeNegative([page])) == 0
  {
    var pages, seen := [Some(page)], [page];
    assert pages[1..] == [] && seen[1..] == [];
    assert Readable(pages[1..]) == [] && BeforeNegative(seen[1..]) == [];
    assert TotalPos(seen[1..]) == 0;
    assert BeforeNegative(seen) == seen;
  }

  lemma NeutralPage(text: string)
    requires text == "hello"
    ensures PosHits(text) == 0 && NegHits(text) == 0
  {
    assert Lower(text) == text;
    assert 'y' !in text && 'i' !in text;
    NoEnglishNegative(text);
    NoHebrewNegative(text);
    NoPositive(text);
  }

  lemma NoPositive(text: string)
    requires 'i' !in text && forall c :: c in text ==> c <= 'z'
    ensures CountHits(text, EN_POS) == 0 && CountHits(text, HEB_POS) == 0
  {
    forall k | k in EN_POS ensures !Contains(text, k) {
      OccurrenceKeepsChars(text, k);
      assert 'i' in k;
    }
    forall k | k in HEB_POS ensures !Contains(text, k) {
      OccurrenceKeepsChars(text, k);
      assert k[0] in k && k[0] > 'z';
    }
  }

  // ---------- The message gate ----------

  predicate BodyHasNegative(t: string) {
    ContainsAny(t, HEB_NEG) || ContainsAny(Lower(t), EN_NEG)
  }

  predicate BodyHasPositive(t: string) {
    ContainsAny(t, HEB_POS) || ContainsAny(Lower(t), EN_POS)
  }

  predicate IsMunicipal(t: string) {
    ContainsAny(t, HEB_MUNICIPAL)
  }

  predicate ShouldConsider(subject: string, preview: string) {
    var t := subject + " " + preview;
    !BodyHasNegative(t) && (BodyHasPositive(t) || IsMunicipal(t))
  }

  // ---------- The listed words ----------

  /** Each positive word counts once per page: English ones in the lower-cased text, Hebrew ones in the text as it is. */
  lemma PositiveWords(t: string)
    ensures var english := ["invoice", "tax invoice", "receipt", "bill"];
      var hebrew := ["חשבונית", "חשבונית מס", "חשבונית מס קבלה", "קבלה", "ארנונה",
                     "שובר תשלום", "דרישת תשלום", "אגרת", "היטל", "מספר נכס"];
      && PosHits(t) == |HitPositions(Lower(t), english)| + |HitPositions(t, hebrew)|
      && (PosHits(t) > 0 <==> BodyHasPositive(t))
      && (BodyHasPositive(t) <==>
            (exists k :: k in english && Contains(Lower(t), k)) || exists k :: k in hebrew && Contains(t, k))
  {
    CountHitsIsNumber(Lower(t), EN_POS);
    CountHitsIsNumber(t, HEB_POS);
  }

  lemma NegativeWords(t: string)
    ensures var english := ["payslip", "pay slip", "salary", "payroll", "net pay", "gross pay", "employee", "employer"];
      var hebrew := ["תלוש שכר", "תלוש", "משכורת", "שכר", "ברוטו", "נטו", "הפרשות פנסיה", "שעות נוספות"];
      && NegHits(t) == |HitPositions(Lower(t), english)| + |HitPositions(t, hebrew)|
      && (NegHits(t) > 0 <==> BodyHasNegative(t))
      && (BodyHasNegative(t) <==>
            (exists k :: k in english && Contains(Lower(t), k)) || exists k :: k in hebrew && Contains(t, k))
  {
    CountHitsIsNumber(Lower(t), EN_NEG);
    CountHitsIsNumber(t, HEB_NEG);
  }

  lemma MunicipalWords(t: string)
    ensures IsMunicipal(t) <==>
      exists k :: k in ["ארנונה", "עיריית", "עיריה", "שובר תשלום", "רשות מקומית", "תאגיד מים"] && Contains(t, k)
  {
  }

  /** A page adds as many terms to the report as hits, positive and negative ones apart. */
  lemma TermsOfPage(s: Stats, t: string)
    ensures var r := AddPage(s, t);
      && s.posTerms <= r.posTerms && |r.posTerms| - |s.posTerms| == PosHits(t) == r.posHits - s.posHits
      && s.negTerms <= r.negTerms && |r.negTerms| - |s.negTerms| == NegHits(t) == r.negHits - s.negHits
  {
    TermsAdded(s.posTerms, Terms(Lower(t), EN_POS), Terms(t, HEB_POS));
    TermsAdded(s.negTerms, Terms(Lower(t), EN_NEG), Terms(t, HEB_NEG));
  }

  lemma TermsAdded(a: seq<string>, b: seq<string>, c: seq<string>)
    ensures a <= a + b + c && |a + b + c| - |a| == |b| + |c|
  {
  }

  lemma ReadableOne(t: string)
    ensures Readable([Some(t)]) == [t]
  {
    assert [Some(t)][1..] == [];
    assert Readable([Some(t)][1..]) == [];
  }

  lemma ScanOne(t: string)
    ensures Scan(NO_HITS, [t]) == AddPage(NO_HITS, t)
  {
    assert [t][1..] == [];
  }

  lemma OnePageHits(t: string, trustedHint: bool)
    ensures Relevant([Some(t)], trustedHint) <==> NegHits(t) == 0 && (trustedHint || PosHits(t) >= 1)
  {
    ReadableOne(t);
    ScanOne(t);
  }

  /**
   One readable page: no negative word, and for an untrusted file a positive one. (Three positive words do
   not help here: a page is counted as a whole.)
   */
  lemma OnePageVerdict(t: string, trustedHint: bool)
    ensures Relevant([Some(t)], trustedHint) <==> !BodyHasNegative(t) && (trustedHint || BodyHasPositive(t))
  {
    OnePageHits(t, trustedHint);
  }

  /** A page with one Hebrew word is an invoice, trusted or not. */
  lemma HebrewAcceptedExample(t: string, trustedHint: bool)
    requires t == "חשבונית"
    ensures Relevant([Some(t)], trustedHint)
  {
    HebrewPagePositive(t);
    HebrewPageNotNegative(t);
    OnePageHits(t, trustedHint);
  }

  lemma HebrewPagePositive(t: string)
    requires t == "חשבונית"
    ensures CountHits(t, HEB_POS) > 0
  {
    SelfContained(t);
    FirstHits(t, HEB_POS);
  }

  lemma SelfContained(t: string)
    ensures Contains(t, t)
  {
    assert t[0..|t|] == t;
    assert OccursAt(t, t, 0);
  }

  lemma HebrewPageNotNegative(t: string)
    requires t == "חשבונית"
    ensures NegHits(t) == 0
  {
    assert 'ל' !in t && 'כ' !in t && 'ט' !in t && 'פ' !in t && 'ע' !in t;
    NoHebrewNegativeIn(t);
    assert Lower(t) == t && 'y' !in t;
    NoEnglishNegative(t);
  }

  lemma FirstHits(t: string, needles: seq<string>)
    requires |needles| > 0 && Contains(t, needles[0])
    ensures CountHits(t, needles) > 0
  {
  }

  lemma NoHebrewNegativeIn(t: string)
    requires 'ל' !in t && 'כ' !in t && 'ט' !in t && 'פ' !in t && 'ע' !in t
    ensures CountHits(t, HEB_NEG) == 0
  {
    forall k | k in HEB_NEG ensures !Contains(t, k) {
      OccurrenceKeepsChars(t, k);
      assert 'ל' in k || 'כ' in k || 'ט' in k || 'פ' in k || 'ע' in k;
    }
  }

  /** Which messages without attachments are looked at: a negative word rules one out, else a positive or municipal one is needed. */
  lemma ShouldConsiderExact(subject: string, preview: string)
    ensures var t := subject + " " + preview;
      ShouldConsider(subject, preview) <==> NegHits(t) == 0 && (PosHits(t) > 0 || IsMunicipal(t))
  {
  }
}
