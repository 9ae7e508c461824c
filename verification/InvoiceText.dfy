/**
 archive/graph_invoice_finder.v3.7.4.py: is the text of a PDF an invoice? Scores are in hundredths
 (0.45 is 45); every constant of the program is a whole number of them.
 */
module InvoiceText {
  import opened Strings
  import opened Wrappers

  const HEBREW_CORE: seq<string> := ["חשבונית", "חשבונית מס", "קבלה", "אסמכתא", "תשלום", "דרישת תשלום",
                                     "קבלה מס", "חשבונית מס קבלה", "חיוב", "זיכוי", "שובר תשלום"]
  const HEBREW_CONTEXT: seq<string> := ["מספר חשבונית", "סכום לתשלום", "יתרה לתשלום", "פירוט חיובים",
                                        "לצפייה בחשבונית", "הורדה", "הורד קובץ", "קישור לחשבונית"]
  const ENGLISH_CORE: seq<string> := ["invoice", "tax invoice", "receipt", "payment receipt",
                                      "billing statement", "payment request", "charge", "credit note"]
  const ENGLISH_CONTEXT: seq<string> := ["invoice number", "amount due", "balance due", "view invoice",
                                         "download invoice", "download receipt", "statement"]
  const STRICT_KEYWORDS: seq<string> := ["חשבונית", "חשבונית מס", "חשבונית מס קבלה", "קבלה",
                                         "invoice", "tax invoice", "receipt"]
  const MIN_PDF_SIZE := 6000

  function Min(a: int, b: int): int {
    if a <= b then a else b
  }

  function HebrewHits(t: string): nat {
    CountHits(t, HEBREW_CORE + HEBREW_CONTEXT)
  }

  function EnglishHits(t: string): nat {
    CountHits(t, ENGLISH_CORE + ENGLISH_CONTEXT)
  }

  function TextInvoiceScore(text: string): int {
    if text == "" then 0
    else
      var t := Lower(text);
      var strong := if ContainsAny(t, STRICT_KEYWORDS) then 50 else 0;
      Min(100, strong + Min(30, HebrewHits(t) * 3) + Min(20, EnglishHits(t) * 2))
  }

  // ---------- Keyword-free text stays below 0.45 ----------

  /** The needles that contain no strict keyword. */
  function LooseCount(needles: seq<string>): nat {
    if needles == [] then 0
    else (if ContainsAny(needles[0], STRICT_KEYWORDS) then 0 else 1) + LooseCount(needles[1..])
  }

  /** In a text without strict keywords only loose tokens can be hit. */
  lemma {:induction false} OnlyLooseHits(t: string, needles: seq<string>)
    requires !ContainsAny(t, STRICT_KEYWORDS)
    ensures CountHits(t, needles) <= LooseCount(needles)
  {
    if needles == [] {
    } else {
      OnlyLooseHits(t, needles[1..]);
      if Contains(t, needles[0]) && ContainsAny(needles[0], STRICT_KEYWORDS) {
        var k :| k in STRICT_KEYWORDS && Contains(needles[0], k);
        ContainsTransitive(t, needles[0], k);
      }
    }
  }

  lemma {:induction false} LooseConcat(a: seq<string>, b: seq<string>)
    ensures LooseCount(a + b) == LooseCount(a) + LooseCount(b)
  {
    if a == [] {
      assert a + b == b;
    } else {
      assert (a + b)[1..] == a[1..] + b;
      LooseConcat(a[1..], b);
    }
  }

  function CountFalse(flags: seq<bool>): nat {
    if flags == [] then 0 else (if flags[0] then 0 else 1) + CountFalse(flags[1..])
  }

  /** At most the unflagged tokens are loose, if each flag is earned. */
  lemma {:induction false} LooseAtMost(needles: seq<string>, flags: seq<bool>)
    requires |flags| == |needles|
    requires forall i :: 0 <= i < |flags| && flags[i] ==> ContainsAny(needles[i], STRICT_KEYWORDS)
    ensures LooseCount(needles) <= CountFalse(flags)
  {
    if needles == [] {
    } else {
      LooseAtMost(needles[1..], flags[1..]);
    }
  }

  /** A token with a strict keyword between two other parts. */
  lemma StrictToken(token: string, before: string, k: string, after: string)
    requires k in STRICT_KEYWORDS && token == before + k + after
    ensures ContainsAny(token, STRICT_KEYWORDS)
  {
    ContainsBetween(before, k, after);
  }

  lemma InvoiceInCore()
    ensures forall i :: 0 <= i < 2 ==> ContainsAny(ENGLISH_CORE[i], STRICT_KEYWORDS)
  {
    StrictToken(ENGLISH_CORE[0], "", "invoice", "");
    StrictToken(ENGLISH_CORE[1], "tax ", "invoice", "");
  }

  lemma ReceiptInCore()
    ensures forall i :: 2 <= i < 4 ==> ContainsAny(ENGLISH_CORE[i], STRICT_KEYWORDS)
  {
    StrictToken(ENGLISH_CORE[2], "", "receipt", "");
    StrictToken(ENGLISH_CORE[3], "payment ", "receipt", "");
  }

  lemma InvoiceInContext()
    ensures ContainsAny(ENGLISH_CONTEXT[0], STRICT_KEYWORDS) && ContainsAny(ENGLISH_CONTEXT[3], STRICT_KEYWORDS)
  {
    StrictToken(ENGLISH_CONTEXT[0], "", "invoice", " number");
    StrictToken(ENGLISH_CONTEXT[3], "view ", "invoice", "");
  }

  lemma DownloadInContext()
    ensures ContainsAny(ENGLISH_CONTEXT[4], STRICT_KEYWORDS) && ContainsAny(ENGLISH_CONTEXT[5], STRICT_KEYWORDS)
  {
    StrictToken(ENGLISH_CONTEXT[4], "download ", "invoice", "");
    StrictToken(ENGLISH_CONTEXT[5], "download ", "receipt", "");
  }

  lemma FourLooseInCore()
    ensures LooseCount(ENGLISH_CORE) <= 4
  {
    InvoiceInCore();
    ReceiptInCore();
    LooseAtMost(ENGLISH_CORE, [true, true, true, true, false, false, false, false]);
  }

  lemma ThreeLooseInContext()
    ensures LooseCount(ENGLISH_CONTEXT) <= 3
  {
    InvoiceInContext();
    DownloadInContext();
    LooseAtMost(ENGLISH_CONTEXT, [true, false, false, true, true, true, false]);
  }

  /** Seven English tokens contain no strict keyword, worth 0.14 together. */
  lemma SevenLooseEnglish()
    ensures LooseCount(ENGLISH_CORE + ENGLISH_CONTEXT) <= 7
  {
    FourLooseInCore();
    ThreeLooseInContext();
    LooseConcat(ENGLISH_CORE, ENGLISH_CONTEXT);
  }

  lemma WithoutStrictAtMost44(text: string)
    requires !ContainsAny(Lower(text), STRICT_KEYWORDS)
    ensures TextInvoiceScore(text) <= 44
  {
    OnlyLooseHits(Lower(text), ENGLISH_CORE + ENGLISH_CONTEXT);
    SevenLooseEnglish();
  }

  // ---------- A strict keyword scores at least 0.52 ----------

  /** The four keywords the other strict ones contain. */
  const STRICT_ROOTS: seq<string> := ["חשבונית", "קבלה", "invoice", "receipt"]

  lemma StrictHasRoot(t: string)
    ensures ContainsAny(t, STRICT_KEYWORDS) <==> ContainsAny(t, STRICT_ROOTS)
  {
    if ContainsAny(t, STRICT_KEYWORDS) {
      var k :| k in STRICT_KEYWORDS && Contains(t, k);
      assert OccursAt("חשבונית מס", "חשבונית", 0) && OccursAt("חשבונית מס קבלה", "חשבונית", 0);
      assert OccursAt("tax invoice", "invoice", 4);
      if k == "חשבונית מס" || k == "חשבונית מס קבלה" {
        ContainsTransitive(t, k, "חשבונית");
      } else if k == "tax invoice" {
        ContainsTransitive(t, k, "invoice");
      }
    }
  }

  lemma WithStrictAtLeast52(text: string)
    requires ContainsAny(Lower(text), STRICT_KEYWORDS)
    ensures TextInvoiceScore(text) >= 52
  {
    var t := Lower(text);
    StrictHasRoot(t);
    var k :| k in STRICT_ROOTS && Contains(t, k);
    if k in HEBREW_CORE {
      assert k in HEBREW_CORE + HEBREW_CONTEXT && HebrewHits(t) >= 1;
    } else {
      assert k in ENGLISH_CORE + ENGLISH_CONTEXT && EnglishHits(t) >= 1;
    }
    assert |k| > 0 && |t| > 0;
  }

  // ---------- Text from pages ----------

  /** `"\n".join(parts)` */
  function Join(parts: seq<string>): string {
    if parts == [] then ""
    else if |parts| == 1 then parts[0]
    else parts[0] + "\n" + Join(parts[1..])
  }

  lemma ContainsInLonger(before: string, mid: string, after: string, k: string)
    requires Contains(mid, k)
    ensures Contains(before + mid + after, k)
  {
    ContainsBetween(before, mid, after);
    ContainsTransitive(before + mid + after, mid, k);
  }

  /** An occurrence that does not cover the newline lies on one side of it. */
  lemma OneSide(a: string, b: string, k: string, i: int)
    requires k != "" && '\n' !in k && OccursAt(a + "\n" + b, k, i)
    ensures Contains(a, k) || Contains(b, k)
  {
    var t := a + "\n" + b;
    assert t[|a|] == '\n' && t[|a| + 1..] == b;
    assert forall j :: i <= j < i + |k| ==> t[j] == k[j - i];
    if i + |k| <= |a| {
      assert a[i..i + |k|] == t[i..i + |k|];
      assert OccursAt(a, k, i);
    } else {
      assert i > |a|;
      var j := i - |a| - 1;
      assert b[j..j + |k|] == t[i..i + |k|];
      assert OccursAt(b, k, j);
    }
  }

  /** A keyword cannot straddle the newline between two pages. */
  lemma NoStraddling(a: string, b: string, k: string)
    requires k != "" && '\n' !in k
    ensures Contains(a + "\n" + b, k) <==> Contains(a, k) || Contains(b, k)
  {
    var t := a + "\n" + b;
    if Contains(a, k) {
      ContainsInLonger("", a, "\n" + b, k);
      assert t == "" + a + ("\n" + b);
    }
    if Contains(b, k) {
      ContainsInLonger(a + "\n", b, "", k);
      assert t == (a + "\n") + b + "";
    }
    if Contains(t, k) {
      var i :| 0 <= i <= |t| - |k| && OccursAt(t, k, i);
      OneSide(a, b, k, i);
    }
  }

  predicate SomeContains(parts: seq<string>, k: string) {
    exists p :: p in parts && Contains(p, k)
  }

  lemma {:induction false} JoinContains(parts: seq<string>, k: string)
    requires k != "" && '\n' !in k
    ensures Contains(Join(parts), k) <==> SomeContains(parts, k)
  {
    if |parts| > 1 {
      assert parts == [parts[0]] + parts[1..];
      NoStraddling(parts[0], Join(parts[1..]), k);
      JoinContains(parts[1..], k);
    } else if |parts| == 1 {
      assert parts[0] in parts;
    }
  }

  function LowerAll(parts: seq<string>): (r: seq<string>)
    ensures |r| == |parts| && forall i :: 0 <= i < |parts| ==> r[i] == Lower(parts[i])
  {
    seq(|parts|, i requires 0 <= i < |parts| => Lower(parts[i]))
  }

  lemma {:induction false} LowerJoin(parts: seq<string>)
    ensures Lower(Join(parts)) == Join(LowerAll(parts))
  {
    if |parts| <= 1 {
    } else {
      LowerConcat(parts[0] + "\n", Join(parts[1..]));
      LowerConcat(parts[0], "\n");
      assert Lower("\n") == "\n";
      LowerJoin(parts[1..]);
      assert LowerAll(parts)[1..] == LowerAll(parts[1..]);
    }
  }

  // ---------- The exact range of thresholds at which the test means "has a strict keyword" ----------

  function CountTrue(flags: seq<bool>): nat {
    if flags == [] then 0 else (if flags[0] then 1 else 0) + CountTrue(flags[1..])
  }

  lemma {:induction false} HitsAtLeast(t: string, needles: seq<string>, flags: seq<bool>)
    requires |flags| == |needles|
    requires forall i :: 0 <= i < |flags| && flags[i] ==> Contains(t, needles[i])
    ensures CountHits(t, needles) >= CountTrue(flags)
  {
    if needles == [] {
    } else {
      HitsAtLeast(t, needles[1..], flags[1..]);
    }
  }

  /** A text made only of tokens without a strict keyword, one per line. */
  const LOOSE_ENGLISH: seq<string> := ["billing statement", "payment request", "charge", "credit note",
                                       "amount due", "balance due", "statement"]
  const LOOSE_HEBREW: seq<string> := ["אסמכתא", "תשלום", "דרישת תשלום", "חיוב", "זיכוי", "שובר תשלום",
                                      "סכום לתשלום", "יתרה לתשלום", "פירוט חיובים", "הורדה"]

  predicate LooseAndPlain(p: string) {
    p != "" && '\n' !in p && Lower(p) == p && !ContainsAny(p, STRICT_ROOTS)
  }

  /** One missing character per root shows that a line has no strict keyword. */
  lemma LooseLine(p: string, c: char)
    requires p != "" && '\n' !in p && Lower(p) == p
    requires 'נ' !in p && 'ק' !in p && 'v' !in p && c in "receipt" && c !in p
    ensures LooseAndPlain(p)
  {
    forall k | k in STRICT_ROOTS ensures !Contains(p, k) {
      OccurrenceKeepsChars(p, k);
      assert 'נ' in "חשבונית" && 'ק' in "קבלה" && 'v' in "invoice";
    }
  }

  lemma LooseEnglish0()
    ensures LooseAndPlain(LOOSE_ENGLISH[0]) && LooseAndPlain(LOOSE_ENGLISH[1])
  {
    LooseEnglishFirst();
    LooseLine(LOOSE_ENGLISH[1], 'c');
  }

  lemma LooseEnglishFirst()
    ensures LooseAndPlain(LOOSE_ENGLISH[0])
  {
    LooseLine(LOOSE_ENGLISH[0], 'r');
  }

  lemma LooseEnglish1()
    ensures forall i :: 2 <= i < 5 ==> LooseAndPlain(LOOSE_ENGLISH[i])
  {
    LooseLine(LOOSE_ENGLISH[2], 'p');
    LooseLine(LOOSE_ENGLISH[3], 'p');
    LooseLine(LOOSE_ENGLISH[4], 'r');
  }

  lemma LooseEnglish2()
    ensures forall i :: 5 <= i < 7 ==> LooseAndPlain(LOOSE_ENGLISH[i])
  {
    LooseLine(LOOSE_ENGLISH[5], 'r');
    LooseLine(LOOSE_ENGLISH[6], 'r');
  }

  lemma LooseHebrew0()
    ensures forall i :: 0 <= i < 4 ==> LooseAndPlain(LOOSE_HEBREW[i])
  {
    LooseLine(LOOSE_HEBREW[0], 'r');
    LooseLine(LOOSE_HEBREW[1], 'r');
    LooseLine(LOOSE_HEBREW[2], 'r');
    LooseLine(LOOSE_HEBREW[3], 'r');
  }

  lemma LooseHebrew1()
    ensures forall i :: 4 <= i < 7 ==> LooseAndPlain(LOOSE_HEBREW[i])
  {
    LooseLine(LOOSE_HEBREW[4], 'r');
    LooseLine(LOOSE_HEBREW[5], 'r');
    LooseLine(LOOSE_HEBREW[6], 'r');
  }

  lemma LooseHebrew2()
    ensures forall i :: 7 <= i < 10 ==> LooseAndPlain(LOOSE_HEBREW[i])
  {
    LooseLine(LOOSE_HEBREW[7], 'r');
    LooseLine(LOOSE_HEBREW[8], 'r');
    LooseLine(LOOSE_HEBREW[9], 'r');
  }

  lemma LooseTextScores44(text: string)
    requires text == Join(LOOSE_ENGLISH + LOOSE_HEBREW)
    ensures !ContainsAny(Lower(text), STRICT_KEYWORDS) && TextInvoiceScore(text) >= 44
  {
    var lines := LOOSE_ENGLISH + LOOSE_HEBREW;
    LooseEnglish0();
    LooseEnglish1();
    LooseEnglish2();
    LooseHebrew0();
    LooseHebrew1();
    LooseHebrew2();
    assert forall i :: 0 <= i < |lines| ==> LooseAndPlain(lines[i]);
    LooseLinesJoined(lines, text);
    forall i | 0 <= i < |LOOSE_ENGLISH| ensures Contains(text, LOOSE_ENGLISH[i]) {
      assert LOOSE_ENGLISH[i] == lines[i];
    }
    forall i | 0 <= i < |LOOSE_HEBREW| ensures Contains(text, LOOSE_HEBREW[i]) {
      assert LOOSE_HEBREW[i] == lines[|LOOSE_ENGLISH| + i];
    }
    StrictHasRoot(text);
    LooseHits(text);
  }

  lemma LooseLinesJoined(lines: seq<string>, text: string)
    requires |lines| > 0 && text == Join(lines) && forall i :: 0 <= i < |lines| ==> LooseAndPlain(lines[i])
    ensures text != "" && Lower(text) == text && !ContainsAny(text, STRICT_ROOTS)
    ensures forall i :: 0 <= i < |lines| ==> Contains(text, lines[i])
  {
    assert LowerAll(lines) == lines;
    LowerJoin(lines);
    forall i | 0 <= i < |lines| ensures Contains(text, lines[i]) {
      LineInJoin(lines, i);
    }
    assert Contains(text, lines[0]);
    forall k | k in STRICT_ROOTS ensures !Contains(text, k) {
      RootsAreWords(k);
      AbsentFromJoin(lines, k);
    }
  }

  lemma LineInJoin(lines: seq<string>, i: nat)
    requires i < |lines| && lines[i] != "" && '\n' !in lines[i]
    ensures Contains(Join(lines), lines[i])
  {
    assert OccursAt(lines[i], lines[i], 0) && lines[i] in lines;
    JoinContains(lines, lines[i]);
  }

  lemma AbsentFromJoin(lines: seq<string>, k: string)
    requires k != "" && '\n' !in k && forall i :: 0 <= i < |lines| ==> !Contains(lines[i], k)
    ensures !Contains(Join(lines), k)
  {
    JoinContains(lines, k);
    forall p | p in lines ensures !Contains(p, k) {
      var i :| 0 <= i < |lines| && lines[i] == p;
    }
  }

  lemma RootsAreWords(k: string)
    requires k in STRICT_ROOTS
    ensures k != "" && '\n' !in k && !IsSpace(k[0]) && !IsSpace(k[|k| - 1])
  {
  }

  lemma LooseHits(t: string)
    requires t != "" && Lower(t) == t
    requires forall i :: 0 <= i < |LOOSE_ENGLISH| ==> Contains(t, LOOSE_ENGLISH[i])
    requires forall i :: 0 <= i < |LOOSE_HEBREW| ==> Contains(t, LOOSE_HEBREW[i])
    ensures TextInvoiceScore(t) >= 44
  {
    LooseHitsEnglishCore(t);
    LooseHitsEnglishContext(t);
    LooseHitsHebrewCore(t);
    LooseHitsHebrewContext(t);
    CountHitsConcat(t, ENGLISH_CORE, ENGLISH_CONTEXT);
    CountHitsConcat(t, HEBREW_CORE, HEBREW_CONTEXT);
  }

  lemma LooseHitsEnglishCore(t: string)
    requires forall i :: 0 <= i < |LOOSE_ENGLISH| ==> Contains(t, LOOSE_ENGLISH[i])
    ensures CountHits(t, ENGLISH_CORE) >= 4
  {
    assert ENGLISH_CORE[4] == LOOSE_ENGLISH[0] && ENGLISH_CORE[5] == LOOSE_ENGLISH[1] && ENGLISH_CORE[6] == LOOSE_ENGLISH[2] && ENGLISH_CORE[7] == LOOSE_ENGLISH[3];
    HitsAtLeast(t, ENGLISH_CORE, [false, false, false, false, true, true, true, true]);
  }

  lemma LooseHitsEnglishContext(t: string)
    requires forall i :: 0 <= i < |LOOSE_ENGLISH| ==> Contains(t, LOOSE_ENGLISH[i])
    ensures CountHits(t, ENGLISH_CONTEXT) >= 3
  {
    assert ENGLISH_CONTEXT[1] == LOOSE_ENGLISH[4] && ENGLISH_CONTEXT[2] == LOOSE_ENGLISH[5] && ENGLISH_CONTEXT[6] == LOOSE_ENGLISH[6];
    HitsAtLeast(t, ENGLISH_CONTEXT, [false, true, true, false, false, false, true]);
  }

  lemma LooseHitsHebrewCore(t: string)
    requires forall i :: 0 <= i < |LOOSE_HEBREW| ==> Contains(t, LOOSE_HEBREW[i])
    ensures CountHits(t, HEBREW_CORE) >= 6
  {
    assert HEBREW_CORE[3] == LOOSE_HEBREW[0] && HEBREW_CORE[4] == LOOSE_HEBREW[1] && HEBREW_CORE[5] == LOOSE_HEBREW[2] && HEBREW_CORE[8] == LOOSE_HEBREW[3] && HEBREW_CORE[9] == LOOSE_HEBREW[4] && HEBREW_CORE[10] == LOOSE_HEBREW[5];
    HitsAtLeast(t, HEBREW_CORE, [false, false, false, true, true, true, false, false, true, true, true]);
  }

  lemma LooseHitsHebrewContext(t: string)
    requires forall i :: 0 <= i < |LOOSE_HEBREW| ==> Contains(t, LOOSE_HEBREW[i])
    ensures CountHits(t, HEBREW_CONTEXT) >= 4
  {
    assert HEBREW_CONTEXT[1] == LOOSE_HEBREW[6] && HEBREW_CONTEXT[2] == LOOSE_HEBREW[7] && HEBREW_CONTEXT[3] == LOOSE_HEBREW[8] && HEBREW_CONTEXT[5] == LOOSE_HEBREW[9];
    HitsAtLeast(t, HEBREW_CONTEXT, [false, true, true, true, false, true, false, false]);
  }

  lemma {:induction false} HitsAtMost(t: string, needles: seq<string>, flags: seq<bool>)
    requires |flags| == |needles|
    requires forall i :: 0 <= i < |flags| && !flags[i] ==> !Contains(t, needles[i])
    ensures CountHits(t, needles) <= CountTrue(flags)
  {
    if needles == [] {
    } else {
      HitsAtMost(t, needles[1..], flags[1..]);
    }
  }

  lemma BareEnglishCore(text: string)
    requires text == "invoice"
    ensures CountHits(text, ENGLISH_CORE) <= 1
  {
    forall i | 1 <= i < 8 ensures !Contains(text, ENGLISH_CORE[i]) {
      if i == 2 || i == 6 {
        MissingR(text, ENGLISH_CORE[i]);
      } else {
        assert |ENGLISH_CORE[i]| > |text|;
      }
    }
    HitsAtMost(text, ENGLISH_CORE, [true, false, false, false, false, false, false, false]);
  }

  lemma MissingR(t: string, k: string)
    requires 'r' in k && 'r' !in t
    ensures !Contains(t, k)
  {
    OccurrenceKeepsChars(t, k);
  }

  lemma BareEnglishContext(text: string)
    requires text == "invoice"
    ensures CountHits(text, ENGLISH_CONTEXT) == 0
  {
    assert forall i :: 0 <= i < 7 ==> |ENGLISH_CONTEXT[i]| > |text|;
    HitsAtMost(text, ENGLISH_CONTEXT, [false, false, false, false, false, false, false]);
  }

  lemma BareHebrewCore(text: string)
    requires text == "invoice"
    ensures CountHits(text, HEBREW_CORE) == 0
  {
    assert forall c :: c in text ==> c <= 'z';
    forall i | 0 <= i < |HEBREW_CORE| ensures !Contains(text, HEBREW_CORE[i]) {
      NoHebrewWord(text, HEBREW_CORE[i]);
    }
  }

  lemma BareHebrewContext(text: string)
    requires text == "invoice"
    ensures CountHits(text, HEBREW_CONTEXT) == 0
  {
    assert forall c :: c in text ==> c <= 'z';
    forall i | 0 <= i < |HEBREW_CONTEXT| ensures !Contains(text, HEBREW_CONTEXT[i]) {
      NoHebrewWord(text, HEBREW_CONTEXT[i]);
    }
  }

  lemma BareStrict(text: string)
    requires text == "invoice"
    ensures Lower(text) == text && ContainsAny(text, STRICT_KEYWORDS)
  {
    assert text[0..|text|] == text;
    assert OccursAt(text, text, 0);
    assert Contains(text, text) && text in STRICT_KEYWORDS;
  }

  lemma BareHits(text: string)
    requires text == "invoice"
    ensures HebrewHits(text) == 0 && EnglishHits(text) <= 1
  {
    BareEnglishCore(text);
    BareEnglishContext(text);
    BareHebrewCore(text);
    BareHebrewContext(text);
    CountHitsConcat(text, ENGLISH_CORE, ENGLISH_CONTEXT);
    CountHitsConcat(text, HEBREW_CORE, HEBREW_CONTEXT);
  }

  /** "invoice" alone: one strict keyword, one English token, nothing else. */
  lemma BareInvoiceScores52(text: string)
    requires text == "invoice"
    ensures ContainsAny(Lower(text), STRICT_KEYWORDS) && TextInvoiceScore(text) <= 52
  {
    BareStrict(text);
    BareHits(text);
  }

  /** Between 0.45 and 0.52 the score test accepts a text iff a strict keyword occurs in it. */
  lemma StrictVerdict(text: string, threshold: int)
    requires 45 <= threshold <= 52
    ensures TextInvoiceScore(text) >= threshold <==> ContainsAny(Lower(text), STRICT_KEYWORDS)
  {
    if ContainsAny(Lower(text), STRICT_KEYWORDS) {
      WithStrictAtLeast52(text);
    } else {
      WithoutStrictAtMost44(text);
    }
  }

  ghost predicate MeansStrict(threshold: int) {
    forall text :: TextInvoiceScore(text) >= threshold <==> ContainsAny(Lower(text), STRICT_KEYWORDS)
  }

  /** At no other threshold does the test have that meaning. */
  lemma ThresholdsThatMeanStrict(threshold: int)
    ensures MeansStrict(threshold) <==> 45 <= threshold <= 52
  {
    BareInvoiceScores52("invoice");
    LooseTextScores44(Join(LOOSE_ENGLISH + LOOSE_HEBREW));
    if 45 <= threshold <= 52 {
      forall text ensures TextInvoiceScore(text) >= threshold <==> ContainsAny(Lower(text), STRICT_KEYWORDS) {
        StrictVerdict(text, threshold);
      }
    }
  }

  // ---------- The whole verdict on a file ----------

  /** What a text engine gives: None if it is not available or cannot open the file; an inner None is a page that fails. */
  type Engine = Option<seq<Option<string>>>

  /** A file on disk: its size, and its pages as PyMuPDF and as PyPDF2 read them. */
  datatype PdfFile = PdfFile(size: nat, pymupdf: Engine, pypdf: Engine)

  const MAX_PAGES: nat := 3

  function ReadablePages(pages: seq<Option<string>>): seq<string> {
    if pages == [] then []
    else (if pages[0].Some? then [pages[0].value] else []) + ReadablePages(pages[1..])
  }

  function FirstPages(e: Engine): seq<string> {
    if e.None? then []
    else ReadablePages(if |e.value| <= MAX_PAGES then e.value else e.value[..MAX_PAGES])
  }

  /** `extract_pdf_text_first_pages` */
  function ExtractText(f: PdfFile): string {
    var first := Strip(Join(FirstPages(f.pymupdf)));
    if first != "" then first else Join(FirstPages(f.pypdf))
  }

  /** `verify_pdf_is_invoice`; None is a file that does not exist. */
  function VerifyPdf(f: Option<PdfFile>, threshold: int): bool {
    if f.None? || f.value.size < MIN_PDF_SIZE then false
    else if threshold <= 0 then true
    else TextInvoiceScore(ExtractText(f.value)) >= threshold
  }

  /** The pages the verdict rests on. */
  function JudgedPages(f: PdfFile): seq<string> {
    if Strip(Join(FirstPages(f.pymupdf))) != "" then FirstPages(f.pymupdf) else FirstPages(f.pypdf)
  }

  lemma {:induction false} LowerStripLeft(s: string)
    ensures StripLeft(Lower(s)) == Lower(StripLeft(s))
  {
    if s == "" || !IsSpace(s[0]) {
    } else {
      assert Lower(s)[1..] == Lower(s[1..]);
      LowerStripLeft(s[1..]);
    }
  }

  lemma {:induction false} LowerStripRight(s: string)
    ensures StripRight(Lower(s)) == Lower(StripRight(s))
  {
    if s == "" || !IsSpace(s[|s| - 1]) {
    } else {
      assert Lower(s)[..|s| - 1] == Lower(s[..|s| - 1]);
      LowerStripRight(s[..|s| - 1]);
    }
  }

  lemma ExtractedKeyword(f: PdfFile, k: string)
    requires k in STRICT_ROOTS
    ensures Contains(Lower(ExtractText(f)), k) <==> SomeContains(LowerAll(JudgedPages(f)), k)
  {
    var j := Join(JudgedPages(f));
    assert k != "" && '\n' !in k && !IsSpace(k[0]) && !IsSpace(k[|k| - 1]);
    LowerJoin(JudgedPages(f));
    JoinContains(LowerAll(JudgedPages(f)), k);
    LowerStripLeft(j);
    LowerStripRight(StripLeft(j));
    assert Lower(Strip(j)) == Strip(Lower(j));
    StripKeepsWord(Lower(j), k);
  }

  /**
   The strict verdict on a file: accepted iff it is there, has at least 6000 bytes, and a readable page
   among its first three contains one of four words. Page breaks, stripping, the caps and the
   other thirty tokens make no difference.
   */
  lemma StrictVerdictOnFile(f: Option<PdfFile>, threshold: int)
    requires 45 <= threshold <= 52
    ensures VerifyPdf(f, threshold) <==>
      f.Some? && f.value.size >= MIN_PDF_SIZE
      && exists k :: k in STRICT_ROOTS && SomeContains(LowerAll(JudgedPages(f.value)), k)
  {
    if f.Some? {
      var t := ExtractText(f.value);
      StrictVerdict(t, threshold);
      StrictHasRoot(Lower(t));
      forall k | k in STRICT_ROOTS
        ensures Contains(Lower(t), k) <==> SomeContains(LowerAll(JudgedPages(f.value)), k)
      {
        ExtractedKeyword(f.value, k);
      }
    }
  }
}
