/** archive/graph_invoice_finder.v3.7.4.py: the PDF verdict, said of the pages themselves. */
module InvoiceTextRules {
  import opened Strings
  import opened Wrappers
  import opened InvoiceText

  // ---------- The score ----------

  /**
   0.50 for one of four words, 0.03 for each Hebrew token up to 0.30, 0.02 for each English token up to 0.20. The
   cap at 1 is never met.
   */
  lemma ScoreExactly(text: string)
    requires text != ""
    ensures var t := Lower(text);
      var he := ["חשבונית", "חשבונית מס", "קבלה", "אסמכתא", "תשלום", "דרישת תשלום", "קבלה מס", "חשבונית מס קבלה",
                 "חיוב", "זיכוי", "שובר תשלום"]
              + ["מספר חשבונית", "סכום לתשלום", "יתרה לתשלום", "פירוט חיובים", "לצפייה בחשבונית", "הורדה",
                 "הורד קובץ", "קישור לחשבונית"];
      var en := ["invoice", "tax invoice", "receipt", "payment receipt", "billing statement", "payment request", "charge",
                 "credit note"]
              + ["invoice number", "amount due", "balance due", "view invoice", "download invoice", "download receipt",
                 "statement"];
      TextInvoiceScore(text) ==
        (if exists k :: k in ["חשבונית", "קבלה", "invoice", "receipt"] && Contains(t, k) then 50 else 0)
        + (if |HitPositions(t, he)| >= 10 then 30 else 3 * |HitPositions(t, he)|)
        + (if |HitPositions(t, en)| >= 10 then 20 else 2 * |HitPositions(t, en)|)
  {
    StrictHasRoot(Lower(text));
    CountHitsIsNumber(Lower(text), HEBREW_CORE + HEBREW_CONTEXT);
    CountHitsIsNumber(Lower(text), ENGLISH_CORE + ENGLISH_CONTEXT);
  }

  // ---------- The pages ----------

  /** Something other than space. */
  predicate HasInk(s: string) {
    exists i :: 0 <= i < |s| && !IsSpace(s[i])
  }

  predicate PageSaysInvoice(t: string) {
    exists k :: k in ["חשבונית", "קבלה", "invoice", "receipt"] && Contains(Lower(t), k)
  }

  /** t is the text of one of the first three pages. */
  predicate IsEarlyPage(e: Engine, t: string) {
    e.Some? && exists i :: 0 <= i < 3 && i < |e.value| && e.value[i] == Some(t)
  }

  ghost predicate EngineSeesText(e: Engine) {
    exists t :: IsEarlyPage(e, t) && HasInk(t)
  }

  ghost predicate EngineSaysInvoice(e: Engine) {
    exists t :: IsEarlyPage(e, t) && PageSaysInvoice(t)
  }

  lemma {:induction false} ReadableExactly(pages: seq<Option<string>>, t: string)
    ensures t in ReadablePages(pages) <==> exists i :: 0 <= i < |pages| && pages[i] == Some(t)
  {
    if pages == [] {
    } else {
      var rest := pages[1..];
      ReadableExactly(rest, t);
      assert forall i :: 0 < i < |pages| ==> pages[i] == rest[i - 1];
      if i :| 0 <= i < |rest| && rest[i] == Some(t) {
        assert pages[i + 1] == Some(t);
      }
    }
  }

  lemma EarlyPagesExactly(e: Engine, t: string)
    ensures t in FirstPages(e) <==> IsEarlyPage(e, t)
  {
    if e.Some? {
      var first := if |e.value| <= 3 then e.value else e.value[..3];
      ReadableExactly(first, t);
      assert forall i :: 0 <= i < |first| ==> first[i] == e.value[i];
      if i :| 0 <= i < 3 && i < |e.value| && e.value[i] == Some(t) {
        assert first[i] == Some(t);
      }
    }
  }

  lemma StripsToNothing(s: string)
    ensures Strip(s) != "" <==> HasInk(s)
  {
    var lo, hi := StripShape(s);
    if Strip(s) != "" {
      assert s[lo] == Strip(s)[0];
    }
  }

  lemma InkConcat(a: string, b: string)
    ensures HasInk(a + b) <==> HasInk(a) || HasInk(b)
  {
    if i :| 0 <= i < |a| && !IsSpace(a[i]) {
      assert (a + b)[i] == a[i];
    }
    if i :| 0 <= i < |b| && !IsSpace(b[i]) {
      assert (a + b)[|a| + i] == b[i];
    }
  }

  lemma {:induction false} InkJoined(parts: seq<string>)
    ensures HasInk(Join(parts)) <==> exists p :: p in parts && HasInk(p)
  {
    if parts == [] {
    } else if |parts| == 1 {
      assert parts[0] in parts;
    } else {
      var rest := parts[1..];
      assert parts == [parts[0]] + rest;
      InkConcat(parts[0] + "\n", Join(rest));
      InkConcat(parts[0], "\n");
      InkJoined(rest);
    }
  }

  lemma SeesTextExactly(e: Engine)
    ensures Strip(Join(FirstPages(e))) != "" <==> EngineSeesText(e)
  {
    StripsToNothing(Join(FirstPages(e)));
    InkJoined(FirstPages(e));
    forall t ensures t in FirstPages(e) <==> IsEarlyPage(e, t) {
      EarlyPagesExactly(e, t);
    }
  }

  lemma SaysInvoiceExactly(e: Engine)
    ensures (exists k :: k in STRICT_ROOTS && SomeContains(LowerAll(FirstPages(e)), k)) <==> EngineSaysInvoice(e)
  {
    var pages := FirstPages(e);
    forall t ensures t in pages <==> IsEarlyPage(e, t) {
      EarlyPagesExactly(e, t);
    }
    if k :| k in STRICT_ROOTS && SomeContains(LowerAll(pages), k) {
      var i :| 0 <= i < |pages| && Contains(LowerAll(pages)[i], k);
      assert pages[i] in pages && PageSaysInvoice(pages[i]);
    }
    if t :| IsEarlyPage(e, t) && PageSaysInvoice(t) {
      var k :| k in STRICT_ROOTS && Contains(Lower(t), k);
      var i :| 0 <= i < |pages| && pages[i] == t;
      assert LowerAll(pages)[i] in LowerAll(pages);
      assert SomeContains(LowerAll(pages), k);
    }
  }

  /**
   The strict verdict on a file of 6000 bytes or more: one of the first three pages says "invoice" or the like. The
   first engine is believed if it sees any text on them, the second is asked otherwise; unreadable pages are skipped.
   */
  lemma VerdictOnPages(f: PdfFile, threshold: int)
    requires 45 <= threshold <= 52
    ensures VerifyPdf(Some(f), threshold) <==>
      f.size >= 6000 && EngineSaysInvoice(if EngineSeesText(f.pymupdf) then f.pymupdf else f.pypdf)
  {
    StrictVerdictOnFile(Some(f), threshold);
    SeesTextExactly(f.pymupdf);
    SaysInvoiceExactly(f.pymupdf);
    SaysInvoiceExactly(f.pypdf);
  }

  /** Without a threshold only the size counts; a missing file is never an invoice. */
  lemma VerdictWithoutThreshold(f: PdfFile, threshold: int)
    ensures threshold <= 0 ==> (VerifyPdf(Some(f), threshold) <==> f.size >= 6000)
    ensures !VerifyPdf(None, threshold)
  {
  }

  /** A word on page 1, 2 or 3 is enough, whatever the other pages are; page 4 is never looked at. */
  lemma WordOnPage(size: nat, pages: seq<Option<string>>, other: Engine, i: nat, threshold: int)
    requires 45 <= threshold <= 52 && size >= 6000
    requires i < 3 && i < |pages| && pages[i].Some? && PageSaysInvoice(pages[i].value)
    ensures VerifyPdf(Some(PdfFile(size, Some(pages), other)), threshold)
    ensures VerifyPdf(Some(PdfFile(size, None, Some(pages))), threshold)
  {
    var t := pages[i].value;
    assert IsEarlyPage(Some(pages), t);
    WordIsInk(t);
    assert EngineSeesText(Some(pages)) && EngineSaysInvoice(Some(pages));
    VerdictOnPages(PdfFile(size, Some(pages), other), threshold);
    VerdictOnPages(PdfFile(size, None, Some(pages)), threshold);
  }

  lemma WordIsInk(t: string)
    requires PageSaysInvoice(t)
    ensures HasInk(t)
  {
    var k :| k in STRICT_ROOTS && Contains(Lower(t), k);
    RootsAreWords(k);
    var i :| 0 <= i <= |t| - |k| && OccursAt(Lower(t), k, i);
    assert Lower(t)[i] == Lower(t)[i..i + |k|][0] == k[0];
  }
}
