/**
 archive/graph_invoice_finder.v3.7.4.py: what each thing in a message is worth, said of its words, addresses,
 hosts and attachments; in hundredths.
 */
module ConfidenceRules {
  import opened Strings
  import opened InvoiceText
  import opened Confidence

  // ---------- Sender rules ----------

  /** The domain of an address is what follows its first `@`; without one it is empty. */
  lemma {:induction false} FromAtExact(local: string, dom: string)
    requires '@' !in local
    ensures FromAt(local + "@" + dom) == dom && FromAt(local) == ""
  {
    var s := local + "@" + dom;
    if local == "" {
      assert s[1..] == dom;
    } else {
      assert s[1..] == local[1..] + "@" + dom;
      FromAtExact(local[1..], dom);
    }
  }

  /**
   A rule is a sign and a token, in any letter case: "@" with the sender's domain is worth 0.20, the sender's
   address 0.25, anything else nothing; every sign but "+" takes it away.
   */
  lemma RuleExactly(sign: char, token: string, address: string, dom: string)
    requires Lower(address) == address && Lower(dom) == dom && FromAt(address) == dom
    requires !IsSpace(sign) && (token != "" ==> !IsSpace(token[|token| - 1]))
    ensures RuleDelta([sign] + token, address) ==
      (if sign == '+' then 1 else -1)
      * (if Lower(token) == "@" + dom then 20 else if Lower(token) == address then 25 else 0)
  {
    var rule := [sign] + token;
    TrimmedIsStripped(rule);
    assert rule[1..] == token;
    var t := Lower(token);
    assert t == "@" + dom ==> t[1..] == dom;
    assert t != "" && t[0] == '@' && dom == t[1..] ==> t == "@" + dom;
  }

  lemma SignedDomainRule(sign: char, local: string, dom: string, d: string)
    requires '@' !in local && Lower(local + "@" + dom) == local + "@" + dom && !IsSpace(sign)
    requires Lower(d) == dom && (d != "" ==> !IsSpace(d[|d| - 1]))
    ensures RuleDelta([sign] + ("@" + d), local + "@" + dom) == if sign == '+' then 20 else -20
  {
    LowerAddress(local, dom);
    FromAtExact(local, dom);
    LowerConcat("@", d);
    assert Lower("@") == "@";
    RuleExactly(sign, "@" + d, local + "@" + dom, dom);
  }

  lemma DomainRule(local: string, dom: string, d: string)
    requires '@' !in local && Lower(local + "@" + dom) == local + "@" + dom
    requires Lower(d) == dom && (d != "" ==> !IsSpace(d[|d| - 1]))
    ensures RuleDelta("+@" + d, local + "@" + dom) == 20
    ensures RuleDelta("-@" + d, local + "@" + dom) == -20
  {
    SignedDomainRule('+', local, dom, d);
    SignedDomainRule('-', local, dom, d);
    assert ['+'] + ("@" + d) == "+@" + d && ['-'] + ("@" + d) == "-@" + d;
  }

  lemma AddressRule(local: string, dom: string, a: string)
    requires '@' !in local && local != "" && Lower(local + "@" + dom) == local + "@" + dom
    requires Lower(a) == local + "@" + dom && !IsSpace(a[|a| - 1])
    ensures RuleDelta("+" + a, local + "@" + dom) == 25
    ensures RuleDelta("-" + a, local + "@" + dom) == -25
  {
    LowerAddress(local, dom);
    FromAtExact(local, dom);
    assert Lower(a)[0] == local[0];
    assert Lower(a) != "@" + dom;
    RuleExactly('+', a, local + "@" + dom, dom);
    RuleExactly('-', a, local + "@" + dom, dom);
  }

  lemma SameTails(a: string, x: string, b: string, y: string)
    requires a + x == b + y && |a| == |b|
    ensures x == y
  {
    assert (a + x)[|a|..] == x && (b + y)[|b|..] == y;
  }

  lemma LowerAddress(local: string, dom: string)
    requires Lower(local + "@" + dom) == local + "@" + dom
    ensures Lower(dom) == dom
  {
    LowerConcat(local + "@", dom);
    SameTails(Lower(local + "@"), Lower(dom), local + "@", dom);
  }

  /** The rule the program starts with: +0.20 for every sender at bezeq.co.il. */
  lemma DefaultRule(local: string)
    requires '@' !in local && Lower(local) == local
    ensures RuleDelta("+@bezeq.co.il", local + "@bezeq.co.il") == 20
  {
    var dom := "bezeq.co.il";
    assert Lower("@" + dom) == "@" + dom && Lower(dom) == dom;
    LowerConcat(local, "@" + dom);
    assert local + ("@" + dom) == local + "@" + dom == local + "@bezeq.co.il";
    DomainRule(local, dom, dom);
    assert "+@" + dom == "+@bezeq.co.il";
  }

  /** Blank rules count for nothing, and space around a rule does not matter. */
  lemma PaddedRule(rule: string, email: string)
    ensures RuleDelta(rule, email) == if Strip(rule) == "" then 0 else RuleDelta(Strip(rule), email)
  {
    var lo, hi := StripShape(rule);
    if Strip(rule) != "" {
      TrimmedIsStripped(Strip(rule));
    }
  }

  lemma RuleSign(rule: string, email: string)
    ensures Strip(rule) != "" && Strip(rule)[0] == '+' ==> 0 <= RuleDelta(rule, email) <= 25
    ensures Strip(rule) == "" || Strip(rule)[0] != '+' ==> -25 <= RuleDelta(rule, email) <= 0
  {
  }

  lemma LastRule(rules: seq<string>, rule: string, email: string)
    ensures SenderDelta(rules + [rule], email) == SenderDelta(rules, email) + RuleDelta(rule, email)
  {
    assert (rules + [rule])[..|rules|] == rules;
  }

  lemma {:induction false} OneMoreRule(a: seq<string>, rule: string, b: seq<string>, email: string)
    ensures SenderDelta(a + [rule] + b, email) == SenderDelta(a + b, email) + RuleDelta(rule, email)
  {
    if b == [] {
      assert a + [rule] + b == a + [rule] && a + b == a;
      LastRule(a, rule, email);
    } else {
      var init, last := b[..|b| - 1], b[|b| - 1];
      assert a + [rule] + b == a + [rule] + init + [last] && a + b == a + init + [last];
      LastRule(a + [rule] + init, last, email);
      LastRule(a + init, last, email);
      OneMoreRule(a, rule, init, email);
    }
  }

  /** Wherever it is put in the list, a "+" rule never lowers a confidence, any other never raises it; by at most 0.25. */
  lemma MoreRules(m: Email, a: seq<string>, rule: string, b: seq<string>, c: Settings, p: Patterns)
    ensures var before := Pipeline(SummandsOf(m, c.(senderRules := a + b), p));
      var after := Pipeline(SummandsOf(m, c.(senderRules := a + [rule] + b), p));
      && (Strip(rule) != "" && Strip(rule)[0] == '+' ==> before <= after <= before + 25)
      && (Strip(rule) == "" || Strip(rule)[0] != '+' ==> after <= before <= after + 25)
  {
    var s, t := SummandsOf(m, c.(senderRules := a + b), p), SummandsOf(m, c.(senderRules := a + [rule] + b), p);
    OneMoreRule(a, rule, b, Lower(m.fromAddress));
    RuleSign(rule, Lower(m.fromAddress));
    assert t == s.(sender := s.sender + RuleDelta(rule, Lower(m.fromAddress)));
    if t.sender >= s.sender {
      PipelineSlope(s, t);
    } else {
      PipelineSlope(t, s);
    }
  }

  // ---------- Links ----------

  /** A domain is under a root if it is the root or ends in a dot and the root. */
  lemma UnderRootExactly(sub: string, root: string, dom: string)
    ensures UnderRoot(root, root) && UnderRoot(sub + "." + root, root)
    ensures UnderRoot(dom, root) && dom != root ==> dom == dom[..|dom| - |root| - 1] + "." + root
  {
    assert (sub + "." + root)[|sub|..] == "." + root;
    EndsWithParts(sub, "." + root, dom);
    if EndsWith(dom, "." + root) {
      assert dom == dom[..|dom| - |root| - 1] + ("." + root);
    }
  }

  /** Every `https` link is usable, an `http` link only on an allowed domain, and no other. */
  lemma UsableExactly(l: Link, allowed: seq<string>, rest: string)
    ensures Lower(l.url) == "https://" + rest ==> IsUsable(l, allowed)
    ensures Lower(l.url) == "http://" + rest ==>
      (IsUsable(l, allowed) <==> exists r :: r in allowed && UnderRoot(Lower(l.dom), r))
    ensures IsUsable(l, allowed) ==> |l.url| >= 7 && (Lower(l.url)[..7] == "https:/" || Lower(l.url)[..7] == "http://")
  {
    var u := Lower(l.url);
    assert u == "http://" + rest ==> u[4] == ':';
    assert "https://" <= u ==> u[4] == 's' && u[..7] == "https:/";
  }

  lemma TrustedExactly(dom: string, trusted: seq<string>)
    ensures IsTrustedDomain(dom, trusted) <==>
      exists r :: r in trusted && (Lower(dom) == Lower(r) || EndsWith(Lower(dom), "." + Lower(r)))
  {
  }

  /** The signs of an invoice link: words in the URL or its path, or a PDF. */
  lemma LinkSignsExactly(l: Link)
    ensures HasKeyword(l) <==>
      || (exists k :: k in ["invoice", "receipt", "statement", "bill", "חשבונית", "קבלה", "תשלום", "payment", "download",
                            "voucher", "shovar", "ארנונה"] && Contains(Lower(l.url), k))
      || (exists k :: k in ["invoice", "receipt", "billing", "payments", "download", "documents", "חשבונית", "קבלה",
                            "תשלום", "voucher", "ארנונה"] && Contains(Lower(l.path), k))
    ensures HasSuffix(l) <==> EndsWith(Lower(l.url), ".pdf") || Contains(Lower(l.url), "?.pdf")
  {
    assert "?" + FILE_SUFFIX == "?.pdf";
  }

  /** What one link is worth, by the signs it has. */
  lemma OneLinkScore(l: Link, trusted: seq<string>, allowed: seq<string>)
    ensures var score := LinkScore([l], trusted, allowed);
      var t, s, k := IsTrustedDomain(l.dom, trusted), HasSuffix(l), HasKeyword(l);
      if !IsUsable(l, allowed) then score == 0
      else
        && (!t && !s && !k ==> score == 0) && (!t && !s && k ==> score == 15)
        && (!t && s && !k ==> score == 25) && (!t && s && k ==> score == 40)
        && (t && !s && !k ==> score == 40) && (t && !s && k ==> score == 55)
        && (t && s && !k ==> score == 65) && (t && s && k ==> score == 70)
  {
    assert forall x :: x in [l] <==> x == l;
  }

  /** The score of several links is that of the signs they have together. */
  lemma LinksTogether(a: seq<Link>, b: seq<Link>, trusted: seq<string>, allowed: seq<string>)
    ensures Max(LinkScore(a, trusted, allowed), LinkScore(b, trusted, allowed)) <= LinkScore(a + b, trusted, allowed)
      <= LinkScore(a, trusted, allowed) + LinkScore(b, trusted, allowed)
  {
    assert forall l :: l in a + b <==> l in a || l in b;
  }

  lemma OneKept(l: Link, trusted: seq<string>, allowed: seq<string>)
    ensures KeptUrls([l], trusted, allowed) == if IsKept(l, trusted, allowed) then [l.url] else []
  {
    assert [l][..0] == [];
  }

  /** Links are kept in body order. */
  lemma {:induction false} KeptInOrder(a: seq<Link>, b: seq<Link>, trusted: seq<string>, allowed: seq<string>)
    ensures KeptUrls(a + b, trusted, allowed) == KeptUrls(a, trusted, allowed) + KeptUrls(b, trusted, allowed)
  {
    if b == [] {
      assert a + b == a;
    } else {
      var n := |b| - 1;
      assert (a + b)[..|a| + n] == a + b[..n];
      KeptInOrder(a, b[..n], trusted, allowed);
    }
  }

  // ---------- Words ----------

  /** Each listed word counts once, a Hebrew one 0.06 and an English one 0.05, up to 0.80 in all. */
  lemma LanguageExactly(m: Email)
    ensures var he := ["חשבונית", "חשבונית מס", "קבלה", "אסמכתא", "תשלום", "דרישת תשלום", "קבלה מס", "חשבונית מס קבלה",
                       "חיוב", "זיכוי", "שובר תשלום"]
                    + ["מספר חשבונית", "סכום לתשלום", "יתרה לתשלום", "פירוט חיובים", "לצפייה בחשבונית", "הורדה",
                       "הורד קובץ", "קישור לחשבונית"];
      var en := ["invoice", "tax invoice", "receipt", "payment receipt", "billing statement", "payment request", "charge",
                 "credit note"]
              + ["invoice number", "amount due", "balance due", "view invoice", "download invoice", "download receipt",
                 "statement"];
      var text := Lower(m.subject + "\n" + m.preview + "\n" + m.bodyText);
      var worth := 6 * |HitPositions(text, he)| + 5 * |HitPositions(text, en)|;
      LanguageConfidence(m) == if worth <= 80 then worth else 80
  {
    CountHitsIsNumber(Blob(m), HEBREW_CORE + HEBREW_CONTEXT);
    CountHitsIsNumber(Blob(m), ENGLISH_CORE + ENGLISH_CONTEXT);
  }

  /** A word between two characters that are no part of it. */
  lemma WordBetween(before: string, word: string, after: string, isWordChar: char -> bool)
    requires before == "" || !isWordChar(before[|before| - 1])
    requires after == "" || !isWordChar(after[0])
    ensures HasWord(before + word + after, word, isWordChar)
  {
    var s, i := before + word + after, |before|;
    assert s[i..i + |word|] == word;
    assert OccursAt(s, word, i);
  }

  lemma WordParts(s: string, word: string, isWordChar: char -> bool) returns (before: string, after: string)
    requires HasWord(s, word, isWordChar)
    ensures s == before + word + after
    ensures before == "" || !isWordChar(before[|before| - 1])
    ensures after == "" || !isWordChar(after[0])
  {
    var i :| 0 <= i <= |s| - |word| && OccursAt(s, word, i)
      && (i == 0 || !isWordChar(s[i - 1])) && (i + |word| == |s| || !isWordChar(s[i + |word|]));
    before, after := s[..i], s[i + |word|..];
  }

  /** Two Hebrew words anywhere in the subject, or two English ones as whole words, are worth 0.35; a donation receipt 0.20. */
  lemma SubjectBonuses(m: Email, isWordChar: char -> bool)
    ensures var s := Lower(m.subject);
      && SubjectStrongBonus(m.subject, isWordChar) ==
           (if Contains(s, "חשבונית") || Contains(s, "קבלה")
               || HasWord(s, "invoice", isWordChar) || HasWord(s, "receipt", isWordChar) then 35 else 0)
      && DonationBonus(m.subject) ==
           (if Contains(s, "קבלה") && exists k :: k in ["תרומה", "עמותה", "מלכ\"ר", "ע\"ר"] && Contains(s, k) then 20 else 0)
  {
  }

  // ---------- Attachments ----------

  /** A file name of six or more digits and ".pdf". */
  lemma NumberedPdfExactly(digits: string, name: string)
    ensures |digits| >= 6 && (forall c :: c in digits ==> '0' <= c <= '9') ==> IsNumberedPdf(digits + ".pdf")
    ensures IsNumberedPdf(name) ==>
      && |name| >= 10 && name == name[..|name| - 4] + ".pdf"
      && forall i :: 0 <= i < |name| - 4 ==> '0' <= name[i] <= '9'
  {
    EndsWithParts(digits, ".pdf", name);
    var n := digits + ".pdf";
    assert forall i :: 0 <= i < |digits| ==> digits[i] in digits;
    assert forall i :: 0 <= i < |n| - 4 ==> n[i] == digits[i];
  }

  /** An attachment is worth 0.25, a numbered PDF under a municipal subject 0.18 more, and a notice costs 0.25. */
  lemma AttachmentBonuses(m: Email, p: Patterns)
    ensures AttachmentBonus(m.hits) == (if |m.hits| > 0 then 25 else 0)
    ensures MunicipalBonus(m) ==
      (if (exists k :: k in ["ארנונה", "שובר תשלום", "עיריית", "עיריה", "עירייה", "רשות מקומית", "תאגיד מים", "ביוב",
                             "אגרת", "היטל"] && Contains(Lower(m.subject), k))
          && (exists i :: 0 <= i < |m.hits| && Lower(m.hits[i].contentType) == "application/pdf"
                && IsNumberedPdf(Lower(m.hits[i].name))) then 18 else 0)
    ensures NoticePenalty(m, p) == (if exists i :: 0 <= i < |m.hits| && p.isNotice(m.hits[i].name) then -25 else 0)
  {
    assert forall a :: a in m.hits <==> exists i :: 0 <= i < |m.hits| && m.hits[i] == a;
    assert CountHits(Lower(m.subject), MUNICIPAL) > 0 <==> ContainsAny(Lower(m.subject), MUNICIPAL);
  }

  // ---------- Deductions and the user's expressions ----------

  /** The positions of the negative keywords that count. */
  function NegativePositions(blob: string, negatives: seq<string>): set<nat> {
    set i: nat | i < |negatives| && Strip(negatives[i]) != "" && Contains(blob, Lower(negatives[i]))
  }

  lemma OneNegative(blob: string, w: string)
    ensures NegativeHits(blob, [w]) == if Strip(w) != "" && Contains(blob, Lower(w)) then 1 else 0
  {
    assert [w][1..] == [];
  }

  lemma PositionsGrow(blob: string, init: seq<string>, last: string)
    ensures NegativePositions(blob, init + [last]) ==
      NegativePositions(blob, init) + if Strip(last) != "" && Contains(blob, Lower(last)) then {|init|} else {}
  {
  }

  lemma {:induction false} NegativeHitsIsNumber(blob: string, negatives: seq<string>)
    ensures NegativeHits(blob, negatives) == |NegativePositions(blob, negatives)|
  {
    if negatives == [] {
      assert NegativePositions(blob, negatives) == {};
    } else {
      var n := |negatives| - 1;
      var init, last := negatives[..n], negatives[n];
      assert negatives == init + [last];
      NegativeHitsConcat(blob, init, [last]);
      NegativeHitsIsNumber(blob, init);
      OneNegative(blob, last);
      PositionsGrow(blob, init, last);
      assert n !in NegativePositions(blob, init);
    }
  }

  /** Each negative keyword found costs 0.08, and any number of matching subject expressions is worth 0.20. */
  lemma KeywordAndRegexSummands(m: Email, c: Settings, p: Patterns)
    ensures SummandsOf(m, c, p).negative == -8 * |NegativePositions(Blob(m), c.negatives)|
    ensures SummandsOf(m, c, p).regex ==
      if exists i :: 0 <= i < |p.subjectRegexes| && p.subjectRegexes[i](m.subject) then 20 else 0
  {
    NegativeHitsIsNumber(Blob(m), c.negatives);
  }

  // ---------- The sum ----------

  /** As long as no cap is met on the way, the confidence is the plain sum, so each bonus has its full effect. */
  lemma PlainSum(s: Summands)
    requires s.lang + s.link + s.attach <= 100
    requires s.lang + s.link + s.attach + s.strong + s.donation + s.muni <= 100
    requires 0 <= Total(s) - s.sender - s.negative - s.regex <= 100 && 0 <= Total(s) - s.negative - s.regex <= 100
    requires 0 <= Total(s) - s.regex <= 100 && 0 <= Total(s) <= 100
    ensures Pipeline(s) == Total(s)
  {
  }

  /** Which cap comes where: the first sum is cut at 1 before the bonuses, those before the notice, and so on. */
  lemma CapsInOrder()
    ensures Pipeline(Summands(80, 70, 25, 0, 0, 0, -25, 0, 0, 0)) == 75
    ensures Pipeline(Summands(80, 0, 0, 35, 0, 0, -25, 0, 0, 0)) == 75
    ensures Pipeline(Summands(80, 40, 0, 0, 0, 0, 0, -25, 0, 20)) == 95
    ensures Pipeline(Summands(10, 0, 0, 0, 0, 0, -25, 20, 0, 0)) == 20
    ensures Pipeline(Summands(10, 0, 0, 0, 0, 0, 0, -25, -8, 20)) == 20
    ensures Pipeline(Summands(10, 0, 0, 0, 0, 0, 0, 0, -16, 20)) == 20
  {
  }
}
