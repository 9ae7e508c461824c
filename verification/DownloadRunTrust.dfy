/**
 archive/graph_invoice_finder.v3.9.1.py: what is saved and what ends a run, said of the mail itself: word lists,
 hosts, file names and pages.
 */
module DownloadRunTrust {
  import opened Strings
  import opened Wrappers
  import opened Chains
  import opened FileSystem
  import opened PdfGate
  import opened DownloadRun
  import opened DownloadRunSafety
  import opened DownloadRunLedger

  // ---------- The rules ----------

  /** What the keyword gate demands of the readable pages. */
  predicate KeywordRule(pages: seq<Option<string>>, trusted: bool) {
    var seen := Readable(pages);
    (NoNegative(seen) && (trusted || TotalPos(seen) >= 1)) || TotalPos(BeforeNegative(seen)) >= 3
  }

  predicate ListedProvider(host: string) {
    exists d :: d in ["myinvoice.bezeq.co.il", "my.bezeq.co.il", "bmy.bezeq.co.il", "icount.co.il", "greeninvoice.co.il",
                      "ezcount.co.il", "tax.gov.il", "gov.il", "quickbooks.intuit.com", "stripe.com"] && EndsWith(host, d)
  }

  predicate BezeqPage(host: string) {
    exists d :: d in ["myinvoice.bezeq.co.il", "my.bezeq.co.il", "bmy.bezeq.co.il"] && EndsWith(host, d)
  }

  /** A municipal word in subject and preview, which are joined by a space. */
  predicate ListedMunicipal(m: Message) {
    exists w :: w in ["ארנונה", "עיריית", "עיריה", "שובר תשלום", "רשות מקומית", "תאגיד מים"]
      && Contains(m.subject + " " + m.preview, w)
  }

  /** A new digest, no failure, and the scratch path free. */
  predicate Storable(cfg: Config, dirs: set<Path>, seen: set<Digest>, id: string, blob: Content, io: Io) {
    cfg.hash(blob) !in seen && !io.WriteFails? && !io.FinalFails?
    && cfg.invDir + ["_tmp", "tmp__" + ShortMsgTag(id) + ".pdf"] !in dirs
  }

  predicate Breaking(cfg: Config, dirs: set<Path>, seen: set<Digest>, id: string, blob: Content, io: Io) {
    cfg.hash(blob) !in seen
    && (io.WriteFails? || io.FinalFails? || cfg.invDir + ["_tmp", "tmp__" + ShortMsgTag(id) + ".pdf"] in dirs)
  }

  lemma ScratchPath(cfg: Config, id: string)
    ensures cfg.TmpPath(ShortMsgTag(id)) == cfg.invDir + ["_tmp", "tmp__" + ShortMsgTag(id) + ".pdf"]
  {
  }

  lemma PassesExactly(cfg: Config, blob: Content, trusted: bool)
    ensures cfg.Passes(blob, trusted) <==> (cfg.verify ==> KeywordRule(cfg.pages(blob), trusted))
  {
    VerdictMeaning(cfg.pages(blob), trusted);
  }

  lemma TrustedLinkExactly(m: Message, l: Link)
    ensures TrustedLink(m, l) <==> ListedProvider(l.host) || ListedMunicipal(m)
    ensures WithinDomain(l.host, BEZEQ_HOSTS) <==> BezeqPage(l.host)
  {
  }

  // ---------- One item ----------

  /** Without a name an attachment counts as "file.pdf". */
  lemma LooksPdfExactly(a: Attachment)
    ensures LooksPdf(a) <==> Contains(Lower(a.contentType), "pdf") || a.name == "" || EndsWith(Lower(a.name), ".pdf")
  {
    assert Lower("file.pdf") == "file.pdf";
    EndsWithParts("file", ".pdf", "");
    assert "file" + ".pdf" == "file.pdf";
  }

  lemma AttachmentSavesExactly(cfg: Config, dirs: set<Path>, seen: set<Digest>, m: Message, a: Attachment)
    ensures AttachmentSaves(cfg, dirs, seen, m, a) <==>
      && (Contains(Lower(a.contentType), "pdf") || a.name == "" || EndsWith(Lower(a.name), ".pdf"))
      && !a.io.DownloadFails? && Storable(cfg, dirs, seen, m.id, a.blob, a.io)
      && (cfg.verify ==> KeywordRule(cfg.pages(a.blob), false))
  {
    LooksPdfExactly(a);
    ScratchPath(cfg, m.id);
    PassesExactly(cfg, a.blob, false);
  }

  /** A direct PDF is trusted for its host or a municipal word; a Bezeq page is opened only without one, and always trusted. */
  lemma LinkSavesExactly(cfg: Config, dirs: set<Path>, seen: set<Digest>, m: Message, l: Link)
    ensures LinkSaves(cfg, dirs, seen, m, l) <==>
      if l.direct.Some? then
        && Storable(cfg, dirs, seen, m.id, l.direct.value.blob, l.io)
        && (cfg.verify ==> KeywordRule(cfg.pages(l.direct.value.blob), ListedProvider(l.host) || ListedMunicipal(m)))
      else
        && BezeqPage(l.host) && !l.io.DownloadFails? && l.bezeq.Some?
        && Storable(cfg, dirs, seen, m.id, l.bezeq.value.blob, l.io)
        && (cfg.verify ==> KeywordRule(cfg.pages(l.bezeq.value.blob), true))
  {
    TrustedLinkExactly(m, l);
    ScratchPath(cfg, m.id);
    if l.direct.Some? {
      PassesExactly(cfg, l.direct.value.blob, TrustedLink(m, l));
    } else if l.bezeq.Some? {
      PassesExactly(cfg, l.bezeq.value.blob, true);
    }
  }

  /** What a failure leaves on disk: nothing, the bytes written so far, or the whole file, under the scratch name only. */
  lemma FailureLeaves(cfg: Config, s: State, o: Offer)
    requires cfg.hash(o.file.blob) !in s.seen && FailsToStore(cfg, s.disk.dirs, o)
    ensures var scratch := cfg.invDir + ["_tmp", "tmp__" + ShortMsgTag(o.id) + ".pdf"];
      StoreOffer(cfg, s, o).disk == s.disk.(files :=
        if o.io.WriteFails? then (if o.io.leftover.Some? then s.disk.files[scratch := o.io.leftover.value] else s.disk.files)
        else if scratch in s.disk.dirs then s.disk.files
        else s.disk.files[scratch := o.file.blob])
  {
    ScratchPath(cfg, o.id);
    var (d, v) := Store(cfg, s.disk, s.seen, ShortMsgTag(o.id), o.file, o.trusted, o.io);
    RecordKeepsDisk(s, o.id, KindOf(o.source), o.source, cfg.hash(o.file.blob), d, v);
  }

  lemma LinkEndsRunExactly(cfg: Config, dirs: set<Path>, seen: set<Digest>, m: Message, l: Link)
    ensures LinkCrashes(cfg, dirs, seen, m, l) <==>
      if l.direct.Some? then Breaking(cfg, dirs, seen, m.id, l.direct.value.blob, l.io)
      else
        && BezeqPage(l.host)
        && (l.io.DownloadFails? || (l.bezeq.Some? && Breaking(cfg, dirs, seen, m.id, l.bezeq.value.blob, l.io)))
  {
    TrustedLinkExactly(m, l);
    ScratchPath(cfg, m.id);
  }

  // ---------- One message ----------

  lemma ConsideredExactly(m: Message)
    ensures Considered(m) <==>
      m.hasAttachments || (!BodyHasNegative(m.subject + " " + m.preview)
                           && (BodyHasPositive(m.subject + " " + m.preview) || ListedMunicipal(m)))
  {
  }

  /** A negative word in subject or preview: a message without attachments leaves no trace, whatever its links hold. */
  lemma NegativeWordRejects(cfg: Config, s: State, m: Message, w: string)
    requires !m.hasAttachments && (w in HEB_NEG || w in EN_NEG)
    requires if w in HEB_NEG then Contains(m.subject, w) || Contains(m.preview, w)
             else Contains(Lower(m.subject), w) || Contains(Lower(m.preview), w)
    ensures MessageStep(cfg, s, m) == s
  {
    var t := m.subject + " " + m.preview;
    LowerConcat(m.subject + " ", m.preview);
    LowerConcat(m.subject, " ");
    if w in HEB_NEG {
      ContainsInJoined(m.subject, m.preview, w);
      assert ContainsAny(t, HEB_NEG);
    } else {
      ContainsInJoined(Lower(m.subject), Lower(m.preview), w);
      assert Lower(" ") == " ";
      assert ContainsAny(Lower(t), EN_NEG);
    }
  }

  lemma ContainsInJoined(a: string, b: string, w: string)
    requires Contains(a, w) || Contains(b, w)
    ensures Contains(a + " " + b, w)
  {
    var mid := if Contains(a, w) then a else b;
    ContainsBetween("", a, " " + b);
    ContainsBetween(a + " ", b, "");
    assert "" + a + (" " + b) == a + " " + b == a + " " + b + "";
    ContainsTransitive(a + " " + b, mid, w);
  }

  // ---------- Saved rows ----------

  /** The message and the link that put a file forward. */
  lemma LinkBehind(msgs: seq<Message>, o: Offer) returns (m: Message, l: Link)
    requires Offered(msgs, o) && !o.source.FromAttachment?
    ensures m in msgs && m.id == o.id && m.body.Some? && l in m.body.value
    ensures if o.source.FromLink? then l.direct == Some(o.file) && o.trusted == (ListedProvider(l.host) || ListedMunicipal(m))
            else l.direct.None? && BezeqPage(l.host) && l.bezeq == Some(o.file) && o.trusted
  {
    m :| m in msgs && Offers(m, o);
    l :| l in BodyLinks(m) && LinkOffer(m, l) == Some(o);
    TrustedLinkExactly(m, l);
  }

  /**
   A row from a direct link, in every reachable state: some message with its id has a link with these very
   bytes, and with `--verify` the pages satisfy the keyword rule, the trusted one only for a listed provider
   or a municipal word.
   */
  lemma SavedDirectLink(cfg: Config, msgs: seq<Message>, d0: Disk, s: State, i: nat) returns (m: Message, l: Link)
    requires Reaches(Steps(cfg, msgs), Start(d0), s) && i < |s.saved| && s.saved[i].source.FromLink?
    ensures var r := s.saved[i];
      && m in msgs && m.id == r.id && m.body.Some? && l in m.body.value
      && r.path in s.disk.files && l.direct.Some? && l.direct.value.blob == s.disk.files[r.path]
      && (cfg.verify ==> KeywordRule(cfg.pages(s.disk.files[r.path]), ListedProvider(l.host) || ListedMunicipal(m)))
  {
    var o := SavedFilesAreOffered(cfg, msgs, d0, s, i);
    m, l := LinkBehind(msgs, o);
    PassesExactly(cfg, o.file.blob, o.trusted);
  }

  /** A Bezeq row comes from a link on a Bezeq host that gave no PDF itself. */
  lemma SavedBezeqLink(cfg: Config, msgs: seq<Message>, d0: Disk, s: State, i: nat) returns (m: Message, l: Link)
    requires Reaches(Steps(cfg, msgs), Start(d0), s) && i < |s.saved| && s.saved[i].source.FromBezeq?
    ensures var r := s.saved[i];
      && m in msgs && m.id == r.id && m.body.Some? && l in m.body.value
      && r.path in s.disk.files && l.direct.None? && BezeqPage(l.host)
      && l.bezeq.Some? && l.bezeq.value.blob == s.disk.files[r.path]
      && (cfg.verify ==> KeywordRule(cfg.pages(s.disk.files[r.path]), true))
  {
    var o := SavedFilesAreOffered(cfg, msgs, d0, s, i);
    m, l := LinkBehind(msgs, o);
    PassesExactly(cfg, o.file.blob, true);
  }

  lemma SavedAttachment(cfg: Config, msgs: seq<Message>, d0: Disk, s: State, i: nat) returns (m: Message, a: Attachment)
    requires Reaches(Steps(cfg, msgs), Start(d0), s) && i < |s.saved| && s.saved[i].source.FromAttachment?
    ensures var r := s.saved[i];
      && m in msgs && m.id == r.id && m.hasAttachments && m.attachments.Some? && a in m.attachments.value
      && (Contains(Lower(a.contentType), "pdf") || a.name == "" || EndsWith(Lower(a.name), ".pdf"))
      && r.path in s.disk.files && a.blob == s.disk.files[r.path]
      && (cfg.verify ==> KeywordRule(cfg.pages(s.disk.files[r.path]), false))
  {
    var o := SavedFilesAreOffered(cfg, msgs, d0, s, i);
    m :| m in msgs && Offers(m, o);
    a :| a in m.attachments.value && LooksPdf(a) && o == AttachmentOffer(m, a);
    LooksPdfExactly(a);
    PassesExactly(cfg, o.file.blob, false);
  }

  /** A quarantined file lies in `quarantine` below the invoice directory, and its pages fail the untrusted rule at least. */
  lemma QuarantinedFile(cfg: Config, msgs: seq<Message>, d0: Disk, s: State, e: Entry)
    requires Reaches(Steps(cfg, msgs), Start(d0), s) && e in s.report && e.what.Quarantined?
    ensures var p, n := e.what.path, |cfg.invDir|;
      && |p| == n + 2 && p[..n] == cfg.invDir && p[n] == "quarantine" && p in s.disk.files
      && cfg.verify && cfg.keepQuarantine && !KeywordRule(cfg.pages(s.disk.files[p]), false)
  {
    AlwaysSound(cfg, msgs, d0, s);
    assert Justified(cfg, msgs, s, e);
    var o :| JustifiedBy(cfg, msgs, s, e, o);
    PassesExactly(cfg, o.file.blob, o.trusted);
    UnderQuarantine(cfg, e.what.path);
  }

  lemma UnderQuarantine(cfg: Config, p: Path)
    requires DirectChild(cfg.QuarantineDir(), p)
    ensures var n := |cfg.invDir|; |p| == n + 2 && p[..n] == cfg.invDir && p[n] == "quarantine"
  {
    var n := |cfg.invDir|;
    assert p[..n + 1] == cfg.invDir + ["quarantine"];
    assert p[n] == p[..n + 1][n] && p[..n] == p[..n + 1][..n];
  }

  /** And the converse for a neutral PDF: behind a link of an invoice message it is saved exactly if its host is listed. */
  lemma NeutralLinkSavedExactly(cfg: Config, d0: Disk, m: Message, l: Link, blob: Content, name: string, id: string)
    requires cfg.verify && cfg.pages(blob) == [Some("hello")] && ScratchFree(cfg, d0.dirs, id)
    requires l.direct == Some(Fetched(name, blob)) && l.io == Fine
    requires m == Message(id, "invoice", "", false, None, Some([l]))
    ensures |Run(cfg, Start(d0), [m]).saved| == if ListedProvider(l.host) then 1 else 0
  {
    InvoiceSubject(m);
    NeutralRule(cfg.pages(blob), "hello");
    PassesExactly(cfg, blob, true);
    PassesExactly(cfg, blob, false);
    NeutralLinkSaves(cfg, d0.dirs, m, l, blob);
    var s := Start(d0);
    LinkStepOutcome(cfg, s, m, l);
    OneLink(cfg, s, m, l);
  }

  lemma NeutralLinkSaves(cfg: Config, dirs: set<Path>, m: Message, l: Link, blob: Content)
    requires cfg.Passes(blob, true) && !cfg.Passes(blob, false) && ScratchFree(cfg, dirs, m.id) && !ListedMunicipal(m)
    requires l.direct.Some? && l.direct.value.blob == blob && l.io == Fine
    ensures LinkSaves(cfg, dirs, {}, m, l) <==> ListedProvider(l.host)
  {
    TrustedLinkExactly(m, l);
    assert LinkOffer(m, l).value.file.blob == blob;
  }

  lemma OneLink(cfg: Config, s: State, m: Message, l: Link)
    requires !s.crashed && Considered(m) && !m.hasAttachments && m.body == Some([l])
    ensures Run(cfg, s, [m]).saved == LinkStep(cfg, s, m, l).saved
  {
    assert [l][1..] == [] && [m][1..] == [];
    assert Links(cfg, s, m, [l]).saved == LinkStep(cfg, s, m, l).saved;
    assert Run(cfg, s, [m]) == MessageStep(cfg, s, m);
  }

  lemma NeutralRule(pages: seq<Option<string>>, page: string)
    requires page == "hello" && pages == [Some(page)]
    ensures KeywordRule(pages, true) && !KeywordRule(pages, false)
  {
    NeutralAcceptedExample(page);
    VerdictMeaning(pages, true);
    VerdictMeaning(pages, false);
  }

  lemma InvoiceSubject(m: Message)
    requires m.subject == "invoice" && m.preview == ""
    ensures Considered(m) && !ListedMunicipal(m)
  {
    var t := m.subject + " " + m.preview;
    InvoiceWord(t);
    forall w | w in HEB_MUNICIPAL ensures !Contains(t, w) {
      NoHebrewWord(t, w);
    }
  }

  lemma InvoiceWord(t: string)
    requires t == "invoice" + " " + ""
    ensures BodyHasPositive(t) && !BodyHasNegative(t) && forall c :: c in t ==> c <= 'z'
  {
    assert Lower(t) == t && 'y' !in t;
    NoEnglishNegative(t);
    NoHebrewNegative(t);
    ContainsBetween("", "invoice", " ");
    assert t == "" + "invoice" + " ";
    assert EN_POS[0] == "invoice";
    FirstHits(t, EN_POS);
  }
}
