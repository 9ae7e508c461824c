/**
 archive/graph_invoice_finder.v3.9.1.py: the download run as a state machine.

 The mailbox, the network and PyMuPDF are inputs: a message carries what its attachments and
 links would deliver, and `Io` says which file or network operation fails. SHA-256 and the page
 texts of a PDF are functions in `Config`. Every theorem is for all messages and all failures.
 */
module DownloadRun {
  import opened Strings
  import opened Wrappers
  import opened Chains
  import opened FileSystem
  import opened UniqueNames
  import opened PdfGate

  // ---------- File names ----------

  predicate IsForbidden(c: char) {
    c in "\\/:*?\"<>|"
  }

  /** `re.sub(r'[\\/:*?"<>|]+', "_", s)` */
  function ReplaceForbidden(s: string): (r: string)
    ensures s != "" ==> r != ""
    ensures NoneForbidden(r)
  {
    if s == "" then ""
    else if !IsForbidden(s[0]) then [s[0]] + ReplaceForbidden(s[1..])
    else if |s| > 1 && IsForbidden(s[1]) then ReplaceForbidden(s[1..])
    else "_" + ReplaceForbidden(s[1..])
  }

  lemma ForbiddenExactly(c: char)
    ensures IsForbidden(c) <==>
      c == '\\' || c == '/' || c == ':' || c == '*' || c == '?' || c == '"' || c == '<' || c == '>' || c == '|'
  {
  }

  predicate AllForbidden(s: string) {
    forall c :: c in s ==> IsForbidden(c)
  }

  predicate NoneForbidden(s: string) {
    forall c :: c in s ==> !IsForbidden(c)
  }

  lemma {:induction false} ReplaceForbiddenRun(run: string, rest: string)
    requires AllForbidden(run) && run != "" && (rest == "" || !IsForbidden(rest[0]))
    ensures ReplaceForbidden(run + rest) == "_" + ReplaceForbidden(rest)
  {
    var s := run + rest;
    assert s[0] == run[0] && s[1..] == run[1..] + rest;
    if |run| == 1 {
      assert s[1..] == rest;
    } else {
      assert s[1] == run[1];
      ReplaceForbiddenRun(run[1..], rest);
    }
  }

  /** Every other character is kept, and each maximal run of forbidden ones becomes one underscore. */
  lemma {:induction false} ReplaceForbiddenExact(keep: string, run: string, rest: string)
    requires NoneForbidden(keep) && AllForbidden(run) && (rest == "" || !IsForbidden(rest[0]))
    ensures ReplaceForbidden(keep + run + rest) == keep + (if run == "" then "" else "_") + ReplaceForbidden(rest)
    decreases |keep|
  {
    var s := keep + run + rest;
    if keep == "" {
      assert s == run + rest;
      if run == "" {
        assert s == rest;
      } else {
        ReplaceForbiddenRun(run, rest);
      }
    } else {
      assert s[1..] == keep[1..] + run + rest;
      ReplaceForbiddenExact(keep[1..], run, rest);
    }
  }

  function SanitizeFilename(name: string): (r: string)
    ensures r != "" && NoneForbidden(r)
  {
    var s := ReplaceForbidden(Strip(name));
    if s == "" then "invoice.pdf" else s
  }

  /** A name without forbidden characters only loses the spaces around it; a blank one gets the default. */
  lemma SanitizeKeepsClean(name: string)
    requires NoneForbidden(Strip(name))
    ensures SanitizeFilename(name) == if Strip(name) == "" then "invoice.pdf" else Strip(name)
  {
    var s := Strip(name);
    ReplaceForbiddenExact(s, "", "");
    assert s + "" + "" == s;
  }

  lemma {:induction false} ReplacedEnds(s: string)
    requires s != ""
    ensures var r := ReplaceForbidden(s);
      r != "" && (r[0] == s[0] || r[0] == '_') && (r[|r| - 1] == s[|s| - 1] || r[|r| - 1] == '_')
  {
    var rest := s[1..];
    if |s| == 1 {
      assert ReplaceForbidden(rest) == "";
    } else {
      ReplacedEnds(rest);
      assert rest[|rest| - 1] == s[|s| - 1];
    }
  }

  /** Cleaning a name twice is cleaning it once: names cleaned at download stay as they are when a path is chosen. */
  lemma SanitizeIdempotent(name: string)
    ensures SanitizeFilename(SanitizeFilename(name)) == SanitizeFilename(name)
  {
    var s, r := Strip(name), SanitizeFilename(name);
    var lo, hi := StripShape(name);
    if s == "" {
      assert r == "invoice.pdf";
    } else {
      ReplacedEnds(s);
    }
    TrimmedIsStripped(r);
    SanitizeKeepsClean(r);
  }

  predicate IsAlnum(c: char) {
    '0' <= c <= '9' || 'a' <= c <= 'z' || 'A' <= c <= 'Z'
  }

  /** Digits and letters, capital or small. */
  lemma AlnumExactly(c: char)
    ensures IsAlnum(c) <==> '0' <= c <= '9' || 'a' <= LowerChar(c) <= 'z'
  {
  }

  function OnlyAlnum(s: string): (r: string)
    ensures AllAlnum(r)
  {
    if s == "" then "" else (if IsAlnum(s[0]) then [s[0]] else "") + OnlyAlnum(s[1..])
  }

  predicate AllAlnum(s: string) {
    forall c :: c in s ==> IsAlnum(c)
  }

  predicate NoneAlnum(s: string) {
    forall c :: c in s ==> !IsAlnum(c)
  }

  lemma {:induction false} OnlyAlnumConcat(a: string, b: string)
    ensures OnlyAlnum(a + b) == OnlyAlnum(a) + OnlyAlnum(b)
  {
    if a == "" {
      assert a + b == b;
    } else {
      assert (a + b)[1..] == a[1..] + b;
      OnlyAlnumConcat(a[1..], b);
    }
  }

  lemma {:induction false} OnlyAlnumOf(s: string)
    ensures AllAlnum(s) ==> OnlyAlnum(s) == s
    ensures NoneAlnum(s) ==> OnlyAlnum(s) == ""
  {
    if s == "" {
    } else {
      assert s == [s[0]] + s[1..];
      OnlyAlnumOf(s[1..]);
    }
  }

  function ShortMsgTag(msgId: string): (r: string)
    ensures 0 < |r| <= 8 && AllAlnum(r)
  {
    var s := OnlyAlnum(msgId);
    if s == "" then "msg" else if |s| >= 8 then s[|s| - 8..] else s
  }

  /** Other characters do not matter, wherever they stand. */
  lemma ShortMsgTagIgnores(before: string, other: string, after: string)
    requires NoneAlnum(other)
    ensures ShortMsgTag(before + other + after) == ShortMsgTag(before + after)
  {
    OnlyAlnumConcat(before + other, after);
    OnlyAlnumConcat(before, other);
    OnlyAlnumOf(other);
    OnlyAlnumConcat(before, after);
    assert OnlyAlnum(before) + OnlyAlnum(other) == OnlyAlnum(before);
  }

  /** The tag is the last eight letters and digits of the id, or all of them if there are fewer. */
  lemma ShortMsgTagIsTail(before: string, tail: string)
    requires AllAlnum(tail) && |tail| <= 8
    requires |tail| < 8 ==> NoneAlnum(before)
    ensures ShortMsgTag(before + tail) == if tail == "" then "msg" else tail
  {
    OnlyAlnumConcat(before, tail);
    OnlyAlnumOf(before);
    OnlyAlnumOf(tail);
    assert OnlyAlnum(before + tail)[|OnlyAlnum(before)|..] == tail;
  }

  /** `ensure_unique_path`: (stem, extension) of the wanted name, with its tag. */
  function NameParts(wanted: string, tag: string): (string, string) {
    var (stem, ext) := SplitExt(SanitizeFilename(wanted));
    (if tag == "" then stem else stem + "__" + tag, if ext == "" then ".pdf" else ext)
  }

  function UniquePath(d: Disk, dir: Path, wanted: string, tag: string): (r: Path)
    ensures IsUniqueName(d.Taken(), dir, NameParts(wanted, tag).0, NameParts(wanted, tag).1, r)
    ensures !d.Exists(r) && |r| == |dir| + 1 && r[..|dir|] == dir
  {
    var (stem, ext) := NameParts(wanted, tag);
    UniqueName(d.Taken(), dir, stem, ext)
  }

  /** The invented name is one path component, so the file is a direct child of its directory. */
  lemma UniquePathIsChild(d: Disk, dir: Path, wanted: string, msgId: string)
    ensures '/' !in UniquePath(d, dir, wanted, ShortMsgTag(msgId))[|dir|]
  {
    var (stem, ext) := NameParts(wanted, ShortMsgTag(msgId));
    var r := UniquePath(d, dir, wanted, ShortMsgTag(msgId));
    var (s, e) := SplitExt(SanitizeFilename(wanted));
    assert forall c :: c in s + e ==> !IsForbidden(c);
    assert forall c :: c in s ==> c in s + e;
    assert forall c :: c in e ==> c in s + e;
    assert '/' !in stem && '/' !in ext;
    if Plain(dir, stem, ext) in d.Taken() {
      var k := FirstFree(d.Taken(), dir, stem, ext, 2);
      DecimalIsDigits(k);
      assert r[|dir|] == stem + "__" + Decimal(k) + ext;
    }
  }

  /**
   The name a file gets: what is left of the wanted name, `__` and the message's tag, and the extension,
   or `.pdf` for a name without one.
   */
  lemma UniquePathWithExtension(d: Disk, dir: Path, wanted: string, msgId: string, stem: string, e: string)
    requires SanitizeFilename(wanted) == stem + "." + e
    requires '.' !in e && exists j :: 0 <= j < |stem| && stem[j] != '.'
    ensures NamedAfter(d, dir, stem + "__" + ShortMsgTag(msgId), "." + e, UniquePath(d, dir, wanted, ShortMsgTag(msgId)))
  {
    SplitExtExact(stem, e);
    UniqueNameSpelled(d, dir, stem + "__" + ShortMsgTag(msgId), "." + e);
  }

  lemma UniquePathWithoutExtension(d: Disk, dir: Path, wanted: string, msgId: string)
    requires var clean := SanitizeFilename(wanted);
      forall i, j :: 0 <= j < i < |clean| && clean[i] == '.' ==> clean[j] == '.'
    ensures NamedAfter(d, dir, SanitizeFilename(wanted) + "__" + ShortMsgTag(msgId), ".pdf",
                       UniquePath(d, dir, wanted, ShortMsgTag(msgId)))
  {
    SplitExtNone(SanitizeFilename(wanted));
    UniqueNameSpelled(d, dir, SanitizeFilename(wanted) + "__" + ShortMsgTag(msgId), ".pdf");
  }

  /** In every case the tag is in the name, after two underscores. */
  lemma UniquePathHasTag(d: Disk, dir: Path, wanted: string, msgId: string)
    ensures Contains(UniquePath(d, dir, wanted, ShortMsgTag(msgId))[|dir|], "__" + ShortMsgTag(msgId))
  {
    var (s, e) := SplitExt(SanitizeFilename(wanted));
    var (stem, ext) := NameParts(wanted, ShortMsgTag(msgId));
    var word, r := "__" + ShortMsgTag(msgId), UniquePath(d, dir, wanted, ShortMsgTag(msgId));
    assert stem == s + word;
    if Plain(dir, stem, ext) !in d.Taken() {
      ContainsBetween(s, word, ext);
      assert r[|dir|] == s + word + ext;
    } else {
      var k := FirstFree(d.Taken(), dir, stem, ext, 2);
      ContainsBetween(s, word, "__" + Decimal(k) + ext);
      assert r[|dir|] == s + word + ("__" + Decimal(k) + ext);
    }
  }

  lemma {:induction false} DecimalIsDigits(n: nat)
    ensures forall c :: c in Decimal(n) ==> '0' <= c <= '9'
  {
    if n < 10 {
    } else {
      DecimalIsDigits(n / 10);
    }
  }

  // ---------- Inputs ----------

  /**
   Where one item fails, if it does: fetching it, writing the temporary file (leaving some bytes
   there or not), or the last step (name, move or removal).
   */
  datatype Io = Fine | DownloadFails | WriteFails(leftover: Option<Content>) | FinalFails

  datatype Fetched = Fetched(name: string, blob: Content)

  datatype Attachment = Attachment(contentType: string, name: string, blob: Content, io: Io)

  /** A link of the body: its host, what a direct download gives, what the Bezeq fetcher gives. */
  datatype Link = Link(host: string, direct: Option<Fetched>, bezeq: Option<Fetched>, io: Io)

  /** `attachments` and `body` are None when the request for them raises. */
  datatype Message = Message(id: string, subject: string, preview: string, hasAttachments: bool,
                             attachments: Option<seq<Attachment>>, body: Option<seq<Link>>)

  datatype Config = Config(invDir: Path, keepQuarantine: bool, verify: bool,
                           hash: Content -> Digest, pages: Content -> seq<Option<string>>)
  {
    function TmpDir(): Path {
      invDir + ["_tmp"]
    }

    function QuarantineDir(): Path {
      invDir + ["quarantine"]
    }

    function TmpPath(tag: string): Path {
      TmpDir() + ["tmp__" + tag + ".pdf"]
    }

    /** Inside the scratch directory, the only place where files may be overwritten. */
    predicate InTmp(p: Path) {
      |p| > |invDir| + 1 && p[..|invDir| + 1] == TmpDir()
    }

    /** The keyword gate of `--verify`. */
    predicate Passes(blob: Content, trusted: bool) {
      !verify || Relevant(pages(blob), trusted)
    }
  }

  const TRUSTED_PROVIDERS: seq<string> := [
    "myinvoice.bezeq.co.il", "my.bezeq.co.il", "bmy.bezeq.co.il", "icount.co.il", "greeninvoice.co.il",
    "ezcount.co.il", "tax.gov.il", "gov.il", "quickbooks.intuit.com", "stripe.com"]

  const BEZEQ_HOSTS: seq<string> := ["myinvoice.bezeq.co.il", "my.bezeq.co.il", "bmy.bezeq.co.il"]

  predicate WithinDomain(host: string, domains: seq<string>) {
    exists d :: d in domains && EndsWith(host, d)
  }

  predicate TrustedLink(m: Message, l: Link) {
    WithinDomain(l.host, TRUSTED_PROVIDERS) || IsMunicipal(m.subject + " " + m.preview)
  }

  predicate LooksPdf(a: Attachment) {
    Contains(Lower(a.contentType), "pdf") || EndsWith(Lower(AttachmentName(a)), ".pdf")
  }

  function AttachmentName(a: Attachment): string {
    if a.name == "" then "file.pdf" else a.name
  }

  predicate Considered(m: Message) {
    m.hasAttachments || ShouldConsider(m.subject, m.preview)
  }

  // ---------- State ----------

  datatype Source = FromAttachment | FromLink | FromBezeq
  datatype SavedRow = SavedRow(id: string, source: Source, path: Path)
  datatype Reason = ListFailed | LinksNoPdf | NoAttachNoPdfLinks
  datatype RejectedRow = RejectedRow(id: string, reason: Reason)

  datatype Kind = AttachmentItem | LinkItem | BodyItem
  datatype What = SkippedDuplicate | Quarantined(path: Path) | VerifyFailed | SavedAs(path: Path) | Failed
  datatype Entry = Entry(id: string, kind: Kind, what: What)

  datatype State = State(disk: Disk, seen: set<Digest>, saved: seq<SavedRow>, rejected: seq<RejectedRow>,
                         report: seq<Entry>, crashed: bool)
  {
    function Report(id: string, kind: Kind, what: What): State {
      this.(report := report + [Entry(id, kind, what)])
    }

    function Reject(id: string, reason: Reason): State {
      this.(rejected := rejected + [RejectedRow(id, reason)])
    }
  }

  function Start(d: Disk): State {
    State(d, {}, [], [], [], false)
  }

  // ---------- One file ----------

  datatype Verdict = Duplicate | Quarantine(path: Path) | Dropped | Stored(path: Path) | Broken

  /** From a downloaded blob to its final place: hash test, temporary file, gate, unique name, move. */
  function Store(cfg: Config, d: Disk, seen: set<Digest>, tag: string, f: Fetched, trusted: bool, io: Io): (Disk, Verdict) {
    var tmp := cfg.TmpPath(tag);
    if cfg.hash(f.blob) in seen then (d, Duplicate)
    else if io.WriteFails? || tmp in d.dirs then
      (if io.WriteFails? && io.leftover.Some? then d.Write(tmp, io.leftover.value) else d, Broken)
    else
      var d1 := d.Write(tmp, f.blob);
      if io.FinalFails? then (d1, Broken)
      else if cfg.Passes(d1.files[tmp], trusted) then
        var path := UniquePath(d1, cfg.invDir, f.name, tag);
        (d1.Move(tmp, path), Stored(path))
      else if cfg.keepQuarantine then
        var path := UniquePath(d1, cfg.QuarantineDir(), f.name, tag);
        (d1.Move(tmp, path), Quarantine(path))
      else (d1.Remove(tmp), Dropped)
  }

  /** Bookkeeping after a file; a Broken link ends the run, a Broken attachment only its own item. */
  function Record(s: State, id: string, kind: Kind, source: Source, h: Digest, d: Disk, v: Verdict): State {
    var s1 := s.(disk := d);
    match v
    case Duplicate => s1.Report(id, kind, SkippedDuplicate)
    case Quarantine(path) => s1.Report(id, kind, Quarantined(path))
    case Dropped => s1.Report(id, kind, VerifyFailed)
    case Stored(path) =>
      s1.Report(id, kind, SavedAs(path)).(seen := s.seen + {h}, saved := s.saved + [SavedRow(id, source, path)])
    case Broken => if kind.LinkItem? then s1.(crashed := true) else s1.Report(id, kind, Failed)
  }

  /** A file a message puts forward, and how it does. */
  datatype Offer = Offer(id: string, source: Source, file: Fetched, trusted: bool, io: Io)

  function KindOf(source: Source): Kind {
    if source.FromAttachment? then AttachmentItem else LinkItem
  }

  function StoreOffer(cfg: Config, s: State, o: Offer): State {
    var (d, v) := Store(cfg, s.disk, s.seen, ShortMsgTag(o.id), o.file, o.trusted, o.io);
    Record(s, o.id, KindOf(o.source), o.source, cfg.hash(o.file.blob), d, v)
  }

  // ---------- One message ----------

  function AttachmentOffer(m: Message, a: Attachment): Offer {
    Offer(m.id, FromAttachment, Fetched(AttachmentName(a), a.blob), false, a.io)
  }

  function AttachmentStep(cfg: Config, s: State, m: Message, a: Attachment): State {
    if !LooksPdf(a) then s
    else if a.io.DownloadFails? then s.Report(m.id, AttachmentItem, Failed)
    else StoreOffer(cfg, s, AttachmentOffer(m, a))
  }

  function Attachments(cfg: Config, s: State, m: Message, atts: seq<Attachment>): State
    decreases |atts|
  {
    if atts == [] then s else Attachments(cfg, AttachmentStep(cfg, s, m, atts[0]), m, atts[1..])
  }

  /** A direct PDF wins; only otherwise is a Bezeq page opened. */
  function LinkOffer(m: Message, l: Link): Option<Offer> {
    if l.direct.Some? then Some(Offer(m.id, FromLink, l.direct.value, TrustedLink(m, l), l.io))
    else if WithinDomain(l.host, BEZEQ_HOSTS) && !l.io.DownloadFails? && l.bezeq.Some?
    then Some(Offer(m.id, FromBezeq, l.bezeq.value, true, l.io))
    else None
  }

  function LinkStep(cfg: Config, s: State, m: Message, l: Link): State {
    var o := LinkOffer(m, l);
    if o.Some? then StoreOffer(cfg, s, o.value)
    else if WithinDomain(l.host, BEZEQ_HOSTS) && l.io.DownloadFails? then s.(crashed := true)
    else s
  }

  /** Links are tried in order until one is saved (or the run dies). */
  function Links(cfg: Config, s: State, m: Message, links: seq<Link>): State
    decreases |links|
  {
    if links == [] then s
    else
      var s1 := LinkStep(cfg, s, m, links[0]);
      if s1.crashed || |s1.saved| > |s.saved| then s1 else Links(cfg, s1, m, links[1..])
  }

  function AttachmentPhase(cfg: Config, s: State, m: Message): State {
    if !m.hasAttachments then s
    else if m.attachments.None? then s.Reject(m.id, ListFailed)
    else Attachments(cfg, s, m, m.attachments.value)
  }

  function BodyLinks(m: Message): seq<Link> {
    if m.body.Some? then m.body.value else []
  }

  function LinkPhase(cfg: Config, s: State, m: Message): State {
    var s1 := if m.body.None? then s.Report(m.id, BodyItem, Failed) else s;
    Links(cfg, s1, m, BodyLinks(m))
  }

  function RejectPhase(s: State, m: Message): State {
    var s1 := if BodyLinks(m) != [] then s.Reject(m.id, LinksNoPdf) else s;
    if m.hasAttachments then s1 else s1.Reject(m.id, NoAttachNoPdfLinks)
  }

  function MessageStep(cfg: Config, s: State, m: Message): State {
    if s.crashed || !Considered(m) then s
    else
      var s1 := AttachmentPhase(cfg, s, m);
      if |s1.saved| > |s.saved| then s1
      else
        var s2 := LinkPhase(cfg, s1, m);
        if s2.crashed || |s2.saved| > |s1.saved| then s2 else RejectPhase(s2, m)
  }

  function Run(cfg: Config, s: State, msgs: seq<Message>): State
    decreases |msgs|
  {
    if msgs == [] then s else Run(cfg, MessageStep(cfg, s, msgs[0]), msgs[1..])
  }

  lemma {:induction false} CrashStays(cfg: Config, s: State, msgs: seq<Message>)
    ensures s.crashed ==> Run(cfg, s, msgs) == s
    decreases |msgs|
  {
    if msgs == [] || !s.crashed {
    } else {
      CrashStays(cfg, s, msgs[1..]);
    }
  }

  // ---------- Which items fail, and which failures end the run ----------

  /** The scratch path of this message can be written. */
  predicate ScratchFree(cfg: Config, dirs: set<Path>, id: string) {
    cfg.TmpPath(ShortMsgTag(id)) !in dirs
  }

  /** A file that meets a failure once its turn comes. */
  predicate FailsToStore(cfg: Config, dirs: set<Path>, o: Offer) {
    o.io.WriteFails? || o.io.FinalFails? || !ScratchFree(cfg, dirs, o.id)
  }

  lemma BrokenExactly(cfg: Config, s: State, o: Offer)
    ensures Store(cfg, s.disk, s.seen, ShortMsgTag(o.id), o.file, o.trusted, o.io).1.Broken?
       <==> cfg.hash(o.file.blob) !in s.seen && FailsToStore(cfg, s.disk.dirs, o)
  {
    if cfg.hash(o.file.blob) !in s.seen && !FailsToStore(cfg, s.disk.dirs, o) {
      StoreCases(cfg, s.disk, s.seen, ShortMsgTag(o.id), o.file, o.trusted, o.io);
    }
  }

  lemma RecordCrashes(s: State, id: string, source: Source, h: Digest, d: Disk, v: Verdict)
    requires !s.crashed
    ensures Record(s, id, KindOf(source), source, h, d, v).crashed <==> v.Broken? && !source.FromAttachment?
  {
  }

  /** An exception while handling an attachment is caught; one while handling a link's file ends the run. */
  lemma OfferCrashesExactly(cfg: Config, s: State, o: Offer)
    requires !s.crashed
    ensures StoreOffer(cfg, s, o).crashed
       <==> !o.source.FromAttachment? && cfg.hash(o.file.blob) !in s.seen && FailsToStore(cfg, s.disk.dirs, o)
  {
    var (d, v) := Store(cfg, s.disk, s.seen, ShortMsgTag(o.id), o.file, o.trusted, o.io);
    BrokenExactly(cfg, s, o);
    RecordCrashes(s, o.id, o.source, cfg.hash(o.file.blob), d, v);
  }

  /** The Bezeq page behind a link is opened and raises. */
  predicate BezeqRaises(m: Message, l: Link) {
    LinkOffer(m, l).None? && WithinDomain(l.host, BEZEQ_HOSTS) && l.io.DownloadFails?
  }

  /** A link that ends the run when its turn comes, unless its file has been saved already. */
  predicate CanCrash(cfg: Config, dirs: set<Path>, m: Message, l: Link) {
    BezeqRaises(m, l) || (LinkOffer(m, l).Some? && FailsToStore(cfg, dirs, LinkOffer(m, l).value))
  }

  predicate LinkIsSeen(cfg: Config, seen: set<Digest>, m: Message, l: Link) {
    LinkOffer(m, l).Some? && cfg.hash(LinkOffer(m, l).value.file.blob) in seen
  }

  /** Exactly which links end the run. */
  lemma LinkCrashesExactly(cfg: Config, s: State, m: Message, l: Link)
    requires !s.crashed
    ensures LinkStep(cfg, s, m, l).crashed <==> CanCrash(cfg, s.disk.dirs, m, l) && !LinkIsSeen(cfg, s.seen, m, l)
  {
    var o := LinkOffer(m, l);
    if o.Some? {
      OfferCrashesExactly(cfg, s, o.value);
    }
  }

  predicate MessageCanCrash(cfg: Config, dirs: set<Path>, m: Message) {
    Considered(m) && exists l :: l in BodyLinks(m) && CanCrash(cfg, dirs, m, l)
  }

  predicate SomeLinkCanCrash(cfg: Config, msgs: seq<Message>, dirs: set<Path>) {
    exists m :: m in msgs && MessageCanCrash(cfg, dirs, m)
  }

  // ---------- Atomic transitions ----------

  predicate Offers(m: Message, o: Offer) {
    && Considered(m)
    && if o.source.FromAttachment?
       then m.hasAttachments && m.attachments.Some?
            && exists a :: a in m.attachments.value && LooksPdf(a) && o == AttachmentOffer(m, a)
       else exists l :: l in BodyLinks(m) && LinkOffer(m, l) == Some(o)
  }

  ghost predicate Offered(msgs: seq<Message>, o: Offer) {
    exists m :: m in msgs && Offers(m, o)
  }

  /** What a `Failed` entry stands for: an attachment that met a failure, or a body that could not be fetched. */
  predicate FailureOf(cfg: Config, dirs: set<Path>, m: Message, kind: Kind) {
    && Considered(m)
    && match kind
       case AttachmentItem =>
         m.hasAttachments && m.attachments.Some?
         && exists a :: a in m.attachments.value && LooksPdf(a) && (!a.io.Fine? || !ScratchFree(cfg, dirs, m.id))
       case BodyItem => m.body.None?
       case LinkItem => false
  }

  /** What a rejected row stands for. */
  predicate RejectionOf(m: Message, reason: Reason) {
    && Considered(m)
    && match reason
       case ListFailed => m.hasAttachments && m.attachments.None?
       case LinksNoPdf => BodyLinks(m) != []
       case NoAttachNoPdfLinks => !m.hasAttachments
  }

  ghost predicate NotesFailure(cfg: Config, msgs: seq<Message>, s: State, t: State) {
    exists m, kind :: m in msgs && FailureOf(cfg, s.disk.dirs, m, kind) && t == s.Report(m.id, kind, Failed)
  }

  ghost predicate Rejects(msgs: seq<Message>, s: State, t: State) {
    exists m, reason :: m in msgs && RejectionOf(m, reason) && t == s.Reject(m.id, reason)
  }

  /** The steps a run is made of: handle an offered file, note a failure, reject a message, crash. */
  ghost predicate Atomic(cfg: Config, msgs: seq<Message>, s: State, t: State) {
    && !s.crashed
    && (|| (exists o :: Offered(msgs, o) && t == StoreOffer(cfg, s, o))
        || NotesFailure(cfg, msgs, s, t)
        || Rejects(msgs, s, t)
        || (t == s.(crashed := true) && SomeLinkCanCrash(cfg, msgs, s.disk.dirs)))
  }

  ghost function Steps(cfg: Config, msgs: seq<Message>): (State, State) -> bool {
    (s: State, t: State) => Atomic(cfg, msgs, s, t)
  }

  lemma OfferReach(cfg: Config, msgs: seq<Message>, s: State, m: Message, o: Offer)
    requires m in msgs && Offers(m, o) && !s.crashed
    ensures Reaches(Steps(cfg, msgs), s, StoreOffer(cfg, s, o))
  {
    assert Offered(msgs, o);
    assert Atomic(cfg, msgs, s, StoreOffer(cfg, s, o));
    ReachesStep(Steps(cfg, msgs), s, StoreOffer(cfg, s, o));
  }

  lemma FailureReach(cfg: Config, msgs: seq<Message>, s: State, m: Message, kind: Kind)
    requires m in msgs && FailureOf(cfg, s.disk.dirs, m, kind) && !s.crashed
    ensures Reaches(Steps(cfg, msgs), s, s.Report(m.id, kind, Failed))
  {
    assert NotesFailure(cfg, msgs, s, s.Report(m.id, kind, Failed));
    ReachesStep(Steps(cfg, msgs), s, s.Report(m.id, kind, Failed));
  }

  lemma RejectReach(cfg: Config, msgs: seq<Message>, s: State, m: Message, reason: Reason)
    requires m in msgs && RejectionOf(m, reason) && !s.crashed
    ensures Reaches(Steps(cfg, msgs), s, s.Reject(m.id, reason)) && !s.Reject(m.id, reason).crashed
  {
    assert Rejects(msgs, s, s.Reject(m.id, reason));
    ReachesStep(Steps(cfg, msgs), s, s.Reject(m.id, reason));
  }

  lemma CrashReach(cfg: Config, msgs: seq<Message>, s: State, m: Message, l: Link)
    requires m in msgs && Considered(m) && l in BodyLinks(m) && BezeqRaises(m, l) && !s.crashed
    ensures Reaches(Steps(cfg, msgs), s, s.(crashed := true))
  {
    assert MessageCanCrash(cfg, s.disk.dirs, m);
    ReachesStep(Steps(cfg, msgs), s, s.(crashed := true));
  }

  lemma AttachmentStepReach(cfg: Config, msgs: seq<Message>, s: State, m: Message, a: Attachment)
    requires m in msgs && Considered(m) && m.hasAttachments && m.attachments.Some? && !s.crashed
    requires a in m.attachments.value
    ensures Reaches(Steps(cfg, msgs), s, AttachmentStep(cfg, s, m, a)) && !AttachmentStep(cfg, s, m, a).crashed
  {
    if !LooksPdf(a) {
      ReachesSelf(Steps(cfg, msgs), s);
    } else if a.io.DownloadFails? {
      assert FailureOf(cfg, s.disk.dirs, m, AttachmentItem);
      FailureReach(cfg, msgs, s, m, AttachmentItem);
    } else {
      OfferReach(cfg, msgs, s, m, AttachmentOffer(m, a));
      OfferCrashesExactly(cfg, s, AttachmentOffer(m, a));
    }
  }

  lemma LinkStepReach(cfg: Config, msgs: seq<Message>, s: State, m: Message, l: Link)
    requires m in msgs && Considered(m) && l in BodyLinks(m) && !s.crashed
    ensures Reaches(Steps(cfg, msgs), s, LinkStep(cfg, s, m, l))
  {
    var o := LinkOffer(m, l);
    if o.Some? {
      OfferReach(cfg, msgs, s, m, o.value);
    } else if BezeqRaises(m, l) {
      CrashReach(cfg, msgs, s, m, l);
    } else {
      ReachesSelf(Steps(cfg, msgs), s);
    }
  }

  lemma {:induction false} AttachmentsReach(cfg: Config, msgs: seq<Message>, s: State, m: Message, atts: seq<Attachment>)
    requires m in msgs && Considered(m) && m.hasAttachments && m.attachments.Some? && !s.crashed
    requires forall a :: a in atts ==> a in m.attachments.value
    ensures Reaches(Steps(cfg, msgs), s, Attachments(cfg, s, m, atts)) && !Attachments(cfg, s, m, atts).crashed
    decreases |atts|
  {
    ReachesSelf(Steps(cfg, msgs), s);
    if atts == [] {
    } else {
      var s1 := AttachmentStep(cfg, s, m, atts[0]);
      AttachmentStepReach(cfg, msgs, s, m, atts[0]);
      AttachmentsReach(cfg, msgs, s1, m, atts[1..]);
      ReachesTransitive(Steps(cfg, msgs), s, s1, Attachments(cfg, s, m, atts));
    }
  }

  lemma {:induction false} LinksReach(cfg: Config, msgs: seq<Message>, s: State, m: Message, links: seq<Link>)
    requires m in msgs && Considered(m) && !s.crashed
    requires forall l :: l in links ==> l in BodyLinks(m)
    ensures Reaches(Steps(cfg, msgs), s, Links(cfg, s, m, links))
    decreases |links|
  {
    ReachesSelf(Steps(cfg, msgs), s);
    if links == [] {
    } else {
      var s1 := LinkStep(cfg, s, m, links[0]);
      LinkStepReach(cfg, msgs, s, m, links[0]);
      if !s1.crashed {
        LinksReach(cfg, msgs, s1, m, links[1..]);
        ReachesTransitive(Steps(cfg, msgs), s, s1, Links(cfg, s1, m, links[1..]));
      }
    }
  }

  lemma MessageReach(cfg: Config, msgs: seq<Message>, s: State, m: Message)
    requires m in msgs
    ensures Reaches(Steps(cfg, msgs), s, MessageStep(cfg, s, m))
  {
    ReachesSelf(Steps(cfg, msgs), s);
    if !s.crashed && Considered(m) {
      var s1 := AttachmentPhase(cfg, s, m);
      AttachmentPhaseReach(cfg, msgs, s, m);
      if |s1.saved| <= |s.saved| {
        var s2 := LinkPhase(cfg, s1, m);
        LinkPhaseReach(cfg, msgs, s1, m);
        ReachesTransitive(Steps(cfg, msgs), s, s1, s2);
        if !s2.crashed && |s2.saved| <= |s1.saved| {
          RejectPhaseReach(cfg, msgs, s2, m);
          ReachesTransitive(Steps(cfg, msgs), s, s2, RejectPhase(s2, m));
        }
      }
    }
  }

  lemma AttachmentPhaseReach(cfg: Config, msgs: seq<Message>, s: State, m: Message)
    requires m in msgs && Considered(m) && !s.crashed
    ensures Reaches(Steps(cfg, msgs), s, AttachmentPhase(cfg, s, m)) && !AttachmentPhase(cfg, s, m).crashed
  {
    ReachesSelf(Steps(cfg, msgs), s);
    if m.hasAttachments {
      if m.attachments.None? {
        RejectReach(cfg, msgs, s, m, ListFailed);
      } else {
        AttachmentsReach(cfg, msgs, s, m, m.attachments.value);
      }
    }
  }

  lemma LinkPhaseReach(cfg: Config, msgs: seq<Message>, s: State, m: Message)
    requires m in msgs && Considered(m) && !s.crashed
    ensures Reaches(Steps(cfg, msgs), s, LinkPhase(cfg, s, m))
  {
    if m.body.None? {
      var s1 := s.Report(m.id, BodyItem, Failed);
      FailureReach(cfg, msgs, s, m, BodyItem);
      LinksReach(cfg, msgs, s1, m, BodyLinks(m));
      ReachesTransitive(Steps(cfg, msgs), s, s1, LinkPhase(cfg, s, m));
    } else {
      LinksReach(cfg, msgs, s, m, BodyLinks(m));
    }
  }

  lemma RejectPhaseReach(cfg: Config, msgs: seq<Message>, s: State, m: Message)
    requires m in msgs && Considered(m) && !s.crashed
    ensures Reaches(Steps(cfg, msgs), s, RejectPhase(s, m))
  {
    ReachesSelf(Steps(cfg, msgs), s);
    var s1 := if BodyLinks(m) != [] then s.Reject(m.id, LinksNoPdf) else s;
    if BodyLinks(m) != [] {
      RejectReach(cfg, msgs, s, m, LinksNoPdf);
    }
    if !m.hasAttachments {
      RejectReach(cfg, msgs, s1, m, NoAttachNoPdfLinks);
      ReachesTransitive(Steps(cfg, msgs), s, s1, RejectPhase(s, m));
    }
  }

  /** A run is a chain of atomic transitions, so what they keep holds throughout. */
  lemma {:induction false} RunReach(cfg: Config, msgs: seq<Message>, s: State, todo: seq<Message>)
    requires forall m :: m in todo ==> m in msgs
    ensures Reaches(Steps(cfg, msgs), s, Run(cfg, s, todo))
    decreases |todo|
  {
    ReachesSelf(Steps(cfg, msgs), s);
    if todo == [] {
    } else {
      var s1 := MessageStep(cfg, s, todo[0]);
      MessageReach(cfg, msgs, s, todo[0]);
      RunReach(cfg, msgs, s1, todo[1..]);
      ReachesTransitive(Steps(cfg, msgs), s, s1, Run(cfg, s, todo));
    }
  }

  // ---------- Nothing is overwritten ----------

  /** From s to t: files outside the scratch directory are all still there unchanged, and the records only grow. */
  ghost predicate Extends(cfg: Config, s: State, t: State) {
    && (forall p :: p in s.disk.files && !cfg.InTmp(p) ==> p in t.disk.files && t.disk.files[p] == s.disk.files[p])
    && s.saved <= t.saved && s.rejected <= t.rejected && s.report <= t.report
    && s.seen <= t.seen
  }

  lemma ExtendsTransitive(cfg: Config, s: State, t: State, u: State)
    requires Extends(cfg, s, t) && Extends(cfg, t, u)
    ensures Extends(cfg, s, u)
  {
  }

  /** Writing the scratch file and moving it to a free path disturbs no other file. */
  lemma MoveOut(d: Disk, tmp: Path, path: Path, blob: Content)
    requires !d.Write(tmp, blob).Exists(path)
    ensures var d2 := d.Write(tmp, blob).Move(tmp, path);
      KeptBut(d, d2, {tmp}) && !d.Exists(path) && path in d2.files && d2.files[path] == blob
  {
    assert path != tmp;
  }

  lemma TmpPathIsInTmp(cfg: Config, tag: string)
    ensures cfg.InTmp(cfg.TmpPath(tag))
  {
    assert cfg.TmpPath(tag)[..|cfg.invDir| + 1] == cfg.TmpDir();
  }

  /** The three ways `Store` can end after the scratch file has been written and nothing failed. */
  lemma StoreCases(cfg: Config, d: Disk, seen: set<Digest>, tag: string, f: Fetched, trusted: bool, io: Io)
    requires cfg.hash(f.blob) !in seen && !io.WriteFails? && cfg.TmpPath(tag) !in d.dirs && !io.FinalFails?
    ensures var tmp := cfg.TmpPath(tag);
      var d1 := d.Write(tmp, f.blob);
      Store(cfg, d, seen, tag, f, trusted, io) ==
        if cfg.Passes(f.blob, trusted) then
          (d1.Move(tmp, UniquePath(d1, cfg.invDir, f.name, tag)), Stored(UniquePath(d1, cfg.invDir, f.name, tag)))
        else if cfg.keepQuarantine then
          (d1.Move(tmp, UniquePath(d1, cfg.QuarantineDir(), f.name, tag)),
           Quarantine(UniquePath(d1, cfg.QuarantineDir(), f.name, tag)))
        else (d1.Remove(tmp), Dropped)
  {
  }

  lemma StoreEffect(cfg: Config, d: Disk, seen: set<Digest>, tag: string, f: Fetched, trusted: bool, io: Io)
    ensures var (d1, v) := Store(cfg, d, seen, tag, f, trusted, io);
      && KeptBut(d, d1, {cfg.TmpPath(tag)}) && cfg.InTmp(cfg.TmpPath(tag))
      && (v.Duplicate? <==> cfg.hash(f.blob) in seen)
      && (v.Stored? ==>
            && cfg.Passes(f.blob, trusted)
            && |v.path| == |cfg.invDir| + 1 && v.path[..|cfg.invDir|] == cfg.invDir
            && !d.Exists(v.path) && v.path in d1.files && d1.files[v.path] == f.blob)
      && (v.Quarantine? ==>
            && !cfg.Passes(f.blob, trusted) && cfg.keepQuarantine
            && |v.path| == |cfg.invDir| + 2 && v.path[..|cfg.invDir| + 1] == cfg.QuarantineDir()
            && !d.Exists(v.path) && v.path in d1.files && d1.files[v.path] == f.blob)
  {
    var tmp := cfg.TmpPath(tag);
    TmpPathIsInTmp(cfg, tag);
    if cfg.hash(f.blob) !in seen && !io.WriteFails? && tmp !in d.dirs && !io.FinalFails? {
      StoreCases(cfg, d, seen, tag, f, trusted, io);
      var d1 := d.Write(tmp, f.blob);
      if cfg.Passes(f.blob, trusted) {
        MoveOut(d, tmp, UniquePath(d1, cfg.invDir, f.name, tag), f.blob);
      } else if cfg.keepQuarantine {
        MoveOut(d, tmp, UniquePath(d1, cfg.QuarantineDir(), f.name, tag), f.blob);
      }
    }
  }
}
