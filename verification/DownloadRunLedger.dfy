/** What one message, and a whole v3.9.1 run, add to the records; and that no acceptable file is missed. */
module DownloadRunLedger {
  import opened Wrappers
  import opened Chains
  import opened FileSystem
  import opened DownloadRun
  import opened DownloadRunSafety

  // ---------- Report entries and rows of one message ----------

  function PdfLooking(atts: seq<Attachment>): nat {
    if atts == [] then 0 else (if LooksPdf(atts[0]) then 1 else 0) + PdfLooking(atts[1..])
  }

  /** t's report is s's plus n entries of this message and kind. */
  ghost predicate Reported(s: State, t: State, id: string, kind: Kind, n: nat) {
    && |t.report| == |s.report| + n && s.report <= t.report
    && forall i :: |s.report| <= i < |t.report| ==> t.report[i].id == id && t.report[i].kind == kind
  }

  /** t's saved rows are s's plus n rows of this message, from attachments or from links. */
  ghost predicate SavedMore(s: State, t: State, id: string, kind: Kind, n: nat) {
    && |t.saved| == |s.saved| + n && s.saved <= t.saved
    && forall i :: |s.saved| <= i < |t.saved| ==> t.saved[i].id == id && KindOf(t.saved[i].source) == kind
  }

  /** An offer adds one report entry, and a row if it is stored; one that ends the run adds nothing. */
  lemma OfferLedger(cfg: Config, s: State, o: Offer)
    requires !s.crashed
    ensures var t := StoreOffer(cfg, s, o);
      && Reported(s, t, o.id, KindOf(o.source), if t.crashed then 0 else 1)
      && t.rejected == s.rejected
      && (SavedMore(s, t, o.id, KindOf(o.source), 0) || SavedMore(s, t, o.id, KindOf(o.source), 1))
  {
    var (d, v) := Store(cfg, s.disk, s.seen, ShortMsgTag(o.id), o.file, o.trusted, o.io);
    RecordLedger(s, o.id, o.source, cfg.hash(o.file.blob), d, v);
  }

  lemma RecordLedger(s: State, id: string, source: Source, h: Digest, d: Disk, v: Verdict)
    requires !s.crashed
    ensures var t := Record(s, id, KindOf(source), source, h, d, v);
      && Reported(s, t, id, KindOf(source), if t.crashed then 0 else 1)
      && t.rejected == s.rejected
      && SavedMore(s, t, id, KindOf(source), if v.Stored? then 1 else 0)
  {
  }

  /** Every attachment that looks like a PDF yields exactly one report entry, whatever happens to it. */
  lemma {:induction false} AttachmentsLedger(cfg: Config, s: State, m: Message, atts: seq<Attachment>) returns (n: nat)
    requires !s.crashed
    ensures var t := Attachments(cfg, s, m, atts);
      && !t.crashed && t.rejected == s.rejected
      && Reported(s, t, m.id, AttachmentItem, PdfLooking(atts))
      && SavedMore(s, t, m.id, AttachmentItem, n) && n <= PdfLooking(atts)
    decreases |atts|
  {
    n := 0;
    if atts == [] {
    } else {
      var s1 := AttachmentStep(cfg, s, m, atts[0]);
      if LooksPdf(atts[0]) && !atts[0].io.DownloadFails? {
        OfferLedger(cfg, s, AttachmentOffer(m, atts[0]));
        OfferCrashesExactly(cfg, s, AttachmentOffer(m, atts[0]));
      }
      var k := AttachmentsLedger(cfg, s1, m, atts[1..]);
      n := k + |s1.saved| - |s.saved|;
    }
  }

  /** Links of one message save at most one file, and each reports at most once. */
  lemma {:induction false} LinksLedger(cfg: Config, s: State, m: Message, links: seq<Link>) returns (n: nat, k: nat)
    requires !s.crashed
    ensures var t := Links(cfg, s, m, links);
      && t.rejected == s.rejected
      && Reported(s, t, m.id, LinkItem, k) && k <= |links|
      && SavedMore(s, t, m.id, LinkItem, n) && n <= 1
    decreases |links|
  {
    n, k := 0, 0;
    if links == [] {
    } else {
      var o := LinkOffer(m, links[0]);
      if o.Some? {
        OfferLedger(cfg, s, o.value);
      }
      var s1 := LinkStep(cfg, s, m, links[0]);
      if s1.crashed || |s1.saved| > |s.saved| {
        n, k := |s1.saved| - |s.saved|, |s1.report| - |s.report|;
      } else {
        n, k := LinksLedger(cfg, s1, m, links[1..]);
        k := k + |s1.report| - |s.report|;
      }
    }
  }

  function ReportedAttachments(m: Message): nat {
    if m.hasAttachments && m.attachments.Some? then PdfLooking(m.attachments.value) else 0
  }

  /** The rejected rows a message gets when nothing of it was saved and the run goes on. */
  function Rejections(m: Message, anySaved: bool, crashed: bool): seq<RejectedRow> {
    (if m.hasAttachments && m.attachments.None? then [RejectedRow(m.id, ListFailed)] else []) +
    (if !anySaved && !crashed && BodyLinks(m) != [] then [RejectedRow(m.id, LinksNoPdf)] else []) +
    (if !anySaved && !crashed && !m.hasAttachments then [RejectedRow(m.id, NoAttachNoPdfLinks)] else [])
  }

  /**
   One message's ledger: one entry per PDF-looking attachment, first; then, only if no attachment was
   saved, at most one body entry and one per link, and at most one file saved from a link; and exactly
   which rejected rows. A message failing the keyword gate leaves no trace at all.
   */
  lemma MessageLedger(cfg: Config, s: State, m: Message) returns (fromAtts: nat, fromLinks: nat)
    requires !s.crashed
    ensures var t := MessageStep(cfg, s, m);
      && (!Considered(m) ==> t == s)
      && (Considered(m) ==>
            && (fromAtts == 0 || fromLinks == 0) && fromLinks <= 1
            && |t.saved| == |s.saved| + fromAtts + fromLinks && s.saved <= t.saved
            && (forall i :: |s.saved| <= i < |t.saved| ==>
                  t.saved[i].id == m.id
                  && KindOf(t.saved[i].source) == if fromAtts > 0 then AttachmentItem else LinkItem)
            && |s.report| + ReportedAttachments(m) <= |t.report| && s.report <= t.report
            && (forall i :: |s.report| <= i < |t.report| ==>
                  t.report[i].id == m.id
                  && (t.report[i].kind.AttachmentItem? <==> i < |s.report| + ReportedAttachments(m)))
            && (fromAtts > 0 ==> |t.report| == |s.report| + ReportedAttachments(m))
            && |t.report| <= |s.report| + ReportedAttachments(m) + 1 + |BodyLinks(m)|
            && t.rejected == s.rejected + Rejections(m, fromAtts + fromLinks > 0, t.crashed))
  {
    fromAtts, fromLinks := 0, 0;
    if Considered(m) {
      var s1 := AttachmentPhase(cfg, s, m);
      fromAtts := AttachmentPhaseLedger(cfg, s, m);
      if fromAtts == 0 {
        fromLinks := LinkPhaseLedger(cfg, s1, m);
      }
    }
  }

  lemma AttachmentPhaseLedger(cfg: Config, s: State, m: Message) returns (n: nat)
    requires !s.crashed
    ensures var t := AttachmentPhase(cfg, s, m);
      && !t.crashed && Reported(s, t, m.id, AttachmentItem, ReportedAttachments(m))
      && SavedMore(s, t, m.id, AttachmentItem, n)
      && t.rejected == s.rejected + if m.hasAttachments && m.attachments.None? then [RejectedRow(m.id, ListFailed)] else []
  {
    n := 0;
    if m.hasAttachments && m.attachments.Some? {
      n := AttachmentsLedger(cfg, s, m, m.attachments.value);
    }
  }

  lemma LinkPhaseLedger(cfg: Config, s: State, m: Message) returns (n: nat)
    requires !s.crashed
    ensures var t := LinkPhase(cfg, s, m);
      && t.rejected == s.rejected && s.report <= t.report && |t.report| <= |s.report| + 1 + |BodyLinks(m)|
      && (forall i :: |s.report| <= i < |t.report| ==> t.report[i].id == m.id && !t.report[i].kind.AttachmentItem?)
      && SavedMore(s, t, m.id, LinkItem, n) && n <= 1
  {
    var s1 := if m.body.None? then s.Report(m.id, BodyItem, Failed) else s;
    var k;
    n, k := LinksLedger(cfg, s1, m, BodyLinks(m));
  }

  // ---------- What is saved, and what ends the run ----------

  /** The file would be saved now: new digest, no failure, gate passed. */
  predicate Saves(cfg: Config, dirs: set<Path>, seen: set<Digest>, o: Offer) {
    cfg.hash(o.file.blob) !in seen && !FailsToStore(cfg, dirs, o) && cfg.Passes(o.file.blob, o.trusted)
  }

  /** An offer is saved exactly then; otherwise it leaves the rows and the digests as they are. */
  lemma OfferOutcome(cfg: Config, s: State, o: Offer)
    requires !s.crashed
    ensures var t := StoreOffer(cfg, s, o);
      && t.disk.dirs == s.disk.dirs
      && if Saves(cfg, s.disk.dirs, s.seen, o)
         then !t.crashed && |t.saved| == |s.saved| + 1 && t.seen == s.seen + {cfg.hash(o.file.blob)}
         else t.saved == s.saved && t.seen == s.seen
  {
    var v := OfferEffect(cfg, s, o);
    BrokenExactly(cfg, s, o);
    OfferCrashesExactly(cfg, s, o);
    if cfg.hash(o.file.blob) !in s.seen && !FailsToStore(cfg, s.disk.dirs, o) {
      StoreCases(cfg, s.disk, s.seen, ShortMsgTag(o.id), o.file, o.trusted, o.io);
    }
  }

  predicate AttachmentSaves(cfg: Config, dirs: set<Path>, seen: set<Digest>, m: Message, a: Attachment) {
    LooksPdf(a) && !a.io.DownloadFails? && Saves(cfg, dirs, seen, AttachmentOffer(m, a))
  }

  predicate SomeAttachmentSaves(cfg: Config, dirs: set<Path>, seen: set<Digest>, m: Message, atts: seq<Attachment>) {
    exists i :: 0 <= i < |atts| && AttachmentSaves(cfg, dirs, seen, m, atts[i])
  }

  lemma AttachmentStepOutcome(cfg: Config, s: State, m: Message, a: Attachment)
    requires !s.crashed
    ensures var t := AttachmentStep(cfg, s, m, a);
      && t.disk.dirs == s.disk.dirs && !t.crashed && |t.saved| >= |s.saved|
      && (|t.saved| > |s.saved| <==> AttachmentSaves(cfg, s.disk.dirs, s.seen, m, a))
      && (|t.saved| == |s.saved| ==> t.seen == s.seen)
  {
    if LooksPdf(a) && !a.io.DownloadFails? {
      OfferOutcome(cfg, s, AttachmentOffer(m, a));
      OfferCrashesExactly(cfg, s, AttachmentOffer(m, a));
    }
  }

  /** An attachment is saved exactly when one could be saved with the digests known before. */
  lemma {:induction false} AttachmentsOutcome(cfg: Config, s: State, m: Message, atts: seq<Attachment>)
    requires !s.crashed
    ensures var t := Attachments(cfg, s, m, atts);
      && t.disk.dirs == s.disk.dirs && !t.crashed && |t.saved| >= |s.saved|
      && (|t.saved| > |s.saved| <==> SomeAttachmentSaves(cfg, s.disk.dirs, s.seen, m, atts))
      && (|t.saved| == |s.saved| ==> t.seen == s.seen)
    decreases |atts|
  {
    if atts == [] {
    } else {
      var rest := atts[1..];
      var s1 := AttachmentStep(cfg, s, m, atts[0]);
      AttachmentStepOutcome(cfg, s, m, atts[0]);
      AttachmentsOutcome(cfg, s1, m, rest);
      assert forall i :: 0 < i < |atts| ==> atts[i] == rest[i - 1];
      if i :| 0 <= i < |rest| && AttachmentSaves(cfg, s.disk.dirs, s.seen, m, rest[i]) {
        assert AttachmentSaves(cfg, s.disk.dirs, s.seen, m, atts[i + 1]);
      }
    }
  }

  predicate LinkSaves(cfg: Config, dirs: set<Path>, seen: set<Digest>, m: Message, l: Link) {
    LinkOffer(m, l).Some? && Saves(cfg, dirs, seen, LinkOffer(m, l).value)
  }

  predicate LinkCrashes(cfg: Config, dirs: set<Path>, seen: set<Digest>, m: Message, l: Link) {
    CanCrash(cfg, dirs, m, l) && !LinkIsSeen(cfg, seen, m, l)
  }

  /** The index of the first link that is saved or ends the run; the number of links if there is none. */
  function DecidingLink(cfg: Config, dirs: set<Path>, seen: set<Digest>, m: Message, links: seq<Link>): (k: nat)
    ensures k <= |links|
    ensures forall i :: 0 <= i < k ==>
      !LinkSaves(cfg, dirs, seen, m, links[i]) && !LinkCrashes(cfg, dirs, seen, m, links[i])
    ensures k < |links| ==>
      LinkSaves(cfg, dirs, seen, m, links[k]) || LinkCrashes(cfg, dirs, seen, m, links[k])
  {
    if links == [] then 0
    else if LinkSaves(cfg, dirs, seen, m, links[0]) || LinkCrashes(cfg, dirs, seen, m, links[0]) then 0
    else 1 + DecidingLink(cfg, dirs, seen, m, links[1..])
  }

  lemma LinkStepOutcome(cfg: Config, s: State, m: Message, l: Link)
    requires !s.crashed
    ensures var t := LinkStep(cfg, s, m, l);
      && t.disk.dirs == s.disk.dirs
      && (t.crashed <==> LinkCrashes(cfg, s.disk.dirs, s.seen, m, l))
      && if LinkSaves(cfg, s.disk.dirs, s.seen, m, l)
         then !t.crashed && |t.saved| == |s.saved| + 1 && t.seen == s.seen + {cfg.hash(LinkOffer(m, l).value.file.blob)}
         else t.saved == s.saved && t.seen == s.seen
  {
    LinkCrashesExactly(cfg, s, m, l);
    if LinkOffer(m, l).Some? {
      OfferOutcome(cfg, s, LinkOffer(m, l).value);
    }
  }

  /**
   The link loop does what its first deciding link does, whatever fails: it ends the run, or saves that
   link's file and nothing else; without a deciding link it saves nothing and goes on.
   */
  lemma {:induction false} LinksOutcome(cfg: Config, s: State, m: Message, links: seq<Link>)
    requires !s.crashed
    ensures var t, k := Links(cfg, s, m, links), DecidingLink(cfg, s.disk.dirs, s.seen, m, links);
      && t.disk.dirs == s.disk.dirs
      && (t.crashed <==> k < |links| && LinkCrashes(cfg, s.disk.dirs, s.seen, m, links[k]))
      && if k < |links| && LinkSaves(cfg, s.disk.dirs, s.seen, m, links[k])
         then |t.saved| == |s.saved| + 1 && t.seen == s.seen + {cfg.hash(LinkOffer(m, links[k]).value.file.blob)}
         else t.saved == s.saved && t.seen == s.seen
    decreases |links|
  {
    if links == [] {
    } else {
      var s1 := LinkStep(cfg, s, m, links[0]);
      LinkStepOutcome(cfg, s, m, links[0]);
      if !s1.crashed && |s1.saved| == |s.saved| {
        LinksOutcome(cfg, s1, m, links[1..]);
      }
    }
  }

  predicate AttachmentWins(cfg: Config, dirs: set<Path>, seen: set<Digest>, m: Message) {
    m.hasAttachments && m.attachments.Some? && SomeAttachmentSaves(cfg, dirs, seen, m, m.attachments.value)
  }

  /** The link that decides a message, if it comes to its links and one of them decides. */
  function Decider(cfg: Config, dirs: set<Path>, seen: set<Digest>, m: Message): Option<Link> {
    var k := DecidingLink(cfg, dirs, seen, m, BodyLinks(m));
    if Considered(m) && !AttachmentWins(cfg, dirs, seen, m) && k < |BodyLinks(m)| then Some(BodyLinks(m)[k]) else None
  }

  /** From the mail, the directories and the known digests alone: does the message end the run? */
  predicate MessageCrashes(cfg: Config, dirs: set<Path>, seen: set<Digest>, m: Message) {
    var l := Decider(cfg, dirs, seen, m);
    l.Some? && LinkCrashes(cfg, dirs, seen, m, l.value)
  }

  /** ... and is anything of it saved? */
  predicate MessageSaves(cfg: Config, dirs: set<Path>, seen: set<Digest>, m: Message) {
    var l := Decider(cfg, dirs, seen, m);
    (Considered(m) && AttachmentWins(cfg, dirs, seen, m)) || (l.Some? && LinkSaves(cfg, dirs, seen, m, l.value))
  }

  lemma AttachmentPhaseOutcome(cfg: Config, s: State, m: Message)
    requires !s.crashed
    ensures var t := AttachmentPhase(cfg, s, m);
      && t.disk.dirs == s.disk.dirs && !t.crashed && |t.saved| >= |s.saved|
      && (|t.saved| > |s.saved| <==> AttachmentWins(cfg, s.disk.dirs, s.seen, m))
      && (|t.saved| == |s.saved| ==> t.seen == s.seen)
  {
    if m.hasAttachments && m.attachments.Some? {
      AttachmentsOutcome(cfg, s, m, m.attachments.value);
    }
  }

  /** What a message does is decided before any of it is handled, whatever fails. */
  lemma MessageOutcome(cfg: Config, s: State, m: Message)
    requires !s.crashed
    ensures var t := MessageStep(cfg, s, m);
      && t.disk.dirs == s.disk.dirs
      && (t.crashed <==> MessageCrashes(cfg, s.disk.dirs, s.seen, m))
      && (|t.saved| > |s.saved| <==> MessageSaves(cfg, s.disk.dirs, s.seen, m))
  {
    var s1 := AttachmentPhase(cfg, s, m);
    AttachmentPhaseOutcome(cfg, s, m);
    if Considered(m) && |s1.saved| == |s.saved| {
      LinksOutcome(cfg, if m.body.None? then s1.Report(m.id, BodyItem, Failed) else s1, m, BodyLinks(m));
    }
  }

  // ---------- Nothing acceptable is missed ----------

  lemma {:induction false} AttachmentsMissNothing(cfg: Config, msgs: seq<Message>, s: State, m: Message,
                                                  atts: seq<Attachment>, a: Attachment)
    requires !s.crashed && m in msgs && Considered(m) && m.hasAttachments && m.attachments.Some?
    requires forall b :: b in atts ==> b in m.attachments.value
    requires a in atts && LooksPdf(a) && a.io.Fine? && ScratchFree(cfg, s.disk.dirs, m.id) && cfg.Passes(a.blob, false)
    ensures cfg.hash(a.blob) in Attachments(cfg, s, m, atts).seen
    decreases |atts|
  {
    var s1 := AttachmentStep(cfg, s, m, atts[0]);
    AttachmentStepReach(cfg, msgs, s, m, atts[0]);
    StepKeepsDirs(cfg, s, m, atts[0]);
    if atts[0] == a {
      OfferOutcome(cfg, s, AttachmentOffer(m, a));
      AttachmentsReach(cfg, msgs, s1, m, atts[1..]);
      EarlierSurvives(cfg, msgs, s1, Attachments(cfg, s, m, atts));
    } else {
      AttachmentsMissNothing(cfg, msgs, s1, m, atts[1..], a);
    }
  }

  lemma StepKeepsDirs(cfg: Config, s: State, m: Message, a: Attachment)
    ensures AttachmentStep(cfg, s, m, a).disk.dirs == s.disk.dirs
  {
    if LooksPdf(a) && !a.io.DownloadFails? {
      var v := OfferEffect(cfg, s, AttachmentOffer(m, a));
    }
  }

  /**
   No acceptable attachment is lost: unless the run crashed before its message, at the end a saved file
   carries the digest of every PDF-looking attachment that passes the gate and met no failure of its own.
   */
  lemma NoAttachmentLost(cfg: Config, msgs: seq<Message>, d0: Disk, k: nat, a: Attachment) returns (i: nat)
    requires k < |msgs| && Considered(msgs[k]) && msgs[k].hasAttachments && msgs[k].attachments.Some?
    requires a in msgs[k].attachments.value && LooksPdf(a) && a.io.Fine? && cfg.Passes(a.blob, false)
    requires ScratchFree(cfg, d0.dirs, msgs[k].id) && !Run(cfg, Start(d0), msgs[..k]).crashed
    ensures var t := Run(cfg, Start(d0), msgs);
      && i < |t.saved| && t.saved[i].path in t.disk.files
      && cfg.hash(t.disk.files[t.saved[i].path]) == cfg.hash(a.blob)
  {
    var t, m := Run(cfg, Start(d0), msgs), msgs[k];
    var s := Run(cfg, Start(d0), msgs[..k]);
    RunSplits(cfg, Start(d0), msgs, k);
    RunReach(cfg, msgs, Start(d0), msgs[..k]);
    AlwaysSound(cfg, msgs, d0, s);
    var s1 := AttachmentPhase(cfg, s, m);
    assert s1 == Attachments(cfg, s, m, m.attachments.value);
    AttachmentsMissNothing(cfg, msgs, s, m, m.attachments.value, a);
    PhaseThenRest(cfg, msgs, s, msgs[k..]);
    EarlierSurvives(cfg, msgs, s1, t);
    RunIsSound(cfg, msgs, d0);
    i :| 0 <= i < |t.saved| && HashAt(cfg, t.disk, t.saved[i].path) == cfg.hash(a.blob);
    assert t.saved[i] in t.saved;
  }

  /** From the inputs alone: no earlier message has a link that can end the run. */
  lemma NoAttachmentLostFromInputs(cfg: Config, msgs: seq<Message>, d0: Disk, k: nat, a: Attachment) returns (i: nat)
    requires k < |msgs| && Considered(msgs[k]) && msgs[k].hasAttachments && msgs[k].attachments.Some?
    requires a in msgs[k].attachments.value && LooksPdf(a) && a.io.Fine? && cfg.Passes(a.blob, false)
    requires ScratchFree(cfg, d0.dirs, msgs[k].id) && !SomeLinkCanCrash(cfg, msgs[..k], d0.dirs)
    ensures var t := Run(cfg, Start(d0), msgs);
      && i < |t.saved| && t.saved[i].path in t.disk.files
      && cfg.hash(t.disk.files[t.saved[i].path]) == cfg.hash(a.blob)
  {
    RunDoesNotCrash(cfg, msgs[..k], d0);
    i := NoAttachmentLost(cfg, msgs, d0, k, a);
  }

  // ---------- When a run ends early ----------

  /** The run gets to message k, and that message ends it. */
  predicate EndsAt(cfg: Config, s: State, msgs: seq<Message>, k: nat)
    requires k < |msgs|
  {
    var u := Run(cfg, s, msgs[..k]);
    !u.crashed && MessageCrashes(cfg, s.disk.dirs, u.seen, msgs[k])
  }

  /** A run ends early exactly when some message ends it, given the digests known when its turn comes. */
  lemma {:induction false} RunCrashesExactly(cfg: Config, s: State, msgs: seq<Message>)
    requires !s.crashed
    ensures Run(cfg, s, msgs).crashed <==>
      exists k :: 0 <= k < |msgs| && EndsAt(cfg, s, msgs, k)
    decreases |msgs|
  {
    if Run(cfg, s, msgs).crashed {
      var k := CrashingMessage(cfg, s, msgs);
    }
    if k :| 0 <= k < |msgs| && EndsAt(cfg, s, msgs, k) {
      var u := Run(cfg, s, msgs[..k]);
      RunKeepsDirs(cfg, s, msgs[..k]);
      MessageOutcome(cfg, u, msgs[k]);
      RunSplits(cfg, s, msgs, k);
      CrashStays(cfg, MessageStep(cfg, u, msgs[k]), msgs[k..][1..]);
    }
  }

  lemma {:induction false} CrashingMessage(cfg: Config, s: State, msgs: seq<Message>) returns (k: nat)
    requires !s.crashed && Run(cfg, s, msgs).crashed
    ensures k < |msgs| && EndsAt(cfg, s, msgs, k)
    decreases |msgs|
  {
    var s1 := MessageStep(cfg, s, msgs[0]);
    MessageOutcome(cfg, s, msgs[0]);
    if s1.crashed {
      k := 0;
    } else {
      var j := CrashingMessage(cfg, s1, msgs[1..]);
      k := j + 1;
      assert msgs[..k][1..] == msgs[1..][..j];
      RunKeepsDirs(cfg, s, [msgs[0]]);
      assert [msgs[0]][1..] == [] && Run(cfg, s, [msgs[0]]) == s1;
    }
  }

  lemma {:induction false} RunKeepsDirs(cfg: Config, s: State, msgs: seq<Message>)
    ensures Run(cfg, s, msgs).disk.dirs == s.disk.dirs
    decreases |msgs|
  {
    if msgs == [] {
    } else {
      if !s.crashed {
        MessageOutcome(cfg, s, msgs[0]);
      }
      RunKeepsDirs(cfg, MessageStep(cfg, s, msgs[0]), msgs[1..]);
    }
  }

  /** From the inputs alone: if no link can end the run, nothing does. */
  lemma RunDoesNotCrash(cfg: Config, msgs: seq<Message>, d0: Disk)
    requires !SomeLinkCanCrash(cfg, msgs, d0.dirs)
    ensures !Run(cfg, Start(d0), msgs).crashed
  {
    RunIsSound(cfg, msgs, d0);
  }

  /** In particular if no operation on an offered file fails, the scratch paths are free and no Bezeq page raises. */
  lemma FineRunDoesNotCrash(cfg: Config, msgs: seq<Message>, d0: Disk)
    requires AllFine(msgs) && forall m :: m in msgs ==> ScratchFree(cfg, d0.dirs, m.id)
    requires forall m, l :: m in msgs && l in BodyLinks(m) ==> !BezeqRaises(m, l)
    ensures !Run(cfg, Start(d0), msgs).crashed
  {
    forall m, l | m in msgs && Considered(m) && l in BodyLinks(m) ensures !CanCrash(cfg, d0.dirs, m, l) {
      FineLinkCannotCrash(cfg, msgs, d0.dirs, m, l);
    }
    RunDoesNotCrash(cfg, msgs, d0);
  }

  lemma FineLinkCannotCrash(cfg: Config, msgs: seq<Message>, dirs: set<Path>, m: Message, l: Link)
    requires AllFine(msgs) && m in msgs && Considered(m) && l in BodyLinks(m)
    requires ScratchFree(cfg, dirs, m.id) && !BezeqRaises(m, l)
    ensures !CanCrash(cfg, dirs, m, l)
  {
    var o := LinkOffer(m, l);
    if o.Some? {
      assert o.value.io.Fine? by {
        assert Offers(m, o.value);
        assert Offered(msgs, o.value);
      }
    }
  }

  /** A failing item does end a run: a link's file that cannot be written, and no later message is looked at. */
  lemma FailingLinkExample(cfg: Config, d0: Disk, m: Message, l: Link, rest: seq<Message>)
    requires l == Link("example.com", Some(Fetched("a.pdf", [])), None, WriteFails(None))
    requires m == Message("1", "", "", true, Some([]), Some([l]))
    ensures var t := Run(cfg, Start(d0), [m] + rest);
      t.crashed && t.saved == [] && t.report == []
  {
    var s := Start(d0);
    var t := LinkStep(cfg, s, m, l);
    LinkCrashesExactly(cfg, s, m, l);
    LinkStepOutcome(cfg, s, m, l);
    assert Attachments(cfg, s, m, []) == s;
    assert Links(cfg, s, m, [l]) == t;
    assert MessageStep(cfg, s, m) == t;
    assert ([m] + rest)[1..] == rest;
    CrashStays(cfg, t, rest);
  }

  lemma PhaseThenRest(cfg: Config, msgs: seq<Message>, s: State, todo: seq<Message>)
    requires todo != [] && !s.crashed && Considered(todo[0]) && forall m :: m in todo ==> m in msgs
    ensures Reaches(Steps(cfg, msgs), AttachmentPhase(cfg, s, todo[0]), Run(cfg, s, todo))
  {
    var m := todo[0];
    var s1, t1 := AttachmentPhase(cfg, s, m), MessageStep(cfg, s, m);
    AttachmentPhaseReach(cfg, msgs, s, m);
    ReachesSelf(Steps(cfg, msgs), s1);
    if |s1.saved| <= |s.saved| {
      var s2 := LinkPhase(cfg, s1, m);
      LinkPhaseReach(cfg, msgs, s1, m);
      if !s2.crashed && |s2.saved| <= |s1.saved| {
        RejectPhaseReach(cfg, msgs, s2, m);
        ReachesTransitive(Steps(cfg, msgs), s1, s2, t1);
      }
    }
    RunReach(cfg, msgs, t1, todo[1..]);
    ReachesTransitive(Steps(cfg, msgs), s1, t1, Run(cfg, s, todo));
  }

  /** A run can be cut at any message; and a crash stays a crash. */
  lemma {:induction false} RunSplits(cfg: Config, s: State, msgs: seq<Message>, k: nat)
    requires k <= |msgs|
    ensures Run(cfg, s, msgs) == Run(cfg, Run(cfg, s, msgs[..k]), msgs[k..])
    ensures Run(cfg, s, msgs[..k]).crashed ==> Run(cfg, s, msgs).crashed
    decreases |msgs|
  {
    if k > 0 {
      var s1 := MessageStep(cfg, s, msgs[0]);
      assert msgs[..k][1..] == msgs[1..][..k - 1] && msgs[1..][k - 1..] == msgs[k..];
      RunSplits(cfg, s1, msgs[1..], k - 1);
    } else {
      assert msgs[..0] == [] && msgs[0..] == msgs;
      CrashStays(cfg, s, msgs);
    }
  }

  /** Seen from any message boundary, the rest of the run overwrites and removes nothing outside `_tmp`. */
  lemma NothingOverwritten(cfg: Config, msgs: seq<Message>, d0: Disk, k: nat)
    requires k <= |msgs|
    ensures Extends(cfg, Run(cfg, Start(d0), msgs[..k]), Run(cfg, Start(d0), msgs))
  {
    var s := Run(cfg, Start(d0), msgs[..k]);
    RunSplits(cfg, Start(d0), msgs, k);
    RunReach(cfg, msgs, s, msgs[k..]);
    EarlierSurvives(cfg, msgs, s, Run(cfg, Start(d0), msgs));
  }
}
