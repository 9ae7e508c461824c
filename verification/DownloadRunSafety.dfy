/** What holds in every reachable state of a v3.9.1 run, whatever the mailbox holds and whatever fails. */
module DownloadRunSafety {
  import opened Strings
  import opened Wrappers
  import opened Chains
  import opened FileSystem
  import opened PdfGate
  import opened DownloadRun
  import Dedup

  // ---------- The invariant ----------

  /** Every file outside the scratch directory is still there, byte for byte. */
  ghost predicate KeptOutsideTmp(cfg: Config, d: Disk, e: Disk) {
    forall p :: p in d.files && !cfg.InTmp(p) ==> p in e.files && e.files[p] == d.files[p]
  }

  predicate DirectChild(dir: Path, p: Path) {
    |p| == |dir| + 1 && p[..|dir|] == dir
  }

  /** Saved files are direct children of the invoice directory and did not exist before the run. */
  ghost predicate RowsOnDisk(cfg: Config, d0: Disk, s: State) {
    && s.disk.dirs == d0.dirs
    && forall r :: r in s.saved ==>
         DirectChild(cfg.invDir, r.path) && r.path in s.disk.files && !d0.Exists(r.path)
  }

  function HashAt(cfg: Config, d: Disk, p: Path): Digest {
    if p in d.files then cfg.hash(d.files[p]) else ""
  }

  /** `seen_hashes` is the set of digests of the saved files as they are on disk, all different. */
  ghost predicate SeenExact(cfg: Config, s: State) {
    && (forall h :: h in s.seen <==> exists i :: 0 <= i < |s.saved| && HashAt(cfg, s.disk, s.saved[i].path) == h)
    && (forall i, j :: 0 <= i < j < |s.saved| ==>
          HashAt(cfg, s.disk, s.saved[i].path) != HashAt(cfg, s.disk, s.saved[j].path))
  }

  /** The `ok: True` entries of the report. */
  function Filed(report: seq<Entry>): seq<(string, Kind, Path)> {
    if report == [] then []
    else
      var n := |report| - 1;
      Filed(report[..n]) +
        (match report[n].what case SavedAs(p) => [(report[n].id, report[n].kind, p)] case _ => [])
  }

  function RowKeys(saved: seq<SavedRow>): seq<(string, Kind, Path)> {
    seq(|saved|, i requires 0 <= i < |saved| => (saved[i].id, KindOf(saved[i].source), saved[i].path))
  }

  /** The offer o is what report entry e speaks of, and the disk agrees with the entry. */
  ghost predicate JustifiedBy(cfg: Config, msgs: seq<Message>, s: State, e: Entry, o: Offer) {
    && Offered(msgs, o) && o.id == e.id && KindOf(o.source) == e.kind
    && match e.what
       case SavedAs(p) =>
         DirectChild(cfg.invDir, p) && p in s.disk.files && s.disk.files[p] == o.file.blob
         && cfg.Passes(o.file.blob, o.trusted)
       case Quarantined(p) =>
         DirectChild(cfg.QuarantineDir(), p) && p in s.disk.files && s.disk.files[p] == o.file.blob
         && !cfg.Passes(o.file.blob, o.trusted) && cfg.keepQuarantine
       case VerifyFailed => !cfg.Passes(o.file.blob, o.trusted) && !cfg.keepQuarantine
       case SkippedDuplicate => cfg.hash(o.file.blob) in s.seen
       case Failed => false
  }

  /** A message with this id has an item of this kind that fails. */
  ghost predicate FailureShown(cfg: Config, msgs: seq<Message>, s: State, e: Entry) {
    exists m :: m in msgs && m.id == e.id && FailureOf(cfg, s.disk.dirs, m, e.kind)
  }

  ghost predicate Justified(cfg: Config, msgs: seq<Message>, s: State, e: Entry) {
    if e.what.Failed? then FailureShown(cfg, msgs, s, e) else exists o :: JustifiedBy(cfg, msgs, s, e, o)
  }

  ghost predicate SoundReport(cfg: Config, msgs: seq<Message>, s: State) {
    && Filed(s.report) == RowKeys(s.saved)
    && forall e :: e in s.report ==> Justified(cfg, msgs, s, e)
  }

  ghost predicate RejectionShown(msgs: seq<Message>, r: RejectedRow) {
    exists m :: m in msgs && m.id == r.id && RejectionOf(m, r.reason)
  }

  ghost predicate SoundEnds(cfg: Config, msgs: seq<Message>, s: State) {
    && (forall r :: r in s.rejected ==> RejectionShown(msgs, r))
    && (s.crashed ==> SomeLinkCanCrash(cfg, msgs, s.disk.dirs))
  }

  ghost predicate Sound(cfg: Config, msgs: seq<Message>, d0: Disk, s: State) {
    && KeptOutsideTmp(cfg, d0, s.disk) && RowsOnDisk(cfg, d0, s) && SeenExact(cfg, s)
    && SoundReport(cfg, msgs, s)
    && SoundEnds(cfg, msgs, s)
  }

  // ---------- Every transition keeps it ----------

  lemma NotTmp(cfg: Config, p: Path)
    ensures DirectChild(cfg.invDir, p) ==> !cfg.InTmp(p)
    ensures DirectChild(cfg.QuarantineDir(), p) ==> !cfg.InTmp(p)
  {
    assert cfg.QuarantineDir()[|cfg.invDir|] != cfg.TmpDir()[|cfg.invDir|];
  }

  /** What handling one offer does to the state, in one place. */
  lemma OfferEffect(cfg: Config, s: State, o: Offer) returns (v: Verdict)
    ensures var t := StoreOffer(cfg, s, o);
      && v == Store(cfg, s.disk, s.seen, ShortMsgTag(o.id), o.file, o.trusted, o.io).1
      && KeptOutsideTmp(cfg, s.disk, t.disk) && t.disk.dirs == s.disk.dirs
      && t.rejected == s.rejected
      && (if v.Stored? then
            && cfg.hash(o.file.blob) !in s.seen && t.seen == s.seen + {cfg.hash(o.file.blob)}
            && t.saved == s.saved + [SavedRow(o.id, o.source, v.path)]
            && !s.disk.Exists(v.path) && DirectChild(cfg.invDir, v.path)
            && v.path in t.disk.files && t.disk.files[v.path] == o.file.blob
          else t.seen == s.seen && t.saved == s.saved)
  {
    v := Store(cfg, s.disk, s.seen, ShortMsgTag(o.id), o.file, o.trusted, o.io).1;
    StoreEffect(cfg, s.disk, s.seen, ShortMsgTag(o.id), o.file, o.trusted, o.io);
    StoreKeepsDirs(cfg, s.disk, s.seen, ShortMsgTag(o.id), o.file, o.trusted, o.io);
  }

  lemma StoreKeepsDirs(cfg: Config, d: Disk, seen: set<Digest>, tag: string, f: Fetched, trusted: bool, io: Io)
    ensures Store(cfg, d, seen, tag, f, trusted, io).0.dirs == d.dirs
  {
  }

  lemma OfferKeepsRows(cfg: Config, d0: Disk, s: State, o: Offer)
    requires KeptOutsideTmp(cfg, d0, s.disk) && RowsOnDisk(cfg, d0, s) && SeenExact(cfg, s)
    ensures var t := StoreOffer(cfg, s, o);
      KeptOutsideTmp(cfg, d0, t.disk) && RowsOnDisk(cfg, d0, t) && SeenExact(cfg, t)
  {
    var t := StoreOffer(cfg, s, o);
    var v := OfferEffect(cfg, s, o);
    forall r | r in s.saved ensures r.path in t.disk.files && t.disk.files[r.path] == s.disk.files[r.path] {
      NotTmp(cfg, r.path);
    }
    if v.Stored? {
      NotTmp(cfg, v.path);
      SeenGrows(cfg, s, t);
    } else {
      assert forall i :: 0 <= i < |s.saved| ==> s.saved[i] in s.saved;
    }
  }

  lemma SeenGrows(cfg: Config, s: State, t: State)
    requires SeenExact(cfg, s)
    requires forall r :: r in s.saved ==> HashAt(cfg, t.disk, r.path) == HashAt(cfg, s.disk, r.path)
    requires |t.saved| == |s.saved| + 1 && t.saved[..|s.saved|] == s.saved
    requires HashAt(cfg, t.disk, t.saved[|s.saved|].path) !in s.seen
    requires t.seen == s.seen + {HashAt(cfg, t.disk, t.saved[|s.saved|].path)}
    ensures SeenExact(cfg, t)
  {
    var n := |s.saved|;
    forall i | 0 <= i < n ensures HashAt(cfg, t.disk, t.saved[i].path) == HashAt(cfg, s.disk, s.saved[i].path) {
      assert s.saved[i] in s.saved && t.saved[i] == t.saved[..n][i];
    }
    forall i | 0 <= i < n ensures HashAt(cfg, t.disk, t.saved[i].path) in s.seen {
      assert HashAt(cfg, s.disk, s.saved[i].path) in s.seen;
    }
    forall h | h in s.seen ensures exists i :: 0 <= i < n + 1 && HashAt(cfg, t.disk, t.saved[i].path) == h {
      var i :| 0 <= i < n && HashAt(cfg, s.disk, s.saved[i].path) == h;
      assert HashAt(cfg, t.disk, t.saved[i].path) == h;
    }
  }

  lemma OfferKeepsReport(cfg: Config, msgs: seq<Message>, s: State, o: Offer)
    requires Offered(msgs, o) && SoundReport(cfg, msgs, s)
    ensures SoundReport(cfg, msgs, StoreOffer(cfg, s, o))
  {
    var t := StoreOffer(cfg, s, o);
    var v := OfferEffect(cfg, s, o);
    AllStayJustified(cfg, msgs, s, t);
    if t.report != s.report {
      EntryFits(cfg, msgs, s, o);
      FiledGrows(cfg, s, o, v);
      ReportGrows(cfg, msgs, s, t);
    }
  }

  lemma AllStayJustified(cfg: Config, msgs: seq<Message>, s: State, t: State)
    requires SoundReport(cfg, msgs, s) && KeptOutsideTmp(cfg, s.disk, t.disk) && s.seen <= t.seen
    requires t.disk.dirs == s.disk.dirs
    ensures forall e :: e in s.report ==> Justified(cfg, msgs, t, e)
  {
    forall e | e in s.report ensures Justified(cfg, msgs, t, e) {
      JustifiedStays(cfg, msgs, s, t, e);
    }
  }

  lemma ReportGrows(cfg: Config, msgs: seq<Message>, s: State, t: State)
    requires |t.report| == |s.report| + 1 && t.report[..|s.report|] == s.report
    requires (forall e :: e in s.report ==> Justified(cfg, msgs, t, e)) && Justified(cfg, msgs, t, t.report[|s.report|])
    requires Filed(t.report) == RowKeys(t.saved)
    ensures SoundReport(cfg, msgs, t)
  {
    assert t.report == s.report + [t.report[|s.report|]];
  }

  lemma FiledGrows(cfg: Config, s: State, o: Offer, v: Verdict)
    requires v == Store(cfg, s.disk, s.seen, ShortMsgTag(o.id), o.file, o.trusted, o.io).1
    requires Filed(s.report) == RowKeys(s.saved) && StoreOffer(cfg, s, o).report != s.report
    ensures var t := StoreOffer(cfg, s, o);
      |t.report| == |s.report| + 1 && t.report[..|s.report|] == s.report && Filed(t.report) == RowKeys(t.saved)
  {
    var t := StoreOffer(cfg, s, o);
    var n := |s.report|;
    assert t.report[..n] == s.report && t.report == s.report + [t.report[n]];
    assert RowKeys(t.saved) == RowKeys(s.saved) + if v.Stored? then [(o.id, KindOf(o.source), v.path)] else [];
  }

  lemma EntryFits(cfg: Config, msgs: seq<Message>, s: State, o: Offer)
    requires Offered(msgs, o) && StoreOffer(cfg, s, o).report != s.report
    ensures var t := StoreOffer(cfg, s, o);
      |t.report| == |s.report| + 1 && Justified(cfg, msgs, t, t.report[|s.report|])
  {
    var t := StoreOffer(cfg, s, o);
    var v := OfferEffect(cfg, s, o);
    var e := t.report[|s.report|];
    if v.Broken? {
      BrokenFits(cfg, msgs, s, t, o);
    } else {
      StoreEffect(cfg, s.disk, s.seen, ShortMsgTag(o.id), o.file, o.trusted, o.io);
      DroppedMeans(cfg, s.disk, s.seen, ShortMsgTag(o.id), o.file, o.trusted, o.io);
      assert JustifiedBy(cfg, msgs, t, e, o);
    }
  }

  lemma BrokenFits(cfg: Config, msgs: seq<Message>, s: State, t: State, o: Offer)
    requires Offered(msgs, o) && t.disk.dirs == s.disk.dirs
    requires Store(cfg, s.disk, s.seen, ShortMsgTag(o.id), o.file, o.trusted, o.io).1.Broken?
    ensures o.source.FromAttachment? ==> FailureShown(cfg, msgs, t, Entry(o.id, AttachmentItem, Failed))
    ensures !o.source.FromAttachment? ==> SomeLinkCanCrash(cfg, msgs, t.disk.dirs)
  {
    BrokenExactly(cfg, s, o);
    var m :| m in msgs && Offers(m, o);
    if o.source.FromAttachment? {
      var a :| a in m.attachments.value && LooksPdf(a) && o == AttachmentOffer(m, a);
      assert FailureOf(cfg, t.disk.dirs, m, AttachmentItem);
    } else {
      var l :| l in BodyLinks(m) && LinkOffer(m, l) == Some(o);
      assert CanCrash(cfg, t.disk.dirs, m, l);
      assert MessageCanCrash(cfg, t.disk.dirs, m);
    }
  }

  lemma DroppedMeans(cfg: Config, d: Disk, seen: set<Digest>, tag: string, f: Fetched, trusted: bool, io: Io)
    ensures Store(cfg, d, seen, tag, f, trusted, io).1.Dropped? ==> !cfg.Passes(f.blob, trusted) && !cfg.keepQuarantine
  {
  }

  lemma JustifiedStays(cfg: Config, msgs: seq<Message>, s: State, t: State, e: Entry)
    requires Justified(cfg, msgs, s, e) && KeptOutsideTmp(cfg, s.disk, t.disk) && s.seen <= t.seen
    requires t.disk.dirs == s.disk.dirs
    ensures Justified(cfg, msgs, t, e)
  {
    if e.what.Failed? {
      var m :| m in msgs && m.id == e.id && FailureOf(cfg, s.disk.dirs, m, e.kind);
      assert FailureOf(cfg, t.disk.dirs, m, e.kind);
    } else {
      var o :| JustifiedBy(cfg, msgs, s, e, o);
      if e.what.SavedAs? || e.what.Quarantined? {
        NotTmp(cfg, e.what.path);
      }
      assert JustifiedBy(cfg, msgs, t, e, o);
    }
  }

  lemma OfferKeepsEnds(cfg: Config, msgs: seq<Message>, s: State, o: Offer)
    requires Offered(msgs, o) && SoundEnds(cfg, msgs, s) && !s.crashed
    ensures SoundEnds(cfg, msgs, StoreOffer(cfg, s, o))
  {
    var t := StoreOffer(cfg, s, o);
    var v := OfferEffect(cfg, s, o);
    if t.crashed {
      OfferCrashesExactly(cfg, s, o);
      BrokenExactly(cfg, s, o);
      BrokenFits(cfg, msgs, s, t, o);
    }
  }

  lemma NoteKeepsSound(cfg: Config, msgs: seq<Message>, d0: Disk, s: State, t: State)
    requires Sound(cfg, msgs, d0, s) && NotesFailure(cfg, msgs, s, t)
    ensures Sound(cfg, msgs, d0, t)
  {
    var m, kind :| m in msgs && FailureOf(cfg, s.disk.dirs, m, kind) && t == s.Report(m.id, kind, Failed);
    var e := Entry(m.id, kind, Failed);
    forall x | x in t.report ensures Justified(cfg, msgs, t, x) {
      if x in s.report {
        JustifiedStays(cfg, msgs, s, t, x);
      } else {
        assert FailureShown(cfg, msgs, t, e);
      }
    }
    assert t.report[..|t.report| - 1] == s.report;
    assert Filed(t.report) == Filed(s.report);
  }

  lemma RejectKeepsSound(cfg: Config, msgs: seq<Message>, d0: Disk, s: State, t: State)
    requires Sound(cfg, msgs, d0, s) && Rejects(msgs, s, t)
    ensures Sound(cfg, msgs, d0, t)
  {
    var m, reason :| m in msgs && RejectionOf(m, reason) && t == s.Reject(m.id, reason);
    forall e | e in t.report ensures Justified(cfg, msgs, t, e) {
      JustifiedStays(cfg, msgs, s, t, e);
    }
    assert RejectionShown(msgs, RejectedRow(m.id, reason));
  }

  lemma CrashKeepsSound(cfg: Config, msgs: seq<Message>, d0: Disk, s: State)
    requires Sound(cfg, msgs, d0, s) && SomeLinkCanCrash(cfg, msgs, s.disk.dirs)
    ensures Sound(cfg, msgs, d0, s.(crashed := true))
  {
    forall e | e in s.report ensures Justified(cfg, msgs, s.(crashed := true), e) {
      JustifiedStays(cfg, msgs, s, s.(crashed := true), e);
    }
  }

  lemma OfferKeepsSound(cfg: Config, msgs: seq<Message>, d0: Disk, s: State, o: Offer)
    requires Sound(cfg, msgs, d0, s) && Offered(msgs, o) && !s.crashed
    ensures Sound(cfg, msgs, d0, StoreOffer(cfg, s, o))
  {
    OfferKeepsRows(cfg, d0, s, o);
    OfferKeepsReport(cfg, msgs, s, o);
    OfferKeepsEnds(cfg, msgs, s, o);
  }

  lemma AtomicKeepsSound(cfg: Config, msgs: seq<Message>, d0: Disk, s: State, t: State)
    requires Sound(cfg, msgs, d0, s) && Atomic(cfg, msgs, s, t)
    ensures Sound(cfg, msgs, d0, t)
  {
    if o :| Offered(msgs, o) && t == StoreOffer(cfg, s, o) {
      OfferKeepsSound(cfg, msgs, d0, s, o);
    } else if NotesFailure(cfg, msgs, s, t) {
      NoteKeepsSound(cfg, msgs, d0, s, t);
    } else if Rejects(msgs, s, t) {
      RejectKeepsSound(cfg, msgs, d0, s, t);
    } else {
      CrashKeepsSound(cfg, msgs, d0, s);
    }
  }

  lemma StartIsSound(cfg: Config, msgs: seq<Message>, d0: Disk)
    ensures Sound(cfg, msgs, d0, Start(d0))
  {
  }

  /**
   The safety theorem, for every state a run can be in, crash included: nothing outside `_tmp` that
   existed at the start has changed; saved files are new direct children of the invoice directory;
   `seen_hashes` is exact and the saved digests are pairwise different; the report's successes are
   the saved rows; each report entry tells the truth about an offered file and the disk, or stands for an
   item that does fail; each rejected row has its cause; and a crash has a link that can cause it.
   */
  lemma AlwaysSound(cfg: Config, msgs: seq<Message>, d0: Disk, s: State)
    requires Reaches(Steps(cfg, msgs), Start(d0), s)
    ensures Sound(cfg, msgs, d0, s)
  {
    var inv := (t: State) => Sound(cfg, msgs, d0, t);
    StartIsSound(cfg, msgs, d0);
    forall a, b | inv(a) && Steps(cfg, msgs)(a, b) ensures inv(b) {
      AtomicKeepsSound(cfg, msgs, d0, a, b);
    }
    Invariant(Steps(cfg, msgs), inv, Start(d0), s);
  }

  /** In particular the state in which the run ends. */
  lemma RunIsSound(cfg: Config, msgs: seq<Message>, d0: Disk)
    ensures Sound(cfg, msgs, d0, Run(cfg, Start(d0), msgs))
  {
    RunReach(cfg, msgs, Start(d0), msgs);
    AlwaysSound(cfg, msgs, d0, Run(cfg, Start(d0), msgs));
  }

  // ---------- Consequences ----------

  lemma OfferExtends(cfg: Config, s: State, o: Offer)
    ensures Extends(cfg, s, StoreOffer(cfg, s, o))
  {
    var v := OfferEffect(cfg, s, o);
    assert s.report <= StoreOffer(cfg, s, o).report;
  }

  lemma AtomicExtends(cfg: Config, msgs: seq<Message>, s: State, t: State)
    requires Atomic(cfg, msgs, s, t)
    ensures Extends(cfg, s, t)
  {
    if o :| Offered(msgs, o) && t == StoreOffer(cfg, s, o) {
      OfferExtends(cfg, s, o);
    }
  }

  /**
   No overwriting between any two moments of a run: whatever lies outside `_tmp` at the earlier one,
   be it saved, quarantined or older, is unchanged at the later one, and no record is lost.
   */
  lemma EarlierSurvives(cfg: Config, msgs: seq<Message>, s: State, t: State)
    requires Reaches(Steps(cfg, msgs), s, t)
    ensures Extends(cfg, s, t)
  {
    var inv := (u: State) => Extends(cfg, s, u);
    forall a, b | inv(a) && Steps(cfg, msgs)(a, b) ensures inv(b) {
      AtomicExtends(cfg, msgs, a, b);
      ExtendsTransitive(cfg, s, a, b);
    }
    Invariant(Steps(cfg, msgs), inv, s, t);
  }

  /** The offer o is where row r comes from: same message, same source, the very bytes on disk, gate passed. */
  ghost predicate ComesFrom(cfg: Config, msgs: seq<Message>, d: Disk, r: SavedRow, o: Offer) {
    && Offered(msgs, o) && o.id == r.id && o.source == r.source
    && r.path in d.files && d.files[r.path] == o.file.blob && cfg.Passes(o.file.blob, o.trusted)
  }

  ghost predicate RowsComeFromOffers(cfg: Config, msgs: seq<Message>, s: State) {
    forall r :: r in s.saved ==> IsTagged(cfg, r) && exists o :: ComesFrom(cfg, msgs, s.disk, r, o)
  }

  /** The file lies in the invoice directory and its name carries the tag of its message. */
  ghost predicate IsTagged(cfg: Config, r: SavedRow) {
    DirectChild(cfg.invDir, r.path) && Contains(r.path[|cfg.invDir|], "__" + ShortMsgTag(r.id))
  }

  lemma StoredPathHasTag(cfg: Config, s: State, o: Offer)
    ensures var v := Store(cfg, s.disk, s.seen, ShortMsgTag(o.id), o.file, o.trusted, o.io).1;
      v.Stored? ==> |v.path| == |cfg.invDir| + 1 && Contains(v.path[|cfg.invDir|], "__" + ShortMsgTag(o.id))
  {
    BrokenExactly(cfg, s, o);
    if cfg.hash(o.file.blob) !in s.seen && !FailsToStore(cfg, s.disk.dirs, o) {
      StoreCases(cfg, s.disk, s.seen, ShortMsgTag(o.id), o.file, o.trusted, o.io);
      UniquePathHasTag(s.disk.Write(cfg.TmpPath(ShortMsgTag(o.id)), o.file.blob), cfg.invDir, o.file.name, o.id);
    }
  }

  lemma RowStays(cfg: Config, msgs: seq<Message>, d: Disk, e: Disk, r: SavedRow)
    requires KeptOutsideTmp(cfg, d, e) && DirectChild(cfg.invDir, r.path)
    requires exists o :: ComesFrom(cfg, msgs, d, r, o)
    ensures exists o :: ComesFrom(cfg, msgs, e, r, o)
  {
    var o :| ComesFrom(cfg, msgs, d, r, o);
    NotTmp(cfg, r.path);
    assert ComesFrom(cfg, msgs, e, r, o);
  }

  lemma OfferKeepsOrigins(cfg: Config, msgs: seq<Message>, s: State, o: Offer)
    requires Offered(msgs, o) && RowsComeFromOffers(cfg, msgs, s)
    ensures RowsComeFromOffers(cfg, msgs, StoreOffer(cfg, s, o))
  {
    var t := StoreOffer(cfg, s, o);
    var v := OfferEffect(cfg, s, o);
    StoreEffect(cfg, s.disk, s.seen, ShortMsgTag(o.id), o.file, o.trusted, o.io);
    StoredPathHasTag(cfg, s, o);
    forall r | r in t.saved ensures IsTagged(cfg, r) && exists x :: ComesFrom(cfg, msgs, t.disk, r, x) {
      if r in s.saved {
        RowStays(cfg, msgs, s.disk, t.disk, r);
      } else {
        assert ComesFrom(cfg, msgs, t.disk, r, o);
      }
    }
  }

  lemma AtomicKeepsOrigins(cfg: Config, msgs: seq<Message>, s: State, t: State)
    requires RowsComeFromOffers(cfg, msgs, s) && Atomic(cfg, msgs, s, t)
    ensures RowsComeFromOffers(cfg, msgs, t)
  {
    if o :| Offered(msgs, o) && t == StoreOffer(cfg, s, o) {
      OfferKeepsOrigins(cfg, msgs, s, o);
    }
  }

  lemma OriginsAlways(cfg: Config, msgs: seq<Message>, d0: Disk, s: State)
    requires Reaches(Steps(cfg, msgs), Start(d0), s)
    ensures RowsComeFromOffers(cfg, msgs, s)
  {
    var inv := (t: State) => RowsComeFromOffers(cfg, msgs, t);
    forall a, b | inv(a) && Steps(cfg, msgs)(a, b) ensures inv(b) {
      AtomicKeepsOrigins(cfg, msgs, a, b);
    }
    Invariant(Steps(cfg, msgs), inv, Start(d0), s);
  }

  /** Each saved row's file still holds the very blob its message offered, from the row's source, and that blob passed the gate. */
  lemma SavedFilesAreOffered(cfg: Config, msgs: seq<Message>, d0: Disk, s: State, i: nat) returns (o: Offer)
    requires Reaches(Steps(cfg, msgs), Start(d0), s) && i < |s.saved|
    ensures var r := s.saved[i];
      && Offered(msgs, o) && o.id == r.id && o.source == r.source
      && r.path in s.disk.files && s.disk.files[r.path] == o.file.blob && cfg.Passes(o.file.blob, o.trusted)
      && r.path != [] && Contains(r.path[|r.path| - 1], "__" + ShortMsgTag(r.id))
  {
    OriginsAlways(cfg, msgs, d0, s);
    var r := s.saved[i];
    assert r in s.saved;
    o :| ComesFrom(cfg, msgs, s.disk, r, o);
  }

  /** The dedup script, run over saved files in any order, has nothing to remove. */
  lemma SavedHaveNoDuplicates(cfg: Config, msgs: seq<Message>, d0: Disk, s: State, scan: seq<Path>)
    requires Reaches(Steps(cfg, msgs), Start(d0), s)
    requires NoRepeats(scan) && forall p :: p in scan ==> exists r :: r in s.saved && r.path == p
    ensures Dedup.AllIn(s.disk.files, scan) && Dedup.Duplicates(s.disk.files, scan, cfg.hash) == []
  {
    AlwaysSound(cfg, msgs, d0, s);
    forall p, q | p in scan && q in scan && cfg.hash(s.disk.files[p]) == cfg.hash(s.disk.files[q]) ensures p == q {
      var i :| 0 <= i < |s.saved| && s.saved[i].path == p;
      var j :| 0 <= j < |s.saved| && s.saved[j].path == q;
      assert HashAt(cfg, s.disk, s.saved[i].path) == HashAt(cfg, s.disk, s.saved[j].path);
    }
    Dedup.DistinctDigestsHaveNoDups(s.disk.files, scan, cfg.hash);
  }

  /** With `--verify`, an attachment is saved only if it has a positive page and the early-exit rule lets it through. */
  lemma SavedAttachmentsPassedKeywords(cfg: Config, msgs: seq<Message>, d0: Disk, s: State, i: nat)
    requires Reaches(Steps(cfg, msgs), Start(d0), s) && i < |s.saved| && cfg.verify
    requires s.saved[i].source.FromAttachment?
    ensures var p := s.saved[i].path;
      && p in s.disk.files
      && var seen := Readable(cfg.pages(s.disk.files[p]));
         (NoNegative(seen) && TotalPos(seen) >= 1) || TotalPos(BeforeNegative(seen)) >= 3
  {
    var o := SavedFilesAreOffered(cfg, msgs, d0, s, i);
    assert !o.trusted;
    VerdictMeaning(cfg.pages(o.file.blob), false);
  }

  // ---------- Scratch files ----------

  ghost predicate AllFine(msgs: seq<Message>) {
    forall o :: Offered(msgs, o) ==> o.io.Fine?
  }

  ghost predicate NoNewScratch(cfg: Config, d0: Disk, d: Disk) {
    forall p :: p in d.files && cfg.InTmp(p) ==> p in d0.files
  }

  lemma StoreCleansUp(cfg: Config, d: Disk, seen: set<Digest>, tag: string, f: Fetched, trusted: bool, io: Io)
    requires io == Fine
    ensures NoNewScratch(cfg, d, Store(cfg, d, seen, tag, f, trusted, io).0)
  {
    var v := Store(cfg, d, seen, tag, f, trusted, io).1;
    StoreEffect(cfg, d, seen, tag, f, trusted, io);
    if v.Stored? || v.Quarantine? {
      NotTmp(cfg, v.path);
    }
  }

  lemma OfferCleansUp(cfg: Config, s: State, o: Offer)
    requires o.io == Fine
    ensures NoNewScratch(cfg, s.disk, StoreOffer(cfg, s, o).disk)
  {
    var tag := ShortMsgTag(o.id);
    StoreCleansUp(cfg, s.disk, s.seen, tag, o.file, o.trusted, o.io);
    var (d, v) := Store(cfg, s.disk, s.seen, tag, o.file, o.trusted, o.io);
    RecordKeepsDisk(s, o.id, KindOf(o.source), o.source, cfg.hash(o.file.blob), d, v);
  }

  lemma RecordKeepsDisk(s: State, id: string, kind: Kind, source: Source, h: Digest, d: Disk, v: Verdict)
    ensures Record(s, id, kind, source, h, d, v).disk == d
  {
  }

  lemma AtomicCleansUp(cfg: Config, msgs: seq<Message>, d0: Disk, s: State, t: State)
    requires Atomic(cfg, msgs, s, t) && AllFine(msgs) && NoNewScratch(cfg, d0, s.disk)
    ensures NoNewScratch(cfg, d0, t.disk)
  {
    if t.disk != s.disk {
      var o :| Offered(msgs, o) && t == StoreOffer(cfg, s, o);
      OfferCleansUp(cfg, s, o);
    }
  }

  /** If no file operation fails, a run leaves nothing behind in `_tmp`. */
  lemma NoScratchLeft(cfg: Config, msgs: seq<Message>, d0: Disk, s: State)
    requires Reaches(Steps(cfg, msgs), Start(d0), s) && AllFine(msgs)
    ensures NoNewScratch(cfg, d0, s.disk)
  {
    var inv := (t: State) => NoNewScratch(cfg, d0, t.disk);
    forall a, b | inv(a) && Steps(cfg, msgs)(a, b) ensures inv(b) {
      AtomicCleansUp(cfg, msgs, d0, a, b);
    }
    Invariant(Steps(cfg, msgs), inv, Start(d0), s);
  }
}
