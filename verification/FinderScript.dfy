/** The v3.9.1 `main` loop over its mutable records and files, proved against the state machine. */
module FinderScript {
  import opened FileSystem
  import opened UniqueNames
  import opened PdfGate
  import opened DownloadRun

  class Finder {
    var files: map<Path, Content>
    var dirs: set<Path>
    var seenHashes: set<Digest>
    var savedRows: seq<SavedRow>
    var rejectedRows: seq<RejectedRow>
    var downloadReport: seq<Entry>
    var crashed: bool

    constructor (d: Disk)
      ensures Now() == Start(d)
    {
      files, dirs := d.files, d.dirs;
      seenHashes, savedRows, rejectedRows, downloadReport, crashed := {}, [], [], [], false;
    }

    function Now(): State
      reads this
    {
      State(Disk(files, dirs), seenHashes, savedRows, rejectedRows, downloadReport, crashed)
    }

    method EnsureUniquePath(baseDir: Path, wantedName: string, tag: string) returns (candidate: Path)
      ensures candidate == UniquePath(Now().disk, baseDir, wantedName, tag)
    {
      var (stem, ext) := SplitExt(SanitizeFilename(wantedName));
      if ext == "" {
        ext := ".pdf";
      }
      if tag != "" {
        stem := stem + "__" + tag;
      }
      var d := Disk(files, dirs);
      candidate := Plain(baseDir, stem, ext);
      if d.Exists(candidate) {
        candidate := SearchCounter(d, baseDir, stem, ext);
      }
    }

    /** The shared middle of the attachment and the link code, once the blob is there. */
    method StoreBlob(cfg: Config, tag: string, f: Fetched, trusted: bool, io: Io) returns (v: Verdict)
      modifies `files
      ensures (Now().disk, v) == Store(cfg, old(Now().disk), seenHashes, tag, f, trusted, io)
    {
      var h := cfg.hash(f.blob);
      if h in seenHashes {
        return Duplicate;
      }
      var tmpPath := cfg.TmpPath(tag);
      if io.WriteFails? || tmpPath in dirs {
        if io.WriteFails? && io.leftover.Some? {
          files := files[tmpPath := io.leftover.value];
        }
        return Broken;
      }
      files := files[tmpPath := f.blob];
      if io.FinalFails? {
        return Broken;
      }
      var ok := true;
      if cfg.verify {
        var stats;
        ok, stats := DecidePdfRelevance(cfg.pages(files[tmpPath]), trusted);
      }
      if !ok {
        if cfg.keepQuarantine {
          var outQ := EnsureUniquePath(cfg.QuarantineDir(), f.name, tag);
          files := (files - {tmpPath})[outQ := files[tmpPath]];
          return Quarantine(outQ);
        }
        files := files - {tmpPath};
        return Dropped;
      }
      var outPath := EnsureUniquePath(cfg.invDir, f.name, tag);
      files := (files - {tmpPath})[outPath := files[tmpPath]];
      return Stored(outPath);
    }

    method HandleOffer(cfg: Config, o: Offer) returns (saved: bool)
      modifies this
      ensures Now() == StoreOffer(cfg, old(Now()), o)
      ensures saved <==> |savedRows| > |old(savedRows)|
    {
      var v := StoreBlob(cfg, ShortMsgTag(o.id), o.file, o.trusted, o.io);
      var kind := KindOf(o.source);
      saved := false;
      match v
      case Duplicate => Report(o.id, kind, SkippedDuplicate);
      case Quarantine(path) => Report(o.id, kind, Quarantined(path));
      case Dropped => Report(o.id, kind, VerifyFailed);
      case Stored(path) =>
        seenHashes := seenHashes + {cfg.hash(o.file.blob)};
        Report(o.id, kind, SavedAs(path));
        savedRows := savedRows + [SavedRow(o.id, o.source, path)];
        saved := true;
      case Broken =>
        if kind.LinkItem? {
          crashed := true;
        } else {
          Report(o.id, kind, Failed);
        }
    }

    method Report(id: string, kind: Kind, what: What)
      modifies `downloadReport
      ensures downloadReport == old(downloadReport) + [Entry(id, kind, what)]
    {
      downloadReport := downloadReport + [Entry(id, kind, what)];
    }

    method ProcessAttachments(cfg: Config, m: Message, atts: seq<Attachment>) returns (anySaved: bool)
      requires !crashed
      modifies this
      ensures Now() == Attachments(cfg, old(Now()), m, atts) && !crashed
      ensures anySaved <==> |savedRows| > |old(savedRows)|
    {
      anySaved := false;
      for i := 0 to |atts|
        invariant Attachments(cfg, Now(), m, atts[i..]) == Attachments(cfg, old(Now()), m, atts)
        invariant !crashed && |savedRows| >= |old(savedRows)|
        invariant anySaved <==> |savedRows| > |old(savedRows)|
      {
        assert atts[i..][0] == atts[i] && atts[i..][1..] == atts[i + 1..];
        var a := atts[i];
        if !LooksPdf(a) {
          continue;
        }
        if a.io.DownloadFails? {
          Report(m.id, AttachmentItem, Failed);
          continue;
        }
        RecordGrows(cfg, Now(), AttachmentOffer(m, a));
        OfferCrashesExactly(cfg, Now(), AttachmentOffer(m, a));
        var saved := HandleOffer(cfg, AttachmentOffer(m, a));
        anySaved := anySaved || saved;
      }
    }

    method ProcessLinks(cfg: Config, m: Message, links: seq<Link>) returns (anySaved: bool)
      requires !crashed
      modifies this
      ensures Now() == Links(cfg, old(Now()), m, links)
      ensures anySaved <==> |savedRows| > |old(savedRows)|
    {
      for i := 0 to |links|
        invariant Links(cfg, Now(), m, links[i..]) == Links(cfg, old(Now()), m, links)
        invariant !crashed && |savedRows| == |old(savedRows)|
      {
        assert links[i..][0] == links[i] && links[i..][1..] == links[i + 1..];
        var u := links[i];
        var o := LinkOffer(m, u);
        if o.Some? {
          RecordGrows(cfg, Now(), o.value);
          var saved := HandleOffer(cfg, o.value);
          if saved || crashed {
            return saved;
          }
        } else if WithinDomain(u.host, BEZEQ_HOSTS) && u.io.DownloadFails? {
          crashed := true;
          return false;
        }
      }
      anySaved := false;
    }

    lemma RecordGrows(cfg: Config, s: State, o: Offer)
      ensures |s.saved| <= |StoreOffer(cfg, s, o).saved| <= |s.saved| + 1
    {
      var (d, v) := Store(cfg, s.disk, s.seen, ShortMsgTag(o.id), o.file, o.trusted, o.io);
      OneRecord(s, o.id, KindOf(o.source), o.source, cfg.hash(o.file.blob), d, v);
    }

    lemma OneRecord(s: State, id: string, kind: Kind, source: Source, h: Digest, d: Disk, v: Verdict)
      ensures |s.saved| <= |Record(s, id, kind, source, h, d, v).saved| <= |s.saved| + 1
    {
    }

    method ProcessMessage(cfg: Config, m: Message)
      requires !crashed
      modifies this
      ensures Now() == MessageStep(cfg, old(Now()), m)
    {
      if !(m.hasAttachments || ShouldConsider(m.subject, m.preview)) {
        return;
      }
      var anySaved := false;
      if m.hasAttachments {
        if m.attachments.None? {
          rejectedRows := rejectedRows + [RejectedRow(m.id, ListFailed)];
        } else {
          anySaved := ProcessAttachments(cfg, m, m.attachments.value);
        }
      }
      assert Now() == AttachmentPhase(cfg, old(Now()), m);
      if anySaved {
        return;
      }
      var links := [];
      if m.body.None? {
        Report(m.id, BodyItem, Failed);
      } else {
        links := m.body.value;
      }
      anySaved := ProcessLinks(cfg, m, links);
      if crashed {
        return;
      }
      if !anySaved && links != [] {
        rejectedRows := rejectedRows + [RejectedRow(m.id, LinksNoPdf)];
      }
      if !anySaved && !m.hasAttachments {
        rejectedRows := rejectedRows + [RejectedRow(m.id, NoAttachNoPdfLinks)];
      }
    }

    /** The message loop of `main`. */
    method RunAll(cfg: Config, msgs: seq<Message>)
      modifies this
      ensures Now() == Run(cfg, old(Now()), msgs)
    {
      for i := 0 to |msgs|
        invariant Run(cfg, Now(), msgs[i..]) == Run(cfg, old(Now()), msgs)
      {
        assert msgs[i..][0] == msgs[i] && msgs[i..][1..] == msgs[i + 1..];
        if crashed {
          CrashStays(cfg, Now(), msgs[i..]);
          return;
        }
        ProcessMessage(cfg, msgs[i]);
      }
    }
  }
}
