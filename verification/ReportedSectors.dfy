/** What the answers of a whole session say about the medium: the last sector they name. */
module ReportedSectors {
  import opened Bytes
  import opened BlockIo
  import opened StreamFlash
  import opened StreamLaws
  import opened Proto
  import opened Session
  import opened HeaderTransfer
  import opened AsyncLaws
  import opened PayloadMessages
  import opened LateHeaders
  import opened HeaderPackets
  import opened LocationFacts
  import opened RunningContext
  import MessageTables
  import PlanFacts
  import SessionLaws

  /** A sound session whose context, once started, has reported the last sector it wrote. */
  predicate Reporting(s: Session) {
    Secured(s) && (s.ready ==> Reported(s.flash))
  }

  lemma StoredReports(s: Session, at: nat, complete: nat, chunk: seq<byte>, h: Handled)
    requires !s.ready && at <= |Front(s)| && Stored(s, at, complete, chunk, h)
    ensures h.session.ready ==> Reported(h.session.flash)
  {
    hide Init, Reported, FsShort, LaidOver, Front, Mebibytes;
    var front := LaidOver(Front(s), at, chunk);
    if h.session.ready {
      InitReports(if complete != 0 then front[..complete] else front, s.disk.media, s.commit);
    }
  }

  /** A context just started has reported nothing. */
  lemma StartReports(s: Session, msg: seq<byte>)
    requires Consistent(s) && !s.ready && IsHeaderMessage(msg)
    ensures Handle(s, msg).session.ready ==> Reported(Handle(s, msg).session.flash)
  {
    hide Handle, Consistent, Stored, Reported, Front, ComplaintV1, ComplaintV2, IsHeaderMessage, RdBe32, PlacementOf,
      FsShort;
    if ComplaintOf(s, msg).Some? {
      HeaderRefused(s, msg);
    } else {
      HeaderStored(s, msg);
      if RdBe32(msg, 12) == 0x0B {
        StoredReports(s.(received := 0), 0, RdBe32(msg, 24), msg[32..32 + RdBe32(msg, 24)], Handle(s, msg));
      } else {
        var s1 := BegunV2(s, msg);
        StoredReports(s1, s1.received, RdBe32(msg, 24), msg[60..60 + RdBe32(msg, 33)], Handle(s, msg));
      }
    }
  }

  lemma DeliverReports(s: Session, data: seq<byte>, progress: byte)
    requires Reporting(s)
    ensures Consistent(s)
    ensures var t := Deliver(s, data, progress).session;
            t.ready ==> Reported(t.flash)
  {
    hide Sound, Reported, Feed, SecureStatusBytes, Steppable, Multiple, Wrap32, Disk.Valid;
    if s.ready && data != [] {
      FeedReports(s.flash, s.disk, data);
    }
  }

  /** Every message but a harmful late header keeps it so. */
  lemma HandleReports(s: Session, msg: seq<byte>)
    requires Reporting(s) && Consistent(s) && (s.ready ==> Harmless(s, msg))
    ensures Reporting(Handle(s, msg).session)
  {
    hide *;
    ReportingIs(s);
    HandleSecures(s, msg);
    if IsHeaderMessage(msg) && s.ready {
      HarmlessHeader(s, msg);
      SameReports(s, Handle(s, msg).session);
    } else if IsHeaderMessage(msg) {
      StartReports(s, msg);
    } else if IsPayload(msg) {
      PayloadDelivers(s, msg);
      DeliverReports(s, Carried(msg), msg[8]);
    } else if IsPayloadMessage(msg) {
      BadPayloadIdle(s, msg);
    } else {
      IdleOtherwise(s, msg);
    }
    NowReporting(Handle(s, msg).session);
  }

  lemma ReportingIs(s: Session)
    requires Reporting(s)
    ensures Secured(s) && (s.ready ==> Reported(s.flash) && s.live)
  {
    hide Reported, Sound;
  }

  lemma NowReporting(s: Session)
    requires Secured(s) && (s.ready ==> Reported(s.flash))
    ensures Reporting(s)
  {
  }

  lemma SameReports(s: Session, t: Session)
    requires SameContext(s, t) && (s.ready ==> Reported(s.flash))
    ensures t.ready ==> Reported(t.flash)
  {
    hide Reported;
  }

  lemma {:induction false} RunsReport(s: Session, msgs: seq<seq<byte>>)
    requires Reporting(s) && Consistent(s) && AllHarmless(s, msgs)
    ensures Reporting(Serve(s, msgs).session)
    decreases |msgs|
  {
    hide Handle, Consistent, Reporting, Harmless;
    if msgs != [] {
      HandleReports(s, msgs[0]);
      if !Handle(s, msgs[0]).exit {
        RunsReport(Handle(s, msgs[0]).session, msgs[1..]);
      }
    }
  }

  lemma DoneReports(s: Stream, d: Disk)
    requires Reported(s) && Done(s) && Sound(s, d)
    ensures 0 < |s.plan.entries| && 0 < s.mediaBlock
    ensures var k := |s.plan.entries| - 1;
            var e := s.plan.entries[k];
            && 0 < e.locationCount
            && s.lastSector == SectorOf(s.header, e, BlockSizeOf(s.plan, k), s.mediaBlock, e.locationCount - 1)
  {
    hide SectorOf;
    PlanFacts.EntryFacts(s.header, s.plan, |s.plan.entries| - 1);
  }

  /** The sector the host is told at the end: after any session without harmful late headers, whatever the
      device has done on the way, the answer that completes it names the last block of the last location
      of the last entry. */
  lemma CompletionNamesLastSector(disk: Disk, commit: bool, msgs: seq<seq<byte>>, msg: seq<byte>)
    requires disk.Valid() && AllHarmless(Initial(disk, commit), msgs) && IsPayload(msg)
    requires Handle(Serve(Initial(disk, commit), msgs).session, msg).exit
    ensures var h := Handle(Serve(Initial(disk, commit), msgs).session, msg);
            var flash := h.session.flash;
            && |h.replies| == 1 && h.replies[0].Answer? && |h.replies[0].bytes| == 36
            && 0 < |flash.plan.entries| && 0 < flash.mediaBlock
            && var k := |flash.plan.entries| - 1;
            && 0 < flash.plan.entries[k].locationCount
            && RdBe32(h.replies[0].bytes, 28) ==
               SectorOf(flash.header, flash.plan.entries[k], BlockSizeOf(flash.plan, k), flash.mediaBlock,
                 flash.plan.entries[k].locationCount - 1)
  {
    hide *;
    NothingReported(disk, commit);
    RunsReport(Initial(disk, commit), msgs);
    var s := Serve(Initial(disk, commit), msgs).session;
    ReportingIs(s);
    PayloadDelivers(s, msg);
    var h := Handle(s, msg);
    ExitIsReady(s, Carried(msg), msg[8]);
    DeliverReports(s, Carried(msg), msg[8]);
    DeliverSecures(s, Carried(msg), msg[8]);
    SecuredSound(h.session);
    DoneReports(h.session.flash, h.session.disk);
  }

  lemma NothingReported(disk: Disk, commit: bool)
    requires disk.Valid()
    ensures Reporting(Initial(disk, commit))
  {
  }

  lemma SecuredSound(s: Session)
    requires Secured(s) && s.ready
    ensures Sound(s.flash, s.disk)
  {
  }

  lemma ExitIsReady(s: Session, data: seq<byte>, progress: byte)
    requires Consistent(s) && Deliver(s, data, progress).exit
    ensures var h := Deliver(s, data, progress);
            && h.session.ready && Done(h.session.flash)
            && |h.replies| == 1 && h.replies[0].Answer? && |h.replies[0].bytes| == 36
            && RdBe32(h.replies[0].bytes, 28) == h.session.flash.lastSector
  {
    hide Consistent, Deliver, Feed, Done, RdBe32, RdBe16;
    MessageTables.DeliveryAnswer(s, data, progress);
    hide SessionLaws.Fate;
    KeepsReady(s, data, progress);
  }

  lemma KeepsReady(s: Session, data: seq<byte>, progress: byte)
    requires Consistent(s)
    ensures Deliver(s, data, progress).session.ready == s.ready
  {
    hide Consistent, Feed, Done, SecureStatusBytes;
  }
}
