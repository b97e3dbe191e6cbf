/** The flash context of a running session: what every message leaves of it, the replay it keeps on
    the medium under any faults, and what the host is told. */
module RunningContext {
  import opened Bytes
  import opened BlockIo
  import FfuLayout
  import opened StreamFlash
  import opened StreamLaws
  import opened Proto
  import opened Session
  import opened HeaderTransfer
  import opened AsyncLaws
  import opened PayloadMessages
  import opened LateHeaders
  import opened EndToEnd
  import DirectLaws
  import SameDisk
  import SessionLaws
  import StreamRuns

  // ----- the start -----

  /** The plan of s is the one its header describes. */
  predicate PlanRead(s: Stream) {
    |s.header| < MAX_FILE && FfuLayout.Parse(HeaderBytes, s.header) == Ok(s.plan)
  }

  /** A session just after a header packet: the disk is untouched, and a started context is sound and
      has accepted nothing yet. */
  predicate FreshStart(s: Session, d: Disk) {
    && Consistent(s) && s.disk == d
    && (s.ready ==> s.live && s.flash.dryRun == !s.commit && PlanRead(s.flash) && Tracks(s.flash, d, d.image, []))
  }

  lemma BeginFresh(s: Session, n: nat)
    requires Consistent(s) && !s.ready && n <= s.headerSize
    ensures FreshStart(Begin(s, n).session, s.disk)
  {
    hide Init, FfuLayout.Parse, Tracks, Multiple, Steppable;
    if s.header.Some? {
      var front: Contents := s.header.value[..n];
      if Init(front, s.disk.media, s.commit).status == SUCCESS {
        StreamRuns.InitTracks(front, s.disk, s.commit);
        StreamRuns.InitShape(front, s.disk.media, s.commit);
      }
    }
  }

  lemma StoreFresh(s: Session, need: nat, complete: nat, copyAt: nat, chunk: seq<byte>, v2: bool)
    requires Consistent(s) && !s.ready && need == copyAt + |chunk| && need < 2 * TWO_32 && complete < TWO_32
    requires complete == 0 ==> need == 0
    requires v2 || s.received == 0
    ensures FreshStart(Store(s, need, complete, copyAt, chunk, v2).session, s.disk)
  {
    hide Begin, Consistent, PlanRead, Tracks, CapacityFor, Grown, Pasted, Counted, Wrap32, FsShortBytes;
    if !TooLarge(s, need, complete) {
      var s1 := Copied(Reserved(s, need, complete), need, copyAt, chunk, v2);
      if complete == 0 || complete <= s1.headerSize {
        hide Copied, Reserved;
        BeginFresh(if v2 then ClearCount(s1) else s1, if complete != 0 then complete else s1.headerSize);
      }
    }
  }

  function ClearCount(s: Session): (r: Session)
    requires Consistent(s)
    ensures Consistent(r)
  {
    s.(received := 0)
  }

  lemma HeaderFresh(s: Session, msg: seq<byte>)
    requires Consistent(s) && !s.ready && |msg| >= 16
    ensures FreshStart(HandleHeaderV1(s, msg).session, s.disk) && FreshStart(HandleHeaderV2(s, msg).session, s.disk)
  {
    hide Store, Multiple, Steppable, Disk.Valid, PlanRead, Tracks, RdBe32, Wrap32, FsShortBytes;
    if |msg| >= 32 {
      var n := RdBe32(msg, 24);
      if n <= MAX_HEADER_DATA && |msg| >= 32 + n {
        StoreFresh(ClearCount(s), n, n, 0, msg[32..32 + n], false);
      }
    }
    if |msg| >= 60 {
      var total, offset, n := RdBe32(msg, 24), RdBe32(msg, 29), RdBe32(msg, 33);
      if s.received as int + n as int <= total && n <= MAX_HEADER_DATA && |msg| >= 60 + n {
        var s1 := if offset == 0 then Restarted(s) else s;
        var need := s1.received as int + n as int;
        StoreFresh(s1, need, if total == 0 then need else total, s1.received, msg[60..60 + n], true);
      }
    }
  }

  /** Whatever a header packet does to a session that has not started, it is a fresh start or none. */
  lemma FreshFromHeader(s: Session, msg: seq<byte>)
    requires Consistent(s) && !s.ready && IsHeaderMessage(msg)
    ensures FreshStart(Handle(s, msg).session, s.disk)
  {
    hide Handle, HandleHeaderV1, HandleHeaderV2, Consistent, FreshStart;
    HeaderFresh(s, msg);
    if SecureMessage(msg, SUBBLOCK_HEADER_V1) {
      SecureDispatch(s, msg, SUBBLOCK_HEADER_V1);
    } else {
      SecureDispatch(s, msg, SUBBLOCK_HEADER_V2);
    }
  }

  // ----- soundness, whatever else the session does -----

  /** A started session whose context still reads the header it was started on. */
  predicate Secured(s: Session) {
    Consistent(s) && (s.ready ==> s.live && Sound(s.flash, s.disk))
  }

  lemma FreshSecured(s: Session, d: Disk)
    requires FreshStart(s, d)
    ensures Secured(s)
  {
    hide Consistent;
    if s.ready {
      TracksSound(s.flash, d, d.image, []);
    }
  }

  lemma SoundMedia(s: Stream, d: Disk, e: Disk)
    requires Sound(s, d) && e.Valid() && e.media == d.media
    ensures Sound(s, e)
  {
  }

  lemma DeliverSecures(s: Session, data: seq<byte>, progress: byte)
    requires Secured(s)
    ensures Secured(Deliver(s, data, progress).session)
  {
    hide Sound, Feed, SecureStatusBytes, Steppable, Multiple, Wrap32;
    FeedKeepsHeader(s, data);
    if s.ready && data != [] {
      StreamRuns.FeedSound(s.flash, s.disk, data);
    }
  }

  /** A harmless header packet leaves the context and the disk as they are. */
  lemma HarmlessHeader(s: Session, msg: seq<byte>)
    requires Consistent(s) && s.ready && s.live && IsHeaderMessage(msg) && Harmless(s, msg)
    ensures SameContext(s, Handle(s, msg).session)
  {
    hide Handle, PlacementOf, Meets, TooLarge, MustGrow, Repeats, Consistent;
    LateHeaderOverwrites(s, msg);
    HeaderKeepsDisk(s, msg);
    ValidDisk(s);
    AsyncStep(s, msg);
    if PlacementOf(s, msg).Some? {
      MeetsHarmless(s, PlacementOf(s, msg).value, Handle(s, msg));
    }
  }

  /** t is s with other header bookkeeping or another asynchronous status. */
  predicate SameContext(s: Session, t: Session) {
    t.ready == s.ready && t.live == s.live && t.flash == s.flash && t.disk == s.disk && t.commit == s.commit
  }

  /** Parser and stream compose in a session: every message other than a harmful header packet after
      the start keeps the running context sound, whatever the device does, so that (by NeverShort) no
      location is ever missing from the header and no entry outgrows its buffer. */
  lemma HandleSecures(s: Session, msg: seq<byte>)
    requires Secured(s) && (s.ready ==> Harmless(s, msg))
    ensures Secured(Handle(s, msg).session)
  {
    hide *;
    SecuredIs(s);
    if IsHeaderMessage(msg) && s.ready {
      HarmlessHeader(s, msg);
      SameSecured(s, Handle(s, msg).session);
    } else if IsHeaderMessage(msg) {
      FreshFromHeader(s, msg);
      FreshSecured(Handle(s, msg).session, s.disk);
    } else if IsPayload(msg) {
      PayloadDelivers(s, msg);
      DeliverSecures(s, Carried(msg), msg[8]);
    } else if IsPayloadMessage(msg) {
      BadPayloadIdle(s, msg);
    } else {
      IdleOtherwise(s, msg);
      OtherMedia(s, Handle(s, msg).session);
    }
  }

  lemma SecuredIs(s: Session)
    requires Secured(s)
    ensures Consistent(s) && (s.ready ==> s.live)
  {
  }

  lemma SameSecured(s: Session, t: Session)
    requires Secured(s) && Consistent(t) && SameContext(s, t)
    ensures Secured(t)
  {
    hide Consistent, Sound;
  }

  lemma OtherMedia(s: Session, t: Session)
    requires Secured(s) && Consistent(t) && t == s.(async := t.async, disk := t.disk) && t.disk.media == s.disk.media
    ensures Secured(t)
  {
    hide Sound, Steppable, Multiple;
    if s.ready {
      SoundMedia(s.flash, s.disk, t.disk);
    }
  }

  /** Every message that is handled once the session is ready is harmless: a late header packet fails
      a check, is too large, or repeats what is there. */
  predicate AllHarmless(s: Session, msgs: seq<seq<byte>>)
    requires Consistent(s)
    decreases |msgs|
  {
    msgs == [] ||
    ((s.ready ==> Harmless(s, msgs[0])) &&
     (Handle(s, msgs[0]).exit || AllHarmless(Handle(s, msgs[0]).session, msgs[1..])))
  }

  lemma {:induction false} RunsStaySecured(s: Session, msgs: seq<seq<byte>>)
    requires Secured(s) && AllHarmless(s, msgs)
    ensures Secured(Serve(s, msgs).session)
    decreases |msgs|
  {
    hide Handle, Consistent, Sound, Harmless;
    if msgs != [] {
      HandleSecures(s, msgs[0]);
      if !Handle(s, msgs[0]).exit {
        RunsStaySecured(Handle(s, msgs[0]).session, msgs[1..]);
      }
    }
  }

  /** In every reachable session without harmful late headers, a started context can read every location of
      its current entry and buffer the entry whole. */
  lemma ReachableNeverShort(disk: Disk, commit: bool, msgs: seq<seq<byte>>, l: nat)
    requires disk.Valid() && AllHarmless(Initial(disk, commit), msgs)
    ensures var flash := Serve(Initial(disk, commit), msgs).session.flash;
            Serve(Initial(disk, commit), msgs).session.ready && flash.index < |flash.plan.entries|
            && l < flash.plan.entries[flash.index].locationCount ==>
              ReadLocation(HeaderBytes, flash.header, flash.plan.entries[flash.index], l).Ok?
              && flash.plan.entries[flash.index].byteCount <= |flash.data|
  {
    hide Serve, AllHarmless, Disk.Valid, Sound, ReadLocation;
    RunsStaySecured(Initial(disk, commit), msgs);
    var s := Serve(Initial(disk, commit), msgs).session;
    if s.ready && s.flash.index < |s.flash.plan.entries| && l < s.flash.plan.entries[s.flash.index].locationCount {
      NeverShort(s.flash, s.disk, l);
    }
  }

  // ----- the replay on the medium, under any faults -----

  /** The session has kept track: of nothing before the start, and of the payload bytes w after it. */
  predicate OnTrack(s: Session, commit: bool, img: seq<byte>, w: seq<byte>) {
    && Consistent(s) && s.commit == commit
    && if s.ready then s.live && s.flash.dryRun == !commit && PlanRead(s.flash) && Tracks(s.flash, s.disk, img, w)
       else s.disk.image == img && w == []
  }

  /** The payload bytes of one message that enter the machine. */
  function Entering(s: Session, msg: seq<byte>): seq<byte>
    requires Consistent(s)
  {
    if s.ready && IsPayload(msg) then Carried(msg)[..Taken(s.flash, s.disk, Carried(msg))] else []
  }

  /** The payload bytes of a whole run that enter the machine, faults or not. */
  function Entered(s: Session, msgs: seq<seq<byte>>): seq<byte>
    requires Consistent(s)
    decreases |msgs|
  {
    if msgs == [] then []
    else
      var h := Handle(s, msgs[0]);
      Entering(s, msgs[0]) + if h.exit then [] else Entered(h.session, msgs[1..])
  }

  lemma FreshOnTrack(s: Session, d: Disk)
    requires FreshStart(s, d)
    ensures OnTrack(s, s.commit, d.image, [])
  {
  }

  lemma TrackNothing(s: Session, t: Session, commit: bool, img: seq<byte>, w: seq<byte>)
    requires OnTrack(s, commit, img, w) && Consistent(t) && SameContext(s, t)
    ensures OnTrack(t, commit, img, w + [])
  {
    hide PlanRead;
    assert w + [] == w;
  }

  lemma FeedKeepsPlan(s: Stream, d: Disk, img: seq<byte>, w: seq<byte>, data: seq<byte>)
    requires Tracks(s, d, img, w) && PlanRead(s) && Steppable(s) && d.Valid()
    ensures PlanRead(Feed(s, d, data).stream) && Feed(s, d, data).stream.dryRun == s.dryRun
  {
    hide FfuLayout.Parse, Tracks, Sound, Run;
    TracksSound(s, d, img, w);
    StreamRuns.RunSound(s, d, data);
  }

  lemma DeliverOnTrack(s: Session, commit: bool, img: seq<byte>, w: seq<byte>, data: seq<byte>, progress: byte)
    requires OnTrack(s, commit, img, w) && s.ready
    ensures Steppable(s.flash) && s.disk.Valid()
    ensures OnTrack(Deliver(s, data, progress).session, commit, img, w + data[..Taken(s.flash, s.disk, data)])
  {
    SessionLaws.ReadyIsSteppable(s);
    hide Consistent, PlanRead, Tracks, Feed, SecureStatusBytes, Steppable, Wrap32, Disk.Valid;
    if data == [] {
      assert w + data[..0] == w;
    } else {
      StreamRuns.FeedTracks(s.flash, s.disk, img, w, data);
      FeedKeepsPlan(s.flash, s.disk, img, w, data);
    }
  }

  lemma NotReadyDeliver(s: Session, commit: bool, img: seq<byte>, w: seq<byte>, data: seq<byte>, progress: byte)
    requires OnTrack(s, commit, img, w) && !s.ready
    ensures OnTrack(Deliver(s, data, progress).session, commit, img, w + [])
  {
    hide PlanRead, Tracks, SecureStatusBytes, Steppable, Multiple, Wrap32, Disk.Valid, Done;
    assert w + [] == w;
  }

  /** One message, on any device. */
  lemma HandleOnTrack(s: Session, msg: seq<byte>, commit: bool, img: seq<byte>, w: seq<byte>)
    requires OnTrack(s, commit, img, w) && (s.ready ==> Harmless(s, msg)) && !IsLegacy(msg) && !Counts(msg)
    ensures Consistent(s) && OnTrack(Handle(s, msg).session, commit, img, w + Entering(s, msg))
  {
    if IsPayload(msg) {
      PayloadDelivers(s, msg);
      hide Handle, Deliver, IsPayload, Carried, Taken, PlanRead, Tracks, Consistent, Steppable, Disk.Valid, Harmless;
      if s.ready {
        DeliverOnTrack(s, commit, img, w, Carried(msg), msg[8]);
      } else {
        NotReadyDeliver(s, commit, img, w, Carried(msg), msg[8]);
      }
    } else {
      hide Handle, Deliver, IsPayload, Carried, Taken, PlanRead, Tracks, Steppable, Disk.Valid, Harmless;
      OtherOnTrack(s, msg, commit, img, w);
    }
  }

  lemma OtherOnTrack(s: Session, msg: seq<byte>, commit: bool, img: seq<byte>, w: seq<byte>)
    requires OnTrack(s, commit, img, w) && Consistent(s) && !IsPayload(msg)
    requires (s.ready ==> Harmless(s, msg)) && !IsLegacy(msg) && !Counts(msg)
    ensures OnTrack(Handle(s, msg).session, commit, img, w + [])
  {
    hide Handle, IsPayload, PlanRead, Tracks, Consistent, Harmless, IsHeaderMessage, IsPayloadMessage, IsLegacy, Counts;
    if IsHeaderMessage(msg) && !s.ready {
      FreshFromHeader(s, msg);
      FreshOnTrack(Handle(s, msg).session, s.disk);
      assert w + [] == [];
      KeepsCommit(s, msg);
    } else {
      if IsHeaderMessage(msg) {
        HarmlessHeader(s, msg);
      } else if IsPayloadMessage(msg) {
        BadPayloadIdle(s, msg);
      } else {
        IdleOtherwise(s, msg);
      }
      TrackNothing(s, Handle(s, msg).session, commit, img, w);
    }
  }

  lemma KeepsCommit(s: Session, msg: seq<byte>)
    requires Consistent(s)
    ensures Handle(s, msg).session.commit == s.commit
  {
    ValidDisk(s);
    AsyncStep(s, msg);
    hide *;
  }

  /** No message of the two sector writers that the device would look at. */
  predicate NoSectorWrites(msgs: seq<seq<byte>>) {
    forall k :: 0 <= k < |msgs| ==> !IsLegacy(msgs[k]) && !Counts(msgs[k])
  }

  /** Every run without harmful late headers and sector writes, on any device: the medium is the replay of the
      completed entries from exactly the bytes that entered, except inside a pending entry's ranges. */
  lemma {:induction false} RunsOnTrack(s: Session, msgs: seq<seq<byte>>, commit: bool, img: seq<byte>, w: seq<byte>)
    requires OnTrack(s, commit, img, w) && Consistent(s) && AllHarmless(s, msgs) && NoSectorWrites(msgs)
    ensures OnTrack(Serve(s, msgs).session, commit, img, w + Entered(s, msgs))
    decreases |msgs|
  {
    hide Handle, Consistent, OnTrack, Harmless, IsLegacy, Counts, Entering;
    if msgs == [] {
      assert w + [] == w;
    } else {
      HandleOnTrack(s, msgs[0], commit, img, w);
      var h, got := Handle(s, msgs[0]), Entering(s, msgs[0]);
      if h.exit {
        assert got + [] == got;
      } else {
        RunsOnTrack(h.session, msgs[1..], commit, img, w + got);
        StreamRuns.Associate(w, got, Entered(h.session, msgs[1..]));
      }
    }
  }

  /** The session ended with an answer, and not by a reboot or a mode switch. */
  predicate Completed(r: Served) {
    r.exit && |r.log| > 0 && |r.log[|r.log| - 1].replies| == 1 && r.log[|r.log| - 1].replies[0].Answer?
  }

  lemma ExitIsDone(s: Session, msg: seq<byte>)
    requires Consistent(s) && Handle(s, msg).exit && |Handle(s, msg).replies| == 1 && Handle(s, msg).replies[0].Answer?
    ensures Handle(s, msg).session.ready && Done(Handle(s, msg).session.flash)
  {
    hide Handle, HandleHeaderV1, HandleHeaderV2, IsPayload, IsPayloadMessage, IsHeaderMessage, Run, SecureStatusBytes,
      Carried,
      Consistent;
    if IsPayload(msg) {
      PayloadDelivers(s, msg);
    } else if IsPayloadMessage(msg) {
      BadPayloadIdle(s, msg);
    } else if IsHeaderMessage(msg) {
      HeaderKeepsDisk(s, msg);
    } else {
      IdleOtherwise(s, msg);
    }
  }

  lemma {:induction false} CompletedIsDone(s: Session, msgs: seq<seq<byte>>)
    requires Consistent(s) && Completed(Serve(s, msgs))
    ensures Serve(s, msgs).session.ready && Done(Serve(s, msgs).session.flash)
    decreases |msgs|
  {
    hide Handle, Consistent, Done;
    var h := Handle(s, msgs[0]);
    if h.exit {
      ExitIsDone(s, msgs[0]);
    } else {
      var rest := Serve(h.session, msgs[1..]);
      assert Serve(s, msgs).log[|rest.log|] == rest.log[|rest.log| - 1];
      CompletedIsDone(h.session, msgs[1..]);
    }
  }

  /** Completion under faults: whatever the device did on the way, however often entries had to be
      written again, a committed session that ends by completion has left on the medium the replay of
      the whole plan from the payload bytes that entered, and nothing else. */
  lemma CompletionReplays(disk: Disk, msgs: seq<seq<byte>>)
    requires disk.Valid() && AllHarmless(Initial(disk, true), msgs) && NoSectorWrites(msgs)
    requires Completed(Serve(Initial(disk, true), msgs))
    ensures var s := Serve(Initial(disk, true), msgs).session;
            var w := Entered(Initial(disk, true), msgs);
            var n := |s.flash.plan.entries|;
            && PlanRead(s.flash) && |w| == FfuLayout.PrefixBytes(s.flash.plan.entries, n)
            && s.disk.image == Replay(disk.image, s.flash.header, s.flash.plan, w, n)
  {
    var s0 := Initial(disk, true);
    CompletedIsDone(s0, msgs);
    RunsOnTrack(s0, msgs, true, disk.image, []);
    assert [] + Entered(s0, msgs) == Entered(s0, msgs);
    hide Serve, Entered, AllHarmless, Replay, AgreesBut, PlanRead;
  }

  /** So if the header that the context reads is a file's, and the bytes that entered are the payload
      that file describes, the medium is the full replay of the file. */
  lemma CompletionFlashesFile(disk: Disk, msgs: seq<seq<byte>>, f: Contents, plan: FfuLayout.Plan)
    requires disk.Valid() && AllHarmless(Initial(disk, true), msgs) && NoSectorWrites(msgs)
    requires Completed(Serve(Initial(disk, true), msgs)) && SameDisk.Flashable(f, plan) && plan.headerSize <= |f|
    requires Serve(Initial(disk, true), msgs).session.flash.header == f[..plan.headerSize]
    requires Entered(Initial(disk, true), msgs) == DirectLaws.Described(f, plan, |plan.entries|)
    ensures Serve(Initial(disk, true), msgs).session.disk.image == FullReplay(f, plan, disk.image)
  {
    hide Serve, Entered, AllHarmless, NoSectorWrites, Completed, Replay, SameDisk.Flashable, DirectLaws.Described,
      DirectLaws.InFile, FfuLayout.Parse, FfuLayout.PrefixBytes, Disk.Valid;
    CompletionReplays(disk, msgs);
    SameDisk.FlashableFacts(f, plan);
    var flash := Serve(Initial(disk, true), msgs).session.flash;
    SameDisk.ReplayInPrefix(
      disk.image, f, plan.headerSize, flash.plan, plan, Entered(Initial(disk, true), msgs), |plan.entries|);
  }

  /** How a host gets there in spite of faults: of a refused packet, the bytes in front of the end of
      the entry whose write failed have entered, and if it sends exactly the others next, and they are
      taken, the two packets together have entered as the one. */
  lemma RemainderCompletes(s: Session, msg: seq<byte>, next: seq<byte>, commit: bool, img: seq<byte>, w: seq<byte>)
    requires OnTrack(s, commit, img, w) && Consistent(s) && s.ready && IsPayload(msg)
    requires SessionLaws.Fate(s, Carried(msg)).status != SUCCESS
    ensures var t := Handle(s, msg).session;
            var n := |Entering(s, msg)|;
            && t.ready && t.flash.index <= |t.flash.plan.entries| && n <= |Carried(msg)|
            && |w| + n == FfuLayout.PrefixBytes(t.flash.plan.entries, Min(t.flash.index + 1, |t.flash.plan.entries|))
            && (IsPayload(next) && Carried(next) == Carried(msg)[n..]
                && SessionLaws.Fate(t, Carried(next)).status == SUCCESS ==>
                  Entering(s, msg) + Entering(t, next) == Carried(msg))
  {
    hide Handle, Feed, Taken, IsPayload, Carried, PlanRead, Tracks, Consistent, Steppable, Disk.Valid,
      FfuLayout.PrefixBytes,
      SecureStatusBytes;
    SessionLaws.ReadyIsSteppable(s);
    PayloadDelivers(s, msg);
    StreamRuns.RefusedRemainder(s.flash, s.disk, img, w, Carried(msg));
    var t := Handle(s, msg).session;
    SessionLaws.ReadyIsSteppable(t);
    DeliverOnTrack(s, commit, img, w, Carried(msg), msg[8]);
    if SessionLaws.Fate(t, Carried(next)).status == SUCCESS {
      AllTaken(t, commit, img, w + Entering(s, msg), Carried(next));
    }
  }

  /** A payload call that succeeds has taken every byte. */
  lemma AllTaken(s: Session, commit: bool, img: seq<byte>, w: seq<byte>, data: seq<byte>)
    requires OnTrack(s, commit, img, w) && Consistent(s) && s.ready && SessionLaws.Fate(s, data).status == SUCCESS
    ensures Steppable(s.flash) && s.disk.Valid() && data[..Taken(s.flash, s.disk, data)] == data
  {
    SessionLaws.ReadyIsSteppable(s);
    hide Run, PlanRead, Tracks, Consistent, Steppable, Disk.Valid;
    StreamRuns.FeedTracks(s.flash, s.disk, img, w, data);
  }

  // ----- what the host is told over a whole run -----

  lemma DeliverScript(s: Session, data: seq<byte>, progress: byte)
    requires Consistent(s)
    ensures StreamRuns.ScriptShrinks(s.disk, Deliver(s, data, progress).session.disk)
  {
    hide Run, SecureStatusBytes, Steppable, Disk.Valid, StreamRuns.ScriptShrinks, Consistent;
    StreamRuns.ScriptSame(s.disk);
    if s.ready {
      SessionLaws.ReadyIsSteppable(s);
      StreamRuns.SilentIsScripted(s.flash, s.disk, data);
    }
  }

  /** No message adds to the device's script. */
  lemma HandleScript(s: Session, msg: seq<byte>)
    requires Consistent(s)
    ensures StreamRuns.ScriptShrinks(s.disk, Handle(s, msg).session.disk)
  {
    hide *;
    StreamRuns.ScriptSame(s.disk);
    ValidDisk(s);
    if IsHeaderMessage(msg) {
      HeaderKeepsDisk(s, msg);
    } else if IsPayload(msg) {
      PayloadDelivers(s, msg);
      DeliverScript(s, Carried(msg), msg[8]);
    } else if IsPayloadMessage(msg) {
      BadPayloadIdle(s, msg);
    } else {
      OneRequestEach(s, msg);
      RequestScript(s.disk, Handle(s, msg).session.disk);
    }
  }

  lemma RequestScript(d: Disk, e: Disk)
    requires d.Valid() && OneRequest(d, e)
    ensures StreamRuns.ScriptShrinks(d, e)
  {
    hide WriteBlocks;
    if e == d {
      StreamRuns.ScriptSame(d);
    } else {
      var lba: u64, buf: seq<byte> :| e == WriteBlocks(d, lba, buf).disk;
      StreamRuns.DeviceCode(d, lba, buf);
    }
  }

  lemma {:induction false} RunsScript(s: Session, msgs: seq<seq<byte>>)
    requires Consistent(s)
    ensures StreamRuns.ScriptShrinks(s.disk, Serve(s, msgs).session.disk)
    decreases |msgs|
  {
    hide Handle, Consistent, StreamRuns.ScriptShrinks;
    StreamRuns.ScriptSame(s.disk);
    if msgs != [] {
      HandleScript(s, msgs[0]);
      var h := Handle(s, msgs[0]);
      if !h.exit {
        RunsScript(h.session, msgs[1..]);
        StreamRuns.ShrinksAgain(s.disk, h.session.disk, Serve(h.session, msgs[1..]).session.disk);
      }
    }
  }

  lemma StillSpeaksUp(d: Disk, e: Disk)
    requires SessionLaws.SpeaksUp(d) && StreamRuns.ScriptShrinks(d, e)
    ensures SessionLaws.SpeaksUp(e)
  {
  }

  /** If no error of the device is zero in its low 16 bits, no answer to a payload packet misleads the
      host in any session: after any messages, its parser accepts the answer exactly if the packet
      passes its checks, flashing had started, no error was raised and, where the packet announces
      completion, every entry is flashed. */
  lemma HostNeverMisled(disk: Disk, commit: bool, msgs: seq<seq<byte>>, msg: seq<byte>)
    requires disk.Valid() && SessionLaws.SpeaksUp(disk) && IsPayloadMessage(msg)
    ensures var s := Serve(Initial(disk, commit), msgs).session;
            HostAccepts(Handle(s, msg), msg[8] == 100) <==>
            Fine(s, msg) && (msg[8] == 100 ==> Done(SessionLaws.Fate(s, Carried(msg)).stream))
  {
    hide Serve, Handle, Deliver, IsPayload, RdBe32, RdBe16, Carried, ParsePayloadResponse, Consistent, Done, Disk.Valid,
      SessionLaws.Fate, SessionLaws.SpeaksUp, StreamRuns.ScriptShrinks, StreamRuns.Silent, StreamRuns.Scripted;
    var s := Serve(Initial(disk, commit), msgs).session;
    if msg[8] == 100 {
      CompletionExactly(s, msg);
    } else if !IsPayload(msg) {
      BadPayloadRejected(s, msg, false);
    } else {
      RunsScript(Initial(disk, commit), msgs);
      InitialDisk(disk, commit);
      StillSpeaksUp(disk, s.disk);
      PayloadDelivers(s, msg);
      SessionLaws.ProgressAnswerHonest(s, Carried(msg), msg[8]);
    }
  }

  lemma InitialDisk(disk: Disk, commit: bool)
    requires disk.Valid()
    ensures Initial(disk, commit).disk == disk
  {
  }
}
