/** End to end: a session that receives the header in any split and the payload in any packets
    leaves the disk the direct flasher leaves, and completes exactly when the plan fits the medium. */
module EndToEnd {
  import opened Bytes
  import opened BlockIo
  import opened StreamFlash
  import opened StreamRuns
  import opened Proto
  import opened Session
  import opened SessionLaws
  import opened HeaderTransfer
  import FfuLayout
  import PlanFacts
  import StreamLaws
  import DirectFlash
  import DirectLaws
  import SameDisk

  // ----- payload packets -----

  /** Its data field, at `offset`, holds `data`, and its length field counts `overhead` bytes more. */
  predicate Holds(msg: seq<byte>, offset: nat, overhead: nat, data: seq<byte>) {
    && |msg| >= 24 && RdBe32(msg, 20) == |data| && RdBe32(msg, 16) == |data| + overhead
    && |msg| >= offset + |data| && msg[offset..offset + |data|] == data
  }

  /** msg is a payload packet that carries `data` in one of the three forms: subblock 0x0C for protocols 1
      and 2, 0x1B for 4 and 8, and 0x1D for 16. */
  predicate PayloadPacket(msg: seq<byte>, progress: byte, data: seq<byte>) {
    && |msg| >= 25 && msg[8] == progress && msg[24] < 2 && |data| <= MAX_PAYLOAD_DATA
    && (|| (SecureMessage(msg, 0x0C) && RdBe16(msg, 6) % 4 != 0 && Holds(msg, 28, 8, data))
        || (SecureMessage(msg, 0x1B) && RdBe16(msg, 6) / 4 % 4 != 0 && Holds(msg, 32, 12, data))
        || (SecureMessage(msg, 0x1D) && RdBe16(msg, 6) / 16 % 2 != 0 && Holds(msg, 64, 44, data)))
  }

  /** Such a packet passes every check of the dispatcher and is delivered with exactly its data. */
  lemma PacketDelivers(s: Session, msg: seq<byte>, progress: byte, data: seq<byte>)
    requires Consistent(s) && PayloadPacket(msg, progress, data)
    ensures Handle(s, msg) == Deliver(s, data, progress)
  {
    hide Handle, Deliver, RdBe32, RdBe16, Consistent, SecureMessage, FsShort;
    if SecureMessage(msg, 0x0C) {
      SecureDispatch(s, msg, 0x0C);
    }
    if SecureMessage(msg, 0x1B) {
      SecureDispatch(s, msg, 0x1B);
    }
    if SecureMessage(msg, 0x1D) {
      SecureDispatch(s, msg, 0x1D);
    }
    NamesSubblock(msg);
  }

  lemma NamesSubblock(msg: seq<byte>)
    ensures forall subblock: u32 :: SecureMessage(msg, subblock) ==> |msg| >= 16 && RdBe32(msg, 12) == subblock
  {
  }

  /** What the host's builder lays out in front of the data is such a packet. */
  lemma BuiltPacketDecodes(progress: byte, data: seq<byte>)
    requires |data| <= MAX_PAYLOAD_DATA
    ensures PayloadPacket(PayloadHeadBytes(progress, |data|) + data, progress, data)
  {
  }

  /** Packets in front of the last one. */
  predicate PayloadSplit(msgs: seq<seq<byte>>, progress: seq<byte>, chunks: seq<seq<byte>>) {
    && |msgs| == |progress| == |chunks|
    && forall k :: 0 <= k < |msgs| ==> PayloadPacket(msgs[k], progress[k], chunks[k])
  }

  /** None of these packets announces completion. */
  predicate Unannounced(progress: seq<byte>) {
    forall k :: 0 <= k < |progress| ==> progress[k] != 100
  }

  /** The host's parser accepts the last answer of a session as completion. */
  predicate ToldComplete(log: seq<Exchange>) {
    |log| > 0 &&
    var replies := log[|log| - 1].replies;
    |replies| == 1 && replies[0].Answer? && ParsePayloadResponse(replies[0].bytes, true).result == STATUS_OK
  }

  lemma ToldSuffix(a: seq<Exchange>, b: seq<Exchange>)
    requires |b| > 0
    ensures ToldComplete(a + b) <==> ToldComplete(b)
  {
  }

  /** The chunks that carry data; the device makes no payload call for the others. */
  function NonEmpty(chunks: seq<seq<byte>>): (r: seq<seq<byte>>)
    ensures Concat(r) == Concat(chunks)
  {
    if chunks == [] then []
    else
      var rest := NonEmpty(chunks[1..]);
      if chunks[0] == [] then
        assert chunks[0] + Concat(chunks[1..]) == Concat(chunks[1..]);
        rest
      else
        assert ([chunks[0]] + rest)[1..] == rest;
        [chunks[0]] + rest
  }

  /** The call for one chunk, if there is one, and the calls for the rest. */
  lemma NonEmptyFeed(s: Stream, d: Disk, chunks: seq<seq<byte>>)
    requires Steppable(s) && d.Valid() && chunks != []
    ensures var r := if chunks[0] == [] then Fed(SUCCESS, s, d) else Feed(s, d, chunks[0]);
            var all, rest := FeedAll(s, d, NonEmpty(chunks)), FeedAll(r.stream, r.disk, NonEmpty(chunks[1..]));
            all.stream == rest.stream && all.disk == rest.disk
  {
    hide Feed, Steppable, Disk.Valid;
    if chunks[0] != [] {
      assert ([chunks[0]] + NonEmpty(chunks[1..]))[1..] == NonEmpty(chunks[1..]);
    }
  }

  lemma OnePacket(s: Session, msg: seq<byte>, progress: byte, data: seq<byte>)
    requires Consistent(s) && s.ready && PayloadPacket(msg, progress, data)
    ensures Steppable(s.flash) && s.disk.Valid()
    ensures var h := Handle(s, msg);
            var r := if data == [] then Fed(SUCCESS, s.flash, s.disk) else Feed(s.flash, s.disk, data);
            && h.session == s.(flash := r.stream, disk := r.disk)
            && (h.exit ==> progress == 100 && Done(r.stream) && ToldComplete([Exchange(msg, h.replies)]))
  {
    hide Handle, Feed, PayloadPacket, SecureStatusBytes, ParsePayloadResponse, Steppable, Disk.Valid;
    PacketDelivers(s, msg, progress, data);
    if progress == 100 {
      CompletionAgreement(s, data);
    }
  }

  lemma ServeExit(s: Session, msgs: seq<seq<byte>>)
    requires Consistent(s) && msgs != [] && Handle(s, msgs[0]).exit
    ensures var h := Handle(s, msgs[0]);
            Serve(s, msgs) == Served(h.session, [Exchange(msgs[0], h.replies)], true)
  {
    hide Handle, Consistent;
  }

  /** A run of payload packets feeds the flash context the data of the packets it handles, and touches
      nothing else. It handles all of them, unless one that announces completion completes the plan. */
  lemma {:induction false} PacketsFeed(s: Session, msgs: seq<seq<byte>>, progress: seq<byte>, chunks: seq<seq<byte>>)
    returns (k: nat)
    requires Consistent(s) && s.ready && PayloadSplit(msgs, progress, chunks)
    ensures Steppable(s.flash) && s.disk.Valid() && k <= |chunks| == |msgs|
    ensures var r := Serve(s, msgs);
            var all := FeedAll(s.flash, s.disk, NonEmpty(chunks[..k]));
            && |r.log| == k && r.session == s.(flash := all.stream, disk := all.disk)
            && (!r.exit ==> k == |msgs|) && (r.exit ==> Done(all.stream) && ToldComplete(r.log))
            && (Unannounced(progress) ==> !r.exit)
    decreases |msgs|
  {
    hide Handle, Feed, FeedAll, NonEmpty, PayloadPacket, ToldComplete, Consistent, Steppable, Disk.Valid, Done, Serve;
    ReadyIsSteppable(s);
    if msgs == [] {
      k := 0;
      ServeNone(s, msgs);
      NothingFed(s.flash, s.disk, chunks[..0]);
    } else {
      OnePacket(s, msgs[0], progress[0], chunks[0]);
      var h := Handle(s, msgs[0]);
      if h.exit {
        k := 1;
        ServeExit(s, msgs);
        NothingFed(h.session.flash, h.session.disk, chunks[..1][1..]);
      } else {
        var n := PacketsFeed(h.session, msgs[1..], progress[1..], chunks[1..]);
        k := n + 1;
        assert chunks[..k][1..] == chunks[1..][..n];
        ServeFirst(s, msgs);
        ToldLater(Serve(s, msgs).log, Serve(h.session, msgs[1..]).log);
      }
      NonEmptyFeed(s.flash, s.disk, chunks[..k]);
    }
  }

  lemma NothingFed(s: Stream, d: Disk, chunks: seq<seq<byte>>)
    requires Steppable(s) && d.Valid() && chunks == []
    ensures FeedAll(s, d, NonEmpty(chunks)) == Fed(SUCCESS, s, d)
  {
  }

  lemma ToldLater(log: seq<Exchange>, rest: seq<Exchange>)
    requires |log| == |rest| + 1 && forall k :: 0 < k < |log| ==> log[k] == rest[k - 1]
    ensures ToldComplete(rest) ==> ToldComplete(log)
  {
  }

  // ----- calls in sequence -----

  lemma {:induction false} FeedAllSnoc(s: Stream, d: Disk, calls: seq<seq<byte>>, c: seq<byte>)
    requires Steppable(s) && d.Valid()
    ensures var all := FeedAll(s, d, calls);
            var r := Feed(all.stream, all.disk, c);
            FeedAll(s, d, calls + [c]) == if all.status == SUCCESS then r else r.(status := all.status)
    decreases |calls|
  {
    hide Feed, Steppable, Disk.Valid;
    if calls == [] {
      assert calls + [c] == [c];
      FeedAllOne(s, d, c);
    } else {
      assert (calls + [c])[1..] == calls[1..] + [c];
      assert (calls + [c])[0] == calls[0];
      var r := Feed(s, d, calls[0]);
      FeedAllSnoc(r.stream, r.disk, calls[1..], c);
    }
  }

  lemma FeedAllOne(s: Stream, d: Disk, c: seq<byte>)
    requires Steppable(s) && d.Valid()
    ensures FeedAll(s, d, [c]) == Feed(s, d, c)
  {
  }

  // ----- the last packet -----

  /** Over the whole payload, last packet included, the context ends as after one call. */
  lemma FateOfAll(s: Session, chunks: seq<seq<byte>>, last: seq<byte>, s1: Session)
    requires Consistent(s) && s.ready && StreamLaws.Sound(s.flash, s.disk) && s.disk.outcomes == []
    requires Consistent(s1) && s1.ready && Steppable(s.flash) && s.disk.Valid()
    requires var all := FeedAll(s.flash, s.disk, chunks);
             s1 == s.(flash := all.stream, disk := all.disk)
    ensures var one := Feed(s.flash, s.disk, Concat(chunks) + last);
            var r := Fate(s1, last);
            && r.stream.(finalState := 0) == one.stream.(finalState := 0) && r.disk == one.disk
            && (one.status == SUCCESS ==> r.status == SUCCESS)
  {
    hide Feed, FeedAll, StreamLaws.Sound, Steppable, Disk.Valid, Consistent;
    if last == [] {
      assert Concat(chunks) + last == Concat(chunks);
      ChunkingIndependence(s.flash, s.disk, chunks);
    } else {
      ConcatSnoc(chunks, last);
      ChunkingIndependence(s.flash, s.disk, chunks + [last]);
      FeedAllSnoc(s.flash, s.disk, chunks, last);
    }
  }

  lemma DoneIgnoresFinal(a: Stream, b: Stream)
    requires a.(finalState := 0) == b.(finalState := 0)
    ensures Done(a) <==> Done(b)
  {
  }

  /** The messages of a whole transfer. */
  datatype Transfer = Transfer(
    headerMsgs: seq<seq<byte>>, headerChunks: seq<seq<byte>>, offsets: seq<u32>,
    payloadMsgs: seq<seq<byte>>, progress: seq<byte>, payloadChunks: seq<seq<byte>>,
    lastMsg: seq<byte>, lastChunk: seq<byte>)

  function Messages(t: Transfer): seq<seq<byte>> {
    t.headerMsgs + t.payloadMsgs + [t.lastMsg]
  }

  /** The header of f in any chunked split, or in one piece. */
  predicate SendsHeader(t: Transfer, f: Contents, plan: FfuLayout.Plan)
    requires plan.headerSize <= |f|
  {
    || (plan.headerSize <= MAX_HEADER && Concat(t.headerChunks) == f[..plan.headerSize] &&
        HeaderSplit(t.headerMsgs, t.headerChunks, t.offsets, plan.headerSize))
    || (|t.headerMsgs| == 1 && OnePiecePacket(t.headerMsgs[0], f[..plan.headerSize]))
  }

  /** t sends the header of f, then the described payload in any packets, the last of which announces
      completion. */
  predicate Sends(t: Transfer, f: Contents, plan: FfuLayout.Plan) {
    && DirectLaws.InFile(f, plan, |plan.entries|) && plan.headerSize <= |f| && SendsHeader(t, f, plan)
    && PayloadSplit(t.payloadMsgs, t.progress, t.payloadChunks) && PayloadPacket(t.lastMsg, 100, t.lastChunk)
    && Concat(t.payloadChunks) + t.lastChunk == DirectLaws.Described(f, plan, |plan.entries|)
  }

  /** After the header the session flashes from exactly the file's header. */
  lemma HeaderPhase(f: Contents, plan: FfuLayout.Plan, d: Disk, t: Transfer)
    requires SameDisk.Flashable(f, plan) && SameDisk.Faultless(d) && Sends(t, f, plan)
    ensures var r := Serve(Initial(d, true), t.headerMsgs);
            && !r.exit && |r.log| == |t.headerMsgs|
            && r.session.ready && r.session.disk == d
            && r.session.flash == Init(f[..plan.headerSize], d.media, true).stream
  {
    hide SameDisk.Flashable, HeaderSplit, OnePiecePacket, PayloadSplit, PayloadPacket, Serve, Init, FsShort,
      FfuLayout.Parse, Handle,
      Reassembles, Consistent;
    SameDisk.InitFlashable(f, plan, d);
    SomeHeader(f, plan);
    if plan.headerSize <= MAX_HEADER && Concat(t.headerChunks) == f[..plan.headerSize]
       && HeaderSplit(t.headerMsgs, t.headerChunks, t.offsets, plan.headerSize) {
      FirstChunkFits(t.headerMsgs, t.headerChunks, t.offsets, plan.headerSize);
      SplitsReassemble(Initial(d, true), t.headerMsgs, t.headerChunks, t.offsets, plan.headerSize);
      ReassembledSession(Initial(d, true), t.headerMsgs, f[..plan.headerSize]);
    } else {
      OnePieceStarts(Initial(d, true), t.headerMsgs[0], f[..plan.headerSize]);
      ServeFirst(Initial(d, true), t.headerMsgs);
      ServeNone(Handle(Initial(d, true), t.headerMsgs[0]).session, t.headerMsgs[1..]);
    }
  }

  lemma SomeHeader(f: Contents, plan: FfuLayout.Plan)
    requires SameDisk.Flashable(f, plan)
    ensures 0 < plan.headerSize
  {
    hide FfuLayout.Parse;
    SameDisk.FlashableFacts(f, plan);
    PlanFacts.EntryFacts(f, plan, 0);
  }

  lemma ReassembledSession(s0: Session, msgs: seq<seq<byte>>, bytes: Contents)
    requires Consistent(s0) && Reassembles(s0, s0, msgs, bytes)
    ensures var r := Serve(s0, msgs);
            var i := Init(bytes, s0.disk.media, s0.commit);
            && !r.exit && |r.log| == |msgs| && r.session.disk == s0.disk
            && r.session.ready == (i.status == SUCCESS) && r.session.flash == i.stream
  {
    hide Serve, Init, NotStarted, FsShort, Consistent;
  }

  lemma LastPacket(s1: Session, msg: seq<byte>, last: seq<byte>)
    requires Consistent(s1) && s1.ready && PayloadPacket(msg, 100, last)
    ensures var h := Handle(s1, msg);
            && Serve(s1, [msg]) == Served(h.session, [Exchange(msg, h.replies)], h.exit)
            && h.session.disk == Fate(s1, last).disk
            && (ToldComplete([Exchange(msg, h.replies)]) <==> h.exit)
            && (h.exit <==> Fate(s1, last).status == SUCCESS && Done(Fate(s1, last).stream))
  {
    hide Handle, Feed, SecureStatusBytes, ParsePayloadResponse, PayloadPacket, Consistent;
    PacketDelivers(s1, msg, 100, last);
    CompletionAgreement(s1, last);
    var h := Handle(s1, msg);
    assert [msg][1..] == [];
    assert [Exchange(msg, h.replies)] + [] == [Exchange(msg, h.replies)];
    assert Serve(h.session, []) == Served(h.session, [], false);
  }

  /** Once the plan is done, further bytes change nothing. */
  lemma DoneAbsorbs(s: Stream, d: Disk, a: seq<byte>, b: seq<byte>)
    requires StreamLaws.Sound(s, d) && d.outcomes == [] && Steppable(s) && d.Valid() && Done(Feed(s, d, a).stream)
    ensures Feed(s, d, a + b).disk == Feed(s, d, a).disk && Done(Feed(s, d, a + b).stream)
  {
    hide Feed, Run, StreamLaws.Sound, Steppable, Disk.Valid;
    FeedAppend(s, d, a, b);
    var r := Feed(s, d, a);
    StuckStays(r.stream, r.disk, b);
    FeedIsRun(r.stream, r.disk, b);
  }

  /** A packet in front of the last one that completes the session leaves nothing to be done. */
  lemma EarlyEnd(s: Stream, d: Disk, chunks: seq<seq<byte>>, k: nat, last: seq<byte>)
    requires StreamLaws.Sound(s, d) && d.outcomes == [] && Steppable(s) && d.Valid() && k <= |chunks|
    requires Done(FeedAll(s, d, NonEmpty(chunks[..k])).stream)
    ensures var one := Feed(s, d, Concat(chunks) + last);
            Done(one.stream) && one.disk == FeedAll(s, d, NonEmpty(chunks[..k])).disk
  {
    hide Feed, FeedAll, NonEmpty, StreamLaws.Sound, Steppable, Disk.Valid, Done;
    ChunkingIndependence(s, d, NonEmpty(chunks[..k]));
    var a, b := Concat(chunks[..k]), Concat(chunks[k..]);
    DoneIgnoresFinal(FeedAll(s, d, NonEmpty(chunks[..k])).stream, Feed(s, d, a).stream);
    ConcatSplit(chunks, k);
    StreamRuns.Associate(a, b, last);
    DoneAbsorbs(s, d, a, b + last);
  }

  lemma {:induction false} ConcatSplit(chunks: seq<seq<byte>>, k: nat)
    requires k <= |chunks|
    ensures Concat(chunks) == Concat(chunks[..k]) + Concat(chunks[k..])
    decreases k
  {
    if k == 0 {
      assert chunks[..0] == [] && chunks[0..] == chunks;
      assert [] + Concat(chunks) == Concat(chunks);
    } else {
      ConcatSplit(chunks[1..], k - 1);
      assert chunks[..k][1..] == chunks[1..][..k - 1] && chunks[1..][k - 1..] == chunks[k..];
      StreamRuns.Associate(chunks[0], Concat(chunks[1..][..k - 1]), Concat(chunks[k..]));
    }
  }

  /** The payload part of a session: packets, then one that announces completion. */
  lemma PayloadPhase(
    s: Session, msgs: seq<seq<byte>>, progress: seq<byte>, chunks: seq<seq<byte>>, lastMsg: seq<byte>, last: seq<byte>)
    requires Consistent(s) && s.ready && StreamLaws.Sound(s.flash, s.disk) && s.disk.outcomes == []
    requires Steppable(s.flash) && s.disk.Valid()
    requires PayloadSplit(msgs, progress, chunks) && PayloadPacket(lastMsg, 100, last)
    requires var one := Feed(s.flash, s.disk, Concat(chunks) + last);
             one.status == SUCCESS <==> Done(one.stream)
    ensures var one := Feed(s.flash, s.disk, Concat(chunks) + last);
            var r := Serve(s, msgs + [lastMsg]);
            && |r.log| <= |msgs| + 1 && (!r.exit || Unannounced(progress) ==> |r.log| == |msgs| + 1)
            && r.session.disk == one.disk && (r.exit <==> Done(one.stream)) && (ToldComplete(r.log) <==> r.exit)
  {
    hide Serve, Feed, FeedAll, Fate, StreamLaws.Sound, PayloadSplit, PayloadPacket, ToldComplete, Handle, Consistent,
      Steppable,
      Disk.Valid, Done, NonEmpty, Unannounced;
    var k := PacketsFeed(s, msgs, progress, chunks);
    if Serve(s, msgs).exit {
      ServeExits(s, msgs, [lastMsg]);
      EarlyEnd(s.flash, s.disk, chunks, k, last);
    } else {
      ServeAppend(s, msgs, [lastMsg]);
      assert chunks[..k] == chunks;
      var s1 := Serve(s, msgs).session;
      FateOfAll(s, NonEmpty(chunks), last, s1);
      LastPacket(s1, lastMsg, last);
      DoneIgnoresFinal(Fate(s1, last).stream, Feed(s.flash, s.disk, Concat(chunks) + last).stream);
      ToldSuffix(Serve(s, msgs).log, Serve(s1, [lastMsg]).log);
    }
  }

  // ----- the theorem -----

  function SessionRun(d: Disk, t: Transfer): Served
    requires d.Valid()
  {
    Serve(Initial(d, true), Messages(t))
  }

  function DirectRun(f: Contents, plan: FfuLayout.Plan, d: Disk, flush: Option<u64>): DirectFlash.Flashed
    requires SameDisk.Flashable(f, plan) && SameDisk.Faultless(d)
  {
    SameDisk.FlashableFacts(f, plan);
    DirectFlash.Flash(f, plan, d, true, flush)
  }

  /** The image after the whole plan has been replayed from the file. */
  function FullReplay(f: Contents, plan: FfuLayout.Plan, img: seq<byte>): seq<byte>
    requires DirectLaws.InFile(f, plan, |plan.entries|)
  {
    StreamLaws.Replay(img, f, plan, DirectLaws.Described(f, plan, |plan.entries|), |plan.entries|)
  }

  function WhereItHalts(f: Contents, plan: FfuLayout.Plan, d: Disk): seq<byte>
    requires DirectLaws.InFile(f, plan, |plan.entries|)
  {
    SameDisk.Halted(
      d.image, f, plan, d.media, DirectLaws.Described(f, plan, |plan.entries|), SameDisk.FirstBad(f, plan, d.media, 0))
  }

  /** The session against the meaning of flashing. */
  lemma SessionHalts(f: Contents, plan: FfuLayout.Plan, d: Disk, t: Transfer)
    requires SameDisk.Flashable(f, plan) && SameDisk.Faultless(d) && Sends(t, f, plan)
    ensures d.Valid()
    ensures var r := SessionRun(d, t);
            && r.session.disk.image == WhereItHalts(f, plan, d)
            && (r.exit <==> PlanFits(f, plan, d.media)) && (ToldComplete(r.log) <==> r.exit)
            && |r.log| <= |Messages(t)| && (!r.exit || Unannounced(t.progress) ==> |r.log| == |Messages(t)|)
  {
    HeaderPhase(f, plan, d, t);
    SameDisk.StreamHalts(f, plan, d);
    SameDisk.FitsIsNoBad(f, plan, d.media);
    MessagesSplit(t);
    hide Serve, Feed, StreamLaws.Sound, PayloadSplit, PayloadPacket, SendsHeader, Init, Done, Consistent, ToldComplete,
      PlanFits, Unannounced,
      SameDisk.Halted, SameDisk.FirstBad, DirectLaws.Described, SameDisk.Flashable, DirectLaws.InFile, Messages;
    var s := Serve(Initial(d, true), t.headerMsgs).session;
    RoomySound(s.flash, s.disk);
    PayloadPhase(s, t.payloadMsgs, t.progress, t.payloadChunks, t.lastMsg, t.lastChunk);
    ServeAppend(Initial(d, true), t.headerMsgs, t.payloadMsgs + [t.lastMsg]);
    ToldSuffix(Serve(Initial(d, true), t.headerMsgs).log, Serve(s, t.payloadMsgs + [t.lastMsg]).log);
  }

  lemma MessagesSplit(t: Transfer)
    ensures Messages(t) == t.headerMsgs + (t.payloadMsgs + [t.lastMsg])
  {
  }

  /** The direct flasher against the same meaning. */
  lemma DirectRunHalts(f: Contents, plan: FfuLayout.Plan, d: Disk, flush: Option<u64>)
    requires SameDisk.Flashable(f, plan) && SameDisk.Faultless(d)
    ensures var r := DirectRun(f, plan, d, flush);
            && r.disk.image == WhereItHalts(f, plan, d)
            && (PlanFits(f, plan, d.media) ==> r.disk.image == FullReplay(f, plan, d.image))
            && (PlanFits(f, plan, d.media) && (flush.Some? ==> !IsError(flush.value)) ==> !IsError(r.status))
  {
    SameDisk.FlashableFacts(f, plan);
    SameDisk.DirectHalts(f, plan, d, flush);
    SameDisk.FitsIsNoBad(f, plan, d.media);
    SameDisk.HaltedNowhere(d.image, f, plan, d.media, DirectLaws.Described(f, plan, |plan.entries|));
    hide DirectFlash.Flash, SameDisk.Halted, SameDisk.FirstBad, DirectLaws.Described, PlanFits, SameDisk.Flashable,
      StreamLaws.Replay, DirectLaws.InFile;
  }

  /** End-to-end refinement. Take any image file the direct flasher accepts, with the payload it
      describes in the file and no entry larger than a packet, and a device that does not fault.
      Send its header in any V2 split or in one V1 packet, and its payload in any packets, the last of
      which announces completion, as others may as well. The session leaves exactly
      the disk that a committed direct run leaves, whether or not everything fits the medium; it
      completes, and tells the host so, if and only if everything fits; and then the disk is the
      replay of the whole plan and the direct run succeeds as well. */
  lemma SessionRefinesDirect(f: Contents, plan: FfuLayout.Plan, d: Disk, t: Transfer, flush: Option<u64>)
    requires SameDisk.Flashable(f, plan) && SameDisk.Faultless(d) && Sends(t, f, plan)
    ensures d.Valid()
    ensures var session, direct := SessionRun(d, t), DirectRun(f, plan, d, flush);
            && session.session.disk.image == direct.disk.image
            && (session.exit <==> PlanFits(f, plan, d.media)) && (ToldComplete(session.log) <==> session.exit)
            && (session.exit ==> direct.disk.image == FullReplay(f, plan, d.image))
            && (session.exit && (flush.Some? ==> !IsError(flush.value)) ==> !IsError(direct.status))
  {
    hide SessionRun, DirectRun, FullReplay, WhereItHalts, PlanFits, ToldComplete;
    SessionHalts(f, plan, d, t);
    DirectRunHalts(f, plan, d, flush);
  }
}
