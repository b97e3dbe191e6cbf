/** usb_secure_flash_loop (src/main.c) as a machine that handles one message at a time: header
    reassembly, payload dispatch, completion, the asynchronous writer and the queries around them. */
module Session {
  import opened Bytes
  import opened BlockIo
  import opened FfuLayout
  import opened StreamFlash
  import opened Proto
  import PlanFacts
  import StreamRuns

  const MAX_HEADER: nat := 0x800_0000

  /** What the asynchronous writer remembers of its last write. */
  datatype Async = Async(writeStatus: u32, lastSector: u32, ufp: u16)

  const ASYNC_RESET := Async(0, 0xFFFF_FFFF, 0)

  /** The loop's variables. `header` is the buffer with its full capacity. `live` says that the
      flash context's header still is the front of that buffer, which it aliases. */
  datatype Session = Session(
    header: Option<seq<byte>>, headerSize: nat, received: u32, ready: bool, flash: Stream, live: bool,
    async: Async, disk: Disk, commit: bool)

  function Capacity(s: Session): nat {
    if s.header.Some? then |s.header.value| else 0
  }

  /** The variables are consistent; every handler keeps this, whatever the message. */
  predicate Consistent(s: Session) {
    && Capacity(s) <= MAX_HEADER && Multiple(Capacity(s), 0x10_0000)
    && s.received <= s.headerSize <= Capacity(s)
    && s.disk.Valid()
    && (if s.ready then Steppable(s.flash) else s.flash == ZEROED && !s.live)
    && (s.live ==>
          s.header.Some? && |s.flash.header| <= Capacity(s) && s.flash.header == s.header.value[..|s.flash.header|])
  }

  /** Neither the asynchronous status nor the commit flag differs. */
  predicate Aside(s: Session, t: Session) {
    s.async == t.async && s.commit == t.commit
  }

  function Initial(disk: Disk, commit: bool): (s: Session)
    requires disk.Valid()
    ensures Consistent(s)
  {
    Session(None, 0, 0, false, ZEROED, false, ASYNC_RESET, disk, commit)
  }

  /** A reply whose content the model gives, or the answer to a query, which it does not. */
  datatype Reply = Answer(bytes: seq<byte>) | Opaque

  datatype Handled = Handled(session: Session, replies: seq<Reply>, exit: bool)

  /** status_from_efi */
  function StatusFromEfi(st: u64): u16 {
    if IsError(st) then st % 0x1_0000 else 0
  }

  /** send_fs_short */
  function FsShort(status: u16, specifier: u32): seq<Reply> {
    [Answer(FsShortBytes(status, specifier))]
  }

  function Short(s: Session, status: u16, specifier: u32): Handled {
    Handled(s, FsShort(status, specifier), false)
  }

  // ----- header packets -----

  lemma InitSteppable(header: Contents, media: Media, commit: bool)
    requires Init(header, media, commit).status == SUCCESS
    ensures Steppable(Init(header, media, commit).stream) && Init(header, media, commit).stream.header == header
  {
    StreamRuns.InitShape(header, media, commit);
    PlanFacts.PlanWellFormed(HeaderBytes, header);
    hide Init, PlanFacts.WellFormed, Parse;
    var s := Init(header, media, commit).stream;
    forall j | 0 <= j < |s.plan.entries|
      ensures s.plan.entries[j].storeIndex < |s.plan.stores|
    {
      PlanFacts.EntryFacts(header, s.plan, j);
    }
  }

  /** Initialise the flash context from the first n bytes of the buffer. */
  function Begin(s: Session, n: nat): (h: Handled)
    requires Consistent(s) && !s.ready && n <= s.headerSize
    ensures Consistent(h.session) && h.session.disk == s.disk && !h.exit
    ensures h.session.ready ==>
              s.header.Some? && n <= |s.header.value| && h.session.live && h.session.flash.header == s.header.value[..n]
    ensures Aside(h.session, s)
  {
    if s.header == None then Short(s, StatusFromEfi(INVALID_PARAMETER), Wrap32(INVALID_PARAMETER))
    else
      var front: Contents := s.header.value[..n];
      var started := Init(front, s.disk.media, s.commit);
      if started.status == SUCCESS then
        InitSteppable(front, s.disk.media, s.commit);
        Short(s.(ready := true, flash := started.stream, live := true), 0, 0)
      else Short(s.(flash := started.stream), StatusFromEfi(started.status), Wrap32(started.status))
  }

  /** The capacity a transfer needs: whole mebibytes. */
  function CapacityFor(need: nat, complete: nat): nat
    requires need < TWO_64 && complete < TWO_64
  {
    AlignUp(if complete > need then complete else need, 0x10_0000)
  }

  predicate MustGrow(s: Session, need: nat, complete: nat) {
    need > Capacity(s) || complete > Capacity(s)
  }

  /** A larger buffer with the received bytes in front; the flash context keeps the old one. */
  function Grown(s: Session, need: nat, complete: nat): (r: Session)
    requires Consistent(s) && need < TWO_64 / 2 && complete < TWO_64 / 2
    requires MustGrow(s, need, complete) && CapacityFor(need, complete) <= MAX_HEADER
    ensures Consistent(r) && need <= Capacity(r) && complete <= Capacity(r) && r.header.Some?
    ensures r == s.(header := r.header, live := false)
  {
    var cap := CapacityFor(need, complete);
    var front := if s.header.Some? then s.header.value[..s.headerSize] else [];
    s.(header := Some(front + Zeros(cap - |front|)), live := false)
  }

  /** The context after the buffer it aliases, if it still does, has become `buffer`. */
  function Realiased(flash: Stream, live: bool, buffer: seq<byte>): Stream {
    if live && |flash.header| <= |buffer| then flash.(header := buffer[..|flash.header|]) else flash
  }

  /** The memcpy of a chunk to copyAt. */
  function Pasted(s: Session, copyAt: nat, chunk: seq<byte>): (r: Session)
    requires Consistent(s) && copyAt + |chunk| <= Capacity(s)
    ensures Consistent(r) && Capacity(r) == Capacity(s)
    ensures r == s.(header := r.header, flash := r.flash) && (s.header == None ==> r == s)
  {
    if s.header == None then s
    else
      var buffer := Overlay(s.header.value, copyAt, chunk);
      s.(header := Some(buffer), flash := Realiased(s.flash, s.live, buffer))
  }

  /** The sizes after a chunk that reaches up to need. */
  function Counted(s: Session, need: nat, v2: bool): (r: Session)
    requires Consistent(s) && need <= Capacity(s)
    requires v2 || s.received == 0
    ensures Consistent(r) && need <= r.headerSize && s.headerSize <= r.headerSize
    ensures r == s.(headerSize := r.headerSize, received := r.received)
  {
    s.(headerSize := if need > s.headerSize then need else s.headerSize, received := if v2 then need else s.received)
  }

  /** A chunk copied and accounted for. */
  function Copied(s: Session, need: nat, copyAt: nat, chunk: seq<byte>, v2: bool): (r: Session)
    requires Consistent(s) && need == copyAt + |chunk| <= Capacity(s)
    requires v2 || s.received == 0
    ensures Consistent(r) && need <= r.headerSize && r.disk == s.disk && r.ready == s.ready
    ensures r.headerSize >= s.headerSize
    ensures Aside(r, s)
  {
    Counted(Pasted(s, copyAt, chunk), need, v2)
  }

  /** The buffer is too small and the larger one would exceed the limit. */
  predicate TooLarge(s: Session, need: nat, complete: nat)
    requires need < TWO_64 && complete < TWO_64
  {
    MustGrow(s, need, complete) && CapacityFor(need, complete) > MAX_HEADER
  }

  /** A buffer that holds what is needed. */
  function Reserved(s: Session, need: nat, complete: nat): (r: Session)
    requires Consistent(s) && need < TWO_64 / 2 && complete < TWO_64 / 2 && !TooLarge(s, need, complete)
    ensures Consistent(r) && need <= Capacity(r) && r.received == s.received
    ensures r.disk == s.disk && r.ready == s.ready && r.headerSize == s.headerSize
    ensures Aside(r, s)
  {
    if MustGrow(s, need, complete) then Grown(s, need, complete) else s
  }

  /** After a chunk: acknowledge a partial transfer, or start flashing from a complete one. */
  function Finish(s: Session, complete: nat, v2: bool): (h: Handled)
    requires Consistent(s)
    ensures Consistent(h.session) && h.session.disk == s.disk && !h.exit
    ensures Aside(h.session, s)
  {
    if complete != 0 && s.headerSize < complete then Short(s, 0, 0)
    else
      // a finished V2 transfer, parsed or not, leaves no partial count behind
      var s1 := if v2 then s.(received := 0) else s;
      if !s.ready then Begin(s1, if complete != 0 then complete else s.headerSize) else Short(s1, 0, 0)
  }

  /** A chunk that has passed its checks: it makes `need` bytes of a transfer of `complete`. */
  function Store(s: Session, need: nat, complete: nat, copyAt: nat, chunk: seq<byte>, v2: bool): (h: Handled)
    requires Consistent(s) && need == copyAt + |chunk| && need < 2 * TWO_32 && complete < TWO_32
    requires complete == 0 ==> need == 0
    requires v2 || s.received == 0
    ensures Consistent(h.session) && h.session.disk == s.disk && !h.exit
    ensures Aside(h.session, s)
  {
    if TooLarge(s, need, complete) then Short(s, 4, Wrap32(CapacityFor(need, complete)))
    else Finish(Copied(Reserved(s, need, complete), need, copyAt, chunk, v2), complete, v2)
  }

  /** A header packet in the one-piece form. */
  function HandleHeaderV1(s: Session, msg: seq<byte>): (h: Handled)
    requires Consistent(s) && |msg| >= 16
    ensures Consistent(h.session) && h.session.disk == s.disk && !h.exit
    ensures Aside(h.session, s)
  {
    if |msg| < 32 then Short(s, 8, Wrap32(|msg|))
    else
      var chunkLen := RdBe32(msg, 24);
      if RdBe32(msg, 16) != Wrap32(chunkLen as int + 12) then Short(s, 16, RdBe32(msg, 16))
      else
        var s1 := s.(received := 0);
        if msg[28] >= 0x40 then Short(s1, 8, msg[28])
        else if msg[29] != 0 then Short(s1, 8, msg[29])
        else if chunkLen > MAX_HEADER_DATA || |msg| < 32 + chunkLen then Short(s1, 16, chunkLen)
        else Store(s1, chunkLen, chunkLen, 0, msg[32..32 + chunkLen], false)
  }

  /** Offset 0 of a V2 transfer drops a buffer that no flash context uses. */
  function Restarted(s: Session): (r: Session)
    requires Consistent(s)
    ensures Consistent(r) && r.received == 0 && r.disk == s.disk && r.ready == s.ready
    ensures Aside(r, s)
  {
    if s.ready then s.(received := 0) else s.(header := None, headerSize := 0, received := 0)
  }

  /** A header packet in the chunked form. */
  function HandleHeaderV2(s: Session, msg: seq<byte>): (h: Handled)
    requires Consistent(s) && |msg| >= 16
    ensures Consistent(h.session) && h.session.disk == s.disk && !h.exit
    ensures Aside(h.session, s)
  {
    if |msg| < 60 then Short(s, 8, Wrap32(|msg|))
    else
      var total := RdBe32(msg, 24);
      var fileOffset := RdBe32(msg, 29);
      var chunkLen := RdBe32(msg, 33);
      if s.received as int + chunkLen as int > total then Short(s, 16, chunkLen)
      else if msg[28] >= 0x40 then Short(s, 8, msg[28])
      else if msg[28] != 0 && msg[37] != 0 then Short(s, 8, msg[37])
      else if chunkLen > MAX_HEADER_DATA || |msg| < 60 + chunkLen then Short(s, 16, chunkLen)
      else if fileOffset != 0 && s.header == None then Short(s, 8, fileOffset)
      else
        var s1 := if fileOffset == 0 then Restarted(s) else s;
        var need := s1.received as int + chunkLen as int;
        Store(s1, need, if total == 0 then need else total, s1.received, msg[60..60 + chunkLen], true)
  }

  // ----- payload packets -----

  datatype PayloadForm = PayloadForm(offset: nat, overhead: nat, speaks: bool)

  /** Data offset, overhead and protocol check of each payload subblock. */
  function FormOf(subblock: u32, protocol: u16): PayloadForm {
    if subblock == SUBBLOCK_PAYLOAD_V1 then PayloadForm(28, 8, protocol % 4 != 0)
    else if subblock == SUBBLOCK_PAYLOAD_V2 then PayloadForm(32, 12, protocol / 4 % 4 != 0)
    else PayloadForm(64, 44, protocol / 16 % 2 != 0)
  }

  /** What a payload packet that has passed its checks does, and the answer to it. */
  function Deliver(s: Session, data: seq<byte>, progress: byte): (h: Handled)
    requires Consistent(s)
    ensures Consistent(h.session)
    ensures Aside(h.session, s)
  {
    var r := if s.ready && data != [] then Feed(s.flash, s.disk, data) else Fed(SUCCESS, s.flash, s.disk);
    var status: u16 := if !s.ready then 6 else StatusFromEfi(r.status);
    var specifier: u32 := if IsError(r.status) then Wrap32(r.status) else 0;
    var finalState: byte := if progress == 100 && Done(r.stream) then 1 else 0;
    var answered: u16 := if progress == 100 && finalState == 0 && status == 0 then 8 else status;
    FeedKeepsHeader(s, data);
    Handled(
      s.(flash := r.stream, disk := r.disk),
      [Answer(SecureStatusBytes(answered, specifier, 0xFFFF_FFFF, r.stream.lastSector, finalState))],
      finalState == 1 && answered == 0)
  }

  lemma FeedKeepsHeader(s: Session, data: seq<byte>)
    requires Consistent(s)
    ensures s.ready ==> Feed(s.flash, s.disk, data).stream.header == s.flash.header
  {
    if s.ready {
      RunKeepsHeader(s.flash, s.disk, data);
    }
  }

  lemma {:induction false} RunKeepsHeader(s: Stream, d: Disk, data: seq<byte>)
    requires Steppable(s) && d.Valid()
    ensures Run(s, d, data).stream.header == s.header && Run(s, d, data).stream.mediaBlock == s.mediaBlock
    decreases |data|, |s.plan.entries| - s.index
  {
    hide WriteFrom, Overlay;
    if data != [] {
      var t := Step(s, d, data);
      if !IsError(t.status) {
        RunKeepsHeader(t.stream, t.disk, data[t.took..]);
      }
    }
  }

  function HandlePayload(s: Session, msg: seq<byte>, protocol: u16, subblock: u32): (h: Handled)
    requires Consistent(s) && |msg| >= 16
    ensures Consistent(h.session)
    ensures Aside(h.session, s)
  {
    if |msg| < 25 then Short(s, 8, Wrap32(|msg|))
    else
      var form := FormOf(subblock, protocol);
      var dataLen := RdBe32(msg, 20);
      if RdBe32(msg, 16) != Wrap32(dataLen as int + form.overhead) then Short(s, 16, RdBe32(msg, 16))
      else if msg[24] >= 2 then Short(s, 8, msg[24])
      else if !form.speaks then Short(s, 8, protocol)
      else if dataLen > MAX_PAYLOAD_DATA || |msg| < form.offset + dataLen then Short(s, 16, dataLen)
      else Deliver(s, msg[form.offset..form.offset + dataLen], msg[8])
  }

  /** A NOKXFS message. */
  function HandleSecure(s: Session, msg: seq<byte>): (h: Handled)
    requires Consistent(s)
    ensures Consistent(h.session)
    ensures Aside(h.session, s)
  {
    if |msg| < 16 then Short(s, 8, Wrap32(|msg|))
    else
      var protocol := RdBe16(msg, 6);
      var subblock := RdBe32(msg, 12);
      if protocol == 0 || protocol >= 32 then Short(s, 8, protocol)
      else if msg[11] != 1 then Short(s, 15, msg[11])
      else if subblock == SUBBLOCK_HEADER_V1 then HandleHeaderV1(s, msg)
      else if subblock == SUBBLOCK_HEADER_V2 then HandleHeaderV2(s, msg)
      else if subblock == SUBBLOCK_PAYLOAD_V1 || subblock == SUBBLOCK_PAYLOAD_V2 || subblock == SUBBLOCK_PAYLOAD_V3 then
        HandlePayload(s, msg, protocol, subblock)
      else Short(s, 14, subblock)
  }

  // ----- the sector writers -----

  /** What count and start of a sector packet ask for, in blocks and bytes. */
  datatype SectorWrite = SectorWrite(start: u32, count: u32, skip: bool, data: seq<byte>)

  /** The packet's sectors end on the medium. */
  predicate SectorsFit(media: Media, w: SectorWrite) {
    w.count == 0 || w.start + w.count - 1 <= media.lastBlock
  }

  function SectorBytes(count: u32, blockSize: u32): (r: u64)
    ensures count == 0 || blockSize == 0 ==> r == 0
  {
    QuotientBound(count, blockSize, 1);
    count * blockSize
  }

  /** The overflow test of both sector writers, on a 64-bit product of two 32-bit factors. */
  predicate SizeOverflows(count: u32, blockSize: u32) {
    count != 0 && SectorBytes(count, blockSize) / count != blockSize
  }

  /** It never fires. */
  lemma SizeNeverOverflows(count: u32, blockSize: u32)
    ensures !SizeOverflows(count, blockSize)
  {
    if count != 0 {
      DivModUnique(SectorBytes(count, blockSize), count, blockSize, 0);
    }
  }

  /** The request of an asynchronous write packet. */
  function AsyncRequest(msg: seq<byte>): SectorWrite
    requires |msg| >= 64
  {
    SectorWrite(RdBe32(msg, 12), RdBe32(msg, 16), msg[25] == 1, msg[64..])
  }

  datatype Recorded = Recorded(async: Async, disk: Disk)

  /** What an asynchronous write does after its answer has been sent. */
  function Record(a: Async, d: Disk, commit: bool, w: SectorWrite): (r: Recorded)
    requires d.Valid()
    ensures r.disk.Valid() && r.disk.media == d.media
    ensures d.Quiet() ==> r.disk.Quiet()
  {
    var n := SectorBytes(w.count, d.media.blockSize);
    var last: u32 := if w.count == 0 then a.lastSector else Wrap32(w.start + w.count - 1);
    if w.skip then Recorded(a, d)
    else if SizeOverflows(w.count, d.media.blockSize) || |w.data| < n || !SectorsFit(d.media, w) then
      Recorded(a.(writeStatus := 0, ufp := 8), d)
    else if commit && n != 0 then
      var written := WriteBlocks(d, w.start, w.data[..n]);
      Recorded(
        Async(
          Wrap32(written.status), if IsError(written.status) then a.lastSector else last,
          StatusFromEfi(written.status)),
        written.disk)
    else Recorded(Async(0, last, 0), d)
  }

  function HandleAsync(s: Session, msg: seq<byte>): (h: Handled)
    requires Consistent(s) && |msg| >= 6
    ensures Consistent(h.session) && !h.exit
  {
    if |msg| >= 7 && msg[6] == 0x53 then
      var bad := |msg| < 10 || msg[8] != 1 || msg[9] != 0;
      Handled(if bad then s else s.(async := ASYNC_RESET), [Answer(AsyncStartBytes(if bad then 8 else 0))], false)
    else if |msg| >= 64 && msg[6] == 0x57 then
      var w := AsyncRequest(msg);
      var r := Record(s.async, s.disk, s.commit, w);
      Handled(
        s.(async := r.async, disk := r.disk),
        [Answer(AsyncWriteBytes(w.count, w.start, s.async.writeStatus, s.async.lastSector, s.async.ufp))], false)
    else if |msg| >= 7 && msg[6] == 0x45 then
      Handled(
        s.(async := ASYNC_RESET),
        [Answer(AsyncEndBytes(s.async.writeStatus, s.async.lastSector, s.async.ufp))], false)
    else Unknown(s)
  }

  /** handle_legacy_flash */
  function HandleLegacy(s: Session, msg: seq<byte>): (h: Handled)
    requires Consistent(s)
    ensures Consistent(h.session) && !h.exit
    ensures Aside(h.session, s)
  {
    if |msg| < 26 then Handled(s, [Answer(LegacyBytes(8, 0, 0))], false)
    else
      var start, count := RdBe32(msg, 11), RdBe32(msg, 15);
      var n := SectorBytes(count, s.disk.media.blockSize);
      var w := SectorWrite(start, count, msg[25] == 1, if |msg| < 64 then [] else msg[64..]);
      if SizeOverflows(count, s.disk.media.blockSize) then Handled(s, [Answer(LegacyBytes(8, count, count))], false)
      else if w.skip then Handled(s, [Answer(LegacyBytes(0, count, 0))], false)
      else if |msg| < 64 || |w.data| < n then Handled(s, [Answer(LegacyBytes(8, count, Wrap32(n)))], false)
      else if !SectorsFit(s.disk.media, w) then Handled(s, [Answer(LegacyBytes(8, count, count))], false)
      else if s.commit && n != 0 then
        var written := WriteBlocks(s.disk, start, w.data[..n]);
        var specifier := if IsError(written.status) then Wrap32(written.status) else 0;
        Handled(s.(disk := written.disk), [Answer(LegacyBytes(StatusFromEfi(written.status), count, specifier))], false)
      else Handled(s, [Answer(LegacyBytes(0, count, 0))], false)
  }

  // ----- the dispatcher -----

  function Unknown(s: Session): Handled {
    Handled(s, [Answer(NOK + [0x55])], false)
  }

  function Query(s: Session): Handled {
    Handled(s, [Opaque], false)
  }

  /** The turn of the loop for one received message. */
  function Handle(s: Session, msg: seq<byte>): (h: Handled)
    requires Consistent(s)
    ensures Consistent(h.session)
  {
    if |msg| < 4 then Handled(s, [], false)
    else if msg[..3] != NOK then Unknown(s)
    else if msg[3] == 0x49 then Handled(s, [Answer(NOK + [0x49])], false)
    else if msg[3] == 0x56 then Query(s)
    else if msg[3] == 0x52 || msg[3] == 0x4D || msg[3] == 0x5A then Handled(s, [], true)
    else if msg[3] == 0x53 || msg[3] == 0x4E then Handled(s, [], false)
    else if msg[3] == 0x54 then Query(s)
    else if msg[3] == 0x46 then HandleLegacy(s, msg)
    else if |msg| < 6 || msg[3] != 0x58 then Unknown(s)
    else if msg[4] == 0x43 then Query(s).(exit := msg[5] == 0x42 && |msg| > 6 && msg[6] == 0x52)
    else if msg[4] == 0x46 && msg[5] in {0x52, 0x57, 0x49, 0x4F, 0x54, 0x58} then Query(s)
    else if msg[4] == 0x46 && msg[5] == 0x46 then HandleAsync(s, msg)
    else if msg[4] != 0x46 || msg[5] != 0x53 then Unknown(s)
    else HandleSecure(s, msg)
  }

  /** A message and what was sent back for it. */
  datatype Exchange = Exchange(msg: seq<byte>, replies: seq<Reply>)

  datatype Served = Served(session: Session, log: seq<Exchange>, exit: bool)

  /** The whole loop: messages are handled until one ends the session or receiving fails. */
  function Serve(s: Session, msgs: seq<seq<byte>>): (r: Served)
    requires Consistent(s)
    ensures Consistent(r.session)
    decreases |msgs|
  {
    if msgs == [] then Served(s, [], false)
    else
      var h := Handle(s, msgs[0]);
      var entry := Exchange(msgs[0], h.replies);
      if h.exit then Served(h.session, [entry], true)
      else
        var rest := Serve(h.session, msgs[1..]);
        rest.(log := [entry] + rest.log)
  }

  // ----- the loop, part of the way -----

  /** A loop that has already exchanged `log`. */
  function Resumed(log: seq<Exchange>, rest: Served): Served {
    rest.(log := log + rest.log)
  }

  lemma Resuming(s: Session, msgs: seq<seq<byte>>)
    requires Consistent(s)
    ensures Resumed([], Serve(s, msgs[0..])) == Serve(s, msgs)
  {
    hide Handle, Consistent, Serve;
    assert msgs[0..] == msgs;
    assert [] + Serve(s, msgs).log == Serve(s, msgs).log;
  }

  lemma ServeNothing(s: Session, log: seq<Exchange>)
    requires Consistent(s)
    ensures Resumed(log, Serve(s, [])) == Served(s, log, false)
  {
  }

  lemma ServeTurn(s: Session, msgs: seq<seq<byte>>, i: nat, log: seq<Exchange>)
    requires Consistent(s) && i < |msgs|
    ensures var h := Handle(s, msgs[i]);
            var more := log + [Exchange(msgs[i], h.replies)];
            Resumed(log, Serve(s, msgs[i..])) ==
            if h.exit then Served(h.session, more, true) else Resumed(more, Serve(h.session, msgs[i + 1..]))
  {
    hide Handle, Consistent;
    var h := Handle(s, msgs[i]);
    var entry := Exchange(msgs[i], h.replies);
    assert msgs[i..][1..] == msgs[i + 1..];
    if h.exit {
    } else {
      var tail := Serve(h.session, msgs[i + 1..]).log;
      assert log + ([entry] + tail) == log + [entry] + tail;
    }
  }
}
