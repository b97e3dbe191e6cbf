/** Header reassembly: every split of a header into chunked packets starts flashing from exactly
    the original bytes, and what becomes of the packets that the host's own builder makes. */
module HeaderTransfer {
  import opened Bytes
  import opened BlockIo
  import FfuLayout
  import opened StreamFlash
  import opened Proto
  import opened Session
  import ParserAgreement

  /** A secure-flash message with one subblock, in a protocol the dispatcher speaks. */
  predicate SecureMessage(msg: seq<byte>, subblock: u32) {
    && |msg| >= 16 && msg[..4] == NOKX && msg[4] == 0x46 && msg[5] == 0x53
    && 0 < RdBe16(msg, 6) < 32 && msg[11] == 1 && RdBe32(msg, 12) == subblock
  }

  predicate IsHeaderMessage(msg: seq<byte>) {
    SecureMessage(msg, SUBBLOCK_HEADER_V1) || SecureMessage(msg, SUBBLOCK_HEADER_V2)
  }

  /** msg is a V2 header packet that carries `chunk` of a transfer of `total`, with options the device
      accepts: none, or any below 0x40 without the erase byte. */
  predicate HeaderPacket(msg: seq<byte>, total: u32, fileOffset: u32, chunk: seq<byte>) {
    && SecureMessage(msg, SUBBLOCK_HEADER_V2) && |chunk| <= MAX_HEADER_DATA
    && |msg| >= 60 + |chunk| && RdBe32(msg, 24) == total && msg[28] < 0x40 && (msg[28] == 0 || msg[37] == 0)
    && RdBe32(msg, 29) == fileOffset && RdBe32(msg, 33) == |chunk| && msg[60..60 + |chunk|] == chunk
  }

  lemma SecureDispatch(s: Session, msg: seq<byte>, subblock: u32)
    requires Consistent(s) && SecureMessage(msg, subblock)
    ensures subblock == SUBBLOCK_HEADER_V2 ==> Handle(s, msg) == HandleHeaderV2(s, msg)
    ensures subblock == SUBBLOCK_HEADER_V1 ==> Handle(s, msg) == HandleHeaderV1(s, msg)
    ensures subblock == SUBBLOCK_PAYLOAD_V1 || subblock == SUBBLOCK_PAYLOAD_V2 || subblock == SUBBLOCK_PAYLOAD_V3 ==>
              Handle(s, msg) == HandlePayload(s, msg, RdBe16(msg, 6), subblock)
  {
    hide Consistent, HandleHeaderV1, HandleHeaderV2, HandlePayload, HandleAsync, HandleLegacy;
    assert msg[..3] == msg[..4][..3];
    assert msg[3] == msg[..4][3];
  }

  /** The session after the prefix `got` of a transfer of `total` bytes, begun in session s0. */
  predicate Receiving(s: Session, s0: Session, got: seq<byte>, total: nat) {
    && s.header.Some? && !s.ready && |got| <= total <= |s.header.value| <= MAX_HEADER
    && s == s0.(header := s.header, headerSize := |got|, received := |got|, live := false)
    && s.header.value[..|got|] == got
  }

  /** A complete transfer: what ffu_stream_flash_init on the bytes makes of the session. */
  function Running(s0: Session, front: Contents, header: Option<seq<byte>>): Session {
    var i := Init(front, s0.disk.media, s0.commit);
    s0.(header := header, headerSize := |front|, received := 0, ready := i.status == SUCCESS, flash := i.stream,
        live := i.status == SUCCESS)
  }

  predicate StartedOn(h: Handled, s0: Session, bytes: Contents) {
    var i := Init(bytes, s0.disk.media, s0.commit);
    && h.replies == FsShort(StatusFromEfi(i.status), Wrap32(i.status)) && !h.exit
    && h.session == Running(s0, bytes, h.session.header)
  }

  lemma StartedFacts(h: Handled, s0: Session, bytes: Contents)
    requires StartedOn(h, s0, bytes)
    ensures !h.exit && (h.session.ready <==> Init(bytes, s0.disk.media, s0.commit).status == SUCCESS)
  {
    hide Init;
  }

  lemma CapacityFits(total: nat)
    requires 0 < total <= MAX_HEADER
    ensures total <= CapacityFor(total, total) <= MAX_HEADER
    ensures forall need: nat :: need <= total ==> CapacityFor(need, total) == CapacityFor(total, total)
  {
  }

  /** Pasting the next chunk of a transfer. */
  lemma PasteNext(buffer: seq<byte>, got: seq<byte>, chunk: seq<byte>)
    requires |got| + |chunk| <= |buffer| && buffer[..|got|] == got
    ensures Overlay(buffer, |got|, chunk)[..|got| + |chunk|] == got + chunk
  {
  }

  lemma FirstStores(s0: Session, msg: seq<byte>, total: u32, chunk: seq<byte>)
    requires Consistent(s0) && s0.received + |chunk| <= total && HeaderPacket(msg, total, 0, chunk) && 0 < |chunk|
    ensures Handle(s0, msg) == Store(Restarted(s0), |chunk|, total, 0, chunk, true)
  {
    hide RdBe32, RdBe16, Store, Restarted, Consistent, SecureMessage;
    SecureDispatch(s0, msg, SUBBLOCK_HEADER_V2);
  }

  /** The first packet of a transfer drops what an abandoned one has left, and allocates a buffer for
      all of it. The overrun test in front still counts the abandoned transfer's bytes. */
  lemma FirstPacket(s0: Session, msg: seq<byte>, total: u32, chunk: seq<byte>) returns (s1: Session)
    requires Consistent(s0) && !s0.ready && s0.received + |chunk| <= total
    requires HeaderPacket(msg, total, 0, chunk) && 0 < |chunk| <= total <= MAX_HEADER
    ensures Consistent(s1) && Receiving(s1, s0, chunk, total)
    ensures Handle(s0, msg) == Finish(s1, total, true)
  {
    hide Handle, HeaderPacket, Finish, CapacityFor, Steppable, Disk.Valid, Multiple;
    FirstStores(s0, msg, total, chunk);
    CapacityFits(total);
    var r := Restarted(s0);
    var g := Grown(r, |chunk|, total);
    assert [] + Zeros(CapacityFor(|chunk|, total)) == Zeros(CapacityFor(|chunk|, total));
    s1 := Copied(g, |chunk|, 0, chunk, true);
    PasteNext(g.header.value, [], chunk);
    assert [] + chunk == chunk;
  }

  /** If with those bytes the chunk would overrun the new total, the packet is refused, and so a packet
      at offset zero starts a new transfer exactly if they fit. */
  lemma RestartRefused(s0: Session, msg: seq<byte>, total: u32, chunk: seq<byte>)
    requires Consistent(s0) && HeaderPacket(msg, total, 0, chunk) && s0.received + |chunk| > total
    ensures Handle(s0, msg) == Short(s0, 16, |chunk|)
  {
    hide RdBe32, RdBe16, Store, Consistent, FsShortBytes, SecureMessage;
    SecureDispatch(s0, msg, SUBBLOCK_HEADER_V2);
  }

  lemma NextStores(s: Session, msg: seq<byte>, total: u32, fileOffset: u32, chunk: seq<byte>)
    requires Consistent(s) && s.header.Some? && s.received + |chunk| <= total
    requires HeaderPacket(msg, total, fileOffset, chunk) && fileOffset != 0 && 0 < |chunk|
    ensures Handle(s, msg) == Store(s, s.received + |chunk|, total, s.received, chunk, true)
  {
    hide RdBe32, RdBe16, Store, Consistent, SecureMessage;
    SecureDispatch(s, msg, SUBBLOCK_HEADER_V2);
  }

  /** Every further packet lands behind the ones before. */
  lemma NextPacket(
    s: Session, s0: Session, got: seq<byte>, msg: seq<byte>, total: u32, fileOffset: u32, chunk: seq<byte>)
    returns (s1: Session)
    requires Consistent(s) && Receiving(s, s0, got, total)
    requires HeaderPacket(msg, total, fileOffset, chunk) && fileOffset != 0 && |got| + |chunk| <= total
    requires 0 < |chunk|
    ensures Consistent(s1) && Receiving(s1, s0, got + chunk, total)
    ensures Handle(s, msg) == Finish(s1, total, true)
  {
    hide Handle, HeaderPacket, Finish, CapacityFor, Steppable, Disk.Valid, Multiple;
    NextStores(s, msg, total, fileOffset, chunk);
    var need := |got| + |chunk|;
    s1 := Copied(s, need, |got|, chunk, true);
    PasteNext(s.header.value, got, chunk);
  }

  /** A prefix is acknowledged; the whole starts the flash context from exactly the bytes received. */
  lemma FinishPrefix(s: Session, s0: Session, got: Contents, total: nat)
    requires Consistent(s) && Receiving(s, s0, got, total) && 0 < total && s0.flash == ZEROED
    ensures |got| < total ==> Finish(s, total, true) == Handled(s, FsShort(0, 0), false)
    ensures |got| == total ==> StartedOn(Finish(s, total, true), s0, got)
  {
    hide Init, Steppable, Disk.Valid, Multiple;
    if |got| == total {
      assert s.header.value[..total] == got;
    }
  }

  /** Offsets of a transfer: zero for the first packet and for no other. */
  predicate TransferPackets(msgs: seq<seq<byte>>, chunks: seq<seq<byte>>, offsets: seq<u32>, total: u32) {
    && |msgs| == |chunks| == |offsets|
    && forall k :: 0 <= k < |msgs| ==>
         HeaderPacket(msgs[k], total, offsets[k], chunks[k]) && 0 < |chunks[k]| && offsets[k] != 0
  }

  lemma TransferHead(msgs: seq<seq<byte>>, chunks: seq<seq<byte>>, offsets: seq<u32>, total: u32)
    requires TransferPackets(msgs, chunks, offsets, total) && Concat(chunks) != []
    ensures |msgs| == |chunks| == |offsets| > 0
    ensures HeaderPacket(msgs[0], total, offsets[0], chunks[0]) && 0 < |chunks[0]| && offsets[0] != 0
    ensures Concat(chunks) == chunks[0] + Concat(chunks[1..])
    ensures TransferPackets(msgs[1..], chunks[1..], offsets[1..], total)
    ensures Concat(chunks[1..]) == [] ==> |msgs| == 1
  {
    hide HeaderPacket;
  }

  /** After the first k messages flashing has not started, and the flash context is untouched. */
  predicate NotStarted(s: Session, msgs: seq<seq<byte>>, k: nat)
    requires Consistent(s) && k <= |msgs|
  {
    var r := Serve(s, msgs[..k]);
    !r.exit && !r.session.ready && r.session.flash == ZEROED
  }

  /** Every message but the last is acknowledged with status 0 and starts nothing; the last one makes
      of session s0 what starting on exactly `bytes` makes of it. */
  predicate Reassembles(s: Session, s0: Session, msgs: seq<seq<byte>>, bytes: Contents)
    requires Consistent(s)
  {
    var r := Serve(s, msgs);
    && !r.exit && |r.log| == |msgs| > 0
    && (forall k :: 0 <= k < |msgs| - 1 ==> r.log[k].replies == FsShort(0, 0))
    && (forall k :: 0 <= k < |msgs| ==> NotStarted(s, msgs, k))
    && StartedOn(Handled(r.session, r.log[|msgs| - 1].replies, false), s0, bytes)
  }

  /** The first turn of a run. */
  lemma ServeFirst(s: Session, msgs: seq<seq<byte>>)
    requires Consistent(s) && msgs != [] && !Handle(s, msgs[0]).exit
    ensures var h := Handle(s, msgs[0]);
            var r, q := Serve(s, msgs), Serve(h.session, msgs[1..]);
            && r.session == q.session && r.exit == q.exit && |r.log| == 1 + |q.log|
            && r.log[0].replies == h.replies && (forall k :: 0 < k < |r.log| ==> r.log[k] == q.log[k - 1])
  {
    hide Handle, Consistent;
  }

  lemma NotStartedYet(s: Session, msgs: seq<seq<byte>>)
    requires Consistent(s) && !s.ready && s.flash == ZEROED
    ensures NotStarted(s, msgs, 0)
  {
    assert msgs[..0] == [];
  }

  lemma NotStartedLater(s: Session, msgs: seq<seq<byte>>, k: nat)
    requires Consistent(s) && 0 < k <= |msgs| && !Handle(s, msgs[0]).exit
    requires NotStarted(Handle(s, msgs[0]).session, msgs[1..], k - 1)
    ensures NotStarted(s, msgs, k)
  {
    hide Handle, Consistent;
    assert msgs[..k][1..] == msgs[1..][..k - 1];
  }

  lemma ReassemblesAtOnce(s: Session, s0: Session, msgs: seq<seq<byte>>, bytes: Contents)
    requires Consistent(s) && !s.ready && s.flash == ZEROED && |msgs| == 1 && StartedOn(Handle(s, msgs[0]), s0, bytes)
    ensures Reassembles(s, s0, msgs, bytes)
  {
    hide Handle, Consistent, Serve, NotStarted, FsShort;
    ServeFirst(s, msgs);
    NotStartedYet(s, msgs);
    ServeNone(Handle(s, msgs[0]).session, msgs[1..]);
  }

  lemma ServeNone(s: Session, msgs: seq<seq<byte>>)
    requires Consistent(s) && msgs == []
    ensures Serve(s, msgs) == Served(s, [], false)
  {
  }

  lemma ReassemblesLater(s: Session, s0: Session, msgs: seq<seq<byte>>, bytes: Contents)
    requires Consistent(s) && !s.ready && s.flash == ZEROED && msgs != []
    requires var h := Handle(s, msgs[0]);
             h.replies == FsShort(0, 0) && !h.exit && Reassembles(h.session, s0, msgs[1..], bytes)
    ensures Reassembles(s, s0, msgs, bytes)
  {
    hide Handle, Consistent, Serve, NotStarted, FsShort, StartedOn;
    ServeFirst(s, msgs);
    NotStartedYet(s, msgs);
    forall k | 0 < k < |msgs|
      ensures NotStarted(s, msgs, k)
    {
      NotStartedLater(s, msgs, k);
    }
  }

  /** One packet of the rest of a transfer. */
  lemma TransferStep(
    s: Session, s0: Session, got: Contents, msgs: seq<seq<byte>>, chunks: seq<seq<byte>>, offsets: seq<u32>, total: u32)
    returns (more: Contents)
    requires Consistent(s) && Receiving(s, s0, got, total) && |got| < total && s0.flash == ZEROED
    requires TransferPackets(msgs, chunks, offsets, total) && |got| + |Concat(chunks)| == total
    ensures |msgs| == |chunks| == |offsets| > 0 && more + Concat(chunks[1..]) == got + Concat(chunks)
    ensures |more| <= total && |more| + |Concat(chunks[1..])| == total
    ensures TransferPackets(msgs[1..], chunks[1..], offsets[1..], total)
    ensures var h := Handle(s, msgs[0]);
            if |more| < total then h.replies == FsShort(0, 0) && !h.exit && Receiving(h.session, s0, more, total)
            else |msgs| == 1 && more == got + Concat(chunks) && StartedOn(h, s0, more)
  {
    hide *;
    TransferHead(msgs, chunks, offsets, total);
    var s1 := NextPacket(s, s0, got, msgs[0], total, offsets[0], chunks[0]);
    more := got + chunks[0];
    assert more + Concat(chunks[1..]) == got + Concat(chunks);
    FinishPrefix(s1, s0, more, total);
  }

  /** The rest of a transfer. */
  lemma {:induction false} RestOfTransfer(
    s: Session, s0: Session, got: Contents, msgs: seq<seq<byte>>, chunks: seq<seq<byte>>, offsets: seq<u32>, total: u32)
    requires Consistent(s) && Receiving(s, s0, got, total) && |got| < total && s0.flash == ZEROED
    requires TransferPackets(msgs, chunks, offsets, total) && |got| + |Concat(chunks)| == total
    ensures Reassembles(s, s0, msgs, got + Concat(chunks))
    decreases |msgs|
  {
    hide Handle, Consistent, Receiving, TransferPackets, Reassembles, StartedOn, FsShort;
    ReceivingIsIdle(s, s0, got, total);
    var more := TransferStep(s, s0, got, msgs, chunks, offsets, total);
    if |more| < total {
      RestOfTransfer(Handle(s, msgs[0]).session, s0, more, msgs[1..], chunks[1..], offsets[1..], total);
      ReassemblesLater(s, s0, msgs, got + Concat(chunks));
    } else {
      ReassemblesAtOnce(s, s0, msgs, more);
    }
  }

  lemma ReceivingIsIdle(s: Session, s0: Session, got: seq<byte>, total: nat)
    requires Receiving(s, s0, got, total) && s0.flash == ZEROED
    ensures !s.ready && s.flash == ZEROED
  {
  }

  /** The offsets a host gives: zero for the first chunk, anything else later. The device only
      looks at whether an offset is zero. */
  predicate HeaderSplit(msgs: seq<seq<byte>>, chunks: seq<seq<byte>>, offsets: seq<u32>, total: u32) {
    && |msgs| == |chunks| == |offsets| > 0
    && HeaderPacket(msgs[0], total, 0, chunks[0]) && 0 < |chunks[0]|
    && TransferPackets(msgs[1..], chunks[1..], offsets[1..], total)
    && |Concat(chunks)| == total <= MAX_HEADER
  }

  lemma FirstChunkFits(msgs: seq<seq<byte>>, chunks: seq<seq<byte>>, offsets: seq<u32>, total: u32)
    requires HeaderSplit(msgs, chunks, offsets, total)
    ensures |chunks| > 0 && |chunks[0]| <= total
  {
    hide HeaderPacket, TransferPackets;
    ConcatFirst(chunks);
  }

  /** Header reassembly: for every split of a header into nonempty chunks, each packet but the last
      is acknowledged with status 0 and starts nothing, and the last one starts the flash context
      from exactly the original bytes, whatever the session's buffer held before. So the context is
      initialised exactly once, after the last packet. Bytes of an abandoned transfer do no harm as
      long as the first packet passes the overrun test that still counts them (RestartRefused). */
  lemma SplitsReassemble(s0: Session, msgs: seq<seq<byte>>, chunks: seq<seq<byte>>, offsets: seq<u32>, total: u32)
    requires Consistent(s0) && !s0.ready && HeaderSplit(msgs, chunks, offsets, total)
    requires s0.received + |chunks[0]| <= total
    ensures Reassembles(s0, s0, msgs, Concat(chunks))
  {
    IdleIsZeroed(s0);
    hide Handle, Finish, Receiving, HeaderPacket, FsShort, StartedOn, Consistent, Reassembles;
    ConcatFirst(chunks);
    var s1 := FirstPacket(s0, msgs[0], total, chunks[0]);
    var first: Contents := chunks[0];
    FinishPrefix(s1, s0, first, total);
    if |first| < total {
      RestOfTransfer(s1, s0, first, msgs[1..], chunks[1..], offsets[1..], total);
      ReassemblesLater(s0, s0, msgs, Concat(chunks));
    } else {
      SplitEnds(msgs[1..], chunks[1..], offsets[1..], total);
      assert first == Concat(chunks);
      ReassemblesAtOnce(s0, s0, msgs, first);
    }
  }

  lemma ConcatFirst(chunks: seq<seq<byte>>)
    requires chunks != []
    ensures Concat(chunks) == chunks[0] + Concat(chunks[1..])
  {
  }

  lemma SplitEnds(msgs: seq<seq<byte>>, chunks: seq<seq<byte>>, offsets: seq<u32>, total: u32)
    requires TransferPackets(msgs, chunks, offsets, total)
    ensures msgs != [] ==> Concat(chunks) != []
  {
  }

  // ----- the one-piece form -----

  /** msg is a V1 header packet with `chunk` for its whole header and options the device accepts. */
  predicate OnePiecePacket(msg: seq<byte>, chunk: seq<byte>) {
    && SecureMessage(msg, SUBBLOCK_HEADER_V1) && |chunk| <= MAX_HEADER_DATA && |msg| >= 32 + |chunk|
    && RdBe32(msg, 24) == |chunk| && RdBe32(msg, 16) == |chunk| + 12 && msg[28] < 0x40 && msg[29] == 0
    && msg[32..32 + |chunk|] == chunk
  }

  lemma OnePieceStores(s0: Session, msg: seq<byte>, chunk: seq<byte>)
    requires Consistent(s0) && OnePiecePacket(msg, chunk) && chunk != []
    ensures 0 < |chunk| <= MAX_HEADER_DATA
    ensures var s1 := s0.(received := 0);
            Consistent(s1) && Handle(s0, msg) == Store(s1, |chunk|, |chunk|, 0, chunk, false)
  {
    hide RdBe32, RdBe16, Store, SecureMessage, Consistent, FsShortBytes;
    CountCleared(s0);
    SecureDispatch(s0, msg, SUBBLOCK_HEADER_V1);
  }

  lemma CountCleared(s: Session)
    requires Consistent(s)
    ensures Consistent(s.(received := 0))
  {
  }

  /** A one-piece packet starts flashing from exactly its bytes, whatever the buffer held before. */
  lemma OnePieceStarts(s0: Session, msg: seq<byte>, chunk: Contents)
    requires Consistent(s0) && !s0.ready && OnePiecePacket(msg, chunk) && chunk != []
    ensures var h := Handle(s0, msg);
            var i := Init(chunk, s0.disk.media, s0.commit);
            && h.replies == FsShort(StatusFromEfi(i.status), Wrap32(i.status)) && !h.exit
            && h.session.ready == (i.status == SUCCESS) && h.session.flash == i.stream
            && h.session == s0.(header := h.session.header, headerSize := h.session.headerSize, received := 0,
                                ready := h.session.ready, flash := h.session.flash, live := h.session.live)
  {
    hide Handle, OnePiecePacket, Init, CapacityFor, Steppable, Disk.Valid, Multiple, FsShortBytes;
    OnePieceStores(s0, msg, chunk);
    CapacityFits(|chunk|);
    var s1 := s0.(received := 0);
    var r := Reserved(s1, |chunk|, |chunk|);
    PasteNext(r.header.value, [], chunk);
    assert [] + chunk == chunk;
    var c := Copied(r, |chunk|, 0, chunk, false);
    assert c.header.value[..|chunk|] == chunk;
    assert Handle(s0, msg) == Begin(c, |chunk|);
  }

  // ----- packets made by the host's builder -----

  lemma SecureHeadReads(protocol: byte, progress: byte, subblock: byte, rest: seq<byte>)
    requires 0 < protocol < 32
    ensures SecureMessage(SecureHeadBytes(protocol, progress, subblock) + rest, subblock)
    ensures RdBe16(SecureHeadBytes(protocol, progress, subblock) + rest, 6) == protocol
    ensures (SecureHeadBytes(protocol, progress, subblock) + rest)[8] == progress
  {
  }

  /** A header packet with any total, as laid out by the builder, is one for the dispatcher. */
  lemma HeaderFieldsDecode(absolute: u32, total: u32, fileOffset: u32, chunk: seq<byte>)
    requires |chunk| <= MAX_HEADER_DATA
    ensures HeaderPacket(HeaderFieldBytes(absolute, total, fileOffset, |chunk|) + chunk, total, fileOffset, chunk)
  {
    hide Be32, RdBe32, RdBe16, SecureHeadBytes, SecureMessage, Zeros;
    var n: u32 := |chunk|;
    var m := HeaderFieldBytes(absolute, total, fileOffset, n) + chunk;
    var a := SecureHeadBytes(2, 0, 0x21);
    var b := Be32(n + 40) + Be32(absolute);
    var z := Zeros(23) + chunk;
    assert m == a + (b + Be32(total) + [0] + Be32(fileOffset) + Be32(n) + z);
    SecureHeadReads(2, 0, 0x21, b + Be32(total) + [0] + Be32(fileOffset) + Be32(n) + z);
    assert m == (a + b) + Be32(total) + ([0] + Be32(fileOffset) + Be32(n) + z);
    Be32At(a + b, total, [0] + Be32(fileOffset) + Be32(n) + z);
    assert m == (a + b + Be32(total) + [0]) + Be32(fileOffset) + (Be32(n) + z);
    Be32At(a + b + Be32(total) + [0], fileOffset, Be32(n) + z);
    assert m == (a + b + Be32(total) + [0] + Be32(fileOffset)) + Be32(n) + z;
    Be32At(a + b + Be32(total) + [0] + Be32(fileOffset), n, z);
    assert m[60..60 + n] == chunk && m[28] == 0;
  }

  /** The first hs bytes of f are its header, and flashing can start from them. */
  predicate HeaderEnds(f: Contents, media: Media, commit: bool, hs: nat) {
    && FfuLayout.Parse(FileView, f).Ok? && FfuLayout.Parse(FileView, f).value.headerSize == hs <= |f|
    && Init(f[..hs], media, commit).status == SUCCESS
  }

  /** Init succeeds on a prefix of a file exactly if it does on the header and the prefix reaches it. */
  lemma InitThreshold(f: Contents, media: Media, commit: bool, hs: nat, n: nat)
    requires HeaderEnds(f, media, commit, hs) && n <= |f|
    ensures Init(f[..n], media, commit).status == SUCCESS <==> hs <= n
  {
    hide FfuLayout.Parse, MaxBytes, Zeros;
    ParserAgreement.ParsersAgree(f, n);
    ParserAgreement.ParsersAgree(f, hs);
  }

  /** Because the builder's total field is the end of its own chunk, the first packet it makes is
      already a whole transfer for the device: flashing starts with it if and only if that one
      packet reaches the end of the header. */
  lemma BuilderNeedsOnePacket(s0: Session, f: Contents, absolute: u32, hs: nat, n: u32)
    requires Consistent(s0) && !s0.ready && s0.received == 0 && HeaderEnds(f, s0.disk.media, s0.commit, hs)
    requires 0 < n <= |f| && n <= MAX_HEADER_DATA
    ensures var h := Handle(s0, HeaderHeadBytes(absolute, 0, n) + f[..n]);
            StartedOn(h, s0, f[..n]) && (h.session.ready <==> hs <= n)
  {
    hide Handle, Finish, Receiving, HeaderPacket, HeaderFieldBytes, StartedOn, FsShort, FfuLayout.Parse, HeaderEnds,
      Init, Consistent;
    var chunk: Contents := f[..n];
    HeaderFieldsDecode(absolute, n, 0, chunk);
    var s1 := FirstPacket(s0, HeaderHeadBytes(absolute, 0, n) + chunk, n, chunk);
    IdleIsZeroed(s0);
    FinishPrefix(s1, s0, chunk, n);
    StartedFacts(Handle(s0, HeaderHeadBytes(absolute, 0, n) + chunk), s0, chunk);
    InitThreshold(f, s0.disk.media, s0.commit, hs, n);
  }

  lemma IdleIsZeroed(s: Session)
    requires Consistent(s) && !s.ready
    ensures s.flash == ZEROED
  {
  }

  // ----- a whole transfer in the builder's packets -----

  /** Chunks that each make one packet. */
  predicate PacketSized(chunks: seq<seq<byte>>) {
    forall k :: 0 <= k < |chunks| ==> 0 < |chunks[k]| <= MAX_HEADER_DATA
  }

  /** The packets the builder makes of the chunks of a header, the first of them at `offset`. */
  function BuilderMessages(chunks: seq<seq<byte>>, absolute: u32, offset: u32): (r: seq<seq<byte>>)
    requires PacketSized(chunks)
    requires offset + |Concat(chunks)| < TWO_32
    ensures |r| == |chunks|
  {
    if chunks == [] then []
    else
      [HeaderHeadBytes(absolute, offset, |chunks[0]|) + chunks[0]]
      + BuilderMessages(chunks[1..], absolute, offset + |chunks[0]|)
  }

  /** A session whose first packet was too short, after packets of `sent` bytes in all: it holds less
      than the last total it was told, and always will. */
  predicate Stalled(s: Session, sent: nat) {
    Consistent(s) && !s.ready && s.header.Some? && s.received < sent && s.headerSize <= sent
  }

  lemma CountedSizes(s: Session, need: nat, copyAt: nat, chunk: seq<byte>)
    requires Consistent(s) && need == copyAt + |chunk| <= Capacity(s) && s.header.Some?
    ensures var t := Copied(s, need, copyAt, chunk, true);
            t.header.Some? && t.received == need && t.headerSize == if need > s.headerSize then need else s.headerSize
  {
    hide Consistent, Overlay, Realiased;
  }

  lemma StoreStalls(s: Session, sent: u32, chunk: seq<byte>)
    requires Stalled(s, sent) && 0 < |chunk| && sent + |chunk| < TWO_32
    ensures var h := Store(s, s.received + |chunk|, sent + |chunk|, s.received, chunk, true);
            && !h.exit && Stalled(h.session, sent + |chunk|)
            && (sent + |chunk| <= MAX_HEADER ==> h.replies == FsShort(0, 0))
  {
    hide CapacityFor, Consistent, Wrap32, FsShortBytes, Copied, Grown;
    var total, need := sent + |chunk|, s.received + |chunk|;
    if total <= MAX_HEADER {
      CapacityFits(total);
    }
    if !TooLarge(s, need, total) {
      var r := Reserved(s, need, total);
      CountedSizes(r, need, s.received, chunk);
    }
  }

  /** Whatever comes next, the total moves ahead by as much as the bytes held do. */
  lemma StalledStep(s: Session, sent: u32, msg: seq<byte>, chunk: seq<byte>)
    requires Stalled(s, sent) && 0 < |chunk| && sent + |chunk| < TWO_32
    requires HeaderPacket(msg, sent + |chunk|, sent, chunk)
    ensures var h := Handle(s, msg);
            && !h.exit && Stalled(h.session, sent + |chunk|)
            && (sent + |chunk| <= MAX_HEADER ==> h.replies == FsShort(0, 0))
  {
    hide Handle, Store, HeaderPacket, FsShort, Consistent;
    StalledIsIdle(s, sent);
    NextStores(s, msg, sent + |chunk|, sent, chunk);
    StoreStalls(s, sent, chunk);
  }

  /** No message of the run starts flashing, and, if small, all are acknowledged with status 0. */
  predicate NeverStarts(s: Session, msgs: seq<seq<byte>>, small: bool)
    requires Consistent(s)
  {
    var r := Serve(s, msgs);
    && !r.exit && |r.log| == |msgs| && (forall k :: 0 <= k <= |msgs| ==> NotStarted(s, msgs, k))
    && (small ==> forall k :: 0 <= k < |msgs| ==> r.log[k].replies == FsShort(0, 0))
  }

  lemma NeverStartsNow(s: Session, msgs: seq<seq<byte>>, small: bool)
    requires Consistent(s) && !s.ready && s.flash == ZEROED && msgs == []
    ensures NeverStarts(s, msgs, small)
  {
    hide Consistent, NotStarted;
    NotStartedYet(s, msgs);
    ServeNone(s, msgs);
  }

  lemma NeverStartsLater(s: Session, msgs: seq<seq<byte>>, small: bool)
    requires Consistent(s) && !s.ready && s.flash == ZEROED && msgs != []
    requires var h := Handle(s, msgs[0]);
             !h.exit && (small ==> h.replies == FsShort(0, 0)) && NeverStarts(h.session, msgs[1..], small)
    ensures NeverStarts(s, msgs, small)
  {
    hide Handle, Consistent, Serve, NotStarted, FsShort;
    ServeFirst(s, msgs);
    NotStartedYet(s, msgs);
    forall k | 0 < k <= |msgs|
      ensures NotStarted(s, msgs, k)
    {
      NotStartedLater(s, msgs, k);
    }
  }

  lemma StalledIsIdle(s: Session, sent: nat)
    requires Stalled(s, sent)
    ensures Consistent(s) && !s.ready && s.flash == ZEROED
  {
  }

  lemma BuilderFirst(chunks: seq<seq<byte>>, absolute: u32, offset: u32)
    requires PacketSized(chunks) && chunks != [] && offset + |Concat(chunks)| < TWO_32
    ensures Concat(chunks) == chunks[0] + Concat(chunks[1..]) && PacketSized(chunks[1..]) && 0 < |chunks[0]|
    ensures var msgs := BuilderMessages(chunks, absolute, offset);
            var n := |chunks[0]|;
            && msgs[0] == HeaderHeadBytes(absolute, offset, n) + chunks[0]
            && HeaderPacket(msgs[0], offset + n, offset, chunks[0])
            && msgs[1..] == BuilderMessages(chunks[1..], absolute, offset + n)
  {
    hide HeaderPacket, HeaderFieldBytes;
    HeaderFieldsDecode(absolute, offset + |chunks[0]|, offset, chunks[0]);
  }

  lemma {:induction false} StalledRun(s: Session, sent: u32, chunks: seq<seq<byte>>, absolute: u32, small: bool)
    requires Stalled(s, sent) && sent + |Concat(chunks)| < TWO_32
    requires PacketSized(chunks) && (small ==> sent + |Concat(chunks)| <= MAX_HEADER)
    ensures Consistent(s)
    ensures NeverStarts(s, BuilderMessages(chunks, absolute, sent), small)
    decreases |chunks|
  {
    hide Handle, Consistent, Serve, NeverStarts, BuilderMessages, Stalled, PacketSized, HeaderPacket, HeaderFieldBytes,
      FsShort;
    var msgs := BuilderMessages(chunks, absolute, sent);
    StalledIsIdle(s, sent);
    if chunks == [] {
      NeverStartsNow(s, msgs, small);
    } else {
      BuilderFirst(chunks, absolute, sent);
      StalledStep(s, sent, msgs[0], chunks[0]);
      var more: u32 := sent + |chunks[0]|;
      StalledRun(Handle(s, msgs[0]).session, more, chunks[1..], absolute, small);
      NeverStartsLater(s, msgs, small);
    }
  }

  /** Flashing, once started, stays started, whatever header packets follow. */
  lemma ReadyStays(s: Session, msg: seq<byte>)
    requires Consistent(s) && s.ready && SecureMessage(msg, SUBBLOCK_HEADER_V2)
    ensures Handle(s, msg).session.ready && !Handle(s, msg).exit
  {
    hide Handle, RdBe32, RdBe16, Consistent, Overlay, Realiased, SecureMessage, Begin, FsShortBytes, Wrap32,
      CapacityFor;
    SecureDispatch(s, msg, SUBBLOCK_HEADER_V2);
  }

  predicate AllChunked(msgs: seq<seq<byte>>) {
    forall k :: 0 <= k < |msgs| ==> SecureMessage(msgs[k], SUBBLOCK_HEADER_V2)
  }

  lemma {:induction false} ReadyServes(s: Session, msgs: seq<seq<byte>>)
    requires Consistent(s) && s.ready && AllChunked(msgs)
    ensures Serve(s, msgs).session.ready
    decreases |msgs|
  {
    hide Handle, Consistent, SecureMessage;
    if msgs != [] {
      ReadyStays(s, msgs[0]);
      ReadyServes(Handle(s, msgs[0]).session, msgs[1..]);
    }
  }

  lemma {:induction false} BuilderChunked(chunks: seq<seq<byte>>, absolute: u32, offset: u32)
    requires PacketSized(chunks) && offset + |Concat(chunks)| < TWO_32
    ensures AllChunked(BuilderMessages(chunks, absolute, offset))
    decreases |chunks|
  {
    var msgs := BuilderMessages(chunks, absolute, offset);
    if chunks != [] {
      BuilderFirst(chunks, absolute, offset);
      var more: u32 := offset + |chunks[0]|;
      BuilderChunked(chunks[1..], absolute, more);
      hide BuilderMessages, SecureMessage, HeaderPacket, PacketSized;
      PacketIsSecure(msgs[0], more, offset, chunks[0]);
      forall k | 0 <= k < |msgs|
        ensures SecureMessage(msgs[k], SUBBLOCK_HEADER_V2)
      {
        assert k > 0 ==> msgs[k] == msgs[1..][k - 1];
      }
    }
  }

  lemma PacketIsSecure(msg: seq<byte>, total: u32, fileOffset: u32, chunk: seq<byte>)
    requires HeaderPacket(msg, total, fileOffset, chunk)
    ensures SecureMessage(msg, SUBBLOCK_HEADER_V2)
  {
  }

  /** The first turn of a prefix of a run. */
  lemma ServePrefix(s: Session, msgs: seq<seq<byte>>, k: nat)
    requires Consistent(s) && 0 < k <= |msgs| && !Handle(s, msgs[0]).exit
    ensures Serve(s, msgs[..k]).session == Serve(Handle(s, msgs[0]).session, msgs[1..][..k - 1]).session
  {
    hide Handle, Consistent;
    assert msgs[..k][1..] == msgs[1..][..k - 1];
  }

  lemma RunningStalls(s0: Session, h: Handled, front: Contents)
    requires Consistent(h.session) && StartedOn(h, s0, front) && front != [] && !h.session.ready
    ensures Stalled(h.session, |front|)
  {
    hide Init, Steppable, Disk.Valid, Multiple;
  }

  lemma ChunkedPrefix(msgs: seq<seq<byte>>, k: nat)
    requires AllChunked(msgs) && k <= |msgs|
    ensures AllChunked(msgs[..k])
  {
  }

  lemma NeverStartsAt(s: Session, msgs: seq<seq<byte>>, small: bool, k: nat)
    requires Consistent(s) && NeverStarts(s, msgs, small) && k <= |msgs|
    ensures !Serve(s, msgs[..k]).session.ready && |Serve(s, msgs).log| == |msgs|
    ensures small ==> forall i :: 0 <= i < |msgs| ==> Serve(s, msgs).log[i].replies == FsShort(0, 0)
  {
    hide Consistent, Serve, FsShort;
    assert NotStarted(s, msgs, k);
  }

  /** A builder's transfer whose first packet has started flashing. */
  lemma StartedAtOnce(s0: Session, chunks: seq<seq<byte>>, absolute: u32, k: nat)
    requires Consistent(s0) && PacketSized(chunks) && 0 < k <= |chunks| && |Concat(chunks)| < TWO_32
    requires var h := Handle(s0, BuilderMessages(chunks, absolute, 0)[0]);
             !h.exit && h.session.ready
    ensures Serve(s0, BuilderMessages(chunks, absolute, 0)[..k]).session.ready
  {
    hide Handle, Consistent, Serve, BuilderMessages, PacketSized, HeaderPacket, HeaderFieldBytes, AllChunked;
    var msgs := BuilderMessages(chunks, absolute, 0);
    BuilderFirst(chunks, absolute, 0);
    BuilderChunked(chunks[1..], absolute, |chunks[0]|);
    ChunkedPrefix(msgs[1..], k - 1);
    ServePrefix(s0, msgs, k);
    ReadyServes(Handle(s0, msgs[0]).session, msgs[1..][..k - 1]);
  }

  /** The answers to all messages of a run but the first. */
  predicate RestAcknowledged(s: Session, msgs: seq<seq<byte>>)
    requires Consistent(s)
  {
    var log := Serve(s, msgs).log;
    |log| == |msgs| && forall i :: 0 < i < |msgs| ==> log[i].replies == FsShort(0, 0)
  }

  /** A builder's transfer whose first packet was too short. */
  lemma StalledAtOnce(s0: Session, chunks: seq<seq<byte>>, absolute: u32, k: nat)
    requires Consistent(s0) && PacketSized(chunks) && 0 < k <= |chunks| && |Concat(chunks)| < TWO_32
    requires var h := Handle(s0, BuilderMessages(chunks, absolute, 0)[0]);
             !h.exit && Stalled(h.session, |chunks[0]|)
    ensures !Serve(s0, BuilderMessages(chunks, absolute, 0)[..k]).session.ready
    ensures |Concat(chunks)| <= MAX_HEADER ==> RestAcknowledged(s0, BuilderMessages(chunks, absolute, 0))
  {
    hide Handle, Consistent, Serve, FsShort, BuilderMessages, Stalled, PacketSized, HeaderPacket, HeaderFieldBytes,
      NeverStarts;
    var msgs := BuilderMessages(chunks, absolute, 0);
    var small := |Concat(chunks)| <= MAX_HEADER;
    BuilderFirst(chunks, absolute, 0);
    var s1 := Handle(s0, msgs[0]).session;
    StalledRun(s1, |chunks[0]|, chunks[1..], absolute, small);
    NeverStartsAt(s1, msgs[1..], small, k - 1);
    ServePrefix(s0, msgs, k);
    ServeFirst(s0, msgs);
  }

  /** A transfer in the builder's own packets starts flashing with its first packet or never: at any
      point behind that packet flashing has started if and only if the first chunk reached the end of
      the header. If it did not, the device acknowledges every later packet of a transfer of up to
      128 MiB with status 0, because each announces a total ahead of what is held. */
  lemma BuilderStartsAtOnceOrNever(s0: Session, f: Contents, hs: nat, chunks: seq<seq<byte>>, absolute: u32, k: nat)
    requires Consistent(s0) && !s0.ready && s0.received == 0 && HeaderEnds(f, s0.disk.media, s0.commit, hs)
    requires PacketSized(chunks) && 0 < k <= |chunks| && |Concat(chunks)| < TWO_32 && chunks[0] <= f
    ensures var msgs := BuilderMessages(chunks, absolute, 0);
            && (Serve(s0, msgs[..k]).session.ready <==> hs <= |chunks[0]|)
            && (|chunks[0]| < hs && |Concat(chunks)| <= MAX_HEADER ==> RestAcknowledged(s0, msgs))
  {
    hide Handle, Consistent, Serve, FsShort, BuilderMessages, HeaderPacket, HeaderFieldBytes, HeaderEnds, StartedOn,
      Stalled,
      RestAcknowledged;
    var msgs := BuilderMessages(chunks, absolute, 0);
    var n: u32 := |chunks[0]|;
    BuilderFirst(chunks, absolute, 0);
    assert n <= MAX_HEADER_DATA && f[..n] == chunks[0];
    BuilderNeedsOnePacket(s0, f, absolute, hs, n);
    StartedFacts(Handle(s0, msgs[0]), s0, f[..n]);
    if Handle(s0, msgs[0]).session.ready {
      StartedAtOnce(s0, chunks, absolute, k);
    } else {
      RunningStalls(s0, Handle(s0, msgs[0]), f[..n]);
      StalledAtOnce(s0, chunks, absolute, k);
    }
  }
}
