/** A smallest image file, worked through by hand: one store of one-byte blocks, one write
    descriptor with one location, one payload byte. It shows that the premises of the general
    theorems can be met, and exhibits two answers the code gives that a caller would not expect. */
module Specimen {
  import opened Bytes
  import opened BlockIo
  import opened FfuLayout
  import opened StreamFlash
  import opened DirectFlash
  import opened Proto
  import StreamLaws
  import StreamRuns
  import SameDisk
  import Session
  import SessionLaws
  import EndToEnd
  import HeaderTransfer
  import AsyncLaws
  import LateHeaders
  import ParserAgreement

  // the file's sections, each followed by padding up to the chunk size of 1024
  const SECURITY: seq<byte> := [32, 0, 0, 0] + SIGNED_IMAGE + [1, 0, 0, 0] + [0x0C, 0x80, 0, 0] + [1, 0, 0, 0]
    + [32, 0, 0, 0]
  const IMAGE: seq<byte> := [24, 0, 0, 0] + IMAGE_FLASH + [1, 0, 0, 0] + [1, 0, 0, 0]
  const STORE_HEAD: seq<byte> := Zeros(8) + [2, 0, 0, 0] + Zeros(192) + [1, 0, 0, 0] + [1, 0, 0, 0] + Zeros(36)
  const RECORD: seq<byte> := [1, 0, 0, 0, 1, 0, 0, 0] + Zeros(8)
  const PAYLOAD: byte := 0xAB

  const FILE: seq<byte> := SECURITY + Zeros(992) + IMAGE + Zeros(1000) + STORE_HEAD + RECORD + [PAYLOAD]

  const ENTRY := WriteEntry(2312, 2296, 1, 1, 1, 0)
  const STORE := Store(2048, 2312, 1, 2296, 1, 1, 0, 1)
  const PLAN := Plan(2313, 2312, 2312, 1024, 1, 32, 24, 1, 0, 1, [STORE], [ENTRY])

  /** What the readers see in the file. */
  predicate Reads(f: Contents) {
    && |f| == 2313
    && RdLe32(f[0..32], 0) == 32 && f[0..32][4..16] == SIGNED_IMAGE && RdLe32(f[0..32], 16) == 1
    && RdLe32(f[0..32], 20) == 0x800C && RdLe32(f[0..32], 24) == 1 && RdLe32(f[0..32], 28) == 32
    && RdLe32(f[1024..1048], 0) == 24 && f[1024..1048][4..16] == IMAGE_FLASH
    && RdLe32(f[1024..1048], 16) == 1 && RdLe32(f[1024..1048], 20) == 1
    && RdLe32(f[2048..2296], 0) == 0 && RdLe16(f[2048..2296], 4) == 0
    && RdLe16(f[2048..2296], 8) == 2 && RdLe16(f[2048..2296], 10) == 0
    && RdLe32(f[2048..2296], 204) == 1 && RdLe32(f[2048..2296], 208) == 1
    && RdLe32(f[2296..2304], 0) == 1 && RdLe32(f[2296..2304], 4) == 1
    && RdLe32(f[2304..2312], 0) == 0 && RdLe32(f[2304..2312], 4) == 0 && f[2312] == PAYLOAD
  }

  lemma Sections() returns (f: Contents)
    ensures f == FILE && |f| == 2313
    ensures f[0..32] == SECURITY && f[1024..1048] == IMAGE && f[2048..2296] == STORE_HEAD
    ensures f[2296..2304] == RECORD[..8] && f[2304..2312] == RECORD[8..] && f[2312] == PAYLOAD
  {
    f := FILE;
    assert |SECURITY| == 32 && |IMAGE| == 24 && |STORE_HEAD| == 248 && |RECORD| == 16;
    assert f[0..32] == SECURITY;
    assert f[1024..1048] == IMAGE;
    assert f[2048..2296] == STORE_HEAD;
    assert f[2296..2304] == RECORD[..8];
    assert f[2304..2312] == RECORD[8..];
  }

  lemma Heads()
    ensures |SECURITY| == 32 && |IMAGE| == 24 && |STORE_HEAD| == 248 && |RECORD| == 16
    ensures RdLe32(SECURITY, 0) == 32 && SECURITY[4..16] == SIGNED_IMAGE && RdLe32(SECURITY, 16) == 1
    ensures RdLe32(SECURITY, 20) == 0x800C && RdLe32(SECURITY, 24) == 1 && RdLe32(SECURITY, 28) == 32
    ensures RdLe32(IMAGE, 0) == 24 && IMAGE[4..16] == IMAGE_FLASH && RdLe32(IMAGE, 16) == 1 && RdLe32(IMAGE, 20) == 1
    ensures RdLe32(STORE_HEAD, 0) == 0 && RdLe16(STORE_HEAD, 4) == 0 && RdLe16(STORE_HEAD, 8) == 2
    ensures RdLe16(STORE_HEAD, 10) == 0
    ensures RdLe32(STORE_HEAD, 204) == 1 && RdLe32(STORE_HEAD, 208) == 1
    ensures RdLe32(RECORD[..8], 0) == 1 && RdLe32(RECORD[..8], 4) == 1
    ensures RdLe32(RECORD[8..], 0) == 0 && RdLe32(RECORD[8..], 4) == 0
  {
  }

  lemma FileReads() returns (f: Contents)
    ensures f == FILE && Reads(f)
  {
    hide RdLe32, RdLe16, Zeros;
    f := Sections();
    Heads();
  }

  lemma HeadParses(f: Contents)
    requires Reads(f)
    ensures ReadHead(FileView, f) == Ok(Head(Security(1024, 1, 32, 1024), ImageHead(24, 1, 0, 1049), 1049))
  {
    hide RdLe16, AlignUp;
    assert AlignUp(65, 1024) == 1024 by {
      AlignsUp(65, 1024, 1024);
    }
    assert ReadSecurity(FileView, f) == Ok(Security(1024, 1, 32, 1024));
    assert RdLe32([0, 0, 0, 0], 0) == 0;
    assert ReadImageHead(FileView, f, 1024) == Ok(ImageHead(24, 1, 0, 1049));
  }

  lemma AlignsUp(v: u64, m: u64, r: u64)
    requires 0 < m && v <= r < v + m && r % m == 0 && v + m <= TWO_64
    ensures AlignUp(v, m) == r
  {
    AlignUpLeast(v, m, r);
    var a := AlignUp(v, m);
    MulNear(r / m - a / m, m, r - a);
  }

  lemma StoreParses(f: Contents)
    requires Reads(f)
    ensures var body := Stores([STORE.(payloadBase := 0)], [ENTRY.(payloadOffset := 0)], 2312);
            ReadStores(FileView, f, 1049, 1024, 1, [], []) == Ok(body)
  {
    hide RdLe32, RdLe16, AlignUp;
    AlignsUp(1049, 1024, 2048);
    var head := StoreHead(2296, 1, 1, 1, 0);
    assert ReadStoreHead(FileView, f, 2048, 1) == Ok(head);
    var e := ENTRY.(payloadOffset := 0);
    assert EntryBytes(1, 1) == 1;
    assert [] + [e] == [e];
    assert ReadDescriptors(FileView, f, 2312, 1, [e], 0, 1, 0) == Ok(Descriptors([e], 2312, 1));
    assert ReadDescriptors(FileView, f, 2296, 0, [], 1, 1, 0) == Ok(Descriptors([e], 2312, 1));
    var s := STORE.(payloadBase := 0);
    assert [] + [s] == [s];
    assert ReadStore(FileView, f, 1049, 1024, 1, [], []) == Ok((Stores([s], [e], 2312), 1));
    assert ReadStores(FileView, f, 2312, 1024, 1, [s], [e]) == Ok(Stores([s], [e], 2312));
  }

  lemma BodyPlaced()
    ensures var s, e := STORE.(payloadBase := 0), ENTRY.(payloadOffset := 0);
            PlacePayload(Placed([s], [e], 0, 0), 0, 2312) == Placed([STORE], [ENTRY], 2312, 1)
  {
  }

  lemma Parses(f: Contents)
    requires Reads(f)
    ensures Parse(FileView, f) == Ok(PLAN)
  {
    HeadParses(f);
    StoreParses(f);
    BodyPlaced();
    hide ReadHead, ReadStores, PlacePayload, RdLe32, RdLe16;
  }

  /** The premises of the end-to-end theorem are met by this file. */
  lemma FileIsFlashable() returns (f: Contents)
    ensures f == FILE && SameDisk.Flashable(f, PLAN)
  {
    f := FileReads();
    Parses(f);
    hide Parse, RdLe32, RdLe16;
  }

  // ----- a misaligned entry, reported as success -----

  /** Two-byte media blocks; the specimen's only entry is one byte long. */
  const WIDE := Disk(Media(true, false, 2, 0), [0, 0], [])

  /** On a device whose FlushBlocks succeeds, a committed direct run of the specimen reports success
      and has written nothing; the dry run of the same plan reports that it is unsupported. */
  lemma SuccessWithoutWriting() returns (f: Contents)
    ensures f == FILE && Parse(FileView, f) == Ok(PLAN) && WIDE.Valid() && Indexed(PLAN)
    ensures Flash(f, PLAN, WIDE, true, Some(SUCCESS)) == Flashed(SUCCESS, WIDE)
    ensures Flash(f, PLAN, WIDE, false, Some(SUCCESS)) == Flashed(UNSUPPORTED, WIDE)
  {
    f := FileReads();
    Parses(f);
    assert ByteOffset(1, 2) == 2;
    Misaligned(f, true);
    Misaligned(f, false);
    hide Parse, FlashEntries, RdLe32, RdLe16;
  }

  lemma Misaligned(f: Contents, commit: bool)
    ensures WIDE.Valid() && Indexed(PLAN)
    ensures FlashEntries(f, PLAN, 0, SUCCESS, WIDE, commit) == Looped(UNSUPPORTED, WIDE, false)
  {
  }

  // ----- a write fault the answer does not carry -----

  /** A one-byte medium whose next write fails with a code that is zero in its low 16 bits. */
  const FAULTY := Disk(Media(true, false, 1, 0), [0], [Outcome(0x8000_0000_0001_0000, [])])

  /** The context started from the specimen's header. */
  const FRESH := Stream(PLAN.(fileSize := 2312), FILE[..2312], Zeros(1), 0, 0, 1, false, 0, 0xFFFF_FFFF)

  lemma HeaderStarts(f: Contents, media: Media)
    requires Reads(f) && f == FILE && media.present && !media.readOnly && media.blockSize == 1
    ensures Init(f[..2312], media, true) == Started(SUCCESS, FRESH)
  {
    Parses(f);
    ParserAgreement.ParsersAgree(f, 2312);
    assert MaxBytes([ENTRY], 0) == 0 && MaxBytes([ENTRY], 1) == 1;
    hide Parse, RdLe32, RdLe16, MaxBytes, Zeros;
  }

  /** The entry's only location is block 0, and the device refuses to write there. */
  lemma EntryFails(f: Contents, s1: Stream)
    requires Reads(f) && f == FILE && s1.header == f[..2312] && s1.mediaBlock == 1 && !s1.dryRun && |s1.data| == 1
    ensures FAULTY.Valid()
    ensures WriteFrom(s1, ENTRY, 1, 0, 0xFFFF_FFFF, FAULTY) ==
            EntryWrite(0x8000_0000_0001_0000, 0xFFFF_FFFF, Disk(FAULTY.media, [0], []))
  {
    hide RdLe16, RdLe32, FILE;
    assert ByteOffset(1, 1) == 1 && ByteOffset(0, 1) == 0;
    var h := f[..2312];
    assert h[2304..2312] == f[2304..2312];
    assert ReadLocation(HeaderBytes, h, ENTRY, 0) == Ok(Location(0, 0));
    assert TargetByte(0, 1) == 0;
    assert Locate(h, ENTRY, 1, 1, 0) == Ok(0);
    FaultyWrite(s1.data[..1]);
  }

  /** The payload byte completes the entry, its write fails, and the entry stays pending. */
  lemma FaultHits(f: Contents)
    requires Reads(f) && f == FILE
    ensures FAULTY.Valid() && Steppable(FRESH)
    ensures var r := Feed(FRESH, FAULTY, [PAYLOAD]);
            && r.status == 0x8000_0000_0001_0000 && StreamLaws.Pending(r.stream)
            && r.stream == Collected(FRESH, [PAYLOAD]) && r.disk == Disk(FAULTY.media, [0], [])
  {
    hide WriteFrom, RdLe32, RdLe16, Reads;
    var s1 := Collected(FRESH, [PAYLOAD]);
    EntryFails(f, s1);
    assert [PAYLOAD][..1] == [PAYLOAD];
    assert Step(FRESH, FAULTY, [PAYLOAD]) == Turn(0x8000_0000_0001_0000, s1, Disk(FAULTY.media, [0], []), 1);
  }

  lemma FaultyWrite(buf: seq<byte>)
    requires |buf| == 1
    ensures FAULTY.Valid() && WriteBlocks(FAULTY, 0, buf) == Written(0x8000_0000_0001_0000, Disk(FAULTY.media, [0], []))
  {
  }

  /** A session started on the specimen's header answers its payload packet with status 0, which the
      host's parser accepts, although the device has refused the write and the entry is still
      pending: the answer carries only the low 16 bits of the device's error. */
  lemma FaultUnreported() returns (f: Contents)
    ensures f == FILE && |f| == 2313 && FAULTY.Valid()
    ensures var s := Session.Handle(Session.Initial(FAULTY, true), HeaderHeadBytes(0, 0, 2312) + f[..2312]).session;
            var h := Session.Handle(s, PayloadHeadBytes(50, 1) + [PAYLOAD]);
            && |h.replies| == 1 && h.replies[0].Answer?
            && ParsePayloadResponse(h.replies[0].bytes, false).result == STATUS_OK
            && StreamLaws.Pending(h.session.flash) && h.session.disk.image == [0]
  {
    f := FileReads();
    Parses(f);
    HeaderStarts(f, FAULTY.media);
    FaultHits(f);
    hide Session.Handle, Feed, Init, Parse, RdLe32, RdLe16, HeaderHeadBytes, PayloadHeadBytes, ParsePayloadResponse,
      SecureStatusBytes,
      Session.FsShort, Reads;
    HeaderTransfer.BuilderNeedsOnePacket(Session.Initial(FAULTY, true), f, 0, 2312, 2312);
    var s := Session.Handle(Session.Initial(FAULTY, true), HeaderHeadBytes(0, 0, 2312) + f[..2312]).session;
    EndToEnd.BuiltPacketDecodes(50, [PAYLOAD]);
    EndToEnd.PacketDelivers(s, PayloadHeadBytes(50, 1) + [PAYLOAD], 50, [PAYLOAD]);
    SessionLaws.ProgressAnswer(s, [PAYLOAD], 50);
  }

  // ----- a header packet that arrives late -----

  /** A medium of two one-byte blocks. */
  const PAIR := Disk(Media(true, false, 1, 1), [0, 0], [])

  /** The specimen's header with another block number, 1 for 0, in its only location. */
  const OTHER: seq<byte> := FILE[..2308] + [1, 0, 0, 0]

  lemma PairValid()
    ensures PAIR.Valid() && PAIR.Writable()
  {
    assert ByteOffset(2, 1) == 2;
  }

  lemma HeaderReads(f: Contents)
    requires Reads(f)
    ensures ReadLocation(HeaderBytes, f[..2312], ENTRY, 0) == Ok(Location(0, 0))
  {
    hide RdLe16, RdLe32;
    assert f[..2312][2304..2312] == f[2304..2312];
  }

  lemma OtherReads(f: Contents)
    requires Reads(f) && f == FILE
    ensures |OTHER| == 2312 && ReadLocation(HeaderBytes, OTHER, ENTRY, 0) == Ok(Location(0, 1))
  {
    hide RdLe16, Zeros, FILE;
    assert OTHER[2304..2312] == f[2304..2308] + [1, 0, 0, 0];
  }

  /** A sound medium of one-byte blocks. */
  predicate ByteWise(d: Disk) {
    d.media.present && !d.media.readOnly && d.media.blockSize == 1 && d.outcomes == []
      && |d.image| == d.media.lastBlock + 1
  }

  lemma ByteWiseValid(d: Disk)
    requires ByteWise(d) && d.media.lastBlock < 2
    ensures d.Valid() && d.Writable()
  {
    assert ByteOffset(d.media.lastBlock + 1, 1) == d.media.lastBlock + 1;
  }

  /** The context lands its entry on whatever block its header names. */
  lemma EntryLands(s: Stream, d: Disk, b: u32)
    requires s.mediaBlock == 1 && !s.dryRun && s.data == [PAYLOAD] && ByteWise(d) && b <= d.media.lastBlock < 2
    requires ReadLocation(HeaderBytes, s.header, ENTRY, 0) == Ok(Location(0, b))
    ensures d.Valid()
    ensures WriteFrom(s, ENTRY, 1, 0, s.lastSector, d) == EntryWrite(SUCCESS, b, d.(image := d.image[b := PAYLOAD]))
  {
    ByteWiseValid(d);
    hide ReadLocation;
    assert TargetByte(b, 1) == b;
    assert Locate(s.header, ENTRY, 1, 1, 0) == Ok(b as u64);
    ByteLands(d, b, s.data[..1]);
    assert EndSector(b, 1, 1) == b;
  }

  lemma ByteLands(d: Disk, b: u32, buf: seq<byte>)
    requires ByteWise(d) && b <= d.media.lastBlock < 2 && buf == [PAYLOAD]
    ensures d.Valid() && WriteBlocks(d, b, buf) == Written(SUCCESS, d.(image := d.image[b := PAYLOAD]))
  {
    ByteWiseValid(d);
    assert ByteOffset(b, 1) == b && ByteOffset(d.media.lastBlock + 1, 1) == d.media.lastBlock + 1;
    assert Splice(d.image, b, buf) == d.image[b := PAYLOAD];
  }

  lemma PayloadLands(s: Stream, b: u32)
    requires s == FRESH.(header := s.header) && b < 2
    requires ReadLocation(HeaderBytes, s.header, ENTRY, 0) == Ok(Location(0, b))
    ensures PAIR.Valid() && Steppable(s) && Feed(s, PAIR, [PAYLOAD]).disk.image == [0, 0][b := PAYLOAD]
  {
    hide WriteFrom, ReadLocation;
    var s1 := Collected(s, [PAYLOAD]);
    assert [PAYLOAD][..1] == [PAYLOAD] && [PAYLOAD][1..] == [];
    assert s1.data == [PAYLOAD];
    EntryLands(s1, PAIR, b);
    var t := Step(s, PAIR, [PAYLOAD]);
    assert t.status == SUCCESS && t.took == 1 && t.disk.image == [0, 0][b := PAYLOAD];
    assert Run(t.stream, t.disk, []) == Fed(SUCCESS, t.stream, t.disk);
  }

  /** A session started on the specimen's header. */
  predicate OnSpecimen(s: Session.Session, header: seq<byte>) {
    && Session.Consistent(s) && s.ready && s.live && s.received == 0 && s.headerSize == 2312 && s.disk == PAIR
    && s.flash == FRESH.(header := header)
  }

  lemma SpecimenStarts(f: Contents)
    requires f == FILE && |f| == 2313 && Parse(FileView, f) == Ok(PLAN) && PAIR.Valid()
    requires Init(f[..2312], PAIR.media, true) == Started(SUCCESS, FRESH)
    ensures OnSpecimen(Session.Handle(Session.Initial(PAIR, true), HeaderHeadBytes(0, 0, 2312) + f[..2312]).session,
            f[..2312])
  {
    hide Session.Handle, Session.Consistent, Session.FsShort, Init, Parse, HeaderHeadBytes, Disk.Valid;
    HeaderTransfer.BuilderNeedsOnePacket(Session.Initial(PAIR, true), f, 0, 2312, 2312);
  }

  lemma SpecimenOverwritten(s: Session.Session, header: seq<byte>)
    requires OnSpecimen(s, header) && |header| == |OTHER| == 2312
    ensures var late := Session.Handle(s, HeaderHeadBytes(0, 0, 2312) + OTHER);
            && late.replies == Session.FsShort(0, 0) && late.session.ready && late.session.disk == PAIR
            && late.session.flash == FRESH.(header := OTHER)
  {
    hide Session.Handle, Session.Consistent, Session.FsShort, RdBe32, RdBe16, HeaderFieldBytes,
      HeaderTransfer.SecureMessage, OTHER;
    var msg := HeaderHeadBytes(0, 0, 2312) + OTHER;
    HeaderTransfer.HeaderFieldsDecode(0, 2312, 0, OTHER);
    SubblockIsOne(msg);
    RoomForHeader(s);
    assert LateHeaders.PlacementOf(s, msg) == Some(LateHeaders.Placement(0, 2312, 2312, OTHER));
    LateHeaders.LateHeaderOverwrites(s, msg);
    AsyncLaws.HeaderKeepsDisk(s, msg);
    assert LateHeaders.Laid(header, 0, OTHER) == OTHER;
  }

  lemma SubblockIsOne(msg: seq<byte>)
    requires HeaderTransfer.SecureMessage(msg, SUBBLOCK_HEADER_V2)
    ensures !HeaderTransfer.SecureMessage(msg, SUBBLOCK_HEADER_V1)
  {
  }

  lemma RoomForHeader(s: Session.Session)
    requires Session.Consistent(s) && s.headerSize == 2312
    ensures !Session.MustGrow(s, 2312, 2312)
  {
  }

  lemma PayloadHandled(s: Session.Session)
    requires Session.Consistent(s) && s.ready && s.disk == PAIR
    ensures Steppable(s.flash) && PAIR.Valid()
    ensures Session.Handle(s, PayloadHeadBytes(50, 1) + [PAYLOAD]).session.disk == Feed(s.flash, PAIR, [PAYLOAD]).disk
  {
    hide Session.Handle, Session.Consistent, EndToEnd.PayloadPacket, Feed, PayloadHeadBytes, Disk.Valid;
    EndToEnd.BuiltPacketDecodes(50, [PAYLOAD]);
    EndToEnd.OnePacket(s, PayloadHeadBytes(50, 1) + [PAYLOAD], 50, [PAYLOAD]);
  }

  /** A session that the specimen's header has started, and the same after the other header. */
  lemma TwoHeaders() returns (f: Contents, s: Session.Session, t: Session.Session)
    ensures f == FILE && |f| == 2313 && Reads(f) && PAIR.Valid() && |OTHER| == 2312
    ensures s == Session.Handle(Session.Initial(PAIR, true), HeaderHeadBytes(0, 0, 2312) + f[..2312]).session
    ensures OnSpecimen(s, f[..2312])
    ensures var late := Session.Handle(s, HeaderHeadBytes(0, 0, 2312) + OTHER);
            && late.session == t && late.replies == Session.FsShort(0, 0)
            && t.ready && t.disk == PAIR && t.flash == FRESH.(header := OTHER)
  {
    f := FileReads();
    Parses(f);
    PairValid();
    HeaderStarts(f, PAIR.media);
    OtherReads(f);
    SpecimenStarts(f);
    hide *;
    s := Session.Handle(Session.Initial(PAIR, true), HeaderHeadBytes(0, 0, 2312) + f[..2312]).session;
    SpecimenOverwritten(s, f[..2312]);
    t := Session.Handle(s, HeaderHeadBytes(0, 0, 2312) + OTHER).session;
  }

  /** A second header packet after the start is acknowledged like the first. The plan stays, but the
      location that the context reads for its entry is now the second packet's, and the payload byte
      lands there: on block 1, where without that packet it lands on block 0. */
  lemma LateHeaderMovesEntry() returns (f: Contents, s: Session.Session, t: Session.Session)
    ensures f == FILE && |f| == 2313 && PAIR.Valid() && |OTHER| == 2312
    ensures s == Session.Handle(Session.Initial(PAIR, true), HeaderHeadBytes(0, 0, 2312) + f[..2312]).session
    ensures var late := Session.Handle(s, HeaderHeadBytes(0, 0, 2312) + OTHER);
            late.session == t && late.replies == Session.FsShort(0, 0) && s.ready && t.ready
              && t.flash.plan == s.flash.plan
    ensures ReadLocation(HeaderBytes, s.flash.header, ENTRY, 0) == Ok(Location(0, 0))
    ensures ReadLocation(HeaderBytes, t.flash.header, ENTRY, 0) == Ok(Location(0, 1))
    ensures Session.Handle(s, PayloadHeadBytes(50, 1) + [PAYLOAD]).session.disk.image == [PAYLOAD, 0]
    ensures Session.Handle(t, PayloadHeadBytes(50, 1) + [PAYLOAD]).session.disk.image == [0, PAYLOAD]
  {
    hide Session.Handle, Session.Consistent, Session.FsShort, ReadLocation, Feed, Reads, OTHER, FILE, HeaderHeadBytes,
      PayloadHeadBytes, Disk.Valid, Steppable;
    f, s, t := TwoHeaders();
    HeaderReads(f);
    OtherReads(f);
    PayloadHandled(s);
    PayloadHandled(t);
    PayloadLands(s.flash, 0);
    PayloadLands(t.flash, 1);
  }

  lemma SpecimenEnds() returns (f: Contents)
    ensures f == FILE && |f| == 2313 && PAIR.Valid() && HeaderTransfer.HeaderEnds(f, PAIR.media, true, 2312)
  {
    f := FileReads();
    Parses(f);
    PairValid();
    HeaderStarts(f, PAIR.media);
    hide Init, Parse, RdLe32, RdLe16, Disk.Valid;
  }

  /** The specimen's header in two packets of the builder: both are acknowledged with status 0, all of
      the header has been sent, and flashing has not started. */
  lemma SplitHeaderNeverStarts() returns (f: Contents, chunks: seq<seq<byte>>)
    ensures f == FILE && |f| == 2313 && PAIR.Valid() && chunks == [f[..2000], f[2000..2312]]
    ensures HeaderTransfer.PacketSized(chunks) && Concat(chunks) == f[..2312]
    ensures var r := Session.Serve(Session.Initial(PAIR, true), HeaderTransfer.BuilderMessages(chunks, 0, 0));
            !r.session.ready && |r.log| == 2 && r.log[1].replies == Session.FsShort(0, 0)
  {
    hide Session.Handle, Session.Consistent, Session.FsShort, Session.Serve, HeaderTransfer.BuilderMessages, Disk.Valid,
      HeaderTransfer.HeaderEnds, FILE;
    f := SpecimenEnds();
    chunks := [f[..2000], f[2000..2312]];
    ConcatTwo(f[..2000], f[2000..2312]);
    assert f[..2000] + f[2000..2312] == f[..2312];
    var msgs := HeaderTransfer.BuilderMessages(chunks, 0, 0);
    HeaderTransfer.BuilderStartsAtOnceOrNever(Session.Initial(PAIR, true), f, 2312, chunks, 0, 2);
    assert msgs[..2] == msgs;
  }

  lemma ConcatTwo(a: seq<byte>, b: seq<byte>)
    ensures Concat([a, b]) == a + b
  {
    assert [a, b][1..] == [b] && [b][1..] == [];
    assert Concat([b]) == b + Concat([]);
    assert b + [] == b;
  }

  /** After 2000 of the header's 2312 bytes, the packet that would begin the transfer again is refused:
      the bytes of the abandoned one still count against the total. */
  lemma RestartIsRefused() returns (f: Contents, msg: seq<byte>)
    ensures f == FILE && |f| == 2313 && PAIR.Valid() && msg == HeaderFieldBytes(0, 2312, 0, 2000) + f[..2000]
    ensures var h := Session.Handle(Session.Initial(PAIR, true), msg);
            h.replies == Session.FsShort(0, 0) && Session.Handle(h.session, msg) == Session.Short(h.session, 16, 2000)
  {
    hide Session.Handle, Session.Consistent, Session.Finish, Session.FsShort, HeaderFieldBytes,
      HeaderTransfer.HeaderPacket,
      HeaderTransfer.HeaderEnds, FILE, Disk.Valid;
    f := SpecimenEnds();
    var s0 := Session.Initial(PAIR, true);
    var front: Contents := f[..2000];
    msg := HeaderFieldBytes(0, 2312, 0, 2000) + front;
    HeaderTransfer.HeaderFieldsDecode(0, 2312, 0, front);
    var s1 := HeaderTransfer.FirstPacket(s0, msg, 2312, front);
    HeaderTransfer.FinishPrefix(s1, s0, front, 2312);
    HeaderTransfer.RestartRefused(s1, msg, 2312, front);
  }

  // ----- a repair that is refused -----

  lemma RepairStep(f: Contents, b: byte)
    requires Reads(f) && f == FILE
    ensures var s, d := Collected(FRESH, [PAYLOAD]), Disk(FAULTY.media, [0], []);
            && Steppable(s) && d.Valid()
            && var t := Step(s, d, [b]);
            && t.status == SUCCESS && t.took == 0 && t.disk.image == [PAYLOAD]
  {
    hide WriteFrom, RdLe32, RdLe16, Reads, ReadLocation, FILE, Zeros, ByteOffset;
    var s, d := Collected(FRESH, [PAYLOAD]), Disk(FAULTY.media, [0], []);
    HeaderReads(f);
    assert s.data == [PAYLOAD] by {
      assert Zeros(1) == [0];
    }
    ByteWiseValid(d);
    EntryLands(s, d, 0);
    assert [0][0 := PAYLOAD] == [PAYLOAD];
    assert Collected(s, [b][..0]) == s by {
      assert Overlay(s.data, 1, [b][..0]) == s.data;
    }
  }

  /** After the fault, the next call rewrites the specimen's only entry, leaves flashing done and the
      medium right, and is refused: its byte, whichever it is, is one too many. */
  lemma RepairIsRefused(b: byte) returns (f: Contents)
    ensures f == FILE && FAULTY.Valid() && Steppable(FRESH)
    ensures var first := Feed(FRESH, FAULTY, [PAYLOAD]);
            var again := Feed(first.stream, first.disk, [b]);
            && IsError(first.status) && first.disk.image == [0]
            && again.status == BAD_BUFFER_SIZE && Done(again.stream) && again.disk.image == [PAYLOAD]
  {
    f := FileReads();
    FaultHits(f);
    RepairStep(f, b);
    hide Step, Run, RdLe32, RdLe16, Reads, FILE;
    StreamRuns.RunEndsPlan(Collected(FRESH, [PAYLOAD]), Disk(FAULTY.media, [0], []), [b]);
  }
}
