/** The two sector writers in bytes: where a packet names its sectors and holds their data, what is
    written, and what the answers say. */
module SectorWrites {
  import opened Bytes
  import opened BlockIo
  import opened StreamFlash
  import opened Proto
  import opened Session
  import opened AsyncLaws
  import opened AnswerFields

  /** The bytes of count media blocks. */
  function BlockBytes(count: u32, media: Media): nat {
    count * media.blockSize
  }

  /** The sectors end on the medium. */
  predicate OnMedia(start: u32, count: u32, media: Media) {
    count == 0 || start + count <= media.lastBlock + 1
  }

  lemma Sectors(start: u32, count: u32, media: Media, data: seq<byte>, skip: bool)
    ensures BlockBytes(count, media) == SectorBytes(count, media.blockSize) < TWO_64
    ensures !SizeOverflows(count, media.blockSize)
    ensures SectorsFit(media, SectorWrite(start, count, skip, data)) <==> OnMedia(start, count, media)
    ensures BlockBytes(count, media) == 0 <==> count == 0 || media.blockSize == 0
  {
    SizeNeverOverflows(count, media.blockSize);
    hide SizeOverflows;
  }

  predicate IsAsyncMessage(msg: seq<byte>) {
    |msg| >= 6 && msg[..6] == ASYNC
  }

  lemma AsyncIs(s: Session, msg: seq<byte>)
    requires Consistent(s) && IsAsyncMessage(msg)
    ensures Handle(s, msg) == HandleAsync(s, msg)
  {
    hide Consistent, HandleSecure, HandleLegacy, HandleAsync;
    Beginnings(msg);
  }

  // ----- asynchronous writes -----

  /** What a write packet makes of the device and of the status: nothing if it is to be skipped; status 8
      if its data is too short or its sectors are not on the medium; else what the device says. */
  function AsyncOutcome(a: Async, d: Disk, commit: bool, msg: seq<byte>): (r: Recorded)
    requires |msg| >= 64 && d.Valid()
    ensures r.disk.Valid()
  {
    var start, count := RdBe32(msg, 12), RdBe32(msg, 16);
    var n := BlockBytes(count, d.media);
    var last: u32 := if count == 0 then a.lastSector else Wrap32(start + count - 1);
    if msg[25] == 1 then Recorded(a, d)
    else if 64 + n > |msg| || !OnMedia(start, count, d.media) then Recorded(Async(0, a.lastSector, 8), d)
    else if !commit || n == 0 then Recorded(Async(0, last, 0), d)
    else
      var w := WriteBlocks(d, start, msg[64..64 + n]);
      if w.status >= ERROR_BIT then Recorded(Async(w.status % 0x1_0000_0000, a.lastSector, w.status % 0x1_0000), w.disk)
      else Recorded(Async(w.status % 0x1_0000_0000, last, 0), w.disk)
  }

  lemma RecordInBytes(a: Async, d: Disk, commit: bool, msg: seq<byte>)
    requires |msg| >= 64 && d.Valid()
    ensures Record(a, d, commit, AsyncRequest(msg)) == AsyncOutcome(a, d, commit, msg)
  {
    hide WriteBlocks, RdBe32, Disk.Valid, Disk.Quiet, SectorBytes, BlockBytes, OnMedia, SectorsFit, SizeOverflows;
    var w := AsyncRequest(msg);
    Sectors(w.start, w.count, d.media, w.data, w.skip);
    var n := BlockBytes(w.count, d.media);
    if 64 + n <= |msg| {
      DataOfPacket(msg, n);
    }
  }

  lemma DataOfPacket(msg: seq<byte>, n: nat)
    requires 64 + n <= |msg|
    ensures msg[64..][..n] == msg[64..64 + n]
  {
  }

  /** The answer to a write packet names its count and start, and then the status of the writes before;
      the write itself follows. */
  lemma AsyncWriteAnswer(s: Session, msg: seq<byte>)
    requires Consistent(s) && s.disk.Valid() && IsAsyncMessage(msg) && |msg| >= 64 && msg[6] == 0x57
    ensures var h, o := Handle(s, msg), AsyncOutcome(s.async, s.disk, s.commit, msg);
            && !h.exit && |h.replies| == 1 && h.replies[0].Answer?
            && h.session == s.(async := o.async, disk := o.disk)
            && var m := h.replies[0].bytes;
            && |m| == 27 && m[..6] == ASYNC && m[6] == 0x57 && RdBe16(m, 7) == 0
            && RdBe32(m, 9) == RdBe32(msg, 16) && RdBe32(m, 13) == RdBe32(msg, 12)
            && RdBe32(m, 17) == s.async.writeStatus && RdBe32(m, 21) == s.async.lastSector
            && RdBe16(m, 25) == s.async.ufp
  {
    hide Handle, Consistent, RdBe32, RdBe16, AsyncWriteBytes, AsyncStartBytes, AsyncEndBytes, Record, AsyncOutcome,
      Disk.Valid;
    AsyncIs(s, msg);
    RecordInBytes(s.async, s.disk, s.commit, msg);
    AsyncWriteFields(
      RdBe32(msg, 16), RdBe32(msg, 12), s.async.writeStatus, s.async.lastSector, s.async.ufp);
  }

  /** A start packet is refused with status 8 unless bytes 8 and 9 are 1 and 0; otherwise, and at an end,
      the status is that of a writer that has written nothing. */
  lemma AsyncStartAnswer(s: Session, msg: seq<byte>)
    requires Consistent(s) && IsAsyncMessage(msg) && |msg| >= 7 && msg[6] == 0x53
    ensures var h := Handle(s, msg);
            var good := |msg| >= 10 && msg[8] == 1 && msg[9] == 0;
            && !h.exit && |h.replies| == 1 && h.replies[0].Answer?
            && h.session == (if good then s.(async := Async(0, 0xFFFF_FFFF, 0)) else s)
            && var m := h.replies[0].bytes;
            && |m| == 9 && m[..6] == ASYNC && m[6] == 0x53 && RdBe16(m, 7) == (if good then 0 else 8)
  {
    hide Handle, Consistent, RdBe32, RdBe16, AsyncWriteBytes, AsyncStartBytes, AsyncEndBytes, Record;
    AsyncIs(s, msg);
    AsyncStartFields(if |msg| >= 10 && msg[8] == 1 && msg[9] == 0 then 0 else 8);
  }

  lemma AsyncEndAnswer(s: Session, msg: seq<byte>)
    requires Consistent(s) && IsAsyncMessage(msg) && |msg| >= 7 && msg[6] == 0x45
    ensures var h := Handle(s, msg);
            && !h.exit && |h.replies| == 1 && h.replies[0].Answer?
            && h.session == s.(async := Async(0, 0xFFFF_FFFF, 0))
            && var m := h.replies[0].bytes;
            && |m| == 21 && m[..6] == ASYNC && m[6] == 0x45 && RdBe16(m, 7) == 0
            && RdBe32(m, 9) == s.async.writeStatus && RdBe32(m, 13) == s.async.lastSector
            && RdBe32(m, 17) == s.async.ufp
  {
    hide Handle, Consistent, RdBe32, RdBe16, AsyncWriteBytes, AsyncStartBytes, AsyncEndBytes, Record;
    AsyncIs(s, msg);
    AsyncEndFields(s.async.writeStatus, s.async.lastSector, s.async.ufp);
  }

  /** Any other asynchronous message is strange. */
  lemma AsyncOtherwise(s: Session, msg: seq<byte>)
    requires Consistent(s) && IsAsyncMessage(msg)
    requires |msg| < 7 || msg[6] !in {0x53, 0x57, 0x45} || (msg[6] == 0x57 && |msg| < 64)
    ensures Handle(s, msg) == Handled(s, [Answer([0x4E, 0x4F, 0x4B, 0x55])], false)
  {
    hide Handle, Consistent, RdBe32;
    AsyncIs(s, msg);
    assert NOK + [0x55] == [0x4E, 0x4F, 0x4B, 0x55];
  }

  // ----- what a device that does not fault is left with -----

  /** The image with count blocks of the packet's data, which starts at byte 64, in place of those from
      start on. */
  function Sectored(img: seq<byte>, media: Media, start: u32, count: u32, msg: seq<byte>): seq<byte>
    requires 64 + BlockBytes(count, media) <= |msg|
  {
    Splice(img, start * media.blockSize, msg[64..64 + BlockBytes(count, media)])
  }

  lemma SectorsTaken(d: Disk, start: u32, count: u32, msg: seq<byte>)
    requires d.Valid() && d.Writable() && d.outcomes == [] && 64 + BlockBytes(count, d.media) <= |msg|
    requires OnMedia(start, count, d.media) && BlockBytes(count, d.media) != 0
    ensures WriteBlocks(d, start, msg[64..64 + BlockBytes(count, d.media)]) ==
            Written(SUCCESS, d.(image := Sectored(d.image, d.media, start, count, msg)))
  {
    var w := SectorWrite(start, count, false, msg[64..]);
    Sectors(start, count, d.media, w.data, false);
    AcceptableIsTaken(d, w);
    hide Refusal, Splice, SectorBytes, BlockBytes, OnMedia, Disk.Valid;
    assert |msg[64..64 + BlockBytes(count, d.media)]| == BlockBytes(count, d.media);
  }

  lemma NoSectors(d: Disk, start: u32, count: u32, msg: seq<byte>)
    requires BlockBytes(count, d.media) == 0 && |msg| >= 64
    ensures Sectored(d.image, d.media, start, count, msg) == d.image
  {
  }

  /** On a writable device without faults, the blocks that byte 12 names as the start and byte 16 counts
      become the data behind byte 64, if there is enough of it and they are on the medium, unless byte 25
      is 1 or the run is a dry one; and nothing else ever changes. */
  lemma AsyncWriteLands(s: Session, msg: seq<byte>)
    requires Consistent(s) && s.disk.Valid() && s.disk.Writable() && s.disk.outcomes == []
    requires IsAsyncMessage(msg) && |msg| >= 64 && msg[6] == 0x57
    ensures var start, count := RdBe32(msg, 12), RdBe32(msg, 16);
            var good := msg[25] != 1 && 64 + BlockBytes(count, s.disk.media) <= |msg|
              && OnMedia(start, count, s.disk.media);
            Handle(s, msg).session.disk ==
            if good && s.commit then s.disk.(image := Sectored(s.disk.image, s.disk.media, start, count, msg))
            else s.disk
  {
    hide Handle, Consistent, RdBe32, RdBe16, WriteBlocks, Sectored, BlockBytes, OnMedia, Disk.Valid;
    AsyncWriteAnswer(s, msg);
    var start, count := RdBe32(msg, 12), RdBe32(msg, 16);
    if 64 + BlockBytes(count, s.disk.media) <= |msg| && OnMedia(start, count, s.disk.media) {
      if BlockBytes(count, s.disk.media) == 0 {
        NoSectors(s.disk, start, count, msg);
      } else {
        SectorsTaken(s.disk, start, count, msg);
      }
    }
  }

  // ----- legacy writes -----

  datatype LegacyOutcome = LegacyOutcome(status: u16, count: u32, specifier: u32, disk: Disk)

  /** What a legacy write makes of the device, and its answer. */
  function LegacyWrite(d: Disk, commit: bool, msg: seq<byte>): (r: LegacyOutcome)
    requires d.Valid()
    ensures r.disk.Valid()
  {
    if |msg| < 26 then LegacyOutcome(8, 0, 0, d)
    else
      var start, count := RdBe32(msg, 11), RdBe32(msg, 15);
      var n := BlockBytes(count, d.media);
      if msg[25] == 1 then LegacyOutcome(0, count, 0, d)
      else if 64 + n > |msg| then LegacyOutcome(8, count, n % 0x1_0000_0000, d)
      else if !OnMedia(start, count, d.media) then LegacyOutcome(8, count, count, d)
      else if !commit || n == 0 then LegacyOutcome(0, count, 0, d)
      else
        var w := WriteBlocks(d, start, msg[64..64 + n]);
        if w.status >= ERROR_BIT then LegacyOutcome(w.status % 0x1_0000, count, w.status % 0x1_0000_0000, w.disk)
        else LegacyOutcome(0, count, 0, w.disk)
  }

  lemma LegacyIs(s: Session, msg: seq<byte>)
    requires Consistent(s) && |msg| >= 4 && msg[..4] == LEGACY
    ensures Handle(s, msg) == HandleLegacy(s, msg)
  {
    hide Consistent, HandleSecure, HandleLegacy, HandleAsync;
    Beginnings(msg);
  }

  lemma LegacyInBytes(s: Session, msg: seq<byte>)
    requires Consistent(s) && s.disk.Valid()
    ensures var o := LegacyWrite(s.disk, s.commit, msg);
            HandleLegacy(s, msg) ==
            Handled(s.(disk := o.disk), [Answer(LegacyBytes(o.status, o.count, o.specifier))], false)
  {
    hide Consistent, WriteBlocks, RdBe32, Disk.Valid, SectorBytes, BlockBytes, OnMedia, SectorsFit, SizeOverflows,
      LegacyBytes;
    if |msg| >= 26 {
      var start, count := RdBe32(msg, 11), RdBe32(msg, 15);
      Sectors(start, count, s.disk.media, if |msg| < 64 then [] else msg[64..], msg[25] == 1);
      if 64 + BlockBytes(count, s.disk.media) <= |msg| {
        DataOfPacket(msg, BlockBytes(count, s.disk.media));
      }
    }
  }

  /** The legacy writer answers each write with its own outcome: the start is at byte 11, the count at
      byte 15, the data at byte 64, and byte 25 asks to skip it. */
  lemma LegacyAnswer(s: Session, msg: seq<byte>)
    requires Consistent(s) && s.disk.Valid() && |msg| >= 4 && msg[..4] == LEGACY
    ensures var h, o := Handle(s, msg), LegacyWrite(s.disk, s.commit, msg);
            && !h.exit && |h.replies| == 1 && h.replies[0].Answer? && h.session == s.(disk := o.disk)
            && var m := h.replies[0].bytes;
            && |m| == 18 && m[..4] == LEGACY && RdBe16(m, 5) == o.status && RdBe32(m, 10) == o.count
            && RdBe32(m, 14) == o.specifier
  {
    hide Handle, HandleLegacy, Consistent, RdBe32, RdBe16, LegacyBytes, LegacyWrite, Disk.Valid;
    LegacyIs(s, msg);
    LegacyInBytes(s, msg);
    var o := LegacyWrite(s.disk, s.commit, msg);
    LegacyFields(o.status, o.count, o.specifier);
  }

  lemma LegacyWriteLands(s: Session, msg: seq<byte>)
    requires Consistent(s) && s.disk.Valid() && s.disk.Writable() && s.disk.outcomes == []
    requires |msg| >= 26 && msg[..4] == LEGACY
    ensures var start, count := RdBe32(msg, 11), RdBe32(msg, 15);
            var good := msg[25] != 1 && 64 + BlockBytes(count, s.disk.media) <= |msg|
              && OnMedia(start, count, s.disk.media);
            Handle(s, msg).session.disk ==
            if good && s.commit then s.disk.(image := Sectored(s.disk.image, s.disk.media, start, count, msg))
            else s.disk
  {
    hide Handle, Consistent, RdBe32, RdBe16, WriteBlocks, Sectored, BlockBytes, OnMedia, Disk.Valid;
    LegacyAnswer(s, msg);
    var start, count := RdBe32(msg, 11), RdBe32(msg, 15);
    if 64 + BlockBytes(count, s.disk.media) <= |msg| && OnMedia(start, count, s.disk.media) {
      if BlockBytes(count, s.disk.media) == 0 {
        NoSectors(s.disk, start, count, msg);
      } else {
        SectorsTaken(s.disk, start, count, msg);
      }
    }
  }
}
