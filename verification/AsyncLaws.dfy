/** Laws of the asynchronous sector writer: every answer reports the past, never the write it
    answers, and the medium is the fold of the writes that were valid. */
module AsyncLaws {
  import opened Bytes
  import opened BlockIo
  import opened StreamFlash
  import opened Proto
  import opened Session
  import opened SessionLaws
  import opened HeaderTransfer

  /** A NOKXFF message. */
  predicate IsAsync(msg: seq<byte>) {
    |msg| >= 6 && msg[..3] == NOK && msg[3] == 0x58 && msg[4] == 0x46 && msg[5] == 0x46
  }

  /** An accepted start, or an end. */
  predicate Resets(msg: seq<byte>) {
    IsAsync(msg) && |msg| >= 7 && ((msg[6] == 0x53 && |msg| >= 10 && msg[8] == 1 && msg[9] == 0) || msg[6] == 0x45)
  }

  predicate Writes(msg: seq<byte>) {
    IsAsync(msg) && |msg| >= 64 && msg[6] == 0x57
  }

  predicate Ends(msg: seq<byte>) {
    IsAsync(msg) && |msg| >= 7 && msg[6] == 0x45
  }

  /** A write the device looks at: its skip flag is not set. */
  predicate Counts(msg: seq<byte>) {
    Writes(msg) && !AsyncRequest(msg).skip
  }

  /** All its sectors are in the packet and on the medium. */
  predicate Acceptable(media: Media, w: SectorWrite) {
    SectorBytes(w.count, media.blockSize) <= |w.data| && SectorsFit(media, w)
  }

  datatype Verdict = Verdict(writeStatus: u32, ufp: u16)

  /** What one write comes to on a device in state d. */
  function Judge(d: Disk, commit: bool, w: SectorWrite): Verdict
    requires d.Valid()
  {
    var n := SectorBytes(w.count, d.media.blockSize);
    if !Acceptable(d.media, w) then Verdict(0, 8)
    else if !commit || n == 0 then Verdict(0, 0)
    else
      var st := WriteBlocks(d, w.start, w.data[..n]).status;
      Verdict(Wrap32(st), StatusFromEfi(st))
  }

  /** It was written, or would have been but for the dry run. */
  predicate Succeeds(d: Disk, commit: bool, w: SectorWrite)
    requires d.Valid()
  {
    var n := SectorBytes(w.count, d.media.blockSize);
    Acceptable(d.media, w) && (!commit || n == 0 || !IsError(WriteBlocks(d, w.start, w.data[..n]).status))
  }

  // ----- looking back over a history -----

  /** The verdict on the latest counting write since the latest reset, if there is one. */
  function LastVerdict(s: Session, msgs: seq<seq<byte>>): Verdict
    requires Consistent(s)
    decreases |msgs|
  {
    if msgs == [] || Resets(msgs[|msgs| - 1]) then Verdict(0, 0)
    else
      var before := msgs[..|msgs| - 1];
      if Counts(msgs[|msgs| - 1]) then Judge(Serve(s, before).session.disk, s.commit, AsyncRequest(msgs[|msgs| - 1]))
      else LastVerdict(s, before)
  }

  /** The last sector of the latest successful nonempty write since the latest reset. */
  function LastSector(s: Session, msgs: seq<seq<byte>>): u32
    requires Consistent(s)
    decreases |msgs|
  {
    if msgs == [] || Resets(msgs[|msgs| - 1]) then 0xFFFF_FFFF
    else
      var before := msgs[..|msgs| - 1];
      if Counts(msgs[|msgs| - 1]) &&
         var w := AsyncRequest(msgs[|msgs| - 1]);
         w.count != 0 && Succeeds(Serve(s, before).session.disk, s.commit, w)
      then Wrap32(AsyncRequest(msgs[|msgs| - 1]).start + AsyncRequest(msgs[|msgs| - 1]).count - 1)
      else LastSector(s, before)
  }

  // ----- one message -----

  /** A write records its verdict, and its last sector if it succeeded. */
  lemma RecordJudges(a: Async, d: Disk, commit: bool, w: SectorWrite)
    requires d.Valid() && !w.skip
    ensures var r := Record(a, d, commit, w);
            var v := Judge(d, commit, w);
            var last := if w.count != 0 && Succeeds(d, commit, w) then Wrap32(w.start + w.count - 1) else a.lastSector;
            r.async == Async(v.writeStatus, last, v.ufp)
  {
    hide WriteBlocks, SectorBytes, Disk.Valid;
    SizeNeverOverflows(w.count, d.media.blockSize);
    hide SizeOverflows;
  }

  lemma AsyncStep(s: Session, msg: seq<byte>)
    requires Consistent(s) && s.disk.Valid()
    ensures Handle(s, msg).session.commit == s.commit
    ensures Resets(msg) ==> Handle(s, msg).session.async == ASYNC_RESET
    ensures Counts(msg) ==>
              Handle(s, msg).session.async == Record(s.async, s.disk, s.commit, AsyncRequest(msg)).async
              && Handle(s, msg).session.disk == Record(s.async, s.disk, s.commit, AsyncRequest(msg)).disk
    ensures !Resets(msg) && !Counts(msg) ==> Handle(s, msg).session.async == s.async
    ensures IsAsync(msg) && !Counts(msg) ==> Handle(s, msg).session.disk == s.disk
    ensures IsAsync(msg) ==> !Handle(s, msg).exit
  {
    hide Consistent, HandleSecure, HandleLegacy, RdBe32, AsyncStartBytes, AsyncWriteBytes, AsyncEndBytes, Disk.Valid,
      SectorBytes,
      SizeOverflows, WriteBlocks;
  }

  // ----- whole runs -----

  lemma ServeOne(s: Session, msg: seq<byte>)
    requires Consistent(s)
    ensures var h := Handle(s, msg);
            Serve(s, [msg]).session == h.session && Serve(s, [msg]).exit == h.exit
  {
    hide Handle, Consistent;
    var rest: seq<seq<byte>> := [msg][1..];
    assert rest == [];
    var h := Handle(s, msg);
    assert Serve(h.session, rest) == Served(h.session, [], false);
  }

  lemma ServeLast(s: Session, msgs: seq<seq<byte>>)
    requires Consistent(s) && msgs != [] && !Serve(s, msgs).exit
    ensures var before := msgs[..|msgs| - 1];
            && !Serve(s, before).exit
            && Serve(s, msgs).session == Handle(Serve(s, before).session, msgs[|msgs| - 1]).session
  {
    hide Handle, Consistent;
    var before, m := msgs[..|msgs| - 1], msgs[|msgs| - 1];
    assert before + [m] == msgs;
    if Serve(s, before).exit {
      ServeExits(s, before, [m]);
    } else {
      ServeAppend(s, before, [m]);
      var q := Serve(s, before).session;
      ServeOne(q, m);
    }
  }

  /** The status variables are exactly what looking back over the history finds. */
  lemma {:induction false} StatusIsHistory(s: Session, msgs: seq<seq<byte>>)
    requires Consistent(s) && s.async == ASYNC_RESET && !Serve(s, msgs).exit
    ensures var t := Serve(s, msgs).session;
            var v := LastVerdict(s, msgs);
            t.async == Async(v.writeStatus, LastSector(s, msgs), v.ufp) && t.commit == s.commit
    decreases |msgs|
  {
    hide Handle, Consistent, Judge, Succeeds, Record, Resets, Counts, AsyncRequest;
    if msgs != [] {
      var before, m := msgs[..|msgs| - 1], msgs[|msgs| - 1];
      ServeLast(s, msgs);
      StatusIsHistory(s, before);
      var t := Serve(s, before).session;
      ValidDisk(t);
      AsyncStep(t, m);
      if Counts(m) && !Resets(m) {
        CountsIsWrite(m);
        RecordJudges(t.async, t.disk, t.commit, AsyncRequest(m));
      }
    }
  }

  lemma ValidDisk(s: Session)
    requires Consistent(s)
    ensures s.disk.Valid()
  {
  }

  lemma CountsIsWrite(msg: seq<byte>)
    requires Counts(msg)
    ensures |msg| >= 64 && !AsyncRequest(msg).skip && !Resets(msg)
  {
  }

  /** The status lag: over any history, the answer to a write or an end reports the verdict on the
      latest earlier write since the last reset and the last sector of the latest successful one,
      and nothing about the message it answers. */
  lemma AsyncStatusLags(disk: Disk, commit: bool, msgs: seq<seq<byte>>, msg: seq<byte>)
    requires disk.Valid() && !Serve(Initial(disk, commit), msgs).exit
    ensures var s := Initial(disk, commit);
            var t := Serve(s, msgs).session;
            var v := LastVerdict(s, msgs);
            && (Writes(msg) ==>
                  Handle(t, msg).replies ==
                  [Answer(AsyncWriteBytes(
                    AsyncRequest(msg).count, AsyncRequest(msg).start, v.writeStatus, LastSector(s, msgs), v.ufp))])
            && (Ends(msg) ==>
                  Handle(t, msg).replies == [Answer(AsyncEndBytes(v.writeStatus, LastSector(s, msgs), v.ufp))])
  {
    hide Serve, Consistent, Disk.Valid, Record, LastVerdict, LastSector, RdBe32, HandleSecure, HandleLegacy,
      AsyncStartBytes,
      AsyncWriteBytes, AsyncEndBytes;
    StatusIsHistory(Initial(disk, commit), msgs);
  }

  // ----- the medium -----

  /** A message of the legacy sector writer. */
  predicate IsLegacy(msg: seq<byte>) {
    |msg| >= 4 && msg[..3] == NOK && msg[3] == 0x46
  }

  /** A payload packet, whether or not it passes its checks. */
  predicate IsPayloadMessage(msg: seq<byte>) {
    SecureMessage(msg, SUBBLOCK_PAYLOAD_V1) || SecureMessage(msg, SUBBLOCK_PAYLOAD_V2)
      || SecureMessage(msg, SUBBLOCK_PAYLOAD_V3)
  }

  /** e is d, or d after one write request. */
  ghost predicate OneRequest(d: Disk, e: Disk)
    requires d.Valid()
  {
    e == d || exists lba: u64, buf: seq<byte> :: e == WriteBlocks(d, lba, buf).disk
  }

  lemma SectorsRequest(s: Session, msg: seq<byte>)
    requires Consistent(s) && s.disk.Valid()
    ensures |msg| >= 6 ==> OneRequest(s.disk, HandleAsync(s, msg).session.disk)
    ensures OneRequest(s.disk, HandleLegacy(s, msg).session.disk)
  {
    hide Consistent, WriteBlocks, Disk.Valid, SectorBytes, SizeOverflows, RdBe32, SectorsFit, AsyncStartBytes,
      AsyncWriteBytes,
      AsyncEndBytes, LegacyBytes;
  }

  lemma OneRequestSame(d: Disk)
    requires d.Valid()
    ensures OneRequest(d, d)
  {
  }

  lemma SecureRefused(s: Session, msg: seq<byte>)
    requires Consistent(s) && !IsHeaderMessage(msg) && !IsPayloadMessage(msg)
    requires |msg| >= 6 && msg[..3] == NOK && msg[3] == 0x58 && msg[4] == 0x46 && msg[5] == 0x53
    ensures HandleSecure(s, msg).session == s && !HandleSecure(s, msg).exit
  {
    hide Consistent, HandleHeaderV1, HandleHeaderV2, HandlePayload, RdBe32, RdBe16, FsShortBytes;
    assert msg[..4] == NOKX;
  }

  /** Apart from header and payload packets, messages touch no more than the asynchronous status and
      the disk; and the disk only if they are sector writes. */
  lemma IdleOtherwise(s: Session, msg: seq<byte>)
    requires Consistent(s) && !IsHeaderMessage(msg) && !IsPayloadMessage(msg)
    ensures var h := Handle(s, msg);
            && h.session == s.(async := h.session.async, disk := h.session.disk) && h.session.disk.media == s.disk.media
            && (!IsLegacy(msg) && !Counts(msg) ==> h.session.disk == s.disk)
            && (h.exit ==> h.replies == [] || h.replies == [Opaque])
  {
    hide Consistent, HandleHeaderV1, HandleHeaderV2, HandlePayload, WriteBlocks, Disk.Valid, SectorBytes, SizeOverflows,
      RdBe32,
      RdBe16, Steppable, AsyncStartBytes, AsyncWriteBytes, AsyncEndBytes, LegacyBytes, FsShortBytes;
    ValidDisk(s);
    if |msg| >= 4 && msg[..3] == NOK && msg[3] == 0x58 {
      assert msg[..4] == NOKX;
    }
  }

  /** And then with one request each. */
  lemma OneRequestEach(s: Session, msg: seq<byte>)
    requires Consistent(s) && s.disk.Valid() && !IsHeaderMessage(msg) && !IsPayloadMessage(msg)
    ensures OneRequest(s.disk, Handle(s, msg).session.disk)
  {
    hide Consistent, HandleSecure, HandleAsync, HandleLegacy, Disk.Valid, OneRequest, AsyncRequest, IsHeaderMessage,
      IsPayloadMessage;
    OneRequestSame(s.disk);
    SectorsRequest(s, msg);
    if |msg| >= 6 && msg[..3] == NOK && msg[3] == 0x58 && msg[4] == 0x46 && msg[5] == 0x53 {
      SecureRefused(s, msg);
    }
  }

  /** The device after one message: written to if the message is an acceptable write that counts. */
  function SectorStep(d: Disk, commit: bool, msg: seq<byte>): (r: Disk)
    requires d.Valid()
    ensures r.Valid() && r.media == d.media
  {
    if commit && Counts(msg) && Acceptable(d.media, AsyncRequest(msg)) then
      var w := AsyncRequest(msg);
      var n := SectorBytes(w.count, d.media.blockSize);
      if n == 0 then d else WriteBlocks(d, w.start, w.data[..n]).disk
    else d
  }

  /** The device after a history, every write with its scripted outcome. */
  function SectorDisk(d: Disk, commit: bool, msgs: seq<seq<byte>>): (r: Disk)
    requires d.Valid()
    ensures r.Valid() && r.media == d.media
    decreases |msgs|
  {
    if msgs == [] then d else SectorDisk(SectorStep(d, commit, msgs[0]), commit, msgs[1..])
  }

  lemma RecordWrites(a: Async, d: Disk, commit: bool, msg: seq<byte>)
    requires d.Valid() && Counts(msg)
    ensures Record(a, d, commit, AsyncRequest(msg)).disk == SectorStep(d, commit, msg)
  {
    hide WriteBlocks, SectorBytes, Disk.Valid, AsyncRequest, IsAsync, SectorsFit;
    SizeNeverOverflows(AsyncRequest(msg).count, d.media.blockSize);
    hide SizeOverflows;
  }

  /** Messages that may come between: all but those of the other two writers. */
  predicate SectorsOnly(msgs: seq<seq<byte>>) {
    forall k :: 0 <= k < |msgs| ==> !IsLegacy(msgs[k]) && !IsPayloadMessage(msgs[k])
  }

  lemma StepWrites(s: Session, msg: seq<byte>)
    requires Consistent(s) && s.disk.Valid() && !IsLegacy(msg) && !IsPayloadMessage(msg)
    ensures Handle(s, msg).session.disk == SectorStep(s.disk, s.commit, msg)
    ensures Handle(s, msg).session.commit == s.commit
  {
    AsyncStep(s, msg);
    if Counts(msg) {
      RecordWrites(s.async, s.disk, s.commit, msg);
    } else if IsHeaderMessage(msg) {
      HeaderKeepsDisk(s, msg);
    } else {
      IdleOtherwise(s, msg);
    }
    hide *;
  }

  lemma HeaderKeepsDisk(s: Session, msg: seq<byte>)
    requires Consistent(s) && IsHeaderMessage(msg)
    ensures Handle(s, msg).session.disk == s.disk && !Handle(s, msg).exit
  {
    hide Handle, HandleHeaderV1, HandleHeaderV2, Consistent;
    if SecureMessage(msg, SUBBLOCK_HEADER_V1) {
      SecureDispatch(s, msg, SUBBLOCK_HEADER_V1);
    } else {
      SecureDispatch(s, msg, SUBBLOCK_HEADER_V2);
    }
  }

  /** On any device, faulty or not, and among any messages but those of the other two writers, the
      disk is the one that the acceptable asynchronous writes make of it, in order, one by one. */
  lemma {:induction false} AsyncDisk(s: Session, msgs: seq<seq<byte>>)
    requires Consistent(s) && s.disk.Valid() && SectorsOnly(msgs)
    ensures var r := Serve(s, msgs);
            && |r.log| <= |msgs| && (!r.exit ==> |r.log| == |msgs|) && r.session.commit == s.commit
            && r.session.disk == SectorDisk(s.disk, s.commit, msgs[..|r.log|])
    decreases |msgs|
  {
    hide Handle, Consistent, SectorStep, IsLegacy, IsPayloadMessage, Disk.Valid;
    if msgs == [] {
      assert msgs[..0] == [];
    } else {
      StepWrites(s, msgs[0]);
      var h := Handle(s, msgs[0]);
      if h.exit {
        assert msgs[..1][1..] == [];
      } else {
        ValidDisk(h.session);
        AsyncDisk(h.session, msgs[1..]);
        var n := |Serve(h.session, msgs[1..]).log|;
        assert msgs[..n + 1][1..] == msgs[1..][..n];
      }
    }
  }

  /** The image after the acceptable writes of a history, in order. */
  function SectorImage(img: seq<byte>, media: Media, msgs: seq<seq<byte>>): (r: seq<byte>)
    ensures |r| == |img|
    decreases |msgs|
  {
    if msgs == [] then img
    else
      var m := msgs[0];
      var next :=
        if Counts(m) && Acceptable(media, AsyncRequest(m)) then
          var w := AsyncRequest(m);
          Splice(img, ByteOffset(w.start, media.blockSize), w.data[..SectorBytes(w.count, media.blockSize)])
        else img;
      SectorImage(next, media, msgs[1..])
  }

  /** A writable device takes every acceptable write. */
  lemma AcceptableIsTaken(d: Disk, w: SectorWrite)
    requires d.Valid() && d.Writable() && Acceptable(d.media, w) && w.count != 0
    ensures Refusal(d.media, w.start, SectorBytes(w.count, d.media.blockSize)) == SUCCESS
  {
    var m := d.media.blockSize;
    MulMonotone(w.start + w.count, d.media.lastBlock + 1, m);
    assert (w.start + w.count) * m == w.start * m + w.count * m;
    assert w.count * m == 0 + m * w.count;
    AddMultiple(0, w.count, m);
  }

  lemma EmptySplice(img: seq<byte>, off: nat, data: seq<byte>)
    requires data == []
    ensures Splice(img, off, data) == img
  {
  }

  lemma TakenWrite(d: Disk, commit: bool, msg: seq<byte>)
    requires d.Valid() && d.Writable() && d.outcomes == []
    ensures var r := SectorStep(d, commit, msg);
            && r.outcomes == []
            && r.image == if commit && Counts(msg) && Acceptable(d.media, AsyncRequest(msg))
                          then
                            var w := AsyncRequest(msg);
                            Splice(d.image, ByteOffset(w.start, d.media.blockSize),
                              w.data[..SectorBytes(w.count, d.media.blockSize)])
                          else d.image
  {
    hide Disk.Valid, ByteOffset, Splice, Refusal, SectorBytes, IsAsync, RdBe32, SectorsFit;
    if Counts(msg) && Acceptable(d.media, AsyncRequest(msg)) {
      var w := AsyncRequest(msg);
      var n := SectorBytes(w.count, d.media.blockSize);
      if n == 0 {
        EmptySplice(d.image, ByteOffset(w.start, d.media.blockSize), w.data[..n]);
      } else {
        AcceptableIsTaken(d, w);
      }
    }
  }

  lemma {:induction false} QuietSectors(d: Disk, commit: bool, msgs: seq<seq<byte>>)
    requires d.Valid() && d.Writable() && d.outcomes == []
    ensures SectorDisk(d, commit, msgs).outcomes == []
    ensures SectorDisk(d, commit, msgs).image == if commit then SectorImage(d.image, d.media, msgs) else d.image
    decreases |msgs|
  {
    hide SectorStep, Counts, Acceptable, AsyncRequest, Disk.Valid, Splice, SectorBytes;
    if msgs != [] {
      TakenWrite(d, commit, msgs[0]);
      QuietSectors(SectorStep(d, commit, msgs[0]), commit, msgs[1..]);
    }
  }

  lemma {:induction false} TrafficStays(s: Session, msgs: seq<seq<byte>>)
    requires Consistent(s) && forall k :: 0 <= k < |msgs| ==> IsAsync(msgs[k]) || IsQuery(msgs[k])
    ensures !Serve(s, msgs).exit
    decreases |msgs|
  {
    hide Handle, Consistent, IsAsync, IsQuery;
    if msgs != [] {
      ValidDisk(s);
      if IsAsync(msgs[0]) {
        AsyncStep(s, msgs[0]);
      } else {
        QueryIsIdle(s, msgs[0]);
      }
      TrafficStays(Handle(s, msgs[0]).session, msgs[1..]);
    }
  }

  /** On a device that does not fault, the image is the fold of the acceptable writes of the messages
      handled, and a dry run leaves the medium alone; asynchronous traffic and queries never end a
      session, so that then all the messages are handled. */
  lemma AsyncTraffic(s: Session, msgs: seq<seq<byte>>)
    requires Consistent(s) && s.disk.Valid() && s.disk.Writable() && s.disk.outcomes == [] && SectorsOnly(msgs)
    ensures var r := Serve(s, msgs);
            && |r.log| <= |msgs| && (!r.exit ==> |r.log| == |msgs|)
            && ((forall k :: 0 <= k < |msgs| ==> IsAsync(msgs[k]) || IsQuery(msgs[k])) ==> !r.exit)
            && r.session.disk.outcomes == [] && r.session.disk.media == s.disk.media && r.session.commit == s.commit
            && r.session.disk.image ==
               if s.commit then SectorImage(s.disk.image, s.disk.media, msgs[..|r.log|]) else s.disk.image
  {
    hide *;
    AsyncDisk(s, msgs);
    QuietSectors(s.disk, s.commit, msgs[..|Serve(s, msgs).log|]);
    if forall k :: 0 <= k < |msgs| ==> IsAsync(msgs[k]) || IsQuery(msgs[k]) {
      TrafficStays(s, msgs);
    }
  }
}
