/** usb_secure_flash_loop (src/main.c) in its own form: an object with the loop's variables, whose
    methods receive messages and update header buffer, flash context, asynchronous status and
    device in place. Every method is proved to do what the machine of module Session does. */
module SessionLoop {
  import opened Bytes
  import opened BlockIo
  import opened Memory
  import opened StreamFlash
  import opened Proto
  import opened Session

  /** HandleHeaderV2 behind the checks of total and options. */
  lemma ChunkedForm(s: Session, msg: seq<byte>)
    requires Consistent(s) && |msg| >= 60 && s.received as int + RdBe32(msg, 33) as int <= RdBe32(msg, 24)
    requires msg[28] < 0x40 && (msg[28] == 0 || msg[37] == 0)
    ensures var total, offset, n := RdBe32(msg, 24), RdBe32(msg, 29), RdBe32(msg, 33);
            HandleHeaderV2(s, msg) ==
            if n > MAX_HEADER_DATA || |msg| < 60 + n then Short(s, 16, n)
            else if offset != 0 && s.header == None then Short(s, 8, offset)
            else
              var s1 := if offset == 0 then Restarted(s) else s;
              var need := s1.received as int + n as int;
              Store(s1, need, if total == 0 then need else total, s1.received, msg[60..60 + n], true)
  {
    hide Store, Restarted, Consistent, RdBe32;
  }

  class SecureFlashLoop {
    const bio: BlockDevice
    const commit: bool
    const flash: FfuStreamFlash
    var header: array?<byte>
    var headerSize: nat
    var received: u32
    var ready: bool
    var asyncWriteStatus: u32
    var asyncLastSector: u32
    var asyncUfp: u16

    /** The objects this loop may change. */
    function Repr(): set<object>
      reads this, flash
    {
      {this, flash, bio}
      + (if header == null then {} else {header})
      + (if flash.entryData == null then {} else {flash.entryData})
    }

    predicate Intact()
      reads this, flash
    {
      && flash.Valid() && flash.bio == bio
      && (if header == null then headerSize == 0 else headerSize <= header.Length)
      && (flash.entryData != null ==> flash.entryData != header)
    }

    /** The value of the loop's variables. The flash context aliases the buffer it was started on. */
    function View(): Session
      requires Intact()
      reads this, flash, bio, header, flash.header, flash.entryData
    {
      Session(
        if header == null then None else Some(header[..]), headerSize, received, ready, flash.View(),
        header != null && flash.header == header,
        Async(asyncWriteStatus, asyncLastSector, asyncUfp), bio.State(), commit)
    }

    predicate Valid()
      reads this, flash, bio, header, flash.header, flash.entryData
    {
      Intact() && Consistent(View())
    }

    constructor (bio: BlockDevice, commit: bool)
      requires bio.State().Valid()
      ensures Valid() && fresh(Repr() - {bio})
      ensures View() == Initial(bio.State(), commit) && this.bio == bio
    {
      this.bio, this.commit := bio, commit;
      flash := new FfuStreamFlash(bio);
      header, headerSize, received, ready := null, 0, 0, false;
      asyncWriteStatus, asyncLastSector, asyncUfp := 0, 0xFFFF_FFFF, 0;
    }

    /** The allocation of a larger header buffer. */
    method Grow(ghost need: nat, ghost complete: nat, newCap: nat)
      requires Valid() && need < TWO_64 / 2 && complete < TWO_64 / 2
      requires MustGrow(View(), need, complete) && newCap == CapacityFor(need, complete) <= MAX_HEADER
      modifies this`header
      ensures Valid() && header != null && fresh(header) && fresh(Repr() - old(Repr()))
      ensures View() == Grown(old(View()), need, complete)
    {
      hide CapacityFor, Steppable, Disk.Valid, Multiple;
      var buffer := new byte[newCap](i => 0);
      ghost var s := View();
      assert Grown(s, need, complete).header.Some?;
      if header != null {
        MemCpy(buffer, 0, header[..headerSize]);
      }
      ghost var front := if s.header.Some? then s.header.value[..s.headerSize] else [];
      assert buffer[..] == front + Zeros(newCap - |front|);
      header := buffer;
      assert View() == Grown(s, need, complete);
    }

    /** The memcpy of a header chunk. */
    method PasteChunk(copyAt: nat, chunk: seq<byte>)
      requires Valid() && copyAt + |chunk| <= Capacity(View())
      modifies header
      ensures Valid() && Repr() == old(Repr()) && View() == Pasted(old(View()), copyAt, chunk)
    {
      hide Steppable, Disk.Valid, Multiple;
      ghost var s := View();
      if header != null {
        MemCpy(header, copyAt, chunk);
        assert header[..] == Overlay(s.header.value, copyAt, chunk);
      }
      assert View() == Pasted(s, copyAt, chunk);
    }

    /** The sizes behind it. */
    method CountChunk(need: nat, v2: bool)
      requires Valid() && need <= Capacity(View())
      requires v2 || received == 0
      modifies this`headerSize, this`received
      ensures Valid() && Repr() == old(Repr()) && View() == Counted(old(View()), need, v2)
    {
      hide Steppable, Disk.Valid, Multiple;
      ghost var s := View();
      if need > headerSize {
        headerSize := need;
      }
      if v2 {
        received := need;
      }
      assert View() == Counted(s, need, v2);
    }

    /** A chunk that fits, copied and accounted for. */
    method CopyChunk(need: nat, copyAt: nat, chunk: seq<byte>, v2: bool)
      requires Valid() && need == copyAt + |chunk| <= Capacity(View())
      requires v2 || received == 0
      modifies header, this`headerSize, this`received
      ensures Valid() && Repr() == old(Repr()) && View() == Copied(old(View()), need, copyAt, chunk, v2)
    {
      hide Pasted, Counted, Steppable, Disk.Valid, Multiple;
      PasteChunk(copyAt, chunk);
      CountChunk(need, v2);
    }

    /** ffu_stream_flash_init on the first n bytes of the header buffer, and the answer to the packet. */
    method BeginFlash(n: nat) returns (replies: seq<Reply>)
      requires Valid() && !ready && n <= headerSize
      modifies this`ready, flash
      ensures Valid() && fresh(Repr() - old(Repr()))
      ensures Handled(View(), replies, false) == Begin(old(View()), n)
    {
      hide Init, Steppable, Disk.Valid;
      if header == null {
        replies := FsShort(StatusFromEfi(INVALID_PARAMETER), Wrap32(INVALID_PARAMETER));
        return;
      }
      ghost var s := View();
      assert s.header.value[..n] == header[..n];
      var st := flash.Start(header, n, commit);
      if st == SUCCESS {
        ready := true;
        replies := FsShort(0, 0);
      } else {
        replies := FsShort(StatusFromEfi(st), Wrap32(st));
      }
      assert Handled(View(), replies, false) == Begin(s, n);
    }

    /** The end of a header packet: acknowledge, or start flashing. */
    method FinishChunk(complete: nat, v2: bool) returns (replies: seq<Reply>)
      requires Valid()
      modifies this`received, this`ready, flash
      ensures Valid() && fresh(Repr() - old(Repr()))
      ensures Handled(View(), replies, false) == Finish(old(View()), complete, v2)
    {
      hide Begin, Steppable, Disk.Valid;
      ghost var s := View();
      if complete != 0 && headerSize < complete {
        return FsShort(0, 0);
      }
      if v2 {
        received := 0;
      }
      assert View() == s.(received := received);
      if !ready {
        replies := BeginFlash(if complete != 0 then complete else headerSize);
      } else {
        replies := FsShort(0, 0);
      }
    }

    /** A buffer that holds what is needed, or the capacity that would be too large. */
    method Reserve(need: nat, complete: nat) returns (tooLarge: bool, newCap: nat)
      requires Valid() && need < TWO_64 / 2 && complete < TWO_64 / 2
      modifies this`header
      ensures Valid() && fresh(Repr() - old(Repr())) && tooLarge == TooLarge(old(View()), need, complete)
      ensures if tooLarge then newCap == CapacityFor(need, complete) && Repr() == old(Repr()) && View() == old(View())
              else View() == Reserved(old(View()), need, complete)
    {
      hide Grown, CapacityFor, Steppable, Disk.Valid, Multiple;
      var headerCap := if header == null then 0 else header.Length;
      tooLarge, newCap := false, 0;
      if need > headerCap || complete > headerCap {
        newCap := CapacityFor(need, complete);
        if newCap > MAX_HEADER {
          return true, newCap;
        }
        Grow(need, complete, newCap);
      }
    }

    /** The common tail of both header forms. */
    method StoreChunk(need: nat, complete: nat, copyAt: nat, chunk: seq<byte>, v2: bool) returns (replies: seq<Reply>)
      requires Valid() && need == copyAt + |chunk| && need < 2 * TWO_32 && complete < TWO_32
      requires complete == 0 ==> need == 0
      requires v2 || received == 0
      modifies Repr()
      ensures Valid() && fresh(Repr() - old(Repr()))
      ensures Handled(View(), replies, false) == Store(old(View()), need, complete, copyAt, chunk, v2)
    {
      hide Reserved, TooLarge, Copied, Finish, CapacityFor, Consistent, FsShortBytes, Wrap32;
      var tooLarge, newCap := Reserve(need, complete);
      if tooLarge {
        return FsShort(4, Wrap32(newCap));
      }
      CopyChunk(need, copyAt, chunk, v2);
      replies := FinishChunk(complete, v2);
    }

    method OnHeaderV1(msg: seq<byte>) returns (replies: seq<Reply>)
      requires Valid() && |msg| >= 16
      modifies Repr()
      ensures Valid() && fresh(Repr() - old(Repr()))
      ensures Handled(View(), replies, false) == HandleHeaderV1(old(View()), msg)
    {
      hide Store, Steppable, Disk.Valid, RdBe32, FsShortBytes, Wrap32, Multiple, StatusFromEfi;
      if |msg| < 32 {
        replies := FsShort(8, Wrap32(|msg|));
        return;
      }
      var subblockLen, chunkLen := RdBe32(msg, 16), RdBe32(msg, 24);
      if subblockLen != Wrap32(chunkLen as int + 12) {
        replies := FsShort(16, subblockLen);
        return;
      }
      received := 0;
      assert View() == old(View()).(received := 0) && Valid();
      var options, eraseOptions := msg[28], msg[29];
      if options >= 0x40 {
        replies := FsShort(8, options);
      } else if eraseOptions != 0 {
        replies := FsShort(8, eraseOptions);
      } else if chunkLen > MAX_HEADER_DATA || |msg| < 32 + chunkLen {
        replies := FsShort(16, chunkLen);
      } else {
        assert HandleHeaderV1(old(View()), msg) == Store(View(), chunkLen, chunkLen, 0, msg[32..32 + chunkLen], false);
        replies := StoreChunk(chunkLen, chunkLen, 0, msg[32..32 + chunkLen], false);
      }
    }

    /** Offset 0 of a chunked transfer. */
    method Restart()
      requires Valid()
      modifies this`header, this`headerSize, this`received
      ensures Valid() && Repr() <= old(Repr())
      ensures View() == Restarted(old(View()))
    {
      if !ready && header != null {
        header := null;
        headerSize := 0;
      }
      received := 0;
    }

    /** A chunked header packet whose total and options are good. */
    method TakeHeaderV2(msg: seq<byte>) returns (replies: seq<Reply>)
      requires Valid() && |msg| >= 60 && received as int + RdBe32(msg, 33) as int <= RdBe32(msg, 24)
      requires msg[28] < 0x40 && (msg[28] == 0 || msg[37] == 0)
      modifies Repr()
      ensures Valid() && fresh(Repr() - old(Repr()))
      ensures Handled(View(), replies, false) == HandleHeaderV2(old(View()), msg)
    {
      hide Store, Restarted, HandleHeaderV2, Consistent, RdBe32, FsShortBytes, Wrap32;
      ghost var want := HandleHeaderV2(View(), msg);
      ChunkedForm(View(), msg);
      var totalLen, fileOffset, chunkLen := RdBe32(msg, 24), RdBe32(msg, 29), RdBe32(msg, 33);
      if chunkLen > MAX_HEADER_DATA || |msg| < 60 + chunkLen {
        replies := FsShort(16, chunkLen);
        return;
      }
      if fileOffset == 0 {
        Restart();
      } else if header == null {
        replies := FsShort(8, fileOffset);
        return;
      }
      assert View() == if fileOffset == 0 then Restarted(old(View())) else old(View());
      var need := received as int + chunkLen as int;
      assert want == Store(
        View(), need, if totalLen == 0 then need else totalLen, received, msg[60..60 + chunkLen], true);
      replies := StoreChunk(need, if totalLen == 0 then need else totalLen, received, msg[60..60 + chunkLen], true);
    }

    method OnHeaderV2(msg: seq<byte>) returns (replies: seq<Reply>)
      requires Valid() && |msg| >= 16
      modifies Repr()
      ensures Valid() && fresh(Repr() - old(Repr()))
      ensures Handled(View(), replies, false) == HandleHeaderV2(old(View()), msg)
    {
      hide Store, Restarted, Consistent, RdBe32, FsShortBytes, Wrap32;
      if |msg| < 60 {
        replies := FsShort(8, Wrap32(|msg|));
        return;
      }
      var totalLen, chunkLen := RdBe32(msg, 24), RdBe32(msg, 33);
      if received as int + chunkLen as int > totalLen {
        replies := FsShort(16, chunkLen);
        return;
      }
      var options, eraseOptions := msg[28], msg[37];
      if options != 0 {
        if options >= 0x40 {
          replies := FsShort(8, options);
          return;
        }
        if eraseOptions != 0 {
          replies := FsShort(8, eraseOptions);
          return;
        }
      }
      replies := TakeHeaderV2(msg);
    }

    // Answers built in a local buffer and sent from it.

    static method SendStatus(status: u16, specifier: u32, last: u32, finalState: byte) returns (replies: seq<Reply>)
      ensures replies == [Answer(SecureStatusBytes(status, specifier, 0xFFFF_FFFF, last, finalState))]
    {
      var resp := new byte[64];
      var n := BuildSecureStatusResponse(resp, status, specifier, 0xFFFF_FFFF, last, finalState);
      replies := [Answer(resp[..n])];
    }

    static method SendAsyncStart(status: u16) returns (replies: seq<Reply>)
      ensures replies == [Answer(AsyncStartBytes(status))]
    {
      var resp := new byte[64];
      var n := BuildAsyncStartResponse(resp, status);
      replies := [Answer(resp[..n])];
    }

    static method SendAsyncWrite(count: u32, start: u32, writeStatus: u32, last: u32, ufp: u16)
      returns (replies: seq<Reply>)
      ensures replies == [Answer(AsyncWriteBytes(count, start, writeStatus, last, ufp))]
    {
      var resp := new byte[64];
      var n := BuildAsyncWriteStatus(resp, count, start, writeStatus, last, ufp);
      replies := [Answer(resp[..n])];
    }

    static method SendAsyncEnd(writeStatus: u32, last: u32, ufp: u32) returns (replies: seq<Reply>)
      ensures replies == [Answer(AsyncEndBytes(writeStatus, last, ufp))]
    {
      var resp := new byte[64];
      var n := BuildAsyncEndResponse(resp, writeStatus, last, ufp);
      replies := [Answer(resp[..n])];
    }

    /** WriteBlocks on the loop's device. */
    method WriteSectors(start: u32, data: seq<byte>) returns (st: u64)
      requires Valid()
      modifies bio
      ensures Valid() && Repr() == old(Repr())
      ensures var s := old(View());
              var w := WriteBlocks(s.disk, start, data);
              st == w.status && View() == s.(disk := w.disk)
    {
      hide WriteBlocks, Steppable, Disk.Valid, Multiple;
      ghost var s := View();
      st := bio.Write(start, data);
      assert View() == s.(disk := bio.State());
    }

    /** The three asynchronous status variables. */
    method SetAsync(writeStatus: u32, lastSector: u32, ufp: u16)
      requires Valid()
      modifies this`asyncWriteStatus, this`asyncLastSector, this`asyncUfp
      ensures Valid() && Repr() == old(Repr())
      ensures View() == old(View()).(async := Async(writeStatus, lastSector, ufp))
    {
      hide Steppable, Disk.Valid, Multiple;
      ghost var s := View();
      asyncWriteStatus, asyncLastSector, asyncUfp := writeStatus, lastSector, ufp;
      assert View() == s.(async := Async(writeStatus, lastSector, ufp));
    }

    /** Payload data for a started flash context. */
    method FeedFlash(data: seq<byte>) returns (st: u64)
      requires Valid() && ready
      modifies flash, bio, flash.entryData
      ensures Valid() && Repr() == old(Repr())
      ensures var s := old(View());
              var r := Feed(s.flash, s.disk, data);
              st == r.status && View() == s.(flash := r.stream, disk := r.disk)
    {
      hide Feed, Steppable, Disk.Valid;
      ghost var s := View();
      FeedKeepsHeader(s, data);
      st := flash.Payload(data);
    }

    /** Payload data that has passed its checks, and the answer built for it. */
    method DeliverData(data: seq<byte>, progress: byte) returns (replies: seq<Reply>, exit: bool)
      requires Valid()
      modifies Repr()
      ensures Valid() && fresh(Repr() - old(Repr()))
      ensures Handled(View(), replies, exit) == Deliver(old(View()), data, progress)
    {
      hide Feed, Disk.Valid, SecureStatusBytes, Steppable, Multiple, Wrap32;
      ghost var s := View();
      var ufpStatus: u16, specifier: u32, finalState: byte := 0, 0, 0;
      if !ready {
        ufpStatus := 6;
      } else if data != [] {
        var st := FeedFlash(data);
        if IsError(st) {
          ufpStatus := StatusFromEfi(st);
          specifier := Wrap32(st);
        }
      }
      ghost var t := View();
      if progress == 100 {
        finalState := if flash.entryIndex >= |flash.plan.entries| && flash.entryReceived == 0 then 1 else 0;
        if finalState == 0 && ufpStatus == 0 {
          ufpStatus := 8;
        }
      }
      exit := finalState == 1 && ufpStatus == 0;
      replies := SendStatus(ufpStatus, specifier, flash.lastSector, finalState);
      assert View() == t;
    }

    method OnPayload(msg: seq<byte>, protocol: u16, subblock: u32) returns (replies: seq<Reply>, exit: bool)
      requires Valid() && |msg| >= 16
      modifies Repr()
      ensures Valid() && fresh(Repr() - old(Repr()))
      ensures Handled(View(), replies, exit) == HandlePayload(old(View()), msg, protocol, subblock)
    {
      hide Deliver, Consistent, RdBe32, FsShortBytes, Wrap32;
      exit := false;
      if |msg| < 25 {
        replies := FsShort(8, Wrap32(|msg|));
        return;
      }
      var subblockLen, dataLen, options := RdBe32(msg, 16), RdBe32(msg, 20), msg[24];
      var form := FormOf(subblock, protocol);
      if subblockLen != Wrap32(dataLen as int + form.overhead) {
        replies := FsShort(16, subblockLen);
      } else if options >= 2 {
        replies := FsShort(8, options);
      } else if !form.speaks {
        replies := FsShort(8, protocol);
      } else if dataLen > MAX_PAYLOAD_DATA || |msg| < form.offset + dataLen {
        replies := FsShort(16, dataLen);
      } else {
        replies, exit := DeliverData(msg[form.offset..form.offset + dataLen], msg[8]);
      }
    }

    /** A NOKXFS message. */
    method OnSecure(msg: seq<byte>) returns (replies: seq<Reply>, exit: bool)
      requires Valid()
      modifies Repr()
      ensures Valid() && fresh(Repr() - old(Repr()))
      ensures Handled(View(), replies, exit) == HandleSecure(old(View()), msg)
    {
      hide HandleHeaderV1, HandleHeaderV2, HandlePayload;
      exit := false;
      if |msg| < 16 {
        replies := FsShort(8, Wrap32(|msg|));
        return;
      }
      var protocol, subblock := RdBe16(msg, 6), RdBe32(msg, 12);
      if protocol == 0 || protocol >= 32 {
        replies := FsShort(8, protocol);
      } else if msg[11] != 1 {
        replies := FsShort(15, msg[11]);
      } else if subblock == SUBBLOCK_HEADER_V1 {
        replies := OnHeaderV1(msg);
      } else if subblock == SUBBLOCK_HEADER_V2 {
        replies := OnHeaderV2(msg);
      } else if subblock == SUBBLOCK_PAYLOAD_V1 || subblock == SUBBLOCK_PAYLOAD_V2 || subblock == SUBBLOCK_PAYLOAD_V3 {
        replies, exit := OnPayload(msg, protocol, subblock);
      } else {
        replies := FsShort(14, subblock);
      }
    }

    /** The write an asynchronous packet asks for. */
    method RecordWrite(w: SectorWrite)
      requires Valid()
      modifies this`asyncWriteStatus, this`asyncLastSector, this`asyncUfp, bio
      ensures Valid() && Repr() == old(Repr())
      ensures var s := old(View());
              var r := Record(s.async, s.disk, s.commit, w);
              View() == s.(async := r.async, disk := r.disk)
    {
      hide WriteBlocks, SectorBytes, Consistent, StatusFromEfi, SizeOverflows;
      if w.skip {
        return;
      }
      var n := SectorBytes(w.count, bio.media.blockSize);
      if SizeOverflows(w.count, bio.media.blockSize) {
        SetAsync(0, asyncLastSector, 8);
      } else if |w.data| < n {
        SetAsync(0, asyncLastSector, 8);
      } else if !SectorsFit(bio.media, w) {
        SetAsync(0, asyncLastSector, 8);
      } else if commit && n != 0 {
        var st := WriteSectors(w.start, w.data[..n]);
        SetAsync(
          Wrap32(st), if !IsError(st) && w.count != 0 then Wrap32(w.start + w.count - 1) else asyncLastSector,
          StatusFromEfi(st));
      } else {
        SetAsync(0, if w.count != 0 then Wrap32(w.start + w.count - 1) else asyncLastSector, 0);
      }
    }

    method OnAsync(msg: seq<byte>) returns (replies: seq<Reply>)
      requires Valid() && |msg| >= 6
      modifies Repr()
      ensures Valid() && fresh(Repr() - old(Repr()))
      ensures Handled(View(), replies, false) == HandleAsync(old(View()), msg)
    {
      hide Record, Consistent, RdBe32, AsyncStartBytes, AsyncWriteBytes, AsyncEndBytes;
      if |msg| >= 7 && msg[6] == 0x53 {
        var startStatus: u16 := 0;
        if |msg| < 10 || msg[8] != 1 || msg[9] != 0 {
          startStatus := 8;
        } else {
          SetAsync(0, 0xFFFF_FFFF, 0);
        }
        replies := SendAsyncStart(startStatus);
      } else if |msg| >= 64 && msg[6] == 0x57 {
        var w := AsyncRequest(msg);
        replies := SendAsyncWrite(w.count, w.start, asyncWriteStatus, asyncLastSector, asyncUfp);
        RecordWrite(w);
      } else if |msg| >= 7 && msg[6] == 0x45 {
        replies := SendAsyncEnd(asyncWriteStatus, asyncLastSector, asyncUfp);
        SetAsync(0, 0xFFFF_FFFF, 0);
      } else {
        replies := [Answer(NOK + [0x55])];
      }
    }

    /** handle_legacy_flash */
    method OnLegacy(msg: seq<byte>) returns (replies: seq<Reply>)
      requires Valid()
      modifies Repr()
      ensures Valid() && fresh(Repr() - old(Repr()))
      ensures Handled(View(), replies, false) == HandleLegacy(old(View()), msg)
    {
      hide WriteBlocks, SectorBytes, Consistent, RdBe32, LegacyBytes, SizeOverflows;
      if |msg| < 26 {
        return [Answer(LegacyBytes(8, 0, 0))];
      }
      var status: u16, specifier: u32 := 0, 0;
      var start, count := RdBe32(msg, 11), RdBe32(msg, 15);
      var n := SectorBytes(count, bio.media.blockSize);
      if SizeOverflows(count, bio.media.blockSize) {
        status, specifier := 8, count;
      } else if msg[25] != 1 {
        if |msg| < 64 || |msg| - 64 < n {
          status, specifier := 8, Wrap32(n);
        } else if count != 0 && start + count - 1 > bio.media.lastBlock {
          status, specifier := 8, count;
        } else if commit && n != 0 {
          var st := WriteSectors(start, msg[64..][..n]);
          if IsError(st) {
            status, specifier := StatusFromEfi(st), Wrap32(st);
          }
        }
      }
      replies := [Answer(LegacyBytes(status, count, specifier))];
    }

    /** One turn of the loop. */
    method OnMessage(msg: seq<byte>) returns (replies: seq<Reply>, exit: bool)
      requires Valid()
      modifies Repr()
      ensures Valid() && fresh(Repr() - old(Repr()))
      ensures Handled(View(), replies, exit) == Handle(old(View()), msg)
    {
      hide HandleLegacy, HandleAsync, HandleSecure, Consistent;
      exit := false;
      if |msg| < 4 {
        return [], false;
      }
      if msg[0] != 0x4E || msg[1] != 0x4F || msg[2] != 0x4B {
        return [Answer(NOK + [0x55])], false;
      }
      assert msg[..3] == NOK;
      if msg[3] == 0x49 {
        replies := [Answer(NOK + [0x49])];
      } else if msg[3] == 0x56 {
        replies := [Opaque];
      } else if msg[3] == 0x52 || msg[3] == 0x4D || msg[3] == 0x5A {
        return [], true;
      } else if msg[3] == 0x53 || msg[3] == 0x4E {
        replies := [];
      } else if msg[3] == 0x54 {
        replies := [Opaque];
      } else if msg[3] == 0x46 {
        replies := OnLegacy(msg);
      } else if |msg| < 6 || msg[3] != 0x58 {
        replies := [Answer(NOK + [0x55])];
      } else if msg[4] == 0x43 {
        var mode := if msg[5] == 0x42 && |msg| > 6 then msg[6] else 0;
        return [Opaque], msg[5] == 0x42 && mode == 0x52;
      } else if msg[4] == 0x46 && msg[5] in {0x52, 0x57, 0x49, 0x4F, 0x54, 0x58} {
        replies := [Opaque];
      } else if msg[4] == 0x46 && msg[5] == 0x46 {
        replies := OnAsync(msg);
      } else if msg[4] != 0x46 || msg[5] != 0x53 {
        replies := [Answer(NOK + [0x55])];
      } else {
        replies, exit := OnSecure(msg);
      }
    }

    /** The loop over the messages received before receiving fails. */
    method Run(msgs: seq<seq<byte>>) returns (log: seq<Exchange>, exit: bool)
      requires Valid()
      modifies Repr()
      ensures Valid() && fresh(Repr() - old(Repr()))
      ensures Served(View(), log, exit) == Serve(old(View()), msgs)
    {
      hide Handle, Consistent, Serve, Resumed;
      log, exit := [], false;
      ghost var s := View();
      Resuming(s, msgs);
      var i := 0;
      while i < |msgs|
        invariant i <= |msgs| && Valid() && fresh(Repr() - old(Repr())) && !exit
        invariant Serve(s, msgs) == Resumed(log, Serve(View(), msgs[i..]))
      {
        ServeTurn(View(), msgs, i, log);
        var replies, last := OnMessage(msgs[i]);
        log := log + [Exchange(msgs[i], replies)];
        if last {
          return log, true;
        }
        i := i + 1;
      }
      assert msgs[i..] == [];
      ServeNothing(View(), log);
    }
  }
}
