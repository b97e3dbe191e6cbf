/** The streaming flasher of src/ffu.c: a resumable machine that collects payload bytes into a
    one-entry buffer and writes the entry to all its disk locations once it is complete.
    Functions give the machine on values; class FfuStreamFlash updates its fields the way the
    source does and is proved to follow them. */
module StreamFlash {
  import opened Bytes
  import opened BlockIo
  import opened FfuLayout
  import opened Memory
  import FfuParser

  datatype Stream = Stream(
    plan: Plan, header: seq<byte>, data: seq<byte>, index: nat, received: nat,
    mediaBlock: u32, dryRun: bool, finalState: u32, lastSector: u32)

  /** A context after memset(ctx, 0, sizeof(*ctx)). */
  const ZEROED := Stream(EMPTY_PLAN, [], [], 0, 0, 0, false, 0, 0)

  // ----- locations -----

  datatype Location = Location(accessMethod: u32, block: u32)

  /** read_location and read_location_mem */
  function ReadLocation(src: Source, header: seq<byte>, e: WriteEntry, l: nat): Result<Location> {
    var loc :- ReadExact(src, header, e.descriptorOffset + 8 + 8 * l, 8);
    Ok(Location(RdLe32(loc, 0), RdLe32(loc, 4)))
  }

  /** 64-bit byte address of a location; two 32-bit factors cannot overflow it. */
  function TargetByte(block: nat, blockSize: nat): nat {
    block * blockSize
  }

  /** Where location l of an entry goes on the medium, or why it cannot go there. */
  function Locate(header: seq<byte>, e: WriteEntry, blockSize: u32, mediaBlock: u32, l: nat): (r: Result<u64>)
    requires 0 < mediaBlock
    ensures r.Err? ==> IsError(r.status)
  {
    var loc :- ReadLocation(HeaderBytes, header, e, l);
    if loc.accessMethod != 0 then Err(UNSUPPORTED)
    else
      var target := TargetByte(loc.block, blockSize);
      if target % mediaBlock != 0 || e.byteCount % mediaBlock != 0 then Err(UNSUPPORTED)
      else
        QuotientBound(loc.block, blockSize, mediaBlock);
        Ok(target / mediaBlock)
  }

  lemma QuotientBound(block: u32, blockSize: u32, mediaBlock: u32)
    requires 0 < mediaBlock
    ensures 0 <= TargetByte(block, blockSize) < TWO_64
    ensures 0 <= TargetByte(block, blockSize) / mediaBlock < TWO_64
  {
    Product(block, blockSize);
  }

  lemma MulMonotone(a: nat, m: nat, b: nat)
    requires a <= m
    ensures 0 <= a * b <= m * b
  {
  }

  lemma Product(a: nat, b: nat)
    requires a < 0x1_0000_0000 && b < 0x1_0000_0000
    ensures 0 <= a * b < 0x1_0000_0000_0000_0000
  {
    MulMonotone(a, 0xFFFF_FFFF, b);
  }

  /** Last media block written, kept in 32 bits. */
  function EndSector(lba: u64, byteCount: u32, mediaBlock: u32): u32
    requires 0 < mediaBlock
  {
    Wrap32(lba + byteCount / mediaBlock - 1)
  }

  datatype EntryWrite = EntryWrite(status: u64, lastSector: u32, disk: Disk)

  /** The part of stream_write_completed_entry from location l on. */
  function WriteFrom(s: Stream, e: WriteEntry, blockSize: u32, l: nat, last: u32, d: Disk): (r: EntryWrite)
    requires d.Valid() && 0 < s.mediaBlock && e.byteCount <= |s.data| && l <= e.locationCount
    ensures r.disk.Valid() && r.disk.media == d.media
    ensures r.status == SUCCESS || IsError(r.status)
    ensures d.outcomes == [] ==> r.disk.outcomes == []
    ensures d.Quiet() ==> r.disk.Quiet()
    decreases e.locationCount - l
  {
    if l == e.locationCount then EntryWrite(SUCCESS, last, d)
    else
      var lba := Locate(s.header, e, blockSize, s.mediaBlock, l);
      if lba.Err? then EntryWrite(lba.status, last, d)
      else
        var w := if s.dryRun then Written(SUCCESS, d) else WriteBlocks(d, lba.value, s.data[..e.byteCount]);
        if IsError(w.status) then EntryWrite(w.status, last, w.disk)
        else WriteFrom(s, e, blockSize, l + 1, EndSector(lba.value, e.byteCount, s.mediaBlock), w.disk)
  }

  // ----- the payload machine -----

  /** What the machine needs of its own state to take a step. */
  predicate Steppable(s: Stream) {
    && 0 < s.mediaBlock
    && (forall j :: 0 <= j < |s.plan.entries| ==> s.plan.entries[j].storeIndex < |s.plan.stores|)
    && (s.index < |s.plan.entries| ==> s.received <= s.plan.entries[s.index].byteCount)
  }

  datatype Fed = Fed(status: u64, stream: Stream, disk: Disk)

  function Overlay(buf: seq<byte>, at: nat, chunk: seq<byte>): (r: seq<byte>)
    requires at + |chunk| <= |buf|
    ensures |r| == |buf|
  {
    buf[..at] + chunk + buf[at + |chunk|..]
  }

  /** The context after the memcpy of a chunk. */
  function Collected(s: Stream, chunk: seq<byte>): Stream
    requires s.received + |chunk| <= |s.data|
  {
    s.(data := Overlay(s.data, s.received, chunk), received := s.received + |chunk|)
  }

  /** One turn of the loop also says how many bytes it took. */
  datatype Turn = Turn(status: u64, stream: Stream, disk: Disk, took: nat)

  /** The end of a turn: if the current entry is complete, write it and move on. */
  function Settle(s: Stream, d: Disk, took: nat): (t: Turn)
    requires Steppable(s) && d.Valid() && s.index < |s.plan.entries| && s.received <= |s.data|
    ensures t.disk.Valid() && t.disk.media == d.media && t.took == took
    ensures d.outcomes == [] ==> t.disk.outcomes == []
    ensures d.Quiet() ==> t.disk.Quiet()
    ensures Steppable(t.stream) && t.stream.plan == s.plan
    ensures t.status == SUCCESS || IsError(t.status)
    ensures t.status == SUCCESS ==>
              t.stream.index == if s.received == s.plan.entries[s.index].byteCount then s.index + 1 else s.index
  {
    var e := s.plan.entries[s.index];
    if s.received == e.byteCount then
      var w := WriteFrom(s, e, s.plan.stores[e.storeIndex].blockSize, 0, s.lastSector, d);
      if IsError(w.status) then Turn(w.status, s.(lastSector := w.lastSector), w.disk, took)
      else Turn(SUCCESS, s.(received := 0, index := s.index + 1, lastSector := w.lastSector), w.disk, took)
    else Turn(SUCCESS, s, d, took)
  }

  /** One turn of the loop in ffu_stream_flash_payload: take what the current entry still needs. */
  function Step(s: Stream, d: Disk, data: seq<byte>): (t: Turn)
    requires Steppable(s) && d.Valid() && |data| > 0
    ensures t.disk.Valid() && t.disk.media == d.media && t.took <= |data|
    ensures d.outcomes == [] ==> t.disk.outcomes == []
    ensures d.Quiet() ==> t.disk.Quiet()
    ensures Steppable(t.stream) && t.stream.plan == s.plan
    ensures t.status == SUCCESS || IsError(t.status)
    ensures t.status == SUCCESS ==> t.took > 0 || t.stream.index > s.index
    ensures t.status == SUCCESS ==> s.index < |s.plan.entries| && t.stream.index <= s.index + 1
  {
    if s.index >= |s.plan.entries| then Turn(BAD_BUFFER_SIZE, s, d, 0)
    else
      var take := Min(|data|, s.plan.entries[s.index].byteCount - s.received);
      if s.received + take > |s.data| then Turn(BAD_BUFFER_SIZE, s, d, 0)
      else Settle(Collected(s, data[..take]), d, take)
  }

  /** The loop of ffu_stream_flash_payload. */
  function Run(s: Stream, d: Disk, data: seq<byte>): (r: Fed)
    requires Steppable(s) && d.Valid()
    ensures r.disk.Valid() && r.disk.media == d.media && Steppable(r.stream) && r.stream.plan == s.plan
    ensures d.outcomes == [] ==> r.disk.outcomes == []
    ensures d.Quiet() ==> r.disk.Quiet()
    ensures r.status == SUCCESS || IsError(r.status)
    decreases |data|, |s.plan.entries| - s.index
  {
    if data == [] then Fed(SUCCESS, s, d)
    else
      var t := Step(s, d, data);
      if IsError(t.status) then Fed(t.status, t.stream, t.disk) else Run(t.stream, t.disk, data[t.took..])
  }

  lemma RunTurn(s: Stream, d: Disk, data: seq<byte>)
    requires Steppable(s) && d.Valid()
    ensures data == [] ==> Run(s, d, data) == Fed(SUCCESS, s, d)
    ensures data != [] ==>
              var t := Step(s, d, data);
              Run(s, d, data) ==
              if IsError(t.status) then Fed(t.status, t.stream, t.disk) else Run(t.stream, t.disk, data[t.took..])
  {
    hide Step, Steppable, Disk.Valid;
  }

  /** ffu_stream_flash_payload */
  function Feed(s: Stream, d: Disk, data: seq<byte>): (r: Fed)
    requires Steppable(s) && d.Valid()
    ensures r.disk.Valid() && r.disk.media == d.media && Steppable(r.stream) && r.stream.plan == s.plan
    ensures d.outcomes == [] ==> r.disk.outcomes == []
    ensures d.Quiet() ==> r.disk.Quiet()
  {
    var r := Run(s, d, data);
    if r.status == SUCCESS && r.stream.index >= |s.plan.entries| then r.(stream := r.stream.(finalState := 1)) else r
  }

  /** ffu_stream_flash_done */
  predicate Done(s: Stream) {
    s.index >= |s.plan.entries| && s.received == 0
  }

  // ----- initialisation -----

  function MaxBytes(entries: seq<WriteEntry>, k: nat): (r: u32)
    requires k <= |entries|
    ensures forall j :: 0 <= j < k ==> entries[j].byteCount <= r
    ensures r == 0 || exists j :: 0 <= j < k && entries[j].byteCount == r
  {
    if k == 0 then 0
    else
      var m := MaxBytes(entries, k - 1);
      if entries[k - 1].byteCount > m then entries[k - 1].byteCount else m
  }

  datatype Started = Started(status: u64, stream: Stream)

  /** ffu_stream_flash_init */
  function Init(header: Contents, media: Media, commit: bool): Started {
    if !media.present || media.readOnly || media.blockSize == 0 then Started(UNSUPPORTED, ZEROED)
    else
      var plan := Parse(HeaderBytes, header);
      if plan.Err? then Started(plan.status, ZEROED)
      else
        var max := MaxBytes(plan.value.entries, |plan.value.entries|);
        if max == 0 || max > MAX_PAYLOAD_DATA then Started(UNSUPPORTED, ZEROED)
        else
          Started(SUCCESS, Stream(plan.value, header, Zeros(max), 0, 0, media.blockSize, !commit, 0, 0xFFFF_FFFF))
  }

  // ----- the source's context object -----

  /** FFU_STREAM_FLASH. The header is not owned: it is the caller's buffer. */
  class FfuStreamFlash {
    const bio: BlockDevice
    var plan: Plan
    var header: array?<byte>
    var headerSize: nat
    var entryData: array?<byte>
    var entryIndex: nat
    var entryReceived: nat
    var mediaBlock: u32
    var dryRun: bool
    var finalState: u32
    var lastSector: u32

    predicate Valid()
      reads this
    {
      && (if header == null then headerSize == 0 else headerSize <= header.Length)
      && (entryData != null ==> entryData != header)
    }

    function View(): Stream
      requires Valid()
      reads this, header, entryData
    {
      Stream(
        plan, if header == null then [] else header[..headerSize], if entryData == null then [] else entryData[..],
        entryIndex, entryReceived, mediaBlock, dryRun, finalState, lastSector)
    }

    /** A zeroed context for the given device. */
    constructor (bio: BlockDevice)
      ensures Valid() && View() == ZEROED && this.bio == bio && header == null && entryData == null
    {
      this.bio := bio;
      plan, header, headerSize, entryData := EMPTY_PLAN, null, 0, null;
      entryIndex, entryReceived, mediaBlock, dryRun, finalState, lastSector := 0, 0, 0, false, 0, 0;
    }

    /** stream_write_completed_entry, for the entry at entryIndex */
    method WriteCompletedEntry() returns (st: u64)
      requires Valid() && Steppable(View()) && bio.State().Valid()
      requires entryIndex < |plan.entries| && plan.entries[entryIndex].byteCount <= |View().data|
      modifies this`lastSector, bio
      ensures Valid() && bio.State().Valid()
      ensures var e := plan.entries[entryIndex];
              var w := WriteFrom(old(View()), e, plan.stores[e.storeIndex].blockSize, 0, old(lastSector),
                old(bio.State()));
              st == w.status && lastSector == w.lastSector && bio.State() == w.disk
      ensures View() == old(View()).(lastSector := lastSector)
    {
      hide Locate, EndSector, WriteBlocks;
      var entry := plan.entries[entryIndex];
      var blockSize := plan.stores[entry.storeIndex].blockSize;
      ghost var s0, d0 := View(), bio.State();
      var l: u32 := 0;
      while l < entry.locationCount
        invariant l <= entry.locationCount && Valid() && bio.State().Valid()
        invariant View() == s0.(lastSector := lastSector)
        invariant WriteFrom(s0, entry, blockSize, 0, s0.lastSector, d0) ==
                  WriteFrom(s0, entry, blockSize, l, lastSector, bio.State())
      {
        var hdr := if header == null then [] else header[..headerSize];
        var lba := Locate(hdr, entry, blockSize, mediaBlock, l);
        if lba.Err? {
          return lba.status;
        }
        if !dryRun {
          st := bio.Write(lba.value, if entryData == null then [] else entryData[..entry.byteCount]);
          if IsError(st) {
            return st;
          }
        }
        lastSector := EndSector(lba.value, entry.byteCount, mediaBlock);
        l := l + 1;
      }
      return SUCCESS;
    }

    /** The memcpy of one turn. */
    method Collect(chunk: seq<byte>)
      requires Valid() && entryReceived + |chunk| <= |View().data|
      modifies this`entryReceived, entryData
      ensures Valid()
      ensures View() == Collected(old(View()), chunk)
    {
      ghost var s := View();
      if entryData != null {
        MemCpy(entryData, entryReceived, chunk);
        assert entryData[..] == s.data[..s.received] + chunk + s.data[s.received + |chunk|..];
      }
      assert View() == s.(data := Overlay(s.data, s.received, chunk));
      entryReceived := entryReceived + |chunk|;
    }

    /** The end of a turn: a complete entry is written, and the next one begins. */
    method EndTurn(ghost took: nat) returns (st: u64)
      requires Valid() && Steppable(View()) && bio.State().Valid()
      requires entryIndex < |plan.entries| && entryReceived <= |View().data|
      modifies this`entryIndex, this`entryReceived, this`lastSector, bio
      ensures Valid() && bio.State().Valid()
      ensures Turn(st, View(), bio.State(), took) == Settle(old(View()), old(bio.State()), took)
    {
      hide WriteFrom, Disk.Valid, Disk.Quiet;
      st := SUCCESS;
      if entryReceived == plan.entries[entryIndex].byteCount {
        st := WriteCompletedEntry();
        if IsError(st) {
          return;
        }
        st := SUCCESS;
        entryReceived := 0;
        entryIndex := entryIndex + 1;
      }
    }

    /** One turn of the payload loop. */
    method TakeTurn(data: seq<byte>) returns (st: u64, took: nat)
      requires Valid() && Steppable(View()) && bio.State().Valid() && |data| > 0
      modifies this`entryIndex, this`entryReceived, this`lastSector, entryData, bio
      ensures Valid() && bio.State().Valid()
      ensures Turn(st, View(), bio.State(), took) == Step(old(View()), old(bio.State()), data)
    {
      hide Settle, Overlay, Disk.Valid, Disk.Quiet;
      if entryIndex >= |plan.entries| {
        return BAD_BUFFER_SIZE, 0;
      }
      var entry := plan.entries[entryIndex];
      var need := entry.byteCount - entryReceived;
      took := if |data| < need then |data| else need;
      if entryReceived + took > (if entryData == null then 0 else entryData.Length) {
        return BAD_BUFFER_SIZE, 0;
      }
      Collect(data[..took]);
      st := EndTurn(took);
    }

    /** ffu_stream_flash_payload */
    method Payload(data: seq<byte>) returns (st: u64)
      requires Valid() && Steppable(View()) && bio.State().Valid()
      modifies this`entryIndex, this`entryReceived, this`finalState, this`lastSector, entryData, bio
      ensures Valid() && bio.State().Valid()
      ensures Fed(st, View(), bio.State()) == Feed(old(View()), old(bio.State()), data)
    {
      hide Run, Step, Steppable, Disk.Valid, Disk.Quiet;
      ghost var s0, d0 := View(), bio.State();
      var pos := 0;
      while pos < |data|
        invariant pos <= |data| && Valid() && bio.State().Valid() && Steppable(View()) && plan == s0.plan
        invariant Run(s0, d0, data) == Run(View(), bio.State(), data[pos..])
        decreases |data| - pos, |plan.entries| - entryIndex
      {
        ghost var rest := data[pos..];
        RunTurn(View(), bio.State(), rest);
        var took;
        st, took := TakeTurn(data[pos..]);
        if IsError(st) {
          return st;
        }
        assert data[pos + took..] == rest[took..];
        pos := pos + took;
      }
      RunTurn(View(), bio.State(), data[pos..]);
      if entryIndex >= |plan.entries| {
        finalState := 1;
      }
      return SUCCESS;
    }

    /** memset(ctx, 0, sizeof(*ctx)), and ffu_stream_flash_free */
    method Reset()
      modifies this
      ensures Valid() && View() == ZEROED && header == null && entryData == null
      ensures entryIndex == 0 && entryReceived == 0 && finalState == 0
    {
      plan, header, headerSize, entryData := EMPTY_PLAN, null, 0, null;
      entryIndex, entryReceived, mediaBlock, dryRun, finalState, lastSector := 0, 0, 0, false, 0, 0;
    }

    static method LargestEntry(entries: seq<WriteEntry>) returns (maxEntry: u32)
      ensures maxEntry == MaxBytes(entries, |entries|)
    {
      maxEntry := 0;
      for i := 0 to |entries|
        invariant maxEntry == MaxBytes(entries, i)
      {
        if entries[i].byteCount > maxEntry {
          maxEntry := entries[i].byteCount;
        }
      }
    }

    /** The fields of a started context. */
    method Install(plan: Plan, buffer: array<byte>, size: nat, commit: bool, maxEntry: u32)
      requires size <= buffer.Length && entryIndex == 0 && entryReceived == 0 && finalState == 0
      modifies this
      ensures Valid() && header == buffer && entryData != null && fresh(entryData)
      ensures View() == Stream(
              plan, buffer[..size], Zeros(maxEntry), 0, 0, bio.media.blockSize, !commit, 0, 0xFFFF_FFFF)
    {
      entryData := new byte[maxEntry](i => 0);
      assert entryData[..] == Zeros(maxEntry);
      this.plan, header, headerSize := plan, buffer, size;
      mediaBlock, dryRun, lastSector := bio.media.blockSize, !commit, 0xFFFF_FFFF;
    }

    /** ffu_stream_flash_init on the first `size` bytes of a buffer */
    method Start(buffer: array<byte>, size: nat, commit: bool) returns (st: u64)
      requires size <= buffer.Length < MAX_FILE
      modifies this
      ensures Valid()
      ensures Started(st, View()) == Init(buffer[..size], bio.media, commit)
      ensures st == SUCCESS ==> header == buffer && fresh(entryData)
      ensures st != SUCCESS ==> header == null && entryData == null
    {
      hide Parse, MaxBytes, Zeros, ZEROED, EMPTY_PLAN;
      Reset();
      if !bio.media.present || bio.media.readOnly || bio.media.blockSize == 0 {
        return UNSUPPORTED;
      }
      var parsed := FfuParser.FfuParseHeaderBytes(buffer[..size]);
      if parsed.Err? {
        return parsed.status;
      }
      var maxEntry := LargestEntry(parsed.value.entries);
      if maxEntry == 0 || maxEntry > MAX_PAYLOAD_DATA {
        return UNSUPPORTED;
      }
      Install(parsed.value, buffer, size, commit, maxEntry);
      return SUCCESS;
    }
  }
}
