/** Locations in bytes: where the descriptor records of a header send an entry, which of them both
    flashers refuse and how, and which block the stream reports as the last one written. */
module LocationFacts {
  import opened Bytes
  import opened BlockIo
  import opened FfuLayout
  import opened StreamFlash
  import opened StreamLaws
  import opened StreamRuns
  import opened DirectFlash
  import opened DirectLaws
  import PlanFacts

  /** The two words of location l in the record at `record`: access method and block. */
  predicate HasWords(header: seq<byte>, record: nat, l: nat) {
    record + 8 + 8 * l + 8 <= |header|
  }

  function Method(header: seq<byte>, record: nat, l: nat): u32
    requires HasWords(header, record, l)
  {
    RdLe32(header, record + 8 + 8 * l)
  }

  function Block(header: seq<byte>, record: nat, l: nat): u32
    requires HasWords(header, record, l)
  {
    RdLe32(header, record + 12 + 8 * l)
  }

  lemma WordsOfSlice(header: seq<byte>, o: nat)
    requires o + 8 <= |header|
    ensures RdLe32(header[o..o + 8], 0) == RdLe32(header, o) && RdLe32(header[o..o + 8], 4) == RdLe32(header, o + 4)
  {
  }

  lemma ReadWords(src: Source, header: seq<byte>, e: WriteEntry, l: nat)
    ensures ReadLocation(src, header, e, l).Ok? <==> HasWords(header, e.descriptorOffset, l)
    ensures ReadLocation(src, header, e, l).Ok? ==>
              ReadLocation(src, header, e, l).value ==
              Location(Method(header, e.descriptorOffset, l), Block(header, e.descriptorOffset, l))
  {
    hide RdLe32;
    var o := e.descriptorOffset + 8 + 8 * l;
    if o + 8 <= |header| {
      WordsOfSlice(header, o);
    }
  }

  /** Where the stream sends location l, or why it cannot. */
  lemma LocateInBytes(header: seq<byte>, e: WriteEntry, blockSize: u32, mediaBlock: u32, l: nat)
    requires 0 < mediaBlock
    ensures var lba := Locate(header, e, blockSize, mediaBlock, l);
            if !HasWords(header, e.descriptorOffset, l) then lba == Err(END_OF_FILE)
            else if Method(header, e.descriptorOffset, l) != 0 then lba == Err(UNSUPPORTED)
            else
              var target := Block(header, e.descriptorOffset, l) as int * blockSize as int;
              if target % mediaBlock != 0 || e.byteCount % mediaBlock != 0 then lba == Err(UNSUPPORTED)
              else lba.Ok? && lba.value == target / mediaBlock
  {
    hide Method, Block;
    ReadWords(HeaderBytes, header, e, l);
    hide RdLe32;
  }

  /** Where the direct flasher sends it, or why it cannot. */
  lemma AdmitInBytes(f: Contents, e: WriteEntry, blockSize: u32, media: Media, l: nat)
    requires 0 < media.blockSize
    ensures var lba := Admit(f, e, blockSize, media, l);
            var at := e.descriptorOffset + 8 + 8 * l;
            if !HasWords(f, e.descriptorOffset, l) then
              lba == Err(if at > |f| && at != TWO_64 - 1 then DEVICE_ERROR else END_OF_FILE)
            else if Method(f, e.descriptorOffset, l) != 0 then lba == Err(UNSUPPORTED)
            else
              var target := Block(f, e.descriptorOffset, l) as int * blockSize as int;
              if target % media.blockSize != 0 then lba == Err(UNSUPPORTED)
              else if target / media.blockSize + e.byteCount / media.blockSize > media.lastBlock + 1 ||
                      target / media.blockSize > media.lastBlock then lba == Err(BAD_BUFFER_SIZE)
              else lba.Ok? && lba.value == target / media.blockSize
  {
    hide Method, Block;
    ReadWords(FileView, f, e, l);
    hide RdLe32;
  }

  /** The bytes at which location l is written end inside the medium, and start and length are whole
      media blocks: all of it read off the header. */
  predicate LandsOnMedia(header: seq<byte>, e: WriteEntry, blockSize: nat, media: Media, l: nat) {
    && media.present && !media.readOnly && 0 < media.blockSize
    && HasWords(header, e.descriptorOffset, l) && Method(header, e.descriptorOffset, l) == 0
    && var target := Block(header, e.descriptorOffset, l) * blockSize;
    && target % media.blockSize == 0 && e.byteCount % media.blockSize == 0
    && target + e.byteCount <= (media.lastBlock + 1) * media.blockSize
  }

  lemma TargetInBlocks(target: nat, m: nat)
    requires 0 < m && target % m == 0
    ensures ByteOffset(target / m, m) == target
  {
  }

  lemma RefusalInBytes(media: Media, lba: nat, target: nat, n: nat)
    requires ByteOffset(lba, media.blockSize) == target && 0 < media.blockSize && n % media.blockSize == 0
    ensures Refusal(media, lba, n) == SUCCESS <==>
            media.present && !media.readOnly && target + n <= (media.lastBlock + 1) * media.blockSize
  {
  }

  /** A location fits exactly if the header says so: absolute, in whole blocks, and on the medium. */
  lemma FitsInHeader(header: seq<byte>, plan: Plan, media: Media, j: nat, l: nat)
    requires j < |plan.entries|
    ensures LocationFits(header, plan, media, j, l) <==>
            LandsOnMedia(header, plan.entries[j], BlockSizeOf(plan, j), media, l)
  {
    hide Locate, Refusal, ByteOffset, Method, Block, HasWords;
    if 0 < media.blockSize {
      var e, bs := plan.entries[j], BlockSizeOf(plan, j);
      LocateInBytes(header, e, bs, media.blockSize, l);
      if HasWords(header, e.descriptorOffset, l) {
        var target := Block(header, e.descriptorOffset, l) as int * bs as int;
        TargetIsNat(Block(header, e.descriptorOffset, l), bs);
        if target % media.blockSize == 0 && e.byteCount % media.blockSize == 0 {
          TargetInBlocks(target, media.blockSize);
          RefusalInBytes(media, target / media.blockSize, target, e.byteCount);
        }
      }
    }
  }

  lemma TargetIsNat(block: u32, blockSize: u32)
    ensures 0 <= block as int * blockSize as int
  {
    MulMonotone(0, block, blockSize);
  }

  /** Why the direct flasher leaves location l unwritten, if it does. */
  function DirectRefusal(f: seq<byte>, e: WriteEntry, blockSize: nat, media: Media, l: nat): Option<u64>
    requires 0 < media.blockSize
  {
    var at := e.descriptorOffset + 8 + 8 * l;
    if at + 8 > |f| then Some(if at > |f| && at != TWO_64 - 1 then DEVICE_ERROR else END_OF_FILE)
    else if RdLe32(f, at) != 0 then Some(UNSUPPORTED)
    else if RdLe32(f, at + 4) * blockSize % media.blockSize != 0 then Some(UNSUPPORTED)
    else if RdLe32(f, at + 4) * blockSize / media.blockSize > media.lastBlock then Some(BAD_BUFFER_SIZE)
    else if RdLe32(f, at + 4) * blockSize / media.blockSize + e.byteCount / media.blockSize > media.lastBlock + 1 then
      Some(BAD_BUFFER_SIZE)
    else None
  }

  /** Why the stream does not even ask the device to write location l, if it does not. */
  function StreamRefusal(header: seq<byte>, e: WriteEntry, blockSize: nat, mediaBlock: nat, l: nat): Option<u64>
    requires 0 < mediaBlock
  {
    var at := e.descriptorOffset + 8 + 8 * l;
    if at + 8 > |header| then Some(END_OF_FILE)
    else if RdLe32(header, at) != 0 then Some(UNSUPPORTED)
    else if RdLe32(header, at + 4) * blockSize % mediaBlock != 0 || e.byteCount % mediaBlock != 0 then
      Some(UNSUPPORTED)
    else None
  }

  lemma DirectRefusalIs(f: Contents, e: WriteEntry, blockSize: u32, l: nat, st: u64, d: Disk, commit: bool)
    requires d.Valid() && d.Writable() && l < e.locationCount
    ensures match DirectRefusal(f, e, blockSize, d.media, l)
            case Some(reason) => FlashLocations(f, e, blockSize, l, st, d, commit) == Flashed(reason, d)
            case None => Admit(f, e, blockSize, d.media, l).Ok?
  {
    hide Admit, RdLe32, WriteChunks, Disk.Valid, Disk.Quiet;
    AdmitInBytes(f, e, blockSize, d.media, l);
  }

  /** A location that is refused is left alone, in every kind of run, and both flashers stop there with
      the reason; so neither writes a location whose access method is not zero. */
  lemma RefusedIsUnwritten(
    s: Stream, f: Contents, e: WriteEntry, blockSize: u32, l: nat, last: u32, st: u64, d: Disk, commit: bool)
    requires d.Valid() && l < e.locationCount && 0 < s.mediaBlock && e.byteCount <= |s.data| && d.Writable()
    ensures match StreamRefusal(s.header, e, blockSize, s.mediaBlock, l)
            case Some(reason) => WriteFrom(s, e, blockSize, l, last, d) == EntryWrite(reason, last, d)
            case None => Locate(s.header, e, blockSize, s.mediaBlock, l).Ok?
    ensures match DirectRefusal(f, e, blockSize, d.media, l)
            case Some(reason) => FlashLocations(f, e, blockSize, l, st, d, commit) == Flashed(reason, d)
            case None => Admit(f, e, blockSize, d.media, l).Ok?
  {
    hide Locate, Admit, FlashLocations, RdLe32, WriteBlocks, WriteChunks, Disk.Valid, Disk.Quiet, EndSector;
    LocateInBytes(s.header, e, blockSize, s.mediaBlock, l);
    DirectRefusalIs(f, e, blockSize, l, st, d, commit);
  }

  /** Where the device refuses the stream's write of a location, or fails in it, its status is the reason. */
  lemma DeviceSaysWhy(s: Stream, e: WriteEntry, blockSize: u32, l: nat, last: u32, d: Disk, lba: u64)
    requires d.Valid() && l < e.locationCount && 0 < s.mediaBlock && e.byteCount <= |s.data| && !s.dryRun
    requires StreamRefusal(s.header, e, blockSize, s.mediaBlock, l) == None
    requires ByteOffset(lba, s.mediaBlock) == RdLe32(s.header, e.descriptorOffset + 12 + 8 * l) * blockSize
    requires IsError(WriteBlocks(d, lba, s.data[..e.byteCount]).status)
    ensures var w := WriteBlocks(d, lba, s.data[..e.byteCount]);
            WriteFrom(s, e, blockSize, l, last, d) == EntryWrite(w.status, last, w.disk)
  {
    hide Locate, RdLe32, WriteBlocks, Disk.Valid, Disk.Quiet, EndSector;
    LocateInBytes(s.header, e, blockSize, s.mediaBlock, l);
    var target := RdLe32(s.header, e.descriptorOffset + 12 + 8 * l) as int * blockSize as int;
    DivModUnique(target, s.mediaBlock, lba, 0);
  }

  // ----- why a dry run fails -----

  predicate CleanLocation(f: seq<byte>, plan: Plan, media: Media, i: nat, k: nat)
    requires i < |plan.entries| && 0 < media.blockSize
  {
    DirectRefusal(f, plan.entries[i], BlockSizeOf(plan, i), media, k) == None
  }

  /** Entry i is in whole media blocks, and its first n locations are not refused. */
  predicate CleanUpTo(f: seq<byte>, plan: Plan, media: Media, i: nat, n: nat)
    requires i < |plan.entries| && 0 < media.blockSize
  {
    plan.entries[i].byteCount % media.blockSize == 0 &&
    forall k :: 0 <= k < n ==> CleanLocation(f, plan, media, i, k)
  }

  lemma {:induction false} DryLocationSaysWhy(f: Contents, plan: Plan, j: nat, l: nat, n: nat, st: u64, d: Disk)
    requires d.Valid() && d.Writable() && j < |plan.entries| && l <= n <= plan.entries[j].locationCount
    requires CleanUpTo(f, plan, d.media, j, n)
    ensures var e, bs := plan.entries[j], BlockSizeOf(plan, j);
            var r := FlashLocations(f, e, bs, l, st, d, false);
            && (n < e.locationCount && DirectRefusal(f, e, bs, d.media, n).Some? ==>
                  r == Flashed(DirectRefusal(f, e, bs, d.media, n).value, d))
            && (n == e.locationCount ==> r == Flashed(if l == n then st else SUCCESS, d))
    decreases n - l
  {
    hide Admit, WriteChunks, DirectRefusal, Disk.Valid, Disk.Quiet, Multiple;
    var e, bs := plan.entries[j], BlockSizeOf(plan, j);
    if l < e.locationCount {
      DirectRefusalIs(f, e, bs, l, st, d, false);
      if l < n {
        assert CleanLocation(f, plan, d.media, j, l);
        var lba := Admit(f, e, bs, d.media, l).value;
        MultipleOf(0, d.media.blockSize);
        assert d.media.blockSize * 0 == 0;
        MultipleIs(e.byteCount, d.media.blockSize);
        DryChunks(f, e, lba, 0, SUCCESS, d);
        DryLocationSaysWhy(f, plan, j, l + 1, n, SUCCESS, d);
      }
    }
  }

  lemma CleanIsAligned(f: seq<byte>, plan: Plan, media: Media, i: nat, n: nat)
    requires i < |plan.entries| && 0 < media.blockSize && CleanUpTo(f, plan, media, i, n)
    ensures plan.entries[i].byteCount % media.blockSize == 0
  {
  }

  lemma DirectRefusalIsError(f: seq<byte>, e: WriteEntry, blockSize: nat, media: Media, l: nat)
    requires 0 < media.blockSize && DirectRefusal(f, e, blockSize, media, l).Some?
    ensures IsError(DirectRefusal(f, e, blockSize, media, l).value)
  {
    hide RdLe32;
  }

  lemma {:induction false} DryEntrySaysWhy(f: Contents, plan: Plan, i: nat, j: nat, n: nat, st: u64, d: Disk)
    requires Runnable(f, plan, d) && i <= j < |plan.entries| && n <= plan.entries[j].locationCount
    requires forall k :: i <= k < j ==> CleanUpTo(f, plan, d.media, k, plan.entries[k].locationCount)
    requires !IsError(st)
    ensures var e := plan.entries[j];
            var r := FlashEntries(f, plan, i, st, d, false);
            && (e.byteCount % d.media.blockSize != 0 ==> r == Looped(UNSUPPORTED, d, false))
            && (CleanUpTo(f, plan, d.media, j, n) && n < e.locationCount
                && DirectRefusal(f, e, BlockSizeOf(plan, j), d.media, n).Some? ==>
                  r == Looped(DirectRefusal(f, e, BlockSizeOf(plan, j), d.media, n).value, d, true))
    decreases j - i
  {
    hide FlashLocations, DirectRefusal, CleanUpTo, PlanFacts.WellFormed, Disk.Valid, Disk.Quiet;
    EntryBasics(f, plan, i);
    var e, bs := plan.entries[i], BlockSizeOf(plan, i);
    if i < j {
      CleanIsAligned(f, plan, d.media, i, e.locationCount);
      DryLocationSaysWhy(f, plan, i, 0, e.locationCount, st, d);
      DryEntrySaysWhy(f, plan, i + 1, j, n, SUCCESS, d);
    } else if CleanUpTo(f, plan, d.media, j, n) {
      CleanIsAligned(f, plan, d.media, j, n);
      DryLocationSaysWhy(f, plan, j, 0, n, st, d);
      if DirectRefusal(f, e, bs, d.media, n).Some? {
        DirectRefusalIsError(f, e, bs, d.media, n);
      }
    }
  }

  /** What a dry run returns when it fails: EFI_UNSUPPORTED for a device that cannot be written and for the
      first entry that is not in whole media blocks, and the reason for the first location refused. */
  lemma DryRunSaysWhy(f: Contents, plan: Plan, d: Disk, flush: Option<u64>, j: nat, n: nat)
    requires d.Valid() && PlanFacts.WellFormed(f, plan) && Indexed(plan)
    ensures !d.Writable() ==> forall commit :: Flash(f, plan, d, commit, flush) == Flashed(UNSUPPORTED, d)
    ensures d.Writable() && j < |plan.entries| && n <= plan.entries[j].locationCount &&
            (forall k :: 0 <= k < j ==> CleanUpTo(f, plan, d.media, k, plan.entries[k].locationCount)) ==>
              var e, r := plan.entries[j], Flash(f, plan, d, false, flush);
              && (e.byteCount % d.media.blockSize != 0 ==> r == Flashed(UNSUPPORTED, d))
              && (CleanUpTo(f, plan, d.media, j, n) && n < e.locationCount
                  && DirectRefusal(f, e, BlockSizeOf(plan, j), d.media, n).Some? ==>
                    r == Flashed(DirectRefusal(f, e, BlockSizeOf(plan, j), d.media, n).value, d))
  {
    hide FlashEntries, DirectRefusal, CleanUpTo, PlanFacts.WellFormed, Disk.Valid, Disk.Quiet;
    if d.Writable() && j < |plan.entries| && n <= plan.entries[j].locationCount &&
       forall k :: 0 <= k < j ==> CleanUpTo(f, plan, d.media, k, plan.entries[k].locationCount) {
      DryEntrySaysWhy(f, plan, 0, j, n, SUCCESS, d);
    }
  }

  /** Every location of the plan, read off the header, ends on the medium. */
  predicate AllLand(f: seq<byte>, plan: Plan, media: Media) {
    forall j, l :: 0 <= j < |plan.entries| && 0 <= l < plan.entries[j].locationCount ==> Lands(f, plan, media, j, l)
  }

  predicate Lands(f: seq<byte>, plan: Plan, media: Media, j: nat, l: nat)
    requires j < |plan.entries|
  {
    LandsOnMedia(f, plan.entries[j], BlockSizeOf(plan, j), media, l)
  }

  /** A dry run says exactly whether every location is absolute, in whole blocks and on a writable medium,
      as the words of the header have it. */
  lemma DryRunInBytes(f: Contents, plan: Plan, d: Disk, flush: Option<u64>)
    requires d.Valid() && PlanFacts.WellFormed(f, plan) && Indexed(plan)
    ensures !IsError(Flash(f, plan, d, false, flush).status) <==> d.Writable() && AllLand(f, plan, d.media)
  {
    hide Flash, PlanFacts.WellFormed, Disk.Valid, LandsOnMedia, LocationFits, Indexed;
    DryRunChecksPlan(f, plan, d, flush);
    forall j, l | 0 <= j < |plan.entries| && 0 <= l < plan.entries[j].locationCount
      ensures Lands(f, plan, d.media, j, l) <==> LocationFits(f, plan, d.media, j, l)
    {
      FitsInHeader(f, plan, d.media, j, l);
    }
    if AllLand(f, plan, d.media) {
      forall j | 0 <= j < |plan.entries|
        ensures EntryFits(f, plan, d.media, j)
      {
        assert forall l :: 0 <= l < plan.entries[j].locationCount ==> Lands(f, plan, d.media, j, l);
      }
    }
    if PlanFits(f, plan, d.media) {
      forall j, l | 0 <= j < |plan.entries| && 0 <= l < plan.entries[j].locationCount
        ensures Lands(f, plan, d.media, j, l)
      {
        assert EntryFits(f, plan, d.media, j);
        assert LocationFits(f, plan, d.media, j, l);
      }
    }
  }

  // ----- the last sector -----

  /** The last media block of location l of e, in the 32 bits of its field. */
  function SectorOf(header: seq<byte>, e: WriteEntry, blockSize: u32, mediaBlock: u32, l: nat): u32
    requires 0 < mediaBlock
  {
    if HasWords(header, e.descriptorOffset, l) then
      Wrap32(Block(header, e.descriptorOffset, l) as int * blockSize as int / mediaBlock + e.byteCount / mediaBlock - 1)
    else 0xFFFF_FFFF
  }

  lemma LocatedSector(s: Stream, e: WriteEntry, blockSize: u32, l: nat)
    requires 0 < s.mediaBlock && Locate(s.header, e, blockSize, s.mediaBlock, l).Ok?
    ensures EndSector(Locate(s.header, e, blockSize, s.mediaBlock, l).value, e.byteCount, s.mediaBlock) ==
            SectorOf(s.header, e, blockSize, s.mediaBlock, l)
  {
    hide Locate, Method, Block, HasWords, Wrap32;
    LocateInBytes(s.header, e, blockSize, s.mediaBlock, l);
  }

  /** Whatever the device does, last_sector is that of the last location written; k counts them. */
  lemma {:induction false} WriteReports(s: Stream, e: WriteEntry, blockSize: u32, l: nat, last: u32, d: Disk)
    returns (k: nat)
    requires d.Valid() && 0 < s.mediaBlock && e.byteCount <= |s.data| && l <= e.locationCount
    ensures l <= k <= e.locationCount
    ensures var r := WriteFrom(s, e, blockSize, l, last, d);
            && (r.status == SUCCESS <==> k == e.locationCount)
            && r.lastSector == if k == l then last else SectorOf(s.header, e, blockSize, s.mediaBlock, k - 1)
    decreases e.locationCount - l
  {
    hide Locate, EndSector, SectorOf, WriteBlocks, Disk.Valid, Disk.Quiet;
    k := l;
    if l < e.locationCount {
      var lba := Locate(s.header, e, blockSize, s.mediaBlock, l);
      if lba.Ok? {
        LocatedSector(s, e, blockSize, l);
        var w := if s.dryRun then Written(SUCCESS, d) else WriteBlocks(d, lba.value, s.data[..e.byteCount]);
        if !IsError(w.status) {
          k := WriteReports(s, e, blockSize, l + 1, EndSector(lba.value, e.byteCount, s.mediaBlock), w.disk);
        }
      }
    }
  }

  /** The sector of the last location of the last completed entry; none yet, all ones. */
  function LastCompleted(s: Stream): u32
    requires 0 < s.mediaBlock && s.index <= |s.plan.entries|
  {
    if s.index == 0 then 0xFFFF_FFFF
    else
      var e := s.plan.entries[s.index - 1];
      var l := if e.locationCount == 0 then 0 else e.locationCount - 1;
      SectorOf(s.header, e, BlockSizeOf(s.plan, s.index - 1), s.mediaBlock, l)
  }

  /** The current entry's write has failed behind some of its locations, the last of them this. */
  predicate PartlyWritten(s: Stream)
    requires 0 < s.mediaBlock && s.index <= |s.plan.entries|
  {
    Pending(s) &&
    var e := s.plan.entries[s.index];
    var blockSize := BlockSizeOf(s.plan, s.index);
    exists l :: 0 <= l < e.locationCount && s.lastSector == SectorOf(s.header, e, blockSize, s.mediaBlock, l)
  }

  /** What last_sector says at any time. */
  predicate Reported(s: Stream) {
    0 < s.mediaBlock && s.index <= |s.plan.entries| && (s.lastSector == LastCompleted(s) || PartlyWritten(s))
  }

  lemma SettleReports(s: Stream, d: Disk, took: nat)
    requires Sound(s, d) && Reported(s) && s.index < |s.plan.entries| && Steppable(s) && d.Valid()
    requires s.received <= |s.data| && s.plan.entries[s.index].byteCount <= |s.data|
    ensures Reported(Settle(s, d, took).stream)
  {
    hide Sound, Reported, WriteFrom, Disk.Valid, Disk.Quiet, EntryReady, Steppable;
    EntryReadyWhenSound(s, d);
    var e := s.plan.entries[s.index];
    var bs := BlockSizeOf(s.plan, s.index);
    if s.received == e.byteCount {
      ReportedIs(s);
      var k := WriteReports(s, e, bs, 0, s.lastSector, d);
      SomeLocation(s, d);
      var w := WriteFrom(s, e, bs, 0, s.lastSector, d);
      if w.status == SUCCESS {
        CompletedReports(s, w.lastSector);
      } else {
        FailedReports(s, w.lastSector, k);
      }
    }
  }

  lemma ReportedIs(s: Stream)
    requires Reported(s)
    ensures 0 < s.mediaBlock && s.index <= |s.plan.entries|
  {
  }

  lemma CompletedReports(s: Stream, last: u32)
    requires 0 < s.mediaBlock && s.index < |s.plan.entries| && 0 < s.plan.entries[s.index].locationCount
    requires var e := s.plan.entries[s.index];
             last == SectorOf(s.header, e, BlockSizeOf(s.plan, s.index), s.mediaBlock, e.locationCount - 1)
    ensures Reported(s.(received := 0, index := s.index + 1, lastSector := last))
  {
    hide SectorOf;
  }

  lemma FailedReports(s: Stream, last: u32, k: nat)
    requires Reported(s) && Pending(s) && k <= s.plan.entries[s.index].locationCount
    requires last == if k == 0 then s.lastSector
                     else
                       SectorOf(s.header, s.plan.entries[s.index], BlockSizeOf(s.plan, s.index), s.mediaBlock, k - 1)
    ensures Reported(s.(lastSector := last))
  {
    hide SectorOf;
  }

  lemma SomeLocation(s: Stream, d: Disk)
    requires Sound(s, d) && s.index < |s.plan.entries|
    ensures 0 < s.plan.entries[s.index].locationCount
  {
    PlanFacts.EntryFacts(s.header, s.plan, s.index);
  }

  lemma CollectedReports(s: Stream, chunk: seq<byte>)
    requires Reported(s) && s.index < |s.plan.entries| && s.received + |chunk| <= s.plan.entries[s.index].byteCount
    requires s.received + |chunk| <= |s.data|
    ensures Reported(Collected(s, chunk))
  {
    hide SectorOf, Overlay;
    if PartlyWritten(s) {
      assert chunk == [];
    }
  }

  lemma StepReports(s: Stream, d: Disk, data: seq<byte>)
    requires Sound(s, d) && Reported(s) && |data| > 0 && Steppable(s) && d.Valid()
    ensures Reported(Step(s, d, data).stream)
  {
    hide Sound, Reported, Settle, Overlay, Disk.Valid, Disk.Quiet;
    if s.index < |s.plan.entries| {
      var take := Min(|data|, s.plan.entries[s.index].byteCount - s.received);
      if s.received + take <= |s.data| {
        EntryReadyWhenSound(s, d);
        CollectedReports(s, data[..take]);
        CollectedSound(s, d, data[..take]);
        SettleReports(Collected(s, data[..take]), d, take);
      }
    }
  }

  lemma {:induction false} RunReports(s: Stream, d: Disk, data: seq<byte>)
    requires Sound(s, d) && Reported(s)
    ensures Steppable(s) && d.Valid()
    ensures Reported(Run(s, d, data).stream)
    decreases |data|, |s.plan.entries| - s.index
  {
    SoundIs(s, d);
    hide Sound, Reported, Step, Steppable, Disk.Valid, Disk.Quiet;
    if data != [] {
      StepReports(s, d, data);
      StepSound(s, d, data);
      var t := Step(s, d, data);
      if !IsError(t.status) {
        RunReports(t.stream, t.disk, data[t.took..]);
      }
    }
  }

  lemma SoundIs(s: Stream, d: Disk)
    requires Sound(s, d)
    ensures Steppable(s) && d.Valid()
  {
  }

  /** Over every payload call, on any device, and a completed plan sets the final state. */
  lemma FeedReports(s: Stream, d: Disk, data: seq<byte>)
    requires Sound(s, d) && Reported(s)
    ensures Steppable(s) && d.Valid()
    ensures var r := Feed(s, d, data);
            && Reported(r.stream)
            && r.stream.finalState == if r.status == SUCCESS && Done(r.stream) then 1 else s.finalState
  {
    hide Sound, Run, Reported, Steppable, Disk.Valid, Disk.Quiet, Done;
    RunReports(s, d, data);
    RunKeepsFinal(s, d, data);
    RunSound(s, d, data);
    var r := Run(s, d, data);
    DoneAtEnd(r.stream, r.disk);
    FinalReports(r.stream, 1);
  }

  lemma DoneAtEnd(s: Stream, d: Disk)
    requires Sound(s, d)
    ensures Done(s) <==> s.index >= |s.plan.entries|
    ensures Done(s.(finalState := 1)) <==> Done(s)
  {
  }

  lemma FinalReports(s: Stream, f: u32)
    requires Reported(s)
    ensures Reported(s.(finalState := f))
  {
    hide SectorOf;
  }

  lemma {:induction false} RunKeepsFinal(s: Stream, d: Disk, data: seq<byte>)
    requires Steppable(s) && d.Valid()
    ensures Run(s, d, data).stream.finalState == s.finalState
    decreases |data|, |s.plan.entries| - s.index
  {
    hide WriteFrom, Overlay;
    if data != [] {
      var t := Step(s, d, data);
      if !IsError(t.status) {
        RunKeepsFinal(t.stream, t.disk, data[t.took..]);
      }
    }
  }

  /** A started context has reported no sector and is not final. */
  lemma InitReports(header: Contents, media: Media, commit: bool)
    requires Init(header, media, commit).status == SUCCESS
    ensures Reported(Init(header, media, commit).stream)
    ensures Init(header, media, commit).stream.lastSector == 0xFFFF_FFFF
    ensures Init(header, media, commit).stream.finalState == 0
  {
    hide Parse, MaxBytes, Zeros;
  }

  /** The refusals of initialisation, in order: the device, the header, an entry beyond a packet. */
  lemma InitRefusals(header: Contents, media: Media, commit: bool)
    ensures var r := Init(header, media, commit);
            && (r.status != SUCCESS ==> r.stream == ZEROED)
            && r.status ==
               if !media.present || media.readOnly || media.blockSize == 0 then UNSUPPORTED
               else match Parse(HeaderBytes, header)
                    case Err(st) => st
                    case Ok(plan) =>
                      if exists j :: 0 <= j < |plan.entries| && plan.entries[j].byteCount > 0x1F_FC18 then UNSUPPORTED
                      else SUCCESS
  {
    InitAccepts(header, media, commit);
    hide Parse, MaxBytes, Zeros;
  }
}
