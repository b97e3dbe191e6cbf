/** ffu_flash_to_block_io (src/ffu.c): flashing from a local file. Every location of every entry is
    written in bounded, aligned chunks read straight from the file. */
module DirectFlash {
  import opened Bytes
  import opened BlockIo
  import opened FfuLayout
  import opened StreamFlash

  datatype Flashed = Flashed(status: u64, disk: Disk)

  /** Bytes written per chunk: a mebibyte or one block, cut to whole blocks. */
  function BufferSize(mediaBlock: u32): nat
    requires 0 < mediaBlock
  {
    var size := if 0x10_0000 < mediaBlock then mediaBlock else 0x10_0000;
    size - size % mediaBlock
  }

  function ChunkSize(remaining: nat, mediaBlock: u32): (r: nat)
    requires 0 < mediaBlock
    ensures r <= remaining
  {
    var take := Min(remaining, BufferSize(mediaBlock));
    take - take % mediaBlock
  }

  function BlocksIn(n: nat, mediaBlock: u32): (r: nat)
    requires 0 < mediaBlock
    ensures r <= n
  {
    DoneBlocks(n, mediaBlock);
    n / mediaBlock
  }

  lemma DoneBlocks(n: nat, mediaBlock: u32)
    requires 0 < mediaBlock
    ensures 0 <= n / mediaBlock <= n
  {
    var q := n / mediaBlock;
    MulMonotone(1, mediaBlock, q);
    assert n == q * mediaBlock + n % mediaBlock;
  }

  /** The chunk loop for one location, `done` bytes into the entry; st is the last status. */
  function WriteChunks(f: Contents, e: WriteEntry, lba: u64, done: nat, st: u64, d: Disk, commit: bool): (r: Flashed)
    requires d.Valid() && d.Writable() && done <= e.byteCount
    ensures r.disk.Valid() && r.disk.media == d.media
    ensures d.Quiet() ==> r.disk.Quiet()
    decreases e.byteCount - done
  {
    if done == e.byteCount then Flashed(st, d)
    else
      var mb := d.media.blockSize;
      var take := ChunkSize(e.byteCount - done, mb);
      if take == 0 then Flashed(BAD_BUFFER_SIZE, d)
      else if !commit then WriteChunks(f, e, lba, done + take, st, d, commit)
      else
        var data := ReadExact(FileView, f, Wrap64(e.payloadOffset as int + done), take);
        if data.Err? then Flashed(data.status, d)
        else
          var w := WriteBlocks(d, lba + BlocksIn(done, mb), data.value);
          if IsError(w.status) then Flashed(w.status, w.disk)
          else WriteChunks(f, e, lba, done + take, w.status, w.disk, commit)
  }

  /** The checks made for one location before anything is written; the result is its first block. */
  function Admit(f: Contents, e: WriteEntry, blockSize: u32, media: Media, l: nat): (r: Result<u64>)
    requires 0 < media.blockSize
    ensures r.Err? ==> IsError(r.status)
  {
    var loc :- ReadLocation(FileView, f, e, l);
    if loc.accessMethod != 0 then Err(UNSUPPORTED)
    else
      var target := TargetByte(loc.block, blockSize);
      if target % media.blockSize != 0 then Err(UNSUPPORTED)
      else
        QuotientBound(loc.block, blockSize, media.blockSize);
        var lba := target / media.blockSize;
        if lba > media.lastBlock || BlocksIn(e.byteCount, media.blockSize) > media.lastBlock - lba + 1 then
          Err(BAD_BUFFER_SIZE)
        else Ok(lba)
  }

  /** The location loop for one entry. */
  function FlashLocations(
    f: Contents, e: WriteEntry, blockSize: u32, l: nat, st: u64, d: Disk, commit: bool): (r: Flashed)
    requires d.Valid() && d.Writable() && l <= e.locationCount
    ensures r.disk.Valid() && r.disk.media == d.media
    ensures d.Quiet() ==> r.disk.Quiet()
    decreases e.locationCount - l
  {
    if l == e.locationCount then Flashed(st, d)
    else
      var lba := Admit(f, e, blockSize, d.media, l);
      if lba.Err? then Flashed(lba.status, d)
      else
        var r := WriteChunks(f, e, lba.value, 0, SUCCESS, d, commit);
        if IsError(r.status) then r else FlashLocations(f, e, blockSize, l + 1, r.status, r.disk, commit)
  }

  /** As every parsed plan: entries name a store, and their descriptors have 64-bit addresses. */
  predicate Indexed(plan: Plan) {
    forall j :: 0 <= j < |plan.entries| ==>
      plan.entries[j].storeIndex < |plan.stores| &&
      plan.entries[j].descriptorOffset + 8 + 8 * (plan.entries[j].locationCount as int) < TWO_64
  }

  /** How the entry loop ended: by a jump to the clean-up, or by leaving the loop, which an entry
      of a misaligned size does as well. */
  datatype Looped = Looped(status: u64, disk: Disk, jumped: bool)

  /** The entry loop. */
  function FlashEntries(f: Contents, plan: Plan, i: nat, st: u64, d: Disk, commit: bool): (r: Looped)
    requires d.Valid() && d.Writable() && Indexed(plan) && i <= |plan.entries|
    ensures r.disk.Valid() && r.disk.media == d.media
    ensures d.Quiet() ==> r.disk.Quiet()
    ensures r.jumped ==> IsError(r.status)
    decreases |plan.entries| - i
  {
    if i == |plan.entries| then Looped(st, d, false)
    else
      var e := plan.entries[i];
      if e.byteCount % d.media.blockSize != 0 then Looped(UNSUPPORTED, d, false)
      else
        var r := FlashLocations(f, e, plan.stores[e.storeIndex].blockSize, 0, st, d, commit);
        if IsError(r.status) then Looped(r.status, r.disk, true)
        else FlashEntries(f, plan, i + 1, r.status, r.disk, commit)
  }

  /** ffu_flash_to_block_io; flush is what FlushBlocks returns, if the device has it. A committed
      run that leaves the entry loop returns the flush status, whatever the loop's status was. */
  function Flash(f: Contents, plan: Plan, d: Disk, commit: bool, flush: Option<u64>): (r: Flashed)
    requires d.Valid() && Indexed(plan)
  {
    if !d.Writable() then Flashed(UNSUPPORTED, d)
    else
      var r := FlashEntries(f, plan, 0, SUCCESS, d, commit);
      Flashed(if !r.jumped && commit && flush.Some? then flush.value else r.status, r.disk)
  }

  // ----- the source's loops -----

  method FlashLocationChunks(view: FileHandle, e: WriteEntry, lba: u64, bio: BlockDevice, commit: bool, st0: u64)
    returns (st: u64)
    requires bio.State().Valid() && bio.State().Writable()
    requires lba + e.byteCount < TWO_64
    modifies view, bio
    ensures bio.State().Valid() && bio.State().Writable()
    ensures Flashed(st, bio.State()) == WriteChunks(view.contents, e, lba, 0, st0, old(bio.State()), commit)
  {
    hide ChunkSize, Disk.Valid, Disk.Quiet, WriteBlocks, Wrap64, BlocksIn;
    var remaining: u32, done: u32 := e.byteCount, 0;
    st := st0;
    ghost var d0 := bio.State();
    while remaining > 0
      invariant remaining + done == e.byteCount && bio.State().Valid() && bio.State().Writable()
      invariant bio.State().media == d0.media
      invariant WriteChunks(view.contents, e, lba, 0, st0, d0, commit) ==
                WriteChunks(view.contents, e, lba, done, st, bio.State(), commit)
    {
      var take := ChunkSize(remaining, bio.media.blockSize);
      if take == 0 {
        return BAD_BUFFER_SIZE;
      }
      if commit {
        var data := view.ReadAt(Wrap64(e.payloadOffset as int + done), take);
        if data.Err? {
          return data.status;
        }
        st := bio.Write(lba + BlocksIn(done, bio.media.blockSize), data.value);
        if IsError(st) {
          return st;
        }
      }
      remaining := remaining - take;
      done := done + take;
    }
  }

  lemma AdmitBound(f: Contents, e: WriteEntry, blockSize: u32, media: Media, l: nat)
    requires 0 < media.blockSize && Admit(f, e, blockSize, media, l).Ok?
    ensures Admit(f, e, blockSize, media, l).value + e.byteCount < TWO_64
  {
    hide ReadLocation;
    var loc := ReadLocation(FileView, f, e, l).value;
    Product(loc.block, blockSize);
    MulMonotone(blockSize, 0xFFFF_FFFF, loc.block);
    DoneBlocks(TargetByte(loc.block, blockSize), media.blockSize);
    BlockTimes(loc.block, blockSize);
  }

  lemma BlockTimes(a: u32, b: u32)
    ensures TargetByte(a, b) <= 0xFFFF_FFFF * 0xFFFF_FFFF
  {
    MulMonotone(a, 0xFFFF_FFFF, b);
  }

  method FfuFlashToBlockIo(view: FileHandle, plan: Plan, bio: BlockDevice, commit: bool, flush: Option<u64>)
    returns (st: u64)
    requires bio.State().Valid() && Indexed(plan)
    modifies view, bio
    ensures bio.State().Valid()
    ensures Flashed(st, bio.State()) == Flash(view.contents, plan, old(bio.State()), commit, flush)
  {
    if !bio.media.present || bio.media.readOnly || bio.media.blockSize == 0 {
      return UNSUPPORTED;
    }
    hide FlashLocations, Disk.Valid, Disk.Quiet;
    ghost var d0 := bio.State();
    st := SUCCESS;
    var i := 0;
    while i < |plan.entries|
      invariant i <= |plan.entries| && bio.State().Valid() && bio.State().Writable() && bio.State().media == d0.media
      invariant FlashEntries(view.contents, plan, 0, SUCCESS, d0, commit) ==
                FlashEntries(view.contents, plan, i, st, bio.State(), commit)
    {
      var entry := plan.entries[i];
      if entry.byteCount % bio.media.blockSize != 0 {
        st := UNSUPPORTED;
        assert FlashEntries(view.contents, plan, 0, SUCCESS, d0, commit) == Looped(st, bio.State(), false);
        break;
      }
      st := FlashEntryLocations(view, entry, plan.stores[entry.storeIndex].blockSize, bio, commit, st);
      if IsError(st) {
        return st;
      }
      i := i + 1;
    }
    if commit && flush.Some? {
      st := flush.value;
    }
  }

  method FlashEntryLocations(view: FileHandle, e: WriteEntry, blockSize: u32, bio: BlockDevice, commit: bool, st0: u64)
    returns (st: u64)
    requires bio.State().Valid() && bio.State().Writable()
    requires e.descriptorOffset + 8 + 8 * (e.locationCount as int) < TWO_64
    modifies view, bio
    ensures bio.State().Valid() && bio.State().Writable() && bio.State().media == old(bio.State()).media
    ensures Flashed(st, bio.State()) == FlashLocations(view.contents, e, blockSize, 0, st0, old(bio.State()), commit)
  {
    hide WriteChunks, Admit, Disk.Valid, Disk.Quiet;
    ghost var d0 := bio.State();
    st := st0;
    var l: u32 := 0;
    while l < e.locationCount
      invariant l <= e.locationCount && bio.State().Valid() && bio.State().Writable() && bio.State().media == d0.media
      invariant FlashLocations(view.contents, e, blockSize, 0, st0, d0, commit) ==
                FlashLocations(view.contents, e, blockSize, l, st, bio.State(), commit)
    {
      var lba := AdmitLocation(view, e, blockSize, bio.media, l);
      if lba.Err? {
        return lba.status;
      }
      AdmitBound(view.contents, e, blockSize, bio.media, l);
      st := FlashLocationChunks(view, e, lba.value, bio, commit, SUCCESS);
      if IsError(st) {
        return st;
      }
      l := l + 1;
    }
  }

  method AdmitLocation(view: FileHandle, e: WriteEntry, blockSize: u32, media: Media, l: u32) returns (r: Result<u64>)
    requires 0 < media.blockSize && e.descriptorOffset + 16 + 8 * (l as int) < TWO_64
    modifies view
    ensures r == Admit(view.contents, e, blockSize, media, l)
  {
    var loc :- view.ReadAt(e.descriptorOffset + 8 + 8 * (l as int), 8);
    if RdLe32(loc, 0) != 0 {
      return Err(UNSUPPORTED);
    }
    var target := TargetByte(RdLe32(loc, 4), blockSize);
    if target % media.blockSize != 0 {
      return Err(UNSUPPORTED);
    }
    QuotientBound(RdLe32(loc, 4), blockSize, media.blockSize);
    var lba := target / media.blockSize;
    if lba > media.lastBlock || BlocksIn(e.byteCount, media.blockSize) > media.lastBlock - lba + 1 {
      return Err(BAD_BUFFER_SIZE);
    }
    return Ok(lba);
  }
}
