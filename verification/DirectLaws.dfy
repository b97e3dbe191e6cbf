/** Laws of the direct flasher: chunked writes tile each location exactly, a completed run is the
    replay of the whole plan, and a dry run predicts the committed one. */
module DirectLaws {
  import opened Bytes
  import opened BlockIo
  import opened FfuLayout
  import opened StreamFlash
  import opened StreamLaws
  import opened StreamRuns
  import opened DirectFlash
  import PlanFacts

  // ----- chunk sizes -----

  lemma CutToBlocks(x: nat, m: nat)
    requires m > 0
    ensures x % m <= x && Multiple(x - x % m, m) && (x >= m ==> x - x % m >= m)
  {
    MultipleOf(x / m, m);
    assert x == m * (x / m) + x % m;
    if x >= m {
      assert x / m >= 1;
      MulMonotone(1, x / m, m);
    }
  }

  lemma MultipleAtLeast(x: nat, m: nat)
    requires Multiple(x, m) && x > 0
    ensures x >= m
  {
  }

  /** The `!take` branch is dead: what remains of an aligned entry always yields a whole chunk, which is
      all of it or as many whole blocks as go into a mebibyte, or one larger block. */
  lemma ChunkIsWhole(remaining: nat, mediaBlock: u32)
    requires 0 < mediaBlock && remaining > 0 && Multiple(remaining, mediaBlock)
    ensures var take := ChunkSize(remaining, mediaBlock);
            var limit := if 0x10_0000 < mediaBlock then mediaBlock else 0x10_0000;
            && 0 < take <= remaining && Multiple(take, mediaBlock)
            && take <= limit && (take == remaining || take + mediaBlock > limit)
  {
    MultipleAtLeast(remaining, mediaBlock);
    var limit := if 0x10_0000 < mediaBlock then mediaBlock else 0x10_0000;
    CutToBlocks(limit, mediaBlock);
    CutToBlocks(Min(remaining, BufferSize(mediaBlock)), mediaBlock);
    BufferIsMost(mediaBlock);
    hide BufferSize;
  }

  lemma BufferIsMost(mediaBlock: u32)
    requires 0 < mediaBlock
    ensures var limit := if 0x10_0000 < mediaBlock then mediaBlock else 0x10_0000;
            Multiple(BufferSize(mediaBlock), mediaBlock) && BufferSize(mediaBlock) <= limit
            < BufferSize(mediaBlock) + mediaBlock
  {
    CutToBlocks(if 0x10_0000 < mediaBlock then mediaBlock else 0x10_0000, mediaBlock);
    hide Multiple;
  }

  lemma MultipleSub(x: int, y: int, m: nat)
    requires Multiple(x, m) && Multiple(y, m)
    ensures Multiple(x - y, m)
  {
    AddMultiple(x, -(y / m), m);
  }

  /** A byte offset counted in whole blocks. */
  lemma BlockAddress(lba: nat, done: nat, mediaBlock: u32)
    requires Multiple(done, mediaBlock)
    ensures ByteOffset(lba + BlocksIn(done, mediaBlock), mediaBlock) == ByteOffset(lba, mediaBlock) + done
  {
  }

  // ----- the requests of one location -----

  datatype Request = Request(lba: nat, len: nat)

  /** The WriteBlocks requests the chunk loop makes when nothing fails. */
  function Requests(lba: nat, byteCount: nat, done: nat, mediaBlock: u32): seq<Request>
    requires 0 < mediaBlock && done <= byteCount
    decreases byteCount - done
  {
    var take := ChunkSize(byteCount - done, mediaBlock);
    if done == byteCount || take == 0 then []
    else [Request(lba + BlocksIn(done, mediaBlock), take)] + Requests(lba, byteCount, done + take, mediaBlock)
  }

  /** The requests cover blocks [from, to) in order, without gap or overlap, each in whole blocks. */
  predicate Tiles(requests: seq<Request>, from: nat, to: nat, mediaBlock: u32)
    requires 0 < mediaBlock
  {
    if requests == [] then from == to
    else
      var r := requests[0];
      r.lba == from && 0 < r.len && Multiple(r.len, mediaBlock) && r.lba + BlocksIn(r.len, mediaBlock) <= to &&
      Tiles(requests[1..], r.lba + BlocksIn(r.len, mediaBlock), to, mediaBlock)
  }

  lemma BlocksAdd(a: nat, b: nat, mediaBlock: u32)
    requires Multiple(a, mediaBlock)
    ensures BlocksIn(a + b, mediaBlock) == BlocksIn(a, mediaBlock) + BlocksIn(b, mediaBlock)
  {
    DivModUnique(a + b, mediaBlock, a / mediaBlock + b / mediaBlock, b % mediaBlock);
  }

  lemma {:induction false} RequestsTile(lba: nat, byteCount: nat, done: nat, mediaBlock: u32)
    requires 0 < mediaBlock && done <= byteCount && Multiple(byteCount, mediaBlock) && Multiple(done, mediaBlock)
    ensures Tiles(
              Requests(lba, byteCount, done, mediaBlock),
              lba + BlocksIn(done, mediaBlock), lba + BlocksIn(byteCount, mediaBlock), mediaBlock)
    decreases byteCount - done
  {
    hide Multiple, ChunkSize, BlocksIn;
    if done < byteCount {
      MultipleSub(byteCount, done, mediaBlock);
      ChunkIsWhole(byteCount - done, mediaBlock);
      var take := ChunkSize(byteCount - done, mediaBlock);
      MultipleAdd(done, take, mediaBlock);
      BlocksAdd(done, take, mediaBlock);
      BlocksAdd(done + take, byteCount - done - take, mediaBlock);
      RequestsTile(lba, byteCount, done + take, mediaBlock);
      assert Requests(lba, byteCount, done, mediaBlock)[1..] == Requests(lba, byteCount, done + take, mediaBlock);
    }
  }

  /** Reading and writing a list of requests in order, stopping at the first error. */
  function Perform(f: Contents, e: WriteEntry, requests: seq<Request>, done: nat, st: u64, d: Disk): (r: Flashed)
    requires d.Valid()
    decreases |requests|
  {
    if requests == [] then Flashed(st, d)
    else
      var data := ReadExact(FileView, f, Wrap64(e.payloadOffset as int + done), requests[0].len);
      if data.Err? then Flashed(data.status, d)
      else
        var w := WriteBlocks(d, requests[0].lba, data.value);
        if IsError(w.status) then Flashed(w.status, w.disk)
        else Perform(f, e, requests[1..], done + requests[0].len, w.status, w.disk)
  }

  /** A committed chunk loop performs exactly those requests. */
  lemma {:induction false} ChunksPerform(f: Contents, e: WriteEntry, lba: u64, done: nat, st: u64, d: Disk)
    requires d.Valid() && d.Writable() && done <= e.byteCount
    requires Multiple(e.byteCount, d.media.blockSize) && Multiple(done, d.media.blockSize)
    ensures WriteChunks(f, e, lba, done, st, d, true) ==
            Perform(f, e, Requests(lba, e.byteCount, done, d.media.blockSize), done, st, d)
    decreases e.byteCount - done
  {
    hide Multiple, ChunkSize, BlocksIn, ByteOffset, WriteBlocks, Disk.Valid, Disk.Quiet, Wrap64;
    if done < e.byteCount {
      var mb := d.media.blockSize;
      MultipleSub(e.byteCount, done, mb);
      ChunkIsWhole(e.byteCount - done, mb);
      var take := ChunkSize(e.byteCount - done, mb);
      MultipleAdd(done, take, mb);
      assert Requests(lba, e.byteCount, done, mb)[1..] == Requests(lba, e.byteCount, done + take, mb);
      var data := ReadExact(FileView, f, Wrap64(e.payloadOffset as int + done), take);
      if data.Ok? {
        var w := WriteBlocks(d, lba + BlocksIn(done, mb), data.value);
        if !IsError(w.status) {
          ChunksPerform(f, e, lba, done + take, w.status, w.disk);
        }
      }
    }
  }

  // ----- one location -----

  /** A committed chunk loop that succeeds has read the whole entry from the file. */
  lemma {:induction false} ChunksRead(f: Contents, e: WriteEntry, lba: u64, done: nat, st: u64, d: Disk)
    requires d.Valid() && d.Writable() && done <= e.byteCount
    requires done == 0 || e.payloadOffset + done <= |f|
    requires !IsError(WriteChunks(f, e, lba, done, st, d, true).status)
    ensures done < e.byteCount ==> e.payloadOffset + e.byteCount <= |f|
    decreases e.byteCount - done
  {
    hide ChunkSize, BlocksIn, WriteBlocks, Disk.Valid, Disk.Quiet;
    if done < e.byteCount {
      var mb := d.media.blockSize;
      var take := ChunkSize(e.byteCount - done, mb);
      PlanFacts.WrapNone(e.payloadOffset + done);
      var data := ReadExact(FileView, f, Wrap64(e.payloadOffset as int + done), take);
      var w := WriteBlocks(d, lba + BlocksIn(done, mb), data.value);
      ChunksRead(f, e, lba, done + take, w.status, w.disk);
    }
  }

  /** Chunked writing is one whole-entry write: what the loop has put on the medium is always the
      first `done` bytes of the payload at the location. */
  lemma {:induction false} ChunksEffect(
    f: Contents, e: WriteEntry, lba: u64, done: nat, st: u64, d: Disk, base: seq<byte>)
    requires d.Valid() && d.Writable() && done <= e.byteCount && |base| == |d.image|
    requires Multiple(e.byteCount, d.media.blockSize) && Multiple(done, d.media.blockSize)
    requires e.payloadOffset + e.byteCount <= |f|
    requires ByteOffset(lba, d.media.blockSize) + e.byteCount <= |base|
    requires d.image == Splice(base, ByteOffset(lba, d.media.blockSize), f[e.payloadOffset..e.payloadOffset + done])
    ensures var r := WriteChunks(f, e, lba, done, st, d, true);
            !IsError(r.status) ==>
              r.disk.image == Splice(
                base, ByteOffset(lba, d.media.blockSize), f[e.payloadOffset..e.payloadOffset + e.byteCount])
    decreases e.byteCount - done
  {
    hide Multiple, ChunkSize, BlocksIn, ByteOffset, WriteBlocks, Disk.Valid, Disk.Quiet, Splice;
    if done < e.byteCount {
      var mb := d.media.blockSize;
      MultipleSub(e.byteCount, done, mb);
      ChunkIsWhole(e.byteCount - done, mb);
      var take := ChunkSize(e.byteCount - done, mb);
      MultipleAdd(done, take, mb);
      var w := OneChunk(f, e, lba, done, st, d, base);
      if !IsError(w.status) {
        ChunksEffect(f, e, lba, done + take, w.status, w.disk, base);
      }
    }
  }

  /** One turn of the chunk loop reads the next chunk of the payload and writes it. */
  lemma ChunkTurn(f: Contents, e: WriteEntry, lba: u64, done: nat, st: u64, d: Disk)
    requires d.Valid() && d.Writable() && done < e.byteCount && 0 < ChunkSize(e.byteCount - done, d.media.blockSize)
    requires e.payloadOffset + e.byteCount <= |f|
    ensures var take := ChunkSize(e.byteCount - done, d.media.blockSize);
            var w := WriteBlocks(
              d, lba + BlocksIn(done, d.media.blockSize), f[e.payloadOffset + done..e.payloadOffset + (done + take)]);
            WriteChunks(f, e, lba, done, st, d, true) ==
            if IsError(w.status) then Flashed(w.status, w.disk)
            else WriteChunks(f, e, lba, done + take, w.status, w.disk, true)
  {
    hide ChunkSize, BlocksIn, WriteBlocks, Disk.Valid, Disk.Quiet, Wrap64;
    PlanFacts.WrapNone(e.payloadOffset + done);
  }

  /** What a turn does to the medium. */
  lemma OneChunk(f: Contents, e: WriteEntry, lba: u64, done: nat, st: u64, d: Disk, base: seq<byte>)
    returns (w: Written)
    requires d.Valid() && d.Writable() && done < e.byteCount && |base| == |d.image|
    requires Multiple(done, d.media.blockSize) && 0 < ChunkSize(e.byteCount - done, d.media.blockSize)
    requires e.payloadOffset + e.byteCount <= |f|
    requires ByteOffset(lba, d.media.blockSize) + e.byteCount <= |base|
    requires d.image == Splice(base, ByteOffset(lba, d.media.blockSize), f[e.payloadOffset..e.payloadOffset + done])
    ensures var take := ChunkSize(e.byteCount - done, d.media.blockSize);
            && w.disk.Valid() && w.disk.media == d.media
            && (if IsError(w.status) then WriteChunks(f, e, lba, done, st, d, true).status == w.status
                else
                  && WriteChunks(f, e, lba, done, st, d, true) ==
                     WriteChunks(f, e, lba, done + take, w.status, w.disk, true)
                  && w.disk.image == Splice(
                     base, ByteOffset(lba, d.media.blockSize), f[e.payloadOffset..e.payloadOffset + (done + take)]))
  {
    hide Multiple, ChunkSize, BlocksIn, ByteOffset, WriteBlocks, WriteChunks, Disk.Valid, Disk.Quiet, Splice;
    var mb := d.media.blockSize;
    var off := e.payloadOffset;
    var take := ChunkSize(e.byteCount - done, mb);
    var data := f[off + done..off + (done + take)];
    ChunkTurn(f, e, lba, done, st, d);
    w := WriteBlocks(d, lba + BlocksIn(done, mb), data);
    if !IsError(w.status) {
      BlockAddress(lba, done, mb);
      ChunkLands(d, lba + BlocksIn(done, mb), ByteOffset(lba, mb) + done, data);
      SpliceJoin(base, ByteOffset(lba, mb), f[off..off + done], data);
      assert f[off..off + done] + data == f[off..off + (done + take)];
    }
  }

  lemma ChunkLands(d: Disk, lba: nat, target: nat, buf: seq<byte>)
    requires d.Valid() && ByteOffset(lba, d.media.blockSize) == target && !IsError(WriteBlocks(d, lba, buf).status)
    ensures WriteBlocks(d, lba, buf).disk.image == Splice(d.image, target, buf)
  {
  }

  /** A dry run of the chunk loop changes nothing and does not fail. */
  lemma {:induction false} DryChunks(f: Contents, e: WriteEntry, lba: u64, done: nat, st: u64, d: Disk)
    requires d.Valid() && d.Writable() && done <= e.byteCount
    ensures WriteChunks(f, e, lba, done, st, d, false).disk == d
    ensures Multiple(e.byteCount, d.media.blockSize) && Multiple(done, d.media.blockSize) ==>
              WriteChunks(f, e, lba, done, st, d, false).status == st
    decreases e.byteCount - done
  {
    hide Multiple, ChunkSize, Disk.Valid, Disk.Quiet;
    var mb := d.media.blockSize;
    var take := ChunkSize(e.byteCount - done, mb);
    if done < e.byteCount && take > 0 {
      DryChunks(f, e, lba, done + take, st, d);
    }
    if done < e.byteCount && Multiple(e.byteCount, mb) && Multiple(done, mb) {
      MultipleSub(e.byteCount, done, mb);
      ChunkIsWhole(e.byteCount - done, mb);
      MultipleAdd(done, take, mb);
    }
  }

  /** On a device that does not fail, a readable and admitted location is written. */
  lemma {:induction false} QuietChunks(f: Contents, e: WriteEntry, lba: u64, done: nat, st: u64, d: Disk)
    requires d.Valid() && d.Writable() && d.Quiet() && done <= e.byteCount && !IsError(st)
    requires Multiple(e.byteCount, d.media.blockSize) && Multiple(done, d.media.blockSize)
    requires e.payloadOffset + e.byteCount <= |f|
    requires ByteOffset(lba, d.media.blockSize) + e.byteCount <= ByteOffset(d.media.lastBlock + 1, d.media.blockSize)
    ensures !IsError(WriteChunks(f, e, lba, done, st, d, true).status)
    decreases e.byteCount - done
  {
    hide Multiple, ChunkSize, BlocksIn, ByteOffset, WriteBlocks, Disk.Valid, Disk.Quiet, Refusal;
    if done < e.byteCount {
      var mb := d.media.blockSize;
      var off := e.payloadOffset;
      MultipleSub(e.byteCount, done, mb);
      ChunkIsWhole(e.byteCount - done, mb);
      var take := ChunkSize(e.byteCount - done, mb);
      MultipleAdd(done, take, mb);
      var data := f[off + done..off + (done + take)];
      ChunkTurn(f, e, lba, done, st, d);
      BlockAddress(lba, done, mb);
      NotRefused(d.media, lba + BlocksIn(done, mb), ByteOffset(lba, mb) + done, take);
      QuietAccepts(d, lba + BlocksIn(done, mb), data);
      var w := WriteBlocks(d, lba + BlocksIn(done, mb), data);
      QuietChunks(f, e, lba, done + take, w.status, w.disk);
    }
  }

  lemma NotRefused(media: Media, lba: nat, target: nat, len: nat)
    requires media.present && !media.readOnly && Multiple(len, media.blockSize)
    requires ByteOffset(lba, media.blockSize) == target
    requires target + len <= ByteOffset(media.lastBlock + 1, media.blockSize)
    ensures Refusal(media, lba, len) == SUCCESS
  {
  }

  // ----- checks made by both flashers -----

  lemma SameLocation(f: seq<byte>, e: WriteEntry, l: nat)
    ensures ReadLocation(FileView, f, e, l).Ok? <==> ReadLocation(HeaderBytes, f, e, l).Ok?
    ensures ReadLocation(FileView, f, e, l).Ok? ==>
              ReadLocation(FileView, f, e, l) == ReadLocation(HeaderBytes, f, e, l)
  {
  }

  /** Counting in blocks and counting in bytes give the same range check. */
  lemma RangeInBlocks(lba: nat, n: nat, lastBlock: nat, m: u32)
    requires 0 < m && Multiple(n, m) && n > 0
    ensures lba <= lastBlock && BlocksIn(n, m) <= lastBlock - lba + 1 <==>
            ByteOffset(lba, m) + n <= ByteOffset(lastBlock + 1, m)
  {
    MultipleAtLeast(n, m);
    var k := BlocksIn(n, m);
    assert n == k * m && k >= 1;
    BlockAddress(lba, n, m);
    if lba + k <= lastBlock + 1 {
      MulMonotone(lba + k, lastBlock + 1, m);
    } else {
      MulMonotone(lastBlock + 2, lba + k, m);
      assert (lastBlock + 2) * m == (lastBlock + 1) * m + m;
    }
  }

  /** For an aligned, nonempty entry the direct flasher admits a location exactly when the stream
      can locate it and the device would accept the whole entry there. */
  lemma AdmitIsFit(f: Contents, plan: Plan, media: Media, j: nat, l: nat)
    requires media.present && !media.readOnly && 0 < media.blockSize && j < |plan.entries|
    requires Multiple(plan.entries[j].byteCount, media.blockSize) && 0 < plan.entries[j].byteCount
    ensures var e := plan.entries[j];
            var bs := BlockSizeOf(plan, j);
            && (Admit(f, e, bs, media, l).Ok? <==> LocationFits(f, plan, media, j, l))
            && (Admit(f, e, bs, media, l).Ok? ==> Admit(f, e, bs, media, l) == Locate(f, e, bs, media.blockSize, l))
  {
    hide ReadLocation, TargetByte, ByteOffset, BlocksIn;
    var e, bs := plan.entries[j], BlockSizeOf(plan, j);
    SameLocation(f, e, l);
    var loc := ReadLocation(FileView, f, e, l);
    if loc.Ok? {
      QuotientBound(loc.value.block, bs, media.blockSize);
      RangeInBlocks(TargetByte(loc.value.block, bs) / media.blockSize, e.byteCount, media.lastBlock, media.blockSize);
    }
  }

  lemma AdmittedTarget(f: Contents, e: WriteEntry, bs: u32, media: Media, l: nat)
    requires 0 < media.blockSize && Admit(f, e, bs, media, l).Ok?
    ensures ByteOffset(Admit(f, e, bs, media, l).value, media.blockSize) == Target(f, e, bs, l)
  {
  }

  lemma FitsInBytes(f: Contents, plan: Plan, media: Media, j: nat, l: nat)
    requires j < |plan.entries| && LocationFits(f, plan, media, j, l)
    ensures var e := plan.entries[j];
            var lba := Locate(f, e, BlockSizeOf(plan, j), media.blockSize, l).value;
            ByteOffset(lba, media.blockSize) + e.byteCount <= ByteOffset(media.lastBlock + 1, media.blockSize)
  {
  }

  // ----- one entry -----

  function Payload(f: Contents, e: WriteEntry): seq<byte>
    requires e.payloadOffset + e.byteCount <= |f|
  {
    f[e.payloadOffset..e.payloadOffset + e.byteCount]
  }

  lemma ChunksZero(f: Contents, e: WriteEntry, lba: u64, d: Disk)
    requires d.Valid() && d.Writable() && Multiple(e.byteCount, d.media.blockSize)
    requires e.payloadOffset + e.byteCount <= |f|
    requires ByteOffset(lba, d.media.blockSize) + e.byteCount <= |d.image|
    ensures var r := WriteChunks(f, e, lba, 0, SUCCESS, d, true);
            !IsError(r.status) ==> r.disk.image == Splice(d.image, ByteOffset(lba, d.media.blockSize), Payload(f, e))
  {
    hide ByteOffset, WriteChunks;
    MultipleOf(0, d.media.blockSize);
    var off := ByteOffset(lba, d.media.blockSize);
    assert f[e.payloadOffset..e.payloadOffset + 0] == [];
    assert Splice(d.image, off, []) == d.image;
    ChunksEffect(f, e, lba, 0, SUCCESS, d, d.image);
  }

  /** A committed location loop that succeeds has landed every location with the file's payload. */
  lemma {:induction false} LocationsEffect(f: Contents, plan: Plan, j: nat, l: nat, st: u64, d: Disk, base: seq<byte>)
    requires d.Valid() && d.Writable() && j < |plan.entries| && l <= plan.entries[j].locationCount
    requires Multiple(plan.entries[j].byteCount, d.media.blockSize) && 0 < plan.entries[j].byteCount
    requires plan.entries[j].payloadOffset + plan.entries[j].byteCount <= |f| ==>
               d.image == Landed(base, f, plan.entries[j], BlockSizeOf(plan, j), Payload(f, plan.entries[j]), l)
    requires !IsError(FlashLocations(f, plan.entries[j], BlockSizeOf(plan, j), l, st, d, true).status)
    ensures l < plan.entries[j].locationCount ==> plan.entries[j].payloadOffset + plan.entries[j].byteCount <= |f|
    ensures plan.entries[j].payloadOffset + plan.entries[j].byteCount <= |f| ==>
              FlashLocations(f, plan.entries[j], BlockSizeOf(plan, j), l, st, d, true).disk.image ==
              Landed(base, f, plan.entries[j], BlockSizeOf(plan, j), Payload(f, plan.entries[j]),
                plan.entries[j].locationCount)
    ensures forall k :: l <= k < plan.entries[j].locationCount ==> LocationFits(f, plan, d.media, j, k)
    decreases plan.entries[j].locationCount - l
  {
    hide Admit, WriteChunks, Multiple, ByteOffset, Target, Payload, LocationFits, Splice, Locate;
    var e, bs := plan.entries[j], BlockSizeOf(plan, j);
    if l < e.locationCount {
      var lba := Admit(f, e, bs, d.media, l).value;
      AdmitIsFit(f, plan, d.media, j, l);
      AdmittedTarget(f, e, bs, d.media, l);
      FitsInBytes(f, plan, d.media, j, l);
      ChunksRead(f, e, lba, 0, SUCCESS, d);
      ChunksZero(f, e, lba, d);
      var r := WriteChunks(f, e, lba, 0, SUCCESS, d, true);
      LocationsEffect(f, plan, j, l + 1, r.status, r.disk, base);
    }
  }

  lemma {:induction false} DryLocations(f: Contents, plan: Plan, j: nat, l: nat, st: u64, d: Disk)
    requires d.Valid() && d.Writable() && j < |plan.entries| && l <= plan.entries[j].locationCount && !IsError(st)
    requires Multiple(plan.entries[j].byteCount, d.media.blockSize) && 0 < plan.entries[j].byteCount
    ensures var r := FlashLocations(f, plan.entries[j], BlockSizeOf(plan, j), l, st, d, false);
            && r.disk == d
            && (!IsError(r.status) <==>
                forall k :: l <= k < plan.entries[j].locationCount ==> LocationFits(f, plan, d.media, j, k))
    decreases plan.entries[j].locationCount - l
  {
    hide Admit, WriteChunks, Multiple, LocationFits, Locate, Disk.Quiet;
    var e, bs := plan.entries[j], BlockSizeOf(plan, j);
    if l < e.locationCount {
      AdmitIsFit(f, plan, d.media, j, l);
      var lba := Admit(f, e, bs, d.media, l);
      if lba.Ok? {
        MultipleOf(0, d.media.blockSize);
        assert d.media.blockSize * 0 == 0;
        DryChunks(f, e, lba.value, 0, SUCCESS, d);
        DryLocations(f, plan, j, l + 1, SUCCESS, d);
      }
    }
  }

  lemma {:induction false} QuietLocations(f: Contents, plan: Plan, j: nat, l: nat, st: u64, d: Disk)
    requires d.Valid() && d.Writable() && d.Quiet() && j < |plan.entries| && l <= plan.entries[j].locationCount
    requires !IsError(st)
    requires Multiple(plan.entries[j].byteCount, d.media.blockSize) && 0 < plan.entries[j].byteCount
    requires plan.entries[j].payloadOffset + plan.entries[j].byteCount <= |f|
    requires EntryFits(f, plan, d.media, j)
    ensures !IsError(FlashLocations(f, plan.entries[j], BlockSizeOf(plan, j), l, st, d, true).status)
    decreases plan.entries[j].locationCount - l
  {
    hide Admit, WriteChunks, Multiple, LocationFits, Locate, Disk.Quiet, ByteOffset;
    var e, bs := plan.entries[j], BlockSizeOf(plan, j);
    if l < e.locationCount {
      assert LocationFits(f, plan, d.media, j, l);
      AdmitIsFit(f, plan, d.media, j, l);
      FitsInBytes(f, plan, d.media, j, l);
      var lba := Admit(f, e, bs, d.media, l).value;
      MultipleOf(0, d.media.blockSize);
      assert d.media.blockSize * 0 == 0;
      QuietChunks(f, e, lba, 0, SUCCESS, d);
      var r := WriteChunks(f, e, lba, 0, SUCCESS, d, true);
      QuietLocations(f, plan, j, l + 1, r.status, r.disk);
    }
  }

  // ----- the whole plan -----

  /** The first entry from i on whose size is not a whole number of media blocks. */
  function FirstMisaligned(plan: Plan, mediaBlock: u32, i: nat): (m: nat)
    requires 0 < mediaBlock && i <= |plan.entries|
    ensures i <= m <= |plan.entries|
    ensures forall j :: i <= j < m ==> Multiple(plan.entries[j].byteCount, mediaBlock)
    ensures m < |plan.entries| ==> !Multiple(plan.entries[m].byteCount, mediaBlock)
    decreases |plan.entries| - i
  {
    if i == |plan.entries| || !Multiple(plan.entries[i].byteCount, mediaBlock) then i
    else FirstMisaligned(plan, mediaBlock, i + 1)
  }

  predicate Aligned(plan: Plan, mediaBlock: u32)
    requires 0 < mediaBlock
  {
    forall j :: 0 <= j < |plan.entries| ==> Multiple(plan.entries[j].byteCount, mediaBlock)
  }

  /** The described payload of the first k entries lies in the file. */
  predicate InFile(f: seq<byte>, plan: Plan, k: nat)
    requires k <= |plan.entries|
  {
    forall j :: 0 <= j < k ==> plan.entries[j].payloadOffset + plan.entries[j].byteCount <= |f|
  }

  /** The payload bytes of the first k entries, in order: what a USB host sends. */
  function Described(f: Contents, plan: Plan, k: nat): (w: seq<byte>)
    requires k <= |plan.entries| && InFile(f, plan, k)
    ensures |w| == PrefixBytes(plan.entries, k)
  {
    if k == 0 then [] else Described(f, plan, k - 1) + Payload(f, plan.entries[k - 1])
  }

  predicate Runnable(f: Contents, plan: Plan, d: Disk) {
    d.Valid() && d.Writable() && PlanFacts.WellFormed(f, plan) && Indexed(plan)
  }

  lemma ParsedIsIndexed(f: Contents, plan: Plan)
    requires PlanFacts.WellFormed(f, plan)
    ensures Indexed(plan)
  {
    forall j | 0 <= j < |plan.entries|
      ensures plan.entries[j].storeIndex < |plan.stores|
      ensures plan.entries[j].descriptorOffset + 8 + 8 * (plan.entries[j].locationCount as int) < TWO_64
    {
      PlanFacts.EntryFacts(f, plan, j);
    }
  }

  lemma EntryBasics(f: Contents, plan: Plan, j: nat)
    requires PlanFacts.WellFormed(f, plan) && j < |plan.entries|
    ensures var e := plan.entries[j];
            0 < e.byteCount && 0 < e.locationCount && e.storeIndex < |plan.stores| &&
            plan.stores[e.storeIndex].blockSize == BlockSizeOf(plan, j)
  {
    PlanFacts.EntryFacts(f, plan, j);
  }

  /** One more entry of the described payload replays one more entry. */
  lemma ReplayNext(img: seq<byte>, f: Contents, plan: Plan, k: nat)
    requires k < |plan.entries| && InFile(f, plan, k + 1)
    ensures var e := plan.entries[k];
            Replay(img, f, plan, Described(f, plan, k + 1), k + 1) ==
            Landed(Replay(img, f, plan, Described(f, plan, k), k), f, e, BlockSizeOf(plan, k), Payload(f, e),
              e.locationCount)
  {
    var w, more := Described(f, plan, k), Payload(f, plan.entries[k]);
    assert PrefixBytes(plan.entries, k + 1) == PrefixBytes(plan.entries, k) + plan.entries[k].byteCount;
    assert EntryPayload(plan, w + more, k) == more;
    ReplayPrefix(img, f, plan, w, more, k);
    hide Landed, Payload;
  }

  /** A committed entry loop that does not jump out has replayed exactly the entries in front of
      the first misaligned one, each of which fits the medium. */
  lemma {:induction false} EntriesEffect(f: Contents, plan: Plan, i: nat, st: u64, d: Disk, img: seq<byte>)
    requires Runnable(f, plan, d) && i <= |plan.entries| && InFile(f, plan, i) && !IsError(st)
    requires d.image == Replay(img, f, plan, Described(f, plan, i), i)
    requires !FlashEntries(f, plan, i, st, d, true).jumped
    ensures var r := FlashEntries(f, plan, i, st, d, true);
            var m := FirstMisaligned(plan, d.media.blockSize, i);
            && InFile(f, plan, m)
            && r.disk.image == Replay(img, f, plan, Described(f, plan, m), m)
            && (forall j :: i <= j < m ==> EntryFits(f, plan, d.media, j))
            && (IsError(r.status) <==> m < |plan.entries|)
    decreases |plan.entries| - i
  {
    hide FlashLocations, Replay, Described, EntryFits, PlanFacts.WellFormed, Disk.Valid, Disk.Quiet, Indexed;
    if i < |plan.entries| {
      EntryBasics(f, plan, i);
      var e, bs := plan.entries[i], BlockSizeOf(plan, i);
      IndexedAt(plan, i);
      if Multiple(e.byteCount, d.media.blockSize) {
        EntryEffect(f, plan, i, st, d, img);
        var r := FlashLocations(f, e, bs, 0, st, d, true);
        EntriesEffect(f, plan, i + 1, r.status, r.disk, img);
      }
    }
  }

  lemma IndexedAt(plan: Plan, i: nat)
    requires Indexed(plan) && i < |plan.entries|
    ensures plan.entries[i].storeIndex < |plan.stores|
  {
  }

  lemma EntryEffect(f: Contents, plan: Plan, i: nat, st: u64, d: Disk, img: seq<byte>)
    requires Runnable(f, plan, d) && i < |plan.entries| && InFile(f, plan, i)
    requires d.image == Replay(img, f, plan, Described(f, plan, i), i)
    requires Multiple(plan.entries[i].byteCount, d.media.blockSize)
    requires !IsError(FlashLocations(f, plan.entries[i], BlockSizeOf(plan, i), 0, st, d, true).status)
    ensures var r := FlashLocations(f, plan.entries[i], BlockSizeOf(plan, i), 0, st, d, true);
            && InFile(f, plan, i + 1)
            && r.disk.image == Replay(img, f, plan, Described(f, plan, i + 1), i + 1)
            && EntryFits(f, plan, d.media, i)
  {
    hide FlashLocations, Replay, Described, PlanFacts.WellFormed, Payload, LocationFits, Indexed, Multiple;
    EntryBasics(f, plan, i);
    LocationsEffect(f, plan, i, 0, st, d, Replay(img, f, plan, Described(f, plan, i), i));
    ReplayNext(img, f, plan, i);
  }

  lemma {:induction false} DryEntries(f: Contents, plan: Plan, i: nat, st: u64, d: Disk)
    requires Runnable(f, plan, d) && i <= |plan.entries| && !IsError(st)
    ensures var r := FlashEntries(f, plan, i, st, d, false);
            && r.disk == d
            && (!IsError(r.status) <==> forall j :: i <= j < |plan.entries| ==> EntryFits(f, plan, d.media, j))
    decreases |plan.entries| - i
  {
    hide FlashLocations, PlanFacts.WellFormed, Disk.Valid, Disk.Quiet, LocationFits;
    if i < |plan.entries| {
      EntryBasics(f, plan, i);
      var e, bs := plan.entries[i], BlockSizeOf(plan, i);
      if Multiple(e.byteCount, d.media.blockSize) {
        DryLocations(f, plan, i, 0, st, d);
        var r := FlashLocations(f, e, bs, 0, st, d, false);
        assert EntryFits(f, plan, d.media, i) <==> !IsError(r.status);
        if !IsError(r.status) {
          DryEntries(f, plan, i + 1, r.status, d);
        }
      } else {
        MisalignedNeverFits(f, plan, d.media, i);
      }
    }
  }

  lemma MisalignedNeverFits(f: Contents, plan: Plan, media: Media, j: nat)
    requires j < |plan.entries| && 0 < plan.entries[j].locationCount && 0 < media.blockSize
    requires !Multiple(plan.entries[j].byteCount, media.blockSize)
    ensures !EntryFits(f, plan, media, j)
  {
    hide ReadLocation, TargetByte, ByteOffset;
    assert !LocationFits(f, plan, media, j, 0);
  }

  lemma {:induction false} QuietEntries(f: Contents, plan: Plan, i: nat, st: u64, d: Disk)
    requires Runnable(f, plan, d) && i <= |plan.entries| && !IsError(st) && d.Quiet()
    requires var m := FirstMisaligned(plan, d.media.blockSize, i);
             InFile(f, plan, m) && forall j :: i <= j < m ==> EntryFits(f, plan, d.media, j)
    ensures !FlashEntries(f, plan, i, st, d, true).jumped
    decreases |plan.entries| - i
  {
    hide FlashLocations, PlanFacts.WellFormed, Disk.Valid, Disk.Quiet, EntryFits;
    if i < |plan.entries| {
      EntryBasics(f, plan, i);
      var e, bs := plan.entries[i], BlockSizeOf(plan, i);
      if Multiple(e.byteCount, d.media.blockSize) {
        QuietLocations(f, plan, i, 0, st, d);
        var r := FlashLocations(f, e, bs, 0, st, d, true);
        QuietEntries(f, plan, i + 1, r.status, r.disk);
      }
    }
  }

  // ----- committed runs that fail -----

  /** One request inside location l's range, whatever the device makes of it. */
  lemma RequestStays(
    f: seq<byte>, e: WriteEntry, bs: u32, l: nat, lba: nat, at: nat, buf: seq<byte>, d: Disk, base: seq<byte>)
    requires d.Valid() && l < e.locationCount && ByteOffset(lba, d.media.blockSize) == at
    requires Target(f, e, bs, l) <= at && at + |buf| <= Target(f, e, bs, l) + e.byteCount <= |d.image|
    requires AgreesBut(d.image, base, f, e, bs, e.byteCount, 0, e.locationCount)
    ensures AgreesBut(WriteBlocks(d, lba, buf).disk.image, base, f, e, bs, e.byteCount, 0, e.locationCount)
  {
    DeviceWrite(d, lba, at, buf);
    var w := WriteBlocks(d, lba, buf);
    hide WriteBlocks, AgreesBut, Target, ByteOffset, Splice;
    if !IsError(w.status) {
      AgreesWithin(d.image, base, f, e, bs, e.byteCount, 0, e.locationCount, l, at, buf);
    } else if w.disk.image != d.image {
      var junk :| |junk| <= |buf| && w.disk.image == Splice(d.image, at, junk);
      AgreesWithin(d.image, base, f, e, bs, e.byteCount, 0, e.locationCount, l, at, junk);
    }
  }

  /** A chunk loop keeps to the range of its location, whatever the device does and however short the
      file is. */
  lemma {:induction false} ChunksStay(
    f: Contents, e: WriteEntry, bs: u32, l: nat, lba: u64, done: nat, st: u64, d: Disk, base: seq<byte>)
    requires d.Valid() && d.Writable() && done <= e.byteCount && l < e.locationCount
    requires Multiple(e.byteCount, d.media.blockSize) && Multiple(done, d.media.blockSize)
    requires ByteOffset(lba, d.media.blockSize) == Target(f, e, bs, l) && Target(f, e, bs, l) + e.byteCount <= |d.image|
    requires AgreesBut(d.image, base, f, e, bs, e.byteCount, 0, e.locationCount)
    ensures AgreesBut(
              WriteChunks(f, e, lba, done, st, d, true).disk.image, base, f, e, bs, e.byteCount, 0, e.locationCount)
    decreases e.byteCount - done
  {
    hide Multiple, ChunkSize, BlocksIn, ByteOffset, WriteBlocks, Disk.Valid, Disk.Quiet, AgreesBut, Target, Wrap64;
    if done < e.byteCount {
      var mb := d.media.blockSize;
      MultipleSub(e.byteCount, done, mb);
      ChunkIsWhole(e.byteCount - done, mb);
      var take := ChunkSize(e.byteCount - done, mb);
      MultipleAdd(done, take, mb);
      var data := ReadExact(FileView, f, Wrap64(e.payloadOffset as int + done), take);
      if data.Ok? {
        BlockAddress(lba, done, mb);
        RequestStays(f, e, bs, l, lba + BlocksIn(done, mb), Target(f, e, bs, l) + done, data.value, d, base);
        var w := WriteBlocks(d, lba + BlocksIn(done, mb), data.value);
        SameSize(d, w.disk);
        if !IsError(w.status) {
          ChunksStay(f, e, bs, l, lba, done + take, w.status, w.disk, base);
        }
      }
    }
  }

  lemma SameSize(d: Disk, e: Disk)
    requires d.Valid() && e.Valid() && d.media == e.media
    ensures |d.image| == |e.image| == ByteOffset(d.media.lastBlock + 1, d.media.blockSize)
  {
  }

  lemma {:induction false} LocationsStay(f: Contents, plan: Plan, j: nat, l: nat, st: u64, d: Disk, base: seq<byte>)
    requires d.Valid() && d.Writable() && j < |plan.entries| && l <= plan.entries[j].locationCount
    requires Multiple(plan.entries[j].byteCount, d.media.blockSize) && 0 < plan.entries[j].byteCount
    requires var e := plan.entries[j];
             AgreesBut(d.image, base, f, e, BlockSizeOf(plan, j), e.byteCount, 0, e.locationCount)
    ensures var e := plan.entries[j];
            AgreesBut(
              FlashLocations(f, e, BlockSizeOf(plan, j), l, st, d, true).disk.image, base, f, e, BlockSizeOf(plan, j),
              e.byteCount, 0, e.locationCount)
    decreases plan.entries[j].locationCount - l
  {
    hide Admit, WriteChunks, Multiple, ByteOffset, Target, LocationFits, Locate, AgreesBut, Disk.Valid, Disk.Quiet;
    var e, bs := plan.entries[j], BlockSizeOf(plan, j);
    if l < e.locationCount {
      var lba := Admit(f, e, bs, d.media, l);
      if lba.Ok? {
        AdmitIsFit(f, plan, d.media, j, l);
        AdmittedTarget(f, e, bs, d.media, l);
        FitsInBytes(f, plan, d.media, j, l);
        SameSize(d, d);
        NoneIsMultiple(d.media.blockSize);
        ChunksStay(f, e, bs, l, lba.value, 0, SUCCESS, d, base);
        var r := WriteChunks(f, e, lba.value, 0, SUCCESS, d, true);
        if !IsError(r.status) {
          LocationsStay(f, plan, j, l + 1, r.status, r.disk, base);
        }
      }
    }
  }

  lemma NoneIsMultiple(m: nat)
    requires 0 < m
    ensures Multiple(0, m)
  {
    MultipleOf(0, m);
  }

  /** The image agrees with the replay of the first k entries outside the ranges of entry k, all of
      those entries fit, and their payload is in the file. */
  predicate Leaves(f: Contents, plan: Plan, media: Media, img: seq<byte>, image: seq<byte>, k: nat)
    requires k <= |plan.entries|
  {
    && InFile(f, plan, k) && (forall j :: 0 <= j < k ==> EntryFits(f, plan, media, j))
    && var replay := Replay(img, f, plan, Described(f, plan, k), k);
    if k == |plan.entries| then image == replay
    else
      var e := plan.entries[k];
      AgreesBut(image, replay, f, e, BlockSizeOf(plan, k), e.byteCount, 0, e.locationCount)
  }

  lemma LeavesReplay(f: Contents, plan: Plan, media: Media, img: seq<byte>, k: nat)
    requires k <= |plan.entries| && InFile(f, plan, k) && forall j :: 0 <= j < k ==> EntryFits(f, plan, media, j)
    ensures Leaves(f, plan, media, img, Replay(img, f, plan, Described(f, plan, k), k), k)
  {
    hide Replay, Described, AgreesBut, EntryFits;
    if k < |plan.entries| {
      var e := plan.entries[k];
      AgreesRefl(
        Replay(img, f, plan, Described(f, plan, k), k), f, e, BlockSizeOf(plan, k), e.byteCount, 0, e.locationCount);
    }
  }

  lemma {:induction false} EntriesLeave(f: Contents, plan: Plan, i: nat, st: u64, d: Disk, img: seq<byte>)
    returns (k: nat)
    requires Runnable(f, plan, d) && i <= |plan.entries| && InFile(f, plan, i) && !IsError(st)
    requires d.image == Replay(img, f, plan, Described(f, plan, i), i)
    requires forall j :: 0 <= j < i ==> EntryFits(f, plan, d.media, j)
    ensures i <= k <= |plan.entries|
    ensures Leaves(f, plan, d.media, img, FlashEntries(f, plan, i, st, d, true).disk.image, k)
    decreases |plan.entries| - i
  {
    hide FlashLocations, Replay, Described, EntryFits, PlanFacts.WellFormed, Disk.Valid, Disk.Quiet, Indexed, Leaves,
      AgreesBut,
      Multiple;
    k := i;
    LeavesReplay(f, plan, d.media, img, i);
    if i < |plan.entries| {
      EntryBasics(f, plan, i);
      IndexedAt(plan, i);
      var e, bs := plan.entries[i], BlockSizeOf(plan, i);
      MultipleIs(e.byteCount, d.media.blockSize);
      if Multiple(e.byteCount, d.media.blockSize) {
        var r := FlashLocations(f, e, bs, 0, st, d, true);
        if IsError(r.status) {
          EntryLeaves(f, plan, i, st, d, img);
        } else {
          EntryEffect(f, plan, i, st, d, img);
          k := EntriesLeave(f, plan, i + 1, r.status, r.disk, img);
        }
      }
    }
  }

  lemma MultipleIs(n: nat, m: nat)
    requires 0 < m
    ensures Multiple(n, m) <==> n % m == 0
  {
  }

  lemma EntryLeaves(f: Contents, plan: Plan, i: nat, st: u64, d: Disk, img: seq<byte>)
    requires Runnable(f, plan, d) && i < |plan.entries| && InFile(f, plan, i)
    requires Multiple(plan.entries[i].byteCount, d.media.blockSize)
    requires d.image == Replay(img, f, plan, Described(f, plan, i), i)
    requires forall j :: 0 <= j < i ==> EntryFits(f, plan, d.media, j)
    ensures Leaves(
              f, plan, d.media, img,
              FlashLocations(f, plan.entries[i], BlockSizeOf(plan, i), 0, st, d, true).disk.image, i)
  {
    hide FlashLocations, Replay, Described, EntryFits, PlanFacts.WellFormed, Disk.Valid, Indexed, AgreesBut, Multiple;
    EntryBasics(f, plan, i);
    var e := plan.entries[i];
    AgreesRefl(d.image, f, e, BlockSizeOf(plan, i), e.byteCount, 0, e.locationCount);
    LocationsStay(f, plan, i, 0, st, d, d.image);
  }

  // ----- main results -----

  /** A committed run that reports success has written exactly the replay of the entries before
      the first misaligned one. It is the whole plan if and only if every entry is a whole number
      of media blocks; a device without FlushBlocks reports the misalignment. */
  lemma CommitReplays(f: Contents, plan: Plan, d: Disk, flush: Option<u64>)
    requires Runnable(f, plan, d) && !IsError(Flash(f, plan, d, true, flush).status)
    ensures var r := Flash(f, plan, d, true, flush);
            var m := FirstMisaligned(plan, d.media.blockSize, 0);
            && InFile(f, plan, m)
            && r.disk.image == Replay(d.image, f, plan, Described(f, plan, m), m)
            && (forall j :: 0 <= j < m ==> EntryFits(f, plan, d.media, j))
            && (m == |plan.entries| <==> Aligned(plan, d.media.blockSize))
            && (flush == None ==> Aligned(plan, d.media.blockSize))
  {
    hide FlashEntries, Replay, EntryFits, PlanFacts.WellFormed, Multiple, Described;
    NothingReplayed(f, plan, d.image);
    EntriesEffect(f, plan, 0, SUCCESS, d, d.image);
    var m := FirstMisaligned(plan, d.media.blockSize, 0);
  }

  /** What a committed run leaves however it ends: on any device and with any file, the replay of some
      number k of entries, each of which fits, except inside the ranges of entry k. */
  lemma CommitLeaves(f: Contents, plan: Plan, d: Disk, flush: Option<u64>) returns (k: nat)
    requires Runnable(f, plan, d)
    ensures k <= |plan.entries| && Leaves(f, plan, d.media, d.image, Flash(f, plan, d, true, flush).disk.image, k)
  {
    hide FlashEntries, Replay, EntryFits, PlanFacts.WellFormed, Described, Leaves;
    NothingReplayed(f, plan, d.image);
    k := EntriesLeave(f, plan, 0, SUCCESS, d, d.image);
  }

  lemma NothingReplayed(f: Contents, plan: Plan, img: seq<byte>)
    ensures InFile(f, plan, 0) && Replay(img, f, plan, Described(f, plan, 0), 0) == img
  {
  }

  /** A dry run never changes the disk, and succeeds exactly when the device is writable and every
      location of every entry is absolute, aligned and on the medium. */
  lemma DryRunChecksPlan(f: Contents, plan: Plan, d: Disk, flush: Option<u64>)
    requires d.Valid() && PlanFacts.WellFormed(f, plan) && Indexed(plan)
    ensures Flash(f, plan, d, false, flush).disk == d
    ensures !IsError(Flash(f, plan, d, false, flush).status) <==> d.Writable() && PlanFits(f, plan, d.media)
  {
    if d.Writable() {
      DryEntries(f, plan, 0, SUCCESS, d);
    }
    hide FlashEntries, EntryFits, PlanFacts.WellFormed;
  }

  lemma FitsIsAligned(f: Contents, plan: Plan, media: Media)
    requires PlanFacts.WellFormed(f, plan) && 0 < media.blockSize && PlanFits(f, plan, media)
    ensures Aligned(plan, media.blockSize)
  {
    hide EntryFits, PlanFacts.WellFormed, Multiple;
    forall j | 0 <= j < |plan.entries|
      ensures Multiple(plan.entries[j].byteCount, media.blockSize)
    {
      EntryBasics(f, plan, j);
      if !Multiple(plan.entries[j].byteCount, media.blockSize) {
        MisalignedNeverFits(f, plan, media, j);
      }
    }
  }

  /** After a successful dry run, a committed run can fail only by a short file, a device fault or
      the flush; otherwise it writes the whole plan. */
  lemma DryRunPredictsCommit(f: Contents, plan: Plan, d: Disk, flush: Option<u64>)
    requires Runnable(f, plan, d) && !IsError(Flash(f, plan, d, false, flush).status)
    requires InFile(f, plan, |plan.entries|) && d.Quiet() && (flush.Some? ==> !IsError(flush.value))
    ensures var r := Flash(f, plan, d, true, flush);
            !IsError(r.status) &&
            r.disk.image == Replay(d.image, f, plan, Described(f, plan, |plan.entries|), |plan.entries|)
  {
    hide FlashEntries, Replay, EntryFits, PlanFacts.WellFormed, Multiple, Described, Disk.Valid, Disk.Quiet;
    DryRunChecksPlan(f, plan, d, flush);
    FitsIsAligned(f, plan, d.media);
    var n := |plan.entries|;
    assert FirstMisaligned(plan, d.media.blockSize, 0) == n;
    QuietEntries(f, plan, 0, SUCCESS, d);
    NothingReplayed(f, plan, d.image);
    EntriesEffect(f, plan, 0, SUCCESS, d, d.image);
  }

  /** The status of a good run: if the entries up to the first misaligned one, or all of them, are good,
      a committed run on a device with FlushBlocks returns the flush status, and has written exactly
      those entries. */
  lemma GoodRunReportsFlush(f: Contents, plan: Plan, d: Disk, flush: u64)
    requires Runnable(f, plan, d) && d.Quiet()
    requires var m := FirstMisaligned(plan, d.media.blockSize, 0);
             InFile(f, plan, m) && forall j :: 0 <= j < m ==> EntryFits(f, plan, d.media, j)
    ensures var r := Flash(f, plan, d, true, Some(flush));
            var m := FirstMisaligned(plan, d.media.blockSize, 0);
            r.status == flush && r.disk.image == Replay(d.image, f, plan, Described(f, plan, m), m)
  {
    hide FlashEntries, Replay, EntryFits, PlanFacts.WellFormed, Multiple, Described, Disk.Valid, Disk.Quiet;
    QuietEntries(f, plan, 0, SUCCESS, d);
    NothingReplayed(f, plan, d.image);
    EntriesEffect(f, plan, 0, SUCCESS, d, d.image);
  }

  /** The reported success of a misaligned plan: on a device with FlushBlocks, a run whose entries
      up to the first misaligned one are good returns the flush status and leaves that entry and
      everything behind it unwritten. */
  lemma MisalignedReportsFlush(f: Contents, plan: Plan, d: Disk, flush: u64)
    requires Runnable(f, plan, d) && d.Quiet() && !Aligned(plan, d.media.blockSize)
    requires var m := FirstMisaligned(plan, d.media.blockSize, 0);
             InFile(f, plan, m) && forall j :: 0 <= j < m ==> EntryFits(f, plan, d.media, j)
    ensures var r := Flash(f, plan, d, true, Some(flush));
            var m := FirstMisaligned(plan, d.media.blockSize, 0);
            && r.status == flush && m < |plan.entries|
            && r.disk.image == Replay(d.image, f, plan, Described(f, plan, m), m)
  {
    hide Flash, Replay, EntryFits, PlanFacts.WellFormed, Multiple, Described, Disk.Valid, Disk.Quiet;
    GoodRunReportsFlush(f, plan, d, flush);
  }
}
