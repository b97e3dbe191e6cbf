/** Why an image is refused: the status both parsers give for each check, from the bytes alone and in
    the order of the checks. */
module FormatRefusals {
  import opened Bytes
  import opened BlockIo
  import opened FfuLayout
  import opened HeaderFacts
  import opened ImageFormat

  /** A read of n bytes at `at` that the source cannot give. */
  function ShortRead(src: Source, d: seq<byte>, at: nat): u64 {
    if src.FileView? && at > |d| && at != 0xFFFF_FFFF_FFFF_FFFF then 0x8000_0000_0000_0007 else 0x8000_0000_0000_001F
  }

  /** The chunk size, with the bits that the shift drops gone. */
  function ChunkSizeOf(d: seq<byte>): nat
    requires |d| >= 32
  {
    RdLe32(d, 16) % 0x40_0000 * 1024
  }

  predicate SecurityGood(d: seq<byte>) {
    && |d| >= 32 && RdLe32(d, 0) == 32 && d[4..16] == SIGNED_IMAGE && RdLe32(d, 20) == 0x800C
    && ChunkSizeOf(d) != 0 && RdLe32(d, 24) != 0 && RdLe32(d, 28) != 0 && RdLe32(d, 28) % 32 == 0
  }

  lemma ChunkShift(d: seq<byte>)
    requires |d| >= 32
    ensures ChunkSizeOf(d) < TWO_32 && ChunkSizeOf(d) == Wrap32(RdLe32(d, 16) as int * 1024)
  {
    hide RdLe32;
    var x := RdLe32(d, 16) as int;
    assert x * 1024 == 0x1_0000_0000 * (x / 0x40_0000) + x % 0x40_0000 * 1024;
    AddMultiple(x % 0x40_0000 * 1024, x / 0x40_0000, 0x1_0000_0000);
  }

  lemma SecurityReadOr(src: Source, d: Contents)
    ensures |d| < 32 ==> ReadSecurity(src, d) == Err(if src.FileView? then VOLUME_CORRUPTED else END_OF_FILE)
    ensures |d| >= 32 ==>
              ReadSecurity(src, d) ==
              if RdLe32(d, 0) != 32 || d[4..16] != SIGNED_IMAGE then Err(VOLUME_CORRUPTED)
              else if RdLe32(d, 20) != 0x800C then Err(UNSUPPORTED)
              else if !SecurityGood(d) then Err(VOLUME_CORRUPTED)
              else
                Ok(Security(ChunkSizeOf(d), RdLe32(d, 24), RdLe32(d, 28),
                  AlignUp(32 + RdLe32(d, 24) + RdLe32(d, 28), ChunkSizeOf(d))))
  {
    hide RdLe32, AlignUp, Wrap32, ChunkSizeOf;
    if |d| >= 32 {
      ChunkShift(d);
      SecurityFields(d);
    }
  }

  /** The first check is the security header's. */
  lemma SecurityRefused(src: Source, d: Contents)
    requires !SecurityGood(d)
    ensures Parse(src, d) ==
            Err(if |d| < 32 then if src.FileView? then VOLUME_CORRUPTED else END_OF_FILE
                else if RdLe32(d, 0) == 32 && d[4..16] == SIGNED_IMAGE && RdLe32(d, 20) != 0x800C then UNSUPPORTED
                else VOLUME_CORRUPTED)
  {
    hide ReadSecurity, ReadImageHead, SkipValidation, ReadStores, RdLe16, RdLe32, RdLe64, ChunkSizeOf;
    SecurityReadOr(src, d);
  }

  /** Where the image header is: on the first chunk boundary behind catalog and hash table. */
  function ImageAt(d: seq<byte>): u64
    requires SecurityGood(d)
  {
    ChunkShift(d);
    AlignUp(32 + RdLe32(d, 24) + RdLe32(d, 28), ChunkSizeOf(d))
  }

  /** Where the manifest ends, for a header at `at`. */
  function ManifestTo(d: seq<byte>, at: nat): nat
    requires at + 24 <= |d|
  {
    at + (RdLe32(d, at) + RdLe32(d, at + 16)) % 0x1_0000_0000
  }

  /** What is wrong with the image header at `at`, if anything is. */
  function ImageFault(src: Source, d: seq<byte>, at: nat): Option<u64> {
    if at + 24 > |d| then Some(ShortRead(src, d, at))
    else if (RdLe32(d, at) != 24 && RdLe32(d, at) != 28) || d[at + 4..at + 16] != IMAGE_FLASH then
      Some(VOLUME_CORRUPTED)
    else if RdLe32(d, at) == 28 && at + 28 > |d| then Some(END_OF_FILE)
    else if RdLe32(d, at + 16) == 0 || RdLe32(d, at + 20) == 0 then Some(VOLUME_CORRUPTED)
    else if src.HeaderBytes? && ManifestTo(d, at) > |d| then Some(END_OF_FILE)
    else None
  }

  lemma ImageReadOr(src: Source, d: Contents, at: u64)
    requires at < 4 * TWO_32
    ensures match ImageFault(src, d, at)
            case Some(st) => ReadImageHead(src, d, at) == Err(st)
            case None =>
              ReadImageHead(src, d, at) ==
              Ok(ImageHead(RdLe32(d, at), RdLe32(d, at + 16),
                if RdLe32(d, at) == 28 then RdLe32(d, at + 24) else 0, ManifestTo(d, at)))
  {
    hide RdLe32;
    if at + 24 <= |d| {
      ImageFields(d, at);
    }
  }

  /** The second is the image header's. */
  lemma ImageRefused(src: Source, d: Contents)
    requires SecurityGood(d) && ImageFault(src, d, ImageAt(d)).Some?
    ensures Parse(src, d) == Err(ImageFault(src, d, ImageAt(d)).value)
  {
    hide ReadSecurity, ReadImageHead, ImageFault, SkipValidation, ReadStores, RdLe16, RdLe32, RdLe64, ChunkSizeOf,
      AlignUp;
    SecurityReadOr(src, d);
    ImageReadOr(src, d, ImageAt(d));
  }

  /** The validation loop: a descriptor that cannot be read, or, in a buffer, one that leads outside. */
  lemma ValidationRefused(src: Source, d: Contents, cursor: u64, n: nat)
    requires cursor < 2 * MAX_FILE && 0 < n
    ensures cursor + 28 > |d| ==> SkipValidation(src, d, cursor, n) == Err(ShortRead(src, d, cursor))
    ensures cursor + 28 <= |d| ==>
              var next := cursor + 28 + RdLe32(d, cursor) + RdLe32(d, cursor + 4) + RdLe32(d, cursor + 8)
                + RdLe32(d, cursor + 12) + RdLe32(d, cursor + 16) + RdLe32(d, cursor + 20) + RdLe32(d, cursor + 24);
              && next < 2 * MAX_FILE
              && SkipValidation(src, d, cursor, n) ==
                 if src.HeaderBytes? && next > |d| then Err(END_OF_FILE) else SkipValidation(src, d, next, n - 1)
  {
    hide SkipSum, RdLe32;
    if cursor + 28 <= |d| {
      ReadsSeven(d, cursor);
      SkipBound(d[cursor..cursor + 28]);
      ValidatesTo(d, cursor, cursor + 28 + SkipSum(d[cursor..cursor + 28], 7));
    }
  }

  lemma ValidatesTo(d: seq<byte>, at: nat, end: nat)
    requires Validates(d, at, end)
    ensures at + 28 <= |d|
    ensures end == at + 28 + RdLe32(d, at) + RdLe32(d, at + 4) + RdLe32(d, at + 8) + RdLe32(d, at + 12)
                   + RdLe32(d, at + 16) + RdLe32(d, at + 20) + RdLe32(d, at + 24)
  {
  }

  /** What is wrong with the store header at `at`, if anything is. */
  function StoreFault(src: Source, d: seq<byte>, at: nat): Option<u64> {
    if at + 248 > |d| then Some(ShortRead(src, d, at))
    else if RdLe16(d, at + 4) == 2 && at + 262 > |d| then Some(END_OF_FILE)
    else if RdLe16(d, at + 4) == 2 && (RdLe16(d, at + 248) == 0 || RdLe16(d, at + 260) == 0) then
      Some(VOLUME_CORRUPTED)
    else if RdLe16(d, at + 4) == 2 && src.HeaderBytes? && at + 262 + 2 * (RdLe16(d, at + 260) as int) > |d| then
      Some(END_OF_FILE)
    else if RdLe32(d, at) != 0 || RdLe16(d, at + 8) != 2 || RdLe16(d, at + 10) != 0 then Some(VOLUME_CORRUPTED)
    else if RdLe32(d, at + 204) == 0 || RdLe32(d, at + 204) > 0x1F_FC18 || RdLe32(d, at + 208) == 0 then
      Some(VOLUME_CORRUPTED)
    else None
  }

  lemma StoreHeadReadOr(src: Source, d: Contents, at: u64, desired: u16)
    ensures match StoreFault(src, d, at)
            case Some(st) => ReadStoreHead(src, d, at, desired) == Err(st)
            case None => ReadStoreHead(src, d, at, desired).Ok?
  {
    hide RdLe16, RdLe32, RdLe64;
    if at + 248 <= |d| {
      SliceReads(d, at, 248, 0);
      SliceReads(d, at, 248, 4);
      SliceReads(d, at, 248, 8);
      SliceReads(d, at, 248, 10);
      SliceReads(d, at, 248, 204);
      SliceReads(d, at, 248, 208);
      if at + 262 <= |d| {
        SliceReads(d, at + 248, 14, 0);
        SliceReads(d, at + 248, 14, 12);
      }
    }
  }

  /** The store loop: the header on the next chunk boundary, and then the records behind it. */
  lemma StoreRefused(
    src: Source, d: Contents, cursor: u64, chunkSize: u32, desired: u16, stores: seq<Store>, entries: seq<WriteEntry>)
    requires StoresFit(stores, entries) && |stores| < desired
    ensures var at := AlignUp(cursor, chunkSize);
            match StoreFault(src, d, at)
            case Some(st) => ReadStores(src, d, cursor, chunkSize, desired, stores, entries) == Err(st)
            case None =>
              var h := ReadStoreHead(src, d, at, desired);
              h.Ok? &&
              var r := ReadDescriptors(
                src, d, h.value.cursor, 0, entries, h.value.descriptorCount, h.value.blockSize, |stores|);
              r.Err? ==> ReadStores(src, d, cursor, chunkSize, desired, stores, entries) == r.PropagateFailure()
  {
    hide ReadStoreHead, ReadDescriptors, AlignUp, StoreFault;
    StoreHeadReadOr(src, d, AlignUp(cursor, chunkSize), desired);
  }

  /** What is wrong with the descriptor record at `at`, if anything is. */
  function RecordFault(src: Source, d: seq<byte>, at: nat, blockSize: nat): Option<u64> {
    if at + 8 > |d| then Some(ShortRead(src, d, at))
    else if RdLe32(d, at) == 0 || RdLe32(d, at + 4) == 0 then Some(VOLUME_CORRUPTED)
    else if src.HeaderBytes? && at + 8 + 8 * (RdLe32(d, at) as int) > |d| then Some(END_OF_FILE)
    else if blockSize * RdLe32(d, at + 4) >= 0x1_0000_0000 then Some(UNSUPPORTED)
    else None
  }

  lemma RecordRefused(
    src: Source, d: Contents, cursor: u64, rel: u64, entries: seq<WriteEntry>, n: nat, blockSize: u32, i: nat)
    requires cursor < 2 * MAX_FILE && 0 < n && RecordFault(src, d, cursor, blockSize).Some?
    ensures ReadDescriptors(src, d, cursor, rel, entries, n, blockSize, i) ==
            Err(RecordFault(src, d, cursor, blockSize).value)
  {
    hide RdLe16, RdLe32, RdLe64;
    if cursor + 8 <= |d| {
      SliceReads(d, cursor, 8, 0);
      SliceReads(d, cursor, 8, 4);
    }
  }

  /** Any error of the first pass is the parser's; the last check is on the header size. */
  lemma LayoutRefused(src: Source, d: Contents)
    requires ReadHead(src, d).Ok?
    ensures var head := ReadHead(src, d).value;
            var body := ReadStores(src, d, head.cursor, head.sec.chunkSize, 1, [], []);
            && (body.Err? ==> Parse(src, d) == body.PropagateFailure())
            && (body.Ok? ==>
                  var size := PlacePayload(Placed(body.value.stores, body.value.entries, 0, 0), 0, body.value.cursor)
                    .payloadBase;
                  if size == 0 || size > |d|
                  then Parse(src, d) == Err(if src.FileView? then VOLUME_CORRUPTED else END_OF_FILE)
                  else Parse(src, d).Ok?)
  {
    hide ReadHead, ReadStores, PlacePayload;
  }
}
