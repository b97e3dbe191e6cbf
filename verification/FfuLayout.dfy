/** The FFU image format as the two readers of src/ffu.c define it. One set of functions serves
    both: `src` says whether the bytes are an open file (ffu_parse) or a buffer
    (ffu_parse_header_bytes), which differ in their error codes and in the bounds checks the
    buffer form adds. The loops of the source appear as tail recursion over the same variables. */
module FfuLayout {
  import opened Bytes
  import opened BlockIo

  const SECURITY_SIZE: nat := 32
  const IMAGE_V1_SIZE: nat := 24
  const IMAGE_V2_SIZE: nat := 28
  const STORE_V1_SIZE: nat := 248
  const STORE_V2_EXTRA: nat := 14

  datatype WriteEntry = WriteEntry(
    payloadOffset: u64, descriptorOffset: u64, byteCount: u32, blockCount: u32, locationCount: u32, storeIndex: nat)

  datatype Store = Store(
    headerOffset: u64, payloadBase: u64, payloadSize: u64, descriptorBase: u64,
    blockSize: u32, descriptorCount: u32, entryStart: nat, entryCount: u32)

  datatype Plan = Plan(
    fileSize: u64, headerSize: u64, payloadBase: u64, chunkSize: u32, catalogSize: u32, hashSize: u32,
    imageHeaderSize: u32, manifestLength: u32, validationCount: u32,
    totalPayloadBytes: u64, stores: seq<Store>, entries: seq<WriteEntry>)

  const EMPTY_PLAN := Plan(0, 0, 0, 0, 0, 0, 0, 0, 0, 0, [], [])

  /** "SignedImage " and "ImageFlash  " */
  const SIGNED_IMAGE: seq<byte> := [0x53, 0x69, 0x67, 0x6E, 0x65, 0x64, 0x49, 0x6D, 0x61, 0x67, 0x65, 0x20]
  const IMAGE_FLASH: seq<byte> := [0x49, 0x6D, 0x61, 0x67, 0x65, 0x46, 0x6C, 0x61, 0x73, 0x68, 0x20, 0x20]

  /** The check only the buffer form makes after advancing its cursor. */
  predicate Outside(src: Source, d: seq<byte>, cursor: nat) {
    src.HeaderBytes? && cursor > |d|
  }

  // ----- security header -----

  datatype Security = Security(chunkSize: u32, catalogSize: u32, hashSize: u32, cursor: u64)

  function ReadSecurity(src: Source, d: Contents): (r: Result<Security>)
    ensures r.Ok? ==> 0 < r.value.chunkSize && SECURITY_SIZE <= r.value.cursor < 4 * TWO_32
    ensures r.Err? ==> IsError(r.status)
  {
    if |d| < SECURITY_SIZE then Err(if src.FileView? then VOLUME_CORRUPTED else END_OF_FILE)
    else
      var sec :- ReadExact(src, d, 0, SECURITY_SIZE);
      if RdLe32(sec, 0) != SECURITY_SIZE || sec[4..16] != SIGNED_IMAGE then Err(VOLUME_CORRUPTED)
      else if RdLe32(sec, 20) != 0x800C then Err(UNSUPPORTED)
      else
        // the shift by 10 drops the top bits of the 32-bit chunk size
        var chunk: u32 := Wrap32(RdLe32(sec, 16) as int * 1024);
        var catalog := RdLe32(sec, 24);
        var hash := RdLe32(sec, 28);
        if chunk == 0 || catalog == 0 || hash == 0 || hash % 32 != 0 then Err(VOLUME_CORRUPTED)
        else Ok(Security(chunk, catalog, hash, AlignUp(SECURITY_SIZE + catalog + hash, chunk)))
  }

  // ----- image header and manifest -----

  datatype ImageHead = ImageHead(headerSize: u32, manifestLength: u32, validationCount: u32, cursor: u64)

  function ReadImageHead(src: Source, d: Contents, at: u64): (r: Result<ImageHead>)
    requires at < 4 * TWO_32
    ensures r.Ok? ==> at <= r.value.cursor < 5 * TWO_32 && at + IMAGE_V1_SIZE <= |d|
    ensures r.Err? ==> IsError(r.status)
  {
    if Outside(src, d, at + IMAGE_V1_SIZE) then Err(END_OF_FILE)
    else
      var img :- ReadExact(src, d, at, IMAGE_V1_SIZE);
      var size := RdLe32(img, 0);
      if (size != IMAGE_V1_SIZE && size != IMAGE_V2_SIZE) || img[4..16] != IMAGE_FLASH then Err(VOLUME_CORRUPTED)
      else
        var ext :- if size == IMAGE_V2_SIZE then ReadExact(src, d, at + IMAGE_V1_SIZE, 4) else Ok([0, 0, 0, 0]);
        var manifest := RdLe32(img, 16);
        if manifest == 0 || RdLe32(img, 20) == 0 then Err(VOLUME_CORRUPTED)
        else
          // a 32-bit sum: it wraps before it is added to the 64-bit cursor
          var cursor := at + Wrap32(size as int + manifest);
          if Outside(src, d, cursor) then Err(END_OF_FILE)
          else Ok(ImageHead(size, manifest, RdLe32(ext, 0), cursor))
  }

  // ----- validation descriptors -----

  /** Sum of the first n of a validation descriptor's seven sizes. */
  function SkipSum(vd: seq<byte>, n: nat): (r: nat)
    requires 4 * n <= |vd|
    ensures r <= 0x1_0000_0000 * n
  {
    if n == 0 then 0 else SkipSum(vd, n - 1) + RdLe32(vd, 4 * (n - 1))
  }

  function SkipValidation(src: Source, d: Contents, cursor: u64, n: nat): (r: Result<u64>)
    requires cursor < 2 * MAX_FILE
    ensures r.Ok? ==> cursor <= r.value < 2 * MAX_FILE
    ensures r.Err? ==> IsError(r.status)
    decreases n
  {
    if n == 0 then Ok(cursor)
    else
      var vd :- ReadExact(src, d, cursor, 28);
      var next := cursor + 28 + SkipSum(vd, 7);
      if Outside(src, d, next) then Err(END_OF_FILE) else SkipValidation(src, d, next, n - 1)
  }

  // ----- stores -----

  datatype StoreHead = StoreHead(cursor: u64, desired: u16, blockSize: u32, descriptorCount: u32, payloadSize: u64)

  function CheckStoreHead(sh: seq<byte>, cursor: u64, desired: u16, payloadSize: u64): (r: Result<StoreHead>)
    requires |sh| == STORE_V1_SIZE
    ensures r.Ok? ==>
              r.value.cursor == cursor && 0 < r.value.blockSize <= MAX_PAYLOAD_DATA && 0 < r.value.descriptorCount
    ensures r.Err? ==> IsError(r.status)
  {
    if RdLe32(sh, 0) != 0 || RdLe16(sh, 8) != 2 || RdLe16(sh, 10) != 0 then Err(VOLUME_CORRUPTED)
    else
      var blockSize := RdLe32(sh, 204);
      var count := RdLe32(sh, 208);
      if blockSize == 0 || blockSize > MAX_PAYLOAD_DATA || count == 0 then Err(VOLUME_CORRUPTED)
      else Ok(StoreHead(cursor, desired, blockSize, count, payloadSize))
  }

  function ReadStoreHead(src: Source, d: Contents, at: u64, desired: u16): (r: Result<StoreHead>)
    ensures r.Ok? ==> at + STORE_V1_SIZE <= r.value.cursor < 2 * MAX_FILE
    ensures r.Ok? ==> 0 < r.value.blockSize <= MAX_PAYLOAD_DATA && 0 < r.value.descriptorCount
    ensures r.Err? ==> IsError(r.status)
  {
    var sh :- ReadExact(src, d, at, STORE_V1_SIZE);
    var cursor := at + STORE_V1_SIZE;
    if RdLe16(sh, 4) == 2 then
      var ext :- ReadExact(src, d, cursor, STORE_V2_EXTRA);
      var wanted := RdLe16(ext, 0);
      var pathLength := RdLe16(ext, 12);
      if wanted == 0 || pathLength == 0 then Err(VOLUME_CORRUPTED)
      else
        var after := cursor + STORE_V2_EXTRA + 2 * (pathLength as int);
        if Outside(src, d, after) then Err(END_OF_FILE) else CheckStoreHead(sh, after, wanted, RdLe64(ext, 4))
    else CheckStoreHead(sh, cursor, desired, 0)
  }

  predicate StoresFit(stores: seq<Store>, entries: seq<WriteEntry>) {
    forall s :: 0 <= s < |stores| ==> stores[s].entryStart + stores[s].entryCount <= |entries|
  }

  /** The 64-bit product of two 32-bit sizes cannot wrap. */
  function EntryBytes(blockSize: nat, blocks: nat): (r: nat)
    ensures blockSize > 0 && blocks > 0 ==> r >= blocks
  {
    blockSize * blocks
  }

  datatype Descriptors = Descriptors(entries: seq<WriteEntry>, cursor: u64, relPayload: u64)

  function ReadDescriptors(
    src: Source, d: Contents, cursor: u64, rel: u64, entries: seq<WriteEntry>, n: nat, blockSize: u32, storeIndex: nat)
    : (r: Result<Descriptors>)
    requires cursor < 2 * MAX_FILE
    ensures r.Ok? ==> cursor <= r.value.cursor < 2 * MAX_FILE
    ensures r.Ok? ==> |r.value.entries| == |entries| + n && r.value.entries[..|entries|] == entries
    ensures r.Err? ==> IsError(r.status)
    decreases n
  {
    if n == 0 then Ok(Descriptors(entries, cursor, rel))
    else
      var wh :- ReadExact(src, d, cursor, 8);
      var locations := RdLe32(wh, 0);
      var blocks := RdLe32(wh, 4);
      if locations == 0 || blocks == 0 then Err(VOLUME_CORRUPTED)
      else
        var next := cursor + 8 + 8 * (locations as int);
        if Outside(src, d, next) then Err(END_OF_FILE)
        else
          var bytes := EntryBytes(blockSize, blocks);
          if bytes >= TWO_32 then Err(UNSUPPORTED)
          else
            ReadDescriptors(
              src, d, next, Wrap64(rel as int + bytes),
              entries + [WriteEntry(rel, cursor, bytes, blocks, locations, storeIndex)], n - 1, blockSize, storeIndex)
  }

  datatype Stores = Stores(stores: seq<Store>, entries: seq<WriteEntry>, cursor: u64)

  /** One turn of the store loop: the new lists, and the store count now wanted. */
  function ReadStore(
    src: Source, d: Contents, cursor: u64, chunkSize: u32, desired: u16, stores: seq<Store>, entries: seq<WriteEntry>)
    : (r: Result<(Stores, u16)>)
    requires StoresFit(stores, entries)
    ensures r.Ok? ==> StoresFit(r.value.0.stores, r.value.0.entries)
    ensures r.Ok? && 0 < chunkSize && cursor < 2 * MAX_FILE ==> cursor + STORE_V1_SIZE <= r.value.0.cursor
    ensures r.Ok? ==> r.value.0.cursor < 2 * MAX_FILE
    ensures r.Ok? ==> |r.value.0.stores| == |stores| + 1 && r.value.0.stores[..|stores|] == stores
    ensures r.Err? ==> IsError(r.status)
  {
    var at := AlignUp(cursor, chunkSize);
    var head :- ReadStoreHead(src, d, at, desired);
    var descs :- ReadDescriptors(src, d, head.cursor, 0, entries, head.descriptorCount, head.blockSize, |stores|);
    var store := Store(
      at, 0, if head.payloadSize == 0 then descs.relPayload else head.payloadSize, head.cursor,
      head.blockSize, head.descriptorCount, |entries|, head.descriptorCount);
    Ok((Stores(stores + [store], descs.entries, descs.cursor), head.desired))
  }

  function ReadStores(
    src: Source, d: Contents, cursor: u64, chunkSize: u32, desired: u16, stores: seq<Store>, entries: seq<WriteEntry>)
    : (r: Result<Stores>)
    requires StoresFit(stores, entries)
    ensures r.Ok? ==> StoresFit(r.value.stores, r.value.entries)
    ensures r.Err? ==> IsError(r.status)
    decreases TWO_16 - |stores|
  {
    if |stores| >= desired then Ok(Stores(stores, entries, cursor))
    else
      var next :- ReadStore(src, d, cursor, chunkSize, desired, stores, entries);
      ReadStores(src, d, next.0.cursor, chunkSize, next.1, next.0.stores, next.0.entries)
  }

  // ----- payload layout -----

  /** The first n entries of a store, moved from store-relative to absolute payload offsets. */
  function Rebased(entries: seq<WriteEntry>, start: nat, n: nat, base: u64): (r: seq<WriteEntry>)
    requires start + n <= |entries|
    ensures |r| == |entries|
  {
    seq(|entries|, i requires 0 <= i < |entries| =>
      if start <= i < start + n
      then entries[i].(payloadOffset := Wrap64(entries[i].payloadOffset as int + base as int))
      else entries[i])
  }

  /** Byte counts of the first k entries. */
  function PrefixBytes(entries: seq<WriteEntry>, k: nat): nat
    requires k <= |entries|
  {
    if k == 0 then 0 else PrefixBytes(entries, k - 1) + entries[k - 1].byteCount as int
  }

  datatype Placed = Placed(stores: seq<Store>, entries: seq<WriteEntry>, payloadBase: u64, total: u64)

  /** One store of the second pass: its base is the aligned cursor, its entries move there. */
  function PlaceStore(p: Placed, s: nat, base: u64): (r: Placed)
    requires s < |p.stores| && StoresFit(p.stores, p.entries)
    ensures |r.stores| == |p.stores| && |r.entries| == |p.entries| && StoresFit(r.stores, r.entries)
  {
    var store := p.stores[s];
    Placed(
      p.stores[s := store.(payloadBase := base)],
      Rebased(p.entries, store.entryStart, store.entryCount, base),
      if p.payloadBase == 0 then base else p.payloadBase,
      Wrap64(p.total as int + PrefixBytes(p.entries, store.entryStart + store.entryCount)
       - PrefixBytes(p.entries, store.entryStart)))
  }

  /** The second pass: s is the next store, cursor the running payload position. The declared
      payload size is added without a check, so this cursor can wrap. */
  function PlacePayload(p: Placed, s: nat, cursor: u64): (r: Placed)
    requires s <= |p.stores| && StoresFit(p.stores, p.entries)
    ensures |r.stores| == |p.stores| && |r.entries| == |p.entries|
    decreases |p.stores| - s
  {
    if s == |p.stores| then p
    else
      var base := AlignUp(cursor, p.stores[s].blockSize);
      PlacePayload(PlaceStore(p, s, base), s + 1, Wrap64(base as int + p.stores[s].payloadSize as int))
  }

  // ----- the whole layout -----

  datatype Head = Head(sec: Security, img: ImageHead, cursor: u64)

  function ReadHead(src: Source, d: Contents): (r: Result<Head>)
    ensures r.Ok? ==> r.value.cursor < 2 * MAX_FILE && 0 < r.value.sec.chunkSize
    ensures r.Err? ==> IsError(r.status)
  {
    var sec :- ReadSecurity(src, d);
    var img :- ReadImageHead(src, d, sec.cursor);
    var cursor :- SkipValidation(src, d, img.cursor, img.validationCount);
    Ok(Head(sec, img, cursor))
  }

  function MakePlan(size: u64, head: Head, p: Placed): Plan {
    Plan(size, p.payloadBase, p.payloadBase, head.sec.chunkSize, head.sec.catalogSize, head.sec.hashSize,
         head.img.headerSize, head.img.manifestLength, head.img.validationCount, p.total, p.stores, p.entries)
  }

  function FinishPlan(src: Source, d: Contents, head: Head, body: Stores): (r: Result<Plan>)
    requires StoresFit(body.stores, body.entries)
    ensures r.Err? ==> IsError(r.status)
  {
    var p := PlacePayload(Placed(body.stores, body.entries, 0, 0), 0, body.cursor);
    if p.payloadBase == 0 || p.payloadBase > |d| then Err(if src.FileView? then VOLUME_CORRUPTED else END_OF_FILE)
    else Ok(MakePlan(|d|, head, p))
  }

  /** ffu_parse on a file with contents d, or ffu_parse_header_bytes on the buffer d. */
  function Parse(src: Source, d: Contents): (r: Result<Plan>)
    ensures r.Err? ==> IsError(r.status)
  {
    var head :- ReadHead(src, d);
    var body :- ReadStores(src, d, head.cursor, head.sec.chunkSize, 1, [], []);
    FinishPlan(src, d, head, body)
  }
}
