/** ffu_parse and ffu_parse_header_bytes (src/ffu.c), both copies with their own loops and bounds
    checks, each proved to compute the layout function of module FfuLayout. Cursors are 64-bit
    values, so every assignment to one is also a proof that it does not wrap. */
module FfuParser {
  import opened Bytes
  import opened BlockIo
  import opened FfuLayout

  /** ffu_parse: from an open file. */
  method FfuParse(view: FileHandle) returns (r: Result<Plan>)
    modifies view
    ensures r == Parse(FileView, view.contents)
  {
    var d := view.contents;
    var sec :- FfuParseSecurity(view);
    var img :- FfuParseImage(view, sec.cursor);
    var cursor: u64 :- FfuParseValidation(view, img.cursor, img.validationCount);
    var head := Head(sec, img, cursor);

    var stores: seq<Store>, entries: seq<WriteEntry> := [], [];
    var desired: u16 := 1;
    while |stores| < desired
      invariant cursor < 2 * MAX_FILE && StoresFit(stores, entries)
      invariant ReadStores(FileView, d, head.cursor, sec.chunkSize, 1, [], []) ==
                ReadStores(FileView, d, cursor, sec.chunkSize, desired, stores, entries)
      decreases TWO_16 - |stores|
    {
      var next :- FfuParseStore(view, cursor, sec.chunkSize, desired, stores, entries);
      stores, entries, cursor, desired := next.0.stores, next.0.entries, next.0.cursor, next.1;
    }

    var placed := PlaceStores(stores, entries, cursor);
    if placed.payloadBase == 0 || placed.payloadBase > |d| {
      return Err(VOLUME_CORRUPTED);
    }
    return Ok(MakePlan(|d|, head, placed));
  }

  method FfuParseSecurity(view: FileHandle) returns (r: Result<Security>)
    modifies view
    ensures r == ReadSecurity(FileView, view.contents)
  {
    if |view.contents| < SECURITY_SIZE {
      return Err(VOLUME_CORRUPTED);
    }
    var sec :- view.ReadAt(0, SECURITY_SIZE);
    if RdLe32(sec, 0) != SECURITY_SIZE || sec[4..16] != SIGNED_IMAGE {
      return Err(VOLUME_CORRUPTED);
    }
    if RdLe32(sec, 20) != 0x800C {
      return Err(UNSUPPORTED);
    }
    var chunkSize: u32 := Wrap32(RdLe32(sec, 16) as int * 1024);
    var catalogSize := RdLe32(sec, 24);
    var hashSize := RdLe32(sec, 28);
    if chunkSize == 0 || catalogSize == 0 || hashSize == 0 || hashSize % 32 != 0 {
      return Err(VOLUME_CORRUPTED);
    }
    var cursor: u64 := AlignUp(SECURITY_SIZE + catalogSize + hashSize, chunkSize);
    return Ok(Security(chunkSize, catalogSize, hashSize, cursor));
  }

  method FfuParseImage(view: FileHandle, at: u64) returns (r: Result<ImageHead>)
    requires at < 4 * TWO_32
    modifies view
    ensures r == ReadImageHead(FileView, view.contents, at)
  {
    var d := view.contents;
    var cursor := at;
    var img :- view.ReadAt(cursor, IMAGE_V1_SIZE);
    var size := RdLe32(img, 0);
    if (size != IMAGE_V1_SIZE && size != IMAGE_V2_SIZE) || img[4..16] != IMAGE_FLASH {
      return Err(VOLUME_CORRUPTED);
    }
    var ext: seq<byte> := [0, 0, 0, 0];
    if size == IMAGE_V2_SIZE {
      ext :- view.ReadAt(cursor + IMAGE_V1_SIZE, 4);
    }
    var manifest := RdLe32(img, 16);
    if manifest == 0 || RdLe32(img, 20) == 0 {
      return Err(VOLUME_CORRUPTED);
    }
    cursor := cursor + Wrap32(size as int + manifest);
    return Ok(ImageHead(size, manifest, RdLe32(ext, 0), cursor));
  }

  method FfuParseValidation(view: FileHandle, start: u64, count: u32) returns (r: Result<u64>)
    requires start < 2 * MAX_FILE
    modifies view
    ensures r == SkipValidation(FileView, view.contents, start, count)
  {
    var d := view.contents;
    var cursor: u64 := start;

    var i: u32 := 0;
    while i < count
      invariant i <= count && cursor < 2 * MAX_FILE
      invariant SkipValidation(FileView, d, start, count) ==
                SkipValidation(FileView, d, cursor, count - i)
    {
      var vd :- view.ReadAt(cursor, 28);
      var skip: u64 := 0;
      for j := 0 to 7
        invariant skip == SkipSum(vd, j)
      {
        skip := skip + RdLe32(vd, 4 * j);
      }
      cursor := cursor + 28 + skip;
      i := i + 1;
    }
    return Ok(cursor);
  }

  method FfuParseStoreHead(view: FileHandle, at: u64, desired0: u16) returns (r: Result<StoreHead>)
    modifies view
    ensures r == ReadStoreHead(FileView, view.contents, at, desired0)
  {
    var d := view.contents;
    var cursor, desired := at, desired0;
    var sh :- view.ReadAt(cursor, STORE_V1_SIZE);
    cursor := cursor + STORE_V1_SIZE;
    var payloadSize: u64 := 0;
    if RdLe16(sh, 4) == 2 {
      var more :- view.ReadAt(cursor, STORE_V2_EXTRA);
      cursor := cursor + STORE_V2_EXTRA;
      desired := RdLe16(more, 0);
      payloadSize := RdLe64(more, 4);
      var pathLength := RdLe16(more, 12);
      if desired == 0 || pathLength == 0 {
        return Err(VOLUME_CORRUPTED);
      }
      cursor := cursor + pathLength as int * 2;
    }
    if RdLe32(sh, 0) != 0 || RdLe16(sh, 8) != 2 || RdLe16(sh, 10) != 0 {
      return Err(VOLUME_CORRUPTED);
    }
    var blockSize := RdLe32(sh, 204);
    var count := RdLe32(sh, 208);
    if blockSize == 0 || blockSize > MAX_PAYLOAD_DATA || count == 0 {
      return Err(VOLUME_CORRUPTED);
    }
    return Ok(StoreHead(cursor, desired, blockSize, count, payloadSize));
  }

  method FfuParseDescriptors(view: FileHandle, head: StoreHead, entries0: seq<WriteEntry>, storeIndex: nat)
    returns (r: Result<Descriptors>)
    requires head.cursor < 2 * MAX_FILE
    modifies view
    ensures r == ReadDescriptors(
            FileView, view.contents, head.cursor, 0, entries0, head.descriptorCount, head.blockSize, storeIndex)
  {
    var d := view.contents;
    var entries := entries0;
    var cursor: u64, relPayload: u64 := head.cursor, 0;
    var k: u32 := 0;
    while k < head.descriptorCount
      invariant k <= head.descriptorCount && cursor < 2 * MAX_FILE
      invariant ReadDescriptors(
                FileView, d, head.cursor, 0, entries0, head.descriptorCount, head.blockSize, storeIndex) ==
                ReadDescriptors(
                  FileView, d, cursor, relPayload, entries, head.descriptorCount - k, head.blockSize, storeIndex)
    {
      var wh :- view.ReadAt(cursor, 8);
      var locations := RdLe32(wh, 0);
      var blocks := RdLe32(wh, 4);
      if locations == 0 || blocks == 0 {
        return Err(VOLUME_CORRUPTED);
      }
      var byteCount := EntryBytes(head.blockSize, blocks);
      if byteCount >= TWO_32 {
        return Err(UNSUPPORTED);
      }
      entries := entries + [WriteEntry(relPayload, cursor, byteCount, blocks, locations, storeIndex)];
      relPayload := Wrap64(relPayload as int + byteCount);
      cursor := cursor + 8 + 8 * (locations as int);
      k := k + 1;
    }
    return Ok(Descriptors(entries, cursor, relPayload));
  }

  method FfuParseStore(
    view: FileHandle, start: u64, chunkSize: u32, desired: u16, stores: seq<Store>, entries0: seq<WriteEntry>)
    returns (r: Result<(Stores, u16)>)
    requires StoresFit(stores, entries0)
    modifies view
    ensures r == ReadStore(FileView, view.contents, start, chunkSize, desired, stores, entries0)
  {
    var headerOffset := AlignUp(start, chunkSize);
    var head :- FfuParseStoreHead(view, headerOffset, desired);
    var descs :- FfuParseDescriptors(view, head, entries0, |stores|);
    var payloadSize := if head.payloadSize == 0 then descs.relPayload else head.payloadSize;
    var store := Store(
      headerOffset, 0, payloadSize, head.cursor, head.blockSize, head.descriptorCount, |entries0|,
      head.descriptorCount);
    return Ok((Stores(stores + [store], descs.entries, descs.cursor), head.desired));
  }

  /** ffu_parse_header_bytes: from a buffer, with its additional bounds checks. */
  method FfuParseHeaderBytes(data: Contents) returns (r: Result<Plan>)
    ensures r == Parse(HeaderBytes, data)
  {
    var d := data;
    var sec :- FfuParseHeaderBytesSecurity(data);
    var img :- FfuParseHeaderBytesImage(data, sec.cursor);
    var cursor: u64 :- FfuParseHeaderBytesValidation(data, img.cursor, img.validationCount);
    var head := Head(sec, img, cursor);

    var stores: seq<Store>, entries: seq<WriteEntry> := [], [];
    var desired: u16 := 1;
    while |stores| < desired
      invariant cursor < 2 * MAX_FILE && StoresFit(stores, entries)
      invariant ReadStores(HeaderBytes, d, head.cursor, sec.chunkSize, 1, [], []) ==
                ReadStores(HeaderBytes, d, cursor, sec.chunkSize, desired, stores, entries)
      decreases TWO_16 - |stores|
    {
      var next :- FfuParseHeaderBytesStore(data, cursor, sec.chunkSize, desired, stores, entries);
      stores, entries, cursor, desired := next.0.stores, next.0.entries, next.0.cursor, next.1;
    }

    var placed := PlaceStores(stores, entries, cursor);
    if placed.payloadBase == 0 || placed.payloadBase > |d| {
      return Err(END_OF_FILE);
    }
    return Ok(MakePlan(|d|, head, placed));
  }

  method FfuParseHeaderBytesSecurity(data: Contents) returns (r: Result<Security>)
    ensures r == ReadSecurity(HeaderBytes, data)
  {
    if |data| < SECURITY_SIZE {
      return Err(END_OF_FILE);
    }
    var sec :- MemRead(data, 0, SECURITY_SIZE);
    if RdLe32(sec, 0) != SECURITY_SIZE || sec[4..16] != SIGNED_IMAGE {
      return Err(VOLUME_CORRUPTED);
    }
    if RdLe32(sec, 20) != 0x800C {
      return Err(UNSUPPORTED);
    }
    var chunkSize: u32 := Wrap32(RdLe32(sec, 16) as int * 1024);
    var catalogSize := RdLe32(sec, 24);
    var hashSize := RdLe32(sec, 28);
    if chunkSize == 0 || catalogSize == 0 || hashSize == 0 || hashSize % 32 != 0 {
      return Err(VOLUME_CORRUPTED);
    }
    var cursor: u64 := AlignUp(SECURITY_SIZE + catalogSize + hashSize, chunkSize);
    return Ok(Security(chunkSize, catalogSize, hashSize, cursor));
  }

  method FfuParseHeaderBytesImage(data: Contents, at: u64) returns (r: Result<ImageHead>)
    requires at < 4 * TWO_32
    ensures r == ReadImageHead(HeaderBytes, data, at)
  {
    var d := data;
    var cursor := at;
    if cursor + IMAGE_V1_SIZE > |d| {
      return Err(END_OF_FILE);
    }
    // the check above leaves this read nothing to refuse
    var read := MemRead(data, cursor, IMAGE_V1_SIZE);
    assert read.Ok?;
    var img := read.value;
    var size := RdLe32(img, 0);
    if (size != IMAGE_V1_SIZE && size != IMAGE_V2_SIZE) || img[4..16] != IMAGE_FLASH {
      return Err(VOLUME_CORRUPTED);
    }
    var ext: seq<byte> := [0, 0, 0, 0];
    if size == IMAGE_V2_SIZE {
      ext :- MemRead(data, cursor + IMAGE_V1_SIZE, 4);
    }
    var manifest := RdLe32(img, 16);
    if manifest == 0 || RdLe32(img, 20) == 0 {
      return Err(VOLUME_CORRUPTED);
    }
    cursor := cursor + Wrap32(size as int + manifest);
    if cursor > |d| {
      return Err(END_OF_FILE);
    }
    return Ok(ImageHead(size, manifest, RdLe32(ext, 0), cursor));
  }

  method FfuParseHeaderBytesValidation(data: Contents, start: u64, count: u32) returns (r: Result<u64>)
    requires start < 2 * MAX_FILE
    ensures r == SkipValidation(HeaderBytes, data, start, count)
  {
    var d := data;
    var cursor: u64 := start;

    var i: u32 := 0;
    while i < count
      invariant i <= count && cursor < 2 * MAX_FILE
      invariant SkipValidation(HeaderBytes, d, start, count) ==
                SkipValidation(HeaderBytes, d, cursor, count - i)
    {
      var vd :- MemRead(data, cursor, 28);
      var skip: u64 := 0;
      for j := 0 to 7
        invariant skip == SkipSum(vd, j)
      {
        skip := skip + RdLe32(vd, 4 * j);
      }
      cursor := cursor + 28 + skip;
      if cursor > |d| {
        return Err(END_OF_FILE);
      }
      i := i + 1;
    }
    return Ok(cursor);
  }

  method FfuParseHeaderBytesStoreHead(data: Contents, at: u64, desired0: u16) returns (r: Result<StoreHead>)
    ensures r == ReadStoreHead(HeaderBytes, data, at, desired0)
  {
    var d := data;
    var cursor, desired := at, desired0;
    var sh :- MemRead(data, cursor, STORE_V1_SIZE);
    cursor := cursor + STORE_V1_SIZE;
    var payloadSize: u64 := 0;
    if RdLe16(sh, 4) == 2 {
      var more :- MemRead(data, cursor, STORE_V2_EXTRA);
      cursor := cursor + STORE_V2_EXTRA;
      desired := RdLe16(more, 0);
      payloadSize := RdLe64(more, 4);
      var pathLength := RdLe16(more, 12);
      if desired == 0 || pathLength == 0 {
        return Err(VOLUME_CORRUPTED);
      }
      cursor := cursor + pathLength as int * 2;
      if cursor > |d| {
        return Err(END_OF_FILE);
      }
    }
    if RdLe32(sh, 0) != 0 || RdLe16(sh, 8) != 2 || RdLe16(sh, 10) != 0 {
      return Err(VOLUME_CORRUPTED);
    }
    var blockSize := RdLe32(sh, 204);
    var count := RdLe32(sh, 208);
    if blockSize == 0 || blockSize > MAX_PAYLOAD_DATA || count == 0 {
      return Err(VOLUME_CORRUPTED);
    }
    return Ok(StoreHead(cursor, desired, blockSize, count, payloadSize));
  }

  method FfuParseHeaderBytesDescriptors(data: Contents, head: StoreHead, entries0: seq<WriteEntry>, storeIndex: nat)
    returns (r: Result<Descriptors>)
    requires head.cursor < 2 * MAX_FILE
    ensures r == ReadDescriptors(
            HeaderBytes, data, head.cursor, 0, entries0, head.descriptorCount, head.blockSize, storeIndex)
  {
    var d := data;
    var entries := entries0;
    var cursor: u64, relPayload: u64 := head.cursor, 0;
    var k: u32 := 0;
    while k < head.descriptorCount
      invariant k <= head.descriptorCount && cursor < 2 * MAX_FILE
      invariant ReadDescriptors(
                HeaderBytes, d, head.cursor, 0, entries0, head.descriptorCount, head.blockSize, storeIndex) ==
                ReadDescriptors(
                  HeaderBytes, d, cursor, relPayload, entries, head.descriptorCount - k, head.blockSize, storeIndex)
    {
      var wh :- MemRead(data, cursor, 8);
      var locations := RdLe32(wh, 0);
      var blocks := RdLe32(wh, 4);
      if locations == 0 || blocks == 0 {
        return Err(VOLUME_CORRUPTED);
      }
      if cursor + 8 + 8 * (locations as int) > |d| {
        return Err(END_OF_FILE);
      }
      var byteCount := EntryBytes(head.blockSize, blocks);
      if byteCount >= TWO_32 {
        return Err(UNSUPPORTED);
      }
      entries := entries + [WriteEntry(relPayload, cursor, byteCount, blocks, locations, storeIndex)];
      relPayload := Wrap64(relPayload as int + byteCount);
      cursor := cursor + 8 + 8 * (locations as int);
      k := k + 1;
    }
    return Ok(Descriptors(entries, cursor, relPayload));
  }

  method FfuParseHeaderBytesStore(
    data: Contents, start: u64, chunkSize: u32, desired: u16, stores: seq<Store>, entries0: seq<WriteEntry>)
    returns (r: Result<(Stores, u16)>)
    requires StoresFit(stores, entries0)
    ensures r == ReadStore(HeaderBytes, data, start, chunkSize, desired, stores, entries0)
  {
    var headerOffset := AlignUp(start, chunkSize);
    var head :- FfuParseHeaderBytesStoreHead(data, headerOffset, desired);
    var descs :- FfuParseHeaderBytesDescriptors(data, head, entries0, |stores|);
    var payloadSize := if head.payloadSize == 0 then descs.relPayload else head.payloadSize;
    var store := Store(
      headerOffset, 0, payloadSize, head.cursor, head.blockSize, head.descriptorCount, |entries0|,
      head.descriptorCount);
    return Ok((Stores(stores + [store], descs.entries, descs.cursor), head.desired));
  }

  /** mem_read_exact, with the source's overflow-free form of the bounds check. */
  method MemRead(data: Contents, offset: u64, len: u64) returns (r: Result<seq<byte>>)
    ensures r == ReadExact(HeaderBytes, data, offset, len)
  {
    if offset > |data| || len > |data| - offset {
      return Err(END_OF_FILE);
    }
    return Ok(data[offset..offset + len]);
  }

  /** The second pass of both parsers: payload positions, store by store. */
  method PlaceStores(stores0: seq<Store>, entries0: seq<WriteEntry>, cursor: u64) returns (p: Placed)
    requires StoresFit(stores0, entries0)
    ensures p == PlacePayload(Placed(stores0, entries0, 0, 0), 0, cursor)
  {
    var stores, entries := stores0, entries0;
    hide AlignUp, Rebased, PrefixBytes, Wrap64;
    var payloadBase: u64, total: u64, payloadCursor: u64 := 0, 0, cursor;
    var s := 0;
    while s < |stores|
      invariant s <= |stores| && StoresFit(stores, entries)
      invariant PlacePayload(Placed(stores0, entries0, 0, 0), 0, cursor) ==
                PlacePayload(Placed(stores, entries, payloadBase, total), s, payloadCursor)
    {
      var store := stores[s];
      ghost var before := Placed(stores, entries, payloadBase, total);
      payloadCursor := AlignUp(payloadCursor, store.blockSize);
      stores := stores[s := store.(payloadBase := payloadCursor)];
      if payloadBase == 0 {
        payloadBase := payloadCursor;
      }
      entries, total := RebaseEntries(entries, store.entryStart, store.entryCount, payloadCursor, total);
      assert Placed(stores, entries, payloadBase, total) == PlaceStore(before, s, payloadCursor);
      payloadCursor := Wrap64(payloadCursor as int + store.payloadSize as int);
      s := s + 1;
    }
    p := Placed(stores, entries, payloadBase, total);
  }

  lemma RebaseStep(entries: seq<WriteEntry>, start: nat, e: nat, base: u64)
    requires start + e < |entries|
    ensures Rebased(entries, start, e, base)[start + e] == entries[start + e]
    ensures Rebased(entries, start, e + 1, base) ==
            Rebased(entries, start, e, base)[start + e := entries[start + e].(payloadOffset :=
              Wrap64(entries[start + e].payloadOffset as int + base as int))]
  {
  }

  lemma TotalStep(entries: seq<WriteEntry>, start: nat, e: nat, total: u64)
    requires start + e < |entries|
    ensures Wrap64(total as int + PrefixBytes(entries, start + e + 1) - PrefixBytes(entries, start)) ==
            Wrap64(Wrap64(total as int + PrefixBytes(entries, start + e) - PrefixBytes(entries, start)) as int
                   + entries[start + e].byteCount as int)
  {
    WrapAdd(total as int + PrefixBytes(entries, start + e) - PrefixBytes(entries, start), entries[start + e].byteCount);
  }

  /** Its inner loop: one store's entries move to their absolute offsets and are counted. */
  method RebaseEntries(entries0: seq<WriteEntry>, start: nat, count: u32, base: u64, total0: u64)
    returns (entries: seq<WriteEntry>, total: u64)
    requires start + count <= |entries0|
    ensures entries == Rebased(entries0, start, count, base)
    ensures total == Wrap64(total0 as int + PrefixBytes(entries0, start + count) - PrefixBytes(entries0, start))
  {
    entries, total := entries0, total0;
    assert entries == Rebased(entries0, start, 0, base);
    hide Rebased, PrefixBytes;
    assert total == Wrap64(total0 as int + PrefixBytes(entries0, start) - PrefixBytes(entries0, start));
    hide Wrap64;
    var e: u32 := 0;
    while e < count
      invariant e <= count && |entries| == |entries0|
      invariant entries == Rebased(entries0, start, e, base)
      invariant total == Wrap64(total0 as int + PrefixBytes(entries0, start + e) - PrefixBytes(entries0, start))
    {
      var entry := entries[start + e];
      RebaseStep(entries0, start, e, base);
      TotalStep(entries0, start, e, total0);
      entries := entries[start + e := entry.(payloadOffset := Wrap64(entry.payloadOffset as int + base as int))];
      total := Wrap64(total as int + entry.byteCount as int);
      e := e + 1;
    }
  }
}
