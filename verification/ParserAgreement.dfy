/** ffu_parse and ffu_parse_header_bytes agree: the buffer form accepts exactly the prefixes of
    the file that reach the header size the file form computes, and yields the same plan.
    Each phase gets two facts: success on a prefix carries over to the file, and success on the
    file carries over to every prefix that covers the phase's final cursor. */
module ParserAgreement {
  import opened Bytes
  import opened BlockIo
  import opened FfuLayout

  lemma SameRead(f: Contents, n: nat, off: nat, len: nat)
    requires n <= |f| && off + len <= n
    ensures ReadExact(HeaderBytes, f[..n], off, len) == ReadExact(FileView, f, off, len)
  {
    assert f[..n][off..off + len] == f[off..off + len];
  }

  lemma SecurityAgrees(f: Contents, n: nat)
    requires n <= |f|
    ensures ReadSecurity(HeaderBytes, f[..n]).Ok? <==> ReadSecurity(FileView, f).Ok? && SECURITY_SIZE <= n
    ensures ReadSecurity(HeaderBytes, f[..n]).Ok? ==> ReadSecurity(HeaderBytes, f[..n]) == ReadSecurity(FileView, f)
  {
    if SECURITY_SIZE <= n {
      SameRead(f, n, 0, SECURITY_SIZE);
    }
  }

  lemma ImageAgrees(f: Contents, n: nat, at: u64)
    requires n <= |f| && at < 4 * TWO_32
    ensures ReadImageHead(HeaderBytes, f[..n], at).Ok? ==>
              ReadImageHead(HeaderBytes, f[..n], at) == ReadImageHead(FileView, f, at)
    ensures var r := ReadImageHead(FileView, f, at);
            r.Ok? && at + IMAGE_V2_SIZE <= n && r.value.cursor <= n ==> ReadImageHead(HeaderBytes, f[..n], at) == r
  {
    if at + IMAGE_V1_SIZE <= n {
      SameRead(f, n, at, IMAGE_V1_SIZE);
      if at + IMAGE_V2_SIZE <= n {
        SameRead(f, n, at + IMAGE_V1_SIZE, 4);
      }
    }
  }

  lemma {:induction false} ValidationAgrees(f: Contents, n: nat, cursor: u64, count: nat)
    requires n <= |f| && cursor < 2 * MAX_FILE
    ensures SkipValidation(HeaderBytes, f[..n], cursor, count).Ok? ==>
              SkipValidation(HeaderBytes, f[..n], cursor, count) == SkipValidation(FileView, f, cursor, count)
    ensures var r := SkipValidation(FileView, f, cursor, count);
            r.Ok? && r.value <= n ==> SkipValidation(HeaderBytes, f[..n], cursor, count) == r
    decreases count
  {
    if count > 0 && cursor + 28 <= |f| {
      var vd := f[cursor..cursor + 28];
      if cursor + 28 <= n {
        SameRead(f, n, cursor, 28);
      }
      ValidationAgrees(f, n, cursor + 28 + SkipSum(vd, 7), count - 1);
    }
  }

  lemma StoreHeadAgrees(f: Contents, n: nat, at: u64, desired: u16)
    requires n <= |f|
    ensures ReadStoreHead(HeaderBytes, f[..n], at, desired).Ok? ==>
              ReadStoreHead(HeaderBytes, f[..n], at, desired) == ReadStoreHead(FileView, f, at, desired)
    ensures var r := ReadStoreHead(FileView, f, at, desired);
            r.Ok? && r.value.cursor <= n ==> ReadStoreHead(HeaderBytes, f[..n], at, desired) == r
  {
    if at + STORE_V1_SIZE <= n {
      SameRead(f, n, at, STORE_V1_SIZE);
      if at + STORE_V1_SIZE + STORE_V2_EXTRA <= n {
        SameRead(f, n, at + STORE_V1_SIZE, STORE_V2_EXTRA);
      }
    }
  }

  lemma {:induction false} DescriptorsAgree(
    f: Contents, n: nat, cursor: u64, rel: u64, entries: seq<WriteEntry>, count: nat, blockSize: u32, storeIndex: nat)
    requires n <= |f| && cursor < 2 * MAX_FILE
    ensures ReadDescriptors(HeaderBytes, f[..n], cursor, rel, entries, count, blockSize, storeIndex).Ok? ==>
              ReadDescriptors(HeaderBytes, f[..n], cursor, rel, entries, count, blockSize, storeIndex)
              == ReadDescriptors(FileView, f, cursor, rel, entries, count, blockSize, storeIndex)
    ensures var r := ReadDescriptors(FileView, f, cursor, rel, entries, count, blockSize, storeIndex);
            r.Ok? && r.value.cursor <= n ==>
              ReadDescriptors(HeaderBytes, f[..n], cursor, rel, entries, count, blockSize, storeIndex) == r
    decreases count
  {
    hide EntryBytes, RdLe32, Wrap64;
    if count > 0 && cursor + 8 <= |f| {
      if cursor + 8 <= n {
        SameRead(f, n, cursor, 8);
      }
      var wh := f[cursor..cursor + 8];
      var locations, blocks := RdLe32(wh, 0), RdLe32(wh, 4);
      var bytes := EntryBytes(blockSize, blocks);
      if bytes < TWO_32 {
        DescriptorsAgree(
          f, n, cursor + 8 + 8 * (locations as int), Wrap64(rel as int + bytes),
          entries + [WriteEntry(rel, cursor, bytes, blocks, locations, storeIndex)], count - 1, blockSize, storeIndex);
      }
    }
  }

  lemma StoreAgrees(
    f: Contents, n: nat, cursor: u64, chunkSize: u32, desired: u16, stores: seq<Store>, entries: seq<WriteEntry>)
    requires n <= |f| && StoresFit(stores, entries)
    ensures ReadStore(HeaderBytes, f[..n], cursor, chunkSize, desired, stores, entries).Ok? ==>
              ReadStore(HeaderBytes, f[..n], cursor, chunkSize, desired, stores, entries)
              == ReadStore(FileView, f, cursor, chunkSize, desired, stores, entries)
    ensures var r := ReadStore(FileView, f, cursor, chunkSize, desired, stores, entries);
            r.Ok? && r.value.0.cursor <= n ==>
              ReadStore(HeaderBytes, f[..n], cursor, chunkSize, desired, stores, entries) == r
  {
    var at := AlignUp(cursor, chunkSize);
    StoreHeadAgrees(f, n, at, desired);
    var head := ReadStoreHead(FileView, f, at, desired);
    if head.Ok? {
      var h := head.value;
      DescriptorsAgree(f, n, h.cursor, 0, entries, h.descriptorCount, h.blockSize, |stores|);
    }
  }

  /** The store loop only moves its cursor forward, by a store header at least if it turns at all. */
  lemma {:induction false} StoresAdvance(
    src: Source, d: Contents, cursor: u64, chunkSize: u32, desired: u16, stores: seq<Store>, entries: seq<WriteEntry>)
    requires StoresFit(stores, entries) && 0 < chunkSize && cursor < 2 * MAX_FILE
    ensures var r := ReadStores(src, d, cursor, chunkSize, desired, stores, entries);
            r.Ok? ==> cursor + (if |stores| < desired then STORE_V1_SIZE else 0) <= r.value.cursor < 2 * MAX_FILE
    decreases TWO_16 - |stores|
  {
    if |stores| < desired {
      var next := ReadStore(src, d, cursor, chunkSize, desired, stores, entries);
      if next.Ok? {
        var (body, wanted) := next.value;
        StoresAdvance(src, d, body.cursor, chunkSize, wanted, body.stores, body.entries);
      }
    }
  }

  lemma {:induction false} StoresAgree(
    f: Contents, n: nat, cursor: u64, chunkSize: u32, desired: u16, stores: seq<Store>, entries: seq<WriteEntry>)
    requires n <= |f| && StoresFit(stores, entries) && 0 < chunkSize && cursor < 2 * MAX_FILE
    ensures ReadStores(HeaderBytes, f[..n], cursor, chunkSize, desired, stores, entries).Ok? ==>
              ReadStores(HeaderBytes, f[..n], cursor, chunkSize, desired, stores, entries)
              == ReadStores(FileView, f, cursor, chunkSize, desired, stores, entries)
    ensures var r := ReadStores(FileView, f, cursor, chunkSize, desired, stores, entries);
            r.Ok? && r.value.cursor <= n ==>
              ReadStores(HeaderBytes, f[..n], cursor, chunkSize, desired, stores, entries) == r
    decreases TWO_16 - |stores|
  {
    if |stores| < desired {
      StoreAgrees(f, n, cursor, chunkSize, desired, stores, entries);
      var next := ReadStore(FileView, f, cursor, chunkSize, desired, stores, entries);
      if next.Ok? {
        var (body, wanted) := next.value;
        StoresAgree(f, n, body.cursor, chunkSize, wanted, body.stores, body.entries);
        StoresAdvance(FileView, f, body.cursor, chunkSize, wanted, body.stores, body.entries);
      }
    }
  }

  /** A payload base, once set, stays. */
  lemma {:induction false} BaseStays(p: Placed, s: nat, cursor: u64)
    requires s <= |p.stores| && StoresFit(p.stores, p.entries) && p.payloadBase != 0
    ensures PlacePayload(p, s, cursor).payloadBase == p.payloadBase
    decreases |p.stores| - s
  {
    if s < |p.stores| {
      var base := AlignUp(cursor, p.stores[s].blockSize);
      BaseStays(PlaceStore(p, s, base), s + 1, Wrap64(base as int + p.stores[s].payloadSize as int));
    }
  }

  /** The header ends where the first store's payload begins: at the descriptors' end, aligned. */
  lemma HeaderSizeIsAligned(stores: seq<Store>, entries: seq<WriteEntry>, cursor: u64)
    requires |stores| > 0 && StoresFit(stores, entries) && 0 < stores[0].blockSize && 0 < cursor < 2 * MAX_FILE
    ensures PlacePayload(Placed(stores, entries, 0, 0), 0, cursor).payloadBase == AlignUp(cursor, stores[0].blockSize)
    ensures cursor <= PlacePayload(Placed(stores, entries, 0, 0), 0, cursor).payloadBase
  {
    var p := Placed(stores, entries, 0, 0);
    var base := AlignUp(cursor, stores[0].blockSize);
    BaseStays(PlaceStore(p, 0, base), 1, Wrap64(base as int + stores[0].payloadSize as int));
  }

  lemma {:induction false} StoresSized(
    src: Source, d: Contents, cursor: u64, chunkSize: u32, desired: u16, stores: seq<Store>, entries: seq<WriteEntry>)
    requires StoresFit(stores, entries)
    requires forall i :: 0 <= i < |stores| ==> 0 < stores[i].blockSize <= MAX_PAYLOAD_DATA
    ensures var r := ReadStores(src, d, cursor, chunkSize, desired, stores, entries);
            r.Ok? ==> |r.value.stores| >= |stores| && |r.value.stores| >= Min(desired, |stores| + 1) &&
                      forall i :: 0 <= i < |r.value.stores| ==> 0 < r.value.stores[i].blockSize <= MAX_PAYLOAD_DATA
    decreases TWO_16 - |stores|
  {
    if |stores| < desired {
      var next := ReadStore(src, d, cursor, chunkSize, desired, stores, entries);
      if next.Ok? {
        var (body, wanted) := next.value;
        StoresSized(src, d, body.cursor, chunkSize, wanted, body.stores, body.entries);
      }
    }
  }

  /** What an accepted layout is made of, and why its end lies inside the header. */
  lemma BodyWithinHeader(src: Source, d: Contents)
    requires Parse(src, d).Ok?
    ensures var head := ReadHead(src, d);
            head.Ok? &&
            var body := ReadStores(src, d, head.value.cursor, head.value.sec.chunkSize, 1, [], []);
            body.Ok? && |body.value.stores| > 0 && 0 < body.value.stores[0].blockSize &&
            head.value.cursor + STORE_V1_SIZE <= body.value.cursor <= Parse(src, d).value.headerSize <= |d|
  {
    var head := ReadHead(src, d).value;
    StoresAdvance(src, d, head.cursor, head.sec.chunkSize, 1, [], []);
    StoresSized(src, d, head.cursor, head.sec.chunkSize, 1, [], []);
    var body := ReadStores(src, d, head.cursor, head.sec.chunkSize, 1, [], []).value;
    HeaderSizeIsAligned(body.stores, body.entries, body.cursor);
  }

  lemma HeadAgrees(f: Contents, n: nat)
    requires n <= |f|
    ensures ReadHead(HeaderBytes, f[..n]).Ok? ==> ReadHead(HeaderBytes, f[..n]) == ReadHead(FileView, f)
    ensures var r := ReadHead(FileView, f);
            r.Ok? && r.value.cursor <= n && r.value.sec.cursor + IMAGE_V2_SIZE <= n ==>
              ReadHead(HeaderBytes, f[..n]) == r
  {
    SecurityAgrees(f, n);
    if ReadSecurity(FileView, f).Ok? {
      var sec := ReadSecurity(FileView, f).value;
      ImageAgrees(f, n, sec.cursor);
      var img := ReadImageHead(FileView, f, sec.cursor);
      if img.Ok? {
        ValidationAgrees(f, n, img.value.cursor, img.value.validationCount);
      }
    }
  }

  lemma PrefixAccepted(f: Contents, n: nat)
    requires n <= |f| && Parse(HeaderBytes, f[..n]).Ok?
    ensures Parse(FileView, f).Ok? && Parse(FileView, f).value.headerSize <= n
    ensures Parse(HeaderBytes, f[..n]).value == Parse(FileView, f).value.(fileSize := n)
  {
    hide ReadHead, ReadStores, PlacePayload;
    HeadAgrees(f, n);
    BodyWithinHeader(HeaderBytes, f[..n]);
    var head := ReadHead(FileView, f).value;
    StoresAgree(f, n, head.cursor, head.sec.chunkSize, 1, [], []);
  }

  lemma HeadBeforeStores(f: Contents)
    requires ReadHead(FileView, f).Ok?
    ensures ReadHead(FileView, f).value.sec.cursor <= ReadHead(FileView, f).value.cursor
  {
    hide ReadSecurity, ReadImageHead, SkipValidation;
  }

  lemma FileAccepted(f: Contents, n: nat)
    requires n <= |f| && Parse(FileView, f).Ok? && Parse(FileView, f).value.headerSize <= n
    ensures Parse(HeaderBytes, f[..n]) == Ok(Parse(FileView, f).value.(fileSize := n))
  {
    hide ReadHead, ReadStores, PlacePayload;
    BodyWithinHeader(FileView, f);
    var head := ReadHead(FileView, f).value;
    HeadBeforeStores(f);
    HeadAgrees(f, n);
    StoresAgree(f, n, head.cursor, head.sec.chunkSize, 1, [], []);
  }

  /** The two parsers agree on every file and every prefix of it: the buffer form accepts a prefix
      exactly when the file form accepts the file and the prefix reaches the header size, and the
      plans are the same apart from the recorded size. */
  lemma ParsersAgree(f: Contents, n: nat)
    requires n <= |f|
    ensures Parse(HeaderBytes, f[..n]).Ok? <==> Parse(FileView, f).Ok? && Parse(FileView, f).value.headerSize <= n
    ensures Parse(HeaderBytes, f[..n]).Ok? ==>
              Parse(HeaderBytes, f[..n]).value == Parse(FileView, f).value.(fileSize := n)
  {
    hide Parse;
    if Parse(HeaderBytes, f[..n]).Ok? {
      PrefixAccepted(f, n);
    } else if Parse(FileView, f).Ok? && Parse(FileView, f).value.headerSize <= n {
      FileAccepted(f, n);
    }
  }

  /** If the buffer form accepts some prefix of d, it accepts precisely the prefixes at least as
      long as the header size it reports, always with the same layout. */
  lemma ExactThreshold(d: Contents, m: nat, n: nat)
    requires m <= |d| && n <= |d| && Parse(HeaderBytes, d[..m]).Ok?
    ensures var plan := Parse(HeaderBytes, d[..m]).value;
            plan.headerSize <= m &&
            (Parse(HeaderBytes, d[..n]).Ok? <==> plan.headerSize <= n) &&
            (plan.headerSize <= n ==> Parse(HeaderBytes, d[..n]).value == plan.(fileSize := n))
  {
    ParsersAgree(d, m);
    ParsersAgree(d, n);
  }
}
