/** What an accepted image says in its bytes: every size and position in the plan, read back from
    the place in the file where the format puts it. */
module HeaderFacts {
  import opened Bytes
  import opened BlockIo
  import opened FfuLayout
  import ParserAgreement
  import PlanFacts

  /** s is the store header at its offset in d, behind a chunk boundary. */
  predicate StoreRead(d: seq<byte>, s: Store, chunkSize: nat) {
    var at := s.headerOffset;
    && at + STORE_V1_SIZE <= |d| && Multiple(at, chunkSize)
    && RdLe32(d, at) == 0 && RdLe16(d, at + 8) == 2 && RdLe16(d, at + 10) == 0
    && RdLe32(d, at + 204) == s.blockSize && 0 < s.blockSize <= MAX_PAYLOAD_DATA
    && RdLe32(d, at + 208) == s.descriptorCount == s.entryCount && 0 < s.entryCount
    && if RdLe16(d, at + 4) == 2 then StoreReadV2(d, s) else s.descriptorBase == at + 248
  }

  /** The extension of a version 2 store header: device path behind it, declared payload size in it. */
  predicate StoreReadV2(d: seq<byte>, s: Store) {
    var at := s.headerOffset;
    && at + 262 <= |d|
    && 0 < RdLe16(d, at + 248) && 0 < RdLe16(d, at + 260)
    && s.descriptorBase == at + 262 + 2 * (RdLe16(d, at + 260) as int)
    && (RdLe64(d, at + 252) != 0 ==> s.payloadSize == RdLe64(d, at + 252))
  }

  lemma SliceReads(d: seq<byte>, at: nat, n: nat, o: nat)
    requires at + n <= |d|
    ensures o + 2 <= n ==> RdLe16(d[at..at + n], o) == RdLe16(d, at + o)
    ensures o + 4 <= n ==> RdLe32(d[at..at + n], o) == RdLe32(d, at + o)
    ensures o + 8 <= n ==> RdLe64(d[at..at + n], o) == RdLe64(d, at + o)
  {
  }

  lemma SliceOfSlice(d: seq<byte>, at: nat, n: nat, lo: nat, hi: nat)
    requires at + n <= |d| && lo <= hi <= n
    ensures d[at..at + n][lo..hi] == d[at + lo..at + hi]
  {
    var a, b := d[at..at + n][lo..hi], d[at + lo..at + hi];
    assert |a| == |b|;
    assert forall i :: 0 <= i < |a| ==> a[i] == d[at + lo + i] == b[i];
  }

  lemma ZeroWord()
    ensures RdLe32([0, 0, 0, 0], 0) == 0
  {
  }

  /** The security header, read as a whole or in place. */
  lemma SecurityFields(d: seq<byte>)
    requires |d| >= 32
    ensures var sec := d[0..32];
            && RdLe32(sec, 0) == RdLe32(d, 0) && RdLe32(sec, 16) == RdLe32(d, 16) && RdLe32(sec, 20) == RdLe32(d, 20)
            && RdLe32(sec, 24) == RdLe32(d, 24) && RdLe32(sec, 28) == RdLe32(d, 28) && sec[4..16] == d[4..16]
  {
    hide RdLe16, RdLe32, RdLe64;
    SliceReads(d, 0, 32, 0);
    SliceReads(d, 0, 32, 16);
    SliceReads(d, 0, 32, 20);
    SliceReads(d, 0, 32, 24);
    SliceReads(d, 0, 32, 28);
    SliceOfSlice(d, 0, 32, 4, 16);
  }

  /** The image header, and the word behind it that version 2 adds. */
  lemma ImageFields(d: seq<byte>, at: nat)
    requires at + 24 <= |d|
    ensures var img := d[at..at + 24];
            && RdLe32(img, 0) == RdLe32(d, at) && RdLe32(img, 16) == RdLe32(d, at + 16)
            && RdLe32(img, 20) == RdLe32(d, at + 20) && img[4..16] == d[at + 4..at + 16]
    ensures at + 28 <= |d| ==> RdLe32(d[at + 24..at + 28], 0) == RdLe32(d, at + 24)
    ensures RdLe32([0, 0, 0, 0], 0) == 0
  {
    hide RdLe16, RdLe32, RdLe64;
    SliceReads(d, at, 24, 0);
    SliceReads(d, at, 24, 16);
    SliceReads(d, at, 24, 20);
    SliceOfSlice(d, at, 24, 4, 16);
    if at + 28 <= |d| {
      SliceReads(d, at + 24, 4, 0);
    }
    ZeroWord();
  }

  lemma StoreHeadReads(src: Source, d: Contents, at: u64, desired: u16, s: Store)
    requires ReadStoreHead(src, d, at, desired).Ok?
    requires var h := ReadStoreHead(src, d, at, desired).value;
             && s.headerOffset == at && s.descriptorBase == h.cursor && s.blockSize == h.blockSize
             && s.descriptorCount == s.entryCount == h.descriptorCount
             && (h.payloadSize != 0 ==> s.payloadSize == h.payloadSize)
    ensures forall chunkSize: nat :: Multiple(at, chunkSize) ==> StoreRead(d, s, chunkSize)
  {
  }

  predicate AllRead(d: seq<byte>, stores: seq<Store>, chunkSize: nat) {
    forall i :: 0 <= i < |stores| ==> StoreRead(d, stores[i], chunkSize)
  }

  lemma StoreReads(
    src: Source, d: Contents, cursor: u64, chunkSize: u32, desired: u16, stores: seq<Store>, entries: seq<WriteEntry>)
    requires StoresFit(stores, entries) && 0 < chunkSize && cursor < 2 * MAX_FILE && AllRead(d, stores, chunkSize)
    ensures var r := ReadStore(src, d, cursor, chunkSize, desired, stores, entries);
            r.Ok? ==> AllRead(d, r.value.0.stores, chunkSize)
  {
    hide ReadStoreHead, ReadDescriptors, StoreRead, AlignUp, Multiple;
    var r := ReadStore(src, d, cursor, chunkSize, desired, stores, entries);
    if r.Ok? {
      var all := r.value.0.stores;
      StoreHeadReads(src, d, AlignUp(cursor, chunkSize), desired, all[|stores|]);
      forall i | 0 <= i < |all|
        ensures StoreRead(d, all[i], chunkSize)
      {
        if i < |stores| {
          assert all[i] == all[..|stores|][i];
        }
      }
    }
  }

  // ----- declared and counted payload sizes -----

  /** The payload size that a store's header declares; 0 if it declares none. */
  function DeclaredSize(d: seq<byte>, s: Store): u64 {
    var at := s.headerOffset;
    if at + 262 <= |d| && RdLe16(d, at + 4) == 2 then RdLe64(d, at + 252) else 0
  }

  /** The store's payload size is the declared one, or else the byte count of its entries, which the
      first pass sums in 64 bits. */
  predicate SizeRead(d: seq<byte>, s: Store, entries: seq<WriteEntry>) {
    var end := s.entryStart + s.entryCount;
    end <= |entries| &&
    s.payloadSize ==
    if DeclaredSize(d, s) != 0 then DeclaredSize(d, s)
    else Wrap64(PrefixBytes(entries, end) - PrefixBytes(entries, s.entryStart))
  }

  predicate AllSized(d: seq<byte>, stores: seq<Store>, entries: seq<WriteEntry>) {
    forall i :: 0 <= i < |stores| ==> SizeRead(d, stores[i], entries)
  }

  /** The header reader reports the declared size. */
  lemma HeadDeclares(src: Source, d: Contents, at: u64, desired: u16, s: Store)
    requires s.headerOffset == at && ReadStoreHead(src, d, at, desired).Ok?
    ensures ReadStoreHead(src, d, at, desired).value.payloadSize == DeclaredSize(d, s)
  {
  }

  lemma RelativeIsCount(s: Store, entries: seq<WriteEntry>, d: seq<byte>)
    requires s.entryStart + s.entryCount == |entries|
    requires s.payloadSize ==
             if DeclaredSize(d, s) != 0 then DeclaredSize(d, s)
             else PlanFacts.Relative(entries, s.entryStart, |entries|)
    ensures SizeRead(d, s, entries)
  {
  }

  lemma SizeKept(d: seq<byte>, s: Store, t: Store, entries: seq<WriteEntry>, more: seq<WriteEntry>)
    requires SizeRead(d, s, entries) && t == s.(payloadBase := t.payloadBase) && |entries| <= |more|
    requires forall j :: 0 <= j < |entries| ==> more[j].byteCount == entries[j].byteCount
    ensures SizeRead(d, t, more)
  {
    hide PrefixBytes, Wrap64;
    PlanFacts.PrefixSame(entries, more, s.entryStart);
    PlanFacts.PrefixSame(entries, more, s.entryStart + s.entryCount);
  }

  lemma StoreSized(
    src: Source, d: Contents, cursor: u64, chunkSize: u32, desired: u16, stores: seq<Store>, entries: seq<WriteEntry>)
    requires StoresFit(stores, entries) && 0 < chunkSize && cursor < 2 * MAX_FILE && AllSized(d, stores, entries)
    ensures var r := ReadStore(src, d, cursor, chunkSize, desired, stores, entries);
            r.Ok? ==> AllSized(d, r.value.0.stores, r.value.0.entries)
  {
    hide ReadStoreHead, ReadDescriptors, SizeRead, AlignUp, PrefixBytes, DeclaredSize;
    var r := ReadStore(src, d, cursor, chunkSize, desired, stores, entries);
    if r.Ok? {
      var at := AlignUp(cursor, chunkSize);
      var head := ReadStoreHead(src, d, at, desired).value;
      var all, more := r.value.0.stores, r.value.0.entries;
      PlanFacts.DescriptorsChain(
        src, d, head.cursor, 0, entries, head.descriptorCount, head.blockSize, |stores|, |entries|, head.cursor);
      HeadDeclares(src, d, at, desired, all[|stores|]);
      assert SizeRead(d, all[|stores|], more) by {
        RelativeIsCount(all[|stores|], more, d);
      }
      forall i | 0 <= i < |stores|
        ensures SizeRead(d, all[i], more)
      {
        assert all[i] == all[..|stores|][i] && more[..|entries|] == entries;
        SizeKept(d, stores[i], stores[i], entries, more);
      }
    }
  }

  // ----- the number of stores -----

  /** The store count in force behind the first k stores: one, until a version 2 header says otherwise. */
  function Wanted(d: seq<byte>, stores: seq<Store>, k: nat): u16
    requires k <= |stores|
  {
    if k == 0 then 1
    else
      var at := stores[k - 1].headerOffset;
      if at + 250 <= |d| && RdLe16(d, at + 4) == 2 then RdLe16(d, at + 248) else Wanted(d, stores, k - 1)
  }

  predicate MoreWanted(d: seq<byte>, stores: seq<Store>, k: nat)
    requires k <= |stores|
  {
    k < Wanted(d, stores, k)
  }

  /** In front of every store the count in force asked for another one. */
  predicate AllWanted(d: seq<byte>, stores: seq<Store>) {
    forall k :: 0 <= k < |stores| ==> MoreWanted(d, stores, k)
  }

  /** And behind the last one it asks for no more. */
  predicate StoresCounted(d: seq<byte>, stores: seq<Store>) {
    AllWanted(d, stores) && !MoreWanted(d, stores, |stores|)
  }

  lemma {:induction false} WantedSame(d: seq<byte>, a: seq<Store>, b: seq<Store>, k: nat)
    requires k <= |a| && k <= |b| && forall i :: 0 <= i < k ==> a[i].headerOffset == b[i].headerOffset
    ensures Wanted(d, a, k) == Wanted(d, b, k)
  {
    hide RdLe16;
    if k > 0 {
      WantedSame(d, a, b, k - 1);
    }
  }

  lemma HeadCounts(src: Source, d: Contents, at: u64, desired: u16)
    requires ReadStoreHead(src, d, at, desired).Ok?
    ensures at + 248 <= |d|
    ensures RdLe16(d, at + 4) == 2 ==>
              at + 250 <= |d| && ReadStoreHead(src, d, at, desired).value.desired == RdLe16(d, at + 248)
    ensures RdLe16(d, at + 4) != 2 ==> ReadStoreHead(src, d, at, desired).value.desired == desired
  {
    SliceReads(d, at, 248, 4);
    if at + 262 <= |d| {
      SliceReads(d, at + 248, 14, 0);
    }
    hide RdLe16, RdLe32, RdLe64;
  }

  lemma StoreCounts(
    src: Source, d: Contents, cursor: u64, chunkSize: u32, desired: u16, stores: seq<Store>, entries: seq<WriteEntry>)
    requires StoresFit(stores, entries) && |stores| < desired == Wanted(d, stores, |stores|) && AllWanted(d, stores)
    ensures var r := ReadStore(src, d, cursor, chunkSize, desired, stores, entries);
            r.Ok? ==> AllWanted(d, r.value.0.stores) &&
                      r.value.1 == Wanted(d, r.value.0.stores, |r.value.0.stores|)
  {
    hide ReadStoreHead, ReadDescriptors, AlignUp, RdLe16;
    var r := ReadStore(src, d, cursor, chunkSize, desired, stores, entries);
    if r.Ok? {
      var all := r.value.0.stores;
      HeadCounts(src, d, AlignUp(cursor, chunkSize), desired);
      assert forall i :: 0 <= i < |stores| ==> all[..|stores|][i] == all[i];
      hide ReadStore;
      forall k | 0 <= k < |all|
        ensures MoreWanted(d, all, k)
      {
        WantedSame(d, stores, all, k);
        assert k < |stores| ==> MoreWanted(d, stores, k);
      }
      WantedSame(d, stores, all, |stores|);
    }
  }

  /** Every store that the loop reads is what its bytes say, and it reads as many as they say. */
  lemma {:induction false} StoresRead(
    src: Source, d: Contents, cursor: u64, chunkSize: u32, desired: u16, stores: seq<Store>, entries: seq<WriteEntry>)
    requires StoresFit(stores, entries) && 0 < chunkSize && cursor < 2 * MAX_FILE
    requires AllRead(d, stores, chunkSize) && AllSized(d, stores, entries)
    requires AllWanted(d, stores) && desired == Wanted(d, stores, |stores|)
    ensures var r := ReadStores(src, d, cursor, chunkSize, desired, stores, entries);
            r.Ok? ==> AllRead(d, r.value.stores, chunkSize) && AllSized(d, r.value.stores, r.value.entries) &&
                      StoresCounted(d, r.value.stores)
    decreases TWO_16 - |stores|
  {
    hide ReadStore, AllRead, AllSized, AllWanted, Wanted;
    if |stores| < desired {
      StoreCounts(src, d, cursor, chunkSize, desired, stores, entries);
      StoreReads(src, d, cursor, chunkSize, desired, stores, entries);
      StoreSized(src, d, cursor, chunkSize, desired, stores, entries);
      var next := ReadStore(src, d, cursor, chunkSize, desired, stores, entries);
      if next.Ok? {
        var (body, wanted) := next.value;
        StoresRead(src, d, body.cursor, chunkSize, wanted, body.stores, body.entries);
      }
    }
  }

  /** The second pass moves payload, not store headers, sizes or byte counts. */
  lemma PlacingKeepsReads(
    d: seq<byte>, stores: seq<Store>, entries: seq<WriteEntry>, placed: seq<Store>, moved: seq<WriteEntry>,
    chunkSize: nat)
    requires PlanFacts.SameStores(stores, placed) && PlanFacts.SameRecords(entries, moved)
    requires AllRead(d, stores, chunkSize) && AllSized(d, stores, entries)
    ensures AllRead(d, placed, chunkSize) && AllSized(d, placed, moved)
  {
    hide SizeRead, RdLe16, RdLe32, RdLe64, Multiple, PrefixBytes;
    forall i | 0 <= i < |placed|
      ensures StoreRead(d, placed[i], chunkSize) && SizeRead(d, placed[i], moved)
    {
      assert StoreRead(d, stores[i], chunkSize) && SizeRead(d, stores[i], entries);
      SizeKept(d, stores[i], placed[i], entries, moved);
    }
  }

  /** The security header of an accepted image, at its start. */
  predicate SecurityRead(d: seq<byte>, plan: Plan) {
    && |d| >= 32 && RdLe32(d, 0) == 32 && d[4..16] == SIGNED_IMAGE && RdLe32(d, 20) == 0x800C
    && plan.chunkSize == Wrap32(RdLe32(d, 16) as int * 1024) && 0 < plan.chunkSize
    && plan.catalogSize == RdLe32(d, 24) && 0 < plan.catalogSize
    && plan.hashSize == RdLe32(d, 28) && 0 < plan.hashSize && plan.hashSize % 32 == 0
  }

  /** The image header, on the first chunk boundary behind catalog and hashes. */
  predicate ImageRead(d: seq<byte>, plan: Plan) {
    var at := AlignUp(32 + plan.catalogSize + plan.hashSize, plan.chunkSize);
    && at + 24 <= |d| && RdLe32(d, at) == plan.imageHeaderSize && d[at + 4..at + 16] == IMAGE_FLASH
    && plan.manifestLength == RdLe32(d, at + 16) && 0 < plan.manifestLength && 0 < RdLe32(d, at + 20)
    && ((plan.imageHeaderSize == 24 && plan.validationCount == 0) ||
        (plan.imageHeaderSize == 28 && at + 28 <= |d| && plan.validationCount == RdLe32(d, at + 24)))
  }

  lemma ImageReads(src: Source, d: Contents, at: u64)
    requires at < 4 * TWO_32 && ReadImageHead(src, d, at).Ok?
    ensures var h := ReadImageHead(src, d, at).value;
            && at + 24 <= |d| && RdLe32(d, at) == h.headerSize && d[at + 4..at + 16] == IMAGE_FLASH
            && h.manifestLength == RdLe32(d, at + 16) && 0 < h.manifestLength && 0 < RdLe32(d, at + 20)
            && ((h.headerSize == 24 && h.validationCount == 0) ||
                (h.headerSize == 28 && at + 28 <= |d| && h.validationCount == RdLe32(d, at + 24)))
  {
    hide RdLe32, Wrap32;
    ImageFields(d, at);
  }

  lemma SecurityReads(src: Source, d: Contents)
    requires ReadSecurity(src, d).Ok?
    ensures var s := ReadSecurity(src, d).value;
            && |d| >= 32 && RdLe32(d, 0) == 32 && d[4..16] == SIGNED_IMAGE && RdLe32(d, 20) == 0x800C
            && s.chunkSize == Wrap32(RdLe32(d, 16) as int * 1024) && 0 < s.chunkSize
            && s.catalogSize == RdLe32(d, 24) && 0 < s.catalogSize
            && s.hashSize == RdLe32(d, 28) && 0 < s.hashSize && s.hashSize % 32 == 0
            && s.cursor == AlignUp(32 + s.catalogSize + s.hashSize, s.chunkSize)
  {
    hide RdLe32, AlignUp, Wrap32;
    SecurityFields(d);
  }

  /** The plan of every accepted image is what its bytes say, header by header; a store that declares
      no payload size has the byte count of its entries; and there are as many stores as the last
      version 2 header read so far asked for at each point, or one. */
  lemma PlanMatchesBytes(src: Source, d: Contents)
    requires Parse(src, d).Ok?
    ensures var plan := Parse(src, d).value;
            && SecurityRead(d, plan) && ImageRead(d, plan) && plan.fileSize == |d|
            && AllRead(d, plan.stores, plan.chunkSize) && AllSized(d, plan.stores, plan.entries)
            && StoresCounted(d, plan.stores)
  {
    HeadMatchesBytes(src, d);
    hide *;
    var body := PlanFacts.PlanFromBody(src, d);
    var head := ReadHead(src, d).value;
    NothingRead(d, head.sec.chunkSize);
    StoresRead(src, d, head.cursor, head.sec.chunkSize, 1, [], []);
    StoresMatchBytes(d, Parse(src, d).value, body, head.sec.chunkSize);
  }

  lemma StoresMatchBytes(d: seq<byte>, plan: Plan, body: Stores, chunkSize: nat)
    requires PlanFacts.PlanOf(plan, body) && AllRead(d, body.stores, chunkSize)
    requires AllSized(d, body.stores, body.entries) && StoresCounted(d, body.stores)
    ensures AllRead(d, plan.stores, chunkSize) && AllSized(d, plan.stores, plan.entries)
    ensures StoresCounted(d, plan.stores)
  {
    hide AllRead, AllSized, StoresCounted, PlanFacts.SameStores, PlanFacts.SameRecords, AlignUp, Wrap64, PrefixBytes;
    PlacingKeepsReads(d, body.stores, body.entries, plan.stores, plan.entries, chunkSize);
    CountKept(d, body.stores, plan.stores);
  }

  lemma CountKept(d: seq<byte>, stores: seq<Store>, placed: seq<Store>)
    requires PlanFacts.SameStores(stores, placed) && StoresCounted(d, stores)
    ensures StoresCounted(d, placed)
  {
    hide Wanted;
    forall k | 0 <= k <= |placed|
      ensures MoreWanted(d, placed, k) <==> MoreWanted(d, stores, k)
    {
      WantedSame(d, stores, placed, k);
    }
  }

  lemma HeadMatchesBytes(src: Source, d: Contents)
    requires Parse(src, d).Ok?
    ensures var plan := Parse(src, d).value;
            && SecurityRead(d, plan) && ImageRead(d, plan) && plan.fileSize == |d|
            && ReadHead(src, d).Ok? && plan.chunkSize == ReadHead(src, d).value.sec.chunkSize
  {
    hide *;
    PlanCopiesHead(src, d);
    SecurityMatches(src, d, Parse(src, d).value);
    ImageMatches(src, d, Parse(src, d).value);
  }

  lemma SecurityMatches(src: Source, d: Contents, plan: Plan)
    requires ReadSecurity(src, d).Ok?
    requires var s := ReadSecurity(src, d).value;
             plan.chunkSize == s.chunkSize && plan.catalogSize == s.catalogSize && plan.hashSize == s.hashSize
    ensures SecurityRead(d, plan)
  {
    hide ReadSecurity, RdLe32, AlignUp, Wrap32;
    SecurityReads(src, d);
  }

  lemma ImageMatches(src: Source, d: Contents, plan: Plan)
    requires ReadSecurity(src, d).Ok? && ReadSecurity(src, d).value.cursor < 4 * TWO_32
    requires ReadImageHead(src, d, ReadSecurity(src, d).value.cursor).Ok?
    requires var s := ReadSecurity(src, d).value;
             plan.chunkSize == s.chunkSize && plan.catalogSize == s.catalogSize && plan.hashSize == s.hashSize
    requires var h := ReadImageHead(src, d, ReadSecurity(src, d).value.cursor).value;
             && plan.imageHeaderSize == h.headerSize && plan.manifestLength == h.manifestLength
             && plan.validationCount == h.validationCount
    ensures ImageRead(d, plan)
  {
    hide ReadSecurity, ReadImageHead, RdLe32, AlignUp, Wrap32;
    SecurityReads(src, d);
    ImageReads(src, d, ReadSecurity(src, d).value.cursor);
  }

  /** The plan takes the fields of the security and image headers as they were read. */
  lemma PlanCopiesHead(src: Source, d: Contents)
    requires Parse(src, d).Ok?
    ensures ReadHead(src, d).Ok? && ReadSecurity(src, d).Ok?
    ensures var head := ReadHead(src, d).value;
            var plan := Parse(src, d).value;
            && head.sec == ReadSecurity(src, d).value && head.sec.cursor < 4 * TWO_32
            && ReadImageHead(src, d, head.sec.cursor) == Ok(head.img)
            && plan.fileSize == |d| && plan.chunkSize == head.sec.chunkSize && plan.catalogSize == head.sec.catalogSize
            && plan.hashSize == head.sec.hashSize && plan.imageHeaderSize == head.img.headerSize
            && plan.manifestLength == head.img.manifestLength && plan.validationCount == head.img.validationCount
  {
    hide ReadStores, PlacePayload, SkipValidation, ReadImageHead, RdLe16, RdLe32, RdLe64;
  }

  lemma NothingRead(d: seq<byte>, chunkSize: nat)
    ensures AllRead(d, [], chunkSize) && AllSized(d, [], []) && AllWanted(d, []) && Wanted(d, [], 0) == 1
  {
  }

  lemma UndeclaredIsCovered(d: seq<byte>, plan: Plan, i: nat)
    requires i < |plan.stores| && PlanFacts.Unwrapped(plan, i) && SizeRead(d, plan.stores[i], plan.entries)
    requires DeclaredSize(d, plan.stores[i]) == 0
    ensures PlanFacts.StoreBytes(plan, i) <= plan.stores[i].payloadSize
  {
    hide PrefixBytes, DeclaredSize, Wrap64;
    var s := plan.stores[i];
    PlanFacts.PrefixGrows(plan.entries, s.entryStart, s.entryStart + s.entryCount);
    PlanFacts.WrapNone(PlanFacts.StoreBytes(plan, i));
  }

  /** So a store that declares no payload size ends before every later store begins, without further
      assumptions about sizes, unless the 64-bit positions wrap. */
  lemma UndeclaredStoresApart(src: Source, d: Contents, i: nat, k: nat)
    requires Parse(src, d).Ok? && PlanFacts.NoWrap(Parse(src, d).value)
    requires i < k < |Parse(src, d).value.stores| && DeclaredSize(d, Parse(src, d).value.stores[i]) == 0
    ensures var plan := Parse(src, d).value;
            && PlanFacts.Unwrapped(plan, i)
            && plan.stores[i].payloadBase + PlanFacts.StoreBytes(plan, i) <= plan.stores[k].payloadBase
  {
    var plan := Parse(src, d).value;
    assert PlanFacts.Unwrapped(plan, i);
    PlanMatchesBytes(src, d);
    assert SizeRead(d, plan.stores[i], plan.entries);
    hide *;
    PlanFacts.PlanWellFormed(src, d);
    ParserAgreement.BodyWithinHeader(src, d);
    var first := PlanFacts.PayloadFollowsRule(src, d);
    UndeclaredIsCovered(d, plan, i);
    PlanFacts.StoresApart(d, plan, first, i, k);
  }
}
