/** The accepted images, described without reading them in order: which byte strings are images, and
    which plan each of them has. Both parsers accept exactly these, with exactly these plans. */
module ImageFormat {
  import opened Bytes
  import opened BlockIo
  import opened FfuLayout
  import opened PlanFacts
  import opened HeaderFacts
  import ParserAgreement

  // ----- the description -----

  /** The validation descriptor at `at` names seven sizes, and what they measure ends at `end`. */
  predicate Validates(d: seq<byte>, at: nat, end: nat) {
    at + 28 <= |d| &&
    end == at + 28 + RdLe32(d, at) + RdLe32(d, at + 4) + RdLe32(d, at + 8) + RdLe32(d, at + 12) + RdLe32(d, at + 16)
           + RdLe32(d, at + 20) + RdLe32(d, at + 24)
  }

  /** n validation descriptors in a row from `start`; ends[i] is where the first i of them end. */
  predicate Validated(d: seq<byte>, ends: seq<nat>, start: nat, n: nat) {
    |ends| == n + 1 && ends[0] == start && forall i :: 0 <= i < n ==> Validates(d, ends[i], ends[i + 1])
  }

  /** Where the manifest ends: behind the image header, by a sum of 32 bits. */
  function ManifestEnd(plan: Plan): nat {
    AlignUp(32 + plan.catalogSize + plan.hashSize, plan.chunkSize)
    + Wrap32(plan.imageHeaderSize as int + plan.manifestLength as int)
  }

  /** h is the first chunk boundary at or behind x. */
  predicate NextChunk(h: nat, x: int, chunkSize: nat) {
    Multiple(h, chunkSize) && x <= h < x + chunkSize
  }

  /** Where the header of store i is looked for: behind the validation data, or the store before. */
  function LookedFor(stores: seq<Store>, entries: seq<WriteEntry>, from: nat, i: nat): int
    requires i <= |stores|
  {
    if i == 0 || stores[i - 1].entryStart + stores[i - 1].entryCount > |entries| then from
    else RecordsEnd(stores[i - 1], entries)
  }

  predicate FollowsOn(stores: seq<Store>, entries: seq<WriteEntry>, chunkSize: nat, from: nat, i: nat)
    requires i < |stores|
  {
    NextChunk(stores[i].headerOffset, LookedFor(stores, entries, from, i), chunkSize)
  }

  /** Every store header is on the first chunk boundary behind what comes before it. */
  predicate InOrder(stores: seq<Store>, entries: seq<WriteEntry>, chunkSize: nat, from: nat) {
    forall i :: 0 <= i < |stores| ==> FollowsOn(stores, entries, chunkSize, from, i)
  }

  /** The stores own the entries, part by part, and each entry is a record of its store. */
  predicate Recorded(d: seq<byte>, stores: seq<Store>, entries: seq<WriteEntry>) {
    (forall i :: 0 <= i < |stores| ==> StoreOk(d, stores[i], i, entries)) && Contiguous(stores, |entries|)
  }

  /** The payload starts where the last record ends; the header size is that end, in whole blocks. */
  predicate LaidOut(d: seq<byte>, plan: Plan) {
    && 0 < |plan.stores|
    && var first := LookedFor(plan.stores, plan.entries, 0, |plan.stores|);
    && 0 < first <= plan.headerSize <= |d|
    && plan.payloadBase == plan.headerSize == AlignUp(first, plan.stores[0].blockSize)
    && PayloadRule(plan, first)
    && plan.totalPayloadBytes == Wrap64(PrefixBytes(plan.entries, |plan.entries|))
  }

  /** d is an image with this plan; `ends` says where its validation descriptors end. */
  predicate Describes(d: seq<byte>, plan: Plan, ends: seq<nat>) {
    && SecurityRead(d, plan) && ImageRead(d, plan) && plan.fileSize == |d|
    && Validated(d, ends, ManifestEnd(plan), plan.validationCount)
    && InOrder(plan.stores, plan.entries, plan.chunkSize, ends[|ends| - 1])
    && StoresCounted(d, plan.stores) && AllRead(d, plan.stores, plan.chunkSize)
    && AllSized(d, plan.stores, plan.entries) && Recorded(d, plan.stores, plan.entries)
    && LaidOut(d, plan)
  }

  ghost predicate IsImage(d: seq<byte>, plan: Plan) {
    exists ends :: Describes(d, plan, ends)
  }

  // ----- every described image is accepted -----

  lemma SecurityAccepted(d: Contents, plan: Plan)
    requires SecurityRead(d, plan)
    ensures ReadSecurity(FileView, d) ==
            Ok(Security(plan.chunkSize, plan.catalogSize, plan.hashSize,
              AlignUp(32 + plan.catalogSize + plan.hashSize, plan.chunkSize)))
  {
    hide RdLe32, AlignUp, Wrap32;
    SecurityFields(d);
  }

  lemma ImageAccepted(d: Contents, plan: Plan, at: u64)
    requires ImageRead(d, plan) && at == AlignUp(32 + plan.catalogSize + plan.hashSize, plan.chunkSize) < 4 * TWO_32
    ensures ManifestEnd(plan) < 5 * TWO_32
    ensures ReadImageHead(FileView, d, at) ==
            Ok(ImageHead(plan.imageHeaderSize, plan.manifestLength, plan.validationCount, ManifestEnd(plan)))
  {
    hide RdLe32, AlignUp, Wrap32;
    ImageFields(d, at);
  }

  lemma SevenSizes(d: seq<byte>, at: nat, end: nat)
    requires Validates(d, at, end)
    ensures at + 28 + SkipSum(d[at..at + 28], 7) == end
  {
    var vd := d[at..at + 28];
    SliceReads(d, at, 28, 0);
    SliceReads(d, at, 28, 4);
    SliceReads(d, at, 28, 8);
    SliceReads(d, at, 28, 12);
    SliceReads(d, at, 28, 16);
    SliceReads(d, at, 28, 20);
    SliceReads(d, at, 28, 24);
    hide RdLe32, RdLe16, RdLe64;
    SumOfSeven(vd);
  }

  lemma SumOfSeven(vd: seq<byte>)
    requires |vd| == 28
    ensures SkipSum(vd, 7) == RdLe32(vd, 0) + RdLe32(vd, 4) + RdLe32(vd, 8) + RdLe32(vd, 12) + RdLe32(vd, 16)
                              + RdLe32(vd, 20) + RdLe32(vd, 24)
  {
    hide RdLe32;
    assert SkipSum(vd, 0) == 0;
    assert SkipSum(vd, 1) == RdLe32(vd, 0);
    assert SkipSum(vd, 2) == SkipSum(vd, 1) + RdLe32(vd, 4);
    assert SkipSum(vd, 3) == SkipSum(vd, 2) + RdLe32(vd, 8);
    assert SkipSum(vd, 4) == SkipSum(vd, 3) + RdLe32(vd, 12);
    assert SkipSum(vd, 5) == SkipSum(vd, 4) + RdLe32(vd, 16);
    assert SkipSum(vd, 6) == SkipSum(vd, 5) + RdLe32(vd, 20);
  }

  lemma {:induction false} ValidationAccepted(d: Contents, ends: seq<nat>, start: u64, n: nat)
    requires Validated(d, ends, start, n) && start < 2 * MAX_FILE
    ensures ends[n] < 2 * MAX_FILE && SkipValidation(FileView, d, start, n) == Ok(ends[n])
    decreases n
  {
    hide SkipSum, RdLe32, Validates;
    if n > 0 {
      assert Validates(d, ends[0], ends[1]);
      SevenSizes(d, ends[0], ends[1]);
      assert start + 28 <= |d| by {
        ValidatesInside(d, ends[0], ends[1]);
      }
      SkipBound(d[start..start + 28]);
      forall i | 0 <= i < n - 1
        ensures Validates(d, ends[1..][i], ends[1..][i + 1])
      {
        assert Validates(d, ends[i + 1], ends[i + 2]);
      }
      ValidationAccepted(d, ends[1..], ends[1], n - 1);
    }
  }

  lemma ValidatesInside(d: seq<byte>, at: nat, end: nat)
    requires Validates(d, at, end)
    ensures at + 28 <= |d|
  {
  }

  lemma SkipBound(vd: seq<byte>)
    requires |vd| == 28
    ensures SkipSum(vd, 7) < 7 * TWO_32 + 1
  {
  }

  // ----- the stores and their records -----

  lemma RecordHead(d: Contents, e: WriteEntry, blockSize: u32, i: nat)
    requires EntryOk(d, e, blockSize, i)
    ensures ReadExact(FileView, d, e.descriptorOffset, 8) == Ok(d[e.descriptorOffset..e.descriptorOffset + 8])
    ensures var wh := d[e.descriptorOffset..e.descriptorOffset + 8];
            && RdLe32(wh, 0) == e.locationCount && RdLe32(wh, 4) == e.blockCount
            && 0 < e.blockCount && e.byteCount == EntryBytes(blockSize, e.blockCount)
  {
    SliceReads(d, e.descriptorOffset, 8, 0);
    SliceReads(d, e.descriptorOffset, 8, 4);
    NoBlocks(blockSize);
    hide RdLe32, RdLe16, RdLe64;
  }

  lemma NoBlocks(blockSize: nat)
    ensures EntryBytes(blockSize, 0) == 0
  {
  }

  lemma NoRecords(d: Contents, cursor: u64, rel: u64, entries: seq<WriteEntry>, blockSize: u32, i: nat)
    requires cursor < 2 * MAX_FILE
    ensures ReadDescriptors(FileView, d, cursor, rel, entries, 0, blockSize, i) == Ok(Descriptors(entries, cursor, rel))
  {
  }

  /** Reading the one record at the cursor. */
  lemma RecordAccepted(d: Contents, entries: seq<WriteEntry>, j: nat, n: nat, blockSize: u32, i: nat)
    requires j < |entries| && EntryOk(d, entries[j], blockSize, i) && 0 < n
    requires DescriptorEnd(entries[j]) < 2 * MAX_FILE
    ensures var e := entries[j];
            ReadDescriptors(FileView, d, e.descriptorOffset, e.payloadOffset, entries[..j], n, blockSize, i) ==
            ReadDescriptors(
              FileView, d, DescriptorEnd(e), Wrap64(e.payloadOffset as int + e.byteCount as int), entries[..j + 1],
              n - 1, blockSize, i)
  {
    hide EntryBytes, Wrap64, RdLe32;
    var e := entries[j];
    RecordHead(d, e, blockSize, i);
    assert 0 < e.locationCount && e.storeIndex == i;
    hide EntryOk;
    assert entries[..j] + [e] == entries[..j + 1];
  }

  /** Reading the rest of a store's records, from record j on. */
  lemma {:induction false} DescriptorsAccepted(
    d: Contents, entries: seq<WriteEntry>, start: nat, j: nat, end: nat, blockSize: u32, i: nat, base: nat,
    cursor: u64)
    requires start <= j <= end <= |entries| && 0 < blockSize
    requires Chained(d, entries, start, end, blockSize, i, base) && RelativeFrom(entries, start, end)
    requires cursor == base + RecordBytes(entries, j) - RecordBytes(entries, start) && cursor < 2 * MAX_FILE
    ensures var r := ReadDescriptors(
              FileView, d, cursor, Relative(entries, start, j), entries[..j], end - j, blockSize, i);
            && r.Ok? && r.value.entries == entries[..end]
            && r.value.cursor == base + RecordBytes(entries, end) - RecordBytes(entries, start)
            && r.value.relPayload == Relative(entries, start, end)
    decreases end - j
  {
    hide ReadDescriptors, EntryBytes, PrefixBytes, Relative, RecordBytes, Wrap64, RdLe32, EntryOk, ReadExact;
    if j == end {
      NoRecords(d, cursor, Relative(entries, start, j), entries[..j], blockSize, i);
    } else {
      assert RecordAt(d, entries, j, start, blockSize, i, base) && RelativeAt(entries, start, j);
      var e := entries[j];
      RecordInFile(d, e, blockSize, i);
      RelativeNext(entries, start, j);
      RecordAccepted(d, entries, j, end - j, blockSize, i);
      RecordNext(entries, j);
      hide Chained, RelativeFrom;
      DescriptorsAccepted(d, entries, start, j + 1, end, blockSize, i, base, DescriptorEnd(e));
    }
  }

  lemma RecordNext(entries: seq<WriteEntry>, j: nat)
    requires j < |entries|
    ensures RecordBytes(entries, j + 1) == RecordBytes(entries, j) + 8 + 8 * (entries[j].locationCount as int)
  {
  }

  lemma RecordInFile(d: Contents, e: WriteEntry, blockSize: u32, i: nat)
    requires EntryOk(d, e, blockSize, i)
    ensures DescriptorEnd(e) < 2 * MAX_FILE
  {
  }

  lemma RelativeNext(entries: seq<WriteEntry>, start: nat, j: nat)
    requires j < |entries| && start <= |entries|
    ensures Relative(entries, start, j + 1) == Wrap64(Relative(entries, start, j) as int + entries[j].byteCount as int)
  {
    WrapAdd(PrefixBytes(entries, j) - PrefixBytes(entries, start), entries[j].byteCount);
    hide Wrap64;
  }

  /** A store header that is what its store says is read as such. */
  lemma StoreHeadAccepted(d: Contents, s: Store, chunkSize: nat, desired: u16)
    requires StoreRead(d, s, chunkSize)
    ensures ReadStoreHead(FileView, d, s.headerOffset, desired) ==
            Ok(StoreHead(
              s.descriptorBase, if RdLe16(d, s.headerOffset + 4) == 2 then RdLe16(d, s.headerOffset + 248) else desired,
              s.blockSize, s.descriptorCount, DeclaredSize(d, s)))
  {
    hide RdLe16, RdLe32, RdLe64, Multiple;
    var at := s.headerOffset;
    SliceReads(d, at, 248, 0);
    SliceReads(d, at, 248, 4);
    SliceReads(d, at, 248, 8);
    SliceReads(d, at, 248, 10);
    SliceReads(d, at, 248, 204);
    SliceReads(d, at, 248, 208);
    if at + 262 <= |d| {
      SliceReads(d, at + 248, 14, 0);
      SliceReads(d, at + 248, 14, 4);
      SliceReads(d, at + 248, 14, 12);
    }
  }

  /** The lists as the first pass leaves them, if the bytes say so. */
  predicate Listed(d: seq<byte>, stores: seq<Store>, entries: seq<WriteEntry>, chunkSize: nat, from: nat) {
    && InOrder(stores, entries, chunkSize, from) && StoresCounted(d, stores) && AllRead(d, stores, chunkSize)
    && AllSized(d, stores, entries) && Recorded(d, stores, entries) && AllRelative(stores, entries)
    && forall i :: 0 <= i < |stores| ==> stores[i].payloadBase == 0
  }

  /** Everything the lists say about store k. */
  lemma StoreListed(d: seq<byte>, stores: seq<Store>, entries: seq<WriteEntry>, chunkSize: nat, from: nat, k: nat)
    requires Listed(d, stores, entries, chunkSize, from) && k < |stores|
    ensures var s := stores[k];
            && StoreRead(d, s, chunkSize) && SizeRead(d, s, entries) && StoreOk(d, s, k, entries)
            && StoreRelative(s, entries) && s.payloadBase == 0 && s.entryStart == EntriesBefore(stores, k)
            && s.entryStart + s.entryCount == EntriesBefore(stores, k + 1) <= |entries|
            && FollowsOn(stores, entries, chunkSize, from, k) && k < Wanted(d, stores, k)
  {
    hide StoreRead, SizeRead, RelativeFrom, Chained, NextChunk, Wanted;
    assert StartsAt(stores, k) && MoreWanted(d, stores, k) && FollowsOn(stores, entries, chunkSize, from, k);
    assert StoreOk(d, stores[k], k, entries);
  }

  lemma BoundaryIsAligned(h: u64, x: u64, chunkSize: u32)
    requires NextChunk(h, x, chunkSize) && x + chunkSize <= TWO_64
    ensures AlignUp(x, chunkSize) == h
  {
    hide AlignUp;
    var a := AlignUp(x, chunkSize);
    assert Multiple(a, chunkSize) && x <= a < x + chunkSize;
    assert a == a / chunkSize * chunkSize && h == h / chunkSize * chunkSize;
    MulNear(a / chunkSize - h / chunkSize, chunkSize, a - h);
  }

  /** One turn of the store loop. */
  lemma StoreAccepted(
    d: Contents, stores: seq<Store>, entries: seq<WriteEntry>, chunkSize: u32, from: nat, k: nat, cursor: u64)
    requires Listed(d, stores, entries, chunkSize, from) && k < |stores| && 0 < chunkSize
    requires cursor == LookedFor(stores, entries, from, k) && cursor < 2 * MAX_FILE
    requires EntriesBefore(stores, k) <= |entries| && EntriesBefore(stores, k + 1) <= |entries|
    requires StoresFit(stores[..k], entries[..EntriesBefore(stores, k)])
    ensures var r := ReadStore(
              FileView, d, cursor, chunkSize, Wanted(d, stores, k), stores[..k], entries[..EntriesBefore(stores, k)]);
            && r.Ok? && r.value.0.stores == stores[..k + 1]
            && r.value.0.entries == entries[..EntriesBefore(stores, k + 1)]
            && r.value.0.cursor == LookedFor(stores, entries, from, k + 1) && r.value.1 == Wanted(d, stores, k + 1)
  {
    hide Listed, ReadStoreHead, ReadDescriptors, AlignUp, Multiple, RdLe16, DeclaredSize, Wrap64, PrefixBytes, Chained,
      RelativeFrom, RecordBytes;
    var s := stores[k];
    StoreListed(d, stores, entries, chunkSize, from, k);
    BoundaryIsAligned(s.headerOffset, cursor, chunkSize);
    StoreHeadAccepted(d, s, chunkSize, Wanted(d, stores, k));
    StoreHeaderInside(d, s, chunkSize);
    NothingRelative(entries, s.entryStart);
    DescriptorsAccepted(
      d, entries, s.entryStart, s.entryStart, s.entryStart + s.entryCount, s.blockSize, k, s.descriptorBase,
      s.descriptorBase);
    assert stores[..k] + [s] == stores[..k + 1];
  }

  lemma NothingRelative(entries: seq<WriteEntry>, start: nat)
    requires start <= |entries|
    ensures Relative(entries, start, start) == 0
  {
  }

  lemma StoreHeaderInside(d: Contents, s: Store, chunkSize: nat)
    requires StoreRead(d, s, chunkSize)
    ensures s.headerOffset + 248 <= |d| && s.descriptorBase < 2 * MAX_FILE && s.descriptorCount == s.entryCount
    ensures RdLe16(d, s.headerOffset + 4) == 2 ==> s.headerOffset + 250 <= |d|
  {
    hide RdLe16, RdLe32, RdLe64, Multiple;
  }

  lemma PrefixFits(
    d: seq<byte>, stores: seq<Store>, entries: seq<WriteEntry>, chunkSize: nat, from: nat, k: nat)
    requires Listed(d, stores, entries, chunkSize, from) && k <= |stores|
    ensures EntriesBefore(stores, k) <= |entries| && (k == |stores| ==> EntriesBefore(stores, k) == |entries|)
    ensures StoresFit(stores[..k], entries[..EntriesBefore(stores, k)])
  {
    hide Listed, StoreOk, StoreRead, SizeRead, Wanted, NextChunk;
    assert Contiguous(stores, |entries|) by {
      ListedContiguous(d, stores, entries, chunkSize, from);
    }
    StartsGrow(stores, k, |stores|);
    forall i | 0 <= i < k
      ensures stores[i].entryStart + stores[i].entryCount <= EntriesBefore(stores, k)
    {
      StoreListed(d, stores, entries, chunkSize, from, i);
      StartsGrow(stores, i + 1, k);
    }
  }

  lemma ListedContiguous(d: seq<byte>, stores: seq<Store>, entries: seq<WriteEntry>, chunkSize: nat, from: nat)
    requires Listed(d, stores, entries, chunkSize, from)
    ensures Contiguous(stores, |entries|) && !MoreWanted(d, stores, |stores|)
  {
  }

  /** The store loop from store k on. */
  lemma {:induction false} StoresAccepted(
    d: Contents, stores: seq<Store>, entries: seq<WriteEntry>, chunkSize: u32, from: nat, k: nat, cursor: u64)
    requires Listed(d, stores, entries, chunkSize, from) && k <= |stores| && 0 < chunkSize
    requires cursor == LookedFor(stores, entries, from, k) && cursor < 2 * MAX_FILE
    requires EntriesBefore(stores, k) <= |entries|
    requires StoresFit(stores[..k], entries[..EntriesBefore(stores, k)])
    ensures var r := ReadStores(
              FileView, d, cursor, chunkSize, Wanted(d, stores, k), stores[..k], entries[..EntriesBefore(stores, k)]);
            && r.Ok? && r.value.stores == stores && r.value.entries == entries
            && r.value.cursor == LookedFor(stores, entries, from, |stores|)
    decreases |stores| - k
  {
    hide Listed, ReadStore, LookedFor, Wanted, StoresFit, EntriesBefore;
    PrefixFits(d, stores, entries, chunkSize, from, k);
    if k == |stores| {
      ListedContiguous(d, stores, entries, chunkSize, from);
    } else {
      PrefixFits(d, stores, entries, chunkSize, from, k + 1);
      StoreListed(d, stores, entries, chunkSize, from, k);
      StoreAccepted(d, stores, entries, chunkSize, from, k, cursor);
      hide StoreRead, SizeRead, StoreOk, StoreRelative, FollowsOn;
      var next := ReadStore(
        FileView, d, cursor, chunkSize, Wanted(d, stores, k), stores[..k], entries[..EntriesBefore(stores, k)]).value;
      StoresAccepted(d, stores, entries, chunkSize, from, k + 1, next.0.cursor);
    }
  }

  // ----- the second pass undone -----

  /** Entry j of a plan as the first pass had it, with its offset inside its store's payload. */
  function Unplaced(plan: Plan, j: nat): WriteEntry
    requires j < |plan.entries|
  {
    var i := plan.entries[j].storeIndex;
    if i < |plan.stores| && plan.stores[i].entryStart <= |plan.entries| then
      plan.entries[j].(payloadOffset := Relative(plan.entries, plan.stores[i].entryStart, j))
    else plan.entries[j]
  }

  /** The lists of a plan as the first pass left them. */
  function FirstPass(plan: Plan, cursor: u64): (r: Stores)
    ensures SameStores(plan.stores, r.stores) && SameRecords(plan.entries, r.entries)
  {
    Stores(
      seq(|plan.stores|, i requires 0 <= i < |plan.stores| => plan.stores[i].(payloadBase := 0)),
      seq(|plan.entries|, j requires 0 <= j < |plan.entries| => Unplaced(plan, j)), cursor)
  }

  lemma RecordsEndSame(s: Store, t: Store, a: seq<WriteEntry>, b: seq<WriteEntry>)
    requires SameRecords(a, b) && t == s.(payloadBase := t.payloadBase) && s.entryStart + s.entryCount <= |a|
    ensures RecordsEnd(t, b) == RecordsEnd(s, a)
  {
    RecordsSame(a, b, s.entryStart);
    RecordsSame(a, b, s.entryStart + s.entryCount);
  }

  lemma LookedForSame(
    stores: seq<Store>, others: seq<Store>, a: seq<WriteEntry>, b: seq<WriteEntry>, from: nat, i: nat)
    requires SameStores(stores, others) && SameRecords(a, b) && i <= |stores|
    ensures LookedFor(others, b, from, i) == LookedFor(stores, a, from, i)
  {
    hide RecordBytes;
    if i > 0 && stores[i - 1].entryStart + stores[i - 1].entryCount <= |a| {
      RecordsEndSame(stores[i - 1], others[i - 1], a, b);
    }
  }

  lemma OrderKept(
    stores: seq<Store>, others: seq<Store>, a: seq<WriteEntry>, b: seq<WriteEntry>, chunkSize: nat, from: nat)
    requires SameStores(stores, others) && SameRecords(a, b) && InOrder(stores, a, chunkSize, from)
    ensures InOrder(others, b, chunkSize, from)
  {
    hide LookedFor, NextChunk, SameRecords;
    forall i | 0 <= i < |others|
      ensures FollowsOn(others, b, chunkSize, from, i)
    {
      LookedForSame(stores, others, a, b, from, i);
      assert FollowsOn(stores, a, chunkSize, from, i);
    }
  }

  lemma RecordedKept(
    d: seq<byte>, stores: seq<Store>, others: seq<Store>, a: seq<WriteEntry>, b: seq<WriteEntry>)
    requires SameStores(stores, others) && SameRecords(a, b) && Recorded(d, stores, a)
    ensures Recorded(d, others, b)
  {
    hide StoreOk;
    forall i | 0 <= i < |others|
      ensures StoreOk(d, others[i], i, b) && StartsAt(others, i)
    {
      assert StoreOk(d, stores[i], i, a) && StartsAt(stores, i);
      StoreOkMoves(d, stores[i], others[i], i, a, b);
      OwnersSame(stores, others, i);
    }
    OwnersSame(stores, others, |stores|);
  }

  lemma RelativeSame(a: seq<WriteEntry>, b: seq<WriteEntry>, start: nat, j: nat)
    requires SameRecords(a, b) && start <= |a| && j <= |a|
    ensures Relative(a, start, j) == Relative(b, start, j)
  {
    hide Wrap64;
    PrefixSame(a, b, j);
    PrefixSame(a, b, start);
  }

  lemma NamesItsStore(d: seq<byte>, plan: Plan, i: nat, j: nat)
    requires Recorded(d, plan.stores, plan.entries) && i < |plan.stores|
    requires plan.stores[i].entryStart <= j < plan.stores[i].entryStart + plan.stores[i].entryCount
    ensures plan.stores[i].entryStart + plan.stores[i].entryCount <= |plan.entries|
    ensures plan.entries[j].storeIndex == i
  {
    hide RecordBytes, Contiguous;
    var s := plan.stores[i];
    assert StoreOk(d, s, i, plan.entries);
    assert RecordAt(d, plan.entries, j, s.entryStart, s.blockSize, i, s.descriptorBase);
  }

  lemma UnplacedIsRelative(d: seq<byte>, plan: Plan, i: nat, j: nat)
    requires Recorded(d, plan.stores, plan.entries) && i < |plan.stores|
    requires plan.stores[i].entryStart <= j < plan.stores[i].entryStart + plan.stores[i].entryCount
    ensures plan.stores[i].entryStart + plan.stores[i].entryCount <= |plan.entries|
    ensures RelativeAt(FirstPass(plan, 0).entries, plan.stores[i].entryStart, j)
  {
    hide Recorded, Relative, SameRecords;
    NamesItsStore(d, plan, i, j);
    RelativeSame(plan.entries, FirstPass(plan, 0).entries, plan.stores[i].entryStart, j);
  }

  lemma AllUnplaced(d: seq<byte>, plan: Plan, cursor: u64)
    requires Recorded(d, plan.stores, plan.entries)
    ensures AllRelative(FirstPass(plan, cursor).stores, FirstPass(plan, cursor).entries)
  {
    hide Recorded, Relative, Unplaced;
    var body := FirstPass(plan, cursor);
    assert body.entries == FirstPass(plan, 0).entries;
    forall i | 0 <= i < |body.stores|
      ensures StoreRelative(body.stores[i], body.entries)
    {
      var s := body.stores[i];
      OwnRecords(d, plan, i);
      forall j | s.entryStart <= j < s.entryStart + s.entryCount
        ensures RelativeAt(body.entries, s.entryStart, j)
      {
        UnplacedIsRelative(d, plan, i, j);
      }
    }
  }

  lemma OwnRecords(d: seq<byte>, plan: Plan, i: nat)
    requires Recorded(d, plan.stores, plan.entries) && i < |plan.stores|
    ensures plan.stores[i].entryStart + plan.stores[i].entryCount <= |plan.entries|
    ensures 0 < plan.stores[i].blockSize
  {
    assert StoreOk(d, plan.stores[i], i, plan.entries);
  }

  lemma SomeEnd(d: seq<byte>, plan: Plan, ends: seq<nat>)
    requires Describes(d, plan, ends)
    ensures |ends| == plan.validationCount + 1
  {
    hide SecurityRead, ImageRead, InOrder, StoresCounted, AllRead, AllSized, Recorded, LaidOut;
  }

  /** The first pass of a described image would leave exactly the plan's lists, not yet placed. */
  lemma FirstPassListed(d: seq<byte>, plan: Plan, ends: seq<nat>, cursor: u64)
    requires Describes(d, plan, ends)
    ensures var body := FirstPass(plan, cursor);
            Listed(d, body.stores, body.entries, plan.chunkSize, ends[|ends| - 1])
  {
    hide SecurityRead, ImageRead, Validated, InOrder, StoresCounted, AllRead, AllSized, Recorded, LaidOut, SameStores,
      SameRecords;
    SomeEnd(d, plan, ends);
    var body := FirstPass(plan, cursor);
    PlacingKeepsReads(d, plan.stores, plan.entries, body.stores, body.entries, plan.chunkSize);
    CountKept(d, plan.stores, body.stores);
    OrderKept(plan.stores, body.stores, plan.entries, body.entries, plan.chunkSize, ends[|ends| - 1]);
    RecordedKept(d, plan.stores, body.stores, plan.entries, body.entries);
    AllUnplaced(d, plan, cursor);
  }

  lemma RulesAt(plan: Plan, first: u64, i: nat)
    requires PayloadRule(plan, first) && i < |plan.stores|
    ensures BaseRule(plan, first, i)
  {
  }

  /** The base rule, followed from store to store, gives every base. */
  lemma {:induction false} BasesAre(plan: Plan, stores: seq<Store>, first: u64, i: nat)
    requires PayloadRule(plan, first) && SameStores(plan.stores, stores) && i < |stores|
    ensures plan.stores[i].payloadBase == BaseOf(stores, 0, i, first)
    decreases i
  {
    hide AlignUp, Wrap64, PayloadRule;
    RulesAt(plan, first, i);
    if i > 0 {
      BasesAre(plan, stores, first, i - 1);
      PayloadCursorNext(stores, 0, i - 1, first);
    }
  }

  lemma MovesBack(plan: Plan, first: u64, j: nat)
    requires PayloadRule(plan, first) && j < |plan.entries|
    ensures OwnedBy(plan.stores, plan.entries, j)
    ensures plan.entries[j] == Move(Unplaced(plan, j), plan.stores[plan.entries[j].storeIndex].payloadBase)
  {
    hide PrefixBytes, Wrap64;
    assert OffsetRule(plan, j);
    hide PayloadRule;
    var s := plan.stores[plan.entries[j].storeIndex];
    WrapAdd(PrefixBytes(plan.entries, j) - PrefixBytes(plan.entries, s.entryStart), s.payloadBase);
  }

  lemma OwnedKept(
    d: seq<byte>, stores: seq<Store>, others: seq<Store>, a: seq<WriteEntry>, b: seq<WriteEntry>)
    requires SameStores(stores, others) && SameRecords(a, b) && Recorded(d, others, b)
    requires forall j :: 0 <= j < |a| ==> OwnedBy(stores, a, j)
    ensures Owned(others, b)
  {
    hide Chained, StartsAt;
    forall i | 0 <= i < |others|
      ensures others[i].entryStart + others[i].entryCount <= |b|
    {
      assert StoreOk(d, others[i], i, b);
    }
    forall j | 0 <= j < |b|
      ensures b[j].storeIndex < |others|
      ensures others[b[j].storeIndex].entryStart <= j
              < others[b[j].storeIndex].entryStart + others[b[j].storeIndex].entryCount
    {
      assert OwnedBy(stores, a, j);
    }
  }

  /** Described stores own their entries, placed or not. */
  lemma DescribedOwned(d: seq<byte>, plan: Plan, first: u64)
    requires PayloadRule(plan, first) && Recorded(d, plan.stores, plan.entries)
    ensures Owned(FirstPass(plan, first).stores, FirstPass(plan, first).entries)
  {
    hide Owned, Recorded, PayloadRule, OwnedBy, SameStores, SameRecords, FirstPass;
    var body := FirstPass(plan, first);
    RecordedKept(d, plan.stores, body.stores, plan.entries, body.entries);
    forall j | 0 <= j < |plan.entries|
      ensures OwnedBy(plan.stores, plan.entries, j)
    {
      MovesBack(plan, first, j);
    }
    OwnedKept(d, plan.stores, body.stores, plan.entries, body.entries);
  }

  /** Placing the lists of the first pass gives the plan's own. */
  lemma PlacedBack(d: seq<byte>, plan: Plan, first: u64)
    requires PayloadRule(plan, first) && Recorded(d, plan.stores, plan.entries)
    requires StoresFit(FirstPass(plan, first).stores, FirstPass(plan, first).entries)
    ensures var body := FirstPass(plan, first);
            var r := PlacePayload(Placed(body.stores, body.entries, 0, 0), 0, first);
            && r.stores == plan.stores && r.entries == plan.entries
            && r.total == Wrap64(PrefixBytes(plan.entries, |plan.entries|))
  {
    hide PlacePayload, PrefixBytes, Wrap64, BaseOf, Move, Unplaced, Recorded, PayloadRule, Owned, PlacedUpTo, StoresFit;
    var body := FirstPass(plan, first);
    DescribedOwned(d, plan, first);
    NothingPlaced(body.stores, body.entries);
    PlacedExactly(Placed(body.stores, body.entries, 0, 0), 0, first, body.stores, body.entries);
    PrefixSame(body.entries, plan.entries, |plan.entries|);
    var r := PlacePayload(Placed(body.stores, body.entries, 0, 0), 0, first);
    forall i | 0 <= i < |plan.stores|
      ensures r.stores[i] == plan.stores[i]
    {
      BasesAre(plan, body.stores, first, i);
      assert StorePlaced(r, body.stores, 0, i, first);
    }
    forall j | 0 <= j < |plan.entries|
      ensures r.entries[j] == plan.entries[j]
    {
      MovesBack(plan, first, j);
      var i := plan.entries[j].storeIndex;
      BasesAre(plan, body.stores, first, i);
      assert EntryPlaced(r, body.stores, body.entries, 0, j, first);
    }
  }

  lemma HeadAccepted(d: Contents, plan: Plan, ends: seq<nat>)
    requires Describes(d, plan, ends)
    ensures |ends| == plan.validationCount + 1
    ensures var h := ReadHead(FileView, d);
            && h.Ok? && h.value.cursor == ends[plan.validationCount]
            && h.value.sec.chunkSize == plan.chunkSize && h.value.sec.catalogSize == plan.catalogSize
            && h.value.sec.hashSize == plan.hashSize && h.value.img.headerSize == plan.imageHeaderSize
            && h.value.img.manifestLength == plan.manifestLength
            && h.value.img.validationCount == plan.validationCount
  {
    hide ReadSecurity, ReadImageHead, SkipValidation, SecurityRead, ImageRead, AlignUp, InOrder, StoresCounted, AllRead,
      AllSized, Recorded, LaidOut, Validates;
    SecurityAccepted(d, plan);
    ImageAccepted(d, plan, ReadSecurity(FileView, d).value.cursor);
    ValidationAccepted(d, ends, ManifestEnd(plan), plan.validationCount);
  }

  lemma NothingInFront(d: seq<byte>, plan: Plan, from: nat)
    ensures Wanted(d, plan.stores, 0) == 1 && EntriesBefore(plan.stores, 0) == 0
    ensures LookedFor(plan.stores, plan.entries, from, 0) == from
    ensures plan.stores[..0] == [] && plan.entries[..0] == [] && StoresFit([], [])
  {
  }

  lemma LaidIs(d: Contents, plan: Plan)
    requires LaidOut(d, plan) && Recorded(d, plan.stores, plan.entries)
    ensures 0 < |plan.stores| && 0 < plan.stores[0].blockSize
    ensures var first := LookedFor(plan.stores, plan.entries, 0, |plan.stores|);
            && 0 < first <= plan.headerSize <= |d| && PayloadRule(plan, first)
            && plan.payloadBase == plan.headerSize == AlignUp(first, plan.stores[0].blockSize)
            && (forall from :: LookedFor(plan.stores, plan.entries, from, |plan.stores|) == first)
  {
    hide RecordsEnd, PayloadRule, AlignUp, Recorded;
    OwnRecords(d, plan, 0);
    OwnRecords(d, plan, |plan.stores| - 1);
  }

  /** The first pass over a described image. */
  lemma FirstPassAccepted(d: Contents, plan: Plan, ends: seq<nat>, first: u64)
    requires Describes(d, plan, ends) && first == LookedFor(plan.stores, plan.entries, 0, |plan.stores|)
    ensures ReadHead(FileView, d).Ok?
    ensures var head := ReadHead(FileView, d).value;
            ReadStores(FileView, d, head.cursor, head.sec.chunkSize, 1, [], []) == Ok(FirstPass(plan, first))
  {
    hide ReadHead, ReadStores, SecurityRead, ImageRead, AlignUp, InOrder, StoresCounted, AllRead, AllSized, Recorded,
      Validates, LookedFor, Wanted, Listed, LaidOut, Validated;
    HeadAccepted(d, plan, ends);
    DescribedParts(d, plan, ends);
    var body := FirstPass(plan, first);
    FirstPassListed(d, plan, ends, first);
    var from := ends[plan.validationCount];
    LookedForSame(plan.stores, body.stores, plan.entries, body.entries, from, 0);
    LookedForSame(plan.stores, body.stores, plan.entries, body.entries, from, |plan.stores|);
    NothingInFront(d, plan.(stores := body.stores, entries := body.entries), from);
    LaidIs(d, plan);
    StoresAccepted(d, body.stores, body.entries, plan.chunkSize, from, 0, from);
  }

  lemma DescribedParts(d: Contents, plan: Plan, ends: seq<nat>)
    requires Describes(d, plan, ends)
    ensures LaidOut(d, plan) && Recorded(d, plan.stores, plan.entries) && 0 < plan.chunkSize
    ensures plan.fileSize == |d| && plan.totalPayloadBytes == Wrap64(PrefixBytes(plan.entries, |plan.entries|))
  {
    hide ImageRead, AlignUp, InOrder, StoresCounted, AllRead, AllSized, Recorded, Validated, LookedFor, PayloadRule;
  }

  /** A described image is accepted, with the plan that describes it. */
  lemma DescribedIsAccepted(d: Contents, plan: Plan, ends: seq<nat>)
    requires Describes(d, plan, ends)
    ensures Parse(FileView, d) == Ok(plan)
  {
    hide ReadHead, ReadStores, PlacePayload, Describes, AlignUp, Recorded, LookedFor, LaidOut, PrefixBytes, Wrap64,
      StoresFit, PayloadRule, FirstPass;
    DescribedParts(d, plan, ends);
    LaidIs(d, plan);
    var first := LookedFor(plan.stores, plan.entries, 0, |plan.stores|);
    HeadAccepted(d, plan, ends);
    FirstPassAccepted(d, plan, ends, first);
    DescribedFits(d, plan, first);
    PlacedBack(d, plan, first);
    FirstPassSame(plan, first);
    var body := FirstPass(plan, first);
    ParserAgreement.HeaderSizeIsAligned(body.stores, body.entries, first);
  }

  lemma FirstPassSame(plan: Plan, first: u64)
    requires 0 < |plan.stores|
    ensures var body := FirstPass(plan, first);
            body.cursor == first && |body.stores| > 0 && body.stores[0].blockSize == plan.stores[0].blockSize
  {
    hide Unplaced;
  }

  lemma DescribedFits(d: seq<byte>, plan: Plan, first: u64)
    requires Recorded(d, plan.stores, plan.entries)
    ensures StoresFit(FirstPass(plan, first).stores, FirstPass(plan, first).entries)
  {
    hide Recorded, Unplaced;
    var body := FirstPass(plan, first);
    forall i | 0 <= i < |body.stores|
      ensures body.stores[i].entryStart + body.stores[i].entryCount <= |body.entries|
    {
      OwnRecords(d, plan, i);
    }
  }

  // ----- every accepted image is described -----

  lemma ReadsSeven(d: seq<byte>, at: nat)
    requires at + 28 <= |d|
    ensures Validates(d, at, at + 28 + SkipSum(d[at..at + 28], 7))
  {
    var end := at + 28 + RdLe32(d, at) + RdLe32(d, at + 4) + RdLe32(d, at + 8) + RdLe32(d, at + 12)
               + RdLe32(d, at + 16) + RdLe32(d, at + 20) + RdLe32(d, at + 24);
    SevenSizes(d, at, end);
  }

  lemma {:induction false} ValidationRead(src: Source, d: Contents, cursor: u64, n: nat) returns (ends: seq<nat>)
    requires cursor < 2 * MAX_FILE && SkipValidation(src, d, cursor, n).Ok?
    ensures Validated(d, ends, cursor, n) && |ends| == n + 1 && ends[n] == SkipValidation(src, d, cursor, n).value
    decreases n
  {
    hide SkipSum, RdLe32, Validates;
    if n == 0 {
      ends := [cursor];
    } else {
      var next := cursor + 28 + SkipSum(d[cursor..cursor + 28], 7);
      ReadsSeven(d, cursor);
      var rest := ValidationRead(src, d, next, n - 1);
      ends := [cursor] + rest;
      forall i | 0 <= i < n
        ensures Validates(d, ends[i], ends[i + 1])
      {
        if i > 0 {
          assert Validates(d, rest[i - 1], rest[i]);
        }
      }
    }
  }

  lemma LookedForGrows(stores: seq<Store>, entries: seq<WriteEntry>, s: Store, more: seq<WriteEntry>, from: nat, i: nat)
    requires entries <= more && StoresFit(stores, entries) && i <= |stores|
    ensures LookedFor(stores + [s], more, from, i) == LookedFor(stores, entries, from, i)
  {
    assert forall j :: 0 <= j < |entries| ==> entries[j] == more[j];
    if i > 0 {
      var t := stores[i - 1];
      RecordsSame(entries, more, t.entryStart);
      RecordsSame(entries, more, t.entryStart + t.entryCount);
    }
  }

  lemma AlignedIsBoundary(x: u64, chunkSize: u32)
    requires 0 < chunkSize && x < 2 * MAX_FILE
    ensures NextChunk(AlignUp(x, chunkSize), x, chunkSize)
  {
    hide AlignUp, Multiple;
  }

  /** One more store, on the next chunk boundary. */
  lemma StoreFollows(
    src: Source, d: Contents, cursor: u64, chunkSize: u32, desired: u16, stores: seq<Store>, entries: seq<WriteEntry>,
    from: nat)
    requires StoresFit(stores, entries) && 0 < chunkSize && cursor < 2 * MAX_FILE
    requires InOrder(stores, entries, chunkSize, from) && cursor == LookedFor(stores, entries, from, |stores|)
    ensures var r := ReadStore(src, d, cursor, chunkSize, desired, stores, entries);
            r.Ok? ==> InOrder(r.value.0.stores, r.value.0.entries, chunkSize, from)
  {
    hide ReadStoreHead, ReadDescriptors, AlignUp, LookedFor, NextChunk;
    var r := ReadStore(src, d, cursor, chunkSize, desired, stores, entries);
    if r.Ok? {
      var all, more := r.value.0.stores, r.value.0.entries;
      var s := all[|stores|];
      assert all == stores + [s] && more[..|entries|] == entries;
      AlignedIsBoundary(cursor, chunkSize);
      forall i | 0 <= i < |all|
        ensures FollowsOn(all, more, chunkSize, from, i)
      {
        LookedForGrows(stores, entries, s, more, from, i);
        assert i < |stores| ==> FollowsOn(stores, entries, chunkSize, from, i);
      }
    }
  }

  lemma EndIsLookedFor(stores: seq<Store>, entries: seq<WriteEntry>, cursor: nat, from: nat)
    requires EndsAt(stores, entries, cursor) && (stores == [] ==> cursor == from)
    ensures LookedFor(stores, entries, from, |stores|) == cursor
  {
    hide RecordsEnd;
  }

  /** The store loop finds every header on the first chunk boundary behind what came before. */
  lemma {:induction false} StoresFollow(
    src: Source, d: Contents, cursor: u64, chunkSize: u32, desired: u16, stores: seq<Store>, entries: seq<WriteEntry>,
    from: nat)
    requires StoresFit(stores, entries) && 0 < chunkSize && cursor < 2 * MAX_FILE
    requires Partitioned(d, stores, entries, cursor) && AllRelative(stores, entries) && EndsAt(stores, entries, cursor)
    requires InOrder(stores, entries, chunkSize, from) && (stores == [] ==> cursor == from)
    ensures var r := ReadStores(src, d, cursor, chunkSize, desired, stores, entries);
            r.Ok? ==> InOrder(r.value.stores, r.value.entries, chunkSize, from)
    decreases TWO_16 - |stores|
  {
    hide ReadStore, Partitioned, AllRelative, EndsAt, InOrder, StoresFit;
    if |stores| < desired {
      EndIsLookedFor(stores, entries, cursor, from);
      StoreFollows(src, d, cursor, chunkSize, desired, stores, entries, from);
      StorePartitions(src, d, cursor, chunkSize, desired, stores, entries);
      var next := ReadStore(src, d, cursor, chunkSize, desired, stores, entries);
      if next.Ok? {
        var (body, wanted) := next.value;
        StoresFollow(src, d, body.cursor, chunkSize, wanted, body.stores, body.entries, from);
      }
    }
  }

  lemma NothingOrdered(d: seq<byte>, chunkSize: nat, from: nat)
    ensures InOrder([], [], chunkSize, from) && StoresFit([], []) && Partitioned(d, [], [], from)
    ensures AllRelative([], []) && EndsAt([], [], from)
  {
  }

  /** Where an accepted image's manifest ends, and its validation data. */
  lemma HeadIsRead(src: Source, d: Contents) returns (ends: seq<nat>)
    requires Parse(src, d).Ok? && ImageRead(d, Parse(src, d).value)
    ensures ReadHead(src, d).Ok?
    ensures var plan := Parse(src, d).value;
            && Validated(d, ends, ManifestEnd(plan), plan.validationCount) && |ends| == plan.validationCount + 1
            && ends[plan.validationCount] == ReadHead(src, d).value.cursor
            && ReadHead(src, d).value.sec.chunkSize == plan.chunkSize && 0 < plan.chunkSize
  {
    hide Parse, ReadSecurity, ReadImageHead, SkipValidation, ImageRead, Validates, AlignUp, Wrap32;
    PlanCopiesHead(src, d);
    SecurityReads(src, d);
    var at := ReadSecurity(src, d).value.cursor;
    ManifestIsSkipped(src, d, at);
    ends := ValidationRead(src, d, ReadImageHead(src, d, at).value.cursor, Parse(src, d).value.validationCount);
  }

  lemma ManifestIsSkipped(src: Source, d: Contents, at: u64)
    requires at < 4 * TWO_32 && ReadImageHead(src, d, at).Ok?
    ensures var h := ReadImageHead(src, d, at).value;
            h.cursor == at + Wrap32(h.headerSize as int + h.manifestLength as int)
  {
    hide RdLe32, Wrap32;
  }

  /** The last store's records end where the last record does. */
  lemma LastEnds(d: seq<byte>, plan: Plan)
    requires WellFormed(d, plan)
    ensures 0 < |plan.entries| && 0 < |plan.stores|
    ensures LookedFor(plan.stores, plan.entries, 0, |plan.stores|) == DescriptorEnd(plan.entries[|plan.entries| - 1])
    ensures Recorded(d, plan.stores, plan.entries)
  {
    hide RecordBytes, Chained;
    var i := |plan.stores| - 1;
    var s := plan.stores[i];
    assert StoreOk(d, s, i, plan.entries);
    RecordsGrow(plan.entries, s.entryStart, s.entryStart + s.entryCount);
    LastRecord(d, plan.stores, plan.entries, RecordsEnd(s, plan.entries), plan.headerSize);
  }

  /** What is accepted is described, by the plan it is accepted with. */
  lemma AcceptedIsDescribed(src: Source, d: Contents) returns (ends: seq<nat>)
    requires Parse(src, d).Ok?
    ensures Describes(d, Parse(src, d).value, ends)
  {
    hide Parse, ReadHead, ReadStores, SecurityRead, ImageRead, Validated, InOrder, StoresCounted, AllRead, AllSized,
      Recorded, AlignUp, PayloadRule, ManifestEnd, LookedFor, WellFormed, PlanOf, Partitioned, AllRelative, EndsAt;
    var plan := Parse(src, d).value;
    PlanMatchesBytes(src, d);
    ends := HeadIsRead(src, d);
    var body := PlanFromBody(src, d);
    var from := ends[plan.validationCount];
    NothingOrdered(d, plan.chunkSize, from);
    StoresFollow(src, d, from, plan.chunkSize, 1, [], [], from);
    PlanHasBody(plan, body);
    OrderKept(body.stores, plan.stores, body.entries, plan.entries, plan.chunkSize, from);
    var first := PayloadFollowsRule(src, d);
    PlanWellFormed(src, d);
    LastEnds(d, plan);
    WellFormedTotal(d, plan);
  }

  lemma WellFormedTotal(d: seq<byte>, plan: Plan)
    requires WellFormed(d, plan)
    ensures plan.payloadBase == plan.headerSize <= |d|
    ensures plan.totalPayloadBytes == Wrap64(PrefixBytes(plan.entries, |plan.entries|))
  {
  }

  lemma PlanHasBody(plan: Plan, body: Stores)
    requires PlanOf(plan, body)
    ensures SameStores(body.stores, plan.stores) && SameRecords(body.entries, plan.entries)
  {
    hide PrefixBytes, Wrap64, BaseOf, AlignUp, Move;
  }

  /** Both parsers accept a byte string with a plan if and only if it is an image with that plan. */
  lemma AcceptedExactly(src: Source, d: Contents, plan: Plan)
    ensures Parse(src, d) == Ok(plan) <==> IsImage(d, plan)
  {
    hide Parse, Describes;
    assert d[..|d|] == d;
    ParserAgreement.ParsersAgree(d, |d|);
    if Parse(src, d) == Ok(plan) {
      var ends := AcceptedIsDescribed(src, d);
    }
    if IsImage(d, plan) {
      var ends :| Describes(d, plan, ends);
      DescribedIsAccepted(d, plan, ends);
      DescribedBounds(d, plan, ends);
    }
  }

  lemma DescribedBounds(d: Contents, plan: Plan, ends: seq<nat>)
    requires Describes(d, plan, ends)
    ensures plan.headerSize <= |d| == plan.fileSize
  {
    hide LaidOut;
    DescribedParts(d, plan, ends);
    LaidIs(d, plan);
  }
}
