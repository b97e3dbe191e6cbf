/** What an accepted plan looks like: stores partition the entries, descriptor records tile their
    regions of the header without overlap, and payload offsets follow the stores' layout rule. */
module PlanFacts {
  import opened Bytes
  import opened BlockIo
  import opened FfuLayout
  import ParserAgreement

  function DescriptorEnd(e: WriteEntry): nat {
    e.descriptorOffset + 8 + 8 * (e.locationCount as int)
  }

  /** e is the descriptor record at its offset in d, in store number i. */
  predicate EntryOk(d: seq<byte>, e: WriteEntry, blockSize: nat, i: nat) {
    && e.storeIndex == i && 0 < e.locationCount
    && 0 < e.byteCount == EntryBytes(blockSize, e.blockCount)
    && e.descriptorOffset + 8 <= |d|
    && RdLe32(d, e.descriptorOffset) == e.locationCount
    && RdLe32(d, e.descriptorOffset + 4) == e.blockCount
  }

  /** Header bytes taken by the first k descriptor records. */
  function RecordBytes(entries: seq<WriteEntry>, k: nat): nat
    requires k <= |entries|
  {
    if k == 0 then 0 else RecordBytes(entries, k - 1) + 8 + 8 * (entries[k - 1].locationCount as int)
  }

  /** Entry j is a good record, behind the records since `start`, the first of which is at base. */
  predicate RecordAt(d: seq<byte>, entries: seq<WriteEntry>, j: nat, start: nat, blockSize: nat, i: nat, base: int)
    requires j < |entries| && start <= |entries|
  {
    EntryOk(d, entries[j], blockSize, i) &&
    entries[j].descriptorOffset == base + RecordBytes(entries, j) - RecordBytes(entries, start)
  }

  /** Entries [start, end) are records of store i laid end to end from base. */
  predicate Chained(d: seq<byte>, entries: seq<WriteEntry>, start: nat, end: nat, blockSize: nat, i: nat, base: int)
    requires start <= end <= |entries|
  {
    forall j :: start <= j < end ==> RecordAt(d, entries, j, start, blockSize, i, base)
  }

  /** Where the records of store s end. */
  function RecordsEnd(s: Store, entries: seq<WriteEntry>): int
    requires s.entryStart + s.entryCount <= |entries|
  {
    s.descriptorBase + RecordBytes(entries, s.entryStart + s.entryCount) - RecordBytes(entries, s.entryStart)
  }

  predicate StoreOk(d: seq<byte>, s: Store, i: nat, entries: seq<WriteEntry>) {
    && 0 < s.blockSize <= MAX_PAYLOAD_DATA
    && 0 < s.entryCount == s.descriptorCount
    && s.entryStart + s.entryCount <= |entries|
    && s.headerOffset + STORE_V1_SIZE <= s.descriptorBase
    && Chained(d, entries, s.entryStart, s.entryStart + s.entryCount, s.blockSize, i, s.descriptorBase)
  }

  /** Entries owned by the first k stores. */
  function EntriesBefore(stores: seq<Store>, k: nat): nat
    requires k <= |stores|
  {
    if k == 0 then 0 else EntriesBefore(stores, k - 1) + stores[k - 1].entryCount
  }

  predicate StartsAt(stores: seq<Store>, i: nat)
    requires i < |stores|
  {
    stores[i].entryStart == EntriesBefore(stores, i)
  }

  predicate Contiguous(stores: seq<Store>, n: nat) {
    && (forall i :: 0 <= i < |stores| ==> StartsAt(stores, i))
    && n == EntriesBefore(stores, |stores|)
  }

  /** The store lists read so far, with the cursor behind the last descriptor. */
  predicate Partitioned(d: seq<byte>, stores: seq<Store>, entries: seq<WriteEntry>, cursor: nat) {
    && (forall i :: 0 <= i < |stores| ==> StoreOk(d, stores[i], i, entries))
    && Contiguous(stores, |entries|)
    && (forall i, k :: 0 <= i < k < |stores| ==> RecordsEnd(stores[i], entries) <= stores[k].headerOffset)
    && (forall i :: 0 <= i < |stores| ==> RecordsEnd(stores[i], entries) <= cursor)
  }

  /** The cursor stands right behind the last store's records. */
  predicate EndsAt(stores: seq<Store>, entries: seq<WriteEntry>, cursor: nat) {
    stores == [] ||
    (stores[|stores| - 1].entryStart + stores[|stores| - 1].entryCount <= |entries| &&
     RecordsEnd(stores[|stores| - 1], entries) == cursor)
  }

  // ----- prefix sums of byte counts -----

  lemma {:induction false} PrefixSame(a: seq<WriteEntry>, b: seq<WriteEntry>, k: nat)
    requires k <= |a| && k <= |b|
    requires forall j :: 0 <= j < k ==> a[j].byteCount == b[j].byteCount
    ensures PrefixBytes(a, k) == PrefixBytes(b, k)
  {
    if k > 0 {
      PrefixSame(a, b, k - 1);
    }
  }

  lemma {:induction false} RecordsSame(a: seq<WriteEntry>, b: seq<WriteEntry>, k: nat)
    requires k <= |a| && k <= |b|
    requires forall j :: 0 <= j < k ==> a[j].locationCount == b[j].locationCount
    ensures RecordBytes(a, k) == RecordBytes(b, k)
  {
    if k > 0 {
      RecordsSame(a, b, k - 1);
    }
  }

  lemma {:induction false} OwnersSame(a: seq<Store>, b: seq<Store>, k: nat)
    requires k <= |a| && k <= |b|
    requires forall j :: 0 <= j < k ==> a[j].entryCount == b[j].entryCount
    ensures EntriesBefore(a, k) == EntriesBefore(b, k)
  {
    if k > 0 {
      OwnersSame(a, b, k - 1);
    }
  }

  lemma {:induction false} PrefixGrows(entries: seq<WriteEntry>, j: nat, k: nat)
    requires j <= k <= |entries|
    ensures PrefixBytes(entries, j) <= PrefixBytes(entries, k)
    ensures PrefixBytes(entries, k) - PrefixBytes(entries, j) <= 0xFFFF_FFFF * (k - j)
    decreases k
  {
    if j < k {
      PrefixGrows(entries, j, k - 1);
    }
  }

  /** Store-relative payload offset of entry j in a store that starts at `start`. */
  function Relative(entries: seq<WriteEntry>, start: nat, j: nat): u64
    requires j <= |entries| && start <= |entries|
  {
    Wrap64(PrefixBytes(entries, j) - PrefixBytes(entries, start))
  }

  predicate RelativeAt(entries: seq<WriteEntry>, start: nat, j: nat)
    requires j < |entries| && start <= |entries|
  {
    entries[j].payloadOffset == Relative(entries, start, j)
  }

  predicate RelativeFrom(entries: seq<WriteEntry>, start: nat, end: nat)
    requires start <= end <= |entries|
  {
    forall j :: start <= j < end ==> RelativeAt(entries, start, j)
  }

  // ----- the first pass -----

  /** Entries appended behind a store leave the facts about it alone. */
  lemma ChainKept(
    d: seq<byte>, a: seq<WriteEntry>, b: seq<WriteEntry>, start: nat, end: nat, blockSize: nat, i: nat, base: nat)
    requires start <= end <= |a| && a <= b
    requires Chained(d, a, start, end, blockSize, i, base) && RelativeFrom(a, start, end)
    ensures Chained(d, b, start, end, blockSize, i, base) && RelativeFrom(b, start, end)
  {
    assert forall j :: 0 <= j < |a| ==> a[j] == b[j];
    RecordsSame(a, b, start);
    PrefixSame(a, b, start);
    forall j | start <= j < end
      ensures RecordAt(d, b, j, start, blockSize, i, base) && RelativeAt(b, start, j)
    {
      assert RecordAt(d, a, j, start, blockSize, i, base) && RelativeAt(a, start, j);
      RecordsSame(a, b, j);
      PrefixSame(a, b, j);
    }
  }

  /** One more record at the cursor extends the chain. */
  lemma ChainStep(
    d: Contents, cursor: u64, entries: seq<WriteEntry>, e: WriteEntry, blockSize: u32, i: nat, start: nat, base: u64)
    requires start <= |entries| && Chained(d, entries, start, |entries|, blockSize, i, base)
    requires cursor == base + RecordBytes(entries, |entries|) - RecordBytes(entries, start)
    requires RelativeFrom(entries, start, |entries|) && e.payloadOffset == Relative(entries, start, |entries|)
    requires EntryOk(d, e, blockSize, i) && e.descriptorOffset == cursor
    ensures var more := entries + [e];
            Chained(d, more, start, |more|, blockSize, i, base) && RelativeFrom(more, start, |more|) &&
            Relative(more, start, |more|) == Wrap64(e.payloadOffset as int + e.byteCount as int) &&
            DescriptorEnd(e) == base + RecordBytes(more, |more|) - RecordBytes(more, start)
  {
    hide EntryBytes, RdLe32;
    var more := entries + [e];
    ChainKept(d, entries, more, start, |entries|, blockSize, i, base);
    RecordsSame(entries, more, |entries|);
    RecordsSame(entries, more, start);
    PrefixSame(entries, more, |entries|);
    PrefixSame(entries, more, start);
    assert PrefixBytes(more, |more|) == PrefixBytes(more, |entries|) + e.byteCount;
    hide PrefixBytes;
    WrapAdd(PrefixBytes(entries, |entries|) - PrefixBytes(entries, start), e.byteCount);
    hide Wrap64;
    assert RecordAt(d, more, |entries|, start, blockSize, i, base) && RelativeAt(more, start, |entries|);
  }

  /** The record the reader sees at the cursor. */
  function EntryAt(d: seq<byte>, cursor: u64, rel: u64, blockSize: u32, i: nat): WriteEntry
    requires cursor + 8 <= |d| && EntryBytes(blockSize, RdLe32(d[cursor..cursor + 8], 4)) < TWO_32
  {
    var wh := d[cursor..cursor + 8];
    WriteEntry(rel, cursor, EntryBytes(blockSize, RdLe32(wh, 4)), RdLe32(wh, 4), RdLe32(wh, 0), i)
  }

  lemma EntryAtOk(d: seq<byte>, cursor: u64, rel: u64, blockSize: u32, i: nat)
    requires cursor + 8 <= |d| && EntryBytes(blockSize, RdLe32(d[cursor..cursor + 8], 4)) < TWO_32
    requires 0 < blockSize && 0 < RdLe32(d[cursor..cursor + 8], 4) && 0 < RdLe32(d[cursor..cursor + 8], 0)
    ensures EntryOk(d, EntryAt(d, cursor, rel, blockSize, i), blockSize, i)
  {
  }

  lemma {:induction false} DescriptorsChain(
    src: Source, d: Contents, cursor: u64, rel: u64, entries: seq<WriteEntry>, n: nat, blockSize: u32, i: nat,
    start: nat, base: u64)
    requires cursor < 2 * MAX_FILE && start <= |entries| && 0 < blockSize
    requires Chained(d, entries, start, |entries|, blockSize, i, base)
    requires cursor == base + RecordBytes(entries, |entries|) - RecordBytes(entries, start)
    requires RelativeFrom(entries, start, |entries|) && rel == Relative(entries, start, |entries|)
    ensures var r := ReadDescriptors(src, d, cursor, rel, entries, n, blockSize, i);
            r.Ok? ==>
              var es := r.value.entries;
              && |es| == |entries| + n && es[..|entries|] == entries
              && Chained(d, es, start, |es|, blockSize, i, base)
              && r.value.cursor == base + RecordBytes(es, |es|) - RecordBytes(es, start)
              && RelativeFrom(es, start, |es|) && r.value.relPayload == Relative(es, start, |es|)
    decreases n
  {
    hide EntryBytes, PrefixBytes, RecordBytes, Relative, Wrap64, RdLe32, EntryOk;
    if n > 0 && cursor + 8 <= |d| {
      var wh := d[cursor..cursor + 8];
      var locations, blocks := RdLe32(wh, 0), RdLe32(wh, 4);
      if locations > 0 && blocks > 0 && EntryBytes(blockSize, blocks) < TWO_32 {
        var e := EntryAt(d, cursor, rel, blockSize, i);
        EntryAtOk(d, cursor, rel, blockSize, i);
        ChainStep(d, cursor, entries, e, blockSize, i, start, base);
        var more := entries + [e];
        hide Chained, RelativeFrom, EntryOk, RdLe32;
        DescriptorsChain(
          src, d, DescriptorEnd(e), Wrap64(rel as int + e.byteCount as int), more, n - 1, blockSize, i, start, base);
      }
    }
  }

  predicate StoreRelative(s: Store, entries: seq<WriteEntry>) {
    s.entryStart + s.entryCount <= |entries| && RelativeFrom(entries, s.entryStart, s.entryStart + s.entryCount)
  }

  predicate AllRelative(stores: seq<Store>, entries: seq<WriteEntry>) {
    forall i :: 0 <= i < |stores| ==> StoreRelative(stores[i], entries)
  }

  /** Growing the entries leaves an earlier store's facts alone. */
  lemma StoreKept(d: seq<byte>, t: Store, i: nat, entries: seq<WriteEntry>, more: seq<WriteEntry>)
    requires StoreOk(d, t, i, entries) && StoreRelative(t, entries) && entries <= more
    ensures StoreOk(d, t, i, more) && StoreRelative(t, more) && RecordsEnd(t, more) == RecordsEnd(t, entries)
  {
    ChainKept(d, entries, more, t.entryStart, t.entryStart + t.entryCount, t.blockSize, i, t.descriptorBase);
    RecordsSame(entries, more, t.entryStart);
    RecordsSame(entries, more, t.entryStart + t.entryCount);
  }

  lemma ContiguousStep(stores: seq<Store>, n: nat, s: Store)
    requires Contiguous(stores, n) && s.entryStart == n
    ensures Contiguous(stores + [s], n + s.entryCount)
  {
    var all := stores + [s];
    forall i | 0 <= i <= |stores|
      ensures StartsAt(all, i)
    {
      OwnersSame(stores, all, i);
      assert i < |stores| ==> StartsAt(stores, i);
    }
    OwnersSame(stores, all, |stores|);
  }

  /** What one more store, read behind the last descriptor, does to the partition. */
  lemma PartitionStep(
    d: seq<byte>, stores: seq<Store>, entries: seq<WriteEntry>, cursor: nat, s: Store, more: seq<WriteEntry>, end: nat)
    requires Partitioned(d, stores, entries, cursor) && AllRelative(stores, entries)
    requires entries <= more && s.entryStart == |entries| && s.entryStart + s.entryCount == |more|
    requires StoreOk(d, s, |stores|, more) && RelativeFrom(more, |entries|, |more|)
    requires cursor <= s.headerOffset && RecordsEnd(s, more) == end
    ensures Partitioned(d, stores + [s], more, end) && AllRelative(stores + [s], more)
    ensures EndsAt(stores + [s], more, end)
  {
    var all := stores + [s];
    ContiguousStep(stores, |entries|, s);
    RecordsGrow(more, s.entryStart, |more|);
    assert s.headerOffset <= end && StoreRelative(s, more);
    hide Chained, RecordBytes, RelativeFrom, Contiguous;
    forall i | 0 <= i < |stores|
      ensures StoreOk(d, all[i], i, more) && StoreRelative(all[i], more)
      ensures RecordsEnd(all[i], more) == RecordsEnd(stores[i], entries) <= cursor
    {
      assert StoreOk(d, stores[i], i, entries) && StoreRelative(stores[i], entries);
      StoreKept(d, stores[i], i, entries, more);
    }
    hide StoreRelative;
  }

  lemma {:induction false} RecordsGrow(entries: seq<WriteEntry>, j: nat, k: nat)
    requires j <= k <= |entries|
    ensures RecordBytes(entries, j) + 16 * (k - j) <= RecordBytes(entries, k) + 8 * (k - j)
    decreases k
  {
    if j < k {
      RecordsGrow(entries, j, k - 1);
    }
  }

  lemma StorePartitions(
    src: Source, d: Contents, cursor: u64, chunkSize: u32, desired: u16, stores: seq<Store>, entries: seq<WriteEntry>)
    requires StoresFit(stores, entries) && 0 < chunkSize && cursor < 2 * MAX_FILE
    requires Partitioned(d, stores, entries, cursor) && AllRelative(stores, entries)
    ensures var r := ReadStore(src, d, cursor, chunkSize, desired, stores, entries);
            r.Ok? ==> Partitioned(d, r.value.0.stores, r.value.0.entries, r.value.0.cursor) &&
                      AllRelative(r.value.0.stores, r.value.0.entries) &&
                      EndsAt(r.value.0.stores, r.value.0.entries, r.value.0.cursor)
  {
    hide AlignUp, ReadStoreHead, ReadDescriptors, RecordBytes, PrefixBytes, Partitioned, AllRelative, EndsAt;
    var r := ReadStore(src, d, cursor, chunkSize, desired, stores, entries);
    if r.Ok? {
      var at := AlignUp(cursor, chunkSize);
      var head := ReadStoreHead(src, d, at, desired).value;
      var body := r.value.0;
      var s := body.stores[|stores|];
      assert body.stores == stores + [s];
      hide ReadStore;
      DescriptorsChain(
        src, d, head.cursor, 0, entries, head.descriptorCount, head.blockSize, |stores|, |entries|, head.cursor);
      PartitionStep(d, stores, entries, cursor, s, body.entries, body.cursor);
    }
  }

  lemma {:induction false} StoresPartition(
    src: Source, d: Contents, cursor: u64, chunkSize: u32, desired: u16, stores: seq<Store>, entries: seq<WriteEntry>)
    requires StoresFit(stores, entries) && 0 < chunkSize && cursor < 2 * MAX_FILE
    requires Partitioned(d, stores, entries, cursor) && AllRelative(stores, entries) && EndsAt(stores, entries, cursor)
    ensures var r := ReadStores(src, d, cursor, chunkSize, desired, stores, entries);
            r.Ok? ==> Partitioned(d, r.value.stores, r.value.entries, r.value.cursor) &&
                      AllRelative(r.value.stores, r.value.entries) &&
                      EndsAt(r.value.stores, r.value.entries, r.value.cursor)
    decreases TWO_16 - |stores|
  {
    if |stores| < desired {
      StorePartitions(src, d, cursor, chunkSize, desired, stores, entries);
      var next := ReadStore(src, d, cursor, chunkSize, desired, stores, entries);
      if next.Ok? {
        var (body, wanted) := next.value;
        StoresPartition(src, d, body.cursor, chunkSize, wanted, body.stores, body.entries);
      }
    }
  }

  // ----- the second pass -----

  /** The payload cursor in front of store t, when it stands at `cursor` in front of store s. */
  function PayloadCursor(stores: seq<Store>, s: nat, t: nat, cursor: u64): u64
    requires s <= t <= |stores|
    decreases t - s
  {
    if s == t then cursor
    else
      PayloadCursor(
        stores, s + 1, t, Wrap64(AlignUp(cursor, stores[s].blockSize) as int + stores[s].payloadSize as int))
  }

  lemma {:induction false} PayloadCursorNext(stores: seq<Store>, s: nat, t: nat, cursor: u64)
    requires s <= t < |stores|
    ensures PayloadCursor(stores, s, t + 1, cursor) ==
            Wrap64(
              AlignUp(PayloadCursor(stores, s, t, cursor), stores[t].blockSize) as int + stores[t].payloadSize as int)
    decreases t - s
  {
    if s < t {
      PayloadCursorNext(
        stores, s + 1, t, Wrap64(AlignUp(cursor, stores[s].blockSize) as int + stores[s].payloadSize as int));
    }
  }

  /** Where store t's payload begins. */
  function BaseOf(stores: seq<Store>, s: nat, t: nat, cursor: u64): u64
    requires s <= t < |stores|
  {
    AlignUp(PayloadCursor(stores, s, t, cursor), stores[t].blockSize)
  }

  lemma {:induction false} StartsGrow(stores: seq<Store>, s: nat, t: nat)
    requires s <= t <= |stores|
    ensures EntriesBefore(stores, s) <= EntriesBefore(stores, t)
    decreases t
  {
    if s < t {
      StartsGrow(stores, s, t - 1);
    }
  }

  /** stores and entries as the first pass left them. */
  predicate Owned(stores: seq<Store>, entries: seq<WriteEntry>) {
    && Contiguous(stores, |entries|)
    && StoresFit(stores, entries)
    && (forall j :: 0 <= j < |entries| ==>
          entries[j].storeIndex < |stores| &&
          stores[entries[j].storeIndex].entryStart <= j
          < stores[entries[j].storeIndex].entryStart + stores[entries[j].storeIndex].entryCount)
  }

  /** In p, stores before s are placed and the rest are still as read. */
  predicate PlacedUpTo(p: Placed, s: nat, stores: seq<Store>, entries: seq<WriteEntry>)
    requires s <= |stores|
  {
    && |p.stores| == |stores| && |p.entries| == |entries|
    && (forall i :: 0 <= i < |stores| ==> p.stores[i] == stores[i].(payloadBase := p.stores[i].payloadBase))
    && (forall i :: s <= i < |stores| ==> p.stores[i] == stores[i])
    && (forall j :: 0 <= j < |entries| ==> p.entries[j] == entries[j].(payloadOffset := p.entries[j].payloadOffset))
    && (forall j :: 0 <= j < |entries| && entries[j].storeIndex >= s ==> p.entries[j] == entries[j])
    && EntriesBefore(stores, s) <= |entries|
    && p.total == Wrap64(PrefixBytes(entries, EntriesBefore(stores, s)))
  }

  lemma OwnedOnce(stores: seq<Store>, entries: seq<WriteEntry>, s: nat, j: nat)
    requires Owned(stores, entries) && s < |stores| && j < |entries|
    ensures entries[j].storeIndex == s <==> stores[s].entryStart <= j < stores[s].entryStart + stores[s].entryCount
  {
    var o := entries[j].storeIndex;
    assert StartsAt(stores, s) && StartsAt(stores, o);
    if o < s {
      StartsGrow(stores, o + 1, s);
    } else if s < o {
      StartsGrow(stores, s + 1, o);
    }
  }

  function Move(e: WriteEntry, base: u64): WriteEntry {
    e.(payloadOffset := Wrap64(e.payloadOffset as int + base as int))
  }

  /** Store s owns the entries from its start to the start of the next. */
  lemma StoreRange(stores: seq<Store>, entries: seq<WriteEntry>, s: nat)
    requires Owned(stores, entries) && s < |stores|
    ensures stores[s].entryStart == EntriesBefore(stores, s)
    ensures EntriesBefore(stores, s) + stores[s].entryCount == EntriesBefore(stores, s + 1) <= |entries|
  {
    StartsGrow(stores, s + 1, |stores|);
    assert StartsAt(stores, s);
  }

  lemma PlaceOneTotal(p: Placed, s: nat, base: u64, stores: seq<Store>, entries: seq<WriteEntry>)
    requires Owned(stores, entries) && s < |stores| && PlacedUpTo(p, s, stores, entries)
    requires StoresFit(p.stores, p.entries)
    ensures EntriesBefore(stores, s) <= EntriesBefore(stores, s + 1) <= |entries|
    ensures stores[s].entryStart == EntriesBefore(stores, s)
    ensures PlaceStore(p, s, base).total == Wrap64(PrefixBytes(entries, EntriesBefore(stores, s + 1)))
  {
    hide Rebased, StoresFit, Owned, PrefixBytes, EntriesBefore, Wrap64;
    StoreRange(stores, entries, s);
    var start, end := EntriesBefore(stores, s), EntriesBefore(stores, s + 1);
    PrefixSame(p.entries, entries, start);
    PrefixSame(p.entries, entries, end);
    WrapAdd(PrefixBytes(entries, start), PrefixBytes(entries, end) - PrefixBytes(entries, start));
  }

  lemma PlaceOneEntry(p: Placed, s: nat, base: u64, stores: seq<Store>, entries: seq<WriteEntry>, j: nat)
    requires Owned(stores, entries) && s < |stores| && PlacedUpTo(p, s, stores, entries)
    requires StoresFit(p.stores, p.entries)
    requires j < |entries|
    ensures PlaceStore(p, s, base).entries[j] ==
            if entries[j].storeIndex == s then Move(entries[j], base) else p.entries[j]
  {
    hide Wrap64, PrefixBytes, EntriesBefore;
    OwnedOnce(stores, entries, s, j);
  }

  lemma PlaceOne(p: Placed, s: nat, base: u64, stores: seq<Store>, entries: seq<WriteEntry>)
    requires Owned(stores, entries) && s < |stores| && PlacedUpTo(p, s, stores, entries)
    requires StoresFit(p.stores, p.entries)
    ensures PlacedUpTo(PlaceStore(p, s, base), s + 1, stores, entries)
    ensures PlaceStore(p, s, base).stores[..s + 1] == p.stores[..s] + [stores[s].(payloadBase := base)]
    ensures forall j :: 0 <= j < |entries| ==>
              PlaceStore(p, s, base).entries[j] ==
              if entries[j].storeIndex == s then Move(entries[j], base) else p.entries[j]
  {
    hide Wrap64, PrefixBytes, EntriesBefore, Rebased;
    PlaceOneTotal(p, s, base, stores, entries);
    forall j | 0 <= j < |entries|
      ensures PlaceStore(p, s, base).entries[j] ==
              if entries[j].storeIndex == s then Move(entries[j], base) else p.entries[j]
    {
      PlaceOneEntry(p, s, base, stores, entries, j);
    }
    hide Owned;
  }

  predicate StorePlaced(r: Placed, stores: seq<Store>, s: nat, i: nat, cursor: u64)
    requires s <= i < |stores| == |r.stores|
  {
    r.stores[i] == stores[i].(payloadBase := BaseOf(stores, s, i, cursor))
  }

  predicate EntryPlaced(r: Placed, stores: seq<Store>, entries: seq<WriteEntry>, s: nat, j: nat, cursor: u64)
    requires j < |entries| == |r.entries| && s <= entries[j].storeIndex < |stores|
  {
    r.entries[j] == Move(entries[j], BaseOf(stores, s, entries[j].storeIndex, cursor))
  }

  /** The second pass in closed form: every store gets its base, every entry moves by its store's
      base, and the total is the sum of all byte counts, all modulo 2^64. */
  lemma {:induction false} PlacedExactly(p: Placed, s: nat, cursor: u64, stores: seq<Store>, entries: seq<WriteEntry>)
    requires s <= |stores| == |p.stores| && |entries| == |p.entries|
    requires Owned(stores, entries) && PlacedUpTo(p, s, stores, entries) && StoresFit(p.stores, p.entries)
    ensures var r := PlacePayload(p, s, cursor);
            && r.stores[..s] == p.stores[..s]
            && (forall i :: s <= i < |stores| ==> StorePlaced(r, stores, s, i, cursor))
            && (forall j :: 0 <= j < |entries| && entries[j].storeIndex < s ==> r.entries[j] == p.entries[j])
            && (forall j :: 0 <= j < |entries| && s <= entries[j].storeIndex ==>
                  EntryPlaced(r, stores, entries, s, j, cursor))
            && r.total == Wrap64(PrefixBytes(entries, |entries|))
    decreases |stores| - s
  {
    hide AlignUp, Rebased, PlaceStore, PrefixBytes;
    if s < |stores| {
      assert p.stores[s] == stores[s];
      hide AlignUp, Rebased, PlaceStore, PrefixBytes, StoresFit, Contiguous, PlacedUpTo;
      var base := AlignUp(cursor, stores[s].blockSize);
      var next, after := PlaceStore(p, s, base), Wrap64(base as int + stores[s].payloadSize as int);
      PlaceOne(p, s, base, stores, entries);
      PlacedExactly(next, s + 1, after, stores, entries);
      var r := PlacePayload(p, s, cursor);
      assert r == PlacePayload(next, s + 1, after);
      forall i | s <= i < |stores|
        ensures StorePlaced(r, stores, s, i, cursor)
      {
        if i == s {
          assert r.stores[i] == r.stores[..s + 1][s];
        } else {
          assert StorePlaced(r, stores, s + 1, i, after);
        }
      }
      assert r.stores[..s] == r.stores[..s + 1][..s];
      forall j | 0 <= j < |entries| && s <= entries[j].storeIndex
        ensures EntryPlaced(r, stores, entries, s, j, cursor)
      {
        if entries[j].storeIndex > s {
          assert EntryPlaced(r, stores, entries, s + 1, j, after);
        }
      }
    }
  }

  // ----- from the two passes to the plan -----

  /** The owner of entry j, found from the back. */
  lemma {:induction false} OwnerExists(stores: seq<Store>, k: nat, j: nat) returns (i: nat)
    requires k <= |stores| && j < EntriesBefore(stores, k)
    ensures i < k && EntriesBefore(stores, i) <= j < EntriesBefore(stores, i + 1)
  {
    if EntriesBefore(stores, k - 1) <= j {
      i := k - 1;
    } else {
      i := OwnerExists(stores, k - 1, j);
    }
  }

  /** Entry j belongs to the store it names. */
  predicate OwnedBy(stores: seq<Store>, entries: seq<WriteEntry>, j: nat)
    requires j < |entries|
  {
    entries[j].storeIndex < |stores| &&
    stores[entries[j].storeIndex].entryStart <= j
    < stores[entries[j].storeIndex].entryStart + stores[entries[j].storeIndex].entryCount
  }

  lemma EntryOwned(d: seq<byte>, stores: seq<Store>, entries: seq<WriteEntry>, cursor: nat, j: nat)
    requires Partitioned(d, stores, entries, cursor) && j < |entries|
    ensures OwnedBy(stores, entries, j)
    ensures var s := stores[entries[j].storeIndex];
            StoreOk(d, s, entries[j].storeIndex, entries) && StartsAt(stores, entries[j].storeIndex) &&
            RecordAt(d, entries, j, s.entryStart, s.blockSize, entries[j].storeIndex, s.descriptorBase)
  {
    var i := OwnerExists(stores, |stores|, j);
    assert StartsAt(stores, i) && StoreOk(d, stores[i], i, entries);
    var s := stores[i];
    assert RecordAt(d, entries, j, s.entryStart, s.blockSize, i, s.descriptorBase);
  }

  lemma PartitionIsOwned(d: seq<byte>, stores: seq<Store>, entries: seq<WriteEntry>, cursor: nat)
    requires Partitioned(d, stores, entries, cursor)
    ensures Owned(stores, entries)
  {
    forall j | 0 <= j < |entries|
      ensures entries[j].storeIndex < |stores|
      ensures stores[entries[j].storeIndex].entryStart <= j
              < stores[entries[j].storeIndex].entryStart + stores[entries[j].storeIndex].entryCount
    {
      EntryOwned(d, stores, entries, cursor, j);
    }
    assert StoresFit(stores, entries) by {
      forall i | 0 <= i < |stores|
        ensures stores[i].entryStart + stores[i].entryCount <= |entries|
      {
        assert StoreOk(d, stores[i], i, entries);
      }
    }
  }

  /** b is a with other payload positions. */
  predicate SameRecords(a: seq<WriteEntry>, b: seq<WriteEntry>) {
    |a| == |b| && forall j :: 0 <= j < |a| ==> b[j] == a[j].(payloadOffset := b[j].payloadOffset)
  }

  predicate SameStores(a: seq<Store>, b: seq<Store>) {
    |a| == |b| && forall i :: 0 <= i < |a| ==> b[i] == a[i].(payloadBase := b[i].payloadBase)
  }

  lemma StoreOkMoves(d: seq<byte>, s: Store, t: Store, i: nat, a: seq<WriteEntry>, b: seq<WriteEntry>)
    requires StoreOk(d, s, i, a) && SameRecords(a, b) && t == s.(payloadBase := t.payloadBase)
    ensures StoreOk(d, t, i, b) && RecordsEnd(t, b) == RecordsEnd(s, a)
  {
    RecordsSame(a, b, s.entryStart);
    RecordsSame(a, b, s.entryStart + s.entryCount);
    forall j | s.entryStart <= j < s.entryStart + s.entryCount
      ensures RecordAt(d, b, j, s.entryStart, s.blockSize, i, s.descriptorBase)
    {
      assert RecordAt(d, a, j, s.entryStart, s.blockSize, i, s.descriptorBase);
      RecordsSame(a, b, j);
    }
  }

  lemma PartitionMoves(
    d: seq<byte>, s: seq<Store>, t: seq<Store>, a: seq<WriteEntry>, b: seq<WriteEntry>, cursor: nat, end: nat)
    requires Partitioned(d, s, a, cursor) && SameRecords(a, b) && SameStores(s, t) && cursor <= end
    ensures Partitioned(d, t, b, end)
  {
    forall i | 0 <= i < |s|
      ensures StoreOk(d, t[i], i, b) && RecordsEnd(t[i], b) == RecordsEnd(s[i], a) && StartsAt(t, i)
    {
      assert StoreOk(d, s[i], i, a) && StartsAt(s, i);
      StoreOkMoves(d, s[i], t[i], i, a, b);
      OwnersSame(s, t, i);
    }
    OwnersSame(s, t, |s|);
  }

  // ----- main results -----

  /** Stores partition the entries; every entry is the record at its descriptor offset, with
      byte_count = block_size * block_count; a store's records tile its region, the regions follow
      one another and end inside the header; the total is the sum of all byte counts. */
  predicate WellFormed(d: seq<byte>, plan: Plan) {
    && 0 < |plan.stores|
    && Partitioned(d, plan.stores, plan.entries, plan.headerSize)
    && plan.payloadBase == plan.headerSize <= |d|
    && plan.totalPayloadBytes == Wrap64(PrefixBytes(plan.entries, |plan.entries|))
  }

  /** Where stores and entries find their payload: each store begins at the aligned end of the one
      before, and its entries follow one another from there. */
  predicate PayloadRule(plan: Plan, first: u64) {
    && (forall i :: 0 <= i < |plan.stores| ==> BaseRule(plan, first, i))
    && (forall j :: 0 <= j < |plan.entries| ==> OffsetRule(plan, j))
  }

  predicate BaseRule(plan: Plan, first: u64, i: nat)
    requires i < |plan.stores|
  {
    plan.stores[i].payloadBase ==
    AlignUp(
      if i == 0 then first
      else Wrap64(plan.stores[i - 1].payloadBase as int + plan.stores[i - 1].payloadSize as int),
      plan.stores[i].blockSize)
  }

  predicate OffsetRule(plan: Plan, j: nat)
    requires j < |plan.entries|
  {
    OwnedBy(plan.stores, plan.entries, j) &&
    var s := plan.stores[plan.entries[j].storeIndex];
    s.entryStart <= |plan.entries| &&
    plan.entries[j].payloadOffset ==
    Wrap64(s.payloadBase as int + PrefixBytes(plan.entries, j) - PrefixBytes(plan.entries, s.entryStart))
  }

  /** Both passes put together: the plan of an accepted layout against what the first pass read. */
  predicate PlanOf(plan: Plan, body: Stores) {
    && 0 < |body.stores| && 0 < body.cursor <= plan.headerSize == plan.payloadBase
    && plan.headerSize == AlignUp(body.cursor, body.stores[0].blockSize)
    && SameStores(body.stores, plan.stores) && SameRecords(body.entries, plan.entries)
    && plan.totalPayloadBytes == Wrap64(PrefixBytes(body.entries, |body.entries|))
    && (forall i :: 0 <= i < |plan.stores| ==> plan.stores[i].payloadBase == BaseOf(body.stores, 0, i, body.cursor))
    && (forall j :: 0 <= j < |plan.entries| ==>
          body.entries[j].storeIndex < |body.stores| &&
          plan.entries[j] == Move(body.entries[j], plan.stores[body.entries[j].storeIndex].payloadBase))
  }

  lemma NothingPlaced(stores: seq<Store>, entries: seq<WriteEntry>)
    requires Owned(stores, entries)
    ensures StoresFit(stores, entries) && PlacedUpTo(Placed(stores, entries, 0, 0), 0, stores, entries)
  {
    hide Contiguous;
  }

  lemma PlanOfPlaced(plan: Plan, body: Stores, r: Placed)
    requires Owned(body.stores, body.entries) && 0 < |body.stores|
    requires 0 < body.cursor <= plan.headerSize == plan.payloadBase
    requires r == PlacePayload(Placed(body.stores, body.entries, 0, 0), 0, body.cursor)
    requires plan.stores == r.stores && plan.entries == r.entries && plan.totalPayloadBytes == r.total
    requires plan.headerSize == AlignUp(body.cursor, body.stores[0].blockSize)
    ensures PlanOf(plan, body)
  {
    hide PlacePayload, AlignUp, PrefixBytes, PlacedUpTo, Contiguous, StoresFit, Wrap64;
    NothingPlaced(body.stores, body.entries);
    PlacedExactly(Placed(body.stores, body.entries, 0, 0), 0, body.cursor, body.stores, body.entries);
    forall i | 0 <= i < |plan.stores|
      ensures plan.stores[i] == body.stores[i].(payloadBase := BaseOf(body.stores, 0, i, body.cursor))
    {
      assert StorePlaced(r, body.stores, 0, i, body.cursor);
    }
    forall j | 0 <= j < |plan.entries|
      ensures plan.entries[j] == Move(body.entries[j], plan.stores[body.entries[j].storeIndex].payloadBase)
    {
      assert EntryPlaced(r, body.stores, body.entries, 0, j, body.cursor);
    }
    hide BaseOf;
  }

  /** What the readers make of an accepted layout, put together. */
  lemma PlanParts(src: Source, d: Contents) returns (body: Stores)
    requires Parse(src, d).Ok?
    ensures ReadHead(src, d).Ok?
    ensures ReadStores(src, d, ReadHead(src, d).value.cursor, ReadHead(src, d).value.sec.chunkSize, 1, [], []) ==
            Ok(body)
    ensures StoresFit(body.stores, body.entries)
    ensures Partitioned(d, body.stores, body.entries, body.cursor) && AllRelative(body.stores, body.entries)
    ensures EndsAt(body.stores, body.entries, body.cursor)
    ensures 0 < |body.stores| && 0 < body.cursor <= Parse(src, d).value.headerSize <= |d|
    ensures Parse(src, d).value.headerSize == AlignUp(body.cursor, body.stores[0].blockSize)
    ensures var r := PlacePayload(Placed(body.stores, body.entries, 0, 0), 0, body.cursor);
            var plan := Parse(src, d).value;
            && plan.stores == r.stores && plan.entries == r.entries && plan.totalPayloadBytes == r.total
            && plan.headerSize == plan.payloadBase
  {
    hide ReadStores, ReadHead, PlacePayload, RecordsEnd, StoreOk, StartsAt;
    ParserAgreement.BodyWithinHeader(src, d);
    var head := ReadHead(src, d).value;
    body := ReadStores(src, d, head.cursor, head.sec.chunkSize, 1, [], []).value;
    StoresPartition(src, d, head.cursor, head.sec.chunkSize, 1, [], []);
    assert StoreOk(d, body.stores[0], 0, body.entries);
    FirstBlockSize(d, body.stores[0], body.entries);
    ParserAgreement.HeaderSizeIsAligned(body.stores, body.entries, body.cursor);
  }

  lemma FirstBlockSize(d: seq<byte>, s: Store, entries: seq<WriteEntry>)
    requires StoreOk(d, s, 0, entries)
    ensures 0 < s.blockSize
  {
  }

  lemma PlanFromBody(src: Source, d: Contents) returns (body: Stores)
    requires Parse(src, d).Ok?
    ensures ReadHead(src, d).Ok?
    ensures ReadStores(src, d, ReadHead(src, d).value.cursor, ReadHead(src, d).value.sec.chunkSize, 1, [], []) ==
            Ok(body)
    ensures PlanOf(Parse(src, d).value, body) && Parse(src, d).value.headerSize <= |d|
    ensures Partitioned(d, body.stores, body.entries, body.cursor) && AllRelative(body.stores, body.entries)
    ensures EndsAt(body.stores, body.entries, body.cursor)
  {
    hide Parse, ReadHead, ReadStores, PlacePayload, Partitioned, AllRelative, EndsAt, Owned, PlanOf;
    body := PlanParts(src, d);
    PartitionIsOwned(d, body.stores, body.entries, body.cursor);
    PlanOfPlaced(Parse(src, d).value, body, PlacePayload(Placed(body.stores, body.entries, 0, 0), 0, body.cursor));
  }

  lemma WellFormedFromBody(d: seq<byte>, plan: Plan, body: Stores)
    requires PlanOf(plan, body) && plan.headerSize <= |d| && Partitioned(d, body.stores, body.entries, body.cursor)
    ensures WellFormed(d, plan)
  {
    hide Partitioned, BaseOf, Move, AlignUp, PrefixBytes, Wrap64;
    PartitionMoves(d, body.stores, plan.stores, body.entries, plan.entries, body.cursor, plan.headerSize);
    PrefixSame(body.entries, plan.entries, |plan.entries|);
  }

  /** Every accepted layout yields a well-formed plan. */
  lemma PlanWellFormed(src: Source, d: Contents)
    requires Parse(src, d).Ok?
    ensures WellFormed(d, Parse(src, d).value)
  {
    hide *;
    var body := PlanFromBody(src, d);
    WellFormedFromBody(d, Parse(src, d).value, body);
  }

  /** The last entry's record is the last one of the last store. */
  lemma LastRecord(d: seq<byte>, stores: seq<Store>, entries: seq<WriteEntry>, cursor: nat, end: nat)
    requires Partitioned(d, stores, entries, end) && EndsAt(stores, entries, cursor) && 0 < |stores|
    ensures 0 < |entries| && DescriptorEnd(entries[|entries| - 1]) == cursor
  {
    var i, j := |stores| - 1, |entries| - 1;
    var s := stores[i];
    assert StoreOk(d, s, i, entries) && StartsAt(stores, i);
    assert RecordAt(d, entries, j, s.entryStart, s.blockSize, i, s.descriptorBase);
    hide EntryOk, Chained;
  }

  /** Every accepted layout places its payload by the rule, starting where the last descriptor ends;
      the header size is that end, rounded up to a block of the first store. */
  lemma PayloadFollowsRule(src: Source, d: Contents) returns (first: u64)
    requires Parse(src, d).Ok?
    ensures var plan := Parse(src, d).value;
            && 0 < |plan.stores| && 0 < |plan.entries| && 0 < plan.stores[0].blockSize
            && first == DescriptorEnd(plan.entries[|plan.entries| - 1]) > 0
            && first <= plan.headerSize == AlignUp(first, plan.stores[0].blockSize)
            && PayloadRule(plan, first)
  {
    var body := PlanFromBody(src, d);
    first := body.cursor;
    var plan := Parse(src, d).value;
    hide Parse, AlignUp, ReadHead, ReadStores;
    PartitionMoves(d, body.stores, plan.stores, body.entries, plan.entries, body.cursor, plan.headerSize);
    LastRecord(d, body.stores, body.entries, body.cursor, body.cursor);
    assert StoreOk(d, plan.stores[0], 0, plan.entries);
    FirstBlockSize(d, plan.stores[0], plan.entries);
    hide Partitioned, AllRelative, EndsAt, StoreOk;
    forall i | 0 <= i < |plan.stores|
      ensures BaseRule(plan, first, i)
    {
      BasesFollow(plan, body.stores, first, i);
    }
    forall j | 0 <= j < |plan.entries|
      ensures OffsetRule(plan, j)
    {
      OffsetsFollow(d, plan, body, j);
    }
  }

  lemma BasesFollow(plan: Plan, stores: seq<Store>, first: u64, i: nat)
    requires i < |plan.stores| && SameStores(stores, plan.stores)
    requires forall k :: 0 <= k < |stores| ==> plan.stores[k].payloadBase == BaseOf(stores, 0, k, first)
    ensures BaseRule(plan, first, i)
  {
    hide AlignUp, Wrap64;
    if i > 0 {
      PayloadCursorNext(stores, 0, i - 1, first);
    }
  }

  /** What the first pass gave entry j: an owner, and its offset within that store's payload. */
  lemma FirstPassOffset(d: seq<byte>, stores: seq<Store>, entries: seq<WriteEntry>, cursor: nat, j: nat)
    requires Partitioned(d, stores, entries, cursor) && AllRelative(stores, entries) && j < |entries|
    ensures OwnedBy(stores, entries, j)
    ensures var start := stores[entries[j].storeIndex].entryStart;
            start <= |entries| && entries[j].payloadOffset == Relative(entries, start, j)
  {
    EntryOwned(d, stores, entries, cursor, j);
    var i := entries[j].storeIndex;
    hide Partitioned, StoreOk, RecordAt, Relative;
    assert StoreRelative(stores[i], entries);
    assert RelativeAt(entries, stores[i].entryStart, j);
  }

  lemma OffsetsFollow(d: Contents, plan: Plan, body: Stores, j: nat)
    requires j < |plan.entries|
    requires Partitioned(d, body.stores, body.entries, body.cursor) && AllRelative(body.stores, body.entries)
    requires SameStores(body.stores, plan.stores) && SameRecords(body.entries, plan.entries)
    requires body.entries[j].storeIndex < |body.stores| &&
             plan.entries[j] == Move(body.entries[j], plan.stores[body.entries[j].storeIndex].payloadBase)
    ensures OffsetRule(plan, j)
  {
    hide PrefixBytes, Partitioned, AllRelative, Wrap64;
    FirstPassOffset(d, body.stores, body.entries, body.cursor, j);
    var s := plan.stores[plan.entries[j].storeIndex];
    PrefixSame(body.entries, plan.entries, j);
    PrefixSame(body.entries, plan.entries, s.entryStart);
    WrapAdd(PrefixBytes(plan.entries, j) - PrefixBytes(plan.entries, s.entryStart), s.payloadBase);
  }

  /** A record lies between its store's first record and the end of the store's records. */
  lemma RecordSpan(d: seq<byte>, plan: Plan, j: nat)
    requires WellFormed(d, plan) && j < |plan.entries|
    ensures OwnedBy(plan.stores, plan.entries, j)
    ensures var e := plan.entries[j];
            var s := plan.stores[e.storeIndex];
            && StartsAt(plan.stores, e.storeIndex) && StoreOk(d, s, e.storeIndex, plan.entries)
            && EntryOk(d, e, s.blockSize, e.storeIndex)
            && s.headerOffset + STORE_V1_SIZE <= s.descriptorBase <= e.descriptorOffset
            && DescriptorEnd(e) <= RecordsEnd(s, plan.entries) <= plan.headerSize
  {
    EntryOwned(d, plan.stores, plan.entries, plan.headerSize, j);
    var s := plan.stores[plan.entries[j].storeIndex];
    RecordsGrow(plan.entries, s.entryStart, j);
    RecordsGrow(plan.entries, j + 1, s.entryStart + s.entryCount);
  }

  /** What the flashers rely on about one entry of a well-formed plan. */
  lemma EntryFacts(d: seq<byte>, plan: Plan, j: nat)
    requires WellFormed(d, plan) && j < |plan.entries|
    ensures var e := plan.entries[j];
            && e.storeIndex < |plan.stores|
            && 0 < plan.stores[e.storeIndex].blockSize <= MAX_PAYLOAD_DATA
            && EntryOk(d, e, plan.stores[e.storeIndex].blockSize, e.storeIndex)
            && DescriptorEnd(e) <= plan.headerSize <= |d|
  {
    RecordSpan(d, plan, j);
  }

  /** Descriptor records never overlap, in file order. */
  lemma RecordsDisjoint(d: seq<byte>, plan: Plan, j: nat, k: nat)
    requires WellFormed(d, plan) && j < k < |plan.entries|
    ensures DescriptorEnd(plan.entries[j]) <= plan.entries[k].descriptorOffset
  {
    RecordSpan(d, plan, j);
    RecordSpan(d, plan, k);
    var a, b := plan.entries[j].storeIndex, plan.entries[k].storeIndex;
    if a == b {
      var s := plan.stores[a];
      assert RecordAt(d, plan.entries, j, s.entryStart, s.blockSize, a, s.descriptorBase);
      assert RecordAt(d, plan.entries, k, s.entryStart, s.blockSize, a, s.descriptorBase);
      RecordsGrow(plan.entries, j + 1, k);
    } else if a < b {
      hide RecordBytes, Chained, EntryOk;
      assert RecordsEnd(plan.stores[a], plan.entries) <= plan.stores[b].headerOffset;
    } else {
      hide RecordBytes, Chained, EntryOk, RecordsEnd, Partitioned;
      StartsGrow(plan.stores, b + 1, a);
      assert false;
    }
  }

  /** Payload bytes described by store i's entries. */
  function StoreBytes(plan: Plan, i: nat): int
    requires i < |plan.stores| && plan.stores[i].entryStart + plan.stores[i].entryCount <= |plan.entries|
  {
    PrefixBytes(plan.entries, plan.stores[i].entryStart + plan.stores[i].entryCount)
    - PrefixBytes(plan.entries, plan.stores[i].entryStart)
  }

  /** Store i's described and declared payload end early enough that aligning what follows cannot wrap. */
  predicate Unwrapped(plan: Plan, i: nat)
    requires i < |plan.stores|
  {
    plan.stores[i].payloadBase + plan.stores[i].payloadSize + MAX_PAYLOAD_DATA <= TWO_64 &&
    plan.stores[i].entryStart + plan.stores[i].entryCount <= |plan.entries| &&
    plan.stores[i].payloadBase + StoreBytes(plan, i) < TWO_64
  }

  predicate NoWrap(plan: Plan) {
    forall i :: 0 <= i < |plan.stores| ==> Unwrapped(plan, i)
  }

  lemma {:induction false} WholeBlocks(d: seq<byte>, plan: Plan, i: nat, j: nat)
    requires WellFormed(d, plan) && i < |plan.stores|
    requires plan.stores[i].entryStart <= j <= plan.stores[i].entryStart + plan.stores[i].entryCount <= |plan.entries|
    ensures Multiple(
              PrefixBytes(plan.entries, j) - PrefixBytes(plan.entries, plan.stores[i].entryStart),
              plan.stores[i].blockSize)
    decreases j
  {
    hide Multiple;
    var s := plan.stores[i];
    assert StoreOk(d, s, i, plan.entries);
    if s.entryStart < j {
      WholeBlocks(d, plan, i, j - 1);
      assert RecordAt(d, plan.entries, j - 1, s.entryStart, s.blockSize, i, s.descriptorBase);
      WholeEntry(d, plan.entries[j - 1], s.blockSize, i);
      MultipleAdd(
        PrefixBytes(plan.entries, j - 1) - PrefixBytes(plan.entries, s.entryStart), plan.entries[j - 1].byteCount,
        s.blockSize);
    } else {
      MultipleOf(0, s.blockSize);
    }
  }

  lemma WholeEntry(d: seq<byte>, e: WriteEntry, blockSize: nat, i: nat)
    requires EntryOk(d, e, blockSize, i) && 0 < blockSize
    ensures Multiple(e.byteCount, blockSize)
  {
    MultipleOf(e.blockCount, blockSize);
  }

  /** Within a store each entry's payload starts where the previous one's ends, modulo 2^64. */
  lemma EntriesContiguous(d: seq<byte>, plan: Plan, first: u64, j: nat)
    requires WellFormed(d, plan) && PayloadRule(plan, first)
    requires j + 1 < |plan.entries| && plan.entries[j].storeIndex == plan.entries[j + 1].storeIndex
    ensures plan.entries[j + 1].payloadOffset ==
            Wrap64(plan.entries[j].payloadOffset as int + plan.entries[j].byteCount as int)
  {
    assert OffsetRule(plan, j) && OffsetRule(plan, j + 1);
    var s := plan.stores[plan.entries[j].storeIndex];
    assert PrefixBytes(plan.entries, j + 1) == PrefixBytes(plan.entries, j) + plan.entries[j].byteCount;
    hide PrefixBytes, WellFormed, PayloadRule;
    WrapAdd(
      s.payloadBase as int + PrefixBytes(plan.entries, j) - PrefixBytes(plan.entries, s.entryStart),
      plan.entries[j].byteCount);
  }

  lemma BaseAligned(d: seq<byte>, plan: Plan, first: u64, i: nat)
    requires WellFormed(d, plan) && PayloadRule(plan, first) && NoWrap(plan) && first <= plan.headerSize < 2 * MAX_FILE
    requires i < |plan.stores|
    ensures Multiple(plan.stores[i].payloadBase, plan.stores[i].blockSize)
    ensures i > 0 ==> plan.stores[i - 1].payloadBase + plan.stores[i - 1].payloadSize <= plan.stores[i].payloadBase
  {
    hide Multiple, AlignUp;
    assert StoreOk(d, plan.stores[i], i, plan.entries) && BaseRule(plan, first, i);
    if i > 0 {
      assert Unwrapped(plan, i - 1);
    }
  }

  lemma WrapNone(x: int)
    requires 0 <= x < TWO_64
    ensures Wrap64(x) == x
  {
  }

  lemma OffsetsPlain(plan: Plan, first: u64, j: nat)
    requires PayloadRule(plan, first) && NoWrap(plan) && j < |plan.entries|
    ensures OwnedBy(plan.stores, plan.entries, j)
    ensures var s := plan.stores[plan.entries[j].storeIndex];
            && s.entryStart <= |plan.entries|
            && plan.entries[j].payloadOffset as int ==
               s.payloadBase + PrefixBytes(plan.entries, j) - PrefixBytes(plan.entries, s.entryStart)
  {
    hide PrefixBytes, Wrap64;
    assert OffsetRule(plan, j);
    var i := plan.entries[j].storeIndex;
    var s := plan.stores[i];
    assert Unwrapped(plan, i);
    hide PayloadRule, NoWrap;
    PrefixGrows(plan.entries, s.entryStart, j);
    PrefixGrows(plan.entries, j, s.entryStart + s.entryCount);
    var rel := PrefixBytes(plan.entries, j) - PrefixBytes(plan.entries, s.entryStart);
    assert 0 <= s.payloadBase + rel < TWO_64;
    hide *;
    WrapNone(s.payloadBase + rel);
  }

  lemma StoreFits(d: seq<byte>, plan: Plan, i: nat)
    requires WellFormed(d, plan) && i < |plan.stores|
    ensures plan.stores[i].entryStart + plan.stores[i].entryCount <= |plan.entries|
  {
  }

  /** Without 64-bit wrap, every store's payload base and every entry's payload offset is a
      multiple of the store's block size, and offsets are plain sums. */
  lemma PayloadAligned(d: seq<byte>, plan: Plan, first: u64, j: nat)
    requires WellFormed(d, plan) && PayloadRule(plan, first) && NoWrap(plan) && first <= plan.headerSize < 2 * MAX_FILE
    requires j < |plan.entries|
    ensures var e := plan.entries[j];
            && OwnedBy(plan.stores, plan.entries, j)
            && var s := plan.stores[e.storeIndex];
            && Multiple(s.payloadBase, s.blockSize) && Multiple(e.payloadOffset, s.blockSize)
            && s.entryStart <= |plan.entries|
            && e.payloadOffset as int ==
               s.payloadBase + PrefixBytes(plan.entries, j) - PrefixBytes(plan.entries, s.entryStart)
  {
    hide Multiple, PrefixBytes, WellFormed, PayloadRule, NoWrap;
    OffsetsPlain(plan, first, j);
    var i := plan.entries[j].storeIndex;
    var s := plan.stores[i];
    BaseAligned(d, plan, first, i);
    StoreFits(d, plan, i);
    WholeBlocks(d, plan, i, j);
    MultipleAdd(s.payloadBase, PrefixBytes(plan.entries, j) - PrefixBytes(plan.entries, s.entryStart), s.blockSize);
  }

  /** A store whose declared size covers its described bytes ends before every later store begins. */
  lemma {:induction false} StoresApart(d: seq<byte>, plan: Plan, first: u64, i: nat, k: nat)
    requires WellFormed(d, plan) && PayloadRule(plan, first) && NoWrap(plan) && first <= plan.headerSize < 2 * MAX_FILE
    requires i < k < |plan.stores|
    requires Unwrapped(plan, i) && StoreBytes(plan, i) <= plan.stores[i].payloadSize
    ensures plan.stores[i].payloadBase + StoreBytes(plan, i) <= plan.stores[k].payloadBase
    decreases k
  {
    BaseAligned(d, plan, first, k);
    if i + 1 < k {
      StoresApart(d, plan, first, i, k - 1);
    }
  }
}
