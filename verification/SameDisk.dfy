/** The two flashers against one meaning: on a device that does not fault, and with the described
    payload in the file, the direct flasher and the streaming flasher stop at the same location of
    the same entry, or not at all, and leave the same disk. */
module SameDisk {
  import opened Bytes
  import opened BlockIo
  import opened FfuLayout
  import opened StreamFlash
  import opened StreamLaws
  import opened StreamRuns
  import opened DirectFlash
  import opened DirectLaws
  import PlanFacts
  import ParserAgreement

  // ----- where flashing stops -----

  /** The first location of entry j from l on that cannot be written. */
  function FirstUnfit(header: seq<byte>, plan: Plan, media: Media, j: nat, l: nat): (m: nat)
    requires j < |plan.entries| && l <= plan.entries[j].locationCount
    ensures l <= m <= plan.entries[j].locationCount
    ensures m < plan.entries[j].locationCount ==> !LocationFits(header, plan, media, j, m)
    ensures forall k :: l <= k < m ==> LocationFits(header, plan, media, j, k)
    decreases plan.entries[j].locationCount - l
  {
    if l == plan.entries[j].locationCount || !LocationFits(header, plan, media, j, l) then l
    else FirstUnfit(header, plan, media, j, l + 1)
  }

  /** The first entry from i on that does not fit the medium. */
  function FirstBad(header: seq<byte>, plan: Plan, media: Media, i: nat): (k: nat)
    requires i <= |plan.entries|
    ensures i <= k <= |plan.entries|
    ensures forall j :: i <= j < k ==> EntryFits(header, plan, media, j)
    ensures k < |plan.entries| ==> !EntryFits(header, plan, media, k)
    decreases |plan.entries| - i
  {
    if i == |plan.entries| || !EntryFits(header, plan, media, i) then i
    else FirstBad(header, plan, media, i + 1)
  }

  /** The medium when flashing the payload w stops at entry k: everything before it, and its
      locations up to the one that cannot be written. */
  function Halted(img: seq<byte>, header: seq<byte>, plan: Plan, media: Media, w: seq<byte>, k: nat): seq<byte>
    requires k <= |plan.entries| && |w| == PrefixBytes(plan.entries, |plan.entries|)
  {
    PlanFacts.PrefixGrows(plan.entries, k, |plan.entries|);
    if k == |plan.entries| then Replay(img, header, plan, w, k)
    else
      PlanFacts.PrefixGrows(plan.entries, k + 1, |plan.entries|);
      Landed(
        Replay(img, header, plan, w, k), header, plan.entries[k], BlockSizeOf(plan, k), EntryPayload(plan, w, k),
        FirstUnfit(header, plan, media, k, 0))
  }

  // ----- the direct flasher -----

  /** Location by location, the direct flasher lands what fits and stops at what does not. */
  lemma {:induction false} LocationsHalt(f: Contents, plan: Plan, j: nat, l: nat, st: u64, d: Disk, base: seq<byte>)
    requires d.Valid() && d.Writable() && d.Quiet() && j < |plan.entries| && l <= plan.entries[j].locationCount
    requires !IsError(st)
    requires Multiple(plan.entries[j].byteCount, d.media.blockSize) && 0 < plan.entries[j].byteCount
    requires plan.entries[j].payloadOffset + plan.entries[j].byteCount <= |f|
    requires d.image == Landed(base, f, plan.entries[j], BlockSizeOf(plan, j), Payload(f, plan.entries[j]), l)
    ensures var r := FlashLocations(f, plan.entries[j], BlockSizeOf(plan, j), l, st, d, true);
            var m := FirstUnfit(f, plan, d.media, j, l);
            && r.disk.image == Landed(base, f, plan.entries[j], BlockSizeOf(plan, j), Payload(f, plan.entries[j]), m)
            && (IsError(r.status) <==> m < plan.entries[j].locationCount)
    decreases plan.entries[j].locationCount - l
  {
    hide Admit, WriteChunks, Multiple, ByteOffset, Target, Payload, LocationFits, Splice, Locate, Disk.Quiet;
    var e, bs := plan.entries[j], BlockSizeOf(plan, j);
    if l < e.locationCount {
      AdmitIsFit(f, plan, d.media, j, l);
      var lba := Admit(f, e, bs, d.media, l);
      if lba.Ok? {
        AdmittedTarget(f, e, bs, d.media, l);
        FitsInBytes(f, plan, d.media, j, l);
        ChunksZero(f, e, lba.value, d);
        NoneIsMultiple(d.media.blockSize);
        QuietChunks(f, e, lba.value, 0, SUCCESS, d);
        var r := WriteChunks(f, e, lba.value, 0, SUCCESS, d, true);
        LocationsHalt(f, plan, j, l + 1, r.status, r.disk, base);
      }
    }
  }

  lemma FitsWhole(header: seq<byte>, plan: Plan, media: Media, j: nat)
    requires j < |plan.entries|
    ensures EntryFits(header, plan, media, j) <==>
            FirstUnfit(header, plan, media, j, 0) == plan.entries[j].locationCount
  {
  }

  /** The payload of entry k inside the whole described stream. */
  lemma {:induction false} DescribedEntry(f: Contents, plan: Plan, k: nat, n: nat)
    requires k < n <= |plan.entries| && InFile(f, plan, n)
    ensures PrefixBytes(plan.entries, k + 1) <= |Described(f, plan, n)|
    ensures EntryPayload(plan, Described(f, plan, n), k) == Payload(f, plan.entries[k])
    decreases n
  {
    hide Payload;
    assert PrefixBytes(plan.entries, n) == PrefixBytes(plan.entries, n - 1) + plan.entries[n - 1].byteCount;
    if k < n - 1 {
      DescribedEntry(f, plan, k, n - 1);
    }
  }

  /** A committed entry loop, from an entry in front of which everything has been replayed. */
  lemma {:induction false} EntriesHalt(f: Contents, plan: Plan, i: nat, st: u64, d: Disk, img: seq<byte>)
    requires Runnable(f, plan, d) && d.Quiet() && i <= |plan.entries| && InFile(f, plan, |plan.entries|) && !IsError(st)
    requires PrefixBytes(plan.entries, i) <= |Described(f, plan, |plan.entries|)|
    requires d.image == Replay(img, f, plan, Described(f, plan, |plan.entries|), i)
    ensures var r := FlashEntries(f, plan, i, st, d, true);
            var k := FirstBad(f, plan, d.media, i);
            && r.disk.image == Halted(img, f, plan, d.media, Described(f, plan, |plan.entries|), k)
            && (IsError(r.status) <==> k < |plan.entries|)
    decreases |plan.entries| - i
  {
    hide FlashLocations, Described, EntryFits, PlanFacts.WellFormed, Disk.Valid, Disk.Quiet, Landed, LocationFits,
      Payload;
    if i < |plan.entries| {
      EntryBasics(f, plan, i);
      FitsWhole(f, plan, d.media, i);
      var e, bs := plan.entries[i], BlockSizeOf(plan, i);
      var w := Described(f, plan, |plan.entries|);
      DescribedEntry(f, plan, i, |plan.entries|);
      if Multiple(e.byteCount, d.media.blockSize) {
        LandedNone(d.image, f, e, bs, Payload(f, e));
        LocationsHalt(f, plan, i, 0, st, d, d.image);
        var r := FlashLocations(f, e, bs, 0, st, d, true);
        if !IsError(r.status) {
          EntriesHalt(f, plan, i + 1, r.status, r.disk, img);
        }
      } else {
        MisalignedNeverFits(f, plan, d.media, i);
        MisalignedAtOnce(f, plan, d.media, i);
        LandedNone(d.image, f, e, bs, Payload(f, e));
      }
    }
  }

  lemma LandedNone(img: seq<byte>, header: seq<byte>, e: WriteEntry, blockSize: nat, payload: seq<byte>)
    ensures Landed(img, header, e, blockSize, payload, 0) == img
  {
  }

  lemma MisalignedAtOnce(header: seq<byte>, plan: Plan, media: Media, j: nat)
    requires j < |plan.entries| && 0 < media.blockSize && !Multiple(plan.entries[j].byteCount, media.blockSize)
    ensures FirstUnfit(header, plan, media, j, 0) == 0
  {
  }

  // ----- the streaming flasher -----

  lemma {:induction false} StopIsUnfit(s: Stream, j: nat, l: nat, media: Media)
    requires j < |s.plan.entries| && l <= s.plan.entries[j].locationCount
    requires 0 < s.mediaBlock == media.blockSize && !s.dryRun
    ensures StopsAt(s, s.plan.entries[j], BlockSizeOf(s.plan, j), l, media) == FirstUnfit(s.header, s.plan, media, j, l)
    decreases s.plan.entries[j].locationCount - l
  {
    hide Locate, Refusal;
    if l < s.plan.entries[j].locationCount {
      StopIsUnfit(s, j, l + 1, media);
    }
  }

  /** What completing an entry does on a device that does not fault. */
  lemma CompleteHalts(s: Stream, d: Disk, img: seq<byte>, w: seq<byte>)
    requires Tracks(s, d, img, w) && Pending(s) && !s.dryRun && d.outcomes == []
    requires d.image == Replay(img, s.header, s.plan, w, s.index)
    requires PrefixBytes(s.plan.entries, s.index + 1) <= |w|
    requires s.data[..s.received] == EntryPayload(s.plan, w, s.index)
    ensures var e, bs := s.plan.entries[s.index], BlockSizeOf(s.plan, s.index);
            var m := FirstUnfit(s.header, s.plan, d.media, s.index, 0);
            && s.plan.stores[e.storeIndex].blockSize == bs && d.Valid() && 0 < s.mediaBlock && e.byteCount <= |s.data|
            && var r := WriteFrom(s, e, bs, 0, s.lastSector, d);
            && (IsError(r.status) <==> m < e.locationCount)
            && r.disk.image == Landed(d.image, s.header, e, bs, EntryPayload(s.plan, w, s.index), m)
  {
    hide Tracks, WriteFrom, EntryPayload, Replay, Landed, Locate, Refusal;
    TracksSound(s, d, img, w);
    EntryReadyWhenSound(s, d);
    var e, bs := s.plan.entries[s.index], BlockSizeOf(s.plan, s.index);
    LandedNone(d.image, s.header, e, bs, s.data[..e.byteCount]);
    QuietWrite(s, e, bs, 0, s.lastSector, d, d.image, s.lastSector);
    StopIsUnfit(s, s.index, 0, d.media);
    var m := StopsAt(s, e, bs, 0, d.media);
    if m < e.locationCount {
      StatusIsError(s, e, bs, m, d.media);
    }
  }

  lemma StatusIsError(s: Stream, e: WriteEntry, blockSize: u32, l: nat, media: Media)
    requires 0 < s.mediaBlock && LocationStatus(s, e, blockSize, l, media) != SUCCESS
    ensures IsError(LocationStatus(s, e, blockSize, l, media))
  {
  }

  /** One turn of the payload loop on the rest of a described stream: an entry that fits is
      replayed, one that does not leaves the medium halted at it. */
  lemma TurnHalts(s: Stream, d: Disk, img: seq<byte>, w: seq<byte>, data: seq<byte>)
    requires Tracks(s, d, img, w) && !Pending(s) && !s.dryRun && d.outcomes == [] && |data| > 0
    requires |w| + |data| == PrefixBytes(s.plan.entries, |s.plan.entries|)
    ensures Steppable(s) && d.Valid() && s.index < |s.plan.entries|
    ensures var t := Step(s, d, data);
            && Tracks(t.stream, t.disk, img, w + data[..t.took])
            && t.stream.header == s.header && t.stream.dryRun == s.dryRun
            && (IsError(t.status) ==>
                  && Pending(t.stream) && t.stream.index == s.index && !EntryFits(s.header, s.plan, d.media, s.index)
                  && t.disk.image == Halted(img, s.header, s.plan, d.media, w + data, s.index))
            && (!IsError(t.status) ==>
                  && !Pending(t.stream) && s.index <= t.stream.index <= s.index + 1
                  && (t.stream.index > s.index ==> EntryFits(s.header, s.plan, d.media, s.index)))
  {
    hide Tracks, WriteFrom, EntryPayload, Landed, EntryFits, Sound, Halted, Replay, PrefixBytes, EntryReady, Disk.Valid,
      Disk.Quiet;
    TracksSound(s, d, img, w);
    NotExhausted(s, d, img, w, data);
    StepTracks(s, d, img, w, data);
    StepSound(s, d, data);
    EntryReadyWhenSound(s, d);
    var e := s.plan.entries[s.index];
    var take := Min(|data|, e.byteCount - s.received);
    var chunk := data[..take];
    var s1 := Collected(s, chunk);
    if s1.received == e.byteCount {
      CompleteTracks(s, d, img, w, chunk);
      PrefixNext(s.plan.entries, s.index);
      hide Overlay;
      StillReplay(s, d, img, w);
      ReplayPrefix(img, s.header, s.plan, w, chunk, s.index);
      CompleteHalts(s1, d, img, w + chunk);
      FitsWhole(s.header, s.plan, d.media, s.index);
      TakenAll(w, data, take);
      HaltedHere(img, s.header, s.plan, d.media, w, chunk, data[take..], s.index);
    }
  }

  /** Stopping at entry k, in terms of the bytes up to its end. */
  lemma HaltedHere(
    img: seq<byte>, header: seq<byte>, plan: Plan, media: Media, w: seq<byte>, chunk: seq<byte>, rest: seq<byte>,
    k: nat)
    requires k < |plan.entries| && PrefixBytes(plan.entries, k) <= |w|
    requires PrefixBytes(plan.entries, k + 1) <= |w| + |chunk|
    requires |w| + |chunk| + |rest| == PrefixBytes(plan.entries, |plan.entries|)
    ensures Halted(img, header, plan, media, w + chunk + rest, k) ==
            Landed(
              Replay(img, header, plan, w, k), header, plan.entries[k], BlockSizeOf(plan, k),
              EntryPayload(plan, w + chunk, k),
              FirstUnfit(header, plan, media, k, 0))
  {
    hide Landed, FirstUnfit, PrefixBytes, EntryPayload;
    ReplayPrefix(img, header, plan, w, chunk, k);
    ReplayPrefix(img, header, plan, w + chunk, rest, k);
    PayloadPrefix(plan, w + chunk, rest, k);
  }

  lemma PayloadPrefix(plan: Plan, w: seq<byte>, more: seq<byte>, k: nat)
    requires k < |plan.entries| && PrefixBytes(plan.entries, k + 1) <= |w|
    ensures EntryPayload(plan, w + more, k) == EntryPayload(plan, w, k)
  {
  }

  lemma StillReplay(s: Stream, d: Disk, img: seq<byte>, w: seq<byte>)
    requires Tracks(s, d, img, w) && !Pending(s) && !s.dryRun
    ensures PrefixBytes(s.plan.entries, s.index) <= |w|
    ensures d.image == Replay(img, s.header, s.plan, w, s.index)
  {
  }

  lemma NotExhausted(s: Stream, d: Disk, img: seq<byte>, w: seq<byte>, data: seq<byte>)
    requires Tracks(s, d, img, w) && |data| > 0 && |w| + |data| == PrefixBytes(s.plan.entries, |s.plan.entries|)
    ensures s.index < |s.plan.entries|
  {
  }

  /** With nothing left to come, the plan is done. */
  lemma Exhausted(s: Stream, d: Disk, img: seq<byte>, w: seq<byte>)
    requires Tracks(s, d, img, w) && !Pending(s) && |w| == PrefixBytes(s.plan.entries, |s.plan.entries|)
    ensures s.index == |s.plan.entries| && Done(s)
  {
    TracksSound(s, d, img, w);
    DoneIsConsumed(s, d);
    hide Sound, Replay;
  }

  lemma FirstBadNext(header: seq<byte>, plan: Plan, media: Media, i: nat)
    requires i < |plan.entries|
    ensures FirstBad(header, plan, media, i) ==
            if EntryFits(header, plan, media, i) then FirstBad(header, plan, media, i + 1) else i
  {
  }

  lemma HaltedNowhere(img: seq<byte>, header: seq<byte>, plan: Plan, media: Media, w: seq<byte>)
    requires |w| == PrefixBytes(plan.entries, |plan.entries|)
    ensures Halted(img, header, plan, media, w, |plan.entries|) == Replay(img, header, plan, w, |plan.entries|)
  {
  }

  /** A run over the whole rest of a described stream. */
  lemma {:induction false} RunHalts(s: Stream, d: Disk, img: seq<byte>, w: seq<byte>, data: seq<byte>)
    requires Tracks(s, d, img, w) && !Pending(s) && !s.dryRun && d.outcomes == []
    requires |w| + |data| == PrefixBytes(s.plan.entries, |s.plan.entries|)
    ensures Steppable(s) && d.Valid() && s.index <= |s.plan.entries|
    ensures var r := Run(s, d, data);
            var k := FirstBad(s.header, s.plan, d.media, s.index);
            && (IsError(r.status) <==> k < |s.plan.entries|) && (Done(r.stream) <==> k == |s.plan.entries|)
            && r.disk.image == Halted(img, s.header, s.plan, d.media, w + data, k)
    decreases |data|, |s.plan.entries| - s.index
  {
    hide Tracks, Step, Run, EntryFits, Sound, Replay, Halted, FirstBad, PrefixBytes, Consumed;
    TracksSound(s, d, img, w);
    SoundIndex(s, d);
    RunTurn(s, d, data);
    if data == [] {
      Exhausted(s, d, img, w);
      StillReplay(s, d, img, w);
      assert w + data == w;
      HaltedNowhere(img, s.header, s.plan, d.media, w);
    } else {
      TurnHalts(s, d, img, w, data);
      FirstBadNext(s.header, s.plan, d.media, s.index);
      var t := Step(s, d, data);
      if !IsError(t.status) {
        var rest := data[t.took..];
        TakenAll(w, data, t.took);
        RunHalts(t.stream, t.disk, img, w + data[..t.took], rest);
      }
    }
  }

  // ----- the header alone is enough -----

  predicate SamePlan(p: Plan, q: Plan) {
    p.stores == q.stores && p.entries == q.entries
  }

  lemma WordInPrefix(f: seq<byte>, n: nat, o: nat)
    requires o + 4 <= n <= |f|
    ensures RdLe32(f[..n], o) == RdLe32(f, o)
  {
    assert f[..n][o] == f[o] && f[..n][o + 1] == f[o + 1] && f[..n][o + 2] == f[o + 2] && f[..n][o + 3] == f[o + 3];
  }

  lemma LocateInPrefix(f: Contents, n: nat, e: WriteEntry, blockSize: u32, mediaBlock: u32, l: nat)
    requires n <= |f| && PlanFacts.DescriptorEnd(e) <= n && l < e.locationCount && 0 < mediaBlock
    ensures Locate(f[..n], e, blockSize, mediaBlock, l) == Locate(f, e, blockSize, mediaBlock, l)
    ensures Target(f[..n], e, blockSize, l) == Target(f, e, blockSize, l)
  {
    hide RdLe32, TargetByte;
    var o := LocationOffset(e, l);
    assert f[..n][o..o + 8] == f[o..o + 8];
    WordInPrefix(f, n, o + 4);
  }

  lemma {:induction false} LandedInPrefix(
    img: seq<byte>, f: Contents, n: nat, e: WriteEntry, blockSize: u32, payload: seq<byte>, k: nat)
    requires n <= |f| && PlanFacts.DescriptorEnd(e) <= n && k <= e.locationCount
    ensures Landed(img, f[..n], e, blockSize, payload, k) == Landed(img, f, e, blockSize, payload, k)
  {
    hide Target;
    if k > 0 {
      LandedInPrefix(img, f, n, e, blockSize, payload, k - 1);
      LocateInPrefix(f, n, e, blockSize, 1, k - 1);
    }
  }

  /** Every descriptor of the plan ends in the first n bytes. */
  predicate DescribedIn(plan: Plan, n: nat) {
    forall j :: 0 <= j < |plan.entries| ==> PlanFacts.DescriptorEnd(plan.entries[j]) <= n
  }

  lemma {:induction false} ReplayInPrefix(img: seq<byte>, f: Contents, n: nat, p: Plan, q: Plan, w: seq<byte>, k: nat)
    requires n <= |f| && SamePlan(p, q) && DescribedIn(p, n) && k <= |p.entries| && PrefixBytes(p.entries, k) <= |w|
    ensures Replay(img, f[..n], p, w, k) == Replay(img, f, q, w, k)
  {
    hide Landed;
    if k > 0 {
      ReplayInPrefix(img, f, n, p, q, w, k - 1);
      LandedInPrefix(
        Replay(img, f, q, w, k - 1), f, n, p.entries[k - 1], BlockSizeOf(p, k - 1), EntryPayload(p, w, k - 1),
        p.entries[k - 1].locationCount);
    }
  }

  lemma {:induction false} UnfitInPrefix(f: Contents, n: nat, p: Plan, q: Plan, media: Media, j: nat, l: nat)
    requires n <= |f| && SamePlan(p, q) && DescribedIn(p, n) && j < |p.entries| && l <= p.entries[j].locationCount
    ensures FirstUnfit(f[..n], p, media, j, l) == FirstUnfit(f, q, media, j, l)
    decreases p.entries[j].locationCount - l
  {
    hide Locate, Refusal;
    if l < p.entries[j].locationCount {
      if 0 < media.blockSize {
        LocateInPrefix(f, n, p.entries[j], BlockSizeOf(p, j), media.blockSize, l);
      }
      UnfitInPrefix(f, n, p, q, media, j, l + 1);
    }
  }

  lemma {:induction false} BadInPrefix(f: Contents, n: nat, p: Plan, q: Plan, media: Media, i: nat)
    requires n <= |f| && SamePlan(p, q) && DescribedIn(p, n) && i <= |p.entries|
    ensures FirstBad(f[..n], p, media, i) == FirstBad(f, q, media, i)
    decreases |p.entries| - i
  {
    hide EntryFits, FirstUnfit;
    if i < |p.entries| {
      FitsWhole(f[..n], p, media, i);
      FitsWhole(f, q, media, i);
      UnfitInPrefix(f, n, p, q, media, i, 0);
      BadInPrefix(f, n, p, q, media, i + 1);
    }
  }

  lemma HaltedInPrefix(img: seq<byte>, f: Contents, n: nat, p: Plan, q: Plan, media: Media, w: seq<byte>, k: nat)
    requires n <= |f| && SamePlan(p, q) && DescribedIn(p, n) && k <= |p.entries|
    requires |w| == PrefixBytes(p.entries, |p.entries|)
    ensures Halted(img, f[..n], p, media, w, k) == Halted(img, f, q, media, w, k)
  {
    hide Landed, FirstUnfit, Replay;
    PlanFacts.PrefixGrows(p.entries, k, |p.entries|);
    ReplayInPrefix(img, f, n, p, q, w, k);
    if k < |p.entries| {
      PlanFacts.PrefixGrows(p.entries, k + 1, |p.entries|);
      UnfitInPrefix(f, n, p, q, media, k, 0);
      LandedInPrefix(
        Replay(img, f, q, w, k), f, n, p.entries[k], BlockSizeOf(p, k), EntryPayload(p, w, k),
        FirstUnfit(f, q, media, k, 0));
    }
  }

  lemma FitsIsNoBad(header: seq<byte>, plan: Plan, media: Media)
    ensures PlanFits(header, plan, media) <==> FirstBad(header, plan, media, 0) == |plan.entries|
  {
  }

  // ----- main results -----

  /** A file both flashers can be given: accepted, its described payload in it, and every entry at
      most as large as one packet. */
  predicate Flashable(f: Contents, plan: Plan) {
    && Parse(FileView, f) == Ok(plan) && InFile(f, plan, |plan.entries|)
    && forall j :: 0 <= j < |plan.entries| ==> plan.entries[j].byteCount <= MAX_PAYLOAD_DATA
  }

  /** What a device without faults must be for a run. */
  predicate Faultless(d: Disk) {
    d.Valid() && d.Writable() && d.outcomes == []
  }

  lemma FlashableFacts(f: Contents, plan: Plan)
    requires Flashable(f, plan)
    ensures PlanFacts.WellFormed(f, plan) && Indexed(plan) && plan.headerSize <= |f| && 0 < |plan.entries|
    ensures DescribedIn(plan, plan.headerSize)
    ensures Parse(HeaderBytes, f[..plan.headerSize]) == Ok(plan.(fileSize := plan.headerSize))
  {
    hide Parse, PlanFacts.EntryOk, InFile;
    PlanFacts.PlanWellFormed(FileView, f);
    ParsedIsIndexed(f, plan);
    forall j | 0 <= j < |plan.entries|
      ensures PlanFacts.DescriptorEnd(plan.entries[j]) <= plan.headerSize
    {
      PlanFacts.EntryFacts(f, plan, j);
    }
    assert PlanFacts.StoreOk(f, plan.stores[0], 0, plan.entries);
    ParserAgreement.ParsersAgree(f, plan.headerSize);
  }

  /** The direct flasher always leaves the medium halted at the first entry that does not fit. */
  lemma DirectHalts(f: Contents, plan: Plan, d: Disk, flush: Option<u64>)
    requires Flashable(f, plan) && Faultless(d)
    ensures Indexed(plan)
    ensures var r := Flash(f, plan, d, true, flush);
            var k := FirstBad(f, plan, d.media, 0);
            && r.disk.image == Halted(d.image, f, plan, d.media, Described(f, plan, |plan.entries|), k)
            && (k == |plan.entries| && (flush.Some? ==> !IsError(flush.value)) ==> !IsError(r.status))
  {
    hide FlashEntries, FirstBad, Halted, Described, Parse, PlanFacts.WellFormed;
    FlashableFacts(f, plan);
    NothingReplayed(f, plan, d.image);
    EntriesHalt(f, plan, 0, SUCCESS, d, d.image);
  }

  lemma InitFlashable(f: Contents, plan: Plan, d: Disk)
    requires Flashable(f, plan) && Faultless(d)
    ensures plan.headerSize <= |f|
    ensures var i := Init(f[..plan.headerSize], d.media, true);
            && i.status == SUCCESS && i.stream.header == f[..plan.headerSize] && !i.stream.dryRun
            && SamePlan(i.stream.plan, plan) && i.stream.index == 0 && !Pending(i.stream)
            && Tracks(i.stream, d, d.image, [])
  {
    hide Parse, Tracks, PlanFacts.WellFormed, PlanFacts.EntryOk, Zeros;
    FlashableFacts(f, plan);
    EntryBasics(f, plan, 0);
    var max := MaxBytes(plan.entries, |plan.entries|);
    assert max > 0;
    hide MaxBytes;
    InitTracks(f[..plan.headerSize], d, true);
  }

  /** From a fresh context, in terms of the context's own header and plan. */
  lemma FeedHalts(s: Stream, d: Disk, img: seq<byte>, w: seq<byte>)
    requires Tracks(s, d, img, []) && !Pending(s) && !s.dryRun && d.outcomes == [] && s.index == 0
    requires |w| == PrefixBytes(s.plan.entries, |s.plan.entries|)
    ensures Sound(s, d)
    ensures var r := Feed(s, d, w);
            var k := FirstBad(s.header, s.plan, d.media, 0);
            && (r.status == SUCCESS <==> k == |s.plan.entries|) && (Done(r.stream) <==> k == |s.plan.entries|)
            && r.disk.image == Halted(img, s.header, s.plan, d.media, w, k)
  {
    hide Tracks, Sound, Run, Halted, FirstBad, PrefixBytes, Steppable, Disk.Valid;
    TracksSound(s, d, img, []);
    RunHalts(s, d, img, [], w);
    assert [] + w == w;
  }

  /** The streaming flasher, fed the described payload in one call, halts at the same place. */
  lemma StreamHalts(f: Contents, plan: Plan, d: Disk)
    requires Flashable(f, plan) && Faultless(d)
    ensures plan.headerSize <= |f|
    ensures var s := Init(f[..plan.headerSize], d.media, true).stream;
            var w := Described(f, plan, |plan.entries|);
            var k := FirstBad(f, plan, d.media, 0);
            && Sound(s, d)
            && var r := Feed(s, d, w);
            && (r.status == SUCCESS <==> k == |plan.entries|) && (Done(r.stream) <==> k == |plan.entries|)
            && r.disk.image == Halted(d.image, f, plan, d.media, w, k)
  {
    FlashableFacts(f, plan);
    InitFlashable(f, plan, d);
    hide *;
    FeedHalts(Init(f[..plan.headerSize], d.media, true).stream, d, d.image, Described(f, plan, |plan.entries|));
    BadInPrefix(f, plan.headerSize, Init(f[..plan.headerSize], d.media, true).stream.plan, plan, d.media, 0);
    HaltedInPrefix(
      d.image, f, plan.headerSize, Init(f[..plan.headerSize], d.media, true).stream.plan, plan, d.media,
      Described(f, plan, |plan.entries|), FirstBad(f, plan, d.media, 0));
  }
}
