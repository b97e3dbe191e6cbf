/** Laws of the streaming flasher over whole runs, with and without write faults. */
module StreamLaws {
  import opened Bytes
  import opened BlockIo
  import opened FfuLayout
  import opened StreamFlash
  import PlanFacts

  // ----- the meaning of an entry write -----

  /** Offset of location l in the descriptor of e. */
  function LocationOffset(e: WriteEntry, l: nat): nat {
    e.descriptorOffset + 8 + 8 * l
  }

  /** Byte address of location l. */
  function Target(header: seq<byte>, e: WriteEntry, blockSize: nat, l: nat): nat {
    if LocationOffset(e, l) + 8 <= |header| then TargetByte(RdLe32(header, LocationOffset(e, l) + 4), blockSize) else 0
  }

  /** An image after locations [0, k) of e have received the payload, in order. */
  function Landed(
    img: seq<byte>, header: seq<byte>, e: WriteEntry, blockSize: nat, payload: seq<byte>, k: nat): (r: seq<byte>)
    ensures |r| == |img|
  {
    if k == 0 then img
    else Splice(Landed(img, header, e, blockSize, payload, k - 1), Target(header, e, blockSize, k - 1), payload)
  }

  /** Byte p of the medium lies in the range of location l. */
  predicate Covers(header: seq<byte>, e: WriteEntry, blockSize: nat, n: nat, l: nat, p: nat) {
    Target(header, e, blockSize, l) <= p < Target(header, e, blockSize, l) + n
  }

  predicate SameAt(
    a: seq<byte>, b: seq<byte>, header: seq<byte>, e: WriteEntry, blockSize: nat, n: nat, lo: nat, hi: nat, p: nat)
    requires p < |a| == |b|
  {
    a[p] == b[p] || exists l :: lo <= l < hi && Covers(header, e, blockSize, n, l, p)
  }

  /** a and b differ at most inside the ranges of locations [lo, hi). */
  predicate AgreesBut(
    a: seq<byte>, b: seq<byte>, header: seq<byte>, e: WriteEntry, blockSize: nat, n: nat, lo: nat, hi: nat) {
    |a| == |b| && forall p :: 0 <= p < |a| ==> SameAt(a, b, header, e, blockSize, n, lo, hi, p)
  }

  lemma AgreesRefl(a: seq<byte>, header: seq<byte>, e: WriteEntry, blockSize: nat, n: nat, lo: nat, hi: nat)
    ensures AgreesBut(a, a, header, e, blockSize, n, lo, hi)
  {
  }

  /** No locations left: no difference left. */
  lemma AgreesNowhere(a: seq<byte>, b: seq<byte>, header: seq<byte>, e: WriteEntry, blockSize: nat, n: nat, lo: nat)
    requires AgreesBut(a, b, header, e, blockSize, n, lo, lo)
    ensures a == b
  {
    forall p | 0 <= p < |a|
      ensures a[p] == b[p]
    {
      assert SameAt(a, b, header, e, blockSize, n, lo, lo, p);
    }
  }

  /** Writing location lo on both sides removes it from the possible differences. */
  lemma AgreesAdvance(
    a: seq<byte>, b: seq<byte>, header: seq<byte>, e: WriteEntry, blockSize: nat, payload: seq<byte>, lo: nat, hi: nat)
    requires AgreesBut(a, b, header, e, blockSize, |payload|, lo, hi) && lo < hi
    requires Target(header, e, blockSize, lo) + |payload| <= |a|
    ensures var t := Target(header, e, blockSize, lo);
            AgreesBut(Splice(a, t, payload), Splice(b, t, payload), header, e, blockSize, |payload|, lo + 1, hi)
  {
    var t := Target(header, e, blockSize, lo);
    var a', b', next := Splice(a, t, payload), Splice(b, t, payload), lo + 1;
    forall p | 0 <= p < |a|
      ensures SameAt(a', b', header, e, blockSize, |payload|, next, hi, p)
    {
      SpliceAt(a, t, payload, p);
      SpliceAt(b, t, payload, p);
      assert SameAt(a, b, header, e, blockSize, |payload|, lo, hi, p);
      if a[p] != b[p] {
        var l :| lo <= l < hi && Covers(header, e, blockSize, |payload|, l, p);
        assert l == lo ==> a'[p] == b'[p];
      }
    }
  }

  /** Anything put inside the range of location l stays inside the differences. */
  lemma AgreesWithin(
    a: seq<byte>, b: seq<byte>, header: seq<byte>, e: WriteEntry, blockSize: nat, n: nat, lo: nat, hi: nat, l: nat,
    at: nat, junk: seq<byte>)
    requires AgreesBut(a, b, header, e, blockSize, n, lo, hi) && lo <= l < hi
    requires Target(header, e, blockSize, l) <= at && at + |junk| <= Target(header, e, blockSize, l) + n <= |a|
    ensures AgreesBut(Splice(a, at, junk), b, header, e, blockSize, n, lo, hi)
  {
    var a' := Splice(a, at, junk);
    forall p | 0 <= p < |a|
      ensures SameAt(a', b, header, e, blockSize, n, lo, hi, p)
    {
      SpliceAt(a, at, junk, p);
      assert SameAt(a, b, header, e, blockSize, n, lo, hi, p);
      if at <= p < at + |junk| {
        assert Covers(header, e, blockSize, n, l, p);
      }
    }
  }

  /** So does a whole or partial write at its start. */
  lemma AgreesScribble(
    a: seq<byte>, b: seq<byte>, header: seq<byte>, e: WriteEntry, blockSize: nat, n: nat, lo: nat, hi: nat, l: nat,
    junk: seq<byte>)
    requires AgreesBut(a, b, header, e, blockSize, n, lo, hi) && lo <= l < hi
    requires |junk| <= n && Target(header, e, blockSize, l) + n <= |a|
    ensures AgreesBut(Splice(a, Target(header, e, blockSize, l), junk), b, header, e, blockSize, n, lo, hi)
  {
    hide AgreesBut, Target, Splice;
    AgreesWithin(a, b, header, e, blockSize, n, lo, hi, l, Target(header, e, blockSize, l), junk);
  }

  // ----- one entry, through the device -----

  /** The context can write entry e of its plan: its descriptor is in the header and the device is usable. */
  predicate EntryReady(s: Stream, e: WriteEntry, blockSize: u32, d: Disk) {
    && d.Valid() && d.Writable() && s.mediaBlock == d.media.blockSize
    && e.byteCount <= |s.data|
    && PlanFacts.DescriptorEnd(e) <= |s.header|
  }

  /** A located write goes exactly to the target bytes. */
  lemma LocatedTarget(s: Stream, e: WriteEntry, blockSize: u32, d: Disk, l: nat)
    requires EntryReady(s, e, blockSize, d) && l < e.locationCount
    ensures ReadLocation(HeaderBytes, s.header, e, l).Ok?
    ensures var lba := Locate(s.header, e, blockSize, s.mediaBlock, l);
            lba.Ok? ==>
              && ByteOffset(lba.value, s.mediaBlock) == Target(s.header, e, blockSize, l)
              && e.byteCount % s.mediaBlock == 0
  {
  }

  /** One WriteBlocks call at a located address: written, refused untouched, or scribbled in range. */
  lemma DeviceWrite(d: Disk, lba: nat, target: nat, buf: seq<byte>)
    requires d.Valid() && ByteOffset(lba, d.media.blockSize) == target
    ensures var w := WriteBlocks(d, lba, buf);
            && (!IsError(w.status) ==> target + |buf| <= |d.image| && w.disk.image == Splice(d.image, target, buf))
            && (IsError(w.status) ==>
                  w.disk.image == d.image ||
                  (target + |buf| <= |d.image| &&
                   exists junk :: |junk| <= |buf| && w.disk.image == Splice(d.image, target, junk)))
  {
  }

  /** Whatever happens while an entry is written, the medium keeps agreeing with a base image
      outside the entry's own ranges; and if the write succeeds, exactly the entry has landed on
      that base, no matter what faults left inside those ranges before. */
  lemma {:induction false} EntryWriteEffect(
    s: Stream, e: WriteEntry, blockSize: u32, l: nat, last: u32, d: Disk, base: seq<byte>)
    requires EntryReady(s, e, blockSize, d) && l <= e.locationCount && !s.dryRun
    requires var n := e.locationCount;
             && AgreesBut(d.image, base, s.header, e, blockSize, e.byteCount, 0, n)
             && AgreesBut(d.image, Landed(base, s.header, e, blockSize, s.data[..e.byteCount], l),
                          s.header, e, blockSize, e.byteCount, l, n)
    ensures var r := WriteFrom(s, e, blockSize, l, last, d);
            && AgreesBut(r.disk.image, base, s.header, e, blockSize, e.byteCount, 0, e.locationCount)
            && (r.status == SUCCESS ==>
                  r.disk.image == Landed(base, s.header, e, blockSize, s.data[..e.byteCount], e.locationCount))
    decreases e.locationCount - l
  {
    hide Locate, EndSector, AgreesBut, Target;
    var payload := s.data[..e.byteCount];
    var n := e.locationCount;
    if l == n {
      AgreesNowhere(d.image, Landed(base, s.header, e, blockSize, payload, l), s.header, e, blockSize, e.byteCount, n);
    } else {
      var lba := Locate(s.header, e, blockSize, s.mediaBlock, l);
      if lba.Ok? {
        LocatedTarget(s, e, blockSize, d, l);
        var target := Target(s.header, e, blockSize, l);
        DeviceWrite(d, lba.value, target, payload);
        var w := WriteBlocks(d, lba.value, payload);
        hide WriteBlocks;
        if IsError(w.status) {
          if w.disk.image != d.image {
            var junk :| |junk| <= |payload| && w.disk.image == Splice(d.image, target, junk);
            AgreesScribble(d.image, base, s.header, e, blockSize, e.byteCount, 0, n, l, junk);
          }
        } else {
          AgreesScribble(d.image, base, s.header, e, blockSize, e.byteCount, 0, n, l, payload);
          AgreesAdvance(d.image, Landed(base, s.header, e, blockSize, payload, l), s.header, e, blockSize, payload, l,
                        n);
          EntryWriteEffect(s, e, blockSize, l + 1, EndSector(lba.value, e.byteCount, s.mediaBlock), w.disk, base);
        }
      }
    }
  }

  lemma {:induction false} DryWriteEffect(s: Stream, e: WriteEntry, blockSize: u32, l: nat, last: u32, d: Disk)
    requires d.Valid() && 0 < s.mediaBlock && e.byteCount <= |s.data| && l <= e.locationCount && s.dryRun
    ensures WriteFrom(s, e, blockSize, l, last, d).disk == d
    decreases e.locationCount - l
  {
    hide Locate, EndSector;
    if l < e.locationCount {
      var lba := Locate(s.header, e, blockSize, s.mediaBlock, l);
      if lba.Ok? {
        DryWriteEffect(s, e, blockSize, l + 1, EndSector(lba.value, e.byteCount, s.mediaBlock), d);
      }
    }
  }

  // ----- whole runs -----

  /** What initialisation establishes and every step keeps, whatever the device does. */
  predicate Sound(s: Stream, d: Disk) {
    && Steppable(s) && d.Valid() && d.Writable() && s.mediaBlock == d.media.blockSize
    && PlanFacts.WellFormed(s.header, s.plan)
    && s.index <= |s.plan.entries| && (s.index == |s.plan.entries| ==> s.received == 0)
    && (forall j :: 0 <= j < |s.plan.entries| ==> s.plan.entries[j].byteCount <= |s.data|)
  }

  /** The current entry is complete in the buffer but its write failed; it will be retried. */
  predicate Pending(s: Stream) {
    s.index < |s.plan.entries| && s.received == s.plan.entries[s.index].byteCount
  }

  /** Bytes consumed so far. */
  function Consumed(s: Stream): nat
    requires s.index <= |s.plan.entries|
  {
    PrefixBytes(s.plan.entries, s.index) + s.received
  }

  function EntryPayload(plan: Plan, w: seq<byte>, k: nat): seq<byte>
    requires k < |plan.entries| && PrefixBytes(plan.entries, k + 1) <= |w|
  {
    w[PrefixBytes(plan.entries, k)..PrefixBytes(plan.entries, k + 1)]
  }

  function BlockSizeOf(plan: Plan, k: nat): u32
    requires k < |plan.entries|
  {
    var i := plan.entries[k].storeIndex;
    if i < |plan.stores| then plan.stores[i].blockSize else 0
  }

  /** The image after the first k entries, cut from the payload stream w, have been written to
      all their locations in order: what flashing means, with no buffer, packets or faults. */
  function Replay(img: seq<byte>, header: seq<byte>, plan: Plan, w: seq<byte>, k: nat): (r: seq<byte>)
    requires k <= |plan.entries| && PrefixBytes(plan.entries, k) <= |w|
    ensures |r| == |img|
  {
    if k == 0 then img
    else
      Landed(
        Replay(img, header, plan, w, k - 1), header, plan.entries[k - 1], BlockSizeOf(plan, k - 1),
        EntryPayload(plan, w, k - 1), plan.entries[k - 1].locationCount)
  }

  /** The state after a run that started on image img and has accepted the bytes w. */
  predicate Tracks(s: Stream, d: Disk, img: seq<byte>, w: seq<byte>) {
    && Sound(s, d) && |w| == Consumed(s)
    && s.received <= |s.data| && s.data[..s.received] == w[PrefixBytes(s.plan.entries, s.index)..]
    && if s.dryRun then d.image == img
       else
         var ideal := Replay(img, s.header, s.plan, w, s.index);
         if Pending(s) then
           var e := s.plan.entries[s.index];
           AgreesBut(d.image, ideal, s.header, e, BlockSizeOf(s.plan, s.index), e.byteCount, 0, e.locationCount)
         else d.image == ideal
  }

  lemma {:induction false} ReplayPrefix(
    img: seq<byte>, header: seq<byte>, plan: Plan, w: seq<byte>, more: seq<byte>, k: nat)
    requires k <= |plan.entries| && PrefixBytes(plan.entries, k) <= |w|
    ensures Replay(img, header, plan, w + more, k) == Replay(img, header, plan, w, k)
  {
    if k > 0 {
      ReplayPrefix(img, header, plan, w, more, k - 1);
      assert EntryPayload(plan, w + more, k - 1) == EntryPayload(plan, w, k - 1);
    }
  }

  lemma EntryReadyWhenSound(s: Stream, d: Disk)
    requires Sound(s, d) && s.index < |s.plan.entries|
    ensures var e := s.plan.entries[s.index];
            && 0 < e.byteCount
            && EntryReady(s, e, BlockSizeOf(s.plan, s.index), d)
            && s.plan.stores[e.storeIndex].blockSize == BlockSizeOf(s.plan, s.index)
  {
    PlanFacts.EntryFacts(s.header, s.plan, s.index);
  }

  /** Parser and stream compose: in a sound context every location of the current entry can be
      read from the header, and the entry always fits the buffer. */
  lemma NeverShort(s: Stream, d: Disk, l: nat)
    requires Sound(s, d) && s.index < |s.plan.entries| && l < s.plan.entries[s.index].locationCount
    ensures ReadLocation(HeaderBytes, s.header, s.plan.entries[s.index], l).Ok?
    ensures s.plan.entries[s.index].byteCount <= |s.data|
  {
    EntryReadyWhenSound(s, d);
    LocatedTarget(s, s.plan.entries[s.index], BlockSizeOf(s.plan, s.index), d, l);
  }

  /** The turn in which bytes are only collected. */
  lemma CollectTracks(s: Stream, d: Disk, img: seq<byte>, w: seq<byte>, chunk: seq<byte>)
    requires Tracks(s, d, img, w) && s.index < |s.plan.entries| && !Pending(s)
    requires s.received + |chunk| < s.plan.entries[s.index].byteCount <= |s.data|
    ensures Tracks(Collected(s, chunk), d, img, w + chunk)
  {
    ReplayPrefix(img, s.header, s.plan, w, chunk, s.index);
  }

  lemma CollectedSound(s: Stream, d: Disk, chunk: seq<byte>)
    requires Sound(s, d) && s.index < |s.plan.entries|
    requires s.received + |chunk| <= s.plan.entries[s.index].byteCount <= |s.data|
    ensures Sound(Collected(s, chunk), d)
  {
    hide PlanFacts.WellFormed, Disk.Valid;
  }

  /** The bytes of a completed entry, in the buffer and in the stream. */
  lemma CompletePayload(s: Stream, w: seq<byte>, chunk: seq<byte>)
    requires s.index < |s.plan.entries| && s.received + |chunk| == s.plan.entries[s.index].byteCount <= |s.data|
    requires |w| == Consumed(s) && s.data[..s.received] == w[PrefixBytes(s.plan.entries, s.index)..]
    ensures |w + chunk| == PrefixBytes(s.plan.entries, s.index + 1)
    ensures var s1 := Collected(s, chunk);
            && s1.data[..s1.received] == (w + chunk)[PrefixBytes(s.plan.entries, s.index)..]
            && s1.data[..s1.received] == EntryPayload(s.plan, w + chunk, s.index)
  {
    PrefixNext(s.plan.entries, s.index);
    hide PrefixBytes;
  }

  /** The image while the current entry is complete in the buffer, w including it. */
  lemma CompleteTracks(s: Stream, d: Disk, img: seq<byte>, w: seq<byte>, chunk: seq<byte>)
    requires Tracks(s, d, img, w) && s.index < |s.plan.entries|
    requires s.received + |chunk| == s.plan.entries[s.index].byteCount <= |s.data|
    ensures PrefixBytes(s.plan.entries, s.index + 1) <= |w + chunk|
    ensures var s1 := Collected(s, chunk);
            Tracks(s1, d, img, w + chunk) && s1.data[..s1.received] == EntryPayload(s.plan, w + chunk, s.index)
  {
    hide AgreesBut, Replay, Sound, PrefixBytes, EntryPayload;
    var e := s.plan.entries[s.index];
    CollectedSound(s, d, chunk);
    CompletePayload(s, w, chunk);
    ReplayPrefix(img, s.header, s.plan, w, chunk, s.index);
    if !s.dryRun && !Pending(s) {
      AgreesRefl(d.image, s.header, e, BlockSizeOf(s.plan, s.index), e.byteCount, 0, e.locationCount);
    }
    if Pending(s) {
      assert chunk == [] && w + chunk == w;
    }
  }

  /** What writing the completed entry does to the medium: nothing outside the entry's ranges,
      and exactly one more replayed entry if it succeeds. */
  lemma WriteImage(s: Stream, d: Disk, img: seq<byte>, w: seq<byte>)
    requires Tracks(s, d, img, w) && Pending(s)
    requires s.data[..s.received] == EntryPayload(s.plan, w, s.index)
    ensures var e := s.plan.entries[s.index];
            var bs := BlockSizeOf(s.plan, s.index);
            && s.plan.stores[e.storeIndex].blockSize == bs
            && var r := WriteFrom(s, e, bs, 0, s.lastSector, d);
            if s.dryRun then r.disk == d
            else
              && AgreesBut(r.disk.image, Replay(img, s.header, s.plan, w, s.index), s.header, e, bs, e.byteCount, 0,
                 e.locationCount)
              && (r.status == SUCCESS ==>
                    PrefixBytes(s.plan.entries, s.index + 1) <= |w| &&
                    r.disk.image == Replay(img, s.header, s.plan, w, s.index + 1))
  {
    EntryReadyWhenSound(s, d);
    var e := s.plan.entries[s.index];
    var bs := BlockSizeOf(s.plan, s.index);
    if s.dryRun {
      DryWriteEffect(s, e, bs, 0, s.lastSector, d);
    } else {
      EntryWriteEffect(s, e, bs, 0, s.lastSector, d, Replay(img, s.header, s.plan, w, s.index));
    }
  }

  /** Writing the completed entry, successfully or not. */
  lemma WriteTracks(s: Stream, d: Disk, img: seq<byte>, w: seq<byte>)
    requires Tracks(s, d, img, w) && Pending(s)
    requires s.data[..s.received] == EntryPayload(s.plan, w, s.index)
    ensures var e := s.plan.entries[s.index];
            var r := WriteFrom(s, e, s.plan.stores[e.storeIndex].blockSize, 0, s.lastSector, d);
            if r.status == SUCCESS
            then Tracks(s.(received := 0, index := s.index + 1, lastSector := r.lastSector), r.disk, img, w)
            else Tracks(s.(lastSector := r.lastSector), r.disk, img, w)
  {
    hide WriteFrom, AgreesBut, EntryPayload, Replay, PrefixBytes, PlanFacts.WellFormed, Disk.Valid, Disk.Quiet;
    WriteImage(s, d, img, w);
    NextNotPending(s, d);
    PrefixNext(s.plan.entries, s.index);
  }

  lemma PrefixNext(entries: seq<WriteEntry>, k: nat)
    requires k < |entries|
    ensures PrefixBytes(entries, k + 1) == PrefixBytes(entries, k) + entries[k].byteCount
  {
  }

  lemma StepTracks(s: Stream, d: Disk, img: seq<byte>, w: seq<byte>, data: seq<byte>)
    requires Tracks(s, d, img, w) && |data| > 0
    ensures var t := Step(s, d, data);
            Tracks(t.stream, t.disk, img, w + data[..t.took]) &&
            (t.status == SUCCESS ==> !Pending(t.stream))
  {
    hide Tracks, Sound, WriteFrom, EntryPayload;
    TracksSound(s, d, img, w);
    var t := Step(s, d, data);
    if s.index >= |s.plan.entries| {
      assert w + data[..0] == w;
    } else {
      EntryReadyWhenSound(s, d);
      hide EntryReady, PrefixBytes, Landed;
      var e := s.plan.entries[s.index];
      var chunk := data[..t.took];
      var s1 := Collected(s, chunk);
      if s1.received == e.byteCount {
        CompleteTracks(s, d, img, w, chunk);
        hide Overlay;
        assert Pending(s1);
        WriteTracks(s1, d, img, w + chunk);
        NextNotPending(s, d);
      } else {
        CollectTracks(s, d, img, w, chunk);
      }
    }
  }

  lemma NextNotPending(s: Stream, d: Disk)
    requires Sound(s, d) && s.index < |s.plan.entries|
    ensures s.index + 1 < |s.plan.entries| ==> 0 < s.plan.entries[s.index + 1].byteCount
  {
    if s.index + 1 < |s.plan.entries| {
      PlanFacts.EntryFacts(s.header, s.plan, s.index + 1);
    }
  }

  /** Bytes of this call that entered the machine. */
  function Taken(s: Stream, d: Disk, data: seq<byte>): (n: nat)
    requires Steppable(s) && d.Valid()
    ensures n <= |data|
    decreases |data|, |s.plan.entries| - s.index
  {
    if data == [] then 0
    else
      var t := Step(s, d, data);
      if IsError(t.status) then t.took else t.took + Taken(t.stream, t.disk, data[t.took..])
  }

  lemma TakenTurn(s: Stream, d: Disk, data: seq<byte>)
    requires Steppable(s) && d.Valid()
    ensures data == [] ==> Taken(s, d, data) == 0
    ensures data != [] ==>
              var t := Step(s, d, data);
              Taken(s, d, data) ==
              if IsError(t.status) then t.took else t.took + Taken(t.stream, t.disk, data[t.took..])
  {
    hide Step, Steppable, Disk.Valid;
  }

  lemma TakenJoin(w: seq<byte>, data: seq<byte>, k: nat, n: nat)
    requires k + n <= |data|
    ensures w + data[..k] + data[k..][..n] == w + data[..k + n]
  {
  }

  lemma TakenAll(w: seq<byte>, data: seq<byte>, k: nat)
    requires k <= |data|
    ensures w + data[..k] + data[k..] == w + data
  {
  }

  /** One call, any device behaviour: the machine keeps track of exactly the bytes it took. All of
      them unless it reports an error, and then it is left pending or at the end of the plan. */
  lemma {:induction false} RunTracks(s: Stream, d: Disk, img: seq<byte>, w: seq<byte>, data: seq<byte>)
    requires Tracks(s, d, img, w)
    ensures var r := Run(s, d, data);
            && Tracks(r.stream, r.disk, img, w + data[..Taken(s, d, data)])
            && (r.status == SUCCESS ==> Taken(s, d, data) == |data|)
            && (r.status == SUCCESS && data != [] ==> !Pending(r.stream))
            && (r.status != SUCCESS ==> Pending(r.stream) || r.stream.index == |s.plan.entries|)
    decreases |data|, |s.plan.entries| - s.index
  {
    hide Tracks, Sound, Step, Run, Taken, Steppable, Pending, Disk.Valid;
    TracksSound(s, d, img, w);
    RunTurn(s, d, data);
    TakenTurn(s, d, data);
    if data == [] {
      assert w + data[..0] == w;
    } else {
      StepTracks(s, d, img, w, data);
      var t := Step(s, d, data);
      if IsError(t.status) {
        StepFails(s, d, data);
      } else {
        var rest := data[t.took..];
        RunTurn(t.stream, t.disk, rest);
        RunTracks(t.stream, t.disk, img, w + data[..t.took], rest);
        TakenJoin(w, data, t.took, Taken(t.stream, t.disk, rest));
      }
    }
  }

  lemma TracksSound(s: Stream, d: Disk, img: seq<byte>, w: seq<byte>)
    requires Tracks(s, d, img, w)
    ensures Sound(s, d) && Steppable(s) && d.Valid()
  {
  }

  lemma StepFails(s: Stream, d: Disk, data: seq<byte>)
    requires Steppable(s) && d.Valid() && |data| > 0 && IsError(Step(s, d, data).status)
    requires Sound(s, d)
    ensures var t := Step(s, d, data);
            Pending(t.stream) || t.stream.index == |s.plan.entries|
  {
  }
}
