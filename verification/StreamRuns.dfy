/** Runs of many payload calls: what they leave on the medium under any faults, how a retry
    repairs a fault, and why packet boundaries do not matter. */
module StreamRuns {
  import opened Bytes
  import opened BlockIo
  import opened FfuLayout
  import opened StreamFlash
  import opened StreamLaws
  import PlanFacts

  // ----- the start -----

  lemma InitShape(header: Contents, media: Media, commit: bool)
    requires Init(header, media, commit).status == SUCCESS
    ensures Parse(HeaderBytes, header).Ok?
    ensures var s := Init(header, media, commit).stream;
            && s.plan == Parse(HeaderBytes, header).value && s.header == header
            && s.index == 0 && s.received == 0 && s.mediaBlock == media.blockSize && s.dryRun == !commit
            && media.present && !media.readOnly && 0 < media.blockSize
            && (forall j :: 0 <= j < |s.plan.entries| ==> s.plan.entries[j].byteCount <= |s.data| <= MAX_PAYLOAD_DATA)
  {
    hide Parse, MaxBytes, Zeros;
  }

  /** A successful initialisation starts a sound context that has accepted nothing yet. */
  lemma InitTracks(header: Contents, d: Disk, commit: bool)
    requires d.Valid() && Init(header, d.media, commit).status == SUCCESS
    ensures Tracks(Init(header, d.media, commit).stream, d, d.image, [])
  {
    hide Init, Parse, PlanFacts.WellFormed, PlanFacts.EntryOk;
    InitShape(header, d.media, commit);
    PlanFacts.PlanWellFormed(HeaderBytes, header);
    var s := Init(header, d.media, commit).stream;
    forall j | 0 <= j < |s.plan.entries|
      ensures s.plan.entries[j].storeIndex < |s.plan.stores| && 0 < s.plan.entries[j].byteCount
    {
      PlanFacts.EntryFacts(header, s.plan, j);
      assert 0 < s.plan.entries[j].byteCount by {
        EntryNonempty(header, s.plan, j);
      }
    }
    hide AgreesBut;
  }

  lemma EntryNonempty(header: seq<byte>, plan: Plan, j: nat)
    requires PlanFacts.WellFormed(header, plan) && j < |plan.entries|
    ensures 0 < plan.entries[j].byteCount
  {
    PlanFacts.EntryFacts(header, plan, j);
  }

  /** Initialisation accepts exactly the headers that parse, on a writable device, with no entry
      larger than a packet; its refusal of a plan without data never applies. */
  lemma InitAccepts(header: Contents, media: Media, commit: bool)
    ensures Init(header, media, commit).status == SUCCESS <==>
            && media.present && !media.readOnly && 0 < media.blockSize && Parse(HeaderBytes, header).Ok?
            && var plan := Parse(HeaderBytes, header).value;
            forall j :: 0 <= j < |plan.entries| ==> plan.entries[j].byteCount <= MAX_PAYLOAD_DATA
  {
    hide Parse, MaxBytes, Zeros, PlanFacts.Partitioned, PlanFacts.StoreOk;
    if Parse(HeaderBytes, header).Ok? {
      var plan := Parse(HeaderBytes, header).value;
      PlanFacts.PlanWellFormed(HeaderBytes, header);
      SomeEntry(header, plan);
      EntryNonempty(header, plan, 0);
      var max := MaxBytes(plan.entries, |plan.entries|);
      assert max > 0;
    }
  }

  lemma SomeEntry(header: seq<byte>, plan: Plan)
    requires PlanFacts.WellFormed(header, plan)
    ensures 0 < |plan.entries|
  {
  }

  /** The reported last sector is the block in front of the end of the bytes written, unless the
      32-bit field cannot hold it. */
  lemma EndSectorIsLast(lba: u64, byteCount: u32, mediaBlock: u32)
    requires 0 < mediaBlock && Multiple(byteCount, mediaBlock) && 0 < byteCount
    requires lba + byteCount / mediaBlock <= TWO_32
    ensures ByteOffset(EndSector(lba, byteCount, mediaBlock) + 1, mediaBlock) == ByteOffset(lba, mediaBlock) + byteCount
  {
    var k := byteCount / mediaBlock;
    assert byteCount == k * mediaBlock && k > 0;
    assert (lba + k) * mediaBlock == lba * mediaBlock + k * mediaBlock;
  }

  // ----- runs under faults -----

  /** A sequence of payload calls, carried on whatever each one returns; status is the first error. */
  function FeedAll(s: Stream, d: Disk, calls: seq<seq<byte>>): (r: Fed)
    requires Steppable(s) && d.Valid()
    ensures r.disk.Valid() && r.disk.media == d.media && Steppable(r.stream) && r.stream.plan == s.plan
    decreases |calls|
  {
    if calls == [] then Fed(SUCCESS, s, d)
    else
      var r := Feed(s, d, calls[0]);
      var rest := FeedAll(r.stream, r.disk, calls[1..]);
      if r.status == SUCCESS then rest else rest.(status := r.status)
  }

  /** The bytes those calls got into the machine. */
  function Accepted(s: Stream, d: Disk, calls: seq<seq<byte>>): seq<byte>
    requires Steppable(s) && d.Valid()
    decreases |calls|
  {
    if calls == [] then []
    else
      var r := Feed(s, d, calls[0]);
      calls[0][..Taken(s, d, calls[0])] + Accepted(r.stream, r.disk, calls[1..])
  }

  lemma FinalTracks(s: Stream, f: u32, d: Disk, img: seq<byte>, w: seq<byte>)
    requires Tracks(s, d, img, w)
    ensures Tracks(s.(finalState := f), d, img, w)
  {
  }

  lemma FeedTracks(s: Stream, d: Disk, img: seq<byte>, w: seq<byte>, data: seq<byte>)
    requires Tracks(s, d, img, w) && Steppable(s) && d.Valid()
    ensures var r := Feed(s, d, data);
            && Tracks(r.stream, r.disk, img, w + data[..Taken(s, d, data)])
            && (r.status == SUCCESS ==> Taken(s, d, data) == |data|)
  {
    hide Tracks, Run, Taken;
    RunTracks(s, d, img, w, data);
    var run := Run(s, d, data);
    FinalTracks(run.stream, 1, run.disk, img, w + data[..Taken(s, d, data)]);
  }

  /** Over every sequence of calls and every fault script: the medium is the initial image with
      the completed entries replayed from the accepted bytes, except inside the ranges of an entry
      that is still pending; the buffer holds the unflushed tail of the accepted bytes. */
  lemma {:induction false} RunsTrack(s: Stream, d: Disk, img: seq<byte>, w: seq<byte>, calls: seq<seq<byte>>)
    requires Tracks(s, d, img, w)
    ensures Tracks(FeedAll(s, d, calls).stream, FeedAll(s, d, calls).disk, img, w + Accepted(s, d, calls))
    ensures FeedAll(s, d, calls).status == SUCCESS ==> Accepted(s, d, calls) == Concat(calls)
    decreases |calls|
  {
    TracksSound(s, d, img, w);
    if calls == [] {
      assert w + [] == w;
    } else {
      hide *;
      FeedTracks(s, d, img, w, calls[0]);
      var r := Feed(s, d, calls[0]);
      var got := calls[0][..Taken(s, d, calls[0])];
      RunsTrack(r.stream, r.disk, img, w + got, calls[1..]);
      AllUnfold(s, d, calls);
      Associate(w, got, Accepted(r.stream, r.disk, calls[1..]));
      if r.status == SUCCESS {
        assert got == calls[0];
      }
    }
  }

  lemma Associate(a: seq<byte>, b: seq<byte>, c: seq<byte>)
    ensures a + b + c == a + (b + c)
  {
  }

  lemma AllUnfold(s: Stream, d: Disk, calls: seq<seq<byte>>)
    requires Steppable(s) && d.Valid() && calls != []
    ensures var r := Feed(s, d, calls[0]);
            && FeedAll(s, d, calls).stream == FeedAll(r.stream, r.disk, calls[1..]).stream
            && FeedAll(s, d, calls).disk == FeedAll(r.stream, r.disk, calls[1..]).disk
            && FeedAll(s, d, calls).status ==
               (if r.status == SUCCESS then FeedAll(r.stream, r.disk, calls[1..]).status else r.status)
            && Accepted(s, d, calls) == calls[0][..Taken(s, d, calls[0])] + Accepted(r.stream, r.disk, calls[1..])
            && Concat(calls) == calls[0] + Concat(calls[1..])
  {
    hide Feed, Taken, Steppable, Disk.Valid;
  }

  /** Done means every described byte has been consumed and no retry is outstanding. */
  lemma DoneIsConsumed(s: Stream, d: Disk)
    requires Sound(s, d)
    ensures Done(s) <==> Consumed(s) == PrefixBytes(s.plan.entries, |s.plan.entries|) && !Pending(s)
    ensures |s.plan.entries| < TWO_32 ==>
              (Done(s) <==> Consumed(s) == s.plan.totalPayloadBytes && !Pending(s))
  {
    hide PlanFacts.Partitioned, Disk.Valid, EntryBytes, RdLe32;
    var n := |s.plan.entries|;
    if s.index < n {
      PlanFacts.EntryFacts(s.header, s.plan, s.index);
      PlanFacts.PrefixGrows(s.plan.entries, s.index + 1, n);
      assert PrefixBytes(s.plan.entries, s.index + 1) ==
        PrefixBytes(s.plan.entries, s.index) + s.plan.entries[s.index].byteCount;
    }
    PlanFacts.PrefixGrows(s.plan.entries, 0, n);
    hide PrefixBytes;
  }

  /** After a failed write, the next nonempty call takes no byte before it has rewritten the whole
      buffered entry from its first location; and if that succeeds, the image is the one in which
      the entry never failed, however locations overlap and whatever the fault scribbled. */
  lemma RetryRepairs(s: Stream, d: Disk, img: seq<byte>, w: seq<byte>, data: seq<byte>)
    requires Tracks(s, d, img, w) && Pending(s) && |data| > 0
    ensures Steppable(s) && d.Valid() && s.plan.entries[s.index].byteCount <= |s.data|
    ensures var e := s.plan.entries[s.index];
            var t := Step(s, d, data);
            var r := WriteFrom(s, e, s.plan.stores[e.storeIndex].blockSize, 0, s.lastSector, d);
            && t.took == 0 && t.status == r.status && t.disk == r.disk
            && (t.status == SUCCESS && !s.dryRun ==>
                  PrefixBytes(s.plan.entries, s.index + 1) <= |w| &&
                  t.disk.image == Replay(img, s.header, s.plan, w, s.index + 1))
  {
    var e := s.plan.entries[s.index];
    assert Overlay(s.data, s.received, data[..0]) == s.data;
    assert PrefixBytes(s.plan.entries, s.index + 1) == PrefixBytes(s.plan.entries, s.index) + e.byteCount;
    assert s.data[..s.received] == EntryPayload(s.plan, w, s.index);
    WriteImage(s, d, img, w);
    TracksSound(s, d, img, w);
    hide Tracks, WriteFrom, EntryPayload, Replay, Overlay;
  }

  /** Once the write of the last entry has failed, every later nonempty call reports an error, even
      the one that repairs the fault: it goes on behind the end of the plan, so that flashing is
      done, the medium is right, and the call is refused as too long. */
  lemma LastRepairReported(s: Stream, d: Disk, img: seq<byte>, w: seq<byte>, data: seq<byte>)
    requires Tracks(s, d, img, w) && Pending(s) && s.index + 1 == |s.plan.entries| && |data| > 0
    ensures Steppable(s) && d.Valid()
    ensures var e := s.plan.entries[s.index];
            var written := WriteFrom(s, e, s.plan.stores[e.storeIndex].blockSize, 0, s.lastSector, d);
            var r := Feed(s, d, data);
            && IsError(r.status) && r.disk == written.disk && (Done(r.stream) <==> written.status == SUCCESS)
            && (written.status == SUCCESS ==>
                  r.status == BAD_BUFFER_SIZE && PrefixBytes(s.plan.entries, |s.plan.entries|) <= |w| &&
                  (!s.dryRun ==> r.disk.image == Replay(img, s.header, s.plan, w, |s.plan.entries|)))
  {
    TracksSound(s, d, img, w);
    RetryRepairs(s, d, img, w, data);
    RunEndsPlan(s, d, data);
    PrefixNext(s.plan.entries, s.index);
    hide Step, Run, WriteFrom, Replay, PrefixBytes, Sound, AgreesBut;
  }

  lemma RunEndsPlan(s: Stream, d: Disk, data: seq<byte>)
    requires Steppable(s) && d.Valid() && |data| > 0 && s.index + 1 == |s.plan.entries| && Step(s, d, data).took == 0
    ensures var t := Step(s, d, data);
            && (IsError(t.status) ==> Run(s, d, data) == Fed(t.status, t.stream, t.disk) && !Done(t.stream))
            && (t.status == SUCCESS ==> Run(s, d, data) == Fed(BAD_BUFFER_SIZE, t.stream, t.disk) && Done(t.stream))
  {
    hide WriteFrom, Overlay;
    assert data[0..] == data;
  }

  /** What a refused packet leaves to be sent: the bytes that got in end where the entry whose write
      failed ends, or where the whole plan does. Sending the rest completes the packet, and sending
      the packet again repeats the bytes that had got in. */
  lemma RefusedRemainder(s: Stream, d: Disk, img: seq<byte>, w: seq<byte>, data: seq<byte>)
    requires Tracks(s, d, img, w) && Steppable(s) && d.Valid() && Feed(s, d, data).status != SUCCESS
    ensures var r, n := Feed(s, d, data), Taken(s, d, data);
            && r.stream.index <= |s.plan.entries|
            && |w| + n == PrefixBytes(s.plan.entries, Min(r.stream.index + 1, |s.plan.entries|))
            && var rest, again := Feed(r.stream, r.disk, data[n..]), Feed(r.stream, r.disk, data);
            && (rest.status == SUCCESS ==> Tracks(rest.stream, rest.disk, img, w + data))
            && (again.status == SUCCESS ==> Tracks(again.stream, again.disk, img, w + data[..n] + data))
  {
    hide Tracks, Run, Feed, Taken, Sound, Steppable, Disk.Valid, PrefixBytes, SameEnd;
    RunTracks(s, d, img, w, data);
    FeedTracks(s, d, img, w, data);
    FeedIsRun(s, d, data);
    var r, n := Feed(s, d, data), Taken(s, d, data);
    var w1 := w + data[..n];
    EndsAtEntry(r.stream, r.disk, img, w1);
    FeedTracks(r.stream, r.disk, img, w1, data[n..]);
    FeedTracks(r.stream, r.disk, img, w1, data);
    assert data[..|data|] == data && data[n..][..|data[n..]|] == data[n..];
    TakenAll(w, data, n);
  }

  lemma EndsAtEntry(s: Stream, d: Disk, img: seq<byte>, w: seq<byte>)
    requires Tracks(s, d, img, w) && (Pending(s) || s.index == |s.plan.entries|)
    ensures s.index <= |s.plan.entries| && |w| == PrefixBytes(s.plan.entries, Min(s.index + 1, |s.plan.entries|))
  {
    if s.index < |s.plan.entries| {
      PrefixNext(s.plan.entries, s.index);
    }
    hide PrefixBytes, Replay, AgreesBut, PlanFacts.WellFormed;
  }

  // ----- where an error code can come from -----

  /** An error that is zero in its low 16 bits, all of it that a status answer carries. */
  predicate Silent(st: u64) {
    IsError(st) && st % 0x1_0000 == 0
  }

  /** Some scripted outcome has this status. */
  predicate Scripted(d: Disk, st: u64) {
    exists i :: 0 <= i < |d.outcomes| && d.outcomes[i].status == st
  }

  /** e can come after d: nothing is scripted on it that was not scripted on d. */
  predicate ScriptShrinks(d: Disk, e: Disk) {
    forall i :: 0 <= i < |e.outcomes| ==> Scripted(d, e.outcomes[i].status)
  }

  lemma ShrinksAgain(d: Disk, e: Disk, f: Disk)
    requires ScriptShrinks(d, e) && ScriptShrinks(e, f)
    ensures ScriptShrinks(d, f)
    ensures forall st: u64 :: Scripted(e, st) ==> Scripted(d, st)
  {
  }

  lemma ScriptSame(d: Disk)
    ensures ScriptShrinks(d, d)
  {
  }

  lemma DeviceCode(d: Disk, lba: u64, buf: seq<byte>)
    requires d.Valid()
    ensures var w := WriteBlocks(d, lba, buf);
            ScriptShrinks(d, w.disk) && (Silent(w.status) ==> Scripted(d, w.status))
  {
    hide Splice, ByteOffset, Disk.Valid;
    var w := WriteBlocks(d, lba, buf);
    if Refusal(d.media, lba, |buf|) == SUCCESS && d.outcomes != [] {
      assert d.outcomes[0].status == w.status;
      forall i | 0 <= i < |w.disk.outcomes|
        ensures Scripted(d, w.disk.outcomes[i].status)
      {
        assert w.disk.outcomes[i] == d.outcomes[i + 1];
      }
    } else {
      ScriptSame(d);
    }
  }

  lemma LocateCode(header: seq<byte>, e: WriteEntry, blockSize: u32, mediaBlock: u32, l: nat)
    requires 0 < mediaBlock
    ensures var lba := Locate(header, e, blockSize, mediaBlock, l);
            lba.Err? ==> !Silent(lba.status)
  {
    hide RdLe32, TargetByte;
  }

  lemma {:induction false} EntryCode(s: Stream, e: WriteEntry, blockSize: u32, l: nat, last: u32, d: Disk)
    requires d.Valid() && 0 < s.mediaBlock && e.byteCount <= |s.data| && l <= e.locationCount
    ensures var r := WriteFrom(s, e, blockSize, l, last, d);
            ScriptShrinks(d, r.disk) && (Silent(r.status) ==> Scripted(d, r.status))
    decreases e.locationCount - l
  {
    hide Locate, EndSector, WriteBlocks, Scripted, ScriptShrinks, Disk.Valid, Disk.Quiet;
    ScriptSame(d);
    if l < e.locationCount {
      LocateCode(s.header, e, blockSize, s.mediaBlock, l);
      var lba := Locate(s.header, e, blockSize, s.mediaBlock, l);
      if lba.Ok? {
        DeviceCode(d, lba.value, s.data[..e.byteCount]);
        var w := if s.dryRun then Written(SUCCESS, d) else WriteBlocks(d, lba.value, s.data[..e.byteCount]);
        if !IsError(w.status) {
          var next := EndSector(lba.value, e.byteCount, s.mediaBlock);
          EntryCode(s, e, blockSize, l + 1, next, w.disk);
          ShrinksAgain(d, w.disk, WriteFrom(s, e, blockSize, l + 1, next, w.disk).disk);
        }
      }
    }
  }

  lemma StepCode(s: Stream, d: Disk, data: seq<byte>)
    requires Steppable(s) && d.Valid() && |data| > 0
    ensures var t := Step(s, d, data);
            ScriptShrinks(d, t.disk) && (Silent(t.status) ==> Scripted(d, t.status))
  {
    hide WriteFrom, Overlay, Scripted, ScriptShrinks, Disk.Valid, Disk.Quiet;
    ScriptSame(d);
    if s.index < |s.plan.entries| {
      var e := s.plan.entries[s.index];
      var take := Min(|data|, e.byteCount - s.received);
      if s.received + take <= |s.data| && s.received + take == e.byteCount {
        EntryCode(Collected(s, data[..take]), e, s.plan.stores[e.storeIndex].blockSize, 0, s.lastSector, d);
      }
    }
  }

  /** Only the device can make a payload call fail with a code that is zero in its low 16 bits: none
      of the errors the code itself reports is. */
  lemma {:induction false} SilentIsScripted(s: Stream, d: Disk, data: seq<byte>)
    requires Steppable(s) && d.Valid()
    ensures var r := Run(s, d, data);
            ScriptShrinks(d, r.disk) && (Silent(r.status) ==> Scripted(d, r.status))
    decreases |data|, |s.plan.entries| - s.index
  {
    hide Step, Scripted, ScriptShrinks;
    ScriptSame(d);
    if data != [] {
      StepCode(s, d, data);
      var t := Step(s, d, data);
      if !IsError(t.status) {
        SilentIsScripted(t.stream, t.disk, data[t.took..]);
        ShrinksAgain(d, t.disk, Run(t.stream, t.disk, data[t.took..]).disk);
      }
    }
  }

  // ----- packet boundaries -----

  predicate Roomy(s: Stream) {
    forall j :: 0 <= j < |s.plan.entries| ==> s.plan.entries[j].byteCount <= |s.data|
  }

  lemma StepRoomy(s: Stream, d: Disk, data: seq<byte>)
    requires Steppable(s) && d.Valid() && |data| > 0 && Roomy(s)
    ensures Roomy(Step(s, d, data).stream)
  {
  }

  /** A chunk the current entry does not complete can be merged with what follows it. */
  lemma StepMerges(s: Stream, d: Disk, a: seq<byte>, b: seq<byte>)
    requires Steppable(s) && d.Valid() && Roomy(s) && |a| > 0 && |b| > 0
    requires s.index < |s.plan.entries| && s.received + |a| < s.plan.entries[s.index].byteCount
    ensures var t := Step(s, d, a);
            var u := Step(t.stream, d, b);
            var v := Step(s, d, a + b);
            && t.status == SUCCESS && t.disk == d && t.took == |a|
            && v == u.(took := |a| + u.took)
  {
    hide WriteFrom, Settle;
    var m := Min(|a| + |b|, s.plan.entries[s.index].byteCount - s.received);
    assert (a + b)[..m] == a + b[..m - |a|];
    assert a[..|a|] == a;
    CollectTwice(s, a, b[..m - |a|]);
    SettleIdle(Collected(s, a), d, |a|);
    SettleTook(Collected(s, a + b[..m - |a|]), d, m - |a|, m);
    hide Overlay, Collected;
  }

  lemma CollectTwice(s: Stream, a: seq<byte>, b: seq<byte>)
    requires s.received + |a| + |b| <= |s.data|
    ensures Collected(Collected(s, a), b) == Collected(s, a + b)
  {
  }

  lemma SettleIdle(s: Stream, d: Disk, took: nat)
    requires Steppable(s) && d.Valid() && s.index < |s.plan.entries| && s.received <= |s.data|
    requires s.received < s.plan.entries[s.index].byteCount
    ensures Settle(s, d, took) == Turn(SUCCESS, s, d, took)
  {
  }

  lemma SettleTook(s: Stream, d: Disk, m: nat, n: nat)
    requires Steppable(s) && d.Valid() && s.index < |s.plan.entries| && s.received <= |s.data|
    ensures Settle(s, d, n) == Settle(s, d, m).(took := n)
  {
  }

  /** A chunk that completes the current entry, or meets an exhausted plan, is not affected by what follows. */
  lemma StepIgnoresTail(s: Stream, d: Disk, a: seq<byte>, b: seq<byte>)
    requires Steppable(s) && d.Valid() && Roomy(s) && |a| > 0
    requires s.index < |s.plan.entries| ==> s.received + |a| >= s.plan.entries[s.index].byteCount
    ensures Step(s, d, a + b) == Step(s, d, a)
  {
    if s.index < |s.plan.entries| {
      var need := s.plan.entries[s.index].byteCount - s.received;
      assert (a + b)[..need] == a[..need];
    }
    hide WriteFrom, Overlay;
  }

  lemma DropOfSum(a: seq<byte>, b: seq<byte>, k: nat)
    requires k <= |a|
    ensures (a + b)[k..] == a[k..] + b
  {
  }

  lemma DropBehind(a: seq<byte>, b: seq<byte>, k: nat)
    requires k <= |b|
    ensures (a + b)[|a| + k..] == b[k..]
  {
  }

  /** Feeding a + b is feeding a and, unless that failed, b. */
  lemma {:induction false} RunAppend(s: Stream, d: Disk, a: seq<byte>, b: seq<byte>)
    requires Steppable(s) && d.Valid() && Roomy(s)
    ensures var r := Run(s, d, a);
            Run(s, d, a + b) == if r.status == SUCCESS then Run(r.stream, r.disk, b) else r
    decreases |a|, |s.plan.entries| - s.index
  {
    hide Step, Roomy;
    if a == [] {
      assert a + b == b;
    } else if b == [] {
      assert a + b == a;
    } else {
      var t := Step(s, d, a);
      StepRoomy(s, d, a);
      if s.index < |s.plan.entries| && s.received + |a| < s.plan.entries[s.index].byteCount {
        StepMerges(s, d, a, b);
        var u := Step(t.stream, d, b);
        DropBehind(a, b, u.took);
        assert a[t.took..] == [];
        assert Run(s, d, a) == Run(t.stream, d, []);
      } else {
        StepIgnoresTail(s, d, a, b);
        if !IsError(t.status) {
          DropOfSum(a, b, t.took);
          RunAppend(t.stream, t.disk, a[t.took..], b);
        }
      }
    }
  }

  // final_state is written and never read

  lemma {:induction false} WritePassive(s: Stream, f: u32, e: WriteEntry, blockSize: u32, l: nat, last: u32, d: Disk)
    requires d.Valid() && 0 < s.mediaBlock && e.byteCount <= |s.data| && l <= e.locationCount
    ensures WriteFrom(s.(finalState := f), e, blockSize, l, last, d) == WriteFrom(s, e, blockSize, l, last, d)
    decreases e.locationCount - l
  {
    hide Locate, EndSector, WriteBlocks;
    if l < e.locationCount {
      var lba := Locate(s.header, e, blockSize, s.mediaBlock, l);
      if lba.Ok? {
        var w := if s.dryRun then Written(SUCCESS, d) else WriteBlocks(d, lba.value, s.data[..e.byteCount]);
        if !IsError(w.status) {
          WritePassive(s, f, e, blockSize, l + 1, EndSector(lba.value, e.byteCount, s.mediaBlock), w.disk);
        }
      }
    }
  }

  lemma StepPassive(s: Stream, f: u32, d: Disk, data: seq<byte>)
    requires Steppable(s) && d.Valid() && |data| > 0
    ensures var t := Step(s, d, data);
            Step(s.(finalState := f), d, data) == t.(stream := t.stream.(finalState := f))
  {
    hide WriteFrom, Overlay;
    if s.index < |s.plan.entries| {
      var e := s.plan.entries[s.index];
      var take := Min(|data|, e.byteCount - s.received);
      if s.received + take <= |s.data| {
        var s1 := Collected(s, data[..take]);
        assert Collected(s.(finalState := f), data[..take]) == s1.(finalState := f);
        if s1.received == e.byteCount {
          WritePassive(s1, f, e, s.plan.stores[e.storeIndex].blockSize, 0, s.lastSector, d);
        }
      }
    }
  }

  lemma {:induction false} RunPassive(s: Stream, f: u32, d: Disk, data: seq<byte>)
    requires Steppable(s) && d.Valid()
    ensures var r := Run(s, d, data);
            Run(s.(finalState := f), d, data) == r.(stream := r.stream.(finalState := f))
    decreases |data|, |s.plan.entries| - s.index
  {
    hide Step;
    if data != [] {
      StepPassive(s, f, d, data);
      var t := Step(s, d, data);
      if !IsError(t.status) {
        RunPassive(t.stream, f, t.disk, data[t.took..]);
      }
    }
  }

  // ----- a device that never fails by itself -----

  /** What the device and the plan say about location l before any byte moves. */
  function LocationStatus(s: Stream, e: WriteEntry, blockSize: u32, l: nat, media: Media): u64
    requires 0 < s.mediaBlock
  {
    var lba := Locate(s.header, e, blockSize, s.mediaBlock, l);
    if lba.Err? then lba.status else if s.dryRun then SUCCESS else Refusal(media, lba.value, e.byteCount)
  }

  /** The first location from l on that cannot be written, or the number of locations. */
  function StopsAt(s: Stream, e: WriteEntry, blockSize: u32, l: nat, media: Media): (m: nat)
    requires 0 < s.mediaBlock && l <= e.locationCount
    ensures l <= m <= e.locationCount
    ensures m < e.locationCount ==> LocationStatus(s, e, blockSize, m, media) != SUCCESS
    decreases e.locationCount - l
  {
    if l == e.locationCount || LocationStatus(s, e, blockSize, l, media) != SUCCESS then l
    else StopsAt(s, e, blockSize, l + 1, media)
  }

  function SectorAfter(s: Stream, e: WriteEntry, blockSize: u32, m: nat, last: u32): u32
    requires 0 < s.mediaBlock && m <= e.locationCount
  {
    if m == 0 then last
    else
      var lba := Locate(s.header, e, blockSize, s.mediaBlock, m - 1);
      if lba.Ok? then EndSector(lba.value, e.byteCount, s.mediaBlock) else last
  }

  /** The ranges of the first m locations lie on the medium. */
  predicate InRange(header: seq<byte>, e: WriteEntry, blockSize: nat, n: nat, m: nat, size: nat) {
    forall l :: 0 <= l < m ==> RangeFits(header, e, blockSize, n, l, size)
  }

  predicate RangeFits(header: seq<byte>, e: WriteEntry, blockSize: nat, n: nat, l: nat, size: nat) {
    Target(header, e, blockSize, l) + n <= size
  }

  /** Without faults an entry write is determined by the geometry alone: it lands locations up to
      the first bad one and reports that one. */
  lemma {:induction false} QuietWrite(
    s: Stream, e: WriteEntry, blockSize: u32, l: nat, last: u32, d: Disk, base: seq<byte>, last0: u32)
    requires EntryReady(s, e, blockSize, d) && l <= e.locationCount && d.outcomes == []
    requires last == SectorAfter(s, e, blockSize, l, last0)
    requires !s.dryRun ==> d.image == Landed(base, s.header, e, blockSize, s.data[..e.byteCount], l) &&
                           InRange(s.header, e, blockSize, e.byteCount, l, |base|)
    ensures var r := WriteFrom(s, e, blockSize, l, last, d);
            var m := StopsAt(s, e, blockSize, l, d.media);
            && r.status == (if m == e.locationCount then SUCCESS else LocationStatus(s, e, blockSize, m, d.media))
            && r.lastSector == SectorAfter(s, e, blockSize, m, last0)
            && r.disk.outcomes == [] && r.disk.media == d.media
            && (if s.dryRun then r.disk == d
                else r.disk.image == Landed(base, s.header, e, blockSize, s.data[..e.byteCount], m) &&
                     InRange(s.header, e, blockSize, e.byteCount, m, |base|))
    decreases e.locationCount - l
  {
    hide Locate, EndSector, Target, Refusal;
    if l < e.locationCount {
      var lba := Locate(s.header, e, blockSize, s.mediaBlock, l);
      if lba.Ok? {
        LocatedTarget(s, e, blockSize, d, l);
        var payload := s.data[..e.byteCount];
        var w := if s.dryRun then Written(SUCCESS, d) else WriteBlocks(d, lba.value, payload);
        if !s.dryRun {
          DeviceWrite(d, lba.value, Target(s.header, e, blockSize, l), payload);
        }
        if !IsError(w.status) {
          RefusalIsError(d.media, lba.value, e.byteCount);
          hide WriteBlocks, EntryReady;
          assert InRange(s.header, e, blockSize, e.byteCount, l, |base|) && !s.dryRun ==>
              RangeFits(s.header, e, blockSize, e.byteCount, l, |base|);
          QuietWrite(s, e, blockSize, l + 1, EndSector(lba.value, e.byteCount, s.mediaBlock), w.disk, base, last0);
        }
      }
    }
  }

  lemma RefusalIsError(media: Media, lba: nat, len: nat)
    ensures Refusal(media, lba, len) == SUCCESS || IsError(Refusal(media, lba, len))
  {
  }

  /** Landing the first m locations twice is landing them once. */
  lemma LandedTwice(img: seq<byte>, header: seq<byte>, e: WriteEntry, blockSize: nat, payload: seq<byte>, m: nat)
    requires InRange(header, e, blockSize, |payload|, m, |img|)
    ensures var once := Landed(img, header, e, blockSize, payload, m);
            Landed(once, header, e, blockSize, payload, m) == once
  {
    var once := Landed(img, header, e, blockSize, payload, m);
    LandedStays(img, header, e, blockSize, payload, 0, m, m);
    LandedCatchesUp(once, img, header, e, blockSize, payload, m, m);
    AgreesNowhere(Landed(once, header, e, blockSize, payload, m), once, header, e, blockSize, |payload|, m);
  }

  /** Landed images differ from their base only in the ranges landed. */
  lemma {:induction false} LandedStays(
    img: seq<byte>, header: seq<byte>, e: WriteEntry, blockSize: nat, payload: seq<byte>, lo: nat, k: nat, m: nat)
    requires lo == 0 && k <= m && InRange(header, e, blockSize, |payload|, m, |img|)
    ensures AgreesBut(Landed(img, header, e, blockSize, payload, k), img, header, e, blockSize, |payload|, lo, m)
  {
    if k > 0 {
      LandedStays(img, header, e, blockSize, payload, lo, k - 1, m);
      assert RangeFits(header, e, blockSize, |payload|, k - 1, |img|);
      hide AgreesBut, Target;
      AgreesScribble(
        Landed(img, header, e, blockSize, payload, k - 1), img, header, e, blockSize, |payload|, lo, m, k - 1, payload);
    }
  }

  /** Two images that differ only in the first m ranges differ only in the ranges not landed yet. */
  lemma {:induction false} LandedCatchesUp(
    a: seq<byte>, b: seq<byte>, header: seq<byte>, e: WriteEntry, blockSize: nat, payload: seq<byte>, k: nat, m: nat)
    requires k <= m && InRange(header, e, blockSize, |payload|, m, |b|)
    requires AgreesBut(a, b, header, e, blockSize, |payload|, 0, m)
    ensures AgreesBut(
              Landed(a, header, e, blockSize, payload, k), Landed(b, header, e, blockSize, payload, k),
              header, e, blockSize, |payload|, k, m)
  {
    if k > 0 {
      LandedCatchesUp(a, b, header, e, blockSize, payload, k - 1, m);
      assert RangeFits(header, e, blockSize, |payload|, k - 1, |b|);
      hide AgreesBut, Target;
      AgreesAdvance(
        Landed(a, header, e, blockSize, payload, k - 1), Landed(b, header, e, blockSize, payload, k - 1),
        header, e, blockSize, payload, k - 1, m);
    }
  }

  /** No call with data can change this state any more, except to say again why. */
  predicate Stuck(s: Stream, d: Disk)
    requires Steppable(s) && d.Valid()
  {
    s.index >= |s.plan.entries| ||
    (Pending(s) && s.received <= |s.data| &&
     var e := s.plan.entries[s.index];
     var r := WriteFrom(s, e, s.plan.stores[e.storeIndex].blockSize, 0, s.lastSector, d);
     IsError(r.status) && r.lastSector == s.lastSector && r.disk == d)
  }

  /** A failed entry write on a fault-free device fails again in the same way and changes nothing. */
  lemma FailedWriteRepeats(s: Stream, d: Disk)
    requires Sound(s, d) && d.outcomes == [] && Pending(s)
    requires var e := s.plan.entries[s.index];
             IsError(WriteFrom(s, e, s.plan.stores[e.storeIndex].blockSize, 0, s.lastSector, d).status)
    ensures var e := s.plan.entries[s.index];
            var r := WriteFrom(s, e, s.plan.stores[e.storeIndex].blockSize, 0, s.lastSector, d);
            r.disk.Valid() && Stuck(s.(lastSector := r.lastSector), r.disk)
  {
    EntryReadyWhenSound(s, d);
    var e := s.plan.entries[s.index];
    var bs := BlockSizeOf(s.plan, s.index);
    var r := WriteFrom(s, e, bs, 0, s.lastSector, d);
    var s1 := s.(lastSector := r.lastSector);
    var m := StopsAt(s, e, bs, 0, d.media);
    QuietWrite(s, e, bs, 0, s.lastSector, d, d.image, s.lastSector);
    hide WriteFrom, Landed, Locate, EndSector, Target, Refusal;
    var payload := s.data[..e.byteCount];
    if !s.dryRun {
      LandedTwice(d.image, s.header, e, bs, payload, m);
    }
    StopsAtSame(s, s1, e, bs, 0, d.media);
    assert EntryReady(s1, e, bs, r.disk);
    QuietWrite(s1, e, bs, 0, s1.lastSector, r.disk, r.disk.image, s1.lastSector);
    hide InRange, EntryReady, LocationStatus;
  }

  lemma {:induction false} StopsAtSame(s: Stream, s1: Stream, e: WriteEntry, blockSize: u32, l: nat, media: Media)
    requires 0 < s.mediaBlock && l <= e.locationCount && s1 == s.(lastSector := s1.lastSector)
    ensures StopsAt(s1, e, blockSize, l, media) == StopsAt(s, e, blockSize, l, media)
    decreases e.locationCount - l
  {
    hide Locate, Refusal;
    if l < e.locationCount {
      StopsAtSame(s, s1, e, blockSize, l + 1, media);
    }
  }

  lemma StepSound(s: Stream, d: Disk, data: seq<byte>)
    requires Sound(s, d) && |data| > 0
    ensures var t := Step(s, d, data);
            Sound(t.stream, t.disk) && t.stream.header == s.header && t.stream.dryRun == s.dryRun
  {
  }

  lemma {:induction false} RunSound(s: Stream, d: Disk, data: seq<byte>)
    requires Sound(s, d)
    ensures var r := Run(s, d, data);
            Sound(r.stream, r.disk) && r.stream.header == s.header && r.stream.dryRun == s.dryRun
    decreases |data|, |s.plan.entries| - s.index
  {
    if data != [] {
      StepSound(s, d, data);
      var t := Step(s, d, data);
      hide Step, Sound;
      if !IsError(t.status) {
        RunSound(t.stream, t.disk, data[t.took..]);
      }
    }
  }

  lemma StuckStays(s: Stream, d: Disk, data: seq<byte>)
    requires Steppable(s) && d.Valid() && Stuck(s, d)
    ensures Run(s, d, data).stream == s && Run(s, d, data).disk == d
    ensures data != [] ==> IsError(Run(s, d, data).status)
  {
    if data != [] && s.index < |s.plan.entries| {
      assert Overlay(s.data, s.received, data[..0]) == s.data;
    }
    hide WriteFrom, Overlay;
  }

  /** On a device without faults, an error is final. */
  lemma {:induction false} ErrorSticks(s: Stream, d: Disk, data: seq<byte>)
    requires Sound(s, d) && d.outcomes == [] && IsError(Run(s, d, data).status)
    ensures var r := Run(s, d, data);
            Stuck(r.stream, r.disk)
    decreases |data|, |s.plan.entries| - s.index
  {
    var t := Step(s, d, data);
    StepSound(s, d, data);
    if IsError(t.status) {
      StepErrorSticks(s, d, data);
    } else {
      hide Step, Sound, Stuck;
      ErrorSticks(t.stream, t.disk, data[t.took..]);
    }
  }

  lemma StepErrorSticks(s: Stream, d: Disk, data: seq<byte>)
    requires Sound(s, d) && d.outcomes == [] && |data| > 0 && IsError(Step(s, d, data).status)
    ensures var t := Step(s, d, data);
            Stuck(t.stream, t.disk)
  {
    hide WriteFrom, PlanFacts.WellFormed;
    if s.index < |s.plan.entries| {
      var take := Min(|data|, s.plan.entries[s.index].byteCount - s.received);
      var s1 := Collected(s, data[..take]);
      hide Overlay;
      FailedWriteRepeats(s1, d);
      hide Stuck;
    }
  }

  /** Equal up to final_state, which nothing reads, and to which error is reported. */
  predicate SameEnd(a: Fed, b: Fed) {
    && a.stream.(finalState := 0) == b.stream.(finalState := 0) && a.disk == b.disk
    && (a.status == SUCCESS <==> b.status == SUCCESS)
  }

  /** Two calls, the second made whatever the first one returned. */
  function FeedTwo(s: Stream, d: Disk, a: seq<byte>, b: seq<byte>): Fed
    requires Steppable(s) && d.Valid()
  {
    var r := Feed(s, d, a);
    var q := Feed(r.stream, r.disk, b);
    if r.status == SUCCESS then q else q.(status := r.status)
  }

  lemma FeedIsRun(s: Stream, d: Disk, data: seq<byte>)
    requires Steppable(s) && d.Valid()
    ensures var r, run := Feed(s, d, data), Run(s, d, data);
            SameEnd(r, run) && SameEnd(run, r) && r.status == run.status && r.disk == run.disk
            && r.stream == run.stream.(finalState := r.stream.finalState)
  {
    hide Run, Steppable, Disk.Valid;
  }

  lemma PassiveEnd(s: Stream, f: u32, d: Disk, data: seq<byte>)
    requires Steppable(s) && d.Valid()
    ensures SameEnd(Run(s.(finalState := f), d, data), Run(s, d, data))
  {
    RunPassive(s, f, d, data);
    hide Run, Steppable, Disk.Valid;
  }

  lemma FeedAppendOk(s: Stream, d: Disk, a: seq<byte>, b: seq<byte>)
    requires Sound(s, d) && Run(s, d, a).status == SUCCESS
    ensures SameEnd(FeedTwo(s, d, a, b), Feed(s, d, a + b))
  {
    hide Run, Feed, SameEnd, Sound, Roomy, Steppable, Disk.Valid;
    RoomySound(s, d);
    RunAppend(s, d, a, b);
    FeedIsRun(s, d, a);
    FeedIsRun(s, d, a + b);
    var r, run := Feed(s, d, a), Run(s, d, a);
    FeedIsRun(r.stream, r.disk, b);
    PassiveEnd(run.stream, r.stream.finalState, run.disk, b);
    SameEndTransitive(Feed(r.stream, r.disk, b), Run(r.stream, r.disk, b), Run(run.stream, run.disk, b));
    SameEndTransitive(Feed(r.stream, r.disk, b), Run(s, d, a + b), Feed(s, d, a + b));
  }

  lemma FeedAppendError(s: Stream, d: Disk, a: seq<byte>, b: seq<byte>)
    requires Sound(s, d) && d.outcomes == [] && Run(s, d, a).status != SUCCESS
    ensures SameEnd(FeedTwo(s, d, a, b), Feed(s, d, a + b))
  {
    RoomySound(s, d);
    hide Run, Sound, Roomy, Steppable, Disk.Valid, Stuck;
    RunAppend(s, d, a, b);
    var run := Run(s, d, a);
    ErrorSticks(s, d, a);
    StuckStays(run.stream, run.disk, b);
  }

  lemma FeedFails(s: Stream, d: Disk, a: seq<byte>, b: seq<byte>)
    requires Sound(s, d) && Run(s, d, a).status != SUCCESS
    ensures Feed(s, d, a).status != SUCCESS && Feed(s, d, a + b).status != SUCCESS
  {
    hide Run, Feed, SameEnd, Sound, Roomy, Steppable, Disk.Valid;
    RoomySound(s, d);
    RunAppend(s, d, a, b);
    FeedIsRun(s, d, a);
    FeedIsRun(s, d, a + b);
  }

  /** Packet boundaries do not matter. On any device, the calls of a split all succeed exactly when one
      call on the whole stream does, and then they leave the same disk, position, buffer and last
      sector. On a device that does not fault they leave the same even when the plan itself gets a
      write refused or the stream is too long. */
  lemma {:induction false} ChunkingIndependence(s: Stream, d: Disk, calls: seq<seq<byte>>)
    requires Sound(s, d)
    ensures Steppable(s) && d.Valid()
    ensures FeedAll(s, d, calls).status == SUCCESS <==> Feed(s, d, Concat(calls)).status == SUCCESS
    ensures FeedAll(s, d, calls).status == SUCCESS || d.outcomes == [] ==>
              SameEnd(FeedAll(s, d, calls), Feed(s, d, Concat(calls)))
    decreases |calls|
  {
    hide Sound, Roomy, Steppable, Disk.Valid, Feed, Run, FeedAll, FeedTwo, SameEnd, Concat;
    RoomySound(s, d);
    if calls == [] {
      FeedNothing(s, d);
    } else {
      var c, rest := calls[0], calls[1..];
      assert [c] + rest == calls;
      ConcatCons(calls);
      FeedSound(s, d, c);
      AllUnfold(s, d, calls);
      var r := Feed(s, d, c);
      ChunkingIndependence(r.stream, r.disk, rest);
      if Run(s, d, c).status != SUCCESS {
        FeedFails(s, d, c, Concat(rest));
      } else {
        FeedAppendOk(s, d, c, Concat(rest));
        FeedIsRun(s, d, c);
        TwoStatus(s, d, c, Concat(rest));
      }
      if FeedAll(s, d, calls).status == SUCCESS || d.outcomes == [] {
        if Run(s, d, c).status != SUCCESS {
          FeedAppendError(s, d, c, Concat(rest));
        }
        FeedAllIsTwo(s, d, c, rest);
        SameEndTransitive(FeedAll(s, d, calls), FeedTwo(s, d, c, Concat(rest)), Feed(s, d, c + Concat(rest)));
      }
    }
  }

  lemma TwoStatus(s: Stream, d: Disk, a: seq<byte>, b: seq<byte>)
    requires Steppable(s) && d.Valid() && Feed(s, d, a).status == SUCCESS
    requires SameEnd(FeedTwo(s, d, a, b), Feed(s, d, a + b))
    ensures var r := Feed(s, d, a);
            Feed(s, d, a + b).status == SUCCESS <==> Feed(r.stream, r.disk, b).status == SUCCESS
  {
    hide Feed;
  }

  lemma FeedNothing(s: Stream, d: Disk)
    requires Steppable(s) && d.Valid()
    ensures SameEnd(FeedAll(s, d, []), Feed(s, d, Concat([])))
  {
  }

  lemma FeedAppend(s: Stream, d: Disk, a: seq<byte>, b: seq<byte>)
    requires Sound(s, d) && d.outcomes == []
    ensures SameEnd(FeedTwo(s, d, a, b), Feed(s, d, a + b))
  {
    if Run(s, d, a).status == SUCCESS {
      FeedAppendOk(s, d, a, b);
    } else {
      FeedAppendError(s, d, a, b);
    }
  }

  lemma ConcatCons(calls: seq<seq<byte>>)
    requires calls != []
    ensures Concat(calls) == calls[0] + Concat(calls[1..])
  {
  }

  lemma FeedSound(s: Stream, d: Disk, data: seq<byte>)
    requires Sound(s, d)
    ensures Sound(Feed(s, d, data).stream, Feed(s, d, data).disk)
    ensures d.outcomes == [] ==> Feed(s, d, data).disk.outcomes == []
  {
    RunSound(s, d, data);
    hide Run;
  }

  lemma SameEndTransitive(a: Fed, b: Fed, c: Fed)
    requires SameEnd(a, b) && SameEnd(b, c)
    ensures SameEnd(a, c)
  {
  }

  lemma FeedAllIsTwo(s: Stream, d: Disk, c: seq<byte>, rest: seq<seq<byte>>)
    requires Steppable(s) && d.Valid()
    requires var r := Feed(s, d, c);
             SameEnd(FeedAll(r.stream, r.disk, rest), Feed(r.stream, r.disk, Concat(rest)))
    ensures SameEnd(FeedAll(s, d, [c] + rest), FeedTwo(s, d, c, Concat(rest)))
  {
  }

  lemma RoomySound(s: Stream, d: Disk)
    requires Sound(s, d)
    ensures Roomy(s) && Steppable(s) && d.Valid()
  {
  }

  // ----- when everything fits -----

  /** Location l of entry j can be written: absolute access, aligned, on the medium. */
  predicate LocationFits(header: seq<byte>, plan: Plan, media: Media, j: nat, l: nat)
    requires j < |plan.entries|
  {
    0 < media.blockSize &&
    var lba := Locate(header, plan.entries[j], BlockSizeOf(plan, j), media.blockSize, l);
    lba.Ok? && Refusal(media, lba.value, plan.entries[j].byteCount) == SUCCESS
  }

  predicate EntryFits(header: seq<byte>, plan: Plan, media: Media, j: nat)
    requires j < |plan.entries|
  {
    forall l :: 0 <= l < plan.entries[j].locationCount ==> LocationFits(header, plan, media, j, l)
  }

  predicate PlanFits(header: seq<byte>, plan: Plan, media: Media) {
    forall j :: 0 <= j < |plan.entries| ==> EntryFits(header, plan, media, j)
  }

  lemma {:induction false} FittingEntryWrites(s: Stream, l: nat, last: u32, d: Disk)
    requires Sound(s, d) && s.index < |s.plan.entries| && d.Quiet() && EntryFits(s.header, s.plan, d.media, s.index)
    requires l <= s.plan.entries[s.index].locationCount
    ensures WriteFrom(s, s.plan.entries[s.index], BlockSizeOf(s.plan, s.index), l, last, d).status == SUCCESS
    decreases s.plan.entries[s.index].locationCount - l
  {
    hide Locate, EndSector, Refusal, PlanFacts.WellFormed, Disk.Quiet;
    var e := s.plan.entries[s.index];
    var bs := BlockSizeOf(s.plan, s.index);
    if l < e.locationCount {
      assert LocationFits(s.header, s.plan, d.media, s.index, l);
      var lba := Locate(s.header, e, bs, s.mediaBlock, l).value;
      var w := if s.dryRun then Written(SUCCESS, d) else WriteBlocks(d, lba, s.data[..e.byteCount]);
      QuietAccepts(d, lba, s.data[..e.byteCount]);
      hide WriteBlocks;
      FittingEntryWrites(s, l + 1, EndSector(lba, e.byteCount, s.mediaBlock), w.disk);
    }
  }

  lemma QuietAccepts(d: Disk, lba: nat, buf: seq<byte>)
    requires d.Valid() && d.Quiet() && Refusal(d.media, lba, |buf|) == SUCCESS
    ensures !IsError(WriteBlocks(d, lba, buf).status)
  {
  }

  /** If every location fits and the device does not fault, no call fails until the described
      payload is exhausted. */
  lemma {:induction false} FittingRunSucceeds(s: Stream, d: Disk, data: seq<byte>)
    requires Sound(s, d) && d.Quiet() && PlanFits(s.header, s.plan, d.media)
    requires Consumed(s) + |data| <= PrefixBytes(s.plan.entries, |s.plan.entries|)
    ensures var r := Run(s, d, data);
            r.status == SUCCESS && r.stream.index <= |s.plan.entries| && Consumed(r.stream) == Consumed(s) + |data|
    decreases |data|, |s.plan.entries| - s.index
  {
    if data != [] {
      FittingStep(s, d, data);
      StepSound(s, d, data);
      var t := Step(s, d, data);
      hide Step, Sound;
      FittingRunSucceeds(t.stream, t.disk, data[t.took..]);
    }
  }

  /** If every location fits and the device does not fault, a call succeeds exactly if its bytes do not
      reach beyond the described payload, also when an earlier fault has left an entry pending. */
  lemma SucceedsExactly(s: Stream, d: Disk, img: seq<byte>, w: seq<byte>, data: seq<byte>)
    requires Tracks(s, d, img, w) && d.Quiet() && PlanFits(s.header, s.plan, d.media)
    ensures Steppable(s) && d.Valid() && s.index <= |s.plan.entries|
    ensures Run(s, d, data).status == SUCCESS <==>
            Consumed(s) + |data| <= PrefixBytes(s.plan.entries, |s.plan.entries|)
  {
    hide Run, Taken, PlanFits, Disk.Quiet, Sound, PrefixBytes, Replay, AgreesBut;
    TracksSound(s, d, img, w);
    SoundIndex(s, d);
    if Consumed(s) + |data| <= PrefixBytes(s.plan.entries, |s.plan.entries|) {
      FittingRunSucceeds(s, d, data);
    }
    RunTracks(s, d, img, w, data);
    var r := Run(s, d, data);
    TracksSound(r.stream, r.disk, img, w + data[..Taken(s, d, data)]);
    ConsumedAtMost(r.stream, r.disk);
    if r.status == SUCCESS {
      assert data[..|data|] == data;
    }
  }

  lemma SoundIndex(s: Stream, d: Disk)
    requires Sound(s, d)
    ensures s.index <= |s.plan.entries|
  {
  }

  lemma ConsumedAtMost(s: Stream, d: Disk)
    requires Sound(s, d)
    ensures s.index <= |s.plan.entries| && Consumed(s) <= PrefixBytes(s.plan.entries, |s.plan.entries|)
  {
    if s.index < |s.plan.entries| {
      PrefixNext(s.plan.entries, s.index);
      PlanFacts.PrefixGrows(s.plan.entries, s.index + 1, |s.plan.entries|);
    }
    hide PrefixBytes, PlanFacts.WellFormed;
  }

  lemma FittingStep(s: Stream, d: Disk, data: seq<byte>)
    requires Sound(s, d) && d.Quiet() && PlanFits(s.header, s.plan, d.media) && |data| > 0
    requires Consumed(s) + |data| <= PrefixBytes(s.plan.entries, |s.plan.entries|)
    ensures var t := Step(s, d, data);
            t.status == SUCCESS && t.stream.index <= |s.plan.entries| && Consumed(t.stream) == Consumed(s) + t.took
  {
    hide WriteFrom, PlanFacts.WellFormed, Overlay;
    if s.index == |s.plan.entries| {
      assert false;
    }
    var e := s.plan.entries[s.index];
    assert PrefixBytes(s.plan.entries, s.index + 1) == PrefixBytes(s.plan.entries, s.index) + e.byteCount;
    var take := Min(|data|, e.byteCount - s.received);
    var s1 := Collected(s, data[..take]);
    assert EntryFits(s.header, s.plan, d.media, s.index);
    EntryReadyWhenSound(s, d);
    hide PrefixBytes, EntryReady, EntryFits, PlanFits;
    if s1.received == e.byteCount {
      FittingEntryWrites(s1, 0, s.lastSector, d);
    }
  }
}
