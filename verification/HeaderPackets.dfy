/** Header packets in bytes, before and after the start of flashing: which are refused, with which
    answer, and what the buffer holds behind the others. */
module HeaderPackets {
  import opened Bytes
  import opened BlockIo
  import opened StreamFlash
  import opened Proto
  import opened Session
  import opened HeaderTransfer
  import opened LateHeaders

  // ----- refusals -----

  /** What a short answer says. */
  datatype Complaint = Complaint(status: u16, specifier: u32)

  /** The buffer for n bytes, in whole mebibytes and in the 32 bits of the answer. */
  function Mebibytes(n: nat): nat {
    (n + 0xF_FFFF) / 0x10_0000 * 0x10_0000
  }

  /** Only 128 MiB are ever allocated. */
  function SizeComplaint(n: nat): Option<Complaint> {
    if n > 0x800_0000 then Some(Complaint(4, Mebibytes(n) % 0x1_0000_0000)) else None
  }

  /** What is wrong with a one-piece header packet, in the order of the checks. */
  function ComplaintV1(msg: seq<byte>): Option<Complaint>
    requires |msg| >= 16
  {
    if |msg| < 32 then Some(Complaint(8, |msg|))
    else
      var n := RdBe32(msg, 24);
      if RdBe32(msg, 16) != (n + 12) % 0x1_0000_0000 then Some(Complaint(16, RdBe32(msg, 16)))
      else if msg[28] >= 0x40 then Some(Complaint(8, msg[28]))
      else if msg[29] != 0 then Some(Complaint(8, msg[29]))
      else if n > 0x1F_FBDC || |msg| < 32 + n then Some(Complaint(16, n))
      else SizeComplaint(n)
  }

  /** What is wrong with a chunked one, for a transfer of which `received` bytes have come so far. */
  function ComplaintV2(msg: seq<byte>, received: nat, buffered: bool): Option<Complaint>
    requires |msg| >= 16
  {
    if |msg| < 60 then Some(Complaint(8, |msg|))
    else
      var total, offset, n := RdBe32(msg, 24), RdBe32(msg, 29), RdBe32(msg, 33);
      if received + n > total then Some(Complaint(16, n))
      else if msg[28] >= 0x40 then Some(Complaint(8, msg[28]))
      else if msg[28] != 0 && msg[37] != 0 then Some(Complaint(8, msg[37]))
      else if n > 0x1F_FBDC || |msg| < 60 + n then Some(Complaint(16, n))
      else if offset != 0 && !buffered then Some(Complaint(8, offset))
      else SizeComplaint(total)
  }

  function ComplaintOf(s: Session, msg: seq<byte>): Option<Complaint>
    requires IsHeaderMessage(msg)
  {
    if RdBe32(msg, 12) == 0x0B then ComplaintV1(msg) else ComplaintV2(msg, s.received, s.header.Some?)
  }

  lemma RoundsToMebibytes(n: u32)
    ensures AlignUp(n, 0x10_0000) == Mebibytes(n)
  {
    var q, r := n / 0x10_0000, n % 0x10_0000;
    assert n == 0x10_0000 * q + r;
  }

  /** The size limit is on the bytes, whatever is allocated already. */
  lemma LimitIsOnBytes(s: Session, need: u32, complete: u32)
    requires Consistent(s) && need <= complete
    ensures CapacityFor(need, complete) == Mebibytes(complete)
    ensures TooLarge(s, need, complete) <==> complete > 0x800_0000
  {
    hide Disk.Valid, Steppable, Multiple, Mebibytes;
    RoundsToMebibytes(complete);
    MebibytesOver(complete);
  }

  lemma MebibytesOver(n: nat)
    ensures n <= Mebibytes(n) < n + 0x10_0000
    ensures Mebibytes(n) > 0x800_0000 <==> n > 0x800_0000
  {
  }

  lemma PlacedOrNotV1(msg: seq<byte>)
    requires |msg| >= 16
    ensures PlacementV1(msg) == None ==> ComplaintV1(msg).Some?
    ensures PlacementV1(msg).Some? ==>
              && |msg| >= 32 + RdBe32(msg, 24) && RdBe32(msg, 24) <= MAX_HEADER_DATA
              && PlacementV1(msg).value == Placement(0, RdBe32(msg, 24), RdBe32(msg, 24), msg[32..32 + RdBe32(msg, 24)])
              && ComplaintV1(msg) == SizeComplaint(RdBe32(msg, 24))
  {
    hide RdBe32, Mebibytes;
  }

  lemma PlacedOrNotV2(s: Session, msg: seq<byte>)
    requires |msg| >= 16
    ensures var c := ComplaintV2(msg, s.received, s.header.Some?);
            match PlacementV2(s, msg)
            case None => c.Some?
            case Some(p) =>
              && |msg| >= 60 && p.need <= p.complete == RdBe32(msg, 24) && c == SizeComplaint(RdBe32(msg, 24))
  {
    hide RdBe32, Mebibytes;
  }

  // ----- the answer to a refused packet -----

  /** A one-piece packet with a good length field abandons any chunked transfer, even if refused. */
  function ForgetV1(s: Session, msg: seq<byte>): Session
    requires |msg| >= 16
  {
    if |msg| >= 32 && RdBe32(msg, 16) == (RdBe32(msg, 24) + 12) % 0x1_0000_0000 then s.(received := 0) else s
  }

  /** A chunked packet at offset zero begins anew, and drops a buffer that no context uses. */
  function BegunV2(s: Session, msg: seq<byte>): Session
    requires |msg| >= 60
  {
    if RdBe32(msg, 29) != 0 then s
    else if s.ready then s.(received := 0)
    else s.(header := None, headerSize := 0, received := 0)
  }

  lemma RefusedV1(s: Session, msg: seq<byte>)
    requires Consistent(s) && |msg| >= 16 && ComplaintV1(msg).Some?
    ensures var c := ComplaintV1(msg).value;
            HandleHeaderV1(s, msg) == Handled(ForgetV1(s, msg), FsShort(c.status, c.specifier), false)
  {
    hide RdBe32, FsShortBytes, Mebibytes, Disk.Valid, Steppable, Multiple, CapacityFor;
    if |msg| >= 32 {
      var n := RdBe32(msg, 24);
      LimitIsOnBytes(s.(received := 0), n, n);
      hide TooLarge;
    }
  }

  lemma RefusedV2(s: Session, msg: seq<byte>)
    requires Consistent(s) && |msg| >= 16 && ComplaintV2(msg, s.received, s.header.Some?).Some?
    ensures var c := ComplaintV2(msg, s.received, s.header.Some?).value;
            HandleHeaderV2(s, msg) ==
            Handled(if PlacementV2(s, msg).Some? then BegunV2(s, msg) else s, FsShort(c.status, c.specifier), false)
  {
    hide RdBe32, FsShortBytes, Mebibytes, Disk.Valid, Steppable, Multiple, CapacityFor;
    if PlacementV2(s, msg).Some? {
      var p := PlacementV2(s, msg).value;
      var s1 := if RdBe32(msg, 29) == 0 then Restarted(s) else s;
      LimitIsOnBytes(s1, p.need, p.complete);
      hide TooLarge, Finish;
    }
  }

  /** Every header message without a placement, or with one that is too large, is answered with a
      refusal, ready or not: one short answer with the status and specifier of the first check that
      fails, neither of them a success, and nothing stored. */
  lemma HeaderRefused(s: Session, msg: seq<byte>)
    requires Consistent(s) && IsHeaderMessage(msg) && ComplaintOf(s, msg).Some?
    ensures var c, h := ComplaintOf(s, msg).value, Handle(s, msg);
            && c.status != 0 && h.replies == FsShort(c.status, c.specifier) && !h.exit
            && h.session == (if RdBe32(msg, 12) == 0x0B then ForgetV1(s, msg)
                             else if PlacementOf(s, msg).Some? then BegunV2(s, msg) else s)
  {
    hide Handle, HandleHeaderV1, HandleHeaderV2, ComplaintV1, ComplaintV2, ForgetV1, BegunV2, PlacementV1, PlacementV2,
      FsShort, Consistent, RdBe32, RdBe16;
    if SecureMessage(msg, SUBBLOCK_HEADER_V1) {
      SecureDispatch(s, msg, SUBBLOCK_HEADER_V1);
      RefusedV1(s, msg);
      StatusNotZero(msg, s.received, s.header.Some?);
    } else {
      SecureDispatch(s, msg, SUBBLOCK_HEADER_V2);
      RefusedV2(s, msg);
      StatusNotZero(msg, s.received, s.header.Some?);
      PlacedOrNotV2(s, msg);
    }
  }

  lemma StatusNotZero(msg: seq<byte>, received: nat, buffered: bool)
    requires |msg| >= 16
    ensures ComplaintV1(msg).Some? ==> ComplaintV1(msg).value.status != 0
    ensures ComplaintV2(msg, received, buffered).Some? ==> ComplaintV2(msg, received, buffered).value.status != 0
  {
    hide RdBe32, Mebibytes;
  }

  /** The refused packets are exactly those that LateHeaders gives no placement, or too large a one. */
  lemma RefusedExactly(s: Session, msg: seq<byte>)
    requires Consistent(s) && IsHeaderMessage(msg)
    ensures ComplaintOf(s, msg) == None <==>
            match PlacementOf(s, msg)
            case None => false
            case Some(p) => !TooLarge(s, p.need, p.complete)
  {
    hide ComplaintV1, ComplaintV2, PlacementV1, PlacementV2, TooLarge, Consistent, RdBe32, RdBe16, Mebibytes;
    if SecureMessage(msg, SUBBLOCK_HEADER_V1) {
      PlacedOrNotV1(msg);
    } else {
      PlacedOrNotV2(s, msg);
    }
    if PlacementOf(s, msg).Some? {
      LimitIsOnBytes(s, PlacementOf(s, msg).value.need, PlacementOf(s, msg).value.complete);
    }
  }

  // ----- what a stored packet leaves -----

  /** The bytes of the header received so far. */
  function Front(s: Session): seq<byte> {
    if s.header.Some? && s.headerSize <= |s.header.value| then s.header.value[..s.headerSize] else []
  }

  /** front with the chunk laid over it, and made longer if the chunk ends behind it. */
  function LaidOver(front: seq<byte>, at: nat, chunk: seq<byte>): (r: seq<byte>)
    requires at <= |front|
    ensures |r| == if at + |chunk| > |front| then at + |chunk| else |front|
  {
    front[..at] + chunk + if at + |chunk| <= |front| then front[at + |chunk|..] else []
  }

  /** Copying into a buffer at the end of what it holds, or in front of it. */
  lemma PasteFront(buffer: seq<byte>, held: nat, at: nat, chunk: seq<byte>)
    requires at <= held <= |buffer| && at + |chunk| <= |buffer|
    ensures Overlay(buffer, at, chunk)[..if at + |chunk| > held then at + |chunk| else held] ==
            LaidOver(buffer[..held], at, chunk)
  {
  }

  lemma GrownFront(s: Session, need: nat, complete: nat)
    requires Consistent(s) && need < TWO_64 / 2 && complete < TWO_64 / 2
    requires MustGrow(s, need, complete) && CapacityFor(need, complete) <= MAX_HEADER
    ensures var r := Grown(s, need, complete);
            Front(r) == Front(s) && r.headerSize == s.headerSize && Capacity(r) == CapacityFor(need, complete)
  {
    hide CapacityFor, Steppable, Disk.Valid, Multiple;
    GrownFits(s, need, complete);
    var front := if s.header.Some? then s.header.value[..s.headerSize] else [];
    assert (front + Zeros(CapacityFor(need, complete) - |front|))[..|front|] == front;
  }

  lemma GrownFits(s: Session, need: nat, complete: nat)
    requires Consistent(s) && need < TWO_64 / 2 && complete < TWO_64 / 2 && MustGrow(s, need, complete)
    ensures s.headerSize <= CapacityFor(need, complete)
  {
    hide Steppable, Disk.Valid, Multiple;
  }

  /** The buffer after a chunk that may be stored: its capacity, its bytes, and their number. */
  lemma CopiedFront(s: Session, need: nat, complete: nat, at: nat, chunk: seq<byte>, v2: bool)
    requires Consistent(s) && need == at + |chunk| && need < TWO_32 && complete < TWO_32
    requires (v2 || s.received == 0) && !TooLarge(s, need, complete) && at <= s.headerSize
    ensures var t := Copied(Reserved(s, need, complete), need, at, chunk, v2);
            && Front(t) == LaidOver(Front(s), at, chunk) && t.headerSize == |Front(t)|
            && t.received == (if v2 then need else s.received)
            && t.header.Some? == (s.header.Some? || need + complete > 0)
            && Capacity(t) == if MustGrow(s, need, complete) then CapacityFor(need, complete) else Capacity(s)
  {
    hide CapacityFor, Steppable, Disk.Valid, Multiple, Grown, Realiased, LaidOver, Overlay;
    var r := Reserved(s, need, complete);
    if MustGrow(s, need, complete) {
      GrownFront(s, need, complete);
    }
    assert Front(r) == Front(s) && r.headerSize == s.headerSize;
    if r.header.Some? {
      PasteFront(r.header.value, r.headerSize, at, chunk);
    } else {
      assert need == 0 && chunk == [];
      NothingLaid();
    }
  }

  lemma NothingLaid()
    ensures LaidOver([], 0, []) == []
  {
  }

  /** h is what a chunk at `at` of a transfer of `complete` bytes makes of session s: the bytes held are
      laid over with it; as long as they are fewer than the total they are acknowledged; and then they
      start flashing, if it has not started. */
  predicate Stored(s: Session, at: nat, complete: nat, chunk: seq<byte>, h: Handled)
    requires at <= |Front(s)|
  {
    var front, t := LaidOver(Front(s), at, chunk), h.session;
    && Front(t) == front && t.headerSize == |front| < MAX_FILE && !h.exit
    && Capacity(t) == (if complete > Capacity(s) then Mebibytes(complete) else Capacity(s))
    && t.disk == s.disk && t.async == s.async && t.commit == s.commit
    && if |front| < complete then
         h.replies == FsShort(0, 0) && t.ready == s.ready && t.received == at + |chunk|
         && (!t.ready ==> t.flash == s.flash)
       else
         && t.received == 0
         && if s.ready then h.replies == FsShort(0, 0) && t.ready else StartedFrom(s, complete, front, h)
  }

  /** The answer to a whole header is what initialisation says. */
  predicate StartedFrom(s: Session, complete: nat, front: Contents, h: Handled)
    requires complete <= |front|
  {
    var t := h.session;
    if t.header == None then h.replies == FsShort(2, 2) && !t.ready && t.flash == s.flash
    else
      var i := Init(if complete != 0 then front[..complete] else front, s.disk.media, s.commit);
      && h.replies == FsShort(if i.status >= ERROR_BIT then i.status % 0x1_0000 else 0, i.status % 0x1_0000_0000)
      && t.ready == (i.status == SUCCESS) && t.flash == i.stream
  }

  lemma BeginsFrom(s: Session, complete: nat)
    requires Consistent(s) && !s.ready && s.received == 0 && complete <= s.headerSize == |Front(s)|
    ensures |Front(s)| < MAX_FILE
    ensures var h := Begin(s, if complete != 0 then complete else s.headerSize);
            && StartedFrom(s, complete, Front(s), h) && !h.exit
            && h.session == s.(ready := h.session.ready, flash := h.session.flash, live := h.session.live)
  {
    hide Init, Steppable, Disk.Valid, Multiple, FsShortBytes;
    if s.header.Some? {
      var front: Contents := Front(s);
      assert s.header.value[..s.headerSize] == front;
      assert complete != 0 ==> front[..complete] == s.header.value[..complete];
    }
  }

  /** Acknowledged, finished, or started: t holds the chunk already. */
  lemma FinishStores(s: Session, t: Session, at: nat, complete: nat, chunk: seq<byte>, v2: bool)
    requires Consistent(t) && at <= |Front(s)| && Front(t) == LaidOver(Front(s), at, chunk)
    requires t.headerSize == |Front(t)| < MAX_FILE && (if v2 then t.received == at + |chunk| else t.received == 0)
    requires !v2 ==> complete <= |Front(t)|
    requires Capacity(t) == (if complete > Capacity(s) then Mebibytes(complete) else Capacity(s))
    requires t.disk == s.disk && t.async == s.async && t.commit == s.commit && t.ready == s.ready
    requires !t.ready ==> t.flash == s.flash
    ensures Stored(s, at, complete, chunk, Finish(t, complete, v2))
  {
    hide Consistent, LaidOver, Begin, StartedFrom, FsShortBytes, Mebibytes;
    if |Front(t)| >= complete && !s.ready {
      Uncounted(t);
      BeginsFrom(t.(received := 0), complete);
      StartedSame(s, t.(received := 0), complete, Front(t), Begin(t.(received := 0),
        if complete != 0 then complete else t.headerSize));
    }
  }

  lemma Uncounted(t: Session)
    requires Consistent(t)
    ensures Consistent(t.(received := 0))
  {
    hide Steppable, Disk.Valid, Multiple;
  }

  lemma StartedSame(s: Session, t: Session, complete: nat, front: Contents, h: Handled)
    requires complete <= |front| && StartedFrom(t, complete, front, h)
    requires t.disk == s.disk && t.commit == s.commit && t.flash == s.flash
    ensures StartedFrom(s, complete, front, h)
  {
    hide Init, FsShort;
  }

  lemma StoreStores(s: Session, complete: nat, at: nat, chunk: seq<byte>, v2: bool)
    requires Consistent(s) && at + |chunk| <= complete < TWO_32 && complete <= 0x800_0000 && at <= s.headerSize
    requires if v2 then at == s.received else s.received == 0 && complete == |chunk| && at == 0
    ensures at <= |Front(s)|
    ensures Stored(s, at, complete, chunk, Store(s, at + |chunk|, complete, at, chunk, v2))
  {
    hide Consistent, CapacityFor, LaidOver, Reserved, Copied, Finish, Stored, Mebibytes, TooLarge, Front;
    var need := at + |chunk|;
    FrontLength(s);
    LimitIsOnBytes(s, need, complete);
    CopiedFront(s, need, complete, at, chunk, v2);
    CopiedAside(s, need, complete, at, chunk, v2);
    var t := Copied(Reserved(s, need, complete), need, at, chunk, v2);
    FrontLength(t);
    FinishStores(s, t, at, complete, chunk, v2);
  }

  lemma FrontLength(s: Session)
    requires Consistent(s)
    ensures |Front(s)| == s.headerSize < MAX_FILE
  {
    hide Steppable, Disk.Valid, Multiple;
  }

  lemma CopiedAside(s: Session, need: nat, complete: nat, at: nat, chunk: seq<byte>, v2: bool)
    requires Consistent(s) && need == at + |chunk| && need < TWO_32 && complete < TWO_32
    requires (v2 || s.received == 0) && !TooLarge(s, need, complete)
    ensures var t := Copied(Reserved(s, need, complete), need, at, chunk, v2);
            && Consistent(t) && t.ready == s.ready && t.disk == s.disk && t.commit == s.commit && t.async == s.async
            && (!s.ready ==> t.flash == s.flash)
  {
    hide Steppable, Disk.Valid, Multiple, CapacityFor, Grown, Overlay;
  }

  lemma BegunIs(s: Session, msg: seq<byte>)
    requires Consistent(s) && |msg| >= 60
    ensures var t := BegunV2(s, msg);
            && Consistent(t) && t == (if RdBe32(msg, 29) == 0 then Restarted(s) else s)
            && t.received <= t.headerSize && t.received == (if RdBe32(msg, 29) == 0 then 0 else s.received)
  {
    hide Steppable, Disk.Valid, RdBe32;
  }

  lemma StoredV1(s: Session, msg: seq<byte>)
    requires Consistent(s) && |msg| >= 16 && ComplaintV1(msg) == None
    ensures |msg| >= 32 + RdBe32(msg, 24)
    ensures Stored(s.(received := 0), 0, RdBe32(msg, 24), msg[32..32 + RdBe32(msg, 24)], HandleHeaderV1(s, msg))
  {
    hide Consistent, Store, RdBe32, Mebibytes, Stored, FsShort;
    var n := RdBe32(msg, 24);
    Uncounted(s);
    StoreStores(s.(received := 0), n, 0, msg[32..32 + n], false);
  }

  lemma StoredV2(s: Session, msg: seq<byte>)
    requires Consistent(s) && |msg| >= 16 && ComplaintV2(msg, s.received, s.header.Some?) == None
    ensures |msg| >= 60 + RdBe32(msg, 33)
    ensures var s1 := BegunV2(s, msg);
            && s1.received <= |Front(s1)|
            && Stored(s1, s1.received, RdBe32(msg, 24), msg[60..60 + RdBe32(msg, 33)], HandleHeaderV2(s, msg))
  {
    hide Consistent, Store, RdBe32, Mebibytes, Stored, FsShort, Front, BegunV2, Restarted;
    var n := RdBe32(msg, 33);
    BegunIs(s, msg);
    var s1 := BegunV2(s, msg);
    FrontLength(s1);
    StoreStores(s1, RdBe32(msg, 24), s1.received, msg[60..60 + n], true);
  }

  /** Every other header message is stored, ready or not: a one-piece packet's data, at byte 32, in front
      of the buffer, as a whole header; a chunked packet's, at byte 60, behind the bytes received so far,
      or in front of the buffer if its offset is zero, as part of a transfer of the total it names. */
  lemma HeaderStored(s: Session, msg: seq<byte>)
    requires Consistent(s) && IsHeaderMessage(msg) && ComplaintOf(s, msg) == None
    ensures RdBe32(msg, 12) == 0x0B ==>
              |msg| >= 32 + RdBe32(msg, 24) &&
              Stored(s.(received := 0), 0, RdBe32(msg, 24), msg[32..32 + RdBe32(msg, 24)], Handle(s, msg))
    ensures RdBe32(msg, 12) != 0x0B ==>
              |msg| >= 60 + RdBe32(msg, 33) &&
              var s1 := BegunV2(s, msg);
              && s1.received <= |Front(s1)|
              && Stored(s1, s1.received, RdBe32(msg, 24), msg[60..60 + RdBe32(msg, 33)], Handle(s, msg))
  {
    hide Handle, HandleHeaderV1, HandleHeaderV2, ComplaintV1, ComplaintV2, Stored, BegunV2, Front, Consistent, RdBe32,
      RdBe16;
    if SecureMessage(msg, SUBBLOCK_HEADER_V1) {
      SecureDispatch(s, msg, SUBBLOCK_HEADER_V1);
      StoredV1(s, msg);
    } else {
      SecureDispatch(s, msg, SUBBLOCK_HEADER_V2);
      StoredV2(s, msg);
    }
  }
}
