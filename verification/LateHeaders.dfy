/** Header packets that arrive after flashing has started. The running context reads its descriptors
    from the session's own header buffer, so such a packet can change what it reads. */
module LateHeaders {
  import opened Bytes
  import opened BlockIo
  import opened StreamFlash
  import opened Proto
  import opened Session
  import opened HeaderTransfer
  import opened AsyncLaws
  import opened PayloadMessages

  /** Where a header packet puts its chunk, and the lengths it makes the buffer hold. */
  datatype Placement = Placement(at: nat, need: nat, complete: nat, chunk: seq<byte>)

  /** The placement of a one-piece packet, if it passes its checks. */
  function PlacementV1(msg: seq<byte>): (r: Option<Placement>)
    requires |msg| >= 16
    ensures r.Some? ==> r.value.at + |r.value.chunk| == r.value.need == r.value.complete < TWO_32
  {
    if |msg| < 32 then None
    else
      var n := RdBe32(msg, 24);
      if RdBe32(msg, 16) == Wrap32(n as int + 12) && msg[28] < 0x40 && msg[29] == 0 && n <= MAX_HEADER_DATA
        && 32 + n <= |msg|
      then Some(Placement(0, n, n, msg[32..32 + n]))
      else None
  }

  /** The placement of a chunked packet, if it passes its checks: behind the bytes received so far,
      or at the front if its offset is zero. */
  function PlacementV2(s: Session, msg: seq<byte>): (r: Option<Placement>)
    requires |msg| >= 16
    ensures r.Some? ==> r.value.at + |r.value.chunk| == r.value.need < TWO_32 && r.value.complete < TWO_32
    ensures r.Some? && r.value.complete == 0 ==> r.value.need == 0
  {
    if |msg| < 60 then None
    else
      var total, offset, n := RdBe32(msg, 24), RdBe32(msg, 29), RdBe32(msg, 33);
      if s.received as int + n as int <= total && msg[28] < 0x40 && (msg[28] == 0 || msg[37] == 0)
         && n <= MAX_HEADER_DATA && 60 + n <= |msg| && (offset == 0 || s.header.Some?)
      then
        var at := if offset == 0 then 0 else s.received;
        Some(Placement(at, at + n, if total == 0 then at + n else total, msg[60..60 + n]))
      else None
  }

  function PlacementOf(s: Session, msg: seq<byte>): (r: Option<Placement>)
    ensures r.Some? ==> r.value.at + |r.value.chunk| == r.value.need < TWO_32 && r.value.complete < TWO_32
  {
    if SecureMessage(msg, SUBBLOCK_HEADER_V1) then PlacementV1(msg)
    else if SecureMessage(msg, SUBBLOCK_HEADER_V2) then PlacementV2(s, msg)
    else None
  }

  /** h with the part of the chunk that lies in front of its end laid over it. */
  function Laid(h: seq<byte>, at: nat, chunk: seq<byte>): (r: seq<byte>)
    ensures |r| == |h|
    ensures forall i :: 0 <= i < |h| ==> r[i] == if at <= i < at + |chunk| then chunk[i - at] else h[i]
  {
    seq(|h|, i requires 0 <= i < |h| => if at <= i < at + |chunk| then chunk[i - at] else h[i])
  }

  /** The chunk repeats what h already has in its place. */
  predicate Repeats(h: seq<byte>, at: nat, chunk: seq<byte>) {
    forall k :: 0 <= k < |chunk| && at + k < |h| ==> chunk[k] == h[at + k]
  }

  lemma LaidRepeats(h: seq<byte>, at: nat, chunk: seq<byte>)
    ensures Laid(h, at, chunk) == h <==> Repeats(h, at, chunk)
  {
    var r := Laid(h, at, chunk);
    if r == h {
      forall k | 0 <= k < |chunk| && at + k < |h|
        ensures chunk[k] == h[at + k]
      {
        assert r[at + k] == chunk[k];
      }
    } else {
      var i :| 0 <= i < |h| && r[i] != h[i];
      assert chunk[i - at] != h[at + (i - at)];
    }
  }

  // ----- what a stored chunk does to a running context -----

  /** Copying into the shared buffer lays the chunk over the context's header. */
  lemma PastedUnder(s: Session, at: nat, chunk: seq<byte>)
    requires Consistent(s) && s.live && at + |chunk| <= Capacity(s)
    ensures Pasted(s, at, chunk).live
    ensures Pasted(s, at, chunk).flash == s.flash.(header := Laid(s.flash.header, at, chunk))
  {
    hide Steppable, Disk.Valid, Multiple;
    var n := |s.flash.header|;
    assert Overlay(s.header.value, at, chunk)[..n] == Laid(s.flash.header, at, chunk);
  }

  /** Refused for its size, moved away from under the context, or laid over what the context reads. */
  predicate Meets(s: Session, p: Placement, h: Handled)
    requires p.need < TWO_32 && p.complete < TWO_32
  {
    && h.session.ready && !h.exit
    && (TooLarge(s, p.need, p.complete) ==> h.session.live && h.session.flash == s.flash)
    && (!TooLarge(s, p.need, p.complete) ==> h.replies == FsShort(0, 0))
    && (!TooLarge(s, p.need, p.complete) && MustGrow(s, p.need, p.complete) ==>
          !h.session.live && h.session.flash == s.flash)
    && (!MustGrow(s, p.need, p.complete) ==>
          h.session.live && h.session.flash == s.flash.(header := Laid(s.flash.header, p.at, p.chunk)))
  }

  lemma StoreMeets(s: Session, p: Placement, v2: bool)
    requires Consistent(s) && s.ready && s.live && (v2 || s.received == 0)
    requires p.at + |p.chunk| == p.need < TWO_32 && p.complete < TWO_32 && (p.complete == 0 ==> p.need == 0)
    ensures Meets(s, p, Store(s, p.need, p.complete, p.at, p.chunk, v2))
  {
    hide Consistent, CapacityFor, FsShortBytes, Laid, Realiased, Overlay, Begin;
    if !TooLarge(s, p.need, p.complete) {
      var r := Reserved(s, p.need, p.complete);
      if !MustGrow(s, p.need, p.complete) {
        PastedUnder(s, p.at, p.chunk);
      } else {
        PastedAside(r, p.at, p.chunk);
      }
      hide Pasted, Grown;
    }
  }

  lemma PastedAside(s: Session, at: nat, chunk: seq<byte>)
    requires Consistent(s) && !s.live && at + |chunk| <= Capacity(s)
    ensures !Pasted(s, at, chunk).live && Pasted(s, at, chunk).flash == s.flash
  {
    hide Consistent, Overlay;
  }

  lemma ReceivedIrrelevant(s: Session, n: u32, p: Placement, h: Handled)
    requires p.need < TWO_32 && p.complete < TWO_32 && Meets(s.(received := n), p, h)
    ensures Meets(s, p, h)
  {
    hide Laid, CapacityFor, FsShort;
  }

  lemma V1Meets(s: Session, msg: seq<byte>)
    requires Consistent(s) && s.ready && s.live && |msg| >= 16
    ensures var h := HandleHeaderV1(s, msg);
            match PlacementV1(msg)
            case None => h.session == s.(received := h.session.received)
            case Some(p) => Meets(s, p, h)
  {
    hide Store, RdBe32, Wrap32, FsShortBytes, Meets, Disk.Valid, Multiple, Steppable;
    var s1 := s.(received := 0);
    assert Consistent(s1);
    if PlacementV1(msg).Some? {
      var p := PlacementV1(msg).value;
      StoreMeets(s1, p, false);
      ReceivedIrrelevant(s, 0, p, Store(s1, p.need, p.complete, p.at, p.chunk, false));
    }
  }

  lemma V2Meets(s: Session, msg: seq<byte>)
    requires Consistent(s) && s.ready && s.live && |msg| >= 16
    ensures var h := HandleHeaderV2(s, msg);
            match PlacementV2(s, msg)
            case None => h.session == s
            case Some(p) => Meets(s, p, h)
  {
    hide Store, RdBe32, Wrap32, FsShortBytes, Meets, Disk.Valid, Multiple, Steppable;
    if PlacementV2(s, msg).Some? {
      var p := PlacementV2(s, msg).value;
      var s1 := if RdBe32(msg, 29) == 0 then Restarted(s) else s;
      StoreMeets(s1, p, true);
      ReceivedIrrelevant(s, s1.received, p, Store(s1, p.need, p.complete, p.at, p.chunk, true));
    }
  }

  /** What every late header packet does to the running context: nothing if it fails a check or asks
      for too large a buffer; it cuts the context off from the buffer if the buffer must grow; and
      otherwise it is acknowledged and lies over what the context reads. */
  lemma LateHeaderOverwrites(s: Session, msg: seq<byte>)
    requires Consistent(s) && s.ready && s.live && IsHeaderMessage(msg)
    ensures var h := Handle(s, msg);
            match PlacementOf(s, msg)
            case None => h.session == s.(received := h.session.received)
            case Some(p) => Meets(s, p, h)
  {
    hide Handle, HandleHeaderV1, HandleHeaderV2, Meets, PlacementV1, PlacementV2, Consistent;
    if SecureMessage(msg, SUBBLOCK_HEADER_V1) {
      SecureDispatch(s, msg, SUBBLOCK_HEADER_V1);
      V1Meets(s, msg);
    } else {
      SecureDispatch(s, msg, SUBBLOCK_HEADER_V2);
      V2Meets(s, msg);
    }
  }

  // ----- exactly the harmless messages -----

  /** The message is no header packet that is stored; or its chunk needs no larger buffer and repeats
      the header bytes it falls on. */
  predicate Harmless(s: Session, msg: seq<byte>) {
    match PlacementOf(s, msg)
    case None => true
    case Some(p) =>
      TooLarge(s, p.need, p.complete) ||
      (!MustGrow(s, p.need, p.complete) && Repeats(s.flash.header, p.at, p.chunk))
  }

  /** Every other message leaves what the context reads alone. */
  lemma OthersKeepHeader(s: Session, msg: seq<byte>)
    requires Consistent(s) && s.ready && s.live && !IsHeaderMessage(msg)
    ensures var t := Handle(s, msg).session;
            t.ready && t.live && t.flash.header == s.flash.header
  {
    if IsPayload(msg) {
      PayloadDelivers(s, msg);
      FeedKeepsHeader(s, Carried(msg));
    } else if IsPayloadMessage(msg) {
      BadPayloadIdle(s, msg);
    } else {
      IdleOtherwise(s, msg);
    }
    hide Handle, IsPayload, IsPayloadMessage, IsHeaderMessage, Carried, Feed, SecureStatusBytes, Consistent;
  }

  lemma MeetsHarmless(s: Session, p: Placement, h: Handled)
    requires p.need < TWO_32 && p.complete < TWO_32 && Meets(s, p, h)
    ensures var harmless := TooLarge(s, p.need, p.complete) ||
                            (!MustGrow(s, p.need, p.complete) && Repeats(s.flash.header, p.at, p.chunk));
            && (h.session.live && h.session.flash.header == s.flash.header <==> harmless)
            && (harmless ==> h.session.live && h.session.ready && h.session.flash == s.flash)
  {
    hide Laid, Repeats, CapacityFor, FsShort;
    LaidRepeats(s.flash.header, p.at, p.chunk);
  }

  /** For every message to a running session: its context goes on reading the same header from the
      live buffer if and only if the message is harmless. */
  lemma HeaderStaysExactly(s: Session, msg: seq<byte>)
    requires Consistent(s) && s.ready && s.live
    ensures var t := Handle(s, msg).session;
            t.ready && (t.live && t.flash.header == s.flash.header <==> Harmless(s, msg))
  {
    hide Handle, SecureMessage, PlacementV1, PlacementV2, Meets, TooLarge, MustGrow, Repeats, Consistent;
    if IsHeaderMessage(msg) {
      LateHeaderOverwrites(s, msg);
      if PlacementOf(s, msg).Some? {
        var p := PlacementOf(s, msg).value;
        MeetsHarmless(s, p, Handle(s, msg));
        MeetsReady(s, p, Handle(s, msg));
      }
    } else {
      OthersKeepHeader(s, msg);
    }
  }

  lemma MeetsReady(s: Session, p: Placement, h: Handled)
    requires p.need < TWO_32 && p.complete < TWO_32 && Meets(s, p, h)
    ensures h.session.ready
  {
  }
}
