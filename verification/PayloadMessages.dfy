/** Payload packets as the dispatcher meets them, valid or not. */
module PayloadMessages {
  import opened Bytes
  import opened Proto
  import opened Session
  import opened HeaderTransfer
  import opened AsyncLaws
  import opened EndToEnd
  import opened BlockIo
  import opened StreamFlash
  import opened SessionLaws

  /** The bytes in the data field of a payload packet. */
  function Carried(msg: seq<byte>): seq<byte> {
    if |msg| < 25 then []
    else
      var form := RdBe32(msg, 12);
      var off, n := if form == 0x0C then 28 else if form == 0x1B then 32 else 64, RdBe32(msg, 20);
      if off + n <= |msg| then msg[off..off + n] else []
  }

  /** A payload packet that passes every check. */
  predicate IsPayload(msg: seq<byte>) {
    |msg| >= 25 && PayloadPacket(msg, msg[8], Carried(msg))
  }

  /** Every other payload packet is refused and changes nothing. */
  lemma BadPayloadIdle(s: Session, msg: seq<byte>)
    requires Consistent(s) && IsPayloadMessage(msg) && !IsPayload(msg)
    ensures Handle(s, msg).session == s && !Handle(s, msg).exit
  {
    hide Handle, Deliver, RdBe32, RdBe16, Consistent, FsShortBytes;
    SecureDispatch(s, msg, RdBe32(msg, 12));
  }

  /** The one answer to a message, and the host's parser accepts it as an answer to a packet that does,
      or does not, announce completion. */
  predicate HostAccepts(h: Handled, announced: bool) {
    |h.replies| == 1 && h.replies[0].Answer? && ParsePayloadResponse(h.replies[0].bytes, announced).result == STATUS_OK
  }

  lemma BadPayloadShort(s: Session, msg: seq<byte>) returns (status: u16, specifier: u32)
    requires Consistent(s) && IsPayloadMessage(msg) && !IsPayload(msg)
    ensures Handle(s, msg).replies == FsShort(status, specifier)
  {
    hide Handle, Deliver, RdBe32, RdBe16, Consistent, FsShortBytes;
    SecureDispatch(s, msg, RdBe32(msg, 12));
    var form := FormOf(RdBe32(msg, 12), RdBe16(msg, 6));
    if |msg| < 25 {
      return 8, Wrap32(|msg|);
    }
    var n := RdBe32(msg, 20);
    if RdBe32(msg, 16) != Wrap32(n as int + form.overhead) {
      return 16, RdBe32(msg, 16);
    } else if msg[24] >= 2 {
      return 8, msg[24];
    } else if !form.speaks {
      return 8, RdBe16(msg, 6);
    }
    return 16, n;
  }

  /** And the host is told so: its parser rejects the answer. */
  lemma BadPayloadRejected(s: Session, msg: seq<byte>, announced: bool)
    requires Consistent(s) && IsPayloadMessage(msg) && !IsPayload(msg)
    ensures !HostAccepts(Handle(s, msg), announced)
  {
    hide Handle, IsPayload, IsPayloadMessage, Consistent, ParsePayloadResponse, FsShortBytes;
    var status, specifier := BadPayloadShort(s, msg);
    ShortRejected(status, specifier, announced);
  }

  lemma PayloadDelivers(s: Session, msg: seq<byte>)
    requires Consistent(s) && IsPayload(msg)
    ensures |msg| >= 25 && Handle(s, msg) == Deliver(s, Carried(msg), msg[8])
  {
    hide Handle, Deliver, Carried, PayloadPacket, Consistent;
    PacketDelivers(s, msg, msg[8], Carried(msg));
  }

  /** What a payload packet must be and do for its answer to say so. */
  predicate Fine(s: Session, msg: seq<byte>)
    requires Consistent(s)
  {
    IsPayload(msg) && s.ready && Fate(s, Carried(msg)).status == SUCCESS
  }

  /** Agreement on completion over every payload packet, valid or not, that announces it: the host's
      parser accepts the answer, and the device leaves its loop, exactly if the packet passes its
      checks, flashing had started, no error was raised and every entry is flashed. */
  lemma CompletionExactly(s: Session, msg: seq<byte>)
    requires Consistent(s) && IsPayloadMessage(msg) && msg[8] == 100
    ensures var h := Handle(s, msg);
            var complete := Fine(s, msg) && Done(Fate(s, Carried(msg)).stream);
            (HostAccepts(h, true) <==> complete) && (h.exit <==> complete)
  {
    hide Handle, Deliver, Fate, IsPayload, IsPayloadMessage, Carried, ParsePayloadResponse, Consistent, Done;
    if IsPayload(msg) {
      PayloadDelivers(s, msg);
      CompletionAgreement(s, Carried(msg));
    } else {
      BadPayloadIdle(s, msg);
      BadPayloadRejected(s, msg, true);
    }
  }
}
