/** The dispatcher in bytes: what each message of the session means, where a payload packet has its
    data, how it is refused, and what the answer to it says. */
module MessageTables {
  import opened Bytes
  import opened BlockIo
  import opened StreamFlash
  import opened Proto
  import opened Session
  import opened SessionLaws
  import opened HeaderTransfer
  import opened HeaderPackets
  import opened AnswerFields

  // ----- payload packets -----

  /** What is wrong with a payload packet whose data starts at `offset` and whose length field counts
      `overhead` bytes more than its data; `speaks` says whether its protocol has this form. */
  function PayloadComplaint(msg: seq<byte>, offset: nat, overhead: nat, speaks: bool): Option<Complaint>
    requires |msg| >= 16
  {
    if |msg| < 25 then Some(Complaint(8, |msg|))
    else
      var n := RdBe32(msg, 20);
      if RdBe32(msg, 16) != (n + overhead) % 0x1_0000_0000 then Some(Complaint(16, RdBe32(msg, 16)))
      else if msg[24] >= 2 then Some(Complaint(8, msg[24]))
      else if !speaks then Some(Complaint(8, RdBe16(msg, 6)))
      else if n > 0x1F_FC18 || |msg| < offset + n then Some(Complaint(16, n))
      else None
  }

  /** h is the refusal of the packet, if there is something wrong with it, and changes nothing; otherwise
      it delivers the data from `offset` on. */
  predicate Answers(s: Session, msg: seq<byte>, offset: nat, overhead: nat, speaks: bool, h: Handled)
    requires Consistent(s) && |msg| >= 16
  {
    match PayloadComplaint(msg, offset, overhead, speaks)
    case Some(c) => c.status != 0 && h == Handled(s, FsShort(c.status, c.specifier), false)
    case None =>
      |msg| >= offset + RdBe32(msg, 20) && h == Deliver(s, msg[offset..offset + RdBe32(msg, 20)], msg[8])
  }

  lemma FormHandled(s: Session, msg: seq<byte>, offset: nat, overhead: nat, speaks: bool, subblock: u32)
    requires Consistent(s) && |msg| >= 16
    requires FormOf(subblock, RdBe16(msg, 6)) == PayloadForm(offset, overhead, speaks)
    ensures Answers(s, msg, offset, overhead, speaks, HandlePayload(s, msg, RdBe16(msg, 6), subblock))
  {
    hide Consistent, Deliver, RdBe32, RdBe16, FsShortBytes, FormOf;
  }

  /** The three payload forms. Subblock 0x0C has its data at byte 28 and speaks protocols 1 and 2; 0x1B at
      byte 32 and 4 and 8; 0x1D at byte 64 and 16. Whatever the packet, it is delivered or refused by
      these numbers, with a status that is not a success. */
  lemma PayloadForms(s: Session, msg: seq<byte>)
    requires Consistent(s)
    ensures SecureMessage(msg, 0x0C) ==> Answers(s, msg, 28, 8, RdBe16(msg, 6) % 4 != 0, Handle(s, msg))
    ensures SecureMessage(msg, 0x1B) ==> Answers(s, msg, 32, 12, RdBe16(msg, 6) / 4 % 4 != 0, Handle(s, msg))
    ensures SecureMessage(msg, 0x1D) ==> Answers(s, msg, 64, 44, RdBe16(msg, 6) / 16 % 2 != 0, Handle(s, msg))
  {
    hide Handle, HandlePayload, Consistent, Answers, RdBe16, RdBe32;
    if SecureMessage(msg, 0x0C) {
      SecureDispatch(s, msg, 0x0C);
      FormHandled(s, msg, 28, 8, RdBe16(msg, 6) % 4 != 0, 0x0C);
    }
    if SecureMessage(msg, 0x1B) {
      SecureDispatch(s, msg, 0x1B);
      FormHandled(s, msg, 32, 12, RdBe16(msg, 6) / 4 % 4 != 0, 0x1B);
    }
    if SecureMessage(msg, 0x1D) {
      SecureDispatch(s, msg, 0x1D);
      FormHandled(s, msg, 64, 44, RdBe16(msg, 6) / 16 % 2 != 0, 0x1D);
    }
  }

  /** The answer to delivered data, field by field: status 6 before the start, else the low 16 bits of the
      error, else 8 if completion is announced too early; the error's low 32 bits; the last sector
      written; and the final state. */
  lemma DeliveryAnswer(s: Session, data: seq<byte>, progress: byte)
    requires Consistent(s)
    ensures var h, r := Deliver(s, data, progress), Fate(s, data);
            var done := progress == 100 && Done(r.stream);
            var failure := if !s.ready then 6 else if r.status >= ERROR_BIT then r.status % 0x1_0000 else 0;
            && h.session == s.(flash := r.stream, disk := r.disk)
            && |h.replies| == 1 && h.replies[0].Answer?
            && var m := h.replies[0].bytes;
            && |m| == 36 && m[..6] == SECURE
            && RdBe16(m, 6) == (if progress == 100 && !done && failure == 0 then 8 else failure)
            && RdBe32(m, 8) == (if r.status >= ERROR_BIT then r.status % 0x1_0000_0000 else 0)
            && m[12] == m[13] == m[14] == 0 && m[15] == 1
            && RdBe32(m, 16) == 14 && m[20] == m[21] == m[22] == 0 && m[23] == 20
            && RdBe32(m, 24) == 0xFFFF_FFFF && RdBe32(m, 28) == r.stream.lastSector
            && m[32] == (if done then 1 else 0) && m[33] == m[34] == m[35] == 0
            && (h.exit <==> done && failure == 0)
  {
    hide Consistent, Feed, Done, SecureStatusBytes, RdBe16, RdBe32;
    var r := Fate(s, data);
    var status: u16 := if !s.ready then 6 else StatusFromEfi(r.status);
    var specifier: u32 := if IsError(r.status) then Wrap32(r.status) else 0;
    var finalState: byte := if progress == 100 && Done(r.stream) then 1 else 0;
    StatusFields(
      if progress == 100 && finalState == 0 && status == 0 then 8 else status, specifier, 0xFFFF_FFFF,
      r.stream.lastSector, finalState);
  }

  // ----- secure messages of no kind -----

  predicate IsSecureMessage(msg: seq<byte>) {
    |msg| >= 6 && msg[..6] == SECURE
  }

  lemma SecureIs(s: Session, msg: seq<byte>)
    requires Consistent(s) && IsSecureMessage(msg)
    ensures Handle(s, msg) == HandleSecure(s, msg)
  {
    hide Consistent, HandleSecure, HandleLegacy, HandleAsync;
    Beginnings(msg);
  }

  /** What is wrong with a secure-flash message before its subblock is looked at, and with its subblock. */
  function SecureComplaint(msg: seq<byte>): Option<Complaint> {
    if |msg| < 16 then Some(Complaint(8, |msg|))
    else if RdBe16(msg, 6) == 0 || RdBe16(msg, 6) >= 32 then Some(Complaint(8, RdBe16(msg, 6)))
    else if msg[11] != 1 then Some(Complaint(15, msg[11]))
    else if RdBe32(msg, 12) !in {0x0B, 0x0C, 0x1B, 0x1D, 0x21} then Some(Complaint(14, RdBe32(msg, 12)))
    else None
  }

  /** It is refused so, and nothing changes. */
  lemma SecureMessageRefused(s: Session, msg: seq<byte>)
    requires Consistent(s) && IsSecureMessage(msg)
    ensures match SecureComplaint(msg)
            case Some(c) => c.status != 0 && Handle(s, msg) == Handled(s, FsShort(c.status, c.specifier), false)
            case None => SecureMessage(msg, RdBe32(msg, 12))
  {
    hide Handle, HandleHeaderV1, HandleHeaderV2, HandlePayload, Consistent, RdBe16, RdBe32, FsShortBytes;
    SecureIs(s, msg);
    Beginnings(msg);
  }

  // ----- the other messages -----

  /** What the loop does with a message that is neither a sector write nor a secure-flash message. */
  datatype Kind = Hello | Unheard | Leave | Question | Reboot | Strange

  /** "NOKI"; "NOKS" and "NOKN", and less than a header; "NOKR", "NOKM" and "NOKZ"; "NOKV", "NOKT", "NOKXC."
      and the parameter and log messages; "NOKXCBR"; anything else. */
  function KindOf(msg: seq<byte>): Kind {
    if |msg| < 4 then Unheard
    else if msg[..3] != [0x4E, 0x4F, 0x4B] then Strange
    else if msg[3] == 0x49 then Hello
    else if msg[3] in {0x53, 0x4E} then Unheard
    else if msg[3] in {0x52, 0x4D, 0x5A} then Leave
    else if msg[3] in {0x56, 0x54} then Question
    else if |msg| < 6 || msg[3] != 0x58 then Strange
    else if msg[4] == 0x43 then if |msg| >= 7 && msg[5] == 0x42 && msg[6] == 0x52 then Reboot else Question
    else if msg[4] == 0x46 && msg[5] in {0x52, 0x57, 0x49, 0x4F, 0x54, 0x58} then Question
    else Strange
  }

  /** None of them changes anything: hellos and strange messages get a fixed answer, questions an answer,
      and the others none; only the reboot and the mode switches end the session. */
  lemma OtherMessages(s: Session, msg: seq<byte>)
    requires Consistent(s) && !(|msg| >= 4 && msg[..4] == LEGACY)
    requires !(|msg| >= 6 && (msg[..6] == SECURE || msg[..6] == ASYNC))
    ensures Handle(s, msg) ==
            match KindOf(msg)
            case Hello => Handled(s, [Answer([0x4E, 0x4F, 0x4B, 0x49])], false)
            case Unheard => Handled(s, [], false)
            case Leave => Handled(s, [], true)
            case Question => Handled(s, [Opaque], false)
            case Reboot => Handled(s, [Opaque], true)
            case Strange => Handled(s, [Answer([0x4E, 0x4F, 0x4B, 0x55])], false)
  {
    hide Consistent, HandleSecure, HandleLegacy, HandleAsync;
    if |msg| >= 4 {
      Beginnings(msg);
    }
    assert NOK + [0x49] == [0x4E, 0x4F, 0x4B, 0x49] && NOK + [0x55] == [0x4E, 0x4F, 0x4B, 0x55];
  }
}
