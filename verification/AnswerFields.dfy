/** What is where in the packets of src/ufp_proto.c and the answers of src/main.c: every field of every
    layout, read back from its offset, and the host's parser on arbitrary bytes. */
module AnswerFields {
  import opened Bytes
  import opened Proto

  lemma Word(m: seq<byte>, at: nat, v: u32)
    requires at + 4 <= |m| && m[at..at + 4] == Be32(v)
    ensures RdBe32(m, at) == v
  {
    assert RdBe32(m[at..at + 4], 0) == v;
  }

  lemma Half(m: seq<byte>, at: nat, v: u16)
    requires at + 2 <= |m| && m[at..at + 2] == Be16(v)
    ensures RdBe16(m, at) == v
  {
    assert RdBe16(m[at..at + 2], 0) == v;
  }

  /** "NOKXFS", "NOKXFF" and "NOKF" */
  const SECURE: seq<byte> := [0x4E, 0x4F, 0x4B, 0x58, 0x46, 0x53]
  const ASYNC: seq<byte> := [0x4E, 0x4F, 0x4B, 0x58, 0x46, 0x46]
  const LEGACY: seq<byte> := [0x4E, 0x4F, 0x4B, 0x46]

  lemma StartsWith(m: seq<byte>, head: seq<byte>)
    requires |head| <= |m|
    ensures m[..|head|] == head <==> forall i :: 0 <= i < |head| ==> m[i] == head[i]
  {
    var front := m[..|head|];
    if front == head {
      forall i | 0 <= i < |head|
        ensures m[i] == head[i]
      {
        assert front[i] == m[i];
      }
    }
  }

  /** The first bytes of a message, one by one. */
  lemma Beginnings(m: seq<byte>)
    requires |m| >= 4
    ensures m[..3] == NOK <==> m[0] == 0x4E && m[1] == 0x4F && m[2] == 0x4B
    ensures m[..4] == NOKX <==> m[..3] == NOK && m[3] == 0x58
    ensures m[..4] == LEGACY <==> m[..3] == NOK && m[3] == 0x46
    ensures |m| >= 6 ==> (m[..6] == SECURE <==> m[..3] == NOK && m[3] == 0x58 && m[4] == 0x46 && m[5] == 0x53)
    ensures |m| >= 6 ==> (m[..6] == ASYNC <==> m[..3] == NOK && m[3] == 0x58 && m[4] == 0x46 && m[5] == 0x46)
  {
    StartsWith(m, NOK);
    StartsWith(m, NOKX);
    StartsWith(m, LEGACY);
    if |m| >= 6 {
      StartsWith(m, SECURE);
      StartsWith(m, ASYNC);
    }
  }

  lemma ShortFields(status: u16, specifier: u32)
    ensures var m := FsShortBytes(status, specifier);
            && |m| == 16 && m[..6] == SECURE && RdBe16(m, 6) == status && RdBe32(m, 8) == specifier
            && m[12] == m[13] == m[14] == m[15] == 0
  {
    hide Be16, Be32, RdBe16, RdBe32;
    var m := FsShortBytes(status, specifier);
    StartsWith(m, SECURE);
    assert m[6..8] == Be16(status) && m[8..12] == Be32(specifier);
    Half(m, 6, status);
    Word(m, 8, specifier);
  }

  lemma StatusFields(status: u16, specifier: u32, firstBad: u32, last: u32, finalState: byte)
    ensures var m := SecureStatusBytes(status, specifier, firstBad, last, finalState);
            && |m| == 36 && m[..6] == SECURE && RdBe16(m, 6) == status && RdBe32(m, 8) == specifier
            && m[12] == m[13] == m[14] == 0 && m[15] == 1
            && RdBe32(m, 16) == 14 && m[20] == m[21] == m[22] == 0 && m[23] == 20
            && RdBe32(m, 24) == firstBad && RdBe32(m, 28) == last && m[32] == finalState
            && m[33] == m[34] == m[35] == 0
  {
    hide Be16, Be32, RdBe16, RdBe32;
    var m := SecureStatusBytes(status, specifier, firstBad, last, finalState);
    StartsWith(m, SECURE);
    assert m[6..8] == Be16(status) && m[8..12] == Be32(specifier) && m[16..20] == Be32(14);
    assert m[24..28] == Be32(firstBad) && m[28..32] == Be32(last);
    Half(m, 6, status);
    Word(m, 8, specifier);
    Word(m, 16, 14);
    Word(m, 24, firstBad);
    Word(m, 28, last);
  }

  lemma AsyncStartFields(status: u16)
    ensures var m := AsyncStartBytes(status);
            |m| == 9 && m[..6] == ASYNC && m[6] == 0x53 && RdBe16(m, 7) == status
  {
    hide Be16, RdBe16;
    var m := AsyncStartBytes(status);
    StartsWith(m, ASYNC);
    assert m[7..9] == Be16(status);
    Half(m, 7, status);
  }

  lemma AsyncWriteFields(count: u32, start: u32, writeStatus: u32, last: u32, ufp: u16)
    ensures var m := AsyncWriteBytes(count, start, writeStatus, last, ufp);
            && |m| == 27 && m[..6] == ASYNC && m[6] == 0x57 && RdBe16(m, 7) == 0
            && RdBe32(m, 9) == count && RdBe32(m, 13) == start && RdBe32(m, 17) == writeStatus
            && RdBe32(m, 21) == last && RdBe16(m, 25) == ufp
  {
    hide Be16, Be32, RdBe16, RdBe32;
    var m := AsyncWriteBytes(count, start, writeStatus, last, ufp);
    StartsWith(m, ASYNC);
    assert m[7..9] == Be16(0) && m[9..13] == Be32(count) && m[13..17] == Be32(start);
    assert m[17..21] == Be32(writeStatus) && m[21..25] == Be32(last) && m[25..27] == Be16(ufp);
    Half(m, 7, 0);
    Word(m, 9, count);
    Word(m, 13, start);
    Word(m, 17, writeStatus);
    Word(m, 21, last);
    Half(m, 25, ufp);
  }

  lemma AsyncEndFields(writeStatus: u32, last: u32, ufp: u32)
    ensures var m := AsyncEndBytes(writeStatus, last, ufp);
            && |m| == 21 && m[..6] == ASYNC && m[6] == 0x45 && RdBe16(m, 7) == 0
            && RdBe32(m, 9) == writeStatus && RdBe32(m, 13) == last && RdBe32(m, 17) == ufp
  {
    hide Be16, Be32, RdBe16, RdBe32;
    var m := AsyncEndBytes(writeStatus, last, ufp);
    StartsWith(m, ASYNC);
    assert m[7..9] == Be16(0) && m[9..13] == Be32(writeStatus) && m[13..17] == Be32(last) && m[17..21] == Be32(ufp);
    Half(m, 7, 0);
    Word(m, 9, writeStatus);
    Word(m, 13, last);
    Word(m, 17, ufp);
  }

  lemma LegacyFields(status: u16, count: u32, specifier: u32)
    ensures var m := LegacyBytes(status, count, specifier);
            && |m| == 18 && m[..4] == LEGACY && m[4] == 0 && RdBe16(m, 5) == status && m[7] == m[8] == m[9] == 0
            && RdBe32(m, 10) == count && RdBe32(m, 14) == specifier
  {
    hide Be16, Be32, RdBe16, RdBe32;
    var m := LegacyBytes(status, count, specifier);
    StartsWith(m, LEGACY);
    assert m[5..7] == Be16(status) && m[10..14] == Be32(count) && m[14..18] == Be32(specifier);
    Half(m, 5, status);
    Word(m, 10, count);
    Word(m, 14, specifier);
  }

  /** The first 16 bytes of a request. */
  predicate RequestHead(m: seq<byte>, protocol: byte, progress: byte, subblock: byte) {
    && |m| >= 16 && m[..6] == SECURE && m[6] == 0 && m[7] == protocol && m[8] == progress && m[9] == m[10] == 0
    && m[11] == 1 && m[12] == m[13] == m[14] == 0 && m[15] == subblock
  }

  lemma SecureHeadFields(m: seq<byte>, protocol: byte, progress: byte, subblock: byte)
    requires |m| >= 16 && m[..16] == SecureHeadBytes(protocol, progress, subblock)
    ensures RequestHead(m, protocol, progress, subblock)
  {
    var head := m[..16];
    assert forall i :: 0 <= i < 16 ==> m[i] == head[i];
    StartsWith(m, SECURE);
  }

  /** What the host's builder puts in front of the data of a header packet. */
  lemma HeaderHeadFields(absolute: u32, fileOffset: u32, n: u32)
    requires n <= MAX_HEADER_DATA
    ensures var m := HeaderHeadBytes(absolute, fileOffset, n);
            && |m| == 60 && RequestHead(m, 2, 0, 0x21)
            && RdBe32(m, 16) == n + 40 && RdBe32(m, 20) == absolute
            && RdBe32(m, 24) == (fileOffset + n) % 0x1_0000_0000
            && m[28] == 0 && RdBe32(m, 29) == fileOffset && RdBe32(m, 33) == n && m[37] == 0
  {
    hide Be16, Be32, RdBe16, RdBe32, SecureHeadBytes, RequestHead;
    var m := HeaderHeadBytes(absolute, fileOffset, n);
    assert m[..16] == SecureHeadBytes(2, 0, 0x21);
    SecureHeadFields(m, 2, 0, 0x21);
    assert m[16..20] == Be32(n + 40) && m[20..24] == Be32(absolute);
    assert m[24..28] == Be32(Wrap32(fileOffset + n)) && m[29..33] == Be32(fileOffset) && m[33..37] == Be32(n);
    Word(m, 16, n + 40);
    Word(m, 20, absolute);
    Word(m, 24, Wrap32(fileOffset + n));
    Word(m, 29, fileOffset);
    Word(m, 33, n);
  }

  /** And in front of that of a payload packet. */
  lemma PayloadHeadFields(progress: byte, n: u32)
    requires n <= MAX_PAYLOAD_DATA
    ensures var m := PayloadHeadBytes(progress, n);
            && |m| == 32 && RequestHead(m, 4, progress, 0x1B)
            && RdBe32(m, 16) == n + 12 && RdBe32(m, 20) == n && m[24] == 0
  {
    hide Be16, Be32, RdBe16, RdBe32, SecureHeadBytes, RequestHead;
    var m := PayloadHeadBytes(progress, n);
    assert m[..16] == SecureHeadBytes(4, progress, 0x1B);
    SecureHeadFields(m, 4, progress, 0x1B);
    assert m[16..20] == Be32(n + 12) && m[20..24] == Be32(n);
    Word(m, 16, n + 12);
    Word(m, 20, n);
  }

  /** The host's verdict on any bytes it receives as the answer to a payload packet. */
  lemma ParserVerdict(m: seq<byte>, expectedFinal: bool)
    ensures ParsePayloadResponse(m, expectedFinal).result ==
            if |m| < 16 then 34054
            else if m[..6] != SECURE then 33540
            else if RdBe16(m, 6) != 0 then RdBe16(m, 6)
            else if m[15] == 0 then 34055
            else if |m| < 36 || RdBe32(m, 16) != 14 then 34056
            else if expectedFinal && m[32] != 1 then m[32]
            else 0
    ensures |m| >= 16 && m[..6] == SECURE ==>
              var r := ParsePayloadResponse(m, expectedFinal).response;
              && r.status == RdBe16(m, 6) && r.specifier == RdBe32(m, 8)
              && (|m| >= 36 && r.status == 0 && m[15] != 0 && RdBe32(m, 16) == 14 ==>
                    r.lastSector == RdBe32(m, 28) && r.finalState == m[32])
  {
    hide RdBe16, RdBe32;
    if |m| >= 16 {
      Beginnings(m);
    }
  }
}
