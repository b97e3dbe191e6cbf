/** The packet codec of src/ufp_proto.c: builders that fill a caller's buffer, each proved to lay
    out one byte string, and the parser a host applies to the device's answer. */
module Proto {
  import opened Bytes
  import opened Memory

  const STATUS_OK: u16 := 0
  const STATUS_INVALID_MSG: u16 := 33540
  const STATUS_RESP_INVALID_SIZE: u16 := 34054
  const STATUS_RESP_NO_SUBBLOCKS: u16 := 34055
  const STATUS_RESP_BAD_STATUS_LEN: u16 := 34056

  const SUBBLOCK_HEADER_V1: u32 := 0x0B
  const SUBBLOCK_PAYLOAD_V1: u32 := 0x0C
  const SUBBLOCK_PAYLOAD_V2: u32 := 0x1B
  const SUBBLOCK_PAYLOAD_V3: u32 := 0x1D
  const SUBBLOCK_HEADER_V2: u32 := 0x21

  const NOK: seq<byte> := [0x4E, 0x4F, 0x4B]
  const NOKX: seq<byte> := [0x4E, 0x4F, 0x4B, 0x58]

  // ----- the byte strings -----

  /** The 12 bytes every secure-flash answer starts with. */
  function AnswerHeadBytes(status: u16, specifier: u32): (r: seq<byte>)
    ensures |r| == 12
  {
    NOKX + [0x46, 0x53] + Be16(status) + Be32(specifier)
  }

  /** ufp_build_secure_status_response */
  function SecureStatusBytes(status: u16, specifier: u32, firstBad: u32, last: u32, finalState: byte): (r: seq<byte>)
    ensures |r| == 36
  {
    AnswerHeadBytes(status, specifier) + Zeros(3) + [1] + Be32(14) + Zeros(3) + [20]
    + Be32(firstBad) + Be32(last) + [finalState] + Zeros(3)
  }

  /** send_fs_short */
  function FsShortBytes(status: u16, specifier: u32): (r: seq<byte>)
    ensures |r| == 16
  {
    AnswerHeadBytes(status, specifier) + Zeros(4)
  }

  /** ufp_build_async_start_response */
  function AsyncStartBytes(status: u16): (r: seq<byte>)
    ensures |r| == 9
  {
    NOKX + [0x46, 0x46, 0x53] + Be16(status)
  }

  /** ufp_build_async_write_status */
  function AsyncWriteBytes(count: u32, start: u32, writeStatus: u32, last: u32, ufp: u16): (r: seq<byte>)
    ensures |r| == 27
  {
    NOKX + [0x46, 0x46, 0x57] + Be16(0) + Be32(count) + Be32(start) + Be32(writeStatus) + Be32(last) + Be16(ufp)
  }

  /** ufp_build_async_end_response */
  function AsyncEndBytes(writeStatus: u32, last: u32, ufp: u32): (r: seq<byte>)
    ensures |r| == 21
  {
    NOKX + [0x46, 0x46, 0x45] + Be16(0) + Be32(writeStatus) + Be32(last) + Be32(ufp)
  }

  /** send_legacy_flash_response */
  function LegacyBytes(status: u16, count: u32, specifier: u32): (r: seq<byte>)
    ensures |r| == 18
  {
    NOK + [0x46, 0] + Be16(status) + Zeros(3) + Be32(count) + Be32(specifier)
  }

  /** The 16 bytes every secure-flash request starts with: protocol, progress, one subblock and its id. */
  function SecureHeadBytes(protocol: byte, progress: byte, subblock: byte): (r: seq<byte>)
    ensures |r| == 16
  {
    NOKX + [0x46, 0x53, 0, protocol, progress] + Zeros(2) + [1] + Zeros(3) + [subblock]
  }

  /** The 32 bytes in front of the data of a payload packet. */
  function PayloadHeadBytes(progress: byte, dataLen: u32): (r: seq<byte>)
    requires dataLen <= MAX_PAYLOAD_DATA
    ensures |r| == 32
  {
    SecureHeadBytes(4, progress, 0x1B) + Be32(dataLen + 12) + Be32(dataLen) + Zeros(8)
  }

  /** The 60 bytes in front of the data of a V2 header packet, with its total field free. */
  function HeaderFieldBytes(absolute: u32, total: u32, fileOffset: u32, chunkLen: u32): (r: seq<byte>)
    requires chunkLen <= MAX_HEADER_DATA
    ensures |r| == 60
  {
    SecureHeadBytes(2, 0, 0x21) + Be32(chunkLen + 40) + Be32(absolute)
    + Be32(total) + [0] + Be32(fileOffset) + Be32(chunkLen) + Zeros(23)
  }

  /** The head ufp_build_secure_header_request makes: its total is the end of this chunk. */
  function HeaderHeadBytes(absolute: u32, fileOffset: u32, chunkLen: u32): (r: seq<byte>)
    requires chunkLen <= MAX_HEADER_DATA
    ensures |r| == 60
  {
    HeaderFieldBytes(absolute, Wrap32(fileOffset + chunkLen), fileOffset, chunkLen)
  }

  // ----- the buffer writers -----

  /** Bytes known to be zero extend a known prefix. */
  lemma ZeroTail(s: seq<byte>, k: nat, n: nat)
    requires k <= n <= |s| && forall i :: k <= i < n ==> s[i] == 0
    ensures s[..n] == s[..k] + Zeros(n - k)
  {
  }

  /** A run of byte stores out[at] = ..., out[at + 1] = ... */
  method Put(out: array<byte>, at: nat, b: seq<byte>)
    requires at + |b| <= out.Length
    modifies out
    ensures out[..at + |b|] == old(out[..at]) + b && forall i :: at + |b| <= i < out.Length ==> out[i] == old(out[i])
  {
    forall i | 0 <= i < |b| {
      out[at + i] := b[i];
    }
  }

  /** wr_be16 */
  method WrBe16(out: array<byte>, at: nat, v: u16)
    requires at + 2 <= out.Length
    modifies out
    ensures out[..at + 2] == old(out[..at]) + Be16(v) && forall i :: at + 2 <= i < out.Length ==> out[i] == old(out[i])
  {
    var b := Be16(v);
    out[at], out[at + 1] := b[0], b[1];
  }

  /** wr_be32 */
  method WrBe32(out: array<byte>, at: nat, v: u32)
    requires at + 4 <= out.Length
    modifies out
    ensures out[..at + 4] == old(out[..at]) + Be32(v) && forall i :: at + 4 <= i < out.Length ==> out[i] == old(out[i])
  {
    var b := Be32(v);
    out[at], out[at + 1], out[at + 2], out[at + 3] := b[0], b[1], b[2], b[3];
  }

  /** A single byte store behind a gap of zeros. */
  method PutAfterZeros(out: array<byte>, at: nat, gap: nat, b: byte)
    requires at + gap < out.Length && forall i :: at <= i < at + gap ==> out[i] == 0
    modifies out
    ensures out[..at + gap + 1] == old(out[..at]) + Zeros(gap) + [b]
    ensures forall i :: at + gap + 1 <= i < out.Length ==> out[i] == old(out[i])
  {
    out[at + gap] := b;
  }

  /** The first n bytes of a buffer now hold b, and nothing else has changed. */
  twostate predicate NowHolds(out: array<byte>, b: seq<byte>)
    requires |b| <= out.Length
    reads out
  {
    out[..|b|] == b && forall i :: |b| <= i < out.Length ==> out[i] == old(out[i])
  }

  method PutAnswerHead(out: array<byte>, status: u16, specifier: u32)
    requires 12 <= out.Length
    modifies out
    ensures out[..12] == AnswerHeadBytes(status, specifier) && forall i :: 12 <= i < out.Length ==>
              out[i] == old(out[i])
  {
    hide Be16, Be32;
    Put(out, 0, NOKX + [0x46, 0x53]);
    WrBe16(out, 6, status);
    WrBe32(out, 8, specifier);
  }

  /** ufp_build_secure_status_response */
  method BuildSecureStatusResponse(
    out: array<byte>, status: u16, specifier: u32, firstBad: u32, last: u32, finalState: byte)
    returns (n: nat)
    modifies out
    ensures out.Length < 36 ==> n == 0 && out[..] == old(out[..])
    ensures out.Length >= 36 ==>
              n == 36 && NowHolds(out, SecureStatusBytes(status, specifier, firstBad, last, finalState))
  {
    hide Be16, Be32, Zeros, AnswerHeadBytes;
    if out.Length < 36 {
      return 0;
    }
    MemSet(out, 0, 36);
    PutAnswerHead(out, status, specifier);
    PutAfterZeros(out, 12, 3, 1);
    WrBe32(out, 16, 14);
    PutAfterZeros(out, 20, 3, 20);
    WrBe32(out, 24, firstBad);
    WrBe32(out, 28, last);
    Put(out, 32, [finalState]);
    ZeroTail(out[..], 33, 36);
    n := 36;
  }

  /** ufp_build_async_start_response */
  method BuildAsyncStartResponse(out: array<byte>, status: u16) returns (n: nat)
    modifies out
    ensures out.Length < 9 ==> n == 0 && out[..] == old(out[..])
    ensures out.Length >= 9 ==> n == 9 && NowHolds(out, AsyncStartBytes(status))
  {
    hide Be16, Be32;
    if out.Length < 9 {
      return 0;
    }
    Put(out, 0, NOKX + [0x46, 0x46, 0x53]);
    WrBe16(out, 7, status);
    n := 9;
  }

  /** ufp_build_async_write_status */
  method BuildAsyncWriteStatus(out: array<byte>, count: u32, start: u32, writeStatus: u32, last: u32, ufp: u16)
    returns (n: nat)
    modifies out
    ensures out.Length < 27 ==> n == 0 && out[..] == old(out[..])
    ensures out.Length >= 27 ==> n == 27 && NowHolds(out, AsyncWriteBytes(count, start, writeStatus, last, ufp))
  {
    hide Be16, Be32;
    if out.Length < 27 {
      return 0;
    }
    Put(out, 0, NOKX + [0x46, 0x46, 0x57]);
    WrBe16(out, 7, 0);
    WrBe32(out, 9, count);
    WrBe32(out, 13, start);
    WrBe32(out, 17, writeStatus);
    WrBe32(out, 21, last);
    WrBe16(out, 25, ufp);
    n := 27;
  }

  /** ufp_build_async_end_response */
  method BuildAsyncEndResponse(out: array<byte>, writeStatus: u32, last: u32, ufp: u32) returns (n: nat)
    modifies out
    ensures out.Length < 21 ==> n == 0 && out[..] == old(out[..])
    ensures out.Length >= 21 ==> n == 21 && NowHolds(out, AsyncEndBytes(writeStatus, last, ufp))
  {
    hide Be16, Be32;
    if out.Length < 21 {
      return 0;
    }
    Put(out, 0, NOKX + [0x46, 0x46, 0x45]);
    WrBe16(out, 7, 0);
    WrBe32(out, 9, writeStatus);
    WrBe32(out, 13, last);
    WrBe32(out, 17, ufp);
    n := 21;
  }

  /** The magic, message and subblock bytes of a request, stored into a zeroed buffer. */
  method PutSecureHead(out: array<byte>, protocol: byte, progress: byte, subblock: byte)
    requires 16 <= out.Length && forall i :: 0 <= i < 16 ==> out[i] == 0
    modifies out
    ensures out[..16] == SecureHeadBytes(protocol, progress, subblock) && forall i :: 16 <= i < out.Length ==>
              out[i] == old(out[i])
  {
    hide Zeros;
    Put(out, 0, NOKX + [0x46, 0x53, 0, protocol, progress]);
    PutAfterZeros(out, 9, 2, 1);
    PutAfterZeros(out, 12, 3, subblock);
  }

  /** ufp_build_secure_payload_request: the head of a packet whose data the caller puts behind it */
  method BuildSecurePayloadRequest(out: array<byte>, progress: byte, dataLen: u32, finalPacket: bool) returns (n: nat)
    modifies out
    ensures out.Length < dataLen + 32 || dataLen > MAX_PAYLOAD_DATA ==> n == 0 && out[..] == old(out[..])
    ensures out.Length >= dataLen + 32 && dataLen <= MAX_PAYLOAD_DATA ==>
              n == dataLen + 32 && NowHolds(out, PayloadHeadBytes(if finalPacket then 100 else progress, dataLen))
  {
    hide Be16, Be32, Zeros, SecureHeadBytes;
    if out.Length < dataLen + 32 || dataLen > MAX_PAYLOAD_DATA {
      return 0;
    }
    MemSet(out, 0, 32);
    PutSecureHead(out, 4, if finalPacket then 100 else progress, 0x1B);
    WrBe32(out, 16, dataLen + 12);
    WrBe32(out, 20, dataLen);
    ZeroTail(out[..], 24, 32);
    n := dataLen + 32;
  }

  /** ufp_build_secure_header_request: its total field is file_offset + chunk_len, so only a
      single-packet transfer announces its own length */
  method BuildSecureHeaderRequest(out: array<byte>, absolute: u32, fileOffset: u32, chunkLen: u32) returns (n: nat)
    modifies out
    ensures out.Length < chunkLen + 60 || chunkLen > MAX_HEADER_DATA ==> n == 0 && out[..] == old(out[..])
    ensures out.Length >= chunkLen + 60 && chunkLen <= MAX_HEADER_DATA ==>
              n == chunkLen + 60 && NowHolds(out, HeaderHeadBytes(absolute, fileOffset, chunkLen))
  {
    hide Be16, Be32, Zeros, SecureHeadBytes;
    if out.Length < chunkLen + 60 || chunkLen > MAX_HEADER_DATA {
      return 0;
    }
    MemSet(out, 0, 60);
    PutSecureHead(out, 2, 0, 0x21);
    WrBe32(out, 16, chunkLen + 40);
    WrBe32(out, 20, absolute);
    WrBe32(out, 24, Wrap32(fileOffset + chunkLen));
    Put(out, 28, [0]);
    WrBe32(out, 29, fileOffset);
    WrBe32(out, 33, chunkLen);
    ZeroTail(out[..], 37, 60);
    n := chunkLen + 60;
  }

  // ----- the host's parser -----

  /** has_magic for application F, extension S, and 'long enough to look at' */
  predicate IsSecure(msg: seq<byte>) {
    |msg| >= 6 && msg[..4] == NOKX && msg[4] == 0x46 && msg[5] == 0x53
  }

  datatype Response = Response(status: u16, specifier: u32, lastSector: u32, finalState: byte)

  datatype Parsed = Parsed(result: u16, response: Response)

  /** ufp_parse_secure_payload_response */
  function ParsePayloadResponse(msg: seq<byte>, expectedFinal: bool): Parsed {
    var none := Response(0, 0, 0, 0);
    if |msg| < 16 then Parsed(STATUS_RESP_INVALID_SIZE, none)
    else if !IsSecure(msg) then Parsed(STATUS_INVALID_MSG, none)
    else
      var status := RdBe16(msg, 6);
      var resp := none.(status := status, specifier := RdBe32(msg, 8));
      if status != 0 then Parsed(status, resp)
      else if msg[15] == 0 then Parsed(STATUS_RESP_NO_SUBBLOCKS, resp)
      else if |msg| < 0x24 || RdBe32(msg, 16) != 14 then Parsed(STATUS_RESP_BAD_STATUS_LEN, resp)
      else
        var full := resp.(lastSector := RdBe32(msg, 28), finalState := msg[32]);
        if expectedFinal && msg[32] != 1 then Parsed(msg[32], full) else Parsed(STATUS_OK, full)
  }

  /** The host's parser never accepts a short answer: its status is an error, or it has no subblock. */
  lemma ShortRejected(status: u16, specifier: u32, expectedFinal: bool)
    ensures ParsePayloadResponse(FsShortBytes(status, specifier), expectedFinal).result != STATUS_OK
  {
    hide Be32, Be16, RdBe32;
    var m := FsShortBytes(status, specifier);
    assert m[15] == 0;
    assert m == (NOKX + [0x46, 0x53]) + Be16(status) + (Be32(specifier) + Zeros(4));
    Be16At(NOKX + [0x46, 0x53], status, Be32(specifier) + Zeros(4));
  }

  /** A field written at the end of a prefix reads back. */
  lemma Be32At(a: seq<byte>, v: u32, b: seq<byte>)
    ensures RdBe32(a + Be32(v) + b, |a|) == v
  {
  }

  lemma Be16At(a: seq<byte>, v: u16, b: seq<byte>)
    ensures RdBe16(a + Be16(v) + b, |a|) == v
  {
  }

  /** The parser reads back every field of the device's status response, and reports exactly this. */
  lemma StatusRoundTrip(status: u16, specifier: u32, firstBad: u32, last: u32, finalState: byte, expectedFinal: bool)
    ensures var p := ParsePayloadResponse(
                       SecureStatusBytes(status, specifier, firstBad, last, finalState), expectedFinal);
            && p.response.status == status && p.response.specifier == specifier
            && (status == 0 ==> p.response.lastSector == last && p.response.finalState == finalState)
            && p.result == if status != 0 then status else if expectedFinal
            && finalState != 1 then finalState else STATUS_OK
  {
    hide Be16, Be32, RdBe16, RdBe32, Zeros;
    var m := SecureStatusBytes(status, specifier, firstBad, last, finalState);
    var h := NOKX + [0x46, 0x53];
    var s, x, a := Be16(status), Be32(specifier), Zeros(3) + [1];
    var t := Zeros(3) + [20] + Be32(firstBad);
    var l, e := Be32(last), [finalState] + Zeros(3);
    assert m == h + s + x + a + Be32(14) + t + l + e;
    assert m == h + s + (x + a + Be32(14) + t + l + e);
    assert m == (h + s) + x + (a + Be32(14) + t + l + e);
    assert m == (h + s + x + a) + Be32(14) + (t + l + e);
    assert m == (h + s + x + a + Be32(14) + t) + l + e;
    Be16At(h, status, x + a + Be32(14) + t + l + e);
    Be32At(h + s, specifier, a + Be32(14) + t + l + e);
    Be32At(h + s + x + a, 14, t + l + e);
    Be32At(h + s + x + a + Be32(14) + t, last, e);
    assert m[..4] == NOKX && m[4] == 0x46 && m[5] == 0x53 && m[15] == 1 && m[32] == finalState;
  }
}
