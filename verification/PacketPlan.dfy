/** ffu_packet_dry_run (src/ffu.c): the packet plan, the greedy split it counts, and a whole
    transfer made of packets in that split. */
module PacketPlan {
  import opened Bytes
  import opened FfuLayout
  import opened Proto
  import opened HeaderTransfer
  import opened EndToEnd
  import DirectLaws
  import SameDisk
  import Session
  import PlanFacts

  /** Packets needed for n bytes at m bytes each. */
  function PacketsFor(n: nat, m: nat): nat
    requires 0 < m
  {
    (n + m - 1) / m
  }

  /** The counters after n payload bytes: full packets, and bytes in the open one. */
  predicate Tally(n: nat, full: nat, open: nat) {
    n == full * MAX_PAYLOAD_DATA + open && open < MAX_PAYLOAD_DATA
  }

  /** The counting loops. The counters are 64- and 32-bit; both stay far below their range. */
  method CountPayloadPackets(entries: seq<WriteEntry>) returns (packets: nat)
    ensures packets == PacketsFor(PrefixBytes(entries, |entries|), MAX_PAYLOAD_DATA)
  {
    packets := 0;
    var inPacket: u32 := 0;
    for i := 0 to |entries|
      invariant Tally(PrefixBytes(entries, i), packets, inPacket)
    {
      var left: u32 := entries[i].byteCount;
      while left > 0
        invariant left <= entries[i].byteCount
        invariant Tally(PrefixBytes(entries, i) + entries[i].byteCount - left, packets, inPacket)
      {
        var room := MAX_PAYLOAD_DATA - inPacket;
        var take := if left < room then left else room;
        inPacket := inPacket + take;
        left := left - take;
        if inPacket == MAX_PAYLOAD_DATA {
          packets := packets + 1;
          inPacket := 0;
        }
      }
    }
    if inPacket > 0 {
      packets := packets + 1;
    }
  }

  /** ffu_packet_dry_run: header packets, and payload packets plus the final one. */
  method FfuPacketDryRun(plan: Plan) returns (headerPackets: u64, payloadPackets: nat)
    ensures plan.headerSize < TWO_64 - MAX_HEADER_DATA ==> headerPackets == PacketsFor(plan.headerSize, MAX_HEADER_DATA)
    ensures payloadPackets == PacketsFor(PrefixBytes(plan.entries, |plan.entries|), MAX_PAYLOAD_DATA) + 1
    ensures |plan.entries| < TWO_32 && plan.totalPayloadBytes == Wrap64(PrefixBytes(plan.entries, |plan.entries|)) ==>
              payloadPackets == PacketsFor(plan.totalPayloadBytes, MAX_PAYLOAD_DATA) + 1
  {
    headerPackets := Wrap64(plan.headerSize + MAX_HEADER_DATA - 1) / MAX_HEADER_DATA;
    payloadPackets := CountPayloadPackets(plan.entries);
    payloadPackets := payloadPackets + 1;
    PlanFacts.PrefixGrows(plan.entries, 0, |plan.entries|);
  }

  // ----- the greedy split -----

  /** w cut into packets of m bytes, the last one shorter if need be. */
  function Greedy(w: seq<byte>, m: nat): (r: seq<seq<byte>>)
    requires 0 < m
    ensures Concat(r) == w
    ensures forall k :: 0 <= k < |r| ==> 0 < |r[k]| <= m
    decreases |w|
  {
    if w == [] then []
    else if |w| <= m then
      assert Concat([w]) == w + Concat([]);
      [w]
    else
      var rest := Greedy(w[m..], m);
      assert ([w[..m]] + rest)[1..] == rest;
      [w[..m]] + rest
  }

  lemma OnePacketOrNone(n: nat, m: nat)
    requires 0 < m && n <= m
    ensures PacketsFor(n, m) == if n == 0 then 0 else 1
  {
  }

  lemma OneMorePacket(n: nat, m: nat)
    requires 0 < m
    ensures PacketsFor(n + m, m) == PacketsFor(n, m) + 1
  {
    var x := n + m - 1;
    var q, r := x / m, x % m;
    assert x == q * m + r;
    assert x + m == (q + 1) * m + r;
    DivModUnique(x + m, m, q + 1, r);
  }

  /** Its length is the packet count. */
  lemma {:induction false} GreedyCount(w: seq<byte>, m: nat)
    requires 0 < m
    ensures |Greedy(w, m)| == PacketsFor(|w|, m)
    decreases |w|
  {
    hide PacketsFor;
    if |w| <= m {
      OnePacketOrNone(|w|, m);
    } else {
      GreedyCount(w[m..], m);
      OneMorePacket(|w| - m, m);
    }
  }

  // ----- a whole transfer, packet by packet -----

  function PayloadRequests(chunks: seq<seq<byte>>, progress: byte): (r: seq<seq<byte>>)
    requires forall k :: 0 <= k < |chunks| ==> |chunks[k]| <= MAX_PAYLOAD_DATA
    ensures |r| == |chunks|
    ensures forall k :: 0 <= k < |r| ==> r[k] == PayloadHeadBytes(progress, |chunks[k]|) + chunks[k]
  {
    if chunks == [] then []
    else [PayloadHeadBytes(progress, |chunks[0]|) + chunks[0]] + PayloadRequests(chunks[1..], progress)
  }

  /** V2 header packets that all announce the whole length; offsets as the host counts them. */
  function HeaderRequests(chunks: seq<seq<byte>>, absolute: u32, total: u32, offset: u32): (r: seq<seq<byte>>)
    requires forall k :: 0 <= k < |chunks| ==> |chunks[k]| <= MAX_HEADER_DATA
    requires offset + |Concat(chunks)| < TWO_32
    ensures |r| == |chunks|
  {
    if chunks == [] then []
    else
      [HeaderFieldBytes(absolute, total, offset, |chunks[0]|) + chunks[0]]
      + HeaderRequests(chunks[1..], absolute, total, offset + |chunks[0]|)
  }

  function HeaderOffsets(chunks: seq<seq<byte>>, offset: u32): (r: seq<u32>)
    requires offset + |Concat(chunks)| < TWO_32
    ensures |r| == |chunks|
  {
    if chunks == [] then [] else [offset] + HeaderOffsets(chunks[1..], offset + |chunks[0]|)
  }

  lemma {:induction false} HeaderRequestsDecode(chunks: seq<seq<byte>>, absolute: u32, total: u32, offset: u32)
    requires forall k :: 0 <= k < |chunks| ==> 0 < |chunks[k]| <= MAX_HEADER_DATA
    requires 0 < offset && offset + |Concat(chunks)| < TWO_32
    ensures TransferPackets(
            HeaderRequests(chunks, absolute, total, offset), chunks, HeaderOffsets(chunks, offset), total)
  {
    hide HeaderFieldBytes, HeaderPacket;
    if chunks != [] {
      HeaderFieldsDecode(absolute, total, offset, chunks[0]);
      HeaderRequestsDecode(chunks[1..], absolute, total, offset + |chunks[0]|);
    }
  }

  /** The transfer of a file in greedy packets, finished by an empty progress-100 packet. */
  function GreedyTransfer(f: Contents, plan: Plan, absolute: u32, progress: byte): Transfer
    requires DirectLaws.InFile(f, plan, |plan.entries|) && plan.headerSize <= |f|
    requires plan.headerSize <= Session.MAX_HEADER
  {
    var header := Greedy(f[..plan.headerSize], MAX_HEADER_DATA);
    var payload := Greedy(DirectLaws.Described(f, plan, |plan.entries|), MAX_PAYLOAD_DATA);
    Transfer(
      HeaderRequests(header, absolute, plan.headerSize, 0), header, HeaderOffsets(header, 0),
      PayloadRequests(payload, progress), seq(|payload|, i => progress), payload,
      PayloadHeadBytes(100, 0), [])
  }

  /** The split the dry run counts is one the device accepts: its packets, built as the host builds
      them, pass every check, decode to the same bytes and make up a whole transfer; and there are
      as many of them as the dry run says. */
  lemma GreedyTransferSends(f: Contents, plan: Plan, absolute: u32, progress: byte)
    requires SameDisk.Flashable(f, plan) && plan.headerSize <= Session.MAX_HEADER && progress != 100
    ensures DirectLaws.InFile(f, plan, |plan.entries|) && plan.headerSize <= |f|
    ensures var t := GreedyTransfer(f, plan, absolute, progress);
            && Sends(t, f, plan)
            && |t.headerMsgs| == PacketsFor(plan.headerSize, MAX_HEADER_DATA)
            && |t.payloadMsgs| + 1 == PacketsFor(PrefixBytes(plan.entries, |plan.entries|), MAX_PAYLOAD_DATA) + 1
  {
    hide HeaderFieldBytes, PayloadHeadBytes, HeaderPacket, PayloadPacket, Greedy, DirectLaws.Described,
      DirectLaws.InFile, Parse,
      PlanFacts.WellFormed;
    SameDisk.FlashableFacts(f, plan);
    HeaderNotEmpty(f, plan);
    var whole := f[..plan.headerSize];
    var header := Greedy(whole, MAX_HEADER_DATA);
    var w := DirectLaws.Described(f, plan, |plan.entries|);
    var payload := Greedy(w, MAX_PAYLOAD_DATA);
    GreedyCount(whole, MAX_HEADER_DATA);
    GreedyCount(w, MAX_PAYLOAD_DATA);
    assert header != [];
    HeaderFieldsDecode(absolute, plan.headerSize, 0, header[0]);
    ConcatFirst(header);
    HeaderRequestsDecode(header[1..], absolute, plan.headerSize, |header[0]|);
    var t := GreedyTransfer(f, plan, absolute, progress);
    assert t.headerMsgs[1..] == HeaderRequests(header[1..], absolute, plan.headerSize, |header[0]|);
    assert t.offsets[1..] == HeaderOffsets(header[1..], |header[0]|);
    forall k | 0 <= k < |payload|
      ensures PayloadPacket(t.payloadMsgs[k], progress, payload[k])
    {
      BuiltPacketDecodes(progress, payload[k]);
    }
    BuiltPacketDecodes(100, []);
    assert PayloadHeadBytes(100, 0) + [] == PayloadHeadBytes(100, 0);
    assert Concat(payload) + [] == w;
  }

  lemma HeaderNotEmpty(f: Contents, plan: Plan)
    requires SameDisk.Flashable(f, plan)
    ensures 0 < plan.headerSize
  {
  }
}
