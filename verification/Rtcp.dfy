/** Telling RTCP from RTP: the block loop and the compound-packet grammar of section 6.1 of RFC 3550 (rtp.py). */
module Rtcp {
  import opened Models

  function U16(a: Byte, b: Byte): (n: int)
    ensures 0 <= n < 0x1_0000
  {
    256 * a + b
  }

  predicate ValidRtcpBlockSize(packetType: int, count: int, size: int) {
    if packetType == 200 then size >= 28 + count * 24
    else if packetType == 201 then size >= 8 + count * 24
    else size >= 4
  }

  // ---------------------------------------------------------------------------------------------
  // The grammar
  // ---------------------------------------------------------------------------------------------

  /** The length in bytes that a block announces. */
  function BlockSize(s: Bytes): nat
    requires |s| >= 4
  {
    (U16(s[2], s[3]) + 1) * 4
  }

  /** One whole block; only the last block of a compound packet may be padded. */
  predicate ValidBlock(block: Bytes, last: bool) {
    && |block| >= 4
    && block[0] / 64 == 2
    && 192 <= block[1] <= 223
    && |block| == BlockSize(block)
    && ValidRtcpBlockSize(block[1], block[0] % 32, |block|)
    && (block[0] / 32 % 2 == 1 ==> last && 0 < block[|block| - 1] <= |block| - 4)
  }

  function Joined(blocks: seq<Bytes>): Bytes {
    if blocks == [] then [] else blocks[0] + Joined(blocks[1..])
  }

  predicate ValidBlocks(blocks: seq<Bytes>) {
    forall i | 0 <= i < |blocks| :: ValidBlock(blocks[i], i == |blocks| - 1)
  }

  /** A compound packet: one or more valid blocks, padding in the last only. */
  ghost predicate IsCompound(data: Bytes) {
    exists blocks: seq<Bytes> :: blocks != [] && ValidBlocks(blocks) && Joined(blocks) == data
  }

  /** The rest of a compound packet, block by block. */
  predicate Compound(s: Bytes)
    decreases |s|
  {
    && |s| >= 4
    && BlockSize(s) <= |s|
    && ValidBlock(s[..BlockSize(s)], BlockSize(s) == |s|)
    && (BlockSize(s) == |s| || Compound(s[BlockSize(s)..]))
  }

  /** A valid block at the front of some bytes announces its own length. */
  lemma BlockInFront(block: Bytes, rest: Bytes, last: bool)
    requires ValidBlock(block, last)
    ensures |block + rest| >= 4 && BlockSize(block + rest) == |block|
    ensures (block + rest)[..|block|] == block && (block + rest)[|block|..] == rest
  {
    var s := block + rest;
    assert s[2] == block[2] && s[3] == block[3];
  }

  lemma {:induction false} CompoundSplits(s: Bytes) returns (blocks: seq<Bytes>)
    requires Compound(s)
    ensures blocks != [] && ValidBlocks(blocks) && Joined(blocks) == s
    decreases |s|
  {
    hide ValidBlock, BlockSize;
    var n := BlockSize(s);
    if n == |s| {
      blocks := [s];
      assert s[..n] == s && Joined(blocks[1..]) == [];
    } else {
      BlockLong(s[..n], n == |s|);
      var rest := CompoundSplits(s[n..]);
      blocks := [s[..n]] + rest;
      assert blocks[1..] == rest && s == s[..n] + s[n..];
      forall i | 0 <= i < |blocks| ensures ValidBlock(blocks[i], i == |blocks| - 1) {
        if i > 0 {
          assert ValidBlock(rest[i - 1], i - 1 == |rest| - 1);
        }
      }
    }
  }

  lemma BlockLong(block: Bytes, last: bool)
    requires ValidBlock(block, last)
    ensures |block| >= 4
  {
  }

  lemma {:induction false} BlocksJoin(blocks: seq<Bytes>)
    requires blocks != [] && ValidBlocks(blocks)
    ensures Compound(Joined(blocks))
  {
    hide ValidBlock, BlockSize;
    var first, rest := blocks[0], blocks[1..];
    assert ValidBlock(blocks[0], |blocks| == 1);
    BlockInFront(first, Joined(rest), |blocks| == 1);
    BlockLong(first, |blocks| == 1);
    if rest == [] {
      assert Joined(blocks) == first;
    } else {
      forall i | 0 <= i < |rest| ensures ValidBlock(rest[i], i == |rest| - 1) {
        assert rest[i] == blocks[i + 1];
      }
      BlocksJoin(rest);
      assert |Joined(rest)| >= 4;
    }
  }

  /** Reading block by block accepts exactly the compound packets. */
  lemma CompoundIff(data: Bytes)
    ensures Compound(data) <==> IsCompound(data)
  {
    hide ValidBlocks, Compound;
    if Compound(data) {
      var blocks := CompoundSplits(data);
    }
    if IsCompound(data) {
      var blocks: seq<Bytes> :| blocks != [] && ValidBlocks(blocks) && Joined(blocks) == data;
      BlocksJoin(blocks);
    }
  }

  /** A compound packet splits in one way only. */
  lemma {:induction false} SplitUnique(a: seq<Bytes>, b: seq<Bytes>)
    requires ValidBlocks(a) && ValidBlocks(b) && Joined(a) == Joined(b)
    ensures a == b
  {
    hide ValidBlock, BlockSize;
    if a == [] || b == [] {
      EmptyJoin(a);
      EmptyJoin(b);
    } else {
      assert ValidBlock(a[0], 0 == |a| - 1) && ValidBlock(b[0], 0 == |b| - 1);
      BlockInFront(a[0], Joined(a[1..]), 0 == |a| - 1);
      BlockInFront(b[0], Joined(b[1..]), 0 == |b| - 1);
      RestValid(a);
      RestValid(b);
      SplitUnique(a[1..], b[1..]);
      assert a == [a[0]] + a[1..] && b == [b[0]] + b[1..];
    }
  }

  lemma EmptyJoin(blocks: seq<Bytes>)
    requires ValidBlocks(blocks)
    ensures Joined(blocks) == [] ==> blocks == []
    ensures blocks == [] ==> Joined(blocks) == []
  {
    if blocks != [] {
      assert ValidBlock(blocks[0], 0 == |blocks| - 1);
    }
  }

  lemma RestValid(blocks: seq<Bytes>)
    requires ValidBlocks(blocks) && blocks != []
    ensures ValidBlocks(blocks[1..])
  {
    hide ValidBlock;
    forall i | 0 <= i < |blocks[1..]| ensures ValidBlock(blocks[1..][i], i == |blocks[1..]| - 1) {
      assert blocks[1..][i] == blocks[i + 1];
    }
  }

  // ---------------------------------------------------------------------------------------------
  // The loop
  // ---------------------------------------------------------------------------------------------

  lemma CompoundOpens(s: Bytes)
    ensures Compound(s) ==> |s| >= 4 && s[0] / 64 == 2 && 192 <= s[1] <= 223
  {
  }

  /** is_rtcp. */
  method IsRtcp(data: Bytes) returns (r: bool)
    ensures r <==> Compound(data)
  {
    hide Compound;
    CompoundOpens(data);
    if |data| < 4 || data[0] / 64 != 2 {
      return false;
    }
    if !(192 <= data[1] <= 223) {
      return false;
    }
    var offset := 0;
    assert data[0..] == data;
    while offset < |data|
      invariant 0 <= offset <= |data|
      invariant offset < |data| ==> (Compound(data) <==> Compound(data[offset..]))
      invariant offset == |data| ==> Compound(data)
    {
      ghost var rest := data[offset..];
      CompoundStep(rest);
      if |data| - offset < 4 {
        return false;
      }
      var first, packetType, length := data[offset], data[offset + 1], U16(data[offset + 2], data[offset + 3]);
      if first / 64 != 2 {
        return false;
      }
      if !(192 <= packetType <= 223) {
        return false;
      }
      var count, blockSize := first % 32, (length + 1) * 4;
      if !ValidRtcpBlockSize(packetType, count, blockSize) {
        return false;
      }
      var blockEnd := offset + blockSize;
      if blockEnd > |data| {
        return false;
      }
      if first / 32 % 2 == 1 {
        if blockEnd != |data| {
          return false;
        }
        var paddingLength := data[blockEnd - 1];
        if paddingLength == 0 || paddingLength > blockSize - 4 {
          return false;
        }
      }
      assert data[blockEnd..] == rest[blockSize..];
      offset := blockEnd;
    }
    return offset == |data|;
  }

  /** What one turn of the loop decides. */
  lemma CompoundStep(s: Bytes)
    requires s != []
    ensures Compound(s) <==>
            && |s| >= 4 && s[0] / 64 == 2 && 192 <= s[1] <= 223
            && (var size := (U16(s[2], s[3]) + 1) * 4;
                && ValidRtcpBlockSize(s[1], s[0] % 32, size) && size <= |s|
                && (s[0] / 32 % 2 == 1 ==> size == |s| && 0 < s[size - 1] <= size - 4)
                && (size == |s| || Compound(s[size..])))
  {
    if |s| >= 4 {
      var size := BlockSize(s);
      if size <= |s| {
        var block := s[..size];
        assert block[0] == s[0] && block[1] == s[1] && block[2] == s[2] && block[3] == s[3];
        assert block[|block| - 1] == s[size - 1];
      }
    }
  }

  // ---------------------------------------------------------------------------------------------
  // Reports, written out (sections 6.4.1 and 6.4.2 of RFC 3550)
  // ---------------------------------------------------------------------------------------------

  /**
   * The parts of a block after its first word. A report opens with the SSRC of its sender, a sender report goes on with
   * five words of sender information, and both with report blocks of six words each; then whole words may follow.
   */
  datatype Packet =
    | SenderReport(ssrc: Bytes, info: Bytes, blocks: seq<Bytes>, extension: Bytes)
    | ReceiverReport(ssrc: Bytes, blocks: seq<Bytes>, extension: Bytes)
    | OtherPacket(packetType: Byte, count: nat, content: Bytes)
  {
    predicate IsWhole() {
      match this
      case SenderReport(ssrc, info, blocks, extension) =>
        |ssrc| == 4 && |info| == 20 && AllReportBlocks(blocks) && |extension| % 4 == 0
      case ReceiverReport(ssrc, blocks, extension) =>
        |ssrc| == 4 && AllReportBlocks(blocks) && |extension| % 4 == 0
      case OtherPacket(packetType, count, content) =>
        192 <= packetType <= 223 && packetType != 200 && packetType != 201 && count < 32 && |content| % 4 == 0
    }

    function TypeOfPacket(): Byte {
      match this
      case SenderReport(_, _, _, _) => 200
      case ReceiverReport(_, _, _) => 201
      case OtherPacket(packetType, _, _) => packetType
    }

    function Count(): nat {
      match this
      case SenderReport(_, _, blocks, _) => |blocks|
      case ReceiverReport(_, blocks, _) => |blocks|
      case OtherPacket(_, count, _) => count
    }

    function Content(): Bytes {
      match this
      case SenderReport(ssrc, info, blocks, extension) => ssrc + info + Joined(blocks) + extension
      case ReceiverReport(ssrc, blocks, extension) => ssrc + Joined(blocks) + extension
      case OtherPacket(_, _, content) => content
    }
  }

  predicate AllReportBlocks(blocks: seq<Bytes>) {
    |blocks| < 32 && forall i | 0 <= i < |blocks| :: |blocks[i]| == 24
  }

  /** Version 2, the padding bit, the count, the type, and the length in words less one; then the content. */
  function WriteBlock(packet: Packet, padded: bool): Bytes
    requires packet.Count() < 32 && |packet.Content()| / 4 < 0x1_0000
  {
    var words := |packet.Content()| / 4;
    [128 + (if padded then 32 else 0) + packet.Count(), packet.TypeOfPacket(), words / 256, words % 256]
    + packet.Content()
  }

  /** A block is one of these packets, written out; the padding that ends it is among its content. */
  ghost predicate Writes(block: Bytes, packet: Packet, padded: bool) {
    packet.IsWhole() && |packet.Content()| / 4 < 0x1_0000 && block == WriteBlock(packet, padded)
  }

  ghost predicate IsWritten(block: Bytes, last: bool) {
    || (exists packet :: Writes(block, packet, false))
    || (last && block != [] && 0 < block[|block| - 1] <= |block| - 4 && exists packet :: Writes(block, packet, true))
  }

  lemma {:induction false} JoinedLength(blocks: seq<Bytes>)
    requires forall i | 0 <= i < |blocks| :: |blocks[i]| == 24
    ensures |Joined(blocks)| == 24 * |blocks|
  {
    if blocks != [] {
      JoinedLength(blocks[1..]);
    }
  }

  /** Bytes cut into report blocks. */
  lemma {:induction false} ReportBlocks(data: Bytes, count: nat) returns (blocks: seq<Bytes>)
    requires |data| == 24 * count
    ensures |blocks| == count && Joined(blocks) == data && forall i | 0 <= i < |blocks| :: |blocks[i]| == 24
  {
    if count == 0 {
      blocks := [];
    } else {
      var rest := ReportBlocks(data[24..], count - 1);
      blocks := [data[..24]] + rest;
      assert blocks[1..] == rest && data == data[..24] + data[24..];
    }
  }

  lemma ContentWhole(packet: Packet)
    requires packet.IsWhole()
    ensures |packet.Content()| % 4 == 0 && packet.Count() < 32
    ensures packet.SenderReport? ==> |packet.Content()| >= 24 + 24 * packet.Count()
    ensures packet.ReceiverReport? ==> |packet.Content()| >= 4 + 24 * packet.Count()
  {
    hide Joined;
    match packet
    case SenderReport(_, _, blocks, _) => JoinedLength(blocks);
    case ReceiverReport(_, blocks, _) => JoinedLength(blocks);
    case OtherPacket(_, _, _) =>
  }

  lemma WrittenValid(block: Bytes, packet: Packet, padded: bool, last: bool)
    requires Writes(block, packet, padded)
    requires padded ==> last && 0 < block[|block| - 1] <= |block| - 4
    ensures ValidBlock(block, last)
  {
    hide Joined;
    ContentWhole(packet);
    var words := |packet.Content()| / 4;
    assert |block| == 4 + 4 * words;
    HeadOctet(padded, packet.Count());
  }

  lemma HeadOctet(padded: bool, count: nat)
    requires count < 32
    ensures var head := 128 + (if padded then 32 else 0) + count;
            head < 256 && head / 64 == 2 && head % 32 == count && (head / 32 % 2 == 1 <==> padded)
  {
  }

  lemma HeadOf(head: Byte)
    requires head / 64 == 2
    ensures head == 128 + (if head / 32 % 2 == 1 then 32 else 0) + head % 32
  {
  }

  lemma WrittenBack(block: Bytes, last: bool, packet: Packet)
    requires ValidBlock(block, last) && packet.IsWhole() && packet.Content() == block[4..]
    requires packet.Count() == block[0] % 32 && packet.TypeOfPacket() == block[1]
    ensures Writes(block, packet, block[0] / 32 % 2 == 1)
  {
    hide Joined, Packet.IsWhole, Packet.Content, Packet.Count, Packet.TypeOfPacket;
    HeadOf(block[0]);
    var words := |block[4..]| / 4;
    assert |block| == 4 + 4 * words && U16(block[2], block[3]) == words;
    assert words / 256 == block[2] && words % 256 == block[3];
    assert block == [block[0], block[1], block[2], block[3]] + block[4..];
  }

  lemma SenderParts(content: Bytes, count: nat) returns (packet: Packet)
    requires |content| >= 24 + 24 * count && |content| % 4 == 0 && count < 32
    ensures packet.SenderReport? && packet.IsWhole() && packet.Content() == content && packet.Count() == count
  {
    hide Joined;
    var blocks := ReportBlocks(content[24..24 + 24 * count], count);
    packet := SenderReport(content[..4], content[4..24], blocks, content[24 + 24 * count..]);
    assert content == content[..4] + content[4..24] + content[24..24 + 24 * count] + content[24 + 24 * count..];
  }

  lemma ReceiverParts(content: Bytes, count: nat) returns (packet: Packet)
    requires |content| >= 4 + 24 * count && |content| % 4 == 0 && count < 32
    ensures packet.ReceiverReport? && packet.IsWhole() && packet.Content() == content && packet.Count() == count
  {
    hide Joined;
    var blocks := ReportBlocks(content[4..4 + 24 * count], count);
    packet := ReceiverReport(content[..4], blocks, content[4 + 24 * count..]);
    assert content == content[..4] + content[4..4 + 24 * count] + content[4 + 24 * count..];
  }

  lemma ValidWritten(block: Bytes, last: bool) returns (packet: Packet)
    requires ValidBlock(block, last)
    ensures Writes(block, packet, block[0] / 32 % 2 == 1)
  {
    hide Joined, Packet.Content, Writes;
    if block[1] == 200 {
      packet := SenderParts(block[4..], block[0] % 32);
    } else if block[1] == 201 {
      packet := ReceiverParts(block[4..], block[0] % 32);
    } else {
      packet := OtherPacket(block[1], block[0] % 32, block[4..]);
      OtherContent(packet);
    }
    WrittenBack(block, last, packet);
  }

  lemma OtherContent(packet: Packet)
    ensures packet.OtherPacket? ==> packet.Content() == packet.content
  {
  }

  /** A block is valid exactly when it is a report or another packet of the RTCP types, written out. */
  lemma ValidIffWritten(block: Bytes, last: bool)
    ensures ValidBlock(block, last) <==> IsWritten(block, last)
  {
    hide ValidBlock, Writes;
    if ValidBlock(block, last) {
      var packet := ValidWritten(block, last);
      PaddingOfBlock(block, last);
    }
    if packet :| Writes(block, packet, false) {
      WrittenValid(block, packet, false, last);
    }
    if packet :| last && block != [] && 0 < block[|block| - 1] <= |block| - 4 && Writes(block, packet, true) {
      WrittenValid(block, packet, true, last);
    }
  }

  lemma PaddingOfBlock(block: Bytes, last: bool)
    requires ValidBlock(block, last)
    ensures block != []
    ensures block[0] / 32 % 2 == 1 ==> last && 0 < block[|block| - 1] <= |block| - 4
  {
  }

  /** A report by itself, without padding, is RTCP, for every number of report blocks. */
  lemma ReportRecognized(packet: Packet)
    requires packet.IsWhole() && |packet.Content()| / 4 < 0x1_0000
    ensures packet.Count() < 32 && Compound(WriteBlock(packet, false))
  {
    hide ValidBlock, Joined, Compound;
    ContentWhole(packet);
    var block := WriteBlock(packet, false);
    WrittenValid(block, packet, false, true);
    AloneCompound(block);
  }

  lemma AloneCompound(block: Bytes)
    requires ValidBlock(block, true)
    ensures Compound(block)
  {
    assert block[..|block|] == block;
  }
}
