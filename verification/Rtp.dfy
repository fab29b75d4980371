/** RTP datagrams: what parse_rtp takes apart and how it goes back together (rtp.py; section 5 of RFC 3550). */
module Rtp {
  import opened Models
  import opened Bits
  import opened Rtcp

  const FIXED_HEADER_LENGTH := 12

  type Word = n: int | 0 <= n < 0x1_0000
  type DoubleWord = n: int | 0 <= n < 0x1_0000_0000

  function U32(a: Byte, b: Byte, c: Byte, d: Byte): (n: DoubleWord) {
    0x100_0000 * a + 0x1_0000 * b + 0x100 * c + d
  }

  function U16Bytes(n: Word): (s: Bytes)
    ensures |s| == 2 && U16(s[0], s[1]) == n
  {
    [n / 256, n % 256]
  }

  function U32Bytes(n: DoubleWord): (s: Bytes)
    ensures |s| == 4 && U32(s[0], s[1], s[2], s[3]) == n
  {
    var high, low := n / 0x1_0000, n % 0x1_0000;
    [high / 256, high % 256, low / 256, low % 256]
  }

  lemma U16Bijective(a: Byte, b: Byte)
    ensures U16Bytes(U16(a, b)) == [a, b]
  {
  }

  lemma U32Bijective(a: Byte, b: Byte, c: Byte, d: Byte)
    ensures U32Bytes(U32(a, b, c, d)) == [a, b, c, d]
  {
    var n := U32(a, b, c, d);
    assert n == (256 * a + b) * 0x1_0000 + (256 * c + d);
    assert n / 0x1_0000 == 256 * a + b && n % 0x1_0000 == 256 * c + d;
  }

  // ---------------------------------------------------------------------------------------------
  // Parsing
  // ---------------------------------------------------------------------------------------------

  datatype RtpFault =
    | FixedHeaderTruncated
    | CsrcListTruncated
    | ExtensionHeaderTruncated
    | ExtensionDataTruncated
    | PaddingZero
    | PaddingTooLong

  /** RtpParseError, with the flow key when the fixed header could be read. */
  datatype RtpError = RtpError(fault: RtpFault, flow: Option<FlowKey>)

  type Parsed = Result<Option<RtpRecord>, RtpError>

  function FlowOf(udp: UdpRecord): FlowKey
    requires |udp.payload| >= FIXED_HEADER_LENGTH
  {
    var d := udp.payload;
    FlowKey(udp.srcAddress, udp.dstAddress, udp.srcPort, udp.dstPort, U32(d[8], d[9], d[10], d[11]), d[1] % 128)
  }

  /** count 32-bit words from an offset on. */
  function Words(data: Bytes, offset: nat, count: nat): (words: seq<int>)
    requires offset + 4 * count <= |data|
    ensures |words| == count
  {
    if count == 0 then []
    else
      var at := offset + 4 * (count - 1);
      Words(data, offset, count - 1) + [U32(data[at], data[at + 1], data[at + 2], data[at + 3])]
  }

  /** The extension, if the X bit is set, and where the header ends. */
  datatype Extension = Extension(profile: Option<int>, data: Bytes, end: nat)

  function ParseExtension(data: Bytes, present: bool, start: nat): (r: Result<Extension, RtpFault>)
    requires start <= |data|
    ensures r.Ok? ==> start <= r.value.end <= |data|
  {
    if !present then Ok(Extension(None, [], start))
    else if start + 4 > |data| then Err(ExtensionHeaderTruncated)
    else
      var end := start + 4 + U16(data[start + 2], data[start + 3]) * 4;
      if end > |data| then Err(ExtensionDataTruncated)
      else Ok(Extension(Some(U16(data[start], data[start + 1])), data[start + 4..end], end))
  }

  /** How many bytes at the end are padding. */
  function ParsePadding(data: Bytes, present: bool, start: nat): (r: Result<nat, RtpFault>)
    requires 0 < |data| && start <= |data|
    ensures r.Ok? ==> start + r.value <= |data|
  {
    if !present then Ok(0)
    else
      var padding := data[|data| - 1];
      if padding == 0 then Err(PaddingZero)
      else if |data| - padding < start then Err(PaddingTooLong)
      else Ok(padding)
  }

  function RecordOf(udp: UdpRecord, csrcs: seq<int>, extension: Extension, padding: nat): RtpRecord
    requires FIXED_HEADER_LENGTH <= extension.end && extension.end + padding <= |udp.payload|
  {
    var d := udp.payload;
    RtpRecord(FlowOf(udp), U16(d[2], d[3]), U32(d[4], d[5], d[6], d[7]), MarkerBit(d[1]),
              d[extension.end..|d| - padding], udp.provenance, csrcs, extension.profile, extension.data, padding)
  }

  function CsrcCount(first: Byte): (count: nat) {
    first % 16
  }

  predicate ExtensionBit(first: Byte) {
    first / 16 % 2 == 1
  }

  predicate PaddingBit(first: Byte) {
    first / 32 % 2 == 1
  }

  predicate MarkerBit(second: Byte) {
    second / 128 == 1
  }

  function CsrcEnd(data: Bytes): (end: nat)
    requires data != []
    ensures end >= FIXED_HEADER_LENGTH
  {
    FIXED_HEADER_LENGTH + CsrcCount(data[0]) * 4
  }

  function ExtensionOf(data: Bytes): (r: Result<Extension, RtpFault>)
    requires data != [] && CsrcEnd(data) <= |data|
    ensures r.Ok? ==> CsrcEnd(data) <= r.value.end <= |data|
  {
    ParseExtension(data, ExtensionBit(data[0]), CsrcEnd(data))
  }

  function PaddingOf(data: Bytes, start: nat): (r: Result<nat, RtpFault>)
    requires data != [] && start <= |data|
    ensures r.Ok? ==> start + r.value <= |data|
  {
    ParsePadding(data, PaddingBit(data[0]), start)
  }

  function ParseHeader(udp: UdpRecord): Parsed
    requires |udp.payload| >= FIXED_HEADER_LENGTH
  {
    var d, flow := udp.payload, Some(FlowOf(udp));
    if CsrcEnd(d) > |d| then Err(RtpError(CsrcListTruncated, flow))
    else
      var csrcs := Words(d, FIXED_HEADER_LENGTH, CsrcCount(d[0]));
      match ExtensionOf(d)
      case Err(fault) => Err(RtpError(fault, flow))
      case Ok(extension) =>
        match PaddingOf(d, extension.end)
        case Err(fault) => Err(RtpError(fault, flow))
        case Ok(padding) => Ok(Some(RecordOf(udp, csrcs, extension, padding)))
  }

  /** Neither too short, nor of another version, nor RTCP. */
  predicate TakenForRtp(data: Bytes) {
    |data| >= 2 && data[0] / 64 == 2 && !Compound(data)
  }

  function Parse(udp: UdpRecord): Parsed {
    if !TakenForRtp(udp.payload) then Ok(None)
    else if |udp.payload| < FIXED_HEADER_LENGTH then Err(RtpError(FixedHeaderTruncated, None))
    else ParseHeader(udp)
  }

  /** parse_rtp once the fixed header is known to be there. */
  method ParseFields(udp: UdpRecord) returns (r: Parsed)
    requires |udp.payload| >= FIXED_HEADER_LENGTH
    ensures r == ParseHeader(udp)
  {
    hide Words, U16, U32, FlowOf, CsrcCount, ExtensionBit, PaddingBit, MarkerBit;
    var data := udp.payload;
    var first, second := data[0], data[1];
    var flowKey := FlowOf(udp);
    var csrcCount := CsrcCount(first);
    var headerLength := FIXED_HEADER_LENGTH + csrcCount * 4;
    if headerLength > |data| {
      return Err(RtpError(CsrcListTruncated, Some(flowKey)));
    }
    var csrcs := Words(data, FIXED_HEADER_LENGTH, csrcCount);
    var extensionProfile: Option<int>, extensionData: Bytes := None, [];
    if ExtensionBit(first) {
      var extensionHeaderEnd := headerLength + 4;
      if extensionHeaderEnd > |data| {
        return Err(RtpError(ExtensionHeaderTruncated, Some(flowKey)));
      }
      var extensionWords := U16(data[headerLength + 2], data[headerLength + 3]);
      var extensionEnd := extensionHeaderEnd + extensionWords * 4;
      if extensionEnd > |data| {
        return Err(RtpError(ExtensionDataTruncated, Some(flowKey)));
      }
      extensionProfile := Some(U16(data[headerLength], data[headerLength + 1]));
      extensionData := data[extensionHeaderEnd..extensionEnd];
      headerLength := extensionEnd;
    }
    var paddingLength, payloadEnd := 0, |data|;
    if PaddingBit(first) {
      paddingLength := data[|data| - 1];
      if paddingLength == 0 {
        return Err(RtpError(PaddingZero, Some(flowKey)));
      }
      payloadEnd := payloadEnd - paddingLength;
      if payloadEnd < headerLength {
        return Err(RtpError(PaddingTooLong, Some(flowKey)));
      }
    }
    return Ok(Some(RtpRecord(
      flowKey, U16(data[2], data[3]), U32(data[4], data[5], data[6], data[7]), MarkerBit(second),
      data[headerLength..payloadEnd], udp.provenance, csrcs, extensionProfile, extensionData, paddingLength)));
  }

  /** parse_rtp. */
  method ParseRtp(udp: UdpRecord) returns (r: Parsed)
    ensures r == Parse(udp)
  {
    hide Compound, ParseHeader;
    var data := udp.payload;
    if |data| < 2 || data[0] / 64 != 2 {
      return Ok(None);
    }
    var rtcp := IsRtcp(data);
    if rtcp {
      return Ok(None);
    }
    if |data| < FIXED_HEADER_LENGTH {
      return Err(RtpError(FixedHeaderTruncated, None));
    }
    r := ParseFields(udp);
  }

  // ---------------------------------------------------------------------------------------------
  // Serializing
  // ---------------------------------------------------------------------------------------------

  /** A record that fits the fields of an RTP header. */
  predicate Encodable(record: RtpRecord) {
    && 0 <= record.flowKey.ssrc < 0x1_0000_0000
    && 0 <= record.flowKey.payloadType < 128
    && |record.csrcs| < 16
    && (forall i | 0 <= i < |record.csrcs| :: 0 <= record.csrcs[i] < 0x1_0000_0000)
    && (match record.extensionProfile
        case None => record.extensionData == []
        case Some(profile) =>
          0 <= profile < 0x1_0000 && |record.extensionData| % 4 == 0 && |record.extensionData| / 4 < 0x1_0000)
    && 0 <= record.paddingLength < 256
  }

  /** The bytes between payload and end: the last one counts them all. */
  predicate PadsTo(padding: Bytes, length: int) {
    |padding| == length && (length > 0 ==> padding[length - 1] == length)
  }

  function FirstOctet(record: RtpRecord): Byte
    requires |record.csrcs| < 16
  {
    128 + (if record.paddingLength > 0 then 32 else 0) + (if record.extensionProfile.Some? then 16 else 0)
    + |record.csrcs|
  }

  function FixedHeader(record: RtpRecord): (s: Bytes)
    requires Encodable(record)
    ensures |s| == FIXED_HEADER_LENGTH
  {
    [FirstOctet(record), (if record.marker then 128 else 0) + record.flowKey.payloadType]
    + U16Bytes(record.sequence) + U32Bytes(record.timestamp) + U32Bytes(record.flowKey.ssrc)
  }

  function WordsBytes(words: seq<int>): (s: Bytes)
    requires forall i | 0 <= i < |words| :: 0 <= words[i] < 0x1_0000_0000
    ensures |s| == 4 * |words|
  {
    if words == [] then [] else WordsBytes(words[..|words| - 1]) + U32Bytes(words[|words| - 1])
  }

  function ExtensionBytes(profile: Option<int>, data: Bytes): Bytes
    requires profile.Some? ==> 0 <= profile.value < 0x1_0000 && |data| % 4 == 0 && |data| / 4 < 0x1_0000
  {
    if profile.None? then [] else U16Bytes(profile.value) + U16Bytes(|data| / 4) + data
  }

  function Header(record: RtpRecord): Bytes
    requires Encodable(record)
  {
    FixedHeader(record) + WordsBytes(record.csrcs) + ExtensionBytes(record.extensionProfile, record.extensionData)
  }

  /** The datagram of a record: header, CSRCs, extension, payload, padding. */
  function Serialize(record: RtpRecord, padding: Bytes): Bytes
    requires Encodable(record)
  {
    Header(record) + record.payload + padding
  }

  /** The record and padding that a datagram is made of, and where it was seen. */
  ghost predicate MadeOf(udp: UdpRecord, record: RtpRecord, padding: Bytes) {
    && Encodable(record) && PadsTo(padding, record.paddingLength)
    && udp.payload == Serialize(record, padding)
    && udp.provenance == record.provenance
    && udp.srcAddress == record.flowKey.srcAddress && udp.dstAddress == record.flowKey.dstAddress
    && udp.srcPort == record.flowKey.srcPort && udp.dstPort == record.flowKey.dstPort
  }

  lemma WordsBytesAppend(words: seq<int>, last: DoubleWord)
    requires forall i | 0 <= i < |words| :: 0 <= words[i] < 0x1_0000_0000
    ensures WordsBytes(words + [last]) == WordsBytes(words) + U32Bytes(last)
  {
    hide U32Bytes;
    assert (words + [last])[..|words|] == words;
  }

  /** The next word of a datagram, read off the four bytes it takes. */
  lemma WordsNext(data: Bytes, offset: nat, count: nat, last: DoubleWord)
    requires offset + 4 * count + 4 <= |data|
    requires data[offset + 4 * count..offset + 4 * count + 4] == U32Bytes(last)
    ensures Words(data, offset, count + 1) == Words(data, offset, count) + [last]
  {
    hide U32, U32Bytes;
    var at := offset + 4 * count;
    var four := data[at..at + 4];
    assert data[at] == four[0] && data[at + 1] == four[1] && data[at + 2] == four[2] && data[at + 3] == four[3];
  }

  lemma {:induction false} WordsRoundTrip(words: seq<int>, before: Bytes, after: Bytes)
    requires forall i | 0 <= i < |words| :: 0 <= words[i] < 0x1_0000_0000
    ensures Words(before + WordsBytes(words) + after, |before|, |words|) == words
  {
    hide U32Bytes, Words, WordsBytes;
    if words == [] {
      NoWords(before + WordsBytes(words) + after, |before|);
      assert words == [];
    } else {
      var n := |words| - 1;
      var front, last := words[..n], words[n];
      assert words == front + [last];
      WordsBytesAppend(front, last);
      WordsRoundTrip(front, before, U32Bytes(last) + after);
      var data := before + WordsBytes(words) + after;
      assert data == before + WordsBytes(front) + (U32Bytes(last) + after);
      var at := |before| + 4 * n;
      assert data[at..at + 4] == U32Bytes(last);
      WordsNext(data, |before|, n, last);
    }
  }

  lemma NoWords(data: Bytes, offset: nat)
    requires offset <= |data|
    ensures Words(data, offset, 0) == [] && WordsBytes([]) == []
  {
  }

  lemma FourBytes(data: Bytes, at: nat) returns (word: DoubleWord)
    requires at + 4 <= |data|
    ensures data[at..at + 4] == U32Bytes(word)
  {
    word := U32(data[at], data[at + 1], data[at + 2], data[at + 3]);
    U32Bijective(data[at], data[at + 1], data[at + 2], data[at + 3]);
    assert data[at..at + 4] == [data[at], data[at + 1], data[at + 2], data[at + 3]];
  }

  lemma {:induction false} WordsBytesBack(data: Bytes, offset: nat, count: nat)
    requires offset + 4 * count <= |data|
    ensures forall i | 0 <= i < count :: 0 <= Words(data, offset, count)[i] < 0x1_0000_0000
    ensures WordsBytes(Words(data, offset, count)) == data[offset..offset + 4 * count]
  {
    hide U32Bytes, Words, WordsBytes;
    if count == 0 {
      NoWords(data, offset);
    } else {
      var n := count - 1;
      WordsBytesBack(data, offset, n);
      var last := FourBytes(data, offset + 4 * n);
      WordsNext(data, offset, n, last);
      WordsBytesAppend(Words(data, offset, n), last);
      assert data[offset..offset + 4 * count]
             == data[offset..offset + 4 * n] + data[offset + 4 * n..offset + 4 * n + 4];
    }
  }

  // ---------------------------------------------------------------------------------------------
  // The two directions
  // ---------------------------------------------------------------------------------------------

  /** The first octet is the version, the P and X bits and the CSRC count. */
  lemma OctetParts(octet: Byte, padded: bool, extended: bool, count: nat)
    requires count < 16
    ensures octet == 128 + (if padded then 32 else 0) + (if extended then 16 else 0) + count
            <==> octet / 64 == 2 && octet / 32 % 2 == (if padded then 1 else 0)
                 && octet / 16 % 2 == (if extended then 1 else 0) && octet % 16 == count
  {
    assert octet == 64 * (octet / 64) + 32 * (octet / 32 % 2) + 16 * (octet / 16 % 2) + octet % 16;
  }

  lemma MarkerParts(octet: Byte, marker: bool, payloadType: int)
    requires 0 <= payloadType < 128
    ensures octet == (if marker then 128 else 0) + payloadType
            <==> (octet / 128 == 1) == marker && octet % 128 == payloadType
  {
  }

  /** The first twelve bytes are a record's fixed header exactly when each field has the record's value. */
  lemma FixedHeaderIff(d: Bytes, record: RtpRecord)
    requires |d| >= FIXED_HEADER_LENGTH && Encodable(record)
    ensures d[..FIXED_HEADER_LENGTH] == FixedHeader(record)
            <==> d[0] == FirstOctet(record)
                 && d[1] == (if record.marker then 128 else 0) + record.flowKey.payloadType
                 && U16(d[2], d[3]) == record.sequence
                 && U32(d[4], d[5], d[6], d[7]) == record.timestamp
                 && U32(d[8], d[9], d[10], d[11]) == record.flowKey.ssrc
  {
    hide U16, U32, U16Bytes, U32Bytes, FirstOctet;
    U16Bijective(d[2], d[3]);
    U32Bijective(d[4], d[5], d[6], d[7]);
    U32Bijective(d[8], d[9], d[10], d[11]);
    FixedHeaderBytes(d, record, U16Bytes(record.sequence), U32Bytes(record.timestamp), U32Bytes(record.flowKey.ssrc));
  }

  lemma FixedHeaderBytes(d: Bytes, record: RtpRecord, sequence: Bytes, timestamp: Bytes, ssrc: Bytes)
    requires |d| >= FIXED_HEADER_LENGTH && Encodable(record)
    requires sequence == U16Bytes(record.sequence) && timestamp == U32Bytes(record.timestamp)
    requires ssrc == U32Bytes(record.flowKey.ssrc)
    ensures d[..FIXED_HEADER_LENGTH] == FixedHeader(record)
            <==> d[0] == FirstOctet(record)
                 && d[1] == (if record.marker then 128 else 0) + record.flowKey.payloadType
                 && [d[2], d[3]] == sequence
                 && [d[4], d[5], d[6], d[7]] == timestamp && [d[8], d[9], d[10], d[11]] == ssrc
  {
    hide U16, U32, U16Bytes, U32Bytes, FirstOctet;
    var h, c := FixedHeader(record), d[..FIXED_HEADER_LENGTH];
    assert h[2..4] == sequence && h[4..8] == timestamp && h[8..12] == ssrc;
    assert c == [d[0], d[1]] + [d[2], d[3]] + [d[4], d[5], d[6], d[7]] + [d[8], d[9], d[10], d[11]];
    if c == h {
      assert c[2..4] == [d[2], d[3]] && c[4..8] == [d[4], d[5], d[6], d[7]] && c[8..12] == [d[8], d[9], d[10], d[11]];
    }
  }

  lemma ExtensionForward(before: Bytes, profile: Option<int>, extension: Bytes, after: Bytes)
    requires profile.Some? ==> 0 <= profile.value < 0x1_0000 && |extension| % 4 == 0 && |extension| / 4 < 0x1_0000
    requires profile.None? ==> extension == []
    ensures var d := before + ExtensionBytes(profile, extension) + after;
            ParseExtension(d, profile.Some?, |before|)
            == Ok(Extension(profile, extension, |before| + |ExtensionBytes(profile, extension)|))
  {
    hide U16, U16Bytes;
    if profile.Some? {
      var a, b := U16Bytes(profile.value), U16Bytes(|extension| / 4);
      var d := before + ExtensionBytes(profile, extension) + after;
      assert d == before + a + b + extension + after;
      var n := |before|;
      assert d[n] == a[0] && d[n + 1] == a[1] && d[n + 2] == b[0] && d[n + 3] == b[1];
      assert d[n + 4..n + 4 + |extension|] == extension;
    }
  }

  lemma ExtensionBack(d: Bytes, present: bool, start: nat)
    requires start <= |d| && ParseExtension(d, present, start).Ok?
    ensures var e := ParseExtension(d, present, start).value;
            && e.profile.Some? == present
            && (present ==> 0 <= e.profile.value < 0x1_0000 && |e.data| % 4 == 0 && |e.data| / 4 < 0x1_0000)
            && (!present ==> e.data == [])
            && d[start..e.end] == ExtensionBytes(e.profile, e.data)
  {
    hide U16, U16Bytes;
    if present {
      var e := ParseExtension(d, present, start).value;
      var words := U16(d[start + 2], d[start + 3]);
      assert |e.data| == 4 * words;
      U16Bijective(d[start], d[start + 1]);
      U16Bijective(d[start + 2], d[start + 3]);
      assert d[start..e.end] == [d[start], d[start + 1]] + [d[start + 2], d[start + 3]] + d[start + 4..e.end];
    }
  }

  lemma PaddingIff(d: Bytes, present: bool, start: nat, length: nat)
    requires 0 < |d| && start <= |d|
    ensures ParsePadding(d, present, start) == Ok(length)
            <==> start + length <= |d| && length < 256 && present == (length > 0) && PadsTo(d[|d| - length..], length)
  {
  }

  lemma Reassembled(d: Bytes, a: nat, b: nat, c: nat)
    requires FIXED_HEADER_LENGTH <= a <= b <= c <= |d|
    ensures d == d[..FIXED_HEADER_LENGTH] + d[FIXED_HEADER_LENGTH..a] + d[a..b] + d[b..c] + d[c..]
  {
  }

  /** How a record that is returned was read. */
  ghost predicate ReadAs(udp: UdpRecord, record: RtpRecord, extension: Extension) {
    var d := udp.payload;
    && |d| >= FIXED_HEADER_LENGTH && CsrcEnd(d) <= |d| && record.paddingLength >= 0
    && ExtensionOf(d) == Ok(extension)
    && PaddingOf(d, extension.end) == Ok(record.paddingLength)
    && record == RecordOf(udp, Words(d, FIXED_HEADER_LENGTH, CsrcCount(d[0])), extension, record.paddingLength)
  }

  lemma ParsedFrom(udp: UdpRecord, record: RtpRecord) returns (extension: Extension)
    requires Parse(udp) == Ok(Some(record))
    ensures ReadAs(udp, record, extension) && udp.payload[0] / 64 == 2
  {
    hide Compound, U16, U32, Words, ExtensionOf, PaddingOf, FlowOf, CsrcEnd;
    extension := ExtensionOf(udp.payload).value;
  }

  lemma FixedHeaderBack(udp: UdpRecord, record: RtpRecord, extension: Extension)
    requires ReadAs(udp, record, extension) && Encodable(record) && udp.payload[0] / 64 == 2
    requires (record.paddingLength > 0) == (udp.payload[0] / 32 % 2 == 1)
    requires record.extensionProfile.Some? == (udp.payload[0] / 16 % 2 == 1)
    ensures udp.payload[..FIXED_HEADER_LENGTH] == FixedHeader(record)
  {
    hide U16, U32, Words, ExtensionOf, PaddingOf, CsrcEnd, FixedHeader;
    var d := udp.payload;
    OctetParts(d[0], record.paddingLength > 0, record.extensionProfile.Some?, d[0] % 16);
    MarkerParts(d[1], d[1] / 128 == 1, d[1] % 128);
    FixedHeaderIff(d, record);
  }

  lemma PiecesBack(udp: UdpRecord, record: RtpRecord, extension: Extension)
    requires ReadAs(udp, record, extension)
    ensures var d := udp.payload;
            && Encodable(record) && 0 <= record.paddingLength <= |d|
            && PadsTo(d[|d| - record.paddingLength..], record.paddingLength)
            && (record.paddingLength > 0) == (d[0] / 32 % 2 == 1)
            && record.extensionProfile.Some? == (d[0] / 16 % 2 == 1)
            && d[FIXED_HEADER_LENGTH..CsrcEnd(d)] == WordsBytes(record.csrcs)
            && d[CsrcEnd(d)..extension.end] == ExtensionBytes(record.extensionProfile, record.extensionData)
  {
    hide U16, U32, Words, WordsBytes, ParseExtension, ParsePadding, ExtensionBytes, PadsTo;
    var d := udp.payload;
    WordsBytesBack(d, FIXED_HEADER_LENGTH, d[0] % 16);
    ExtensionBack(d, d[0] / 16 % 2 == 1, CsrcEnd(d));
    PaddingIff(d, d[0] / 32 % 2 == 1, extension.end, record.paddingLength);
  }

  /** A record that is returned partitions the datagram into header, CSRCs, extension, payload and padding. */
  lemma ParsePartitions(udp: UdpRecord, record: RtpRecord)
    requires Parse(udp) == Ok(Some(record))
    ensures 0 <= record.paddingLength <= |udp.payload|
    ensures MadeOf(udp, record, udp.payload[|udp.payload| - record.paddingLength..])
  {
    hide Parse, U16, U32, Words, WordsBytes, ExtensionOf, PaddingOf, FixedHeader, ExtensionBytes, PadsTo, CsrcEnd;
    hide Encodable;
    var d := udp.payload;
    var extension := ParsedFrom(udp, record);
    PiecesBack(udp, record, extension);
    FixedHeaderBack(udp, record, extension);
    Reassembled(d, CsrcEnd(d), extension.end, |d| - record.paddingLength);
  }

  lemma PartsInPlace(record: RtpRecord, padding: Bytes)
    requires Encodable(record) && PadsTo(padding, record.paddingLength)
    ensures var d := Serialize(record, padding);
            var words, extension := WordsBytes(record.csrcs),
                                    ExtensionBytes(record.extensionProfile, record.extensionData);
            var end := FIXED_HEADER_LENGTH + |words| + |extension|;
            && |d| == end + |record.payload| + |padding|
            && d[..FIXED_HEADER_LENGTH] == FixedHeader(record)
            && d == FixedHeader(record) + words + (extension + record.payload + padding)
            && d == (FixedHeader(record) + words) + extension + (record.payload + padding)
            && d[end..|d| - |padding|] == record.payload && d[|d| - |padding|..] == padding
  {
    hide WordsBytes, ExtensionBytes, FixedHeader;
  }

  lemma HeaderRead(udp: UdpRecord, record: RtpRecord, padding: Bytes)
    requires MadeOf(udp, record, padding)
    ensures var d := udp.payload;
            && |d| >= FIXED_HEADER_LENGTH && d[0] / 64 == 2 && d[0] % 16 == |record.csrcs|
            && (d[0] / 32 % 2 == 1) == (record.paddingLength > 0)
            && (d[0] / 16 % 2 == 1) == record.extensionProfile.Some?
            && FlowOf(udp) == record.flowKey
            && U16(d[2], d[3]) == record.sequence && U32(d[4], d[5], d[6], d[7]) == record.timestamp
            && (d[1] / 128 == 1) == record.marker
  {
    hide Compound, U16, U32, WordsBytes, FixedHeader, ExtensionBytes, PadsTo, Serialize, U16Bytes, U32Bytes;
    var d := udp.payload;
    PartsInPlace(record, padding);
    FixedHeaderIff(d, record);
    OctetParts(d[0], record.paddingLength > 0, record.extensionProfile.Some?, |record.csrcs|);
    MarkerParts(d[1], record.marker, record.flowKey.payloadType);
  }

  lemma PiecesRead(udp: UdpRecord, record: RtpRecord, padding: Bytes)
    requires MadeOf(udp, record, padding)
    ensures var d := udp.payload;
            var end := FIXED_HEADER_LENGTH + 4 * |record.csrcs|
                       + |ExtensionBytes(record.extensionProfile, record.extensionData)|;
            && FIXED_HEADER_LENGTH + 4 * |record.csrcs| <= end <= |d| - record.paddingLength
               && record.paddingLength >= 0
            && Words(d, FIXED_HEADER_LENGTH, |record.csrcs|) == record.csrcs
            && ParseExtension(d, record.extensionProfile.Some?, FIXED_HEADER_LENGTH + 4 * |record.csrcs|)
               == Ok(Extension(record.extensionProfile, record.extensionData, end))
            && ParsePadding(d, record.paddingLength > 0, end) == Ok(record.paddingLength)
            && d[end..|d| - record.paddingLength] == record.payload
  {
    hide U16, U32, Words, WordsBytes, ParseExtension, ParsePadding, FixedHeader, ExtensionBytes, PadsTo, Serialize;
    hide U16Bytes, U32Bytes;
    var words, extension := WordsBytes(record.csrcs), ExtensionBytes(record.extensionProfile, record.extensionData);
    PartsInPlace(record, padding);
    PaddingSize(padding, record.paddingLength);
    WordsRoundTrip(record.csrcs, FixedHeader(record), extension + record.payload + padding);
    ExtensionForward(FixedHeader(record) + words, record.extensionProfile, record.extensionData,
                     record.payload + padding);
    PaddingIff(udp.payload, record.paddingLength > 0, FIXED_HEADER_LENGTH + |words| + |extension|,
               record.paddingLength);
  }

  /** Parsing undoes serializing, whatever the padding bytes, unless the bytes read as RTCP. */
  lemma ParseUndoesSerialize(udp: UdpRecord, record: RtpRecord, padding: Bytes)
    requires MadeOf(udp, record, padding) && !Compound(udp.payload)
    ensures Parse(udp) == Ok(Some(record))
  {
    hide Compound, U16, U32, Words, ParseExtension, ParsePadding, ExtensionBytes, Serialize, FlowOf, PadsTo, Encodable;
    HeaderRead(udp, record, padding);
    PiecesRead(udp, record, padding);
  }

  lemma PaddingSize(padding: Bytes, length: int)
    requires PadsTo(padding, length)
    ensures |padding| == length
  {
  }

  /** A datagram parses to a record exactly when it is a serialization of that record and does not read as RTCP. */
  lemma ParseIff(udp: UdpRecord, record: RtpRecord)
    ensures Parse(udp) == Ok(Some(record))
            <==> !Compound(udp.payload) && exists padding :: MadeOf(udp, record, padding)
  {
    hide Compound, MadeOf;
    if Parse(udp) == Ok(Some(record)) {
      ParsePartitions(udp, record);
      TakenNotRtcp(udp);
    }
    if !Compound(udp.payload) && exists padding :: MadeOf(udp, record, padding) {
      var padding :| MadeOf(udp, record, padding);
      ParseUndoesSerialize(udp, record, padding);
    }
  }

  lemma TakenNotRtcp(udp: UdpRecord)
    ensures Parse(udp).Ok? && Parse(udp).value.Some? ==> !Compound(udp.payload)
  {
    hide Compound, ParseHeader;
  }

  /**
   * Errors are raised exactly for the version 2 datagrams that are neither RTCP nor the serialization of a record. An
   * error names a flow if the fixed header is there, and that flow has the datagram's addresses and ports, its SSRC and
   * its payload type.
   */
  lemma MalformedIff(udp: UdpRecord)
    ensures Parse(udp).Err?
            <==> (|udp.payload| >= 2 && udp.payload[0] / 64 == 2 && !Compound(udp.payload))
                 && forall record, padding :: !MadeOf(udp, record, padding)
    ensures Parse(udp).Err? ==>
              match Parse(udp).error.flow
              case None => |udp.payload| < 12
              case Some(key) => |udp.payload| >= 12 && IsFlowOf(udp, key)
  {
    hide Compound, MadeOf, ParseHeader, IsFlowOf;
    if Parse(udp).Err? {
      ErrorFlow(udp);
      forall record, padding ensures !MadeOf(udp, record, padding) {
        if MadeOf(udp, record, padding) {
          ParseIff(udp, record);
        }
      }
    }
    if Parse(udp).Ok? && Parse(udp).value.Some? {
      var record := Parse(udp).value.value;
      ParsePartitions(udp, record);
      var padding: Bytes := udp.payload[|udp.payload| - record.paddingLength..];
      assert MadeOf(udp, record, padding);
    }
    NoneWhenNotTaken(udp);
  }

  /** The addresses and ports of a datagram, the SSRC in its third word, and the last seven bits of its second octet. */
  ghost predicate IsFlowOf(udp: UdpRecord, key: FlowKey)
    requires |udp.payload| >= 12
  {
    && key.srcAddress == udp.srcAddress && key.dstAddress == udp.dstAddress
    && key.srcPort == udp.srcPort && key.dstPort == udp.dstPort
    && key.ssrc == Value(BytesToBits(udp.payload[8..12])) && key.payloadType == Value(ByteBits(udp.payload[1])[1..])
  }

  lemma ErrorFlow(udp: UdpRecord)
    requires Parse(udp).Err?
    ensures Parse(udp).error.flow == if |udp.payload| >= 12 then Some(FlowOf(udp)) else None
    ensures |udp.payload| >= 12 ==> IsFlowOf(udp, FlowOf(udp))
  {
    hide Compound, U32, Words, ExtensionOf, PaddingOf, Value, BytesToBits, ByteBits;
    var d := udp.payload;
    if |d| >= 12 {
      NetworkOrder(d[8], d[9], d[10], d[11]);
      assert d[8..12] == [d[8], d[9], d[10], d[11]];
      LastSeven(d[1]);
    }
  }

  /** Where the header ends, as its first octet and the extension's length word say. */
  function HeaderEnd(d: Bytes): (end: int)
    requires |d| >= 12
    ensures end >= 12
  {
    var csrcs := 12 + 4 * (d[0] % 16);
    if d[0] / 16 % 2 == 0 then csrcs
    else if |d| < csrcs + 4 then csrcs + 4
    else
      var high: int, low: int := d[csrcs + 2], d[csrcs + 3];
      csrcs + 4 + 4 * (256 * high + low)
  }

  /**
   * The error says what is wrong: the part of the header that the datagram is too short for, a padding length of zero,
   * or one that reaches into the header.
   */
  lemma FaultsExact(udp: UdpRecord)
    requires Parse(udp).Err?
    ensures var d, fault := udp.payload, Parse(udp).error.fault;
            && (fault.FixedHeaderTruncated? <==> |d| < 12)
            && (|d| >= 12 ==>
                  var csrcs, extended, padded := 12 + 4 * (d[0] % 16), d[0] / 16 % 2 == 1, d[0] / 32 % 2 == 1;
                  && (fault.CsrcListTruncated? <==> |d| < csrcs)
                  && (fault.ExtensionHeaderTruncated? <==> extended && csrcs <= |d| < csrcs + 4)
                  && (fault.ExtensionDataTruncated? <==> extended && csrcs + 4 <= |d| < HeaderEnd(d))
                  && (fault.PaddingZero? <==> padded && HeaderEnd(d) <= |d| && d[|d| - 1] == 0)
                  && (fault.PaddingTooLong? <==>
                        padded && HeaderEnd(d) <= |d| && |d| - HeaderEnd(d) < d[|d| - 1] && d[|d| - 1] > 0))
  {
    hide Compound, Words, FlowOf, U32;
  }

  /** An RTCP report is never taken for RTP. */
  lemma ReportIsNotRtp(udp: UdpRecord, packet: Packet)
    requires packet.IsWhole() && |packet.Content()| / 4 < 0x1_0000 && packet.Count() < 32
    requires udp.payload == WriteBlock(packet, false)
    ensures Parse(udp) == Ok(None)
  {
    hide Compound, WriteBlock, Packet.IsWhole, Packet.Content, ParseHeader;
    ReportRecognized(packet);
  }

  /** Words are in network order, most significant octet first. */
  lemma NetworkOrder(a: Byte, b: Byte, c: Byte, d: Byte)
    ensures U16(a, b) == Value(BytesToBits([a, b])) && U32(a, b, c, d) == Value(BytesToBits([a, b, c, d]))
  {
    hide Value, ByteBits, BytesToBits, Pow2;
    TwoBytes(a, b);
    TwoBytes(c, d);
    BytesInPairs(a, b, c, d);
    JoinSixteen(BytesToBits([a, b]), BytesToBits([c, d]));
  }

  lemma JoinSixteen(s: Bitstring, t: Bitstring)
    ensures |t| == 8 ==> Value(s + t) == 256 * Value(s) + Value(t)
    ensures |t| == 16 ==> Value(s + t) == 0x1_0000 * Value(s) + Value(t)
  {
    hide Value, Pow2;
    ValueJoin(s, t);
    PowersOfTwo();
  }

  lemma TwoBytes(a: Byte, b: Byte)
    ensures BytesToBits([a, b]) == ByteBits(a) + ByteBits(b)
    ensures Value(BytesToBits([a, b])) == 256 * a + b
  {
    hide Value, ByteBits, Pow2;
    OneByteBits(a, [b]);
    OneByteBits(b, []);
    assert [a] + [b] == [a, b] && [b] + [] == [b];
    JoinSixteen(ByteBits(a), ByteBits(b));
  }

  lemma BytesInPairs(a: Byte, b: Byte, c: Byte, d: Byte)
    ensures BytesToBits([a, b, c, d]) == BytesToBits([a, b]) + BytesToBits([c, d])
    ensures |BytesToBits([c, d])| == 16
  {
    hide ByteBits, BytesToBits, Value, Pow2;
    TwoBytes(a, b);
    TwoBytes(c, d);
    OneByteBits(a, [b, c, d]);
    OneByteBits(b, [c, d]);
    assert [a] + [b, c, d] == [a, b, c, d] && [b] + [c, d] == [b, c, d];
  }

  lemma PowersOfTwo()
    ensures Pow2(7) == 128 && Pow2(8) == 256 && Pow2(16) == 0x1_0000
  {
    assert Pow2(8) == 256;
    assert Pow2(12) == 4096;
  }

  lemma LastSeven(b: Byte)
    ensures Value(ByteBits(b)[1..]) == b % 128
  {
    hide Value, ByteBits;
    var s := ByteBits(b);
    assert s == s[..1] + s[1..];
    ValueJoin(s[..1], s[1..]);
    PowersOfTwo();
    OneBit(s[..1]);
    ValueBound(s[1..]);
  }

  lemma OneBit(s: Bitstring)
    requires |s| == 1
    ensures Value(s) == 0 || Value(s) == 1
  {
    assert s[..0] == [];
  }

  lemma ValueBound(s: Bitstring)
    requires |s| == 7
    ensures Value(s) < Pow2(7)
  {
  }

  lemma NoneWhenNotTaken(udp: UdpRecord)
    ensures Parse(udp) == Ok(None) <==> !TakenForRtp(udp.payload)
  {
    hide Compound;
  }

  // ---------------------------------------------------------------------------------------------
  // RTP that reads as RTCP
  // ---------------------------------------------------------------------------------------------

  /** The payload types 64 to 95 of a marked packet look like RTCP packet types. */
  predicate RtcpLookalike(record: RtpRecord) {
    record.marker && 64 <= record.flowKey.payloadType <= 95
  }

  /** Outside the lookalike payload types parsing always undoes serializing. */
  lemma PlainRecordParses(udp: UdpRecord, record: RtpRecord, padding: Bytes)
    requires MadeOf(udp, record, padding) && !RtcpLookalike(record)
    ensures Parse(udp) == Ok(Some(record))
  {
    hide Compound, Serialize, FixedHeader, WordsBytes, ExtensionBytes, PadsTo, U16, U32, FirstOctet;
    PartsInPlace(record, padding);
    FixedHeaderIff(udp.payload, record);
    CompoundOpens(udp.payload);
    ParseUndoesSerialize(udp, record, padding);
  }

  /** A marked packet of payload type 73 with sequence number 2 and no payload is a valid receiver report. */
  lemma LookalikeLost(udp: UdpRecord, record: RtpRecord)
    requires MadeOf(udp, record, []) && record.marker && record.flowKey.payloadType == 73 && record.sequence == 2
    requires record.csrcs == [] && record.extensionProfile.None? && record.payload == [] && record.paddingLength == 0
    ensures Parse(udp) == Ok(None)
  {
    hide U32Bytes, Compound, WriteBlock, Parse;
    var packet := ReceiverReport(U32Bytes(record.timestamp), [], U32Bytes(record.flowKey.ssrc));
    LookalikeReport(record, packet);
    ReportIsNotRtp(udp, packet);
  }

  lemma LookalikeReport(record: RtpRecord, packet: Packet)
    requires Encodable(record) && record.marker && record.flowKey.payloadType == 73 && record.sequence == 2
    requires record.csrcs == [] && record.extensionProfile.None? && record.payload == [] && record.paddingLength == 0
    requires packet == ReceiverReport(U32Bytes(record.timestamp), [], U32Bytes(record.flowKey.ssrc))
    ensures packet.IsWhole() && |packet.Content()| == 8 && packet.Count() == 0
    ensures WriteBlock(packet, false) == Serialize(record, [])
  {
    hide U32Bytes;
    assert WordsBytes(record.csrcs) == [] && ExtensionBytes(record.extensionProfile, record.extensionData) == [];
    assert Joined([]) == [];
  }
}
