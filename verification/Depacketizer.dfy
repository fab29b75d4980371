/** The parsing loops of rfc4867.py, proved to compute Rfc4867.Depacketize. */
module Depacketizer {
  import opened Models
  import opened Bits
  import opened BitBuffers
  import opened CodecTables
  import opened Rfc4867

  // ---------------------------------------------------------------------------------------------
  // Octet-aligned: masks on bytes
  // ---------------------------------------------------------------------------------------------

  lemma MaskConstants()
    ensures Pow2(2) == 4 && Pow2(4) == 16 && Pow2(7) == 128
  {
    assert Pow2(1) == 2;
    assert Pow2(3) == 8;
    assert Pow2(5) == 32;
  }

  /** The table-of-contents masks pick out the fields of an entry octet. */
  lemma EntryMasks(b: Byte)
    ensures var t := ByteBits(b);
            && (BitAnd(b, 0x03) != 0 <==> t[6] || t[7])
            && BitAnd(ShiftRight(b, 3), 0x0F) == TypeOf(t[1..5])
            && (BitAnd(b, 0x04) != 0 <==> t[5])
            && (BitAnd(b, 0x80) != 0 <==> t[0])
  {
    hide BitAnd, ShiftRight, Value, ByteBits;
    var t := ByteBits(b);
    MaskConstants();
    MaskKeeps(t, 2);
    ValueZeros(t[6..]);
    assert true in t[6..] <==> t[6] || t[7] by {
      assert t[6..] == [t[6], t[7]];
    }
    ShiftRightDrops(t, 3);
    MaskKeeps(t[..5], 4);
    assert t[..5][1..] == t[1..5];
    MaskTests(t, 2);
    MaskTests(t, 7);
  }

  lemma ModeMask(b: Byte)
    ensures BitAnd(b, 0x0F) != 0 <==> true in ByteBits(b)[4..]
  {
    hide BitAnd, Value, ByteBits;
    MaskConstants();
    MaskKeeps(ByteBits(b), 4);
    ValueZeros(ByteBits(b)[4..]);
  }

  /** The mask that both the octet-aligned parser and the storage writer put on a frame's last byte. */
  predicate TailBitsSet(data: Bytes, n: nat)
    requires |data| == ByteLength(n)
  {
    var padding := Padding(n);
    padding != 0 && BitAnd(data[|data| - 1], ShiftLeft(1, padding) - 1) != 0
  }

  /** The mask on a frame's last byte refuses exactly the bytes that do not pack n bits. */
  lemma PaddingMask(data: Bytes, entry: TocEntry)
    requires |data| == ByteLength(entry.bitCount)
    ensures TailBitsSet(data, entry.bitCount) <==> ReadBody(entry, data).Err?
    ensures TailBitsSet(data, entry.bitCount) ==> ReadBody(entry, data) == Err(NonzeroPadding)
  {
    hide BitAnd, ShiftLeft, BytesToBits;
    var n := entry.bitCount;
    BytesToBitsLength(data);
    if Padding(n) > 0 {
      LastBits(data, n);
    }
  }

  lemma LastBits(data: Bytes, n: nat)
    requires |data| == ByteLength(n) && Padding(n) > 0
    ensures data != [] && n <= |BytesToBits(data)|
    ensures BitAnd(data[|data| - 1], ShiftLeft(1, Padding(n)) - 1) != 0 <==> true in BytesToBits(data)[n..]
  {
    var p, front, last := Padding(n), data[..|data| - 1], data[|data| - 1];
    hide BitAnd, ShiftLeft, Value, ByteBits, BytesToBits, Pow2;
    var t := ByteBits(last);
    assert data == front + [last];
    BytesToBitsAppend(front, last);
    BytesToBitsLength(data);
    assert BytesToBits(data)[n..] == t[8 - p..];
    MaskOf(p);
    MaskKeeps(t, p);
    ValueZeros(t[8 - p..]);
  }

  // ---------------------------------------------------------------------------------------------
  // Octet-aligned: the loops
  // ---------------------------------------------------------------------------------------------

  /** One pass of the table-of-contents loop. */
  method TakeEntryOctet(payload: Bytes, offset: nat, codec: Codec) returns (followed: bool, r: Result<TocEntry, Reason>)
    requires offset < |payload|
    ensures r.Err? ==> ReadTocOctets(codec, payload[offset..]) == Err(r.error)
    ensures r.Ok? ==>
              ReadTocOctets(codec, payload[offset..])
              == if followed then PrependEntries([r.value], ReadTocOctets(codec, payload[offset + 1..]))
                 else Ok(Toc([r.value], payload[offset + 1..]))
  {
    hide BitAnd, ShiftRight, ByteBits, ValidatedBitCount;
    var toc := payload[offset];
    ghost var rest := payload[offset..];
    assert rest[0] == toc && rest[1..] == payload[offset + 1..];
    EntryMasks(toc);
    followed := BitAnd(toc, 0x80) != 0;
    if BitAnd(toc, 0x03) != 0 {
      return followed, Err(NonzeroPadding);
    }
    var frameType := BitAnd(ShiftRight(toc, 3), 0x0F);
    var count := ValidatedBitCount(codec, frameType);
    if count.Err? {
      return followed, Err(count.error);
    }
    return followed, Ok(TocEntry(frameType, BitAnd(toc, 0x04) != 0, count.value));
  }

  method ReadOctetToc(payload: Bytes, codec: Codec) returns (r: Result<(seq<TocEntry>, nat), Reason>)
    requires |payload| >= 1
    ensures match ReadTocOctets(codec, payload[1..])
            case Err(e) => r == Err(e)
            case Ok(toc) => r.Ok? && r.value.0 == toc.entries && r.value.1 <= |payload|
                            && payload[r.value.1..] == toc.rest
  {
    hide PrependEntries, ReadTocOctets;
    var offset: nat := 1;
    var entries: seq<TocEntry> := [];
    var followed := true;
    PrependNoEntries(ReadTocOctets(codec, payload[1..]));
    while followed
      invariant 1 <= offset <= |payload|
      invariant ReadTocOctets(codec, payload[1..])
                == if followed then PrependEntries(entries, ReadTocOctets(codec, payload[offset..]))
                   else Ok(Toc(entries, payload[offset..]))
      decreases followed, |payload| - offset
    {
      if offset >= |payload| {
        assert payload[offset..] == [];
        TocExhausted(codec, entries);
        return Err(IncompleteToc);
      }
      var more, entry := TakeEntryOctet(payload, offset, codec);
      offset := offset + 1;
      if entry.Err? {
        PrependToError<Bytes>(entries, entry.error);
        return Err(entry.error);
      }
      PrependEntriesTwice(entries, [entry.value], ReadTocOctets(codec, payload[offset..]));
      PrependToToc(entries, entry.value, payload[offset..]);
      entries := entries + [entry.value];
      followed := more;
    }
    return Ok((entries, offset));
  }

  lemma TocExhausted(codec: Codec, entries: seq<TocEntry>)
    ensures PrependEntries(entries, ReadTocOctets(codec, [])) == Err(IncompleteToc)
  {
  }

  lemma PrependToError<S>(entries: seq<TocEntry>, e: Reason)
    ensures PrependEntries<S>(entries, Err(e)) == Err(e)
  {
  }

  lemma PrependToToc<S>(entries: seq<TocEntry>, entry: TocEntry, rest: S)
    ensures PrependEntries(entries, Ok(Toc([entry], rest))) == Ok(Toc(entries + [entry], rest))
  {
  }

  lemma FramesOfNothing(codec: Codec, timestamp: int, provenance: Provenance)
    ensures Frames(codec, [], timestamp, provenance) == []
  {
  }

  lemma FramesAppend(codec: Codec, bodies: seq<Body>, body: Body, timestamp: int, provenance: Provenance)
    ensures Frames(codec, bodies + [body], timestamp, provenance)
            == Frames(codec, bodies, timestamp, provenance)
               + [FrameOf(codec, body, timestamp + |bodies| * TimestampStep(codec), provenance)]
  {
    hide Pack, TimestampStep;
  }

  /** One pass of the frame loop: the data bytes of one frame, or why they are refused. */
  method TakeOctets(payload: Bytes, offset: nat, entry: TocEntry, ghost entries: seq<TocEntry>)
    returns (r: Result<Bytes, Reason>, ghost body: Body)
    requires offset <= |payload| && entries != [] && entries[0] == entry
    ensures r.Err? ==> ReadSpeechOctets(entries, payload[offset..]) == Err(r.error)
    ensures r.Ok? ==>
              && offset + |r.value| <= |payload| && EntryOf(body) == entry && r.value == Pack(body.bits)
              && ReadSpeechOctets(entries, payload[offset..])
                 == PrependBodies([body], ReadSpeechOctets(entries[1..], payload[offset + |r.value|..]))
  {
    hide TailBitsSet, ReadBody, Pack, ByteLength;
    body := Body(0, false, []);
    var count := ByteLength(entry.bitCount);
    var end := offset + count;
    if end > |payload| {
      return Err(TruncatedSpeechData), body;
    }
    var data := payload[offset..end];
    assert payload[offset..][..count] == data && payload[offset..][count..] == payload[end..];
    PaddingMask(data, entry);
    if TailBitsSet(data, entry.bitCount) {
      return Err(NonzeroPadding), body;
    }
    body := ReadBody(entry, data).value;
    ReadBodyIff(entry, data, body);
    return Ok(data), body;
  }

  method ReadOctetFrames(
    payload: Bytes, start: nat, entries: seq<TocEntry>, codec: Codec, timestamp: int, provenance: Provenance)
    returns (r: Result<(seq<EncodedFrame>, nat), Reason>)
    requires start <= |payload|
    ensures match ReadSpeechOctets(entries, payload[start..])
            case Err(e) => r == Err(e)
            case Ok(speech) =>
              r.Ok? && r.value.0 == Frames(codec, speech.bodies, timestamp, provenance)
              && r.value.1 <= |payload| && payload[r.value.1..] == speech.rest
  {
    hide ReadSpeechOctets, Frames, Pack;
    ghost var speech := ReadSpeechOctets(entries, payload[start..]);
    var offset: nat := start;
    var frames: seq<EncodedFrame> := [];
    ghost var bodies: seq<Body> := [];
    var index := 0;
    FramesOfNothing(codec, timestamp, provenance);
    PrependNoBodies(speech);
    while index < |entries|
      invariant index <= |entries| && offset <= |payload| && |bodies| == index
      invariant frames == Frames(codec, bodies, timestamp, provenance)
      invariant speech == PrependBodies(bodies, ReadSpeechOctets(entries[index..], payload[offset..]))
    {
      var entry := entries[index];
      var data, body := TakeOctets(payload, offset, entry, entries[index..]);
      if data.Err? {
        return Err(data.error);
      }
      offset := offset + |data.value|;
      PrependBodiesTwice(bodies, [body], ReadSpeechOctets(entries[index + 1..], payload[offset..]));
      assert entries[index..][1..] == entries[index + 1..];
      FramesAppend(codec, bodies, body, timestamp, provenance);
      frames := frames + [EncodedFrame(codec, entry.frameType, entry.quality, entry.bitCount, data.value,
                                       timestamp + index * TimestampStep(codec), provenance)];
      bodies := bodies + [body];
      index := index + 1;
    }
    assert entries[index..] == [] && bodies + [] == bodies;
    NoSpeech(payload[offset..], []);
    return Ok((frames, offset));
  }

  /** _depacketize_octet_aligned. */
  method DepacketizeOctetAligned(payload: Bytes, codec: Codec, timestamp: int, provenance: Provenance)
    returns (r: Result<seq<EncodedFrame>, Reason>)
    ensures r == Depacketize(payload, codec, OctetAligned, timestamp, provenance)
  {
    hide BitAnd, ByteBits, ReadTocOctets, ReadSpeechOctets, Frames;
    if |payload| < 2 {
      return Err(ShortHeader);
    }
    ModeMask(payload[0]);
    if BitAnd(payload[0], 0x0F) != 0 {
      return Err(NonzeroPadding);
    }
    var toc := ReadOctetToc(payload, codec);
    if toc.Err? {
      return Err(toc.error);
    }
    var frames := ReadOctetFrames(payload, toc.value.1, toc.value.0, codec, timestamp, provenance);
    if frames.Err? {
      return Err(frames.error);
    }
    if frames.value.1 != |payload| {
      return Err(TrailingData);
    }
    return Ok(frames.value.0);
  }

  // ---------------------------------------------------------------------------------------------
  // Bandwidth-efficient: the same loops over the integer-backed bit buffer
  // ---------------------------------------------------------------------------------------------

  /** Buffer lookups at in-range positions. */
  lemma BufferReads(b: BitBuffer, s: Bitstring, lo: nat, hi: nat)
    requires Represents(b, s) && lo <= hi <= |s|
    ensures lo < |s| ==> b.At(lo) == Ok(BitValue(s[lo]))
    ensures b.Slice(Some(lo), Some(hi), 1).Ok? && Represents(b.Slice(Some(lo), Some(hi), 1).value, s[lo..hi])
  {
    hide Represents, BitBuffer.At, BitBuffer.Slice;
    AtIsIndexing(b, s, lo);
    SliceIsSlicing(b, s, Some(lo), Some(hi));
  }

  /** _bits_to_int. */
  method BitsToInt(bits: BitBuffer, ghost s: Bitstring) returns (value: nat)
    requires Represents(bits, s)
    ensures value == Value(s)
  {
    hide BitBuffer.At, Value, BitOr, ShiftLeft;
    value := 0;
    var i: nat := 0;
    ValueZeros([]);
    while i < bits.length
      invariant i <= |s| && value == Value(s[..i])
    {
      BufferReads(bits, s, i, i);
      var bit := bits.At(i);
      ShiftInBit(s[..i], s[i]);
      assert s[..i + 1] == s[..i] + [s[i]];
      value := BitOr(ShiftLeft(value, 1), bit.value);
      i := i + 1;
    }
    assert s[..i] == s;
  }

  /** any(bits). */
  method AnySet(bits: BitBuffer, ghost s: Bitstring) returns (any: bool)
    requires Represents(bits, s)
    ensures any <==> true in s
  {
    hide BitBuffer.At, Value;
    var i: nat := 0;
    while i < bits.length
      invariant i <= |s| && true !in s[..i]
    {
      BufferReads(bits, s, i, i);
      var bit := bits.At(i);
      assert s[..i + 1] == s[..i] + [s[i]];
      if bit.value != 0 {
        return true;
      }
      i := i + 1;
    }
    assert s[..i] == s;
    return false;
  }

  method AnyFrom(bits: BitBuffer, ghost s: Bitstring, position: nat) returns (any: bool)
    requires Represents(bits, s) && position <= |s|
    ensures any <==> true in s[position..]
  {
    hide BitBuffer.Slice, Value;
    SliceIsSlicing(bits, s, Some(position), None);
    assert s[position..|s|] == s[position..];
    var tail := bits.Slice(Some(position), None, 1);
    any := AnySet(tail.value, s[position..]);
  }

  /** One entry of the table of contents. */
  method TakeEntry(bits: BitBuffer, ghost s: Bitstring, position: nat, codec: Codec)
    returns (followed: bool, r: Result<TocEntry, Reason>)
    requires Represents(bits, s) && position + 6 <= |s|
    ensures followed <==> s[position]
    ensures r == ReadEntry(codec, s[position..])
  {
    hide BitBuffer.At, BitBuffer.Slice, Value, ValidatedBitCount;
    BufferReads(bits, s, position, position);
    BufferReads(bits, s, position + 1, position + 5);
    BufferReads(bits, s, position + 5, position + 5);
    assert s[position..][1..5] == s[position + 1..position + 5];
    var first := bits.At(position);
    var quality := bits.At(position + 5);
    var typeBits := bits.Slice(Some(position + 1), Some(position + 5), 1);
    var frameType := BitsToInt(typeBits.value, s[position + 1..position + 5]);
    assert frameType == TypeOf(s[position + 1..position + 5]);
    followed := first.value != 0;
    var count := ValidatedBitCount(codec, frameType);
    if count.Err? {
      return followed, Err(count.error);
    }
    return followed, Ok(TocEntry(frameType, quality.value != 0, count.value));
  }

  lemma BitTocStep(codec: Codec, s: Bitstring, position: nat)
    requires position + 6 <= |s|
    ensures var v := ReadEntry(codec, s[position..]);
            (v.Err? ==> ReadTocBits(codec, s[position..]) == Err(v.error))
            && (v.Ok? ==>
                  ReadTocBits(codec, s[position..])
                  == if s[position] then PrependEntries([v.value], ReadTocBits(codec, s[position + 6..]))
                     else Ok(Toc([v.value], s[position + 6..])))
  {
    hide ReadEntry;
    assert s[position..][6..] == s[position + 6..];
  }

  method ReadBitToc(bits: BitBuffer, ghost s: Bitstring, codec: Codec) returns (r: Result<(seq<TocEntry>, nat), Reason>)
    requires Represents(bits, s) && |s| >= 10
    ensures match ReadTocBits(codec, s[4..])
            case Err(e) => r == Err(e)
            case Ok(toc) => r.Ok? && r.value.0 == toc.entries && r.value.1 <= |s| && s[r.value.1..] == toc.rest
  {
    hide ReadTocBits, ReadEntry, PrependEntries, Value;
    var position: nat := 4;
    var entries: seq<TocEntry> := [];
    var followed := true;
    PrependNoEntries(ReadTocBits(codec, s[4..]));
    while followed
      invariant 4 <= position <= |s|
      invariant ReadTocBits(codec, s[4..])
                == if followed then PrependEntries(entries, ReadTocBits(codec, s[position..]))
                   else Ok(Toc(entries, s[position..]))
      decreases followed, |s| - position
    {
      if bits.length - position < 6 {
        BitTocExhausted(codec, entries, s[position..]);
        return Err(IncompleteToc);
      }
      BitTocStep(codec, s, position);
      var more, entry := TakeEntry(bits, s, position, codec);
      position := position + 6;
      if entry.Err? {
        PrependToError<Bitstring>(entries, entry.error);
        return Err(entry.error);
      }
      PrependEntriesTwice(entries, [entry.value], ReadTocBits(codec, s[position..]));
      PrependToToc(entries, entry.value, s[position..]);
      entries := entries + [entry.value];
      followed := more;
    }
    return Ok((entries, position));
  }

  lemma BitTocExhausted(codec: Codec, entries: seq<TocEntry>, s: Bitstring)
    requires |s| < 6
    ensures PrependEntries(entries, ReadTocBits(codec, s)) == Err(IncompleteToc)
  {
  }

  lemma BitSpeechStep(entries: seq<TocEntry>, s: Bitstring, position: nat)
    requires entries != [] && position <= |s|
    ensures var e := entries[0];
            var end := position + e.bitCount;
            if end > |s| then ReadSpeechBits(entries, s[position..]) == Err(TruncatedSpeechData)
            else ReadSpeechBits(entries, s[position..])
                 == PrependBodies([Body(e.frameType, e.quality, s[position..end])],
                                  ReadSpeechBits(entries[1..], s[end..]))
  {
    var end := position + entries[0].bitCount;
    if end <= |s| {
      assert s[position..][..entries[0].bitCount] == s[position..end];
      assert s[position..][entries[0].bitCount..] == s[end..];
    }
  }

  /** The bytes of one frame, cut out of the buffer. */
  method TakeBits(bits: BitBuffer, ghost s: Bitstring, position: nat, end: nat) returns (data: Bytes)
    requires Represents(bits, s) && position <= end <= |s|
    ensures data == Pack(s[position..end])
  {
    hide BitBuffer.Slice, BitBuffer.ToBytes, Value, Pack;
    BufferReads(bits, s, position, end);
    var dataBits := bits.Slice(Some(position), Some(end), 1);
    ToBytesIsPack(dataBits.value, s[position..end]);
    data := dataBits.value.ToBytes();
  }

  method ReadBitFrames(
    bits: BitBuffer, ghost s: Bitstring, start: nat, entries: seq<TocEntry>,
    codec: Codec, timestamp: int, provenance: Provenance)
    returns (r: Result<(seq<EncodedFrame>, nat), Reason>)
    requires Represents(bits, s) && start <= |s|
    ensures match ReadSpeechBits(entries, s[start..])
            case Err(e) => r == Err(e)
            case Ok(speech) =>
              r.Ok? && r.value.0 == Frames(codec, speech.bodies, timestamp, provenance)
              && r.value.1 <= |s| && s[r.value.1..] == speech.rest
  {
    hide ReadSpeechBits, Frames, Pack, Value;
    ghost var speech := ReadSpeechBits(entries, s[start..]);
    var position := start;
    var frames: seq<EncodedFrame> := [];
    ghost var bodies: seq<Body> := [];
    var index := 0;
    FramesOfNothing(codec, timestamp, provenance);
    PrependNoBodies(speech);
    while index < |entries|
      invariant index <= |entries| && position <= |s| && |bodies| == index
      invariant frames == Frames(codec, bodies, timestamp, provenance)
      invariant speech == PrependBodies(bodies, ReadSpeechBits(entries[index..], s[position..]))
    {
      var entry := entries[index];
      var end := position + entry.bitCount;
      BitSpeechStep(entries[index..], s, position);
      if end > bits.length {
        return Err(TruncatedSpeechData);
      }
      ghost var body := Body(entry.frameType, entry.quality, s[position..end]);
      var data := TakeBits(bits, s, position, end);
      FramesAppend(codec, bodies, body, timestamp, provenance);
      PrependBodiesTwice(bodies, [body], ReadSpeechBits(entries[index + 1..], s[end..]));
      assert entries[index..][1..] == entries[index + 1..];
      frames := frames + [EncodedFrame(codec, entry.frameType, entry.quality, entry.bitCount, data,
                                       timestamp + index * TimestampStep(codec), provenance)];
      bodies := bodies + [body];
      position := end;
      index := index + 1;
    }
    assert entries[index..] == [] && bodies + [] == bodies;
    NoSpeech([], s[position..]);
    return Ok((frames, position));
  }

  /** _depacketize_bandwidth_efficient on the integer-backed buffer: the same result as over plain bit sequences. */
  method DepacketizeBandwidthEfficient(payload: Bytes, codec: Codec, timestamp: int, provenance: Provenance)
    returns (r: Result<seq<EncodedFrame>, Reason>)
    ensures r == Depacketize(payload, codec, BandwidthEfficient, timestamp, provenance)
  {
    hide BytesToBits, ReadTocBits, ReadSpeechBits, Frames, Value, BitBuffer.FromBytes;
    ghost var s := BytesToBits(payload);
    FromBytesIsPrefix(payload, None);
    assert s[..|s|] == s;
    var buffer := BitBuffer.FromBytes(payload, None);
    var bits := buffer.value;
    if bits.length < 10 {
      return Err(ShortHeader);
    }
    var toc := ReadBitToc(bits, s, codec);
    if toc.Err? {
      return Err(toc.error);
    }
    var frames := ReadBitFrames(bits, s, toc.value.1, toc.value.0, codec, timestamp, provenance);
    if frames.Err? {
      return Err(frames.error);
    }
    var position := frames.value.1;
    if bits.length - position > 7 {
      return Err(TrailingData);
    }
    var padded := AnyFrom(bits, s, position);
    if padded {
      return Err(NonzeroPadding);
    }
    return Ok(frames.value.0);
  }

  /** depacketize: dispatch on the payload mode. */
  method DepacketizePayload(payload: Bytes, codec: Codec, mode: PayloadMode, timestamp: int, provenance: Provenance)
    returns (r: Result<seq<EncodedFrame>, Reason>)
    ensures r == Depacketize(payload, codec, mode, timestamp, provenance)
  {
    if mode.OctetAligned? {
      r := DepacketizeOctetAligned(payload, codec, timestamp, provenance);
    } else {
      r := DepacketizeBandwidthEfficient(payload, codec, timestamp, provenance);
    }
  }
}
