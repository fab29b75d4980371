/** Storage serialization (storage.py) and the section 5.3 reader of RFC 4867 that decodes it. */
module Storage {
  import opened Models
  import opened Bits
  import opened CodecTables
  import opened Rfc4867
  import opened Depacketizer

  /** The frame header: the type in bits 3 to 6, the quality in bit 2, every other bit zero. */
  function HeaderByte(frameType: int, quality: bool): int {
    8 * frameType + (if quality then 4 else 0)
  }

  /** serialize_storage_frame: the checks in order, then one header byte and the data. */
  function SerializeFrame(frame: EncodedFrame): Result<Bytes, Reason> {
    var expected := BitCount(frame.codec, frame.frameType);
    if !ValidFrameType(frame.codec, frame.frameType) || expected.None? then Err(InvalidFrameType)
    else if frame.bitLength != expected.value then Err(InvalidFrameLength)
    else if |frame.data| != ByteLength(expected.value) then Err(InvalidFrameLength)
    else if TailBitsSet(frame.data, expected.value) then Err(NonzeroPadding)
    else Ok([HeaderByte(frame.frameType, frame.quality)] + frame.data)
  }

  /** The storage header of a frame is its octet-aligned entry with the F bit clear. */
  lemma HeaderIsEntryOctet(entry: TocEntry)
    ensures HeaderByte(entry.frameType, entry.quality) == EntryOctet(false, entry)
  {
    hide TypeBits, Value;
    var t := TypeBits(entry.frameType);
    var s := EntryBits(false, entry) + [false, false];
    assert s == [false] + t + [entry.quality] + [false] + [false];
    ValueAppend([false] + t + [entry.quality] + [false], false);
    ValueAppend([false] + t + [entry.quality], false);
    ValueAppend([false] + t, entry.quality);
    ValueLeadingZeros(1, t);
    assert Zeros(1) == [false];
  }

  /** What a stored frame looks like. */
  ghost function StoredBody(body: Body): Bytes {
    [EntryOctet(false, EntryOf(body))] + Pack(body.bits)
  }

  /** A frame that is the packing of this valid body. */
  ghost predicate Packs(frame: EncodedFrame, body: Body) {
    ValidBody(frame.codec, body) && frame == FrameOf(frame.codec, body, frame.mediaTimestamp, frame.provenance)
  }

  /** Serializing the packing of a valid body stores that body. */
  lemma SerializePacked(frame: EncodedFrame, body: Body)
    requires Packs(frame, body)
    ensures SerializeFrame(frame) == Ok(StoredBody(body))
  {
    hide TailBitsSet, Pack, ReadBody, EntryOctet, ByteLength, HeaderByte;
    TablesAgree(frame.codec, frame.frameType);
    PackBits(body.bits);
    ReadBodyIff(EntryOf(body), frame.data, body);
    PaddingMask(frame.data, EntryOf(body));
    HeaderIsEntryOctet(EntryOf(body));
  }

  /** Serialization accepts exactly the frames that pack a valid body. */
  lemma SerializeIffPacked(frame: EncodedFrame)
    ensures SerializeFrame(frame).Ok? <==> exists body :: Packs(frame, body)
  {
    if SerializeFrame(frame).Ok? {
      var body := PackedBody(frame);
      assert Packs(frame, body);
    }
    if exists body :: Packs(frame, body) {
      var body :| Packs(frame, body);
      SerializePacked(frame, body);
    }
  }

  lemma PackedBody(frame: EncodedFrame) returns (body: Body)
    requires SerializeFrame(frame).Ok?
    ensures Packs(frame, body)
  {
    hide TailBitsSet, Pack, ReadBody, ByteLength, HeaderByte;
    TablesAgree(frame.codec, frame.frameType);
    var entry := TocEntry(frame.frameType, frame.quality, frame.bitLength);
    PaddingMask(frame.data, entry);
    body := ReadBody(entry, frame.data).value;
    ReadBodyIff(entry, frame.data, body);
  }

  /** The codec has frames of this type. */
  ghost predicate KnownType(codec: Codec, frameType: int) {
    exists body: Body :: ValidBody(codec, body) && body.frameType == frameType
  }

  /** The frame is as long as every frame of its type is. */
  ghost predicate RightLength(frame: EncodedFrame) {
    forall body: Body | ValidBody(frame.codec, body) && body.frameType == frame.frameType ::
      frame.bitLength == |body.bits| && |frame.data| == |Pack(body.bits)|
  }

  lemma TypeKnown(codec: Codec, frameType: int)
    ensures KnownType(codec, frameType) <==> ValidFrameType(codec, frameType)
    ensures ValidFrameType(codec, frameType) ==> BitCount(codec, frameType).Some?
  {
    TablesAgree(codec, frameType);
    if ValidFrameType(codec, frameType) {
      assert ValidBody(codec, Body(frameType, true, Zeros(BitCount(codec, frameType).value)));
    }
  }

  lemma LengthRight(frame: EncodedFrame)
    requires KnownType(frame.codec, frame.frameType)
    ensures var count := BitCount(frame.codec, frame.frameType);
            && count.Some?
            && (RightLength(frame) <==> frame.bitLength == count.value && |frame.data| == ByteLength(count.value))
  {
    hide Pack, ByteLength, BitCount;
    var some: Body :| ValidBody(frame.codec, some) && some.frameType == frame.frameType;
    PackBits(some.bits);
    forall body: Body | ValidBody(frame.codec, body) && body.frameType == frame.frameType
      ensures |body.bits| == |some.bits| && |Pack(body.bits)| == ByteLength(|body.bits|)
    {
      PackBits(body.bits);
    }
  }

  /**
   * Why a frame is refused: its codec has no frames of its type; or its length, in bits or in bytes, is not theirs; or
   * its length is right and still it packs no body, for bits that are set behind the last one.
   */
  lemma SerializeRefused(frame: EncodedFrame, reason: Reason)
    ensures SerializeFrame(frame) == Err(reason)
            <==> match reason
                 case InvalidFrameType => !KnownType(frame.codec, frame.frameType)
                 case InvalidFrameLength => KnownType(frame.codec, frame.frameType) && !RightLength(frame)
                 case NonzeroPadding =>
                   && KnownType(frame.codec, frame.frameType) && RightLength(frame)
                   && !exists body :: Packs(frame, body)
                 case _ => false
  {
    hide TailBitsSet, ByteLength, HeaderByte, Pack, Packs, KnownType, RightLength;
    TypeKnown(frame.codec, frame.frameType);
    if KnownType(frame.codec, frame.frameType) {
      LengthRight(frame);
    }
    SerializeIffPacked(frame);
  }

  // ---------------------------------------------------------------------------------------------
  // The stream
  // ---------------------------------------------------------------------------------------------

  ghost function StoredBodies(bodies: seq<Body>): Bytes {
    if bodies == [] then [] else StoredBody(bodies[0]) + StoredBodies(bodies[1..])
  }

  ghost function StorageStream(codec: Codec, bodies: seq<Body>): Bytes {
    StorageHeader(codec) + StoredBodies(bodies)
  }

  /** One stored frame: a strict header octet, then the frame's bytes. */
  ghost function ReadStoredBody(codec: Codec, s: Bytes): Option<(nat, Body)>
    requires s != []
  {
    var t := ByteBits(s[0]);
    if t[0] || t[6] || t[7] || ReadEntry(codec, t).Err? then None
    else
      var entry := ReadEntry(codec, t).value;
      var end := 1 + ByteLength(entry.bitCount);
      if end > |s| || ReadBody(entry, s[1..end]).Err? then None
      else Some((end, ReadBody(entry, s[1..end]).value))
  }

  ghost function ReadStoredBodies(codec: Codec, s: Bytes): Option<seq<Body>>
    decreases |s|
  {
    if s == [] then Some([])
    else
      var first := ReadStoredBody(codec, s);
      if first.None? || !(0 < first.value.0 <= |s|) then None
      else
        var rest := ReadStoredBodies(codec, s[first.value.0..]);
        if rest.None? then None else Some([first.value.1] + rest.value)
  }

  /** The section 5.3 reader: the magic header, then frame after frame to the end. */
  ghost function ReadStorage(codec: Codec, data: Bytes): Option<seq<Body>> {
    var magic := StorageHeader(codec);
    if magic <= data then ReadStoredBodies(codec, data[|magic|..]) else None
  }

  /** A stored frame is read exactly when the bytes open with it. */
  lemma ReadStoredBodyIff(codec: Codec, s: Bytes, n: nat, body: Body)
    requires s != []
    ensures ReadStoredBody(codec, s) == Some((n, body))
            <==> ValidBody(codec, body) && n == |StoredBody(body)| && StoredBody(body) <= s
  {
    hide ReadEntry, ReadBody, Pack, ByteLength, EntryOctet, EntryBits, ValidatedBitCount, ByteBits;
    if ReadStoredBody(codec, s) == Some((n, body)) {
      StoredBodySound(codec, s, n, body);
    }
    if ValidBody(codec, body) && n == |StoredBody(body)| && StoredBody(body) <= s {
      StoredBodyComplete(codec, s, body);
    }
  }

  lemma StoredBodySound(codec: Codec, s: Bytes, n: nat, body: Body)
    requires s != [] && ReadStoredBody(codec, s) == Some((n, body))
    ensures ValidBody(codec, body) && n == |StoredBody(body)| && StoredBody(body) <= s
  {
    hide ReadEntry, ReadBody, Pack, ByteLength, EntryOctet, EntryBits, ValidatedBitCount, ByteBits;
    var t := ByteBits(s[0]);
    var entry := ReadEntry(codec, t).value;
    ReadEntryIff(codec, t, entry);
    EntryOctetIff(s[0], entry);
    ReadBodyIff(entry, s[1..n], body);
    assert s[..n] == [s[0]] + s[1..n];
  }

  lemma StoredBodyComplete(codec: Codec, s: Bytes, body: Body)
    requires s != [] && ValidBody(codec, body) && StoredBody(body) <= s
    ensures ReadStoredBody(codec, s) == Some((|StoredBody(body)|, body))
  {
    hide ReadEntry, ReadBody, Pack, ByteLength, EntryOctet, EntryBits, ValidatedBitCount, ByteBits;
    var entry, data := EntryOf(body), Pack(body.bits);
    var n := |StoredBody(body)|;
    assert s[0] == StoredBody(body)[0];
    assert s[1..n] == data;
    EntryOctetBits(false, entry);
    EntryOctetIff(s[0], entry);
    ReadEntryIff(codec, ByteBits(s[0]), entry);
    PackBits(body.bits);
    ReadBodyIff(entry, data, body);
  }

  lemma StoredBodiesCons(body: Body, bodies: seq<Body>)
    ensures StoredBodies([body] + bodies) == StoredBody(body) + StoredBodies(bodies)
  {
    hide StoredBody;
    assert ([body] + bodies)[1..] == bodies;
  }

  lemma {:induction false} ReadStoredBodiesComplete(codec: Codec, bodies: seq<Body>)
    requires AllValid(codec, bodies)
    ensures ReadStoredBodies(codec, StoredBodies(bodies)) == Some(bodies)
  {
    if bodies != [] {
      hide ValidBody, StoredBodies, ReadStoredBody;
      var head, tail := StoredBody(bodies[0]), StoredBodies(bodies[1..]);
      ReadStoredBodiesComplete(codec, bodies[1..]);
      assert bodies == [bodies[0]] + bodies[1..];
      StoredBodiesCons(bodies[0], bodies[1..]);
      assert (head + tail)[|head|..] == tail;
      assert ValidBody(codec, bodies[0]);
      ReadStoredBodyIff(codec, head + tail, |head|, bodies[0]);
    }
  }

  lemma ReadStoredBodiesFirst(codec: Codec, s: Bytes) returns (n: nat, body: Body)
    requires s != [] && ReadStoredBodies(codec, s).Some?
    ensures 0 < n <= |s| && ValidBody(codec, body) && s == StoredBody(body) + s[n..]
    ensures ReadStoredBodies(codec, s[n..]).Some?
    ensures ReadStoredBodies(codec, s).value == [body] + ReadStoredBodies(codec, s[n..]).value
  {
    hide ReadStoredBody, ValidBody, StoredBody;
    var first := ReadStoredBody(codec, s).value;
    n, body := first.0, first.1;
    ReadStoredBodyIff(codec, s, n, body);
    assert s == s[..n] + s[n..];
  }

  lemma {:induction false} ReadStoredBodiesSound(codec: Codec, s: Bytes)
    requires ReadStoredBodies(codec, s).Some?
    ensures var bodies := ReadStoredBodies(codec, s).value; AllValid(codec, bodies) && s == StoredBodies(bodies)
    decreases |s|
  {
    if s == [] {
      NoBodiesStored();
    } else {
      hide ValidBody, StoredBody, StoredBodies, ReadStoredBodies;
      var n, body := ReadStoredBodiesFirst(codec, s);
      ReadStoredBodiesSound(codec, s[n..]);
      StoredBodiesCons(body, ReadStoredBodies(codec, s[n..]).value);
    }
  }

  /** A byte string reads as these bodies exactly when it is their storage stream: decoding is unique. */
  lemma StorageIffStream(codec: Codec, data: Bytes, bodies: seq<Body>)
    ensures ReadStorage(codec, data) == Some(bodies)
            <==> AllValid(codec, bodies) && data == StorageStream(codec, bodies)
  {
    hide ReadStoredBodies, StoredBodies, AllValid, StorageHeader;
    var magic := StorageHeader(codec);
    if ReadStorage(codec, data) == Some(bodies) {
      ReadStoredBodiesSound(codec, data[|magic|..]);
      assert data == magic + data[|magic|..];
    }
    if AllValid(codec, bodies) && data == StorageStream(codec, bodies) {
      ReadStoredBodiesComplete(codec, bodies);
      assert data[|magic|..] == StoredBodies(bodies);
    }
  }

  /** Frames that pack valid bodies of one codec, one for one. */
  ghost predicate AllPack(codec: Codec, frames: seq<EncodedFrame>, bodies: seq<Body>) {
    |frames| == |bodies| && forall i | 0 <= i < |frames| :: frames[i].codec == codec && Packs(frames[i], bodies[i])
  }

  /** Every frame either parser produces passes all serialization checks. */
  lemma ParsedFramesPack(payload: Bytes, codec: Codec, mode: PayloadMode, timestamp: int, provenance: Provenance)
    ensures var r := Depacketize(payload, codec, mode, timestamp, provenance);
            r.Ok? ==> AllPack(codec, r.value, Bodies(codec, mode, payload).value)
  {
    hide Bodies, ValidBody, TimestampStep, Pack, Encode;
    var r := Depacketize(payload, codec, mode, timestamp, provenance);
    if r.Ok? {
      AcceptedIffEncoding(codec, mode, payload, Bodies(codec, mode, payload).value);
    }
  }

  // ---------------------------------------------------------------------------------------------
  // Writing
  // ---------------------------------------------------------------------------------------------

  predicate Writable(codec: Codec, frame: EncodedFrame) {
    frame.codec == codec && SerializeFrame(frame).Ok?
  }

  /** Why a frame that is not writable stops the stream. */
  function WriteError(codec: Codec, frame: EncodedFrame): Reason
    requires !Writable(codec, frame)
  {
    if frame.codec != codec then CodecMismatch else SerializeFrame(frame).error
  }

  /** A frame of another codec stops the stream as such, any other one for the reason that serializing it gives. */
  lemma WriteErrorIff(codec: Codec, frame: EncodedFrame)
    requires !Writable(codec, frame)
    ensures WriteError(codec, frame) == CodecMismatch <==> frame.codec != codec
    ensures frame.codec == codec ==> SerializeFrame(frame) == Err(WriteError(codec, frame))
  {
    hide SerializeFrame;
    SerializeRefused(frame, CodecMismatch);
  }

  predicate AllWritable(codec: Codec, frames: seq<EncodedFrame>) {
    forall i | 0 <= i < |frames| :: Writable(codec, frames[i])
  }

  function StoredFrame(codec: Codec, frame: EncodedFrame): Bytes
    requires Writable(codec, frame)
  {
    SerializeFrame(frame).value
  }

  /** The serialized bytes of frames that all serialize. */
  function StoredFrames(codec: Codec, frames: seq<EncodedFrame>): Bytes
    requires AllWritable(codec, frames)
  {
    if frames == [] then []
    else StoredFrames(codec, frames[..|frames| - 1]) + StoredFrame(codec, frames[|frames| - 1])
  }

  method WriteOne(codec: Codec, frame: EncodedFrame) returns (r: Result<Bytes, Reason>)
    ensures r == if Writable(codec, frame) then Ok(StoredFrame(codec, frame)) else Err(WriteError(codec, frame))
  {
    if frame.codec != codec {
      return Err(CodecMismatch);
    }
    return SerializeFrame(frame);
  }

  /** write_storage: everything before the first frame that does not fit is in the output when it raises. */
  method WriteStorage(codec: Codec, frames: seq<EncodedFrame>) returns (output: Bytes, r: Result<nat, Reason>)
    ensures r.Ok? <==> AllWritable(codec, frames)
    ensures r.Ok? ==> r.value == |frames| && output == StorageHeader(codec) + StoredFrames(codec, frames)
    ensures r.Err? ==>
              exists k :: 0 <= k < |frames| && AllWritable(codec, frames[..k]) && !Writable(codec, frames[k])
                && output == StorageHeader(codec) + StoredFrames(codec, frames[..k])
                && r.error == WriteError(codec, frames[k])
  {
    hide Writable, StoredFrame, WriteError, StorageHeader, StoredFrames;
    output := StorageHeader(codec);
    var count: nat := 0;
    NothingStored(codec);
    assert frames[..0] == [];
    assert output + [] == output;
    while count < |frames|
      invariant count <= |frames|
      invariant AllWritable(codec, frames[..count])
      invariant output == StorageHeader(codec) + StoredFrames(codec, frames[..count])
    {
      var bytes := WriteOne(codec, frames[count]);
      if bytes.Err? {
        return output, Err(bytes.error);
      }
      AllWritableAppend(codec, frames, count);
      output := output + bytes.value;
      count := count + 1;
    }
    assert frames[..count] == frames;
    return output, Ok(count);
  }

  lemma NothingStored(codec: Codec)
    ensures AllWritable(codec, []) && StoredFrames(codec, []) == []
  {
  }

  lemma AllWritableAppend(codec: Codec, frames: seq<EncodedFrame>, n: nat)
    requires n < |frames| && AllWritable(codec, frames[..n]) && Writable(codec, frames[n])
    ensures AllWritable(codec, frames[..n + 1])
    ensures StoredFrames(codec, frames[..n + 1]) == StoredFrames(codec, frames[..n]) + StoredFrame(codec, frames[n])
  {
    hide Writable, StoredFrame;
    var longer := frames[..n + 1];
    forall i | 0 <= i < |longer| ensures Writable(codec, longer[i]) {
      assert i < n ==> longer[i] == frames[..n][i];
    }
    assert longer[..n] == frames[..n];
  }

  lemma StoredBodiesAppend(bodies: seq<Body>, last: Body)
    ensures StoredBodies(bodies + [last]) == StoredBodies(bodies) + StoredBody(last)
  {
    hide StoredBody;
    if bodies == [] {
      StoredBodiesCons(last, []);
      assert bodies + [last] == [last] + [];
      assert StoredBody(last) + [] == StoredBody(last);
    } else {
      StoredBodiesAppend(bodies[1..], last);
      StoredBodiesCons(bodies[0], bodies[1..] + [last]);
      StoredBodiesCons(bodies[0], bodies[1..]);
      assert bodies + [last] == [bodies[0]] + (bodies[1..] + [last]);
      assert bodies == [bodies[0]] + bodies[1..];
    }
  }

  /** Frames that pack bodies are all writable, and what is written stores those bodies. */
  lemma {:induction false} PackedFramesStore(codec: Codec, frames: seq<EncodedFrame>, bodies: seq<Body>)
    requires AllPack(codec, frames, bodies)
    ensures AllWritable(codec, frames) && StoredFrames(codec, frames) == StoredBodies(bodies)
  {
    hide SerializeFrame, Packs, StoredBody, StoredFrames, StoredBodies;
    if frames == [] {
      NothingStored(codec);
      NoBodiesStored();
    } else {
      var n := |frames| - 1;
      PackedFramesStore(codec, frames[..n], bodies[..n]);
      SerializePacked(frames[n], bodies[n]);
      AllWritableAppend(codec, frames, n);
      StoredBodiesAppend(bodies[..n], bodies[n]);
      assert frames[..n + 1] == frames && bodies == bodies[..n] + [bodies[n]];
    }
  }

  lemma NoBodiesStored()
    ensures StoredBodies([]) == []
  {
  }
}
