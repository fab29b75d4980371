/** RFC 4867 payload framing as functions: both parsers and the encoders they invert (rfc4867.py). */
module Rfc4867 {
  import opened Models
  import opened Bits
  import opened CodecTables

  /** The four-bit frame type field. */
  type FrameType = n: int | 0 <= n < 16

  /** The four mode-request bits that open a payload; the parsers ignore their value. */
  type ModeBits = s: Bitstring | |s| == 4 witness [false, false, false, false]

  /** One table-of-contents entry with the speech bits its type announces. */
  datatype TocEntry = TocEntry(frameType: FrameType, quality: bool, bitCount: nat)

  /** One frame as the wire carries it. */
  datatype Body = Body(frameType: FrameType, quality: bool, bits: Bitstring)

  predicate ValidBody(codec: Codec, body: Body) {
    ValidatedBitCount(codec, body.frameType) == Ok(|body.bits|)
  }

  predicate AllValid(codec: Codec, bodies: seq<Body>) {
    forall i | 0 <= i < |bodies| :: ValidBody(codec, bodies[i])
  }

  /** What a payload can carry: at least one frame, each with the bits its type announces. */
  predicate WellFormed(codec: Codec, bodies: seq<Body>) {
    bodies != [] && AllValid(codec, bodies)
  }

  predicate ValidEntry(codec: Codec, entry: TocEntry) {
    ValidatedBitCount(codec, entry.frameType) == Ok(entry.bitCount)
  }

  predicate ValidEntries(codec: Codec, entries: seq<TocEntry>) {
    forall i | 0 <= i < |entries| :: ValidEntry(codec, entries[i])
  }

  function EntryOf(body: Body): TocEntry {
    TocEntry(body.frameType, body.quality, |body.bits|)
  }

  function Entries(bodies: seq<Body>): (entries: seq<TocEntry>) {
    seq(|bodies|, i requires 0 <= i < |bodies| => EntryOf(bodies[i]))
  }

  // ---------------------------------------------------------------------------------------------
  // The encoders (sections 4.3 and 4.4 of RFC 4867); the program has them only in its tests
  // ---------------------------------------------------------------------------------------------

  ghost function TypeBits(frameType: FrameType): (s: Bitstring)
    ensures |s| == 4 && Value(s) == frameType
  {
    Pow2Of8();
    BitsOf(frameType, 4)
  }

  function TypeOf(s: Bitstring): (frameType: FrameType)
    requires |s| == 4
    ensures frameType == Value(s)
  {
    Pow2Of8();
    Value(s)
  }

  /** The six bits F, FT and Q of an entry. */
  ghost function EntryBits(followed: bool, entry: TocEntry): (s: Bitstring)
    ensures |s| == 6
  {
    [followed] + TypeBits(entry.frameType) + [entry.quality]
  }

  ghost function TocBits(entries: seq<TocEntry>): Bitstring {
    if entries == [] then [] else EntryBits(|entries| > 1, entries[0]) + TocBits(entries[1..])
  }

  function SpeechBits(bodies: seq<Body>): Bitstring {
    if bodies == [] then [] else bodies[0].bits + SpeechBits(bodies[1..])
  }

  ghost function EncodeBandwidthEfficient(cmr: ModeBits, bodies: seq<Body>): Bytes {
    Pack(cmr + TocBits(Entries(bodies)) + SpeechBits(bodies))
  }

  /** An octet-aligned entry is the same six bits with two zero bits of padding. */
  ghost function EntryOctet(followed: bool, entry: TocEntry): Byte {
    OctetValue(EntryBits(followed, entry) + [false, false])
  }

  ghost function TocOctets(entries: seq<TocEntry>): Bytes {
    if entries == [] then [] else [EntryOctet(|entries| > 1, entries[0])] + TocOctets(entries[1..])
  }

  function SpeechOctets(bodies: seq<Body>): Bytes {
    if bodies == [] then [] else Pack(bodies[0].bits) + SpeechOctets(bodies[1..])
  }

  ghost function EncodeOctetAligned(cmr: ModeBits, bodies: seq<Body>): Bytes {
    [OctetValue(cmr + Zeros(4))] + TocOctets(Entries(bodies)) + SpeechOctets(bodies)
  }

  ghost function Encode(mode: PayloadMode, cmr: ModeBits, bodies: seq<Body>): Bytes {
    match mode
    case OctetAligned => EncodeOctetAligned(cmr, bodies)
    case BandwidthEfficient => EncodeBandwidthEfficient(cmr, bodies)
  }

  // ---------------------------------------------------------------------------------------------
  // The parsers as functions of the rest of the input
  // ---------------------------------------------------------------------------------------------

  datatype Toc<S> = Toc(entries: seq<TocEntry>, rest: S)

  datatype Speech<S> = Speech(bodies: seq<Body>, rest: S)

  function PrependEntries<S>(entries: seq<TocEntry>, r: Result<Toc<S>, Reason>): Result<Toc<S>, Reason> {
    match r
    case Err(e) => Err(e)
    case Ok(toc) => Ok(Toc(entries + toc.entries, toc.rest))
  }

  function PrependBodies<S>(bodies: seq<Body>, r: Result<Speech<S>, Reason>): Result<Speech<S>, Reason> {
    match r
    case Err(e) => Err(e)
    case Ok(speech) => Ok(Speech(bodies + speech.bodies, speech.rest))
  }

  lemma PrependNoEntries<S>(r: Result<Toc<S>, Reason>)
    ensures PrependEntries([], r) == r
  {
    if r.Ok? {
      assert [] + r.value.entries == r.value.entries;
    }
  }

  lemma PrependEntriesTwice<S>(a: seq<TocEntry>, b: seq<TocEntry>, r: Result<Toc<S>, Reason>)
    ensures PrependEntries(a, PrependEntries(b, r)) == PrependEntries(a + b, r)
  {
    if r.Ok? {
      assert a + (b + r.value.entries) == a + b + r.value.entries;
    }
  }

  lemma PrependNoBodies<S>(r: Result<Speech<S>, Reason>)
    ensures PrependBodies([], r) == r
  {
    if r.Ok? {
      assert [] + r.value.bodies == r.value.bodies;
    }
  }

  lemma PrependBodiesTwice<S>(a: seq<Body>, b: seq<Body>, r: Result<Speech<S>, Reason>)
    ensures PrependBodies(a, PrependBodies(b, r)) == PrependBodies(a + b, r)
  {
    if r.Ok? {
      assert a + (b + r.value.bodies) == a + b + r.value.bodies;
    }
  }

  /** The type and quality of an entry, when the codec has the type. */
  function ReadEntry(codec: Codec, t: Bitstring): Result<TocEntry, Reason>
    requires |t| >= 6
  {
    var frameType := TypeOf(t[1..5]);
    match ValidatedBitCount(codec, frameType)
    case Err(e) => Err(e)
    case Ok(count) => Ok(TocEntry(frameType, t[5], count))
  }

  function ReadTocBits(codec: Codec, s: Bitstring): Result<Toc<Bitstring>, Reason>
    decreases |s|
  {
    if |s| < 6 then Err(IncompleteToc)
    else
      match ReadEntry(codec, s)
      case Err(e) => Err(e)
      case Ok(entry) =>
        if !s[0] then Ok(Toc([entry], s[6..])) else PrependEntries([entry], ReadTocBits(codec, s[6..]))
  }

  function ReadSpeechBits(entries: seq<TocEntry>, s: Bitstring): Result<Speech<Bitstring>, Reason> {
    if entries == [] then Ok(Speech([], s))
    else
      var e := entries[0];
      if e.bitCount > |s| then Err(TruncatedSpeechData)
      else PrependBodies([Body(e.frameType, e.quality, s[..e.bitCount])], ReadSpeechBits(entries[1..], s[e.bitCount..]))
  }

  function CheckBitTail(speech: Speech<Bitstring>): Result<seq<Body>, Reason> {
    if |speech.rest| > 7 then Err(TrailingData)
    else if true in speech.rest then Err(NonzeroPadding)
    else Ok(speech.bodies)
  }

  ghost function BandwidthEfficientBodies(codec: Codec, payload: Bytes): Result<seq<Body>, Reason> {
    var bits := BytesToBits(payload);
    if |bits| < 10 then Err(ShortHeader)
    else
      match ReadTocBits(codec, bits[4..])
      case Err(e) => Err(e)
      case Ok(toc) =>
        match ReadSpeechBits(toc.entries, toc.rest)
        case Err(e) => Err(e)
        case Ok(speech) => CheckBitTail(speech)
  }

  ghost function ReadTocOctets(codec: Codec, s: Bytes): Result<Toc<Bytes>, Reason> {
    if s == [] then Err(IncompleteToc)
    else
      var t := ByteBits(s[0]);
      if t[6] || t[7] then Err(NonzeroPadding)
      else
        match ReadEntry(codec, t)
        case Err(e) => Err(e)
        case Ok(entry) =>
          if !t[0] then Ok(Toc([entry], s[1..])) else PrependEntries([entry], ReadTocOctets(codec, s[1..]))
  }

  /** One frame's bytes: the speech bits, then zero bits to the end of the last byte. */
  ghost function ReadBody(entry: TocEntry, data: Bytes): Result<Body, Reason> {
    var bits := BytesToBits(data);
    if |bits| < entry.bitCount || true in bits[entry.bitCount..] then Err(NonzeroPadding)
    else Ok(Body(entry.frameType, entry.quality, bits[..entry.bitCount]))
  }

  ghost function ReadSpeechOctets(entries: seq<TocEntry>, s: Bytes): Result<Speech<Bytes>, Reason> {
    if entries == [] then Ok(Speech([], s))
    else
      var count := ByteLength(entries[0].bitCount);
      if count > |s| then Err(TruncatedSpeechData)
      else
        match ReadBody(entries[0], s[..count])
        case Err(e) => Err(e)
        case Ok(body) => PrependBodies([body], ReadSpeechOctets(entries[1..], s[count..]))
  }

  ghost function OctetAlignedBodies(codec: Codec, payload: Bytes): Result<seq<Body>, Reason> {
    if |payload| < 2 then Err(ShortHeader)
    else if true in ByteBits(payload[0])[4..] then Err(NonzeroPadding)
    else
      match ReadTocOctets(codec, payload[1..])
      case Err(e) => Err(e)
      case Ok(toc) =>
        match ReadSpeechOctets(toc.entries, toc.rest)
        case Err(e) => Err(e)
        case Ok(speech) => if speech.rest != [] then Err(TrailingData) else Ok(speech.bodies)
  }

  ghost function Bodies(codec: Codec, mode: PayloadMode, payload: Bytes): Result<seq<Body>, Reason> {
    match mode
    case OctetAligned => OctetAlignedBodies(codec, payload)
    case BandwidthEfficient => BandwidthEfficientBodies(codec, payload)
  }

  /** _frame: a frame holds its speech bits packed into bytes. */
  function FrameOf(codec: Codec, body: Body, timestamp: int, provenance: Provenance): EncodedFrame {
    EncodedFrame(codec, body.frameType, body.quality, |body.bits|, Pack(body.bits), timestamp, provenance)
  }

  /** Consecutive frames of a payload are one codec step apart. */
  function Frames(codec: Codec, bodies: seq<Body>, timestamp: int, provenance: Provenance): seq<EncodedFrame> {
    seq(|bodies|, i requires 0 <= i < |bodies| =>
      FrameOf(codec, bodies[i], timestamp + i * TimestampStep(codec), provenance))
  }

  ghost function Depacketize(payload: Bytes, codec: Codec, mode: PayloadMode, timestamp: int, provenance: Provenance)
    : Result<seq<EncodedFrame>, Reason>
  {
    match Bodies(codec, mode, payload)
    case Err(e) => Err(e)
    case Ok(bodies) => Ok(Frames(codec, bodies, timestamp, provenance))
  }

  // ---------------------------------------------------------------------------------------------
  // Entries and bodies
  // ---------------------------------------------------------------------------------------------

  lemma EntriesHead(bodies: seq<Body>)
    requires bodies != []
    ensures Entries(bodies) == [EntryOf(bodies[0])] + Entries(bodies[1..])
  {
  }

  lemma EntriesValid(codec: Codec, bodies: seq<Body>)
    ensures AllValid(codec, bodies) <==> ValidEntries(codec, Entries(bodies))
  {
    hide ValidatedBitCount;
    if ValidEntries(codec, Entries(bodies)) {
      forall i | 0 <= i < |bodies| ensures ValidBody(codec, bodies[i]) {
        assert ValidEntry(codec, Entries(bodies)[i]);
      }
    }
  }

  /** Reading an entry undoes writing it. */
  lemma ReadEntryIff(codec: Codec, t: Bitstring, entry: TocEntry)
    requires |t| >= 6
    ensures ReadEntry(codec, t) == Ok(entry) <==> ValidEntry(codec, entry) && t[..6] == EntryBits(t[0], entry)
  {
    hide ValidatedBitCount, Value, TypeBits;
    var s := EntryBits(t[0], entry);
    assert s[1..5] == TypeBits(entry.frameType);
    assert t[..6][1..5] == t[1..5];
    if t[..6] == s {
      assert t[5] == t[..6][5] == entry.quality;
    }
    if TypeOf(t[1..5]) == entry.frameType && t[5] == entry.quality {
      ValueInjective(t[1..5], TypeBits(entry.frameType));
      assert t[..6] == [t[0]] + t[1..5] + [t[5]];
    }
  }

  lemma TocBitsCons(entry: TocEntry, entries: seq<TocEntry>)
    ensures TocBits([entry] + entries) == EntryBits(entries != [], entry) + TocBits(entries)
  {
    hide EntryBits;
    assert ([entry] + entries)[1..] == entries;
  }

  // ---------------------------------------------------------------------------------------------
  // Bandwidth-efficient parsing inverts packing (section 4.3 of RFC 4867)
  // ---------------------------------------------------------------------------------------------

  /** The first entry of a bit table of contents that parses. */
  lemma ReadTocBitsHead(codec: Codec, entry: TocEntry, followed: bool, rest: Bitstring)
    requires ValidEntry(codec, entry)
    ensures ReadTocBits(codec, EntryBits(followed, entry) + rest)
            == if followed then PrependEntries([entry], ReadTocBits(codec, rest)) else Ok(Toc([entry], rest))
  {
    hide ValidatedBitCount, ReadEntry;
    var s := EntryBits(followed, entry) + rest;
    assert s[..6] == EntryBits(followed, entry) && s[6..] == rest && s[0] == followed;
    ReadEntryIff(codec, s, entry);
  }

  lemma {:induction false} ReadTocBitsComplete(codec: Codec, entries: seq<TocEntry>, rest: Bitstring)
    requires entries != [] && ValidEntries(codec, entries)
    ensures ReadTocBits(codec, TocBits(entries) + rest) == Ok(Toc(entries, rest))
  {
    hide ReadTocBits, EntryBits, ValidEntry, TocBits;
    var tail := TocBits(entries[1..]) + rest;
    assert entries == [entries[0]] + entries[1..];
    TocBitsCons(entries[0], entries[1..]);
    assert TocBits(entries) + rest == EntryBits(entries[1..] != [], entries[0]) + tail;
    assert ValidEntry(codec, entries[0]);
    ReadTocBitsHead(codec, entries[0], entries[1..] != [], tail);
    if entries[1..] != [] {
      ReadTocBitsComplete(codec, entries[1..], rest);
    } else {
      NoTocBits();
      assert tail == rest && entries == [entries[0]];
    }
  }

  lemma NoTocBits()
    ensures TocBits([]) == []
  {
  }

  /** What accepting a bit table of contents says about its first entry. */
  lemma ReadTocBitsFirst(codec: Codec, s: Bitstring) returns (entry: TocEntry)
    requires ReadTocBits(codec, s).Ok?
    ensures |s| >= 6 && ValidEntry(codec, entry) && s == EntryBits(s[0], entry) + s[6..]
    ensures s[0] ==> ReadTocBits(codec, s[6..]).Ok?
    ensures ReadTocBits(codec, s)
            == if s[0] then PrependEntries([entry], ReadTocBits(codec, s[6..])) else Ok(Toc([entry], s[6..]))
  {
    hide ValidatedBitCount, ReadEntry, EntryBits;
    entry := ReadEntry(codec, s).value;
    ReadEntryIff(codec, s, entry);
    assert s == s[..6] + s[6..];
  }

  lemma {:induction false} ReadTocBitsSound(codec: Codec, s: Bitstring)
    requires ReadTocBits(codec, s).Ok?
    ensures var toc := ReadTocBits(codec, s).value;
            toc.entries != [] && ValidEntries(codec, toc.entries) && s == TocBits(toc.entries) + toc.rest
    decreases |s|
  {
    hide ReadTocBits, ValidEntry, EntryBits, TocBits;
    var entry := ReadTocBitsFirst(codec, s);
    if s[0] {
      ReadTocBitsSound(codec, s[6..]);
      var inner := ReadTocBits(codec, s[6..]).value;
      TocBitsCons(entry, inner.entries);
    } else {
      TocBitsCons(entry, []);
      NoTocBits();
      assert [entry] + [] == [entry];
    }
  }

  lemma ReadSpeechBitsHead(body: Body, entries: seq<TocEntry>, s: Bitstring)
    ensures ReadSpeechBits([EntryOf(body)] + entries, body.bits + s)
            == PrependBodies([body], ReadSpeechBits(entries, s))
  {
    var all := [EntryOf(body)] + entries;
    assert all[0] == EntryOf(body) && all[1..] == entries;
    assert (body.bits + s)[..|body.bits|] == body.bits && (body.bits + s)[|body.bits|..] == s;
  }

  lemma SpeechBitsCons(body: Body, bodies: seq<Body>)
    ensures SpeechBits([body] + bodies) == body.bits + SpeechBits(bodies)
    ensures Entries([body] + bodies) == [EntryOf(body)] + Entries(bodies)
  {
    assert ([body] + bodies)[1..] == bodies;
  }

  lemma NoSpeech(octets: Bytes, bits: Bitstring)
    ensures ReadSpeechOctets([], octets) == Ok(Speech([], octets))
    ensures ReadSpeechBits([], bits) == Ok(Speech([], bits))
    ensures SpeechBits([]) == [] && SpeechOctets([]) == [] && Entries([]) == []
  {
  }

  lemma {:induction false} ReadSpeechBitsComplete(bodies: seq<Body>, rest: Bitstring)
    ensures ReadSpeechBits(Entries(bodies), SpeechBits(bodies) + rest) == Ok(Speech(bodies, rest))
  {
    hide Entries, ReadSpeechBits, SpeechBits;
    if bodies == [] {
      NoSpeech([], rest);
      assert SpeechBits(bodies) + rest == rest;
    } else {
      var tail := SpeechBits(bodies[1..]) + rest;
      ReadSpeechBitsComplete(bodies[1..], rest);
      ReadSpeechBitsHead(bodies[0], Entries(bodies[1..]), tail);
      assert bodies == [bodies[0]] + bodies[1..];
      SpeechBitsCons(bodies[0], bodies[1..]);
      assert SpeechBits(bodies) + rest == bodies[0].bits + tail;
    }
  }

  lemma ReadSpeechBitsFirst(entries: seq<TocEntry>, s: Bitstring) returns (body: Body)
    requires entries != [] && ReadSpeechBits(entries, s).Ok?
    ensures EntryOf(body) == entries[0] && body.bits <= s
    ensures ReadSpeechBits(entries[1..], s[|body.bits|..]).Ok?
    ensures ReadSpeechBits(entries, s) == PrependBodies([body], ReadSpeechBits(entries[1..], s[|body.bits|..]))
  {
    body := Body(entries[0].frameType, entries[0].quality, s[..entries[0].bitCount]);
  }

  lemma {:induction false} ReadSpeechBitsSound(entries: seq<TocEntry>, s: Bitstring)
    requires ReadSpeechBits(entries, s).Ok?
    ensures var speech := ReadSpeechBits(entries, s).value;
            Entries(speech.bodies) == entries && s == SpeechBits(speech.bodies) + speech.rest
  {
    hide Entries, SpeechBits, ReadSpeechBits;
    if entries == [] {
      NoSpeech([], s);
      assert [] + s == s;
    } else {
      var body := ReadSpeechBitsFirst(entries, s);
      var n := |body.bits|;
      ReadSpeechBitsSound(entries[1..], s[n..]);
      var inner := ReadSpeechBits(entries[1..], s[n..]).value;
      SpeechBitsCons(body, inner.bodies);
      assert s == s[..n] + s[n..];
      assert entries == [entries[0]] + entries[1..];
    }
  }

  lemma {:induction false} TocBitsLength(entries: seq<TocEntry>)
    ensures |TocBits(entries)| >= |entries|
    ensures entries != [] ==> |TocBits(entries)| >= 6
  {
    if entries != [] {
      hide EntryBits;
      TocBitsLength(entries[1..]);
    }
  }

  lemma BandwidthEfficientComplete(codec: Codec, cmr: ModeBits, bodies: seq<Body>)
    requires WellFormed(codec, bodies)
    ensures BandwidthEfficientBodies(codec, EncodeBandwidthEfficient(cmr, bodies)) == Ok(bodies)
  {
    hide ReadTocBits, ReadSpeechBits, TocBits, SpeechBits, Pack, ValidBody, ValidEntry, BytesToBits, Entries, Padding;
    hide ByteLength;
    var toc, speech := TocBits(Entries(bodies)), SpeechBits(bodies);
    var content := cmr + toc + speech;
    var pad := Zeros(Padding(|content|));
    var bits := BytesToBits(EncodeBandwidthEfficient(cmr, bodies));
    PackBits(content);
    EntriesHead(bodies);
    TocBitsLength(Entries(bodies));
    assert bits[4..] == toc + (speech + pad);
    EntriesValid(codec, bodies);
    ReadTocBitsComplete(codec, Entries(bodies), speech + pad);
    ReadSpeechBitsComplete(bodies, pad);
    ValueZeros(pad);
  }

  /** A payload whose bits are content and then fewer than 8 zero bits packs the content. */
  lemma PaddedPayload(payload: Bytes, content: Bitstring, rest: Bitstring)
    requires BytesToBits(payload) == content + rest && |rest| <= 7 && true !in rest
    ensures payload == Pack(content)
  {
    hide BytesToBits, Pack, ByteLength, Padding;
    BytesToBitsLength(payload);
    PackedLength(|content|, |payload|);
    ValueZeros(rest);
    PackOfPrefix(payload, content);
  }

  lemma BandwidthEfficientSound(codec: Codec, payload: Bytes)
    requires BandwidthEfficientBodies(codec, payload).Ok?
    ensures var bodies := BandwidthEfficientBodies(codec, payload).value;
            |BytesToBits(payload)| >= 4
            && WellFormed(codec, bodies) && payload == EncodeBandwidthEfficient(BytesToBits(payload)[..4], bodies)
  {
    hide ReadTocBits, ReadSpeechBits, TocBits, SpeechBits, Pack, ValidBody, ValidEntry, BytesToBits, Entries;
    var bits := BytesToBits(payload);
    ReadTocBitsSound(codec, bits[4..]);
    var toc := ReadTocBits(codec, bits[4..]).value;
    ReadSpeechBitsSound(toc.entries, toc.rest);
    var speech := ReadSpeechBits(toc.entries, toc.rest).value;
    EntriesValid(codec, speech.bodies);
    NoSpeech([], []);
    var content := bits[..4] + TocBits(toc.entries) + SpeechBits(speech.bodies);
    assert bits == content + speech.rest;
    PaddedPayload(payload, content, speech.rest);
  }

  // ---------------------------------------------------------------------------------------------
  // Octet-aligned parsing inverts octet packing (section 4.4 of RFC 4867)
  // ---------------------------------------------------------------------------------------------

  /** An entry octet is exactly the six entry bits and two zero bits. */
  lemma EntryOctetIff(b: Byte, entry: TocEntry)
    ensures var t := ByteBits(b);
            b == EntryOctet(t[0], entry) <==> t[..6] == EntryBits(t[0], entry) && !t[6] && !t[7]
  {
    hide ByteBits, EntryBits, Value;
    var t := ByteBits(b);
    var s := EntryBits(t[0], entry) + [false, false];
    ByteBitsOfOctet(s);
    assert s[..6] == EntryBits(t[0], entry) && !s[6] && !s[7];
    if t[..6] == EntryBits(t[0], entry) && !t[6] && !t[7] {
      assert t == t[..6] + [t[6], t[7]];
      assert b == OctetValue(t);
    }
  }

  lemma EntryOctetBits(followed: bool, entry: TocEntry)
    ensures var t := ByteBits(EntryOctet(followed, entry));
            t[0] == followed && t[..6] == EntryBits(followed, entry) && !t[6] && !t[7]
  {
    hide ByteBits, Value;
    var s := EntryBits(followed, entry) + [false, false];
    ByteBitsOfOctet(s);
    assert s[..6] == EntryBits(followed, entry) && s[0] == followed;
  }

  lemma TocOctetsCons(entry: TocEntry, entries: seq<TocEntry>)
    ensures TocOctets([entry] + entries) == [EntryOctet(entries != [], entry)] + TocOctets(entries)
  {
    hide EntryOctet;
    assert ([entry] + entries)[1..] == entries;
  }

  lemma ReadTocOctetsHead(codec: Codec, entry: TocEntry, followed: bool, rest: Bytes)
    requires ValidEntry(codec, entry)
    ensures ReadTocOctets(codec, [EntryOctet(followed, entry)] + rest)
            == if followed then PrependEntries([entry], ReadTocOctets(codec, rest)) else Ok(Toc([entry], rest))
  {
    hide ValidatedBitCount, ReadEntry, EntryOctet, EntryBits, ByteBits;
    var b := EntryOctet(followed, entry);
    assert ([b] + rest)[1..] == rest;
    EntryOctetBits(followed, entry);
    ReadEntryIff(codec, ByteBits(b), entry);
  }

  lemma NoTocOctets()
    ensures TocOctets([]) == []
  {
  }

  lemma {:induction false} ReadTocOctetsComplete(codec: Codec, entries: seq<TocEntry>, rest: Bytes)
    requires entries != [] && ValidEntries(codec, entries)
    ensures ReadTocOctets(codec, TocOctets(entries) + rest) == Ok(Toc(entries, rest))
  {
    hide ReadTocOctets, EntryOctet, ValidEntry, TocOctets;
    var tail := TocOctets(entries[1..]) + rest;
    assert entries == [entries[0]] + entries[1..];
    TocOctetsCons(entries[0], entries[1..]);
    assert TocOctets(entries) + rest == [EntryOctet(entries[1..] != [], entries[0])] + tail;
    assert ValidEntry(codec, entries[0]);
    ReadTocOctetsHead(codec, entries[0], entries[1..] != [], tail);
    if entries[1..] != [] {
      ReadTocOctetsComplete(codec, entries[1..], rest);
    } else {
      NoTocOctets();
      assert tail == rest && entries == [entries[0]];
    }
  }

  lemma ReadTocOctetsFirst(codec: Codec, s: Bytes) returns (followed: bool, entry: TocEntry)
    requires ReadTocOctets(codec, s).Ok?
    ensures s != [] && ValidEntry(codec, entry) && s[0] == EntryOctet(followed, entry)
    ensures followed ==> ReadTocOctets(codec, s[1..]).Ok?
    ensures ReadTocOctets(codec, s)
            == if followed then PrependEntries([entry], ReadTocOctets(codec, s[1..])) else Ok(Toc([entry], s[1..]))
  {
    hide ValidatedBitCount, ReadEntry, EntryOctet, EntryBits, ByteBits;
    var t := ByteBits(s[0]);
    followed := t[0];
    entry := ReadEntry(codec, t).value;
    ReadEntryIff(codec, t, entry);
    EntryOctetIff(s[0], entry);
  }

  lemma {:induction false} ReadTocOctetsSound(codec: Codec, s: Bytes)
    requires ReadTocOctets(codec, s).Ok?
    ensures var toc := ReadTocOctets(codec, s).value;
            toc.entries != [] && ValidEntries(codec, toc.entries) && s == TocOctets(toc.entries) + toc.rest
  {
    hide ReadTocOctets, ValidEntry, EntryOctet, TocOctets;
    var followed, entry := ReadTocOctetsFirst(codec, s);
    assert s == [s[0]] + s[1..];
    if followed {
      ReadTocOctetsSound(codec, s[1..]);
      var inner := ReadTocOctets(codec, s[1..]).value;
      TocOctetsCons(entry, inner.entries);
    } else {
      TocOctetsCons(entry, []);
      NoTocOctets();
      assert [entry] + [] == [entry];
    }
  }

  /** One frame's bytes are accepted exactly when they pack its speech bits. */
  lemma ReadBodyIff(entry: TocEntry, data: Bytes, body: Body)
    requires |data| == ByteLength(entry.bitCount)
    ensures ReadBody(entry, data) == Ok(body) <==> EntryOf(body) == entry && data == Pack(body.bits)
  {
    hide BytesToBits, Pack, ByteLength;
    var bits := BytesToBits(data);
    if ReadBody(entry, data) == Ok(body) {
      BytesToBitsLength(data);
      assert bits == body.bits + bits[entry.bitCount..];
      ShortTail(entry.bitCount);
      PaddedPayload(data, body.bits, bits[entry.bitCount..]);
    }
    if EntryOf(body) == entry && data == Pack(body.bits) {
      PackBits(body.bits);
      var pad := Zeros(Padding(entry.bitCount));
      assert bits[entry.bitCount..] == pad && bits[..entry.bitCount] == body.bits;
      ValueZeros(pad);
    }
  }

  lemma ShortTail(n: nat)
    ensures 8 * ByteLength(n) - n <= 7
  {
  }

  lemma ReadSpeechOctetsHead(body: Body, entries: seq<TocEntry>, s: Bytes)
    ensures ReadSpeechOctets([EntryOf(body)] + entries, Pack(body.bits) + s)
            == PrependBodies([body], ReadSpeechOctets(entries, s))
  {
    hide ReadBody, Pack, ByteLength;
    var data := Pack(body.bits);
    var all := [EntryOf(body)] + entries;
    PackBits(body.bits);
    assert all[0] == EntryOf(body) && all[1..] == entries;
    assert (data + s)[..|data|] == data && (data + s)[|data|..] == s;
    ReadBodyIff(EntryOf(body), data, body);
  }

  lemma SpeechOctetsCons(body: Body, bodies: seq<Body>)
    ensures SpeechOctets([body] + bodies) == Pack(body.bits) + SpeechOctets(bodies)
    ensures Entries([body] + bodies) == [EntryOf(body)] + Entries(bodies)
  {
    hide Pack;
    assert ([body] + bodies)[1..] == bodies;
  }

  lemma {:induction false} ReadSpeechOctetsComplete(bodies: seq<Body>, rest: Bytes)
    ensures ReadSpeechOctets(Entries(bodies), SpeechOctets(bodies) + rest) == Ok(Speech(bodies, rest))
  {
    hide Entries, ReadSpeechOctets, SpeechOctets, Pack;
    if bodies == [] {
      NoSpeech(rest, []);
      assert SpeechOctets(bodies) + rest == rest;
    } else {
      var tail := SpeechOctets(bodies[1..]) + rest;
      ReadSpeechOctetsComplete(bodies[1..], rest);
      ReadSpeechOctetsHead(bodies[0], Entries(bodies[1..]), tail);
      assert bodies == [bodies[0]] + bodies[1..];
      SpeechOctetsCons(bodies[0], bodies[1..]);
      assert SpeechOctets(bodies) + rest == Pack(bodies[0].bits) + tail;
    }
  }

  /** What accepting the first frame's bytes says about them and about the rest. */
  lemma ReadSpeechOctetsFirst(entries: seq<TocEntry>, s: Bytes) returns (n: nat, body: Body)
    requires entries != [] && ReadSpeechOctets(entries, s).Ok?
    ensures n <= |s| && EntryOf(body) == entries[0] && s[..n] == Pack(body.bits)
    ensures ReadSpeechOctets(entries[1..], s[n..]).Ok?
    ensures ReadSpeechOctets(entries, s) == PrependBodies([body], ReadSpeechOctets(entries[1..], s[n..]))
  {
    hide ReadBody, Pack, ByteLength;
    n := ByteLength(entries[0].bitCount);
    body := ReadBody(entries[0], s[..n]).value;
    ReadBodyIff(entries[0], s[..n], body);
  }

  lemma {:induction false} ReadSpeechOctetsSound(entries: seq<TocEntry>, s: Bytes)
    requires ReadSpeechOctets(entries, s).Ok?
    ensures var speech := ReadSpeechOctets(entries, s).value;
            Entries(speech.bodies) == entries && s == SpeechOctets(speech.bodies) + speech.rest
  {
    hide ReadSpeechOctets, Entries, SpeechOctets, Pack;
    if entries == [] {
      NoSpeech(s, []);
      assert [] + s == s;
    } else {
      var n, body := ReadSpeechOctetsFirst(entries, s);
      ReadSpeechOctetsSound(entries[1..], s[n..]);
      var inner := ReadSpeechOctets(entries[1..], s[n..]).value;
      SpeechOctetsCons(body, inner.bodies);
      assert s == s[..n] + s[n..];
      assert entries == [entries[0]] + entries[1..];
    }
  }

  lemma OctetAlignedComplete(codec: Codec, cmr: ModeBits, bodies: seq<Body>)
    requires WellFormed(codec, bodies)
    ensures OctetAlignedBodies(codec, EncodeOctetAligned(cmr, bodies)) == Ok(bodies)
  {
    hide ReadTocOctets, ReadSpeechOctets, TocOctets, SpeechOctets, ValidBody, ValidEntry, Entries, ByteBits, EntryOctet;
    hide Value;
    var toc, speech := TocOctets(Entries(bodies)), SpeechOctets(bodies);
    var payload := EncodeOctetAligned(cmr, bodies);
    assert payload[1..] == toc + speech;
    ModeOctet(cmr);
    EntriesHead(bodies);
    TocOctetsCons(EntryOf(bodies[0]), Entries(bodies[1..]));
    EntriesValid(codec, bodies);
    ReadTocOctetsComplete(codec, Entries(bodies), speech);
    ReadSpeechOctetsComplete(bodies, []);
    assert speech + [] == speech;
  }

  lemma ModeOctet(cmr: ModeBits)
    ensures var t := ByteBits(OctetValue(cmr + Zeros(4)));
            t[..4] == cmr && true !in t[4..]
  {
    hide ByteBits, Value;
    ByteBitsOfOctet(cmr + Zeros(4));
    assert (cmr + Zeros(4))[4..] == Zeros(4);
  }

  lemma ModeOctetOf(b: Byte)
    requires true !in ByteBits(b)[4..]
    ensures b == OctetValue(ByteBits(b)[..4] + Zeros(4))
  {
    hide ByteBits, Value;
    var t := ByteBits(b);
    ValueZeros(t[4..]);
    assert t == t[..4] + Zeros(4);
  }

  lemma OctetAlignedSound(codec: Codec, payload: Bytes)
    requires OctetAlignedBodies(codec, payload).Ok?
    ensures var bodies := OctetAlignedBodies(codec, payload).value;
            WellFormed(codec, bodies) && payload != []
            && payload == EncodeOctetAligned(ByteBits(payload[0])[..4], bodies)
  {
    hide ReadTocOctets, ReadSpeechOctets, TocOctets, SpeechOctets, ValidBody, ValidEntry, Entries, ByteBits, Value;
    ReadTocOctetsSound(codec, payload[1..]);
    var toc := ReadTocOctets(codec, payload[1..]).value;
    ReadSpeechOctetsSound(toc.entries, toc.rest);
    var speech := ReadSpeechOctets(toc.entries, toc.rest).value;
    EntriesValid(codec, speech.bodies);
    NoSpeech([], []);
    ModeOctetOf(payload[0]);
    assert payload == [payload[0]] + payload[1..];
  }

  // ---------------------------------------------------------------------------------------------
  // Main results on payloads
  // ---------------------------------------------------------------------------------------------

  /** Parsing undoes encoding, in both modes. */
  lemma ParseUndoesEncode(codec: Codec, mode: PayloadMode, cmr: ModeBits, bodies: seq<Body>)
    requires WellFormed(codec, bodies)
    ensures Bodies(codec, mode, Encode(mode, cmr, bodies)) == Ok(bodies)
  {
    hide OctetAlignedBodies, BandwidthEfficientBodies, EncodeOctetAligned, EncodeBandwidthEfficient, WellFormed;
    match mode
    case OctetAligned => OctetAlignedComplete(codec, cmr, bodies);
    case BandwidthEfficient => BandwidthEfficientComplete(codec, cmr, bodies);
  }

  /** The mode request a payload opens with. */
  ghost function ModeRequest(payload: Bytes): ModeBits
    requires payload != []
  {
    ByteBits(payload[0])[..4]
  }

  lemma LeadingBits(payload: Bytes)
    requires payload != []
    ensures |BytesToBits(payload)| >= 8 && BytesToBits(payload)[..4] == ModeRequest(payload)
  {
    hide ByteBits;
  }

  /** A payload is accepted with these frames exactly when it is the encoding of them under its own mode request. */
  lemma AcceptedIffEncoding(codec: Codec, mode: PayloadMode, payload: Bytes, bodies: seq<Body>)
    ensures Bodies(codec, mode, payload) == Ok(bodies)
            <==> WellFormed(codec, bodies) && payload != []
                 && payload == Encode(mode, ModeRequest(payload), bodies)
  {
    hide OctetAlignedBodies, BandwidthEfficientBodies, EncodeOctetAligned, EncodeBandwidthEfficient, WellFormed;
    hide BytesToBits;
    if Bodies(codec, mode, payload) == Ok(bodies) {
      match mode {
        case OctetAligned => OctetAlignedSound(codec, payload);
        case BandwidthEfficient =>
          BandwidthEfficientSound(codec, payload);
          BytesToBitsLength(payload);
          LeadingBits(payload);
      }
    } else if WellFormed(codec, bodies) && payload != [] {
      ParseUndoesEncode(codec, mode, ModeRequest(payload), bodies);
    }
  }

  /** The mode request written is the mode request read. */
  lemma EncodeModeRequest(codec: Codec, mode: PayloadMode, cmr: ModeBits, bodies: seq<Body>)
    requires WellFormed(codec, bodies)
    ensures Encode(mode, cmr, bodies) != [] && ModeRequest(Encode(mode, cmr, bodies)) == cmr
  {
    hide TocOctets, SpeechOctets, TocBits, SpeechBits, Entries, Pack, BytesToBits, WellFormed, ByteBits, Value;
    match mode {
      case OctetAligned => ModeOctet(cmr);
      case BandwidthEfficient =>
        var content := cmr + TocBits(Entries(bodies)) + SpeechBits(bodies);
        PackBits(content);
        BytesToBitsLength(Pack(content));
        LeadingBits(Pack(content));
    }
  }

  /** Within one mode, the encoding determines both the mode request and the frames. */
  lemma EncodeInjective(codec: Codec, mode: PayloadMode, c1: ModeBits, b1: seq<Body>, c2: ModeBits, b2: seq<Body>)
    requires WellFormed(codec, b1) && WellFormed(codec, b2)
    requires Encode(mode, c1, b1) == Encode(mode, c2, b2)
    ensures c1 == c2 && b1 == b2
  {
    hide Bodies, Encode, WellFormed, ModeRequest;
    ParseUndoesEncode(codec, mode, c1, b1);
    ParseUndoesEncode(codec, mode, c2, b2);
    EncodeModeRequest(codec, mode, c1, b1);
    EncodeModeRequest(codec, mode, c2, b2);
  }

  /** One frame list encoded in either mode, under any mode requests, parses to identical frames. */
  lemma ModesAgree(codec: Codec, c1: ModeBits, c2: ModeBits, bodies: seq<Body>, timestamp: int, provenance: Provenance)
    requires WellFormed(codec, bodies)
    ensures Depacketize(Encode(OctetAligned, c1, bodies), codec, OctetAligned, timestamp, provenance)
            == Depacketize(Encode(BandwidthEfficient, c2, bodies), codec, BandwidthEfficient, timestamp, provenance)
            == Ok(Frames(codec, bodies, timestamp, provenance))
  {
    hide Bodies, Encode, Frames, WellFormed;
    ParseUndoesEncode(codec, OctetAligned, c1, bodies);
    ParseUndoesEncode(codec, BandwidthEfficient, c2, bodies);
  }

  /** Depacketizing accepts exactly the encodings, and yields their frames at the given time. */
  lemma DepacketizeIff(
    payload: Bytes, codec: Codec, mode: PayloadMode, timestamp: int, provenance: Provenance, frames: seq<EncodedFrame>)
    ensures Depacketize(payload, codec, mode, timestamp, provenance) == Ok(frames)
            <==> exists cmr: ModeBits, bodies: seq<Body> ::
                   WellFormed(codec, bodies) && payload == Encode(mode, cmr, bodies)
                   && frames == Frames(codec, bodies, timestamp, provenance)
  {
    hide Bodies, Encode, Frames, WellFormed, ModeRequest;
    if Depacketize(payload, codec, mode, timestamp, provenance) == Ok(frames) {
      AcceptedIffEncoding(codec, mode, payload, Bodies(codec, mode, payload).value);
    }
    forall cmr: ModeBits, bodies: seq<Body> | WellFormed(codec, bodies) && payload == Encode(mode, cmr, bodies)
      ensures Bodies(codec, mode, payload) == Ok(bodies)
    {
      ParseUndoesEncode(codec, mode, cmr, bodies);
    }
  }
}
