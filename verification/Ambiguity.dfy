/** When a payload reads in several formats, and when that makes a flow ambiguous (rfc4867.py, discovery.py). */
module Ambiguity {
  import opened Models
  import opened Bits
  import opened CodecTables
  import opened Rfc4867
  import opened Discovery
  import opened Findings
  import opened Ranking
  import opened Selection

  const NO_DATA_TYPE: FrameType := 15

  /** Every frame is NO_DATA. */
  predicate NoDataOnly(bodies: seq<Body>) {
    forall i | 0 <= i < |bodies| :: bodies[i].frameType == NO_DATA_TYPE
  }

  // ---------------------------------------------------------------------------------------------
  // The table of contents says the same to both codecs
  // ---------------------------------------------------------------------------------------------

  /** The same frame types and quality flags; the bit counts may differ. */
  predicate SameKinds(a: seq<TocEntry>, b: seq<TocEntry>) {
    && |a| == |b|
    && forall i | 0 <= i < |a| :: a[i].frameType == b[i].frameType && a[i].quality == b[i].quality
  }

  lemma EntryBitsAgree(
    f: bool, a: TocEntry, g: bool, b: TocEntry, rest: Bitstring, more: Bitstring)
    requires EntryBits(f, a) + rest == EntryBits(g, b) + more
    ensures f == g && a.frameType == b.frameType && a.quality == b.quality && rest == more
  {
    hide TypeBits, Value;
    var s, t := EntryBits(f, a) + rest, EntryBits(g, b) + more;
    assert s[..6] == EntryBits(f, a) && s[6..] == rest && t[..6] == EntryBits(g, b) && t[6..] == more;
    assert EntryBits(f, a)[0] == f && EntryBits(g, b)[0] == g;
    assert EntryBits(f, a)[1..5] == TypeBits(a.frameType) && EntryBits(g, b)[1..5] == TypeBits(b.frameType);
    assert EntryBits(f, a)[5] == a.quality && EntryBits(g, b)[5] == b.quality;
  }

  lemma KindsCons(a: seq<TocEntry>, b: seq<TocEntry>)
    requires a != [] && b != [] && SameKinds(a[1..], b[1..])
    requires a[0].frameType == b[0].frameType && a[0].quality == b[0].quality
    ensures SameKinds(a, b)
  {
    forall i | 0 <= i < |a| ensures a[i].frameType == b[i].frameType && a[i].quality == b[i].quality {
      assert i > 0 ==> a[i] == a[1..][i - 1] && b[i] == b[1..][i - 1];
    }
  }

  lemma {:induction false} TocBitsAgree(a: seq<TocEntry>, b: seq<TocEntry>, rest: Bitstring, more: Bitstring)
    requires a != [] && b != [] && TocBits(a) + rest == TocBits(b) + more
    ensures SameKinds(a, b) && rest == more
  {
    hide EntryBits, TocBits, SameKinds;
    assert a == [a[0]] + a[1..] && b == [b[0]] + b[1..];
    TocBitsCons(a[0], a[1..]);
    TocBitsCons(b[0], b[1..]);
    assert TocBits(a) + rest == EntryBits(a[1..] != [], a[0]) + (TocBits(a[1..]) + rest);
    assert TocBits(b) + more == EntryBits(b[1..] != [], b[0]) + (TocBits(b[1..]) + more);
    EntryBitsAgree(a[1..] != [], a[0], b[1..] != [], b[0], TocBits(a[1..]) + rest, TocBits(b[1..]) + more);
    if a[1..] != [] {
      TocBitsAgree(a[1..], b[1..], rest, more);
    } else {
      NoTocBits();
      NoKinds();
      assert [] + rest == rest && [] + more == more;
    }
    KindsCons(a, b);
  }

  lemma NoKinds()
    ensures SameKinds([], [])
  {
  }

  lemma EntryOctetsAgree(f: bool, a: TocEntry, g: bool, b: TocEntry)
    requires EntryOctet(f, a) == EntryOctet(g, b)
    ensures f == g && a.frameType == b.frameType && a.quality == b.quality
  {
    hide EntryBits, EntryOctet, ByteBits;
    EntryOctetBits(f, a);
    EntryOctetBits(g, b);
    EntryBitsAgree(f, a, g, b, [], []);
  }

  lemma {:induction false} TocOctetsAgree(a: seq<TocEntry>, b: seq<TocEntry>, rest: Bytes, more: Bytes)
    requires a != [] && b != [] && TocOctets(a) + rest == TocOctets(b) + more
    ensures SameKinds(a, b) && rest == more
  {
    hide EntryOctet, TocOctets, SameKinds;
    assert a == [a[0]] + a[1..] && b == [b[0]] + b[1..];
    TocOctetsCons(a[0], a[1..]);
    TocOctetsCons(b[0], b[1..]);
    var s, t := TocOctets(a) + rest, TocOctets(b) + more;
    assert s[0] == EntryOctet(a[1..] != [], a[0]) && s[1..] == TocOctets(a[1..]) + rest;
    assert t[0] == EntryOctet(b[1..] != [], b[0]) && t[1..] == TocOctets(b[1..]) + more;
    EntryOctetsAgree(a[1..] != [], a[0], b[1..] != [], b[0]);
    if a[1..] != [] {
      TocOctetsAgree(a[1..], b[1..], rest, more);
    } else {
      NoTocOctets();
      NoKinds();
      assert [] + rest == rest && [] + more == more;
    }
    KindsCons(a, b);
  }

  // ---------------------------------------------------------------------------------------------
  // The speech is longer in AMR-WB
  // ---------------------------------------------------------------------------------------------

  /** A frame type both codecs have announces nothing in both, or at least 37 more bits in AMR-WB. */
  lemma BodyLonger(a: Body, w: Body)
    requires ValidBody(Amr, a) && ValidBody(AmrWb, w) && a.frameType == w.frameType
    ensures if a.frameType == NO_DATA_TYPE then |a.bits| == |w.bits| == 0 else |a.bits| + 37 <= |w.bits|
  {
    var t := a.frameType;
    assert t == 0 || t == 1 || t == 2 || t == 3 || t == 4 || t == 5 || t == 6 || t == 7 || t == 8 || t == 15;
  }

  /** The same frame types, each valid in its codec. */
  ghost predicate Twins(a: seq<Body>, w: seq<Body>) {
    && |a| == |w| && AllValid(Amr, a) && AllValid(AmrWb, w)
    && forall i | 0 <= i < |a| :: a[i].frameType == w[i].frameType
  }

  lemma TwinsRest(a: seq<Body>, w: seq<Body>)
    requires Twins(a, w) && a != []
    ensures Twins(a[1..], w[1..]) && ValidBody(Amr, a[0]) && ValidBody(AmrWb, w[0]) && a[0].frameType == w[0].frameType
    ensures NoDataOnly(a) <==> a[0].frameType == NO_DATA_TYPE && NoDataOnly(a[1..])
  {
    hide ValidBody;
    if a[0].frameType == NO_DATA_TYPE && NoDataOnly(a[1..]) {
      forall i | 0 <= i < |a| ensures a[i].frameType == NO_DATA_TYPE {
        assert i > 0 ==> a[i] == a[1..][i - 1];
      }
    }
  }

  lemma {:induction false} SpeechLonger(a: seq<Body>, w: seq<Body>)
    requires Twins(a, w)
    ensures |SpeechBits(a)| + (if NoDataOnly(a) then 0 else 37) <= |SpeechBits(w)|
    ensures |SpeechOctets(a)| + (if NoDataOnly(a) then 0 else 1) <= |SpeechOctets(w)|
  {
    if a != [] {
      hide ValidBody, Pack, NoDataOnly, ByteLength, Twins;
      TwinsRest(a, w);
      SpeechLonger(a[1..], w[1..]);
      BodyLonger(a[0], w[0]);
      PackBits(a[0].bits);
      PackBits(w[0].bits);
      LengthOrder(|a[0].bits|, |w[0].bits|);
    }
  }

  lemma LengthOrder(a: nat, w: nat)
    ensures a <= w ==> ByteLength(a) <= ByteLength(w)
    ensures a + 37 <= w ==> ByteLength(a) < ByteLength(w)
  {
  }

  lemma TwinBodies(a: seq<Body>, w: seq<Body>)
    requires WellFormed(Amr, a) && WellFormed(AmrWb, w) && SameKinds(Entries(a), Entries(w))
    ensures Twins(a, w)
  {
    hide ValidBody;
    forall i | 0 <= i < |a| ensures a[i].frameType == w[i].frameType {
      assert Entries(a)[i].frameType == Entries(w)[i].frameType;
    }
  }

  /** The bits of a bandwidth-efficient payload: its content, and fewer than eight zeros. */
  lemma EfficientBits(request: ModeBits, bodies: seq<Body>)
    ensures var content := request + TocBits(Entries(bodies)) + SpeechBits(bodies);
            var pad := Padding(|content|);
            && BytesToBits(EncodeBandwidthEfficient(request, bodies)) == content + Zeros(pad)
            && pad < 8
            && BytesToBits(EncodeBandwidthEfficient(request, bodies))[4..]
               == TocBits(Entries(bodies)) + (SpeechBits(bodies) + Zeros(pad))
  {
    hide TocBits, SpeechBits, Entries, Pack, BytesToBits, Padding, ByteLength;
    PackBits(request + TocBits(Entries(bodies)) + SpeechBits(bodies));
  }

  lemma EfficientShared(request: ModeBits, a: seq<Body>, w: seq<Body>)
    requires WellFormed(Amr, a) && WellFormed(AmrWb, w)
    requires EncodeBandwidthEfficient(request, a) == EncodeBandwidthEfficient(request, w)
    ensures NoDataOnly(a) && NoDataOnly(w)
  {
    hide TocBits, SpeechBits, BytesToBits, EncodeBandwidthEfficient, ValidBody, Padding;
    EfficientBits(request, a);
    EfficientBits(request, w);
    var padA := Padding(|request + TocBits(Entries(a)) + SpeechBits(a)|);
    var padW := Padding(|request + TocBits(Entries(w)) + SpeechBits(w)|);
    TocBitsAgree(Entries(a), Entries(w), SpeechBits(a) + Zeros(padA), SpeechBits(w) + Zeros(padW));
    TwinBodies(a, w);
    SpeechLonger(a, w);
  }

  lemma AlignedShared(request: ModeBits, a: seq<Body>, w: seq<Body>)
    requires WellFormed(Amr, a) && WellFormed(AmrWb, w)
    requires EncodeOctetAligned(request, a) == EncodeOctetAligned(request, w)
    ensures NoDataOnly(a) && NoDataOnly(w)
  {
    hide TocOctets, SpeechOctets, ValidBody, OctetValue;
    var x, y := EncodeOctetAligned(request, a), EncodeOctetAligned(request, w);
    assert x[1..] == TocOctets(Entries(a)) + SpeechOctets(a) && y[1..] == TocOctets(Entries(w)) + SpeechOctets(w);
    TocOctetsAgree(Entries(a), Entries(w), SpeechOctets(a), SpeechOctets(w));
    TwinBodies(a, w);
    SpeechLonger(a, w);
  }

  /** Reading in both codecs of one mode takes nothing but NO_DATA frames. */
  lemma BothCodecs(payload: Bytes, mode: PayloadMode)
    requires Bodies(Amr, mode, payload).Ok? && Bodies(AmrWb, mode, payload).Ok?
    ensures NoDataOnly(Bodies(Amr, mode, payload).value) && NoDataOnly(Bodies(AmrWb, mode, payload).value)
  {
    hide Bodies, EncodeOctetAligned, EncodeBandwidthEfficient, WellFormed, ModeRequest, NoDataOnly;
    var a, w := Bodies(Amr, mode, payload).value, Bodies(AmrWb, mode, payload).value;
    AcceptedIffEncoding(Amr, mode, payload, a);
    AcceptedIffEncoding(AmrWb, mode, payload, w);
    match mode
    case OctetAligned => AlignedShared(ModeRequest(payload), a, w);
    case BandwidthEfficient => EfficientShared(ModeRequest(payload), a, w);
  }

  lemma NoDataInBoth(c: Codec, d: Codec, bodies: seq<Body>)
    requires WellFormed(c, bodies) && NoDataOnly(bodies)
    ensures WellFormed(d, bodies)
  {
    forall i | 0 <= i < |bodies| ensures ValidBody(d, bodies[i]) {
      assert ValidBody(c, bodies[i]);
    }
  }

  /** A payload that reads in one codec reads in the other, in the same mode, exactly when every frame is NO_DATA. */
  lemma CodecsShareIff(payload: Bytes, mode: PayloadMode, c: Codec, d: Codec)
    requires c != d && Bodies(c, mode, payload).Ok?
    ensures Bodies(d, mode, payload).Ok? <==> NoDataOnly(Bodies(c, mode, payload).value)
    ensures Bodies(d, mode, payload).Ok? ==> Bodies(d, mode, payload) == Bodies(c, mode, payload)
  {
    hide Bodies, Encode, WellFormed, ModeRequest, NoDataOnly;
    var bodies := Bodies(c, mode, payload).value;
    if Bodies(d, mode, payload).Ok? {
      BothCodecs(payload, mode);
    }
    if NoDataOnly(bodies) {
      AcceptedIffEncoding(c, mode, payload, bodies);
      NoDataInBoth(c, d, bodies);
      AcceptedIffEncoding(d, mode, payload, bodies);
    }
  }

  // ---------------------------------------------------------------------------------------------
  // The other mode
  // ---------------------------------------------------------------------------------------------

  /** The speech bits of the frame that an octet-aligned payload seems to hold when read bandwidth-efficiently. */
  function SeemingCount(codec: Codec, followed: bool): nat {
    BitCount(codec, if followed then 1 else 0).value
  }

  /**
   * The payload, read bandwidth-efficiently, is as long as one frame of type 0 or 1 makes it, by the first bit of its
   * second octet, and ends in zeros.
   */
  ghost predicate SeemsEfficient(codec: Codec, payload: Bytes) {
    |payload| >= 2 &&
    var n := 10 + SeemingCount(codec, ByteBits(payload[1])[0]);
    |payload| == ByteLength(n) && |BytesToBits(payload)| >= n && true !in BytesToBits(payload)[n..]
  }

  lemma SmallValue(s: Bitstring)
    requires |s| == 4 && !s[0] && !s[1] && !s[2]
    ensures Value(s) == BitValue(s[3])
  {
    assert s[..3] == Zeros(3);
    ValueZeros(s[..3]);
    ValueAppend(s[..3], s[3]);
    assert s == s[..3] + [s[3]];
  }

  lemma FirstOctets(payload: Bytes)
    requires |payload| >= 2
    ensures var bits := BytesToBits(payload);
            |bits| == 8 * |payload| && bits[..8] == ByteBits(payload[0]) && bits[8..16] == ByteBits(payload[1])
  {
    hide ByteBits, BytesToBits;
    var rest := payload[1..];
    assert payload == [payload[0]] + rest && rest == [rest[0]] + rest[1..];
    OneByteBits(payload[0], rest);
    OneByteBits(rest[0], rest[1..]);
    BytesToBitsLength(payload);
  }

  /** What a table of contents that opens with three zero type bits and no F bit reads as. */
  lemma SeemingToc(codec: Codec, s: Bitstring)
    requires |s| >= 6 && !s[0] && !s[1] && !s[2] && !s[3]
    ensures var t := if s[4] then 1 else 0;
            ReadTocBits(codec, s) == Ok(Toc([TocEntry(t, s[5], SeemingCount(codec, s[4]))], s[6..]))
  {
    hide Value;
    SmallValue(s[1..5]);
  }

  lemma OneFrameBits(e: TocEntry, s: Bitstring)
    ensures ReadSpeechBits([e], s)
            == if e.bitCount > |s| then Err(TruncatedSpeechData)
               else Ok(Speech([Body(e.frameType, e.quality, s[..e.bitCount])], s[e.bitCount..]))
  {
    assert [e][1..] == [];
    var body := Body(e.frameType, e.quality, if e.bitCount > |s| then s else s[..e.bitCount]);
    assert [body] + [] == [body];
  }

  lemma TailLength(n: nat, bytes: nat)
    ensures n <= 8 * bytes && 8 * bytes - n <= 7 <==> bytes == ByteLength(n)
  {
  }

  /** The bits of a payload whose first octet ends in four zeros, after the mode request. */
  lemma SeemingBits(payload: Bytes)
    requires |payload| >= 2 && true !in ByteBits(payload[0])[4..]
    ensures |BytesToBits(payload)| == 8 * |payload|
    ensures var s := BytesToBits(payload)[4..];
            !s[0] && !s[1] && !s[2] && !s[3] && (s[4] <==> ByteBits(payload[1])[0])
  {
    hide ByteBits, BytesToBits;
    FirstOctets(payload);
    var bits := BytesToBits(payload);
    assert bits[8..16][0] == bits[8];
    forall k | 4 <= k < 8 ensures !bits[k] {
      assert bits[k] == bits[..8][k] == ByteBits(payload[0])[4..][k - 4];
    }
  }

  /** The frame a payload would hold, read bandwidth-efficiently, if it holds one. */
  ghost function SeemingBody(codec: Codec, payload: Bytes): Body
    requires |payload| >= 2 && 10 + SeemingCount(codec, ByteBits(payload[1])[0]) <= |BytesToBits(payload)|
  {
    var bits, followed := BytesToBits(payload), ByteBits(payload[1])[0];
    Body(if followed then 1 else 0, bits[9], bits[10..10 + SeemingCount(codec, followed)])
  }

  /** A payload whose first octet ends in four zeros, as octet-aligned ones do, read bandwidth-efficiently. */
  lemma SeemsEfficientIff(codec: Codec, payload: Bytes)
    requires |payload| >= 2 && true !in ByteBits(payload[0])[4..]
    ensures BandwidthEfficientBodies(codec, payload).Ok? <==> SeemsEfficient(codec, payload)
    ensures SeemsEfficient(codec, payload) ==>
              BandwidthEfficientBodies(codec, payload) == Ok([SeemingBody(codec, payload)])
  {
    hide ByteBits, BytesToBits, ReadTocBits, ReadSpeechBits, ByteLength, SeemingCount;
    SeemingBits(payload);
    var bits, followed := BytesToBits(payload), ByteBits(payload[1])[0];
    var count := SeemingCount(codec, followed);
    SeemingToc(codec, bits[4..]);
    assert bits[4..][6..] == bits[10..] && bits[4..][5] == bits[9];
    OneFrameBits(TocEntry(if followed then 1 else 0, bits[9], count), bits[10..]);
    TailLength(10 + count, |payload|);
    if count <= |bits[10..]| {
      assert bits[10..][count..] == bits[10 + count..] && bits[10..][..count] == bits[10..10 + count];
    }
  }

  /** What an accepted octet-aligned payload opens with. */
  lemma AlignedOpening(codec: Codec, payload: Bytes)
    requires OctetAlignedBodies(codec, payload).Ok?
    ensures |payload| >= 2 && true !in ByteBits(payload[0])[4..]
    ensures ByteBits(payload[1])[0] <==> |OctetAlignedBodies(codec, payload).value| > 1
  {
    hide ReadTocOctets, ReadSpeechOctets, ByteBits, EntryOctet, TocOctets, SpeechOctets, WellFormed;
    OctetAlignedSound(codec, payload);
    var bodies := OctetAlignedBodies(codec, payload).value;
    SomeBodies(codec, bodies);
    EntriesHead(bodies);
    TocOctetsCons(EntryOf(bodies[0]), Entries(bodies[1..]));
    EntryOctetBits(Entries(bodies[1..]) != [], EntryOf(bodies[0]));
  }

  lemma SomeBodies(codec: Codec, bodies: seq<Body>)
    requires WellFormed(codec, bodies)
    ensures bodies != []
  {
  }

  /**
   * An octet-aligned payload also reads bandwidth-efficiently, in the same or the other codec, exactly when it is as
   * long as one frame makes it, of type 1 if it holds several frames and of type 0 if it holds one, and ends in zeros;
   * it then reads as that frame.
   */
  lemma ModesShareIff(payload: Bytes, c: Codec, d: Codec)
    requires Bodies(c, OctetAligned, payload).Ok?
    ensures |payload| >= 2 && (ByteBits(payload[1])[0] <==> |Bodies(c, OctetAligned, payload).value| > 1)
    ensures Bodies(d, BandwidthEfficient, payload).Ok? <==> SeemsEfficient(d, payload)
    ensures Bodies(d, BandwidthEfficient, payload).Ok? ==>
              var seeming := Bodies(d, BandwidthEfficient, payload).value;
              && |seeming| == 1
              && seeming[0].frameType == if |Bodies(c, OctetAligned, payload).value| > 1 then 1 else 0
  {
    hide OctetAlignedBodies, BandwidthEfficientBodies, ByteBits, BytesToBits, ByteLength, SeemingCount;
    AlignedOpening(c, payload);
    SeemsEfficientIff(d, payload);
  }

  lemma SingleAligned(codec: Codec, payload: Bytes, body: Body)
    requires Bodies(codec, OctetAligned, payload) == Ok([body])
    ensures ValidBody(codec, body) && |payload| == 2 + ByteLength(|body.bits|)
    ensures |BytesToBits(payload)| == 8 * |payload|
    ensures BytesToBits(payload)[16..] == body.bits + Zeros(Padding(|body.bits|))
  {
    hide OctetAlignedBodies, ByteBits, BytesToBits, Pack, EntryOctet, ValidBody, ByteLength, Padding, OctetValue;
    OctetAlignedSound(codec, payload);
    var octets := Pack(body.bits);
    assert [body] == [body] + [];
    SpeechOctetsCons(body, []);
    NoSpeech([], []);
    TocOctetsCons(EntryOf(body), []);
    NoTocOctets();
    assert [EntryOf(body)] + [] == [EntryOf(body)] && octets + [] == octets;
    PackBits(body.bits);
    var rest := payload[1..];
    assert payload == [payload[0]] + rest && rest == [rest[0]] + octets;
    OneByteBits(payload[0], rest);
    OneByteBits(rest[0], octets);
    BytesToBitsLength(payload);
  }

  lemma SeemingLengths(codec: Codec, d: Codec, body: Body, followed: bool)
    requires ValidBody(codec, body)
    ensures !followed && 2 + ByteLength(|body.bits|) == ByteLength(10 + SeemingCount(d, followed))
            <==> !followed && codec == Amr && d == Amr && body.frameType == 0
    ensures codec == Amr && body.frameType == 0 ==> |body.bits| == 95 && Padding(95) == 1
    ensures SeemingCount(Amr, false) == 95
  {
    var t := body.frameType;
    assert t == 0 || t == 1 || t == 2 || t == 3 || t == 4 || t == 5 || t == 6 || t == 7 || t == 8 || t == 9 || t == 14
           || t == 15;
  }

  /** A single octet-aligned frame reads bandwidth-efficiently only if it is AMR 4.75 and its last six bits are zero. */
  lemma SingleFrameModes(payload: Bytes, c: Codec, d: Codec, body: Body)
    requires Bodies(c, OctetAligned, payload) == Ok([body])
    ensures Bodies(d, BandwidthEfficient, payload).Ok?
            <==> c == Amr && d == Amr && body.frameType == 0 && |body.bits| == 95 && true !in body.bits[89..]
  {
    hide Bodies, ByteBits, BytesToBits, ByteLength, SeemingCount, ValidBody, Padding;
    ModesShareIff(payload, c, d);
    SingleAligned(c, payload, body);
    SeemingLengths(c, d, body, false);
    if c == Amr && d == Amr && body.frameType == 0 {
      FirstOctets(payload);
      var bits := BytesToBits(payload);
      var tail := body.bits[89..];
      assert bits[105..] == bits[16..][89..] == tail + Zeros(1);
      assert Zeros(1) == [false];
      ZeroTail(tail);
    }
  }

  lemma ZeroTail(s: Bitstring)
    ensures true in s + [false] <==> true in s
  {
  }

  /** A payload that reads in one mode and seems to read in the other, whoever looks. */
  ghost predicate ReadsInBothModes(payload: Bytes) {
    exists c: Codec, d: Codec :: Reads(payload, Format(c, OctetAligned)) && SeemsEfficient(d, payload)
  }

  ghost predicate ReadsAsNoData(payload: Bytes) {
    exists f: Format :: Reads(payload, f) && NoDataOnly(Reading(payload, f).value)
  }

  ghost predicate ReadsInSeveral(payload: Bytes) {
    exists f: Format, g: Format :: f != g && Reads(payload, f) && Reads(payload, g)
  }

  /**
   * A payload determines its format unless it is nothing but NO_DATA, or octet-aligned with a length and a tail that
   * make it look bandwidth-efficient.
   */
  lemma SeveralIff(payload: Bytes)
    ensures ReadsInSeveral(payload) <==> ReadsAsNoData(payload) || ReadsInBothModes(payload)
  {
    hide Bodies, SeemsEfficient, NoDataOnly;
    if ReadsInSeveral(payload) {
      var f: Format, g: Format :| f != g && Reads(payload, f) && Reads(payload, g);
      PairShares(payload, f, g);
    }
    if ReadsAsNoData(payload) {
      var f: Format :| Reads(payload, f) && NoDataOnly(Reading(payload, f).value);
      var g := Format(if f.codec == Amr then AmrWb else Amr, f.mode);
      CodecsShareIff(payload, f.mode, f.codec, g.codec);
      assert f != g && Reads(payload, g);
    }
    if ReadsInBothModes(payload) {
      var c: Codec, d: Codec :| Reads(payload, Format(c, OctetAligned)) && SeemsEfficient(d, payload);
      ModesShareIff(payload, c, d);
      assert Reads(payload, Format(d, BandwidthEfficient)) && Format(c, OctetAligned) != Format(d, BandwidthEfficient);
    }
  }

  lemma PairShares(payload: Bytes, f: Format, g: Format)
    requires f != g && Reads(payload, f) && Reads(payload, g)
    ensures f.mode == g.mode ==> NoDataOnly(Reading(payload, f).value)
    ensures f.mode == OctetAligned && g.mode == BandwidthEfficient ==> SeemsEfficient(g.codec, payload)
    ensures ReadsAsNoData(payload) || ReadsInBothModes(payload)
  {
    hide Bodies, SeemsEfficient, NoDataOnly;
    if f.mode == g.mode {
      CodecsShareIff(payload, f.mode, f.codec, g.codec);
    } else if f.mode == OctetAligned {
      ModesShareIff(payload, f.codec, g.codec);
    } else {
      ModesShareIff(payload, g.codec, f.codec);
    }
  }

  /** The witness in the codecs: frames without data read as either. */
  lemma NoDataReadsAsEither(mode: PayloadMode, request: ModeBits, bodies: seq<Body>)
    requires WellFormed(Amr, bodies) && NoDataOnly(bodies)
    ensures var payload := Encode(mode, request, bodies);
            Reads(payload, Format(Amr, mode)) && Reads(payload, Format(AmrWb, mode))
  {
    hide Bodies, Encode, WellFormed, NoDataOnly;
    NoDataInBoth(Amr, AmrWb, bodies);
    ParseUndoesEncode(Amr, mode, request, bodies);
    ParseUndoesEncode(AmrWb, mode, request, bodies);
  }

  /**
   * The witness in the modes: an octet-aligned AMR 4.75 frame that ends in six zeros also reads bandwidth-efficiently.
   */
  lemma QuietFrameReadsInBothModes(request: ModeBits, quality: bool, speech: Bitstring)
    requires |speech| == 89
    ensures var payload := Encode(OctetAligned, request, [Body(0, quality, speech + Zeros(6))]);
            Reads(payload, Format(Amr, OctetAligned)) && Reads(payload, Format(Amr, BandwidthEfficient))
  {
    hide Bodies, Encode;
    var body := Body(0, quality, speech + Zeros(6));
    var payload := Encode(OctetAligned, request, [body]);
    ParseUndoesEncode(Amr, OctetAligned, request, [body]);
    assert body.bits[89..] == Zeros(6);
    SingleFrameModes(payload, Amr, Amr, body);
  }

  // ---------------------------------------------------------------------------------------------
  // Flows
  // ---------------------------------------------------------------------------------------------

  ghost predicate SampledNoData(samples: seq<Sighting>, format: Format) {
    forall i | 0 <= i < |samples| ::
      Reads(samples[i].record.payload, format) && NoDataOnly(Reading(samples[i].record.payload, format).value)
  }

  ghost predicate SampledSeeming(samples: seq<Sighting>, codec: Codec) {
    forall i | 0 <= i < |samples| :: SeemsEfficient(codec, samples[i].record.payload)
  }

  /** Samples that read in one codec read in the other exactly when they hold nothing but NO_DATA. */
  lemma SamplesInCodecs(samples: seq<Sighting>, mode: PayloadMode, c: Codec, d: Codec)
    requires c != d && AllRead(samples, Format(c, mode))
    ensures AllRead(samples, Format(d, mode)) <==> SampledNoData(samples, Format(c, mode))
  {
    hide Bodies, NoDataOnly;
    forall i | 0 <= i < |samples|
      ensures Reads(samples[i].record.payload, Format(d, mode))
              <==> NoDataOnly(Reading(samples[i].record.payload, Format(c, mode)).value)
    {
      assert Reads(samples[i].record.payload, Format(c, mode));
      CodecsShareIff(samples[i].record.payload, mode, c, d);
    }
  }

  /** Octet-aligned samples read bandwidth-efficiently exactly when every one of them seems to. */
  lemma SamplesInModes(samples: seq<Sighting>, c: Codec, d: Codec)
    requires AllRead(samples, Format(c, OctetAligned))
    ensures AllRead(samples, Format(d, BandwidthEfficient)) <==> SampledSeeming(samples, d)
  {
    hide Bodies, SeemsEfficient;
    forall i | 0 <= i < |samples|
      ensures Reads(samples[i].record.payload, Format(d, BandwidthEfficient))
              <==> SeemsEfficient(d, samples[i].record.payload)
    {
      assert Reads(samples[i].record.payload, Format(c, OctetAligned));
      ModesShareIff(samples[i].record.payload, c, d);
    }
  }

  /** Samples that leave the request open: all NO_DATA for the codec, all alike in both modes for the mode. */
  ghost predicate SamplesShared(samples: seq<Sighting>, request: Request) {
    || (request.codec.None? && exists f: Format :: Wanted(request, f) && SampledNoData(samples, f))
    || (request.mode.None?
        && exists c: Codec, d: Codec ::
             && Wanted(request, Format(c, OctetAligned)) && AllRead(samples, Format(c, OctetAligned))
             && Wanted(request, Format(d, BandwidthEfficient)) && SampledSeeming(samples, d))
  }

  ghost predicate ReadInSeveral(samples: seq<Sighting>, request: Request) {
    exists f: Format, g: Format ::
      f != g && Wanted(request, f) && Wanted(request, g) && AllRead(samples, f) && AllRead(samples, g)
  }

  lemma SamplesSeveralIff(samples: seq<Sighting>, request: Request)
    ensures ReadInSeveral(samples, request) <==> SamplesShared(samples, request)
  {
    hide Reads, SeemsEfficient, NoDataOnly, AllRead, SampledNoData, SampledSeeming;
    if f: Format, g: Format :|
      f != g && Wanted(request, f) && Wanted(request, g) && AllRead(samples, f) && AllRead(samples, g)
    {
      if f.mode == g.mode {
        SamplesInCodecs(samples, f.mode, f.codec, g.codec);
      } else if f.mode == OctetAligned {
        SamplesInModes(samples, f.codec, g.codec);
      } else {
        SamplesInModes(samples, g.codec, f.codec);
      }
    }
    if f: Format :| request.codec.None? && Wanted(request, f) && SampledNoData(samples, f) {
      NoDataRead(samples, f);
      var g := Format(if f.codec == Amr then AmrWb else Amr, f.mode);
      SamplesInCodecs(samples, f.mode, f.codec, g.codec);
      assert f != g && Wanted(request, g) && AllRead(samples, g);
    }
    if c: Codec, d: Codec :|
      && Wanted(request, Format(c, OctetAligned)) && AllRead(samples, Format(c, OctetAligned))
      && Wanted(request, Format(d, BandwidthEfficient)) && SampledSeeming(samples, d)
    {
      SamplesInModes(samples, c, d);
      assert Format(c, OctetAligned) != Format(d, BandwidthEfficient);
    }
  }

  lemma NoDataRead(samples: seq<Sighting>, f: Format)
    requires SampledNoData(samples, f)
    ensures AllRead(samples, f)
  {
    hide Reads, NoDataOnly;
  }

  /** A flow sampled with one frame of speech or comfort noise is never valid in both codecs of one mode. */
  lemma FlowCodecsIff(
    selector: FlowSelector, limits: ResourceLimits, records: seq<RtpRecord>, key: FlowKey, mode: PayloadMode, c: Codec,
    d: Codec)
    requires limits.Valid() && key in ScanOf(selector, limits, records).states && c != d
    ensures var verdicts := ScanOf(selector, limits, records).states[key].verdicts;
            && Format(c, mode) in verdicts && Format(d, mode) in verdicts
            && (verdicts[Format(c, mode)].IsValid() ==>
                  (verdicts[Format(d, mode)].IsValid()
                   <==> SampledNoData(Samples(limits, OfFlow(records, key)), Format(c, mode))))
  {
    hide ScanOf, AllRead, SampledNoData, Weighed, Samples, Evidence.IsValid;
    CandidateWeighed(selector, limits, records, key, Format(c, mode));
    CandidateWeighed(selector, limits, records, key, Format(d, mode));
    ValidIff(selector, limits, records, key, Format(c, mode));
    ValidIff(selector, limits, records, key, Format(d, mode));
    var samples := Samples(limits, OfFlow(records, key));
    if AllRead(samples, Format(c, mode)) {
      SamplesInCodecs(samples, mode, c, d);
    }
  }

  lemma FrozenFits(candidate: Candidate, request: Request, format: Format)
    requires CoversFormats(candidate.verdicts)
    ensures Fits(Freeze(candidate), request, format)
            <==> candidate.verdicts[format].IsValid() && Wanted(request, format)
  {
    hide Evidence.IsValid, Wanted;
    var c := Freeze(candidate);
    var i := if format.codec == Amr then (if format.mode == OctetAligned then 0 else 1)
             else if format.mode == OctetAligned then 2 else 3;
    assert FORMATS[i] == format && c.formats[i] == candidate.verdicts[format];
  }

  lemma OneFits(c: FlowCandidate, request: Request, samples: seq<Sighting>)
    requires forall f: Format :: Fits(c, request, f) <==> AllRead(samples, f) && Wanted(request, f)
    ensures !Unresolved(c, request) <==> HasFit(c, request) && !ReadInSeveral(samples, request)
  {
    hide Fits, AllRead, Wanted;
    if f: Format :| FitsOnly(c, request, f) {
      assert Fits(c, request, f);
    }
    if f: Format :| Fits(c, request, f) {
      assert AllRead(samples, f);
      if !ReadInSeveral(samples, request) {
        assert FitsOnly(c, request, f);
      }
    }
  }

  /**
   * A discovered flow with a format that fits the request has exactly one, and so is resolved, unless the request
   * leaves the codec open and the samples hold nothing but NO_DATA, or leaves the mode open and the samples all read
   * octet-aligned and all seem bandwidth-efficient in one codec.
   */
  lemma FlowResolvedIff(
    selector: FlowSelector, limits: ResourceLimits, records: seq<RtpRecord>, result: DiscoveryResult,
    c: FlowCandidate, request: Request)
    requires limits.Valid() && Reports(result, limits, ScanOf(selector, limits, records)) && c in result.candidates
    ensures !Unresolved(c, request)
            <==> HasFit(c, request) && !SamplesShared(Samples(limits, OfFlow(records, c.flow)), request)
  {
    hide ScanOf, AllRead, SamplesShared, Samples, Evidence.IsValid, Fits, Freeze, Wanted, Ranked, Labelled;
    var key := c.flow;
    var candidate, samples := ScanOf(selector, limits, records).states[key], Samples(limits, OfFlow(records, key));
    forall f: Format ensures Fits(c, request, f) <==> AllRead(samples, f) && Wanted(request, f) {
      FrozenFits(candidate, request, f);
      ValidIff(selector, limits, records, key, f);
    }
    SamplesSeveralIff(samples, request);
    OneFits(c, request, samples);
  }
}
