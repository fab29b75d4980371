/** Why a payload is refused: each reason, from the bits of the payload (rfc4867.py). */
module Refusals {
  import opened Models
  import opened Bits
  import opened CodecTables
  import opened Rfc4867

  // ---------------------------------------------------------------------------------------------
  // Bandwidth-efficient payloads
  // ---------------------------------------------------------------------------------------------

  /** Entries with their F bits set: more must follow. */
  ghost function FollowedBits(entries: seq<TocEntry>): Bitstring {
    if entries == [] then [] else EntryBits(true, entries[0]) + FollowedBits(entries[1..])
  }

  function TotalBits(entries: seq<TocEntry>): nat {
    if entries == [] then 0 else entries[0].bitCount + TotalBits(entries[1..])
  }

  /** Valid entries that announce one more, and what is there instead. */
  ghost predicate Unfinished(codec: Codec, s: Bitstring, entries: seq<TocEntry>, rest: Bitstring) {
    ValidEntries(codec, entries) && s == FollowedBits(entries) + rest
  }

  /** A whole table of contents, and what comes after it. */
  ghost predicate Listed(codec: Codec, s: Bitstring, entries: seq<TocEntry>, rest: Bitstring) {
    entries != [] && ValidEntries(codec, entries) && s == TocBits(entries) + rest
  }

  /** Bits that cannot be an entry because the codec has no such frame type. */
  ghost predicate Unknown(codec: Codec, rest: Bitstring) {
    |rest| >= 6 && BitCount(codec, Value(rest[1..5])).None?
  }

  lemma UnknownEntry(codec: Codec, s: Bitstring)
    requires |s| >= 6
    ensures ReadEntry(codec, s).Err? <==> Unknown(codec, s)
    ensures ReadEntry(codec, s).Err? ==> ReadEntry(codec, s) == Err(InvalidFrameType)
  {
    hide Value;
    TablesAgree(codec, TypeOf(s[1..5]));
  }

  lemma {:induction false} TocContinues(codec: Codec, entries: seq<TocEntry>, rest: Bitstring)
    requires ValidEntries(codec, entries)
    ensures ReadTocBits(codec, FollowedBits(entries) + rest) == PrependEntries(entries, ReadTocBits(codec, rest))
  {
    hide ReadTocBits, EntryBits, ValidEntry, FollowedBits;
    if entries == [] {
      NothingFollowed();
      assert [] + rest == rest;
      PrependNoEntries(ReadTocBits(codec, rest));
    } else {
      var tail := FollowedBits(entries[1..]) + rest;
      FollowedCons(entries);
      assert FollowedBits(entries) + rest == EntryBits(true, entries[0]) + tail;
      assert ValidEntry(codec, entries[0]);
      ReadTocBitsHead(codec, entries[0], true, tail);
      TocContinues(codec, entries[1..], rest);
      PrependEntriesTwice([entries[0]], entries[1..], ReadTocBits(codec, rest));
      assert entries == [entries[0]] + entries[1..];
    }
  }

  lemma NothingFollowed()
    ensures FollowedBits([]) == []
  {
  }

  lemma FollowedCons(entries: seq<TocEntry>)
    requires entries != []
    ensures FollowedBits(entries) == EntryBits(true, entries[0]) + FollowedBits(entries[1..])
  {
    hide EntryBits;
  }

  /** Where a table of contents that is refused goes wrong. */
  lemma {:induction false} TocRefused(codec: Codec, s: Bitstring) returns (entries: seq<TocEntry>, rest: Bitstring)
    requires ReadTocBits(codec, s).Err?
    ensures Unfinished(codec, s, entries, rest)
    ensures if |rest| < 6 then ReadTocBits(codec, s) == Err(IncompleteToc)
            else Unknown(codec, rest) && ReadTocBits(codec, s) == Err(InvalidFrameType)
    decreases |s|
  {
    hide EntryBits, ReadEntry, ValidEntry, Unknown, FollowedBits;
    entries, rest := [], s;
    NothingFollowed();
    assert [] + s == s;
    if |s| >= 6 {
      UnknownEntry(codec, s);
      if ReadEntry(codec, s).Ok? {
        var entry := ReadEntry(codec, s).value;
        ReadEntryIff(codec, s, entry);
        var inner;
        inner, rest := TocRefused(codec, s[6..]);
        entries := [entry] + inner;
        FollowedCons(entries);
        assert entries[1..] == inner && s == s[..6] + s[6..];
      }
    }
  }

  lemma {:induction false} SpeechFits(entries: seq<TocEntry>, s: Bitstring)
    ensures TotalBits(entries) <= |s| ==> ReadSpeechBits(entries, s).Ok?
                                          && ReadSpeechBits(entries, s).value.rest == s[TotalBits(entries)..]
    ensures TotalBits(entries) > |s| ==> ReadSpeechBits(entries, s) == Err(TruncatedSpeechData)
  {
    if entries != [] && entries[0].bitCount <= |s| {
      SpeechFits(entries[1..], s[entries[0].bitCount..]);
    }
  }

  /** What is wrong with a bandwidth-efficient payload of at least two octets, from its bits after the mode request. */
  ghost predicate EfficientFault(codec: Codec, s: Bitstring, reason: Reason) {
    match reason
    case IncompleteToc => exists entries, rest :: Unfinished(codec, s, entries, rest) && |rest| < 6
    case InvalidFrameType => exists entries, rest :: Unfinished(codec, s, entries, rest) && Unknown(codec, rest)
    case TruncatedSpeechData =>
      exists entries, rest :: Listed(codec, s, entries, rest) && |rest| < TotalBits(entries)
    case TrailingData =>
      exists entries, rest :: Listed(codec, s, entries, rest) && |rest| >= TotalBits(entries) + 8
    case NonzeroPadding =>
      exists entries, rest ::
        && Listed(codec, s, entries, rest) && TotalBits(entries) <= |rest| < TotalBits(entries) + 8
        && true in rest[TotalBits(entries)..]
    case _ => false
  }

  lemma UnfinishedRefused(codec: Codec, s: Bitstring, entries: seq<TocEntry>, rest: Bitstring)
    requires Unfinished(codec, s, entries, rest)
    ensures |rest| < 6 ==> ReadTocBits(codec, s) == Err(IncompleteToc)
    ensures Unknown(codec, rest) ==> ReadTocBits(codec, s) == Err(InvalidFrameType)
  {
    hide ReadEntry, FollowedBits, Unknown, Value;
    TocContinues(codec, entries, rest);
    if |rest| >= 6 {
      UnknownEntry(codec, rest);
    } else {
      ShortUnknown(codec, rest);
    }
  }

  lemma ShortUnknown(codec: Codec, rest: Bitstring)
    ensures |rest| < 6 ==> !Unknown(codec, rest)
  {
  }

  lemma EfficientResult(codec: Codec, payload: Bytes, entries: seq<TocEntry>, rest: Bitstring)
    requires |payload| >= 2 && |BytesToBits(payload)| == 8 * |payload|
    requires Listed(codec, BytesToBits(payload)[4..], entries, rest)
    ensures var r := BandwidthEfficientBodies(codec, payload);
            if |rest| < TotalBits(entries) then r == Err(TruncatedSpeechData)
            else if |rest| >= TotalBits(entries) + 8 then r == Err(TrailingData)
            else if true in rest[TotalBits(entries)..] then r == Err(NonzeroPadding)
            else r.Ok?
  {
    hide ReadTocBits, ReadSpeechBits, TocBits, BytesToBits, TotalBits;
    ReadTocBitsComplete(codec, entries, rest);
    SpeechFits(entries, rest);
  }

  /** The reason for refusing a bandwidth-efficient payload is exactly what its bits say. */
  lemma EfficientRefusal(codec: Codec, payload: Bytes, reason: Reason)
    ensures |BytesToBits(payload)| == 8 * |payload|
    ensures Bodies(codec, BandwidthEfficient, payload) == Err(reason)
            <==> if |payload| < 2 then reason == ShortHeader
                 else EfficientFault(codec, BytesToBits(payload)[4..], reason)
  {
    hide ReadTocBits, ReadSpeechBits, TocBits, BytesToBits, TotalBits, Unfinished, Listed, Unknown;
    BytesToBitsLength(payload);
    if |payload| >= 2 {
      var s := BytesToBits(payload)[4..];
      var r := ReadTocBits(codec, s);
      if r.Err? {
        var entries, rest := TocRefused(codec, s);
      } else {
        var toc := r.value;
        TocListed(codec, s);
        EfficientResult(codec, payload, toc.entries, toc.rest);
      }
      if EfficientFault(codec, s, reason) {
        EfficientFaultRefused(codec, payload, reason);
      }
    }
  }

  lemma TocListed(codec: Codec, s: Bitstring)
    requires ReadTocBits(codec, s).Ok?
    ensures Listed(codec, s, ReadTocBits(codec, s).value.entries, ReadTocBits(codec, s).value.rest)
  {
    hide ReadTocBits, TocBits;
    ReadTocBitsSound(codec, s);
  }

  lemma EfficientFaultRefused(codec: Codec, payload: Bytes, reason: Reason)
    requires |payload| >= 2 && |BytesToBits(payload)| == 8 * |payload|
    requires EfficientFault(codec, BytesToBits(payload)[4..], reason)
    ensures Bodies(codec, BandwidthEfficient, payload) == Err(reason)
  {
    hide ReadTocBits, ReadSpeechBits, TocBits, BytesToBits, TotalBits, Unfinished, Listed, Unknown;
    var s := BytesToBits(payload)[4..];
    match reason
    case IncompleteToc =>
      var entries, rest :| Unfinished(codec, s, entries, rest) && |rest| < 6;
      UnfinishedRefused(codec, s, entries, rest);
    case InvalidFrameType =>
      var entries, rest :| Unfinished(codec, s, entries, rest) && Unknown(codec, rest);
      UnfinishedRefused(codec, s, entries, rest);
    case TruncatedSpeechData =>
      var entries, rest :| Listed(codec, s, entries, rest) && |rest| < TotalBits(entries);
      EfficientResult(codec, payload, entries, rest);
    case TrailingData =>
      var entries, rest :| Listed(codec, s, entries, rest) && |rest| >= TotalBits(entries) + 8;
      EfficientResult(codec, payload, entries, rest);
    case NonzeroPadding =>
      var entries, rest :|
        && Listed(codec, s, entries, rest) && TotalBits(entries) <= |rest| < TotalBits(entries) + 8
        && true in rest[TotalBits(entries)..];
      EfficientResult(codec, payload, entries, rest);
    case _ =>
  }

  // ---------------------------------------------------------------------------------------------
  // Octet-aligned payloads
  // ---------------------------------------------------------------------------------------------

  ghost function FollowedOctets(entries: seq<TocEntry>): Bytes {
    if entries == [] then [] else [EntryOctet(true, entries[0])] + FollowedOctets(entries[1..])
  }

  ghost predicate UnfinishedOctets(codec: Codec, s: Bytes, entries: seq<TocEntry>, rest: Bytes) {
    ValidEntries(codec, entries) && s == FollowedOctets(entries) + rest
  }

  ghost predicate ListedOctets(codec: Codec, s: Bytes, entries: seq<TocEntry>, rest: Bytes) {
    entries != [] && ValidEntries(codec, entries) && s == TocOctets(entries) + rest
  }

  /** The next octet cannot be an entry: its last two bits are not zero. */
  ghost predicate Untidy(rest: Bytes) {
    rest != [] && (ByteBits(rest[0])[6] || ByteBits(rest[0])[7])
  }

  ghost predicate UnknownOctet(codec: Codec, rest: Bytes) {
    rest != [] && !Untidy(rest) && Unknown(codec, ByteBits(rest[0]))
  }

  lemma {:induction false} OctetsContinue(codec: Codec, entries: seq<TocEntry>, rest: Bytes)
    requires ValidEntries(codec, entries)
    ensures ReadTocOctets(codec, FollowedOctets(entries) + rest) == PrependEntries(entries, ReadTocOctets(codec, rest))
  {
    hide ReadTocOctets, EntryOctet, ValidEntry, FollowedOctets;
    if entries == [] {
      NoFollowedOctets();
      assert [] + rest == rest;
      PrependNoEntries(ReadTocOctets(codec, rest));
    } else {
      var tail := FollowedOctets(entries[1..]) + rest;
      FollowedOctetsCons(entries);
      assert FollowedOctets(entries) + rest == [EntryOctet(true, entries[0])] + tail;
      assert ValidEntry(codec, entries[0]);
      ReadTocOctetsHead(codec, entries[0], true, tail);
      OctetsContinue(codec, entries[1..], rest);
      PrependEntriesTwice([entries[0]], entries[1..], ReadTocOctets(codec, rest));
      assert entries == [entries[0]] + entries[1..];
    }
  }

  lemma NoFollowedOctets()
    ensures FollowedOctets([]) == []
  {
  }

  lemma FollowedOctetsCons(entries: seq<TocEntry>)
    requires entries != []
    ensures FollowedOctets(entries) == [EntryOctet(true, entries[0])] + FollowedOctets(entries[1..])
  {
    hide EntryOctet;
  }

  /** What reading one octet of a table of contents refuses. */
  lemma OctetRefused(codec: Codec, s: Bytes)
    ensures s == [] ==> ReadTocOctets(codec, s) == Err(IncompleteToc)
    ensures Untidy(s) ==> ReadTocOctets(codec, s) == Err(NonzeroPadding)
    ensures UnknownOctet(codec, s) ==> ReadTocOctets(codec, s) == Err(InvalidFrameType)
    ensures s != [] && !Untidy(s) && !UnknownOctet(codec, s) ==> ReadEntry(codec, ByteBits(s[0])).Ok?
  {
    hide ByteBits, ReadEntry, Unknown;
    if s != [] {
      UnknownEntry(codec, ByteBits(s[0]));
    }
  }

  lemma {:induction false} OctetTocRefused(codec: Codec, s: Bytes) returns (entries: seq<TocEntry>, rest: Bytes)
    requires ReadTocOctets(codec, s).Err?
    ensures UnfinishedOctets(codec, s, entries, rest) && (rest == [] || Untidy(rest) || UnknownOctet(codec, rest))
    ensures ReadTocOctets(codec, s)
            == Err(if rest == [] then IncompleteToc else if Untidy(rest) then NonzeroPadding else InvalidFrameType)
  {
    hide EntryOctet, ReadEntry, ValidEntry, Unknown, FollowedOctets, ByteBits;
    entries, rest := [], s;
    NoFollowedOctets();
    assert [] + s == s;
    OctetRefused(codec, s);
    if s != [] && !Untidy(s) && !UnknownOctet(codec, s) {
      var entry := ReadEntry(codec, ByteBits(s[0])).value;
      ReadEntryIff(codec, ByteBits(s[0]), entry);
      EntryOctetIff(s[0], entry);
      var inner;
      inner, rest := OctetTocRefused(codec, s[1..]);
      entries := [entry] + inner;
      FollowedOctetsCons(entries);
      assert entries[1..] == inner && s == [s[0]] + s[1..];
    }
  }

  /** The frames that are whole, and what is there for the next one. */
  ghost predicate ReadSoFar(entries: seq<TocEntry>, s: Bytes, bodies: seq<Body>, rest: Bytes) {
    |bodies| <= |entries| && Entries(bodies) == entries[..|bodies|] && s == SpeechOctets(bodies) + rest
  }

  /** The next frame's octets are not all there. */
  ghost predicate CutOff(entries: seq<TocEntry>, n: nat, rest: Bytes) {
    n < |entries| && |rest| < ByteLength(entries[n].bitCount)
  }

  /** The next frame's last octet does not end in zeros. */
  ghost predicate Overfull(entries: seq<TocEntry>, n: nat, rest: Bytes) {
    && n < |entries| && ByteLength(entries[n].bitCount) <= |rest|
    && var bits := BytesToBits(rest[..ByteLength(entries[n].bitCount)]);
       entries[n].bitCount <= |bits| && true in bits[entries[n].bitCount..]
  }

  lemma {:induction false} SpeechContinues(entries: seq<TocEntry>, s: Bytes, bodies: seq<Body>, rest: Bytes)
    requires ReadSoFar(entries, s, bodies, rest)
    ensures ReadSpeechOctets(entries, s) == PrependBodies(bodies, ReadSpeechOctets(entries[|bodies|..], rest))
  {
    hide ReadSpeechOctets, Pack, SpeechOctets, Entries;
    if bodies == [] {
      NoSpeech([], []);
      assert s == rest && entries[0..] == entries;
      PrependNoBodies(ReadSpeechOctets(entries, rest));
    } else {
      var tail := SpeechOctets(bodies[1..]) + rest;
      assert bodies == [bodies[0]] + bodies[1..];
      SpeechOctetsCons(bodies[0], bodies[1..]);
      assert entries[..|bodies|] == [EntryOf(bodies[0])] + Entries(bodies[1..]);
      assert entries == [EntryOf(bodies[0])] + entries[1..];
      assert entries[1..][..|bodies| - 1] == entries[..|bodies|][1..];
      assert s == Pack(bodies[0].bits) + tail;
      ReadSpeechOctetsHead(bodies[0], entries[1..], tail);
      SpeechContinues(entries[1..], tail, bodies[1..], rest);
      assert entries[1..][|bodies| - 1..] == entries[|bodies|..];
      PrependBodiesTwice([bodies[0]], bodies[1..], ReadSpeechOctets(entries[|bodies|..], rest));
    }
  }

  lemma FrameRefused(entries: seq<TocEntry>, n: nat, rest: Bytes)
    requires n <= |entries|
    ensures CutOff(entries, n, rest) ==> ReadSpeechOctets(entries[n..], rest) == Err(TruncatedSpeechData)
    ensures Overfull(entries, n, rest) ==> ReadSpeechOctets(entries[n..], rest) == Err(NonzeroPadding)
  {
    hide BytesToBits, ByteLength;
    if n < |entries| {
      assert entries[n..][0] == entries[n];
    }
  }

  lemma {:induction false} SpeechRefused(entries: seq<TocEntry>, s: Bytes) returns (bodies: seq<Body>, rest: Bytes)
    requires ReadSpeechOctets(entries, s).Err?
    ensures ReadSoFar(entries, s, bodies, rest)
    ensures (CutOff(entries, |bodies|, rest) && ReadSpeechOctets(entries, s) == Err(TruncatedSpeechData))
            || (Overfull(entries, |bodies|, rest) && ReadSpeechOctets(entries, s) == Err(NonzeroPadding))
  {
    hide BytesToBits, ByteLength, Pack, SpeechOctets, Entries;
    bodies, rest := [], s;
    NoSpeech([], []);
    var count := ByteLength(entries[0].bitCount);
    if count <= |s| {
      var data := s[..count];
      BytesToBitsLength(data);
      EnoughBits(entries[0].bitCount);
      var read := ReadBody(entries[0], data);
      if read.Ok? {
        ReadBodyIff(entries[0], data, read.value);
        var inner;
        inner, rest := SpeechRefused(entries[1..], s[count..]);
        bodies := [read.value] + inner;
        SpeechOctetsCons(read.value, inner);
        assert s == data + s[count..] && entries[..|bodies|] == [entries[0]] + entries[1..][..|inner|];
      }
    }
  }

  lemma EnoughBits(n: nat)
    ensures n <= 8 * ByteLength(n)
  {
  }

  /** What is wrong with an octet-aligned payload after its first octet. */
  ghost predicate AlignedFault(codec: Codec, s: Bytes, reason: Reason) {
    match reason
    case IncompleteToc => exists entries, rest :: UnfinishedOctets(codec, s, entries, rest) && rest == []
    case InvalidFrameType =>
      exists entries, rest :: UnfinishedOctets(codec, s, entries, rest) && UnknownOctet(codec, rest)
    case TruncatedSpeechData =>
      exists entries, rest, bodies, more ::
        ListedOctets(codec, s, entries, rest) && ReadSoFar(entries, rest, bodies, more)
        && CutOff(entries, |bodies|, more)
    case TrailingData =>
      exists entries, rest, bodies, more ::
        ListedOctets(codec, s, entries, rest) && ReadSoFar(entries, rest, bodies, more)
        && |bodies| == |entries| && more != []
    case NonzeroPadding =>
      || (exists entries, rest :: UnfinishedOctets(codec, s, entries, rest) && Untidy(rest))
      || (exists entries, rest, bodies, more ::
            ListedOctets(codec, s, entries, rest) && ReadSoFar(entries, rest, bodies, more)
            && Overfull(entries, |bodies|, more))
    case _ => false
  }

  lemma UnfinishedOctetsRefused(codec: Codec, s: Bytes, entries: seq<TocEntry>, rest: Bytes)
    requires UnfinishedOctets(codec, s, entries, rest)
    ensures rest == [] ==> ReadTocOctets(codec, s) == Err(IncompleteToc)
    ensures Untidy(rest) ==> ReadTocOctets(codec, s) == Err(NonzeroPadding)
    ensures UnknownOctet(codec, rest) ==> ReadTocOctets(codec, s) == Err(InvalidFrameType)
  {
    hide ReadTocOctets, FollowedOctets, UnknownOctet, Untidy;
    OctetsContinue(codec, entries, rest);
    OctetRefused(codec, rest);
  }

  lemma ListedRefused(codec: Codec, s: Bytes, entries: seq<TocEntry>, rest: Bytes, bodies: seq<Body>, more: Bytes)
    requires ListedOctets(codec, s, entries, rest) && ReadSoFar(entries, rest, bodies, more)
    ensures ReadTocOctets(codec, s) == Ok(Toc(entries, rest))
    ensures CutOff(entries, |bodies|, more) ==> ReadSpeechOctets(entries, rest) == Err(TruncatedSpeechData)
    ensures Overfull(entries, |bodies|, more) ==> ReadSpeechOctets(entries, rest) == Err(NonzeroPadding)
    ensures |bodies| == |entries| ==> ReadSpeechOctets(entries, rest) == Ok(Speech(bodies, more))
  {
    hide ReadTocOctets, ReadSpeechOctets, CutOff, Overfull, TocOctets, SpeechOctets, Entries;
    ReadTocOctetsComplete(codec, entries, rest);
    SpeechContinues(entries, rest, bodies, more);
    FrameRefused(entries, |bodies|, more);
    if |bodies| == |entries| {
      assert entries[|bodies|..] == [] && bodies + [] == bodies;
      NoSpeech(more, []);
    }
  }

  /** The reason for refusing an octet-aligned payload is exactly what its octets say. */
  lemma AlignedRefusal(codec: Codec, payload: Bytes, reason: Reason)
    ensures Bodies(codec, OctetAligned, payload) == Err(reason)
            <==> if |payload| < 2 then reason == ShortHeader
                 else if true in ByteBits(payload[0])[4..] then reason == NonzeroPadding
                 else AlignedFault(codec, payload[1..], reason)
  {
    hide ReadTocOctets, ReadSpeechOctets, ByteBits, UnfinishedOctets, ListedOctets, ReadSoFar, CutOff, Overfull, Untidy;
    hide UnknownOctet;
    if |payload| >= 2 && true !in ByteBits(payload[0])[4..] {
      var s := payload[1..];
      var r := ReadTocOctets(codec, s);
      if r.Err? {
        var entries, rest := OctetTocRefused(codec, s);
      } else {
        OctetsListed(codec, s);
        var toc := r.value;
        if ReadSpeechOctets(toc.entries, toc.rest).Err? {
          var bodies, more := SpeechRefused(toc.entries, toc.rest);
        } else {
          SpeechListed(toc.entries, toc.rest);
        }
      }
      if AlignedFault(codec, s, reason) {
        AlignedFaultRefused(codec, payload, reason);
      }
    }
  }

  lemma OctetsListed(codec: Codec, s: Bytes)
    requires ReadTocOctets(codec, s).Ok?
    ensures ListedOctets(codec, s, ReadTocOctets(codec, s).value.entries, ReadTocOctets(codec, s).value.rest)
  {
    hide ReadTocOctets, TocOctets;
    ReadTocOctetsSound(codec, s);
  }

  lemma SpeechListed(entries: seq<TocEntry>, s: Bytes)
    requires ReadSpeechOctets(entries, s).Ok?
    ensures var speech := ReadSpeechOctets(entries, s).value;
            |speech.bodies| == |entries| && ReadSoFar(entries, s, speech.bodies, speech.rest)
  {
    hide ReadSpeechOctets, SpeechOctets;
    ReadSpeechOctetsSound(entries, s);
    var bodies := ReadSpeechOctets(entries, s).value.bodies;
    assert entries[..|bodies|] == entries;
  }

  lemma AlignedFaultRefused(codec: Codec, payload: Bytes, reason: Reason)
    requires |payload| >= 2 && true !in ByteBits(payload[0])[4..] && AlignedFault(codec, payload[1..], reason)
    ensures Bodies(codec, OctetAligned, payload) == Err(reason)
  {
    hide ReadTocOctets, ReadSpeechOctets, ByteBits, UnfinishedOctets, ListedOctets, ReadSoFar, CutOff, Overfull, Untidy;
    hide UnknownOctet;
    var s := payload[1..];
    match reason
    case IncompleteToc =>
      var entries, rest :| UnfinishedOctets(codec, s, entries, rest) && rest == [];
      UnfinishedOctetsRefused(codec, s, entries, rest);
    case InvalidFrameType =>
      var entries, rest :| UnfinishedOctets(codec, s, entries, rest) && UnknownOctet(codec, rest);
      UnfinishedOctetsRefused(codec, s, entries, rest);
    case TruncatedSpeechData =>
      var entries, rest, bodies, more :|
        ListedOctets(codec, s, entries, rest) && ReadSoFar(entries, rest, bodies, more)
        && CutOff(entries, |bodies|, more);
      ListedRefused(codec, s, entries, rest, bodies, more);
    case TrailingData =>
      var entries, rest, bodies, more :|
        ListedOctets(codec, s, entries, rest) && ReadSoFar(entries, rest, bodies, more)
        && |bodies| == |entries| && more != [];
      ListedRefused(codec, s, entries, rest, bodies, more);
    case NonzeroPadding =>
      if entries, rest :| UnfinishedOctets(codec, s, entries, rest) && Untidy(rest) {
        UnfinishedOctetsRefused(codec, s, entries, rest);
      } else {
        var entries, rest, bodies, more :|
          ListedOctets(codec, s, entries, rest) && ReadSoFar(entries, rest, bodies, more)
          && Overfull(entries, |bodies|, more);
        ListedRefused(codec, s, entries, rest, bodies, more);
      }
    case _ =>
  }
}
