/** What the diagnostics of a flow say: their texts, told from the wire and from the course of the run (models.py). */
module Notices {
  import opened Models
  import opened Bits
  import opened Rfc4867
  import opened Rtp
  import opened Refusals
  import opened Retention
  import opened Timeline
  import opened Runs
  import opened Accounts
  import opened Ranking
  import opened FlowStates
  import opened Extraction

  // ---------------------------------------------------------------------------------------------
  // Notes of the timeline
  // ---------------------------------------------------------------------------------------------

  /** What the timeline notes of one packet: it overflowed the history, or some of its frames are late. */
  function Notice(s: State, outcome: Outcome, provenance: Provenance): seq<Report> {
    if outcome.Overflow? then [Report("packet-history-overflow", provenance)]
    else if LateOne(s, outcome) == 1 then [Report("late-packet", provenance)]
    else []
  }

  ghost function NoticesOf(cfg: Config, records: seq<RtpRecord>): seq<Report> {
    if records == [] then []
    else
      var front, last := records[..|records| - 1], records[|records| - 1];
      var s := Run(cfg, front).state;
      NoticesOf(cfg, front) + Notice(s, OutcomeOf(cfg, s, last), last.provenance)
  }

  lemma NoteReports(cfg: Config, c: Counters, event: Event, provenance: Provenance)
    ensures var n := Note(cfg, c, event, provenance);
            && EventReports(n.diagnostics)
               == (if |c.diagnostics| < cfg.limits.maxDiagnostics
                   then EventReports(c.diagnostics) + [Report(EventText(event), provenance)]
                   else EventReports(c.diagnostics))
            && |n.diagnostics| + n.diagnosticOverflow == |c.diagnostics| + c.diagnosticOverflow + 1
  {
    hide EventText;
  }

  /** What accepting a packet notes. */
  lemma AcceptNotice(
    cfg: Config, s: State, record: RtpRecord, sequence: int, timestamp: int, frames: seq<EncodedFrame>)
    ensures var c, c' := s.counters, Accept(cfg, s, record, sequence, timestamp, frames).counters;
            if LateOne(s, Accepted(sequence, timestamp, frames)) == 1
            then && EventReports(c'.diagnostics)
                    == (if |c.diagnostics| < cfg.limits.maxDiagnostics
                        then EventReports(c.diagnostics) + [Report("late-packet", record.provenance)]
                        else EventReports(c.diagnostics))
                 && |c'.diagnostics| + c'.diagnosticOverflow == |c.diagnostics| + c.diagnosticOverflow + 1
            else c'.diagnostics == c.diagnostics && c'.diagnosticOverflow == c.diagnosticOverflow
  {
    hide InsertAll, OnTime, Overlaps, Retained, HighestAfter, ReleasedBy, Above, Note, Gaps, BufferedAfter;
    hide WatermarkAfter, LastTimestamp, IdentityOf, Higher, EventReports;
    var onTime := OnTime(s.committed, frames);
    var c := s.counters;
    var counted := c.(
      packets := c.packets + 1,
      accepted := c.accepted + 1,
      observed := c.observed + |frames|,
      reordered := c.reordered + (if s.highestSequence.Some? && sequence < s.highestSequence.value then 1 else 0),
      overlaps := c.overlaps + Overlaps(s.pending, onTime),
      gaps := c.gaps + Gaps(cfg.codec, s.committed, ReleasedBy(cfg, s, timestamp, frames)));
    NoteReports(cfg, counted.(latePackets := c.latePackets + 1), LatePacket, record.provenance);
  }

  /** A push notes its packet while there is room, and counts what it cannot note. */
  lemma PushNotice(cfg: Config, s: State, record: RtpRecord)
    ensures var c, c' := s.counters, PushRecord(cfg, s, record).state.counters;
            var notice := Notice(s, OutcomeOf(cfg, s, record), record.provenance);
            && EventReports(c'.diagnostics)
               == (if |c.diagnostics| < cfg.limits.maxDiagnostics then EventReports(c.diagnostics) + notice
                   else EventReports(c.diagnostics))
            && |c'.diagnostics| + c'.diagnosticOverflow == |c.diagnostics| + c.diagnosticOverflow + |notice|
  {
    hide PushRecord, OutcomeOf, Accept, ReleasedBy, OnTime, Note, EventReports;
    PushExits(cfg, s, record);
    var o, c := OutcomeOf(cfg, s, record), s.counters;
    assert EventReports(c.diagnostics) + [] == EventReports(c.diagnostics);
    if o.Accepted? {
      AcceptNotice(cfg, s, record, o.sequence, o.timestamp, o.frames);
    } else {
      PushCounters(cfg, s, record);
      NoteReports(cfg, c.(packets := c.packets + 1, overflows := c.overflows + 1), PacketHistoryOverflow,
                  record.provenance);
    }
  }

  lemma NoticesUnfold(cfg: Config, records: seq<RtpRecord>)
    requires records != []
    ensures var front, last := records[..|records| - 1], records[|records| - 1];
            var s := Run(cfg, front).state;
            NoticesOf(cfg, records) == NoticesOf(cfg, front) + Notice(s, OutcomeOf(cfg, s, last), last.provenance)
  {
    hide Run, OutcomeOf, Notice;
  }

  lemma NoticeOnce(s: State, outcome: Outcome, provenance: Provenance)
    ensures |Notice(s, outcome, provenance)| <= 1
  {
    hide LateOne;
  }

  /**
   * A run keeps the first notes, in their order, and counts the rest: each packet with a late frame is noted once as
   * late, each packet turned away once as an overflow, with where it was captured.
   */
  lemma {:induction false} RunNotices(cfg: Config, records: seq<RtpRecord>)
    requires cfg.limits.Valid()
    ensures var c := Run(cfg, records).state.counters;
            && EventReports(c.diagnostics) == Kept(cfg.limits, NoticesOf(cfg, records))
            && |c.diagnostics| + c.diagnosticOverflow == |NoticesOf(cfg, records)|
  {
    hide Run, PushRecord, OutcomeOf, Notice, NoticesOf, Kept;
    if records == [] {
      NothingNoted(cfg);
    } else {
      var front, last := records[..|records| - 1], records[|records| - 1];
      var s := Run(cfg, front).state;
      RunNotices(cfg, front);
      RunUnfold(cfg, records);
      NoticesUnfold(cfg, records);
      PushNotice(cfg, s, last);
      var notice := Notice(s, OutcomeOf(cfg, s, last), last.provenance);
      NoticeOnce(s, OutcomeOf(cfg, s, last), last.provenance);
      if notice == [] {
        assert NoticesOf(cfg, front) + [] == NoticesOf(cfg, front);
        assert EventReports(s.counters.diagnostics) + [] == EventReports(s.counters.diagnostics);
      } else {
        assert notice == [notice[0]];
        KeptAppend(cfg.limits, NoticesOf(cfg, front), notice[0]);
      }
    }
  }

  lemma NothingNoted(cfg: Config)
    requires cfg.limits.Valid()
    ensures Run(cfg, []).state.counters == NO_COUNTS && NoticesOf(cfg, []) == []
    ensures EventReports([]) == Kept(cfg.limits, [])
  {
  }

  // ---------------------------------------------------------------------------------------------
  // Errors
  // ---------------------------------------------------------------------------------------------

  /** The name of what is wrong with a payload, from its octets. */
  ghost predicate FaultNamed(codec: Codec, mode: PayloadMode, payload: Bytes, text: string)
    requires |BytesToBits(payload)| == 8 * |payload|
  {
    if |payload| < 2 then text == "short-header"
    else if mode.OctetAligned? && true in ByteBits(payload[0])[4..] then text == "nonzero-padding"
    else
      || (text == "incomplete-toc" && Faulty(codec, mode, payload, IncompleteToc))
      || (text == "invalid-frame-type" && Faulty(codec, mode, payload, InvalidFrameType))
      || (text == "truncated-speech-data" && Faulty(codec, mode, payload, TruncatedSpeechData))
      || (text == "trailing-data" && Faulty(codec, mode, payload, TrailingData))
      || (text == "nonzero-padding" && Faulty(codec, mode, payload, NonzeroPadding))
  }

  ghost predicate Faulty(codec: Codec, mode: PayloadMode, payload: Bytes, reason: Reason)
    requires |payload| >= 2 && |BytesToBits(payload)| == 8 * |payload|
  {
    match mode
    case BandwidthEfficient => EfficientFault(codec, BytesToBits(payload)[4..], reason)
    case OctetAligned => AlignedFault(codec, payload[1..], reason)
  }

  lemma FaultIs(codec: Codec, mode: PayloadMode, payload: Bytes, reason: Reason)
    ensures |BytesToBits(payload)| == 8 * |payload|
    ensures Bodies(codec, mode, payload) == Err(reason)
            <==> if |payload| < 2 then reason == ShortHeader
                 else if mode.OctetAligned? && true in ByteBits(payload[0])[4..] then reason == NonzeroPadding
                 else Faulty(codec, mode, payload, reason)
  {
    hide Bodies, EfficientFault, AlignedFault, BytesToBits, ByteBits;
    EfficientRefusal(codec, payload, reason);
    match mode
    case BandwidthEfficient =>
    case OctetAligned => AlignedRefusal(codec, payload, reason);
  }

  lemma OtherReasons(codec: Codec, mode: PayloadMode, payload: Bytes)
    requires |payload| >= 2 && |BytesToBits(payload)| == 8 * |payload|
    ensures !Faulty(codec, mode, payload, ShortHeader) && !Faulty(codec, mode, payload, InvalidFrameLength)
    ensures !Faulty(codec, mode, payload, CodecMismatch)
  {
  }

  /** What a push makes of a refused payload. */
  lemma RefusedPayload(cfg: Config, s: State, record: RtpRecord)
    ensures var o := OutcomeOf(cfg, s, record);
            o.Malformed? ==>
              && Bodies(cfg.codec, cfg.mode, record.payload) == Err(o.reason)
              && ErrorsOfPush(o, record.provenance) == [Report(ReasonText(o.reason), record.provenance)]
  {
    hide Bodies, Retained, Holds, ExtendedSequence, ExtendedTimestamp, ReasonText, Frames;
  }

  /** A refused payload is reported once, where it was captured, under the name of what is wrong with it. */
  lemma PayloadReported(cfg: Config, s: State, record: RtpRecord, text: string)
    ensures |BytesToBits(record.payload)| == 8 * |record.payload|
    ensures OutcomeOf(cfg, s, record).Malformed? ==>
              (ErrorsOfPush(OutcomeOf(cfg, s, record), record.provenance) == [Report(text, record.provenance)]
               <==> FaultNamed(cfg.codec, cfg.mode, record.payload, text))
  {
    hide Bodies, OutcomeOf, Faulty, BytesToBits, ByteBits, ErrorsOfPush;
    BytesToBitsLength(record.payload);
    RefusedPayload(cfg, s, record);
    var o := OutcomeOf(cfg, s, record);
    if o.Malformed? {
      FaultIs(cfg.codec, cfg.mode, record.payload, o.reason);
      FaultIs(cfg.codec, cfg.mode, record.payload, IncompleteToc);
      FaultIs(cfg.codec, cfg.mode, record.payload, InvalidFrameType);
      FaultIs(cfg.codec, cfg.mode, record.payload, TruncatedSpeechData);
      FaultIs(cfg.codec, cfg.mode, record.payload, TrailingData);
      FaultIs(cfg.codec, cfg.mode, record.payload, NonzeroPadding);
      if |record.payload| >= 2 {
        OtherReasons(cfg.codec, cfg.mode, record.payload);
      }
    }
  }

  /** A malformed datagram is reported once, where it was captured, to the flow it is counted to and to no other. */
  lemma DatagramReported(cfg: Config, s: State, udp: UdpRecord, flows: seq<FlowKey>)
    requires Parse(udp).Err?
    ensures ErrorsAt(cfg, s, udp, flows)
            == if FaultsOf(udp, flows, cfg.flow) == 1 then [Report("malformed-rtp", udp.provenance)] else []
  {
    hide Parse, TargetOf, OutcomeOf;
  }

  // ---------------------------------------------------------------------------------------------
  // The order of capture
  // ---------------------------------------------------------------------------------------------

  /**
   * What the order of capture means: numbered packets come in the order of their numbers, those without a number with
   * the number 2 to the 63rd, and reports with one number in the order of their texts.
   */
  lemma CaptureOrder(reports: seq<Report>, i: nat, j: nat)
    requires InOrderOfCapture(reports) && i < j < |reports|
    ensures var a, b := reports[i].provenance.packetNumber, reports[j].provenance.packetNumber;
            match (a, b)
            case (Some(x), Some(y)) => x <= y && (x == y ==> !TextBefore(reports[j].reason, reports[i].reason))
            case (Some(x), None) => x <= 0x8000_0000_0000_0000
            case (None, Some(y)) => 0x8000_0000_0000_0000 <= y
            case (None, None) => !TextBefore(reports[j].reason, reports[i].reason)
  {
    hide TextBefore;
  }
}
