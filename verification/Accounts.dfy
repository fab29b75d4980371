/** Conservation: every packet and every frame of a run is counted exactly once. */
module Accounts {
  import opened Models
  import opened CodecTables
  import opened Timeline
  import opened Buffering
  import opened Runs
  import opened Windows

  // ---------------------------------------------------------------------------------------------
  // Ghost totals
  // ---------------------------------------------------------------------------------------------

  function FramesOf(outcome: Outcome): seq<EncodedFrame> {
    match outcome
    case Accepted(_, _, frames) => frames
    case _ => []
  }

  /** All frames of all accepted packets, in arrival order. */
  function Arrived(outcomes: seq<Outcome>): seq<EncodedFrame> {
    if outcomes == [] then [] else Arrived(outcomes[..|outcomes| - 1]) + FramesOf(outcomes[|outcomes| - 1])
  }

  /** How often each exit was taken. */
  datatype Tally = Tally(accepted: nat, duplicates: nat, overflows: nat, malformed: nat)

  function TallyOf(outcomes: seq<Outcome>): Tally {
    if outcomes == [] then Tally(0, 0, 0, 0)
    else
      var t := TallyOf(outcomes[..|outcomes| - 1]);
      match outcomes[|outcomes| - 1]
      case Accepted(_, _, _) => t.(accepted := t.accepted + 1)
      case Duplicate => t.(duplicates := t.duplicates + 1)
      case Overflow => t.(overflows := t.overflows + 1)
      case Malformed(_) => t.(malformed := t.malformed + 1)
  }

  /** Accepted packets with at least one frame at or before the committed timestamp they met. */
  ghost function LatePackets(cfg: Config, records: seq<RtpRecord>): nat {
    if records == [] then 0
    else
      var front := records[..|records| - 1];
      var s := Run(cfg, front).state;
      LatePackets(cfg, front) + LateOne(s, OutcomeOf(cfg, s, records[|records| - 1]))
  }

  /** Frames that arrived at or before the committed timestamp they met. */
  ghost function LateFrames(cfg: Config, records: seq<RtpRecord>): int {
    if records == [] then 0
    else
      var front := records[..|records| - 1];
      var s := Run(cfg, front).state;
      var o := OutcomeOf(cfg, s, records[|records| - 1]);
      LateFrames(cfg, front) + |FramesOf(o)| - |TimelyFrames(s.committed, o)|
  }

  function LateOne(s: State, outcome: Outcome): nat {
    if |TimelyFrames(s.committed, outcome)| < |FramesOf(outcome)| then 1 else 0
  }

  // ---------------------------------------------------------------------------------------------
  // One push
  // ---------------------------------------------------------------------------------------------

  /** Inserted frames either take a new timestamp or overlap. */
  lemma {:induction false} InsertAllCounts(pending: Pending, frames: seq<EncodedFrame>)
    requires Keyed(pending)
    ensures |InsertAll(pending, frames)| + Overlaps(pending, frames) == |pending| + |frames|
  {
    if frames != [] {
      hide Prefer, InsertAll, Overlaps, Keyed;
      var front, last := frames[..|frames| - 1], frames[|frames| - 1];
      InsertAllCounts(pending, front);
      InsertStep(pending, frames);
      InsertCounts(InsertAll(pending, front), last);
    } else {
      InsertStepNothing(pending);
    }
  }

  lemma InsertStepNothing(pending: Pending)
    ensures InsertAll(pending, []) == pending && Overlaps(pending, []) == 0
  {
  }

  lemma InsertStep(pending: Pending, frames: seq<EncodedFrame>)
    requires frames != []
    ensures var front, last := frames[..|frames| - 1], frames[|frames| - 1];
            && InsertAll(pending, frames) == Insert(InsertAll(pending, front), last)
            && Overlaps(pending, frames)
               == Overlaps(pending, front) + (if last.mediaTimestamp in InsertAll(pending, front) then 1 else 0)
  {
    hide Insert;
  }

  lemma InsertCounts(pending: Pending, frame: EncodedFrame)
    ensures |Insert(pending, frame)| == |pending| + (if frame.mediaTimestamp in pending then 0 else 1)
  {
    hide Prefer;
    var t := frame.mediaTimestamp;
    assert pending[t := frame].Keys == pending.Keys + {t};
    if t in pending {
      assert pending.Keys + {t} == pending.Keys;
    }
  }

  lemma CutCounts(pending: Pending, w: int)
    ensures |AtMost(pending, w)| + |Above(pending, w)| == |pending|
  {
    var low, high := AtMost(pending, w).Keys, Above(pending, w).Keys;
    assert pending.Keys == low + high;
    assert low !! high;
  }

  /** The frames that entered, less the overlaps, are the ones released and the ones still pending. */
  lemma AcceptCounts(
    cfg: Config, s: State, record: RtpRecord, sequence: int, timestamp: int, frames: seq<EncodedFrame>)
    requires Keyed(s.pending)
    ensures var timely := OnTime(s.committed, frames);
            |s.pending| + |timely|
            == Overlaps(s.pending, timely) + |ReleasedBy(cfg, s, timestamp, frames)|
               + |Accept(cfg, s, record, sequence, timestamp, frames).pending|
  {
    hide InsertAll, OnTime, Overlaps, Retained, CountersAfter, WatermarkAfter, HighestAfter, InOrder, AtMost, Above;
    hide LastTimestamp, IdentityOf, Keyed;
    var buffered, w := BufferedAfter(s, frames), WatermarkAfter(cfg, s, timestamp, frames);
    InsertAllCounts(s.pending, OnTime(s.committed, frames));
    CutCounts(buffered, w);
    assert |InOrder(AtMost(buffered, w))| == |AtMost(buffered, w)|;
  }

  /** What a counter record must satisfy, given the run's ghost totals. */
  ghost predicate Conserved(
    cfg: Config, c: Counters, tally: Tally, arrived: nat, timely: nat, late: nat, pending: nat, released: nat)
  {
    && c.packets == c.accepted + c.duplicates + c.malformed + c.overflows
    && Tally(c.accepted, c.duplicates, c.overflows, c.malformed) == tally
    && c.observed == arrived
    && timely == c.overlaps + pending + released
    && c.latePackets == late
    && |c.diagnostics| + c.diagnosticOverflow == c.latePackets + c.overflows
    && |c.diagnostics| <= cfg.limits.maxDiagnostics
    && (c.diagnosticOverflow > 0 ==> |c.diagnostics| == cfg.limits.maxDiagnostics)
  }

  lemma NoteCounts(cfg: Config, c: Counters, event: Event, provenance: Provenance)
    ensures var n := Note(cfg, c, event, provenance);
            && |n.diagnostics| + n.diagnosticOverflow == |c.diagnostics| + c.diagnosticOverflow + 1
            && (|c.diagnostics| <= cfg.limits.maxDiagnostics ==> |n.diagnostics| <= cfg.limits.maxDiagnostics)
            && (|c.diagnostics| <= cfg.limits.maxDiagnostics
                && (c.diagnosticOverflow > 0 ==> |c.diagnostics| == cfg.limits.maxDiagnostics) ==>
                  (n.diagnosticOverflow > 0 ==> |n.diagnostics| == cfg.limits.maxDiagnostics))
            && n == c.(diagnostics := n.diagnostics, diagnosticOverflow := n.diagnosticOverflow)
  {
  }

  lemma AcceptConserved(
    cfg: Config, s: State, record: RtpRecord, sequence: int, timestamp: int, frames: seq<EncodedFrame>,
    tally: Tally, arrived: nat, timely: nat, late: nat, released: nat)
    requires Keyed(s.pending)
    requires Conserved(cfg, s.counters, tally, arrived, timely, late, |s.pending|, released)
    ensures var o := Accepted(sequence, timestamp, frames);
            var s' := Accept(cfg, s, record, sequence, timestamp, frames);
            Conserved(cfg, s'.counters, tally.(accepted := tally.accepted + 1), arrived + |frames|,
                      timely + |OnTime(s.committed, frames)|, late + LateOne(s, o), |s'.pending|,
                      released + |ReleasedBy(cfg, s, timestamp, frames)|)
  {
    hide InsertAll, OnTime, Overlaps, Retained, HighestAfter, ReleasedBy, Above, Note, Gaps, Keyed, BufferedAfter;
    hide WatermarkAfter, LastTimestamp, IdentityOf, Higher;
    var onTime := OnTime(s.committed, frames);
    AcceptCounts(cfg, s, record, sequence, timestamp, frames);
    var c := s.counters;
    var counted := c.(
      packets := c.packets + 1,
      accepted := c.accepted + 1,
      observed := c.observed + |frames|,
      reordered := c.reordered + (if s.highestSequence.Some? && sequence < s.highestSequence.value then 1 else 0),
      overlaps := c.overlaps + Overlaps(s.pending, onTime),
      gaps := c.gaps + Gaps(cfg.codec, s.committed, ReleasedBy(cfg, s, timestamp, frames)));
    NoteCounts(cfg, counted.(latePackets := c.latePackets + 1), LatePacket, record.provenance);
    OnTimeMembers(s.committed, frames);
  }

  function Counted(t: Tally, outcome: Outcome): Tally {
    match outcome
    case Accepted(_, _, _) => t.(accepted := t.accepted + 1)
    case Duplicate => t.(duplicates := t.duplicates + 1)
    case Overflow => t.(overflows := t.overflows + 1)
    case Malformed(_) => t.(malformed := t.malformed + 1)
  }

  /** The counters of the exits that are not accepted. */
  lemma PushCounters(cfg: Config, s: State, record: RtpRecord)
    requires !OutcomeOf(cfg, s, record).Accepted?
    ensures var c, c' := s.counters, PushRecord(cfg, s, record).state.counters;
            match OutcomeOf(cfg, s, record)
            case Duplicate => c' == c.(packets := c.packets + 1, duplicates := c.duplicates + 1)
            case Malformed(_) => c' == c.(packets := c.packets + 1, malformed := c.malformed + 1)
            case Overflow => c' == Note(cfg, c.(packets := c.packets + 1, overflows := c.overflows + 1),
                                        PacketHistoryOverflow, record.provenance)
            case Accepted(_, _, _) => true
  {
    hide OutcomeOf, Retained, Note, IdentityOf, ExtendedSequence, ExtendedTimestamp, Accept, ReleasedBy, Emissions;
  }

  lemma PushConserved(
    cfg: Config, s: State, record: RtpRecord, tally: Tally, arrived: nat, timely: nat, late: nat, released: nat)
    requires Keyed(s.pending)
    requires Conserved(cfg, s.counters, tally, arrived, timely, late, |s.pending|, released)
    ensures var p, o := PushRecord(cfg, s, record), OutcomeOf(cfg, s, record);
            Conserved(cfg, p.state.counters, Counted(tally, o), arrived + |FramesOf(o)|,
                      timely + |TimelyFrames(s.committed, o)|, late + LateOne(s, o), |p.state.pending|,
                      released + |p.released|)
  {
    hide PushRecord, OutcomeOf, Accept, ReleasedBy, OnTime, Note, Keyed;
    PushExits(cfg, s, record);
    var o := OutcomeOf(cfg, s, record);
    if o.Accepted? {
      hide Conserved;
      AcceptConserved(cfg, s, record, o.sequence, o.timestamp, o.frames, tally, arrived, timely, late, released);
    } else {
      PushCounters(cfg, s, record);
      var c := s.counters;
      NoteCounts(cfg, c.(packets := c.packets + 1, overflows := c.overflows + 1), PacketHistoryOverflow,
                 record.provenance);
    }
  }

  // ---------------------------------------------------------------------------------------------
  // Runs
  // ---------------------------------------------------------------------------------------------

  lemma ArrivedAppend(outcomes: seq<Outcome>, last: Outcome)
    ensures Arrived(outcomes + [last]) == Arrived(outcomes) + FramesOf(last)
    ensures TallyOf(outcomes + [last]) == Counted(TallyOf(outcomes), last)
  {
    assert (outcomes + [last])[..|outcomes|] == outcomes;
  }

  lemma LatePacketsUnfold(cfg: Config, records: seq<RtpRecord>)
    requires records != []
    ensures var front := records[..|records| - 1];
            var s := Run(cfg, front).state;
            LatePackets(cfg, records) == LatePackets(cfg, front) + LateOne(s, OutcomeOf(cfg, s, records[|records| - 1]))
  {
    hide Run, OutcomeOf, LateOne;
  }

  ghost predicate RunConservedAt(cfg: Config, records: seq<RtpRecord>) {
    var t := Run(cfg, records);
    Conserved(cfg, t.state.counters, TallyOf(t.outcomes), |Arrived(t.outcomes)|, |Timely(cfg, records)|,
              LatePackets(cfg, records), |t.state.pending|, |t.released|)
  }

  lemma RunKeyed(cfg: Config, records: seq<RtpRecord>)
    ensures Keyed(Run(cfg, records).state.pending)
  {
    hide Run, InsertAll, Timely;
    RunReleases(cfg, records);
    AfterKeyed(Best(Timely(cfg, records)), Run(cfg, records).state.committed);
  }

  /**
   * After any run, the four exits add up to the packets pushed; the observed frames are the late ones, the
   * overlapping ones, the pending ones and the ones released; and the diagnostics kept and dropped are the late
   * packets and the overflows.
   */
  lemma {:induction false} RunConserved(cfg: Config, records: seq<RtpRecord>)
    requires cfg.limits.Valid()
    ensures RunConservedAt(cfg, records)
  {
    hide Run, PushRecord, OutcomeOf, Arrived, TallyOf, Timely, LatePackets, Conserved, Counted, LateOne, Keyed;
    if records == [] {
      NothingConserved(cfg);
    } else {
      var front, last := records[..|records| - 1], records[|records| - 1];
      var t := Run(cfg, front);
      RunConserved(cfg, front);
      RunKeyed(cfg, front);
      RunUnfold(cfg, records);
      PushOutcome(cfg, t.state, last);
      LatePacketsUnfold(cfg, records);
      ArrivedAppend(t.outcomes, OutcomeOf(cfg, t.state, last));
      PushConserved(cfg, t.state, last, TallyOf(t.outcomes), |Arrived(t.outcomes)|, |Timely(cfg, front)|,
                    LatePackets(cfg, front), |t.released|);
    }
  }

  lemma NothingConserved(cfg: Config)
    requires cfg.limits.Valid()
    ensures RunConservedAt(cfg, [])
  {
  }

  /** The frames observed are exactly the late, the overlapping and the committed ones once the run is finished. */
  lemma FinishConserved(cfg: Config, records: seq<RtpRecord>)
    requires cfg.limits.Valid()
    ensures var t := Complete(cfg, records);
            var c := t.state.counters;
            && c.packets == |records| == c.accepted + c.duplicates + c.malformed + c.overflows
            && LateFrames(cfg, records) >= 0
            && c.observed == LateFrames(cfg, records) + c.overlaps + |t.released|
            && c.latePackets == LatePackets(cfg, records)
            && |c.diagnostics| + c.diagnosticOverflow == c.latePackets + c.overflows
            && |c.diagnostics| <= cfg.limits.maxDiagnostics
            && (c.diagnosticOverflow > 0 ==> |c.diagnostics| == cfg.limits.maxDiagnostics)
  {
    hide Run, Arrived, TallyOf, Timely, LatePackets, LateFrames, InOrder, Gaps, CommittedAfter, Emissions;
    RunConserved(cfg, records);
    RunEmits(cfg, records);
    RunPackets(cfg, records);
    LateFramesRest(cfg, records);
    var t := Run(cfg, records);
    assert |InOrder(t.state.pending)| == |t.state.pending|;
  }

  lemma {:induction false} TallyTotal(outcomes: seq<Outcome>)
    ensures var t := TallyOf(outcomes); t.accepted + t.duplicates + t.overflows + t.malformed == |outcomes|
  {
    if outcomes != [] {
      TallyTotal(outcomes[..|outcomes| - 1]);
    }
  }

  lemma RunPackets(cfg: Config, records: seq<RtpRecord>)
    requires cfg.limits.Valid()
    ensures Run(cfg, records).state.counters.packets == |records|
  {
    hide Run, TallyOf, Arrived, Timely, LatePackets;
    RunConserved(cfg, records);
    TallyTotal(Run(cfg, records).outcomes);
  }

  lemma LateFramesUnfold(cfg: Config, records: seq<RtpRecord>)
    requires records != []
    ensures var front := records[..|records| - 1];
            var s := Run(cfg, front).state;
            var o := OutcomeOf(cfg, s, records[|records| - 1]);
            LateFrames(cfg, records) == LateFrames(cfg, front) + |FramesOf(o)| - |TimelyFrames(s.committed, o)|
  {
    hide Run, OutcomeOf, FramesOf, TimelyFrames;
  }

  /** The frames that arrived are the late ones and the ones that entered the buffer. */
  lemma {:induction false} LateFramesRest(cfg: Config, records: seq<RtpRecord>)
    ensures LateFrames(cfg, records) >= 0
    ensures LateFrames(cfg, records) + |Timely(cfg, records)| == |Arrived(Run(cfg, records).outcomes)|
  {
    hide Run, PushRecord, OutcomeOf, Timely, OnTime, Arrived, LateFrames;
    if records == [] {
      NothingTimely(cfg);
    } else {
      var front, last := records[..|records| - 1], records[|records| - 1];
      var t := Run(cfg, front);
      LateFramesRest(cfg, front);
      RunUnfold(cfg, records);
      PushOutcome(cfg, t.state, last);
      var o := OutcomeOf(cfg, t.state, last);
      ArrivedAppend(t.outcomes, o);
      LateFramesUnfold(cfg, records);
      OnTimeMembers(t.state.committed, FramesOf(o));
    }
  }

  lemma NothingTimely(cfg: Config)
    ensures Timely(cfg, []) == [] && LateFrames(cfg, []) == 0 && Arrived(Run(cfg, []).outcomes) == []
  {
  }

  // ---------------------------------------------------------------------------------------------
  // Nothing is late inside the window
  // ---------------------------------------------------------------------------------------------

  /** Each accepted packet starts after the highest timestamp before it less the window. */
  ghost predicate ArrivesInWindow(cfg: Config, s: State, outcome: Outcome) {
    outcome.Accepted? && s.highestTimestamp.Some? ==>
      outcome.timestamp > s.highestTimestamp.value - cfg.limits.reorderWindow * TimestampStep(cfg.codec)
  }

  ghost predicate AllInWindow(cfg: Config, records: seq<RtpRecord>) {
    forall i | 0 <= i < |records| ::
      ArrivesInWindow(cfg, Run(cfg, records[..i]).state, OutcomeOf(cfg, Run(cfg, records[..i]).state, records[i]))
  }

  lemma InWindowOnTime(cfg: Config, s: State, record: RtpRecord)
    requires InWindow(cfg, s) && ArrivesInWindow(cfg, s, OutcomeOf(cfg, s, record))
    ensures var o := OutcomeOf(cfg, s, record);
            TimelyFrames(s.committed, o) == FramesOf(o) && LateOne(s, o) == 0
  {
    hide OutcomeOf, OnTime, TimestampStep, Spaced, ExtendedSequence, ExtendedTimestamp, Retained, Holds;
    var o := OutcomeOf(cfg, s, record);
    if o.Accepted? {
      AcceptedPacket(cfg, s, record);
      SpacedLast(o.frames, o.timestamp, TimestampStep(cfg.codec));
      AllOnTime(s.committed, o.frames);
    }
  }

  lemma AllInWindowFront(cfg: Config, records: seq<RtpRecord>)
    requires records != [] && AllInWindow(cfg, records)
    ensures var front := records[..|records| - 1];
            && AllInWindow(cfg, front)
            && ArrivesInWindow(cfg, Run(cfg, front).state,
                               OutcomeOf(cfg, Run(cfg, front).state, records[|records| - 1]))
  {
    hide Run, OutcomeOf, ArrivesInWindow;
    var front := records[..|records| - 1];
    forall i | 0 <= i < |front|
      ensures ArrivesInWindow(cfg, Run(cfg, front[..i]).state, OutcomeOf(cfg, Run(cfg, front[..i]).state, front[i]))
    {
      assert front[..i] == records[..i];
    }
    var n := |records| - 1;
    assert ArrivesInWindow(cfg, Run(cfg, records[..n]).state, OutcomeOf(cfg, Run(cfg, records[..n]).state, records[n]));
  }

  /**
   * If every accepted packet arrives inside the window, no frame is late: everything that arrived entered the buffer.
   */
  lemma {:induction false} NothingLate(cfg: Config, records: seq<RtpRecord>)
    requires cfg.limits.Valid() && AllInWindow(cfg, records)
    ensures Timely(cfg, records) == Arrived(Run(cfg, records).outcomes)
    ensures LatePackets(cfg, records) == 0
  {
    hide Run, PushRecord, OutcomeOf, Timely, OnTime, Arrived, AllInWindow, ArrivesInWindow, InWindow, LatePackets;
    hide LateOne;
    hide TimelyFrames;
    if records == [] {
      NothingTimely(cfg);
      NothingLateAtFirst(cfg);
    } else {
      var front, last := records[..|records| - 1], records[|records| - 1];
      var t := Run(cfg, front);
      AllInWindowFront(cfg, records);
      NothingLate(cfg, front);
      RunUnfold(cfg, records);
      RunInWindow(cfg, front);
      PushOutcome(cfg, t.state, last);
      InWindowOnTime(cfg, t.state, last);
      ArrivedAppend(t.outcomes, OutcomeOf(cfg, t.state, last));
      LatePacketsUnfold(cfg, records);
    }
  }

  lemma NothingLateAtFirst(cfg: Config)
    ensures LatePackets(cfg, []) == 0 && Arrived(Run(cfg, []).outcomes) == []
  {
  }

  /**
   * Inside the window, buffering is sorting everything that was accepted: the released frames are, in timestamp
   * order, the best of all accepted frames at each timestamp.
   */
  lemma BufferingRefinesSorting(cfg: Config, records: seq<RtpRecord>)
    requires cfg.limits.Valid() && AllInWindow(cfg, records)
    ensures Complete(cfg, records).released == InOrder(Best(Arrived(Run(cfg, records).outcomes)))
    ensures Complete(cfg, records).state.counters.latePackets == 0
  {
    hide Run, Complete, Arrived, AllInWindow, InOrder, Timely, LatePackets, Emissions, Gaps, InsertAll;
    CompleteIsSorting(cfg, records);
    NothingLate(cfg, records);
    FinishConserved(cfg, records);
  }
}
