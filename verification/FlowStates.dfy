/** One selected flow during an extraction: its normalizer, its counters and its report (api.py). */
module FlowStates {
  import opened Models
  import opened Retention
  import opened Timeline
  import opened Emitting
  import opened Accounts
  import opened TimelineNormalizers
  import opened TimelineRouters
  import opened Ranking

  /** TimelineDiagnostic: the reason as text, and where it happened. */
  datatype Report = Report(reason: string, provenance: Provenance)

  function ReasonText(reason: Reason): string {
    match reason
    case ShortHeader => "short-header"
    case NonzeroPadding => "nonzero-padding"
    case IncompleteToc => "incomplete-toc"
    case InvalidFrameType => "invalid-frame-type"
    case TruncatedSpeechData => "truncated-speech-data"
    case TrailingData => "trailing-data"
    case InvalidFrameLength => "invalid-frame-length"
    case CodecMismatch => "codec-mismatch"
  }

  function EventText(event: Event): string {
    match event
    case LatePacket => "late-packet"
    case PacketHistoryOverflow => "packet-history-overflow"
  }

  const MALFORMED_RTP := "malformed-rtp"

  function EventReports(diagnostics: seq<Diagnostic>): (reports: seq<Report>)
    ensures |reports| == |diagnostics|
  {
    seq(|diagnostics|, i requires 0 <= i < |diagnostics| =>
      Report(EventText(diagnostics[i].event), diagnostics[i].provenance))
  }

  // ---------------------------------------------------------------------------------------------
  // Sorting reports
  // ---------------------------------------------------------------------------------------------

  const NO_NUMBER: int := 0x8000_0000_0000_0000

  function ReportNumber(report: Report): int {
    if report.provenance.packetNumber.Some? then report.provenance.packetNumber.value else NO_NUMBER
  }

  /** The sort key of _combined_diagnostics. */
  predicate ReportsBefore(a: Report, b: Report) {
    ReportNumber(a) < ReportNumber(b) || (ReportNumber(a) == ReportNumber(b) && TextBefore(a.reason, b.reason))
  }

  predicate InOrderOfCapture(s: seq<Report>) {
    forall i, j | 0 <= i < j < |s| :: !ReportsBefore(s[j], s[i])
  }

  lemma ReportOrder(a: Report, b: Report, c: Report)
    ensures !ReportsBefore(a, a)
    ensures ReportsBefore(a, b) ==> !ReportsBefore(b, a)
    ensures !ReportsBefore(b, a) && !ReportsBefore(c, b) ==> !ReportsBefore(c, a)
  {
    hide TextBefore;
    TextOrder(a.reason, b.reason, a.reason);
    TextOrder(b.reason, a.reason, b.reason);
    TextOrder(c.reason, a.reason, b.reason);
    TextOrder(a.reason, c.reason, b.reason);
    TextOrder(c.reason, b.reason, a.reason);
    TextOrder(b.reason, c.reason, a.reason);
  }

  predicate SameRank(a: Report, b: Report) {
    !ReportsBefore(a, b) && !ReportsBefore(b, a)
  }

  /** The reports that sort with this one, in their order. */
  function Level(s: seq<Report>, r: Report): seq<Report> {
    if s == [] then []
    else
      var last := s[|s| - 1];
      Level(s[..|s| - 1], r) + (if SameRank(last, r) then [last] else [])
  }

  lemma {:induction false} LevelJoin(a: seq<Report>, b: seq<Report>, r: Report)
    ensures Level(a + b, r) == Level(a, r) + Level(b, r)
  {
    hide SameRank;
    if b == [] {
      assert a + b == a;
    } else {
      LevelJoin(a, b[..|b| - 1], r);
      assert (a + b)[..|a + b| - 1] == a + b[..|b| - 1];
    }
  }

  lemma LevelOne(x: Report, r: Report)
    ensures Level([x], r) == if SameRank(x, r) then [x] else []
  {
    assert [x][..0] == [];
  }

  lemma {:induction false} LevelNone(s: seq<Report>, x: Report, r: Report)
    requires SameRank(x, r) && forall j | 0 <= j < |s| :: ReportsBefore(x, s[j])
    ensures Level(s, r) == []
  {
    if s != [] {
      hide ReportsBefore, Level;
      var last := s[|s| - 1];
      LevelNone(s[..|s| - 1], x, r);
      ReportOrder(x, r, last);
      ReportOrder(last, r, x);
      LevelLast(s, r);
    }
  }

  lemma LevelLast(s: seq<Report>, r: Report)
    requires s != []
    ensures Level(s, r) == Level(s[..|s| - 1], r) + (if SameRank(s[|s| - 1], r) then [s[|s| - 1]] else [])
  {
    hide SameRank;
  }

  /** Sorting keeps the order of reports that sort together. */
  ghost predicate Stable(sorted: seq<Report>, reports: seq<Report>) {
    forall r :: Level(sorted, r) == Level(reports, r)
  }

  lemma InsertStable(s: seq<Report>, i: nat, x: Report)
    requires i <= |s| && forall j | i <= j < |s| :: ReportsBefore(x, s[j])
    ensures Stable(s[..i] + [x] + s[i..], s + [x])
  {
    hide ReportsBefore, Level;
    forall r ensures Level(s[..i] + [x] + s[i..], r) == Level(s + [x], r) {
      LevelJoin(s[..i] + [x], s[i..], r);
      LevelJoin(s[..i], [x], r);
      LevelJoin(s, [x], r);
      LevelJoin(s[..i], s[i..], r);
      assert s == s[..i] + s[i..];
      LevelOne(x, r);
      if SameRank(x, r) {
        LevelNone(s[i..], x, r);
      }
    }
  }

  lemma StableStep(s: seq<Report>, front: seq<Report>, x: Report, t: seq<Report>)
    requires Stable(s, front) && Stable(t, s + [x])
    ensures Stable(t, front + [x])
  {
    hide Level;
    forall r ensures Level(t, r) == Level(front + [x], r) {
      LevelJoin(s, [x], r);
      LevelJoin(front, [x], r);
    }
  }

  method InsertReport(s: seq<Report>, r: Report) returns (t: seq<Report>)
    requires InOrderOfCapture(s)
    ensures InOrderOfCapture(t) && multiset(t) == multiset(s) + multiset{r} && Stable(t, s + [r])
  {
    hide ReportsBefore, Stable;
    var i := |s|;
    while i > 0 && ReportsBefore(r, s[i - 1])
      invariant 0 <= i <= |s|
      invariant forall j | i <= j < |s| :: ReportsBefore(r, s[j])
    {
      i := i - 1;
    }
    t := s[..i] + [r] + s[i..];
    ReportInserted(s, i, r);
    InsertStable(s, i, r);
    assert s == s[..i] + s[i..];
  }

  lemma ReportInserted(s: seq<Report>, i: nat, r: Report)
    requires i <= |s| && InOrderOfCapture(s)
    requires forall j | i <= j < |s| :: ReportsBefore(r, s[j])
    requires i > 0 ==> !ReportsBefore(r, s[i - 1])
    ensures InOrderOfCapture(s[..i] + [r] + s[i..])
  {
    hide ReportsBefore;
    forall j | i <= j < |s| ensures !ReportsBefore(s[j], r) {
      ReportOrder(r, s[j], r);
    }
    forall j | 0 <= j < i ensures !ReportsBefore(r, s[j]) {
      if j < i - 1 {
        ReportOrder(s[j], s[i - 1], r);
      }
    }
  }

  method SortReports(reports: seq<Report>) returns (s: seq<Report>)
    ensures InOrderOfCapture(s) && multiset(s) == multiset(reports) && |s| == |reports| && Stable(s, reports)
  {
    hide InOrderOfCapture, Stable;
    s := [];
    NothingSortedYet();
    for i := 0 to |reports|
      invariant InOrderOfCapture(s) && multiset(s) == multiset(reports[..i]) && |s| == i && Stable(s, reports[..i])
    {
      assert reports[..i + 1] == reports[..i] + [reports[i]];
      ghost var before := s;
      s := InsertReport(s, reports[i]);
      StableStep(before, reports[..i], reports[i], s);
      assert |multiset(s)| == |multiset(before)| + 1;
    }
    assert reports[..|reports|] == reports;
  }

  lemma NothingSortedYet()
    ensures InOrderOfCapture([]) && Stable([], [])
  {
  }

  // ---------------------------------------------------------------------------------------------
  // The state of one flow
  // ---------------------------------------------------------------------------------------------

  /** The packet number of the first record that has one. */
  function FirstNumber(records: seq<RtpRecord>): Option<int> {
    if records == [] then None
    else
      var first := FirstNumber(records[..|records| - 1]);
      if first.Some? then first else records[|records| - 1].provenance.packetNumber
  }

  /** The error a push raises. */
  function ErrorsOfPush(outcome: Outcome, provenance: Provenance): seq<Report> {
    match outcome
    case Malformed(reason) => [Report(ReasonText(reason), provenance)]
    case _ => []
  }

  class FlowState {
    const normalizer: TimelineNormalizer

    var selectedRtpPacketCount: nat
    var malformedRtpCount: nat
    var diagnostics: seq<Report>
    var diagnosticOverflowCount: nat
    var firstPacketNumber: Option<int>

    ghost predicate Valid()
      reads this, normalizer
    {
      && normalizer.Valid()
      && selectedRtpPacketCount == |normalizer.log|
      && firstPacketNumber == FirstNumber(normalizer.log)
      && |diagnostics| + diagnosticOverflowCount == malformedRtpCount + normalizer.counters.malformed
      && (diagnosticOverflowCount > 0 ==> |diagnostics| >= normalizer.cfg.limits.maxDiagnostics)
    }

    /** Between packets: everything emitted so far has been handed on. */
    ghost predicate Idle()
      reads normalizer
    {
      !normalizer.finished && normalizer.output == [] && !normalizer.outputPending
    }

    constructor (cfg: Config)
      ensures Valid() && Idle() && fresh(normalizer) && normalizer.cfg == cfg
      ensures normalizer.log == [] && normalizer.drained == []
      ensures malformedRtpCount == 0 && normalizer.counters.malformed == 0 && diagnostics == []
    {
      normalizer := new TimelineNormalizer(cfg);
      selectedRtpPacketCount, malformedRtpCount, diagnosticOverflowCount := 0, 0, 0;
      diagnostics, firstPacketNumber := [], None;
    }

    /** The diagnostics once these errors have been retained, while there is room. */
    function Appended(diagnostics: seq<Report>, errors: seq<Report>): seq<Report> {
      if |diagnostics| < normalizer.cfg.limits.maxDiagnostics then diagnostics + errors else diagnostics
    }

    /** _retain_error. */
    method RetainError(reason: string, provenance: Provenance)
      modifies `diagnostics, `diagnosticOverflowCount
      ensures |diagnostics| + diagnosticOverflowCount == old(|diagnostics| + diagnosticOverflowCount) + 1
      ensures diagnostics == Appended(old(diagnostics), [Report(reason, provenance)])
      ensures diagnosticOverflowCount > old(diagnosticOverflowCount) ==>
                |diagnostics| >= normalizer.cfg.limits.maxDiagnostics
      ensures diagnosticOverflowCount >= old(diagnosticOverflowCount) && |diagnostics| >= old(|diagnostics|)
    {
      if |diagnostics| < normalizer.cfg.limits.maxDiagnostics {
        diagnostics := diagnostics + [Report(reason, provenance)];
      } else {
        diagnosticOverflowCount := diagnosticOverflowCount + 1;
      }
    }

    /** An RTP datagram of this flow that could not be parsed. */
    method CountMalformed(provenance: Provenance)
      requires Valid()
      modifies this
      ensures Valid() && malformedRtpCount == old(malformedRtpCount) + 1
      ensures diagnostics == Appended(old(diagnostics), [Report(MALFORMED_RTP, provenance)])
    {
      hide TimelineNormalizer.Valid;
      malformedRtpCount := malformedRtpCount + 1;
      RetainError(MALFORMED_RTP, provenance);
    }

    /** One record of this flow: counted and pushed, with the error that raises. */
    method Admit(record: RtpRecord) returns (raised: bool)
      requires Valid() && Idle() && record.flowKey == normalizer.cfg.flow
      modifies this, normalizer
      ensures Valid() && !normalizer.finished && malformedRtpCount == old(malformedRtpCount)
      ensures normalizer.log == old(normalizer.log) + [record] && normalizer.drained == old(normalizer.drained)
      ensures var p := PushRecord(normalizer.cfg, old(normalizer.Now()), record);
              && raised == p.outcome.Malformed? && normalizer.output == p.emitted
              && diagnostics == Appended(old(diagnostics), ErrorsOfPush(p.outcome, record.provenance))
      ensures normalizer.counters.malformed == old(normalizer.counters.malformed) + (if raised then 1 else 0)
    {
      hide TimelineNormalizer.Valid, PushRecord, FirstNumber;
      PushMalformed(normalizer.cfg, normalizer.Now(), record);
      selectedRtpPacketCount := selectedRtpPacketCount + 1;
      if firstPacketNumber.None? && record.provenance.packetNumber.Some? {
        firstPacketNumber := Some(record.provenance.packetNumber.value);
      }
      FirstNumberStep(normalizer.log, record);
      var exit := normalizer.Push(record);
      raised := exit.Raised?;
      if raised {
        RetainError(ReasonText(exit.reason), record.provenance);
      }
    }

    /** One record of this flow: pushed, and everything it makes safe to commit handed on. */
    method Take(record: RtpRecord) returns (frames: seq<EncodedFrame>, raised: bool)
      requires Valid() && Idle() && record.flowKey == normalizer.cfg.flow
      modifies this, normalizer
      ensures Valid() && Idle() && malformedRtpCount == old(malformedRtpCount)
      ensures normalizer.log == old(normalizer.log) + [record]
      ensures var p := PushRecord(normalizer.cfg, old(normalizer.Now()), record);
              && raised == p.outcome.Malformed?
              && frames == FramesIn(p.emitted) && normalizer.drained == old(normalizer.drained) + p.emitted
              && diagnostics == Appended(old(diagnostics), ErrorsOfPush(p.outcome, record.provenance))
      ensures normalizer.counters.malformed == old(normalizer.counters.malformed) + (if raised then 1 else 0)
    {
      hide TimelineNormalizer.Valid, PushRecord, FirstNumber, FlowState.Appended;
      raised := Admit(record);
      frames := normalizer.Drain();
    }

    /** After the last record: the rest of the flow's frames. */
    method Close() returns (frames: seq<EncodedFrame>)
      requires Valid() && Idle()
      modifies normalizer
      ensures Valid() && normalizer.finished && normalizer.output == []
      ensures normalizer.log == old(normalizer.log)
              && normalizer.counters.malformed == old(normalizer.counters.malformed)
      ensures normalizer.drained == Complete(normalizer.cfg, normalizer.log).emitted
      ensures FramesIn(normalizer.drained) == FramesIn(old(normalizer.drained)) + frames
    {
      hide TimelineNormalizer.Valid, Complete;
      frames := Settle(normalizer, normalizer.log, normalizer.drained, []);
    }

    /** _combined_diagnostics: errors and timeline events in capture order, the earliest kept, the surplus counted. */
    method Combined() returns (reports: seq<Report>, overflow: nat)
      requires Valid() && normalizer.finished && normalizer.cfg.limits.Valid()
      ensures EarliestOf(reports, diagnostics + EventReports(normalizer.counters.diagnostics), normalizer.cfg.limits)
      ensures var total := malformedRtpCount + normalizer.counters.malformed
                           + normalizer.counters.latePackets + normalizer.counters.overflows;
              && |reports| + overflow == total
              && |reports| == (if total < normalizer.cfg.limits.maxDiagnostics then total
                               else normalizer.cfg.limits.maxDiagnostics)
    {
      hide TimelineNormalizer.Mirrored, TimelineNormalizer.Drained, InOrderOfCapture, Complete;
      FinishedEvents(normalizer);
      var limit := normalizer.cfg.limits.maxDiagnostics;
      var sorted := SortReports(diagnostics + EventReports(normalizer.counters.diagnostics));
      overflow := diagnosticOverflowCount + normalizer.counters.diagnosticOverflow;
      if |sorted| > limit {
        overflow := overflow + |sorted| - limit;
      }
      reports := Kept(normalizer.cfg.limits, sorted);
    }
  }

  /** The reports sorted stably into capture order, cut to the limit. */
  ghost predicate EarliestOf(reports: seq<Report>, all: seq<Report>, limits: ResourceLimits) {
    exists sorted ::
      && InOrderOfCapture(sorted) && multiset(sorted) == multiset(all) && Stable(sorted, all)
      && reports == Kept(limits, sorted)
  }

  /**
   * As many reports are kept as fit, in capture order, and none that is dropped comes before one that is kept, by the
   * sort key or, with equal keys, by the order in which they were noted.
   */
  lemma EarliestMeans(reports: seq<Report>, all: seq<Report>, limits: ResourceLimits) returns (dropped: seq<Report>)
    requires EarliestOf(reports, all, limits) && limits.Valid()
    ensures |reports| == (if |all| < limits.maxDiagnostics then |all| else limits.maxDiagnostics)
    ensures InOrderOfCapture(reports) && multiset(reports) + multiset(dropped) == multiset(all)
    ensures forall r, d | r in reports && d in dropped :: !ReportsBefore(d, r)
    ensures forall r :: Level(reports, r) + Level(dropped, r) == Level(all, r)
  {
    hide ReportsBefore, Level;
    var sorted :|
      && InOrderOfCapture(sorted) && multiset(sorted) == multiset(all) && Stable(sorted, all)
      && reports == Kept(limits, sorted);
    dropped := sorted[|reports|..];
    assert sorted == reports + dropped;
    assert |multiset(sorted)| == |multiset(all)|;
    forall r ensures Level(reports, r) + Level(dropped, r) == Level(all, r) {
      LevelJoin(reports, dropped, r);
    }
    forall r, d | r in reports && d in dropped ensures !ReportsBefore(d, r) {
      var i :| 0 <= i < |reports| && reports[i] == r;
      var j :| 0 <= j < |dropped| && dropped[j] == d;
      assert sorted[i] == r && sorted[|reports| + j] == d;
    }
  }

  lemma FirstNumberStep(records: seq<RtpRecord>, record: RtpRecord)
    ensures FirstNumber(records + [record])
            == if FirstNumber(records).Some? then FirstNumber(records) else record.provenance.packetNumber
  {
    assert (records + [record])[..|records|] == records;
  }

  lemma PushMalformed(cfg: Config, s: State, record: RtpRecord)
    ensures var p := PushRecord(cfg, s, record);
            && p.state.counters.malformed == s.counters.malformed + (if p.outcome.Malformed? then 1 else 0)
            && p.state.finished == s.finished
  {
    hide OutcomeOf, ReleasedBy, Retained, Gaps, Overlaps, Emissions;
  }

  /** The timeline's diagnostics are its late packets and its overflows. */
  lemma FinishedEvents(n: TimelineNormalizer)
    requires n.Valid() && n.finished && n.cfg.limits.Valid()
    ensures |n.counters.diagnostics| + n.counters.diagnosticOverflow == n.counters.latePackets + n.counters.overflows
    ensures n.counters.diagnosticOverflow > 0 ==> |n.counters.diagnostics| >= n.cfg.limits.maxDiagnostics
  {
    hide Run, Emissions, Gaps, InOrder, Arrived, Timely, TimelineNormalizer.Mirrored, TimelineNormalizer.Drained;
    RunConserved(n.cfg, n.log);
  }
}
