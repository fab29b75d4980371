/** Extracting what discovery selected: the second pass over the same records (discovery.py, api.py). */
module SecondPass {
  import opened Models
  import opened Retention
  import opened Rfc4867
  import opened Timeline
  import opened Windows
  import opened Histories
  import opened Accounts
  import opened Reordering
  import opened FirstArrivals
  import opened Discovery
  import opened Findings
  import opened Ranking
  import opened Shuffling
  import opened Selection
  import opened TimelineRouters

  lemma {:induction false} FlowRecordsSighted(records: seq<RtpRecord>, key: FlowKey)
    ensures |FlowRecords(records, key)| == |OfFlow(records, key)|
    ensures forall i | 0 <= i < |FlowRecords(records, key)| ::
              FlowRecords(records, key)[i] == OfFlow(records, key)[i].record
  {
    if records != [] {
      FlowRecordsSighted(records[..|records| - 1], key);
    }
  }

  lemma {:induction false} TallyAccepted(outcomes: seq<Outcome>, i: nat)
    requires i < |outcomes| && outcomes[i].Accepted?
    ensures TallyOf(outcomes).accepted >= 1
  {
    if i < |outcomes| - 1 {
      TallyAccepted(outcomes[..|outcomes| - 1], i);
    }
  }

  lemma {:induction false} TallyNotMalformed(outcomes: seq<Outcome>)
    requires forall i | 0 <= i < |outcomes| :: !outcomes[i].Malformed?
    ensures TallyOf(outcomes).malformed == 0
  {
    if outcomes != [] {
      TallyNotMalformed(outcomes[..|outcomes| - 1]);
    }
  }

  lemma ReadableCount(cfg: Config, payload: Bytes)
    requires Reads(payload, Format(cfg.codec, cfg.mode))
    ensures FrameCount(cfg, payload) > 0
  {
    hide Bodies, Encode;
    AcceptedIffEncoding(cfg.codec, cfg.mode, payload, Bodies(cfg.codec, cfg.mode, payload).value);
  }

  /** A flow whose first payload reads gets at least that packet accepted. */
  lemma FirstAccepted(cfg: Config, records: seq<RtpRecord>)
    requires cfg.limits.Valid() && records != [] && FrameCount(cfg, records[0].payload) > 0
    ensures Run(cfg, records).state.counters.accepted >= 1
  {
    hide Run, OutcomeOf, Reads, FrameCount, Arrived, Timely, TallyOf, Retained, Holds, HistoryLimit;
    OutcomeAt(cfg, records, 0);
    assert records[..0] == [];
    FirstEver(cfg, records[0]);
    AcceptedWhen(cfg, Run(cfg, []).state, records[0]);
    TallyAccepted(Run(cfg, records).outcomes, 0);
    RunConserved(cfg, records);
  }

  /** A flow whose payloads all read has no malformed packet. */
  lemma NoneMalformed(cfg: Config, records: seq<RtpRecord>)
    requires cfg.limits.Valid()
    requires forall i | 0 <= i < |records| :: FrameCount(cfg, records[i].payload) > 0
    ensures Run(cfg, records).state.counters.malformed == 0
  {
    hide Run, OutcomeOf, Reads, FrameCount, Arrived, Timely, TallyOf;
    var outcomes := Run(cfg, records).outcomes;
    forall i | 0 <= i < |outcomes| ensures !outcomes[i].Malformed? {
      OutcomeAt(cfg, records, i);
      ReadableNotMalformed(cfg, Run(cfg, records[..i]).state, records[i]);
    }
    TallyNotMalformed(outcomes);
    RunConserved(cfg, records);
  }

  lemma ReportsShape(r: DiscoveryResult, limits: ResourceLimits, selector: FlowSelector, records: seq<RtpRecord>)
    requires Reports(r, limits, ScanOf(selector, limits, records))
    ensures WellShaped(r.candidates) && OnePerFlow(r.candidates)
  {
    hide ScanOf, Freeze, Ranked, Kept;
    var t := ScanOf(selector, limits, records);
    ScanTidy(selector, limits, records);
    RankedOnce(r.candidates, t.states);
    forall c | c in r.candidates ensures |c.formats| == |FORMATS| {
      FrozenFlow(t.states[c.flow]);
    }
  }

  /** Whatever is selected is a candidate with a fitting format. */
  lemma SelectedFits(result: DiscoveryResult, selector: FlowSelector, request: Request, x: SelectedFlow)
    returns (c: FlowCandidate)
    requires WellShaped(result.candidates) && OnePerFlow(result.candidates)
    requires Select(result, selector, request).Ok? && x in Select(result, selector, request).value
    ensures c in result.candidates && selector.MatchesFlow(c.flow) && Fits(c, request, x.format)
    ensures x == SelectionOf(c, x.format)
  {
    hide Select, Fits, OnePerFlow, FlowSelector.MatchesFlow;
    SelectedNoOverflow(result, selector, request);
    var selected := Select(result, selector, request).value;
    if selector.IsPortFilter() {
      PortSelectionExact(result, selector, request);
      var i :| 0 <= i < |selected| && selected[i] == x;
      c := MatchingCandidates(result.candidates, selector)[i];
      assert c in MatchingCandidates(result.candidates, selector);
    } else {
      SingleSelectionExact(result, selector, request);
      c :| OnlyOption(result, selector, request, c, selected[0].format)
           && selected == [SelectionOf(c, selected[0].format)];
    }
  }

  lemma SelectedNoOverflow(result: DiscoveryResult, selector: FlowSelector, request: Request)
    requires WellShaped(result.candidates) && Select(result, selector, request).Ok?
    ensures result.candidateOverflow == 0
  {
    hide SelectEach, SelectOne, MatchingCandidates;
  }

  /**
   * A selected flow gets at least one packet accepted in the second pass over the same records, and none malformed
   * when all its packets were sampled.
   */
  lemma SelectionExtractsCleanly(
    selector: FlowSelector, limits: ResourceLimits, records: seq<RtpRecord>, result: DiscoveryResult,
    request: Request, x: SelectedFlow, policy: GapPolicy)
    requires limits.Valid() && Reports(result, limits, ScanOf(selector, limits, records))
    requires WellShaped(result.candidates)
    requires Select(result, selector, request).Ok? && x in Select(result, selector, request).value
    ensures var cfg := Config(x.flow, x.format.codec, x.format.mode, policy, limits);
            var counters := Run(cfg, FlowRecords(records, x.flow)).state.counters;
            && counters.accepted >= 1
            && (result.sampleOverflow == 0 ==> counters.malformed == 0)
            && exists c ::
                 c in result.candidates && c.flow == x.flow && (c.sampleOverflow == 0 ==> counters.malformed == 0)
  {
    hide ScanOf, Run, Select, Fits, OfFlow, Reads, FlowSelector.MatchesFlow, Kept, Ranked, Freeze, OnePerFlow;
    hide FlowRecords;
    hide FrameCount;
    ReportsShape(result, limits, selector, records);
    var c := SelectedFits(result, selector, request, x);
    var t, k := ScanOf(selector, limits, records), x.flow;
    FrozenFlow(t.states[k]);
    FitsValid(c, request, x.format, t.states[k]);
    ValidIff(selector, limits, records, k, x.format);
    CandidateWeighed(selector, limits, records, k, x.format);
    FlowRecordsSighted(records, k);
    var cfg := Config(k, x.format.codec, x.format.mode, policy, limits);
    assert x.format == Format(cfg.codec, cfg.mode);
    assert OfFlow(records, k)[0] == Samples(limits, OfFlow(records, k))[0];
    ReadableCount(cfg, FlowRecords(records, k)[0].payload);
    FirstAccepted(cfg, FlowRecords(records, k));
    if c.sampleOverflow == 0 {
      assert Samples(limits, OfFlow(records, k)) == OfFlow(records, k);
      forall i | 0 <= i < |FlowRecords(records, k)| ensures FrameCount(cfg, FlowRecords(records, k)[i].payload) > 0 {
        ReadableCount(cfg, FlowRecords(records, k)[i].payload);
      }
      NoneMalformed(cfg, FlowRecords(records, k));
    }
    NoSampleOverflow(selector, limits, records, k);
  }

  /** A selection is named after its flow and the least number that the flow's packets bring. */
  lemma SelectionNamed(
    selector: FlowSelector, limits: ResourceLimits, records: seq<RtpRecord>, result: DiscoveryResult,
    request: Request, x: SelectedFlow)
    requires limits.Valid() && Reports(result, limits, ScanOf(selector, limits, records))
    requires WellShaped(result.candidates)
    requires Select(result, selector, request).Ok? && x in Select(result, selector, request).value
    ensures x.id == CandidateId(x.firstPacketNumber, x.flow)
    ensures LeastBrought(OfFlow(records, x.flow), x.firstPacketNumber)
  {
    hide ScanOf, Select, Fits, OfFlow, FlowSelector.MatchesFlow, Kept, Ranked, Freeze, OnePerFlow, LeastBrought;
    ReportsShape(result, limits, selector, records);
    var c := SelectedFits(result, selector, request, x);
    FrozenFlow(ScanOf(selector, limits, records).states[x.flow]);
    CandidateNamed(selector, limits, records, x.flow);
  }

  lemma FitsValid(c: FlowCandidate, request: Request, format: Format, candidate: Candidate)
    requires Fits(c, request, format) && CoversFormats(candidate.verdicts) && c == Freeze(candidate)
    ensures candidate.verdicts[format].IsValid()
  {
  }

  lemma {:induction false} NoSampleOverflow(
    selector: FlowSelector, limits: ResourceLimits, records: seq<RtpRecord>, key: FlowKey)
    requires key in ScanOf(selector, limits, records).states
    ensures ScanOf(selector, limits, records).states[key].sampleOverflow
            <= ScanOf(selector, limits, records).sampleOverflow
  {
    hide Judged, Rejections, FlowSelector.MatchesFlow;
    if records != [] {
      var front := records[..|records| - 1];
      if key in ScanOf(selector, limits, front).states {
        NoSampleOverflow(selector, limits, front, key);
      }
    }
  }
}
