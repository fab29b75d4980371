/** Speech restored from a capture whose flow nobody named: discovery, selection and extraction together. */
module Discovered {
  import opened Models
  import opened CodecTables
  import opened Rfc4867
  import opened Timeline
  import opened Windows
  import opened Wraps
  import opened Delivery
  import opened EndToEnd
  import opened StoredRuns
  import opened Storage
  import opened Filling
  import opened Speaking
  import opened Discovery
  import opened Findings
  import opened Ranking
  import opened Shuffling
  import opened Selection
  import opened Ambiguity
  import opened SecondPass
  import opened Extraction
  import opened Pipeline
  import opened Captures
  import opened Automatic

  // ---------------------------------------------------------------------------------------------
  // One flow to choose from
  // ---------------------------------------------------------------------------------------------

  /** Whatever the selector lets through is of this flow. */
  ghost predicate OnlyFlow(selector: FlowSelector, records: seq<RtpRecord>, key: FlowKey) {
    forall r | r in records && selector.MatchesFlow(r.flowKey) :: r.flowKey == key
  }

  lemma ObserveOnly(selector: FlowSelector, limits: ResourceLimits, t: Scan, s: Sighting, key: FlowKey)
    requires limits.Valid() && t.candidateOverflow == 0 && forall k | k in t.states :: k == key
    requires selector.MatchesFlow(s.record.flowKey) ==> s.record.flowKey == key
    ensures var t' := Observe(selector, limits, t, s);
            t'.candidateOverflow == 0 && forall k | k in t'.states :: k == key
  {
    hide Sampled, Renumbered, NewCandidate, Rejections, FlowSelector.MatchesFlow;
    if selector.MatchesFlow(s.record.flowKey) && key !in t.states {
      assert t.states == map[];
    }
  }

  lemma {:induction false} OnlyStates(
    selector: FlowSelector, limits: ResourceLimits, records: seq<RtpRecord>, key: FlowKey)
    requires limits.Valid() && OnlyFlow(selector, records, key)
    ensures var t := ScanOf(selector, limits, records);
            t.candidateOverflow == 0 && forall k | k in t.states :: k == key
  {
    hide Observe, FlowSelector.MatchesFlow;
    if records != [] {
      var front, last := records[..|records| - 1], records[|records| - 1];
      assert last in records && forall r | r in front :: r in records;
      OnlyStates(selector, limits, front, key);
      ObserveOnly(selector, limits, ScanOf(selector, limits, front), Sighting(last, |records|), key);
    }
  }

  /** The only candidate is the flow's own. */
  lemma OnlyCandidate(
    selector: FlowSelector, limits: ResourceLimits, records: seq<RtpRecord>, result: DiscoveryResult, key: FlowKey)
    returns (c: FlowCandidate)
    requires limits.Valid() && Reports(result, limits, ScanOf(selector, limits, records))
    requires selector.MatchesFlow(key) && OnlyFlow(selector, records, key) && OfFlow(records, key) != []
    ensures result.candidates == [c] && c.flow == key && result.candidateOverflow == 0
    ensures WellShaped(result.candidates) && |c.formats| == |FORMATS|
  {
    hide ScanOf, Freeze, FlowSelector.MatchesFlow, Summary, OnlyFlow, Ranked, Labelled;
    var t := ScanOf(selector, limits, records);
    OnlyStates(selector, limits, records, key);
    FlowView(selector, limits, records, key);
    ReportsShape(result, limits, selector, records);
    c := Freeze(t.states[key]);
    forall i | 0 <= i < |result.candidates| ensures result.candidates[i] == c {
      assert result.candidates[i] in result.candidates;
    }
    assert c in result.candidates;
    OneOf(result.candidates, c);
  }

  lemma OneOf(candidates: seq<FlowCandidate>, c: FlowCandidate)
    requires OnePerFlow(candidates) && c in candidates && forall i | 0 <= i < |candidates| :: candidates[i] == c
    ensures candidates == [c]
  {
    FirstTwo(candidates);
  }

  lemma FirstTwo(candidates: seq<FlowCandidate>)
    requires OnePerFlow(candidates)
    ensures |candidates| > 1 ==> candidates[0].flow != candidates[1].flow
  {
  }

  lemma MatchingOne(c: FlowCandidate, selector: FlowSelector)
    requires selector.MatchesFlow(c.flow)
    ensures MatchingCandidates([c], selector) == [c]
  {
    hide FlowSelector.MatchesFlow;
    assert [c][..0] == [];
  }

  lemma EachOfOne(c: FlowCandidate, request: Request, f: Format)
    requires WellShaped([c]) && |c.formats| == |FORMATS| && MatchingFormats(c, request) == [f]
    ensures SelectEach([c], request) == Ok([SelectionOf(c, f)])
  {
    hide MatchingFormats, SelectEach;
    SelectEachStep([c], request, 0);
    NothingToResolve(request);
    assert [c][..0] == [] && [c][..0 + 1] == [c];
    assert [] + [SelectionOf(c, f)] == [SelectionOf(c, f)];
  }

  lemma OneOfOne(c: FlowCandidate, request: Request, f: Format)
    requires WellShaped([c]) && |c.formats| == |FORMATS| && MatchingFormats(c, request) == [f]
    ensures SelectOne([c], request) == Ok([SelectionOf(c, f)])
  {
    hide MatchingFormats, Compatible, HasValidFormat;
    CompatibleOne(c, request);
    assert Options(c, [f]) == [SelectionOf(c, f)];
  }

  /** With one candidate, of one fitting format, selection has no choice, whatever the selector. */
  lemma OneSelected(result: DiscoveryResult, selector: FlowSelector, request: Request, c: FlowCandidate, f: Format)
    requires result.candidates == [c] && result.candidateOverflow == 0 && selector.MatchesFlow(c.flow)
    requires |c.formats| == |FORMATS| && FitsOnly(c, request, f)
    ensures WellShaped(result.candidates) && Select(result, selector, request) == Ok([SelectionOf(c, f)])
  {
    hide MatchingFormats, FlowSelector.MatchesFlow, Fits, HasValidFormat, SelectEach, SelectOne;
    MatchingOne(c, selector);
    FormatOf(c, request, f);
    assert MatchingFormats(c, request) == [f];
    EachOfOne(c, request, f);
    OneOfOne(c, request, f);
  }

  lemma FormatOf(c: FlowCandidate, request: Request, f: Format)
    requires |c.formats| == |FORMATS| && FitsOnly(c, request, f)
    ensures |MatchingFormats(c, request)| == 1 && MatchingFormats(c, request)[0] == f
  {
    hide MatchingFormats, Fits;
    FormatsFit(c, request);
    OneFormat(c, request);
    var formats := MatchingFormats(c, request);
    forall i | 0 <= i < |formats| ensures formats[i] == f {
      assert formats[i] in formats;
    }
    assert f in formats;
    OneInFormats(formats, f);
  }

  lemma OneInFormats(formats: seq<Format>, f: Format)
    requires NoRepeats(formats) && f in formats && forall i | 0 <= i < |formats| :: formats[i] == f
    ensures |formats| == 1
  {
    FirstTwoFormats(formats);
  }

  lemma FirstTwoFormats(formats: seq<Format>)
    requires NoRepeats(formats)
    ensures |formats| > 1 ==> formats[0] != formats[1]
  {
  }

  lemma CompatibleOne(c: FlowCandidate, request: Request)
    requires WellShaped([c]) && |c.formats| == |FORMATS| && MatchingFormats(c, request) != []
    ensures Compatible([c], request) == [c]
  {
    hide MatchingFormats;
    assert [c][..0] == [];
  }

  /** A flow alone in the capture, whose samples settle what the request leaves open, is selected in its format. */
  lemma ResolvedSelection(
    selector: FlowSelector, limits: ResourceLimits, records: seq<RtpRecord>, result: DiscoveryResult,
    request: Request, key: FlowKey, f: Format)
    returns (x: SelectedFlow)
    requires limits.Valid() && Reports(result, limits, ScanOf(selector, limits, records))
    requires selector.MatchesFlow(key) && OnlyFlow(selector, records, key) && OfFlow(records, key) != []
    requires AllRead(OfFlow(records, key), f) && Wanted(request, f)
    requires !SamplesShared(Samples(limits, OfFlow(records, key)), request)
    ensures x.flow == key && x.format == f && Select(result, selector, request) == Ok([x])
  {
    hide ScanOf, Freeze, FlowSelector.MatchesFlow, OnlyFlow, Ranked, Labelled, Select, SamplesShared, Fits, Wanted;
    hide Reads;
    hide Evidence.IsValid;
    var c := OnlyCandidate(selector, limits, records, result, key);
    var candidate := ScanOf(selector, limits, records).states[key];
    assert c in result.candidates;
    FlowResolvedIff(selector, limits, records, result, c, request);
    ValidIff(selector, limits, records, key, f);
    FrozenFits(candidate, request, f);
    assert HasFit(c, request);
    var only: Format :| FitsOnly(c, request, only);
    OneSelected(result, selector, request, c, f);
    x := SelectionOf(c, f);
  }

  // ---------------------------------------------------------------------------------------------
  // From a capture to the speech
  // ---------------------------------------------------------------------------------------------

  lemma ReadableReads(cfg: Config, payload: Bytes)
    requires FrameCount(cfg, payload) > 0
    ensures Reads(payload, Format(cfg.codec, cfg.mode))
  {
    hide Bodies;
  }

  /** The flow of a delivery is seen, and every packet of it reads in the sender's format. */
  lemma SpokenSighted(cfg: Config, udps: seq<UdpRecord>, stream: seq<Sent>, g: int)
    requires Convey(udps, Captured(stream), cfg.flow) && Delivered(cfg, stream, g)
    ensures var sightings := OfFlow(ParsedRecords(udps), cfg.flow);
            && AllRead(sightings, Format(cfg.codec, cfg.mode)) && (sightings == [] <==> stream == [])
  {
    hide Convey, Delivered, Reads, FrameCount, ParsedRecords;
    var records, key := ParsedRecords(udps), cfg.flow;
    ConveyedRecords(udps, Captured(stream), key);
    FlowRecordsSighted(records, key);
    AllReadable(cfg, stream, g);
    forall i | 0 <= i < |OfFlow(records, key)|
      ensures Reads(OfFlow(records, key)[i].record.payload, Format(cfg.codec, cfg.mode))
    {
      CapturedAt(stream, i);
      assert stream[i] in stream;
      ReadableReads(cfg, stream[i].record.payload);
    }
  }

  lemma NamedMatches(selector: FlowSelector, request: Request, key: FlowKey, f: Format)
    requires IsExplicit(selector, request) && selector.MatchesFlow(key) && Wanted(request, f)
    ensures NamedSelection(selector, request).flow == key && NamedSelection(selector, request).format == f
  {
  }

  /** Selection finds the sender's flow in the sender's format. */
  lemma SpokenSelected(
    selector: FlowSelector, limits: ResourceLimits, udps: seq<UdpRecord>, result: DiscoveryResult, request: Request,
    cfg: Config, stream: seq<Sent>, g: int)
    requires limits.Valid() && Reports(result, limits, ScanOf(selector, limits, ParsedRecords(udps)))
    requires WellShaped(result.candidates)
    requires Convey(udps, Captured(stream), cfg.flow) && Delivered(cfg, stream, g) && stream != []
    requires selector.MatchesFlow(cfg.flow) && OnlyFlow(selector, ParsedRecords(udps), cfg.flow)
    requires Wanted(request, Format(cfg.codec, cfg.mode))
    requires !SamplesShared(Samples(limits, OfFlow(ParsedRecords(udps), cfg.flow)), request)
    ensures var r := Select(result, selector, request);
            r.Ok? && |r.value| == 1 && r.value[0].flow == cfg.flow && r.value[0].format == Format(cfg.codec, cfg.mode)
  {
    hide Convey, Delivered, FlowSelector.MatchesFlow, OnlyFlow, SamplesShared, ScanOf, Select, ParsedRecords, Wanted;
    hide Samples, AllRead, Reports, OfFlow;
    SpokenSighted(cfg, udps, stream, g);
    var x := ResolvedSelection(selector, limits, ParsedRecords(udps), result, request, cfg.flow,
                               Format(cfg.codec, cfg.mode));
  }

  /**
   * extract_pcap on the capture of what a sender said, given a selector that lets through the sender's flow and no
   * other: unless it is named in full already, the flow is discovered and its format settled by its samples, and the
   * extraction ends with exactly the storage file of the speech, or as a refusing stream or a strict policy demand.
   */
  method RestoreDiscovered(
    udps: seq<UdpRecord>, selector: FlowSelector, request: Request, gaps: GapPolicy, malformed: MalformedPolicy,
    limits: ResourceLimits, output: OutputStream, capturePackets: nat, ghost cfg: Config, ghost stream: seq<Sent>,
    ghost talk: seq<Sent>, ghost times: seq<int>, ghost bodies: seq<Body>, ghost g: int)
    returns (exit: AutomaticExit, ghost stored: seq<Body>)
    requires limits.Valid() && cfg.policy == gaps && cfg.limits == limits && |udps| <= capturePackets
    requires Spoken(udps, cfg, stream, talk, times, bodies, g) && talk != []
    requires selector.MatchesFlow(cfg.flow) && OnlyFlow(selector, ParsedRecords(udps), cfg.flow)
    requires Wanted(request, Format(cfg.codec, cfg.mode))
    requires IsExplicit(selector, request)
             || !SamplesShared(Samples(limits, OfFlow(ParsedRecords(udps), cfg.flow)), request)
    modifies output
    ensures exit.Ran? && exit.selected.flow == cfg.flow && exit.selected.format == Format(cfg.codec, cfg.mode)
    ensures SpeechWritten(exit.exit, cfg, udps, malformed, talk, times, bodies, stored,
                     old(output.data), output.data, output.refusals > old(output.refusals))
  {
    hide FlowSelector.MatchesFlow, OnlyFlow, SamplesShared, ScanOf, Select, ParsedRecords, Wanted, Samples, Reports;
    hide Ends, SpeechWritten, StoresAt, Gapless, TimestampStep, StorageStream, StorageFile, RecordsFor, Run, ErrorsOf;
    hide FaultCount;
    hide ReadStorage, Convey, Delivered, Delivers, Speaks, IsExplicit, WellShaped, OfFlow;
    stored := CaptureRestored(udps, cfg, stream, talk, times, bodies, g);
    ArrivesIffSent(stream, talk);
    SomeDatagram(udps, Captured(stream), cfg.flow);
    ghost var result;
    exit, result := ExtractAutomatically(udps, selector, request, gaps, malformed, limits, output, capturePackets,
                                         true);
    if IsExplicit(selector, request) {
      NamedMatches(selector, request, cfg.flow, Format(cfg.codec, cfg.mode));
    } else {
      SpokenSelected(selector, limits, udps, result, request, cfg, stream, g);
    }
    EndsRestored(exit.exit, cfg, udps, exit.selected, malformed, CaptureCounts(capturePackets, |udps|),
                 if IsExplicit(selector, request) then 1 else 2, talk, times, bodies, stored, old(output.data),
                 output.data, output.refusals > old(output.refusals));
  }

  lemma SomeDatagram(udps: seq<UdpRecord>, records: seq<RtpRecord>, key: FlowKey)
    requires Convey(udps, records, key)
    ensures udps == [] ==> records == []
  {
    hide Carried, Other;
  }
}
