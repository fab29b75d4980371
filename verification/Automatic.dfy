/** Extraction of a flow that is not named in full: discovery, selection, and a second pass (api.py). */
module Automatic {
  import opened Models
  import opened Rtp
  import opened Timeline
  import opened StoredRuns
  import opened Discovery
  import opened Ranking
  import opened Selection
  import opened SecondPass
  import opened TimelineRouters
  import opened Extraction
  import opened Pipeline

  datatype AutomaticExit =
    | CaptureNotReopenable
    | CaptureEmpty
    | NotSelected(error: SelectionError)
    | SeveralSelected(count: nat)
    | Ran(selected: SelectedFlow, exit: ExtractionExit)

  /** Whether the flow and its format are given in full, so that one pass is enough. */
  predicate IsExplicit(selector: FlowSelector, request: Request) {
    selector.IsComplete() && request.codec.Some? && request.mode.Some?
  }

  function NamedFlow(selector: FlowSelector): FlowKey
    requires selector.IsComplete()
  {
    FlowKey(selector.srcAddress.value, selector.dstAddress.value, selector.srcPort.value, selector.dstPort.value,
            selector.ssrc.value, selector.payloadType.value)
  }

  /** _explicit_selection. */
  function NamedSelection(selector: FlowSelector, request: Request): SelectedFlow
    requires IsExplicit(selector, request)
  {
    SelectedFlow(CandidateId(0, NamedFlow(selector)), NamedFlow(selector),
                 Format(request.codec.value, request.mode.value), 0)
  }

  /** A flow is named by giving all of its six fields, the codec and the mode; its packet number is left open. */
  lemma ExplicitIff(selector: FlowSelector, request: Request, key: FlowKey, format: Format)
    ensures && selector == FlowSelector(Some(key.srcAddress), Some(key.dstAddress), Some(key.srcPort),
                                        Some(key.dstPort), Some(key.ssrc), Some(key.payloadType))
            && request == Request(Some(format.codec), Some(format.mode))
            <==> IsExplicit(selector, request)
                 && NamedSelection(selector, request) == SelectedFlow(CandidateId(0, key), key, format, 0)
  {
  }

  /** The first pass: the records that discovery gets to see. */
  method InspectRecords(udps: seq<UdpRecord>) returns (records: seq<RtpRecord>)
    ensures records == ParsedRecords(udps)
  {
    hide Parse;
    records := [];
    assert udps[..0] == [];
    for i := 0 to |udps|
      invariant records == ParsedRecords(udps[..i])
    {
      assert udps[..i + 1][..i] == udps[..i];
      var parsed := ParseRtp(udps[i]);
      if parsed.Ok? && parsed.value.Some? {
        records := records + [parsed.value.value];
      }
    }
    assert udps[..|udps|] == udps;
  }

  /**
   * What discovery selects has packets, at least one of them accepted; sampled in full, only datagrams can be at fault.
   */
  lemma SelectedRuns(
    udps: seq<UdpRecord>, selector: FlowSelector, limits: ResourceLimits, result: DiscoveryResult, request: Request,
    x: SelectedFlow, policy: GapPolicy)
    requires limits.Valid() && Reports(result, limits, ScanOf(selector, limits, ParsedRecords(udps)))
    requires WellShaped(result.candidates)
    requires Select(result, selector, request).Ok? && x in Select(result, selector, request).value
    ensures var cfg := ConfigFor(x, policy, limits);
            var records := RecordsFor(udps, x.flow);
            && records != [] && Run(cfg, records).state.counters.accepted > 0
            && (result.sampleOverflow == 0 ==>
                  |ErrorsOf(cfg, udps, [x.flow])| == FaultCount(udps, [x.flow], x.flow))
  {
    hide Run, FlowRecords, ParsedRecords, ErrorsOf, FaultCount, Select, ScanOf, Reports;
    var cfg := ConfigFor(x, policy, limits);
    SelectionExtractsCleanly(selector, limits, ParsedRecords(udps), result, request, x, policy);
    ErrorsCounted(cfg, udps, [x.flow]);
    NothingRun(cfg, RecordsFor(udps, x.flow));
  }

  /**
   * extract_pcap. A flow and format named in full are extracted in one pass; otherwise, if the capture can be read
   * twice, the first pass discovers, one selection must result, and the second pass extracts it: that never ends
   * without packets or with none accepted, and ends with a report and the whole file unless the stream refuses to go on
   * or a strict policy meets an error.
   */
  method ExtractAutomatically(
    udps: seq<UdpRecord>, selector: FlowSelector, request: Request, policy: GapPolicy, malformed: MalformedPolicy,
    limits: ResourceLimits, stream: OutputStream, capturePackets: nat, reopenable: bool)
    returns (exit: AutomaticExit, ghost result: DiscoveryResult)
    requires limits.Valid()
    modifies stream
    ensures IsExplicit(selector, request) ==> exit.Ran? && exit.selected == NamedSelection(selector, request)
    ensures exit.CaptureNotReopenable? <==> !IsExplicit(selector, request) && !reopenable
    ensures !IsExplicit(selector, request) && reopenable ==>
              && Reports(result, limits, ScanOf(selector, limits, ParsedRecords(udps))) && WellShaped(result.candidates)
              && exit.CaptureEmpty? == (capturePackets == 0)
              && (capturePackets > 0 ==> Decides(exit, Select(result, selector, request)))
    ensures !exit.Ran? ==> stream.data == old(stream.data) && stream.refusals == old(stream.refusals)
    ensures exit.Ran? ==>
              Ends(exit.exit, ConfigFor(exit.selected, policy, limits), udps, exit.selected,
                   malformed, CaptureCounts(capturePackets, |udps|), if IsExplicit(selector, request) then 1 else 2,
                   old(stream.data), stream.data, stream.refusals > old(stream.refusals))
    ensures exit.Ran? && !IsExplicit(selector, request) ==>
              var cfg := ConfigFor(exit.selected, policy, limits);
              && !exit.exit.NoPackets? && !exit.exit.NothingAccepted?
              && (stream.refusals == old(stream.refusals) ==>
                    && (exit.exit.Extracted? <==> malformed.Skip? || ErrorsOf(cfg, udps, [cfg.flow]) == [])
                    && (result.sampleOverflow == 0 && FaultCount(udps, [cfg.flow], cfg.flow) == 0 ==>
                          exit.exit.Extracted?))
  {
    hide Run, RecordsFor, ErrorsOf, FaultCount, StorageFile, Describes, FileSoFar, CutShort, StopsAt, Select, ScanOf;
    hide Reports, ParsedRecords, WellShaped;
    if IsExplicit(selector, request) {
      var x := NamedSelection(selector, request);
      var exit' := ExtractPcap(udps, x, policy, malformed, limits, stream, capturePackets, 1);
      result := *;
      return Ran(x, exit'), result;
    }
    if !reopenable {
      result := *;
      return CaptureNotReopenable, result;
    }
    var records := InspectRecords(udps);
    var found := DiscoverCandidates(records, selector, limits);
    result := found;
    ReportsShape(result, limits, selector, records);
    if capturePackets == 0 {
      return CaptureEmpty, result;
    }
    var selected := SelectCandidates(found, selector, request);
    if selected.Err? {
      return NotSelected(selected.error), result;
    }
    if |selected.value| != 1 {
      return SeveralSelected(|selected.value|), result;
    }
    var x := selected.value[0];
    assert x in selected.value;
    SelectedRuns(udps, selector, limits, result, request, x, policy);
    var exit' := ExtractPcap(udps, x, policy, malformed, limits, stream, capturePackets, 2);
    return Ran(x, exit'), result;
  }

  /** The exits that selection decides. */
  predicate Decides(exit: AutomaticExit, selected: Selected) {
    match selected
    case Err(error) => exit == NotSelected(error)
    case Ok(flows) =>
      if |flows| == 1 then exit.Ran? && exit.selected == flows[0] else exit == SeveralSelected(|flows|)
  }
}
