/** Extraction: datagrams routed to the selected flows, frames written to storage, flows reported (api.py). */
module Extraction {
  import opened Models
  import opened Bits
  import opened Retention
  import opened Rtp
  import opened Timeline
  import opened Runs
  import opened Emitting
  import opened TimelineNormalizers
  import opened TimelineRouters
  import opened FlowStates

  // ---------------------------------------------------------------------------------------------
  // Which datagram concerns which flow
  // ---------------------------------------------------------------------------------------------

  predicate SameEndpoints(key: FlowKey, udp: UdpRecord) {
    && key.srcAddress == udp.srcAddress && key.dstAddress == udp.dstAddress
    && key.srcPort == udp.srcPort && key.dstPort == udp.dstPort
  }

  function EndpointMatches(flows: seq<FlowKey>, udp: UdpRecord): (matches: seq<FlowKey>)
    ensures forall k | k in matches :: k in flows
  {
    if flows == [] then []
    else
      var last := flows[|flows| - 1];
      EndpointMatches(flows[..|flows| - 1], udp) + (if SameEndpoints(last, udp) then [last] else [])
  }

  /** _matching_malformed_targets: the flow the error names, else the only flow with the datagram's endpoints. */
  function TargetOf(flows: seq<FlowKey>, error: RtpError, udp: UdpRecord): (target: Option<FlowKey>)
    ensures target.Some? ==> target.value in flows
  {
    if error.flow.Some? then (if error.flow.value in flows then error.flow else None)
    else
      var matches := EndpointMatches(flows, udp);
      if |matches| == 1 then (assert matches[0] in matches; Some(matches[0])) else None
  }

  /** The record in a datagram, if it is well-formed RTP. */
  function ParsedRecord(udp: UdpRecord): (records: seq<RtpRecord>)
    ensures |records| <= 1
  {
    match Parse(udp)
    case Ok(Some(record)) => [record]
    case _ => []
  }

  function ParsedRecords(udps: seq<UdpRecord>): seq<RtpRecord> {
    if udps == [] then [] else ParsedRecords(udps[..|udps| - 1]) + ParsedRecord(udps[|udps| - 1])
  }

  /** The records the datagrams give a flow. */
  function RecordsFor(udps: seq<UdpRecord>, key: FlowKey): seq<RtpRecord> {
    FlowRecords(ParsedRecords(udps), key)
  }

  function FaultsOf(udp: UdpRecord, flows: seq<FlowKey>, key: FlowKey): nat {
    match Parse(udp)
    case Err(error) => if TargetOf(flows, error, udp) == Some(key) then 1 else 0
    case _ => 0
  }

  /** How many datagrams of a flow are malformed RTP. */
  function FaultCount(udps: seq<UdpRecord>, flows: seq<FlowKey>, key: FlowKey): nat {
    if udps == [] then 0
    else FaultCount(udps[..|udps| - 1], flows, key) + FaultsOf(udps[|udps| - 1], flows, key)
  }

  /** The flow has the addresses and ports of the datagram. */
  predicate AtEnds(udp: UdpRecord, key: FlowKey) {
    && udp.srcAddress == key.srcAddress && udp.srcPort == key.srcPort
    && udp.dstAddress == key.dstAddress && udp.dstPort == key.dstPort
  }

  lemma {:induction false} EndpointMembers(flows: seq<FlowKey>, udp: UdpRecord, key: FlowKey)
    ensures key in EndpointMatches(flows, udp) <==> key in flows && AtEnds(udp, key)
  {
    if flows != [] {
      var front, last := flows[..|flows| - 1], flows[|flows| - 1];
      assert flows == front + [last];
      EndpointMembers(front, udp, key);
    }
  }

  lemma {:induction false} EndpointsOnce(flows: seq<FlowKey>, udp: UdpRecord)
    requires DistinctFlows(flows)
    ensures DistinctFlows(EndpointMatches(flows, udp))
  {
    hide SameEndpoints;
    if flows != [] {
      var front, last := flows[..|flows| - 1], flows[|flows| - 1];
      EndpointsOnce(front, udp);
      LastApart(flows);
      var matches := EndpointMatches(front, udp);
      forall i | 0 <= i < |matches| ensures matches[i] != last {
        assert matches[i] in matches;
      }
    }
  }

  lemma LastApart(flows: seq<FlowKey>)
    requires DistinctFlows(flows) && flows != []
    ensures flows[|flows| - 1] !in flows[..|flows| - 1]
  {
  }

  /** A malformed datagram with its fixed header counts for the flow its fields name, if that is selected. */
  lemma FaultByHeader(udp: UdpRecord, flows: seq<FlowKey>, key: FlowKey)
    requires Parse(udp).Err? && |udp.payload| >= 12
    ensures FaultsOf(udp, flows, key) == if key in flows && IsFlowOf(udp, key) then 1 else 0
    ensures Concerns(udp, flows, key) <==> key in flows && IsFlowOf(udp, key)
  {
    hide Parse, IsFlowOf, FlowOf;
    ErrorFlow(udp);
    if IsFlowOf(udp, key) {
      FlowOfOnly(udp, key);
    }
  }

  lemma FlowOfOnly(udp: UdpRecord, key: FlowKey)
    requires |udp.payload| >= 12 && IsFlowOf(udp, key) && IsFlowOf(udp, FlowOf(udp))
    ensures key == FlowOf(udp)
  {
    hide Value, BytesToBits, ByteBits, U32;
  }

  /**
   * A malformed datagram too short for the fixed header counts for the one selected flow with its addresses and ports,
   * and for none when no selected flow has them or several do.
   */
  lemma FaultByEndpoints(udp: UdpRecord, flows: seq<FlowKey>, key: FlowKey)
    requires Parse(udp).Err? && |udp.payload| < 12 && DistinctFlows(flows)
    ensures FaultsOf(udp, flows, key)
            == if key in flows && AtEnds(udp, key) && forall k | k in flows && AtEnds(udp, k) :: k == key then 1 else 0
    ensures Concerns(udp, flows, key)
            <==> key in flows && AtEnds(udp, key) && forall k | k in flows && AtEnds(udp, k) :: k == key
  {
    hide Parse, EndpointMatches, AtEnds;
    ErrorFlow(udp);
    var matches := EndpointMatches(flows, udp);
    forall k ensures k in matches <==> k in flows && AtEnds(udp, k) {
      EndpointMembers(flows, udp, k);
    }
    EndpointsOnce(flows, udp);
    OnlyMatch(matches, key);
  }

  lemma OnlyMatch(matches: seq<FlowKey>, key: FlowKey)
    requires DistinctFlows(matches)
    ensures |matches| == 1 && matches[0] == key <==> key in matches && forall k | k in matches :: k == key
  {
    if key in matches && forall k | k in matches :: k == key {
      forall i | 0 <= i < |matches| ensures matches[i] == key {
        assert matches[i] in matches;
      }
      FlowsApart(matches);
    }
  }

  lemma FlowsApart(flows: seq<FlowKey>)
    requires DistinctFlows(flows)
    ensures |flows| > 1 ==> flows[0] != flows[1]
  {
  }

  /** The errors a datagram adds to a flow: the datagram is malformed, or its payload is. */
  ghost function ErrorsAt(cfg: Config, s: State, udp: UdpRecord, flows: seq<FlowKey>): seq<Report> {
    match Parse(udp)
    case Err(error) =>
      if TargetOf(flows, error, udp) == Some(cfg.flow) then [Report(MALFORMED_RTP, udp.provenance)] else []
    case Ok(Some(record)) =>
      if record.flowKey == cfg.flow then ErrorsOfPush(OutcomeOf(cfg, s, record), record.provenance) else []
    case Ok(None) => []
  }

  /** The errors of a flow, in the order of the datagrams. */
  ghost function ErrorsOf(cfg: Config, udps: seq<UdpRecord>, flows: seq<FlowKey>): seq<Report> {
    if udps == [] then []
    else
      var front := udps[..|udps| - 1];
      ErrorsOf(cfg, front, flows)
      + ErrorsAt(cfg, Run(cfg, RecordsFor(front, cfg.flow)).state, udps[|udps| - 1], flows)
  }

  lemma OneMoreDatagram(udps: seq<UdpRecord>, udp: UdpRecord, flows: seq<FlowKey>, key: FlowKey)
    ensures RecordsFor(udps + [udp], key) == RecordsFor(udps, key) + FlowRecords(ParsedRecord(udp), key)
    ensures FaultCount(udps + [udp], flows, key) == FaultCount(udps, flows, key) + FaultsOf(udp, flows, key)
  {
    hide Parse;
    assert (udps + [udp])[..|udps|] == udps;
    var parsed := ParsedRecord(udp);
    if parsed == [] {
      assert ParsedRecords(udps) + parsed == ParsedRecords(udps);
      assert RecordsFor(udps, key) + [] == RecordsFor(udps, key);
    } else {
      FlowRecordsStep(ParsedRecords(udps), parsed[0], key);
      FlowRecordsStep([], parsed[0], key);
      assert [] + [parsed[0]] == parsed;
    }
  }

  lemma OneMoreError(cfg: Config, udps: seq<UdpRecord>, udp: UdpRecord, flows: seq<FlowKey>)
    ensures ErrorsOf(cfg, udps + [udp], flows)
            == ErrorsOf(cfg, udps, flows) + ErrorsAt(cfg, Run(cfg, RecordsFor(udps, cfg.flow)).state, udp, flows)
  {
    hide Run, RecordsFor, ErrorsAt;
    assert (udps + [udp])[..|udps|] == udps;
  }

  /** Each error is a malformed datagram or a malformed payload. */
  lemma {:induction false} ErrorsCounted(cfg: Config, udps: seq<UdpRecord>, flows: seq<FlowKey>)
    ensures |ErrorsOf(cfg, udps, flows)|
            == FaultCount(udps, flows, cfg.flow)
               + Run(cfg, RecordsFor(udps, cfg.flow)).state.counters.malformed
  {
    hide Run, RecordsFor, ErrorsAt, ErrorsOf, FaultCount, FaultsOf;
    if udps == [] {
      NoDatagrams(cfg, flows);
      assert udps == [];
    } else {
      var front, last := udps[..|udps| - 1], udps[|udps| - 1];
      assert udps == front + [last];
      ErrorsCounted(cfg, front, flows);
      OneMoreError(cfg, front, last, flows);
      OneMoreDatagram(front, last, flows, cfg.flow);
      OneErrorCounted(cfg, RecordsFor(front, cfg.flow), last, flows);
    }
  }

  lemma NoDatagrams(cfg: Config, flows: seq<FlowKey>)
    ensures ErrorsOf(cfg, [], flows) == [] && FaultCount([], flows, cfg.flow) == 0 && RecordsFor([], cfg.flow) == []
    ensures Run(cfg, []).state.counters.malformed == 0
  {
  }

  lemma OneErrorCounted(cfg: Config, records: seq<RtpRecord>, udp: UdpRecord, flows: seq<FlowKey>)
    ensures |ErrorsAt(cfg, Run(cfg, records).state, udp, flows)|
            == FaultsOf(udp, flows, cfg.flow)
               + Run(cfg, records + FlowRecords(ParsedRecord(udp), cfg.flow)).state.counters.malformed
               - Run(cfg, records).state.counters.malformed
  {
    hide Run, OutcomeOf, PushRecord, Parse, TargetOf;
    var more := FlowRecords(ParsedRecord(udp), cfg.flow);
    if more == [] {
      assert records + more == records;
      assert Parse(udp).Ok? && Parse(udp).value.Some? ==> FlowRecords([Parse(udp).value.value], cfg.flow) == [];
    } else {
      var record := Parse(udp).value.value;
      OnlyRecord(record, cfg.flow);
      assert (records + more)[..|records|] == records;
      RunUnfold(cfg, records + more);
      PushOutcome(cfg, Run(cfg, records).state, record);
      PushMalformed(cfg, Run(cfg, records).state, record);
    }
  }

  lemma OnlyRecord(record: RtpRecord, key: FlowKey)
    ensures FlowRecords([record], key) == if record.flowKey == key then [record] else []
  {
    FlowRecordsStep([], record, key);
  }

  /** Errors are only ever added. */
  lemma {:induction false} ErrorsGrow(cfg: Config, udps: seq<UdpRecord>, flows: seq<FlowKey>, n: nat)
    requires n <= |udps|
    ensures |ErrorsOf(cfg, udps[..n], flows)| <= |ErrorsOf(cfg, udps, flows)|
  {
    hide Run, RecordsFor, ErrorsAt, ErrorsOf;
    if n == |udps| {
      assert udps[..n] == udps;
    } else {
      var front, last := udps[..|udps| - 1], udps[|udps| - 1];
      assert udps == front + [last] && front[..n] == udps[..n];
      ErrorsGrow(cfg, front, flows, n);
      OneMoreError(cfg, front, last, flows);
    }
  }

  // ---------------------------------------------------------------------------------------------
  // The routing loop
  // ---------------------------------------------------------------------------------------------

  datatype MalformedPolicy = Skip | Strict

  type States = map<FlowKey, FlowState>

  /** No two flows share an object. */
  ghost predicate Separate(states: States) {
    forall j, k | j in states && k in states && j != k ::
      states[j] != states[k] && states[j].normalizer != states[k].normalizer
  }

  ghost function Objects(states: States): set<object> {
    (set k | k in states :: states[k]) + (set k | k in states :: states[k].normalizer)
  }

  /** What a flow's state has seen, what it has to report and what it has handed on. */
  ghost predicate Follows(
    state: FlowState, key: FlowKey, records: seq<RtpRecord>, faults: nat, errors: seq<Report>,
    frames: seq<EncodedFrame>)
    reads state, state.normalizer
  {
    && state.Valid() && state.normalizer.cfg.flow == key
    && state.normalizer.log == records && state.malformedRtpCount == faults
    && state.diagnostics == Kept(state.normalizer.cfg.limits, errors)
    && FramesIn(state.normalizer.drained) == frames
  }

  /** A flow that follows these datagrams. */
  ghost predicate FollowsAll(
    state: FlowState, key: FlowKey, flows: seq<FlowKey>, udps: seq<UdpRecord>, frames: seq<EncodedFrame>)
    reads state, state.normalizer
  {
    Follows(state, key, RecordsFor(udps, key), FaultCount(udps, flows, key),
            ErrorsOf(state.normalizer.cfg, udps, flows), frames)
  }

  ghost predicate AllFollow(states: States, flows: seq<FlowKey>, udps: seq<UdpRecord>, routed: seq<Routed>)
    reads Objects(states)
  {
    forall k | k in states :: FollowsAll(states[k], k, flows, udps, Only(routed, k)) && states[k].Idle()
  }

  /** No malformed datagram and no malformed payload of a selected flow. */
  ghost predicate NoErrors(states: States, flows: seq<FlowKey>, udps: seq<UdpRecord>) {
    forall k | k in states :: ErrorsOf(states[k].normalizer.cfg, udps, flows) == []
  }

  ghost predicate Indexed(flows: seq<FlowKey>, states: States) {
    && Separate(states)
    && (forall k :: k in flows <==> k in states)
    && (forall i, j | 0 <= i < j < |flows| :: flows[i] != flows[j])
  }

  lemma IdleState(state: FlowState)
    requires state.Valid() && state.Idle()
    ensures state.normalizer.Now() == Run(state.normalizer.cfg, state.normalizer.log).state
  {
    hide Run, TimelineNormalizer.Mirrored, TimelineNormalizer.Drained;
  }

  lemma KeptErrors(state: FlowState, errors: seq<Report>, more: seq<Report>)
    requires |more| <= 1
    ensures state.Appended(Kept(state.normalizer.cfg.limits, errors), more)
            == Kept(state.normalizer.cfg.limits, errors + more)
  {
    if more == [] {
      assert errors + more == errors;
    } else {
      assert more == [more[0]];
      KeptAppend(state.normalizer.cfg.limits, errors, more[0]);
    }
  }

  /** What the record in a datagram adds to the flows. */
  lemma RecordAdds(cfg: Config, udps: seq<UdpRecord>, udp: UdpRecord, record: RtpRecord, flows: seq<FlowKey>)
    requires Parse(udp) == Ok(Some(record))
    ensures RecordsFor(udps + [udp], cfg.flow)
            == RecordsFor(udps, cfg.flow) + (if record.flowKey == cfg.flow then [record] else [])
    ensures FaultCount(udps + [udp], flows, cfg.flow) == FaultCount(udps, flows, cfg.flow)
    ensures ErrorsOf(cfg, udps + [udp], flows)
            == ErrorsOf(cfg, udps, flows)
               + (if record.flowKey == cfg.flow
                  then ErrorsOfPush(OutcomeOf(cfg, Run(cfg, RecordsFor(udps, cfg.flow)).state, record),
                                    record.provenance)
                  else [])
  {
    hide Parse, Run, OutcomeOf, RecordsFor, FaultCount, ErrorsOf;
    OneMoreDatagram(udps, udp, flows, cfg.flow);
    OneMoreError(cfg, udps, udp, flows);
    OnlyRecord(record, cfg.flow);
  }

  /** What a malformed datagram adds to the flows. */
  lemma FaultAdds(cfg: Config, udps: seq<UdpRecord>, udp: UdpRecord, error: RtpError, flows: seq<FlowKey>)
    requires Parse(udp) == Err(error)
    ensures var hit := TargetOf(flows, error, udp) == Some(cfg.flow);
            && RecordsFor(udps + [udp], cfg.flow) == RecordsFor(udps, cfg.flow)
            && FaultCount(udps + [udp], flows, cfg.flow) == FaultCount(udps, flows, cfg.flow) + (if hit then 1 else 0)
            && ErrorsOf(cfg, udps + [udp], flows)
               == ErrorsOf(cfg, udps, flows) + (if hit then [Report(MALFORMED_RTP, udp.provenance)] else [])
  {
    hide Parse, Run, OutcomeOf, RecordsFor, FaultCount, ErrorsOf, TargetOf;
    OneMoreDatagram(udps, udp, flows, cfg.flow);
    OneMoreError(cfg, udps, udp, flows);
    assert RecordsFor(udps, cfg.flow) + FlowRecords([], cfg.flow) == RecordsFor(udps, cfg.flow);
  }

  lemma NothingAdded(udps: seq<UdpRecord>, udp: UdpRecord, flows: seq<FlowKey>, cfg: Config)
    requires Parse(udp) == Ok(None)
    ensures RecordsFor(udps + [udp], cfg.flow) == RecordsFor(udps, cfg.flow)
    ensures FaultCount(udps + [udp], flows, cfg.flow) == FaultCount(udps, flows, cfg.flow)
    ensures ErrorsOf(cfg, udps + [udp], flows) == ErrorsOf(cfg, udps, flows)
  {
    hide Parse, Run, OutcomeOf, RecordsFor, FaultCount, ErrorsOf, TargetOf;
    OneMoreDatagram(udps, udp, flows, cfg.flow);
    OneMoreError(cfg, udps, udp, flows);
    assert RecordsFor(udps, cfg.flow) + FlowRecords([], cfg.flow) == RecordsFor(udps, cfg.flow);
    assert ErrorsOf(cfg, udps, flows) + [] == ErrorsOf(cfg, udps, flows);
  }

  /** One record of one flow. */
  method TakeRecord(
    state: FlowState, record: RtpRecord, ghost flows: seq<FlowKey>, ghost udps: seq<UdpRecord>, ghost udp: UdpRecord,
    ghost earlier: seq<EncodedFrame>)
    returns (frames: seq<EncodedFrame>, raised: bool)
    requires FollowsAll(state, record.flowKey, flows, udps, earlier) && state.Idle() && Parse(udp) == Ok(Some(record))
    modifies state, state.normalizer
    ensures FollowsAll(state, record.flowKey, flows, udps + [udp], earlier + frames) && state.Idle()
    ensures ErrorsOf(state.normalizer.cfg, udps + [udp], flows) == []
            <==> ErrorsOf(state.normalizer.cfg, udps, flows) == [] && !raised
    ensures raised ==> frames == []
  {
    hide Parse, RecordsFor, FaultCount, ErrorsOf, PushRecord, OutcomeOf, Run, FlowState.Appended, Kept;
    hide FlowState.Valid, TimelineNormalizer.Now;
    ghost var cfg, errors := state.normalizer.cfg, ErrorsOf(state.normalizer.cfg, udps, flows);
    ghost var s := Run(cfg, RecordsFor(udps, cfg.flow)).state;
    IdleState(state);
    RecordAdds(cfg, udps, udp, record, flows);
    PushOutcome(cfg, s, record);
    PushSilent(cfg, s, record);
    KeptErrors(state, errors, ErrorsOfPush(OutcomeOf(cfg, s, record), record.provenance));
    ghost var drained := state.normalizer.drained;
    frames, raised := state.Take(record);
    FramesInConcat(drained, PushRecord(cfg, s, record).emitted);
  }

  lemma PushSilent(cfg: Config, s: State, record: RtpRecord)
    ensures OutcomeOf(cfg, s, record).Malformed? ==> PushRecord(cfg, s, record).emitted == []
  {
    hide OutcomeOf, Retained, ExtendedSequence, ExtendedTimestamp, IdentityOf;
  }

  /** One record of a selected flow: only that flow's state changes. */
  method RouteRecord(
    states: States, record: RtpRecord, ghost flows: seq<FlowKey>, ghost udps: seq<UdpRecord>, ghost udp: UdpRecord,
    ghost routed: seq<Routed>)
    returns (more: seq<Routed>, raised: bool)
    requires Separate(states) && AllFollow(states, flows, udps, routed)
    requires Parse(udp) == Ok(Some(record)) && record.flowKey in states
    modifies states[record.flowKey], states[record.flowKey].normalizer
    ensures AllFollow(states, flows, udps + [udp], routed + more)
    ensures NoErrors(states, flows, udps + [udp]) <==> NoErrors(states, flows, udps) && !raised
    ensures raised ==> more == []
  {
    hide Parse, RecordsFor, FaultCount, ErrorsOf, Only, Follows, FlowState.Idle;
    var key := record.flowKey;
    label before:
    var frames;
    frames, raised := TakeRecord(states[key], record, flows, udps, udp, Only(routed, key));
    more := Tagged(key, frames);
    OnlyAfter(routed, key, frames);
    forall k | k in states && k != key
      ensures FollowsAll(states[k], k, flows, udps + [udp], Only(routed + more, k)) && states[k].Idle()
      ensures ErrorsOf(states[k].normalizer.cfg, udps + [udp], flows) == ErrorsOf(states[k].normalizer.cfg, udps, flows)
    {
      assert old@before(FollowsAll(states[k], k, flows, udps, Only(routed, k)) && states[k].Idle());
      FollowsFlow(states[k], k, flows, udps, Only(routed, k));
      RecordAdds(states[k].normalizer.cfg, udps, udp, record, flows);
      assert RecordsFor(udps, k) + [] == RecordsFor(udps, k);
      assert ErrorsOf(states[k].normalizer.cfg, udps, flows) + [] == ErrorsOf(states[k].normalizer.cfg, udps, flows);
    }
  }

  lemma FollowsFlow(
    state: FlowState, key: FlowKey, flows: seq<FlowKey>, udps: seq<UdpRecord>, frames: seq<EncodedFrame>)
    requires FollowsAll(state, key, flows, udps, frames)
    ensures state.normalizer.cfg.flow == key
  {
    hide FlowState.Valid, RecordsFor, FaultCount, ErrorsOf;
  }

  /** A malformed datagram of one flow. */
  method TakeFault(
    state: FlowState, key: FlowKey, error: RtpError, ghost flows: seq<FlowKey>, ghost udps: seq<UdpRecord>,
    udp: UdpRecord, ghost frames: seq<EncodedFrame>)
    requires FollowsAll(state, key, flows, udps, frames) && state.Idle()
    requires Parse(udp) == Err(error) && TargetOf(flows, error, udp) == Some(key)
    modifies state
    ensures FollowsAll(state, key, flows, udps + [udp], frames) && state.Idle()
    ensures ErrorsOf(state.normalizer.cfg, udps + [udp], flows) != []
  {
    hide Parse, RecordsFor, FaultCount, ErrorsOf, TargetOf, FlowState.Valid, FlowState.Appended, Kept;
    ghost var cfg := state.normalizer.cfg;
    FaultAdds(cfg, udps, udp, error, flows);
    KeptErrors(state, ErrorsOf(cfg, udps, flows), [Report(MALFORMED_RTP, udp.provenance)]);
    state.CountMalformed(udp.provenance);
  }

  /** A malformed datagram of a selected flow: counted there, and nowhere else. */
  method RouteFault(
    states: States, key: FlowKey, error: RtpError, ghost flows: seq<FlowKey>, ghost udps: seq<UdpRecord>,
    udp: UdpRecord, ghost routed: seq<Routed>)
    requires Separate(states) && AllFollow(states, flows, udps, routed)
    requires Parse(udp) == Err(error) && TargetOf(flows, error, udp) == Some(key) && key in states
    modifies states[key], states[key].normalizer
    ensures AllFollow(states, flows, udps + [udp], routed) && !NoErrors(states, flows, udps + [udp])
  {
    hide Parse, RecordsFor, FaultCount, ErrorsOf, Only, TargetOf, Follows, FlowState.Idle;
    label before:
    TakeFault(states[key], key, error, flows, udps, udp, Only(routed, key));
    forall k | k in states && k != key
      ensures FollowsAll(states[k], k, flows, udps + [udp], Only(routed, k)) && states[k].Idle()
    {
      assert old@before(FollowsAll(states[k], k, flows, udps, Only(routed, k)) && states[k].Idle());
      FollowsFlow(states[k], k, flows, udps, Only(routed, k));
      FaultAdds(states[k].normalizer.cfg, udps, udp, error, flows);
      assert ErrorsOf(states[k].normalizer.cfg, udps, flows) + [] == ErrorsOf(states[k].normalizer.cfg, udps, flows);
    }
  }

  /** Whether a datagram has a record of this flow, or is malformed and counted there. */
  predicate Concerns(udp: UdpRecord, flows: seq<FlowKey>, key: FlowKey) {
    match Parse(udp)
    case Err(error) => TargetOf(flows, error, udp) == Some(key)
    case Ok(Some(record)) => record.flowKey == key
    case Ok(None) => false
  }

  /** A datagram of no concern to a flow gives it no record and no error. */
  lemma NoConcern(cfg: Config, flows: seq<FlowKey>, udps: seq<UdpRecord>, udp: UdpRecord)
    requires !Concerns(udp, flows, cfg.flow)
    ensures RecordsFor(udps + [udp], cfg.flow) == RecordsFor(udps, cfg.flow)
    ensures FaultCount(udps + [udp], flows, cfg.flow) == FaultCount(udps, flows, cfg.flow)
    ensures ErrorsOf(cfg, udps + [udp], flows) == ErrorsOf(cfg, udps, flows)
  {
    hide Parse, RecordsFor, FaultCount, ErrorsOf, TargetOf, OutcomeOf;
    assert RecordsFor(udps, cfg.flow) + [] == RecordsFor(udps, cfg.flow);
    assert ErrorsOf(cfg, udps, flows) + [] == ErrorsOf(cfg, udps, flows);
    match Parse(udp)
    case Err(error) => FaultAdds(cfg, udps, udp, error, flows);
    case Ok(Some(record)) => RecordAdds(cfg, udps, udp, record, flows);
    case Ok(None) => NothingAdded(udps, udp, flows, cfg);
  }

  /** A datagram that concerns no selected flow. */
  lemma Ignored(states: States, flows: seq<FlowKey>, udps: seq<UdpRecord>, udp: UdpRecord, routed: seq<Routed>)
    requires AllFollow(states, flows, udps, routed)
    requires forall k | k in states :: !Concerns(udp, flows, k)
    ensures AllFollow(states, flows, udps + [udp], routed)
    ensures NoErrors(states, flows, udps + [udp]) <==> NoErrors(states, flows, udps)
  {
    hide FlowState.Valid, FlowState.Idle, RecordsFor, FaultCount, ErrorsOf, Only, Kept, Concerns;
    forall k | k in states
      ensures FollowsAll(states[k], k, flows, udps + [udp], Only(routed, k)) && states[k].Idle()
      ensures ErrorsOf(states[k].normalizer.cfg, udps + [udp], flows) == ErrorsOf(states[k].normalizer.cfg, udps, flows)
    {
      NoConcern(states[k].normalizer.cfg, flows, udps, udp);
    }
  }

  /**
   * One turn of the loop of _iter_routed_frames. Every flow follows the datagrams so far: its records, its errors and
   * its frames are its own, and a datagram of no concern to it leaves it untouched.
   */
  method RouteDatagram(
    states: States, flows: seq<FlowKey>, ghost udps: seq<UdpRecord>, udp: UdpRecord, policy: MalformedPolicy,
    ghost routed: seq<Routed>)
    returns (more: seq<Routed>, raised: bool)
    requires Indexed(flows, states) && AllFollow(states, flows, udps, routed)
    requires policy.Strict? ==> NoErrors(states, flows, udps)
    modifies Objects(states)
    ensures AllFollow(states, flows, udps + [udp], routed + more)
    ensures raised <==> policy.Strict? && !NoErrors(states, flows, udps + [udp])
    ensures raised ==> more == []
    ensures forall k | k in states && !Concerns(udp, flows, k) ::
              unchanged(states[k]) && unchanged(states[k].normalizer)
  {
    hide AllFollow, RecordsFor, FaultCount, ErrorsOf, Only, Parse, TargetOf, NoErrors;
    more, raised := [], false;
    assert routed + [] == routed;
    var parsed := ParseRtp(udp);
    match parsed
    case Err(error) =>
      var target := TargetOf(flows, error, udp);
      if target.Some? {
        RouteFault(states, target.value, error, flows, udps, udp, routed);
        raised := policy.Strict?;
      } else {
        Ignored(states, flows, udps, udp, routed);
      }
    case Ok(None) =>
      Ignored(states, flows, udps, udp, routed);
    case Ok(Some(record)) =>
      if record.flowKey in states {
        var malformed;
        more, malformed := RouteRecord(states, record, flows, udps, udp, routed);
        raised := malformed && policy.Strict?;
      } else {
        Ignored(states, flows, udps, udp, routed);
      }
  }

  /** A flow that is done: everything its records make the timeline emit has been handed on. */
  ghost predicate Done(
    state: FlowState, key: FlowKey, flows: seq<FlowKey>, udps: seq<UdpRecord>, frames: seq<EncodedFrame>)
    reads state, state.normalizer
  {
    && FollowsAll(state, key, flows, udps, frames)
    && state.normalizer.finished && state.normalizer.output == []
    && frames == FramesIn(Complete(state.normalizer.cfg, RecordsFor(udps, key)).emitted)
  }

  /** One timeline finished in its turn. */
  method FinishOne(
    state: FlowState, key: FlowKey, ghost flows: seq<FlowKey>, ghost udps: seq<UdpRecord>,
    ghost earlier: seq<EncodedFrame>)
    returns (frames: seq<EncodedFrame>)
    requires FollowsAll(state, key, flows, udps, earlier) && state.Idle()
    modifies state.normalizer
    ensures Done(state, key, flows, udps, earlier + frames)
  {
    hide FlowState.Valid, Complete, RecordsFor, FaultCount, ErrorsOf, Kept;
    frames := state.Close();
  }

  /** The second loop of _iter_routed_frames: every selected timeline is finished in turn. */
  method FinishAll(states: States, flows: seq<FlowKey>, ghost udps: seq<UdpRecord>, ghost routed: seq<Routed>)
    returns (more: seq<Routed>)
    requires Indexed(flows, states) && AllFollow(states, flows, udps, routed)
    modifies Objects(states)
    ensures forall k | k in states :: Done(states[k], k, flows, udps, Only(routed + more, k))
  {
    hide FlowState.Valid, Only, FollowsAll, Done, FlowState.Idle;
    more := [];
    assert routed + [] == routed;
    for i := 0 to |flows|
      invariant forall j | 0 <= j < i ::
                  Done(states[flows[j]], flows[j], flows, udps, Only(routed + more, flows[j]))
      invariant forall j | i <= j < |flows| ::
                  && FollowsAll(states[flows[j]], flows[j], flows, udps, Only(routed + more, flows[j]))
                  && states[flows[j]].Idle()
    {
      var key := flows[i];
      var frames := FinishOne(states[key], key, flows, udps, Only(routed + more, key));
      OnlyAfter(routed + more, key, frames);
      assert routed + (more + Tagged(key, frames)) == routed + more + Tagged(key, frames);
      more := more + Tagged(key, frames);
    }
    forall k | k in states ensures Done(states[k], k, flows, udps, Only(routed + more, k)) {
      var j :| 0 <= j < |flows| && flows[j] == k;
    }
  }

  lemma ErrorsStay(states: States, flows: seq<FlowKey>, udps: seq<UdpRecord>, n: nat)
    requires n <= |udps| && NoErrors(states, flows, udps)
    ensures NoErrors(states, flows, udps[..n])
  {
    hide ErrorsOf;
    forall k | k in states ensures ErrorsOf(states[k].normalizer.cfg, udps[..n], flows) == [] {
      ErrorsGrow(states[k].normalizer.cfg, udps, flows, n);
    }
  }

  /**
   * _iter_routed_frames. Unless a strict policy raises, each flow's frames are exactly those of a timeline that saw
   * its own records and nothing else. A strict policy raises exactly when a datagram or a payload of a selected flow
   * is malformed, at the first such datagram, when every flow has handed on what the datagrams so far released.
   */
  method IterRoutedFrames(udps: seq<UdpRecord>, flows: seq<FlowKey>, states: States, policy: MalformedPolicy)
    returns (routed: seq<Routed>, raised: bool, consumed: nat)
    requires Indexed(flows, states) && AllFollow(states, flows, [], []) && NoErrors(states, flows, [])
    modifies Objects(states)
    ensures raised <==> policy.Strict? && !NoErrors(states, flows, udps)
    ensures raised ==>
              && 0 < consumed <= |udps| && AllFollow(states, flows, udps[..consumed], routed)
              && NoErrors(states, flows, udps[..consumed - 1]) && !NoErrors(states, flows, udps[..consumed])
    ensures !raised ==> forall k | k in states :: Done(states[k], k, flows, udps, Only(routed, k))
  {
    hide AllFollow, Only, Separate, Done, NoErrors;
    routed, raised, consumed := [], false, 0;
    assert udps[..0] == [];
    while consumed < |udps|
      invariant 0 <= consumed <= |udps| && AllFollow(states, flows, udps[..consumed], routed)
      invariant policy.Strict? ==> NoErrors(states, flows, udps[..consumed])
    {
      var more;
      more, raised := RouteDatagram(states, flows, udps[..consumed], udps[consumed], policy, routed);
      assert udps[..consumed + 1] == udps[..consumed] + [udps[consumed]];
      routed, consumed := routed + more, consumed + 1;
      if raised {
        if NoErrors(states, flows, udps) {
          ErrorsStay(states, flows, udps, consumed);
        }
        return;
      }
    }
    assert udps[..consumed] == udps;
    var more := FinishAll(states, flows, udps, routed);
    routed := routed + more;
  }
}
