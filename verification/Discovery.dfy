/** Bounded discovery of flows and of the formats their payloads validate in (discovery.py, models.py). */
module Discovery {
  import opened Models
  import opened Retention
  import opened Rfc4867
  import opened Depacketizer

  datatype Format = Format(codec: Codec, mode: PayloadMode)

  /** Every codec with every mode, in declaration order. */
  const FORMATS: seq<Format> := [
    Format(Amr, OctetAligned), Format(Amr, BandwidthEfficient),
    Format(AmrWb, OctetAligned), Format(AmrWb, BandwidthEfficient)]

  datatype FlowSelector = FlowSelector(
    srcAddress: Option<string>, dstAddress: Option<string>, srcPort: Option<int>, dstPort: Option<int>,
    ssrc: Option<int>, payloadType: Option<int>)
  {
    predicate IsComplete() {
      && srcAddress.Some? && dstAddress.Some? && srcPort.Some? && dstPort.Some? && ssrc.Some? && payloadType.Some?
    }

    predicate IsPortFilter() {
      (srcPort.Some? || dstPort.Some?) && !IsComplete()
    }

    predicate MatchesFlow(key: FlowKey) {
      && (srcAddress.None? || srcAddress.value == key.srcAddress)
      && (dstAddress.None? || dstAddress.value == key.dstAddress)
      && (srcPort.None? || srcPort.value == key.srcPort)
      && (dstPort.None? || dstPort.value == key.dstPort)
      && (ssrc.None? || ssrc.value == key.ssrc)
      && (payloadType.None? || payloadType.value == key.payloadType)
    }
  }

  // ---------------------------------------------------------------------------------------------
  // Probing one payload
  // ---------------------------------------------------------------------------------------------

  datatype PayloadProbe = PayloadProbe(format: Format, success: bool, frameCount: nat, rejection: Option<Reason>)

  ghost function Reading(payload: Bytes, format: Format): Result<seq<Body>, Reason> {
    Bodies(format.codec, format.mode, payload)
  }

  ghost predicate Reads(payload: Bytes, format: Format) {
    Reading(payload, format).Ok?
  }

  ghost function ProbeOf(payload: Bytes, format: Format): PayloadProbe {
    match Reading(payload, format)
    case Ok(bodies) => PayloadProbe(format, true, |bodies|, None)
    case Err(reason) => PayloadProbe(format, false, 0, Some(reason))
  }

  /** probe_payload: one exact verdict for each format. */
  method ProbePayload(payload: Bytes) returns (results: seq<PayloadProbe>)
    ensures |results| == |FORMATS|
    ensures forall i | 0 <= i < |FORMATS| :: results[i] == ProbeOf(payload, FORMATS[i])
    ensures forall i | 0 <= i < |FORMATS| ::
              && results[i].format == FORMATS[i]
              && match Reading(payload, FORMATS[i])
                 case Ok(bodies) =>
                   results[i].success && results[i].frameCount == |bodies| && results[i].rejection == None
                 case Err(reason) =>
                   !results[i].success && results[i].frameCount == 0 && results[i].rejection == Some(reason)
  {
    hide Bodies, Frames;
    results := [];
    for i := 0 to |FORMATS|
      invariant |results| == i
      invariant forall j | 0 <= j < i :: results[j] == ProbeOf(payload, FORMATS[j])
    {
      var format := FORMATS[i];
      var frames := DepacketizePayload(payload, format.codec, format.mode, 0, Provenance(None, None));
      FrameTotal(payload, format, frames);
      match frames
      case Err(reason) => results := results + [PayloadProbe(format, false, 0, Some(reason))];
      case Ok(found) => results := results + [PayloadProbe(format, true, |found|, None)];
    }
  }

  lemma FrameTotal(payload: Bytes, format: Format, r: Result<seq<EncodedFrame>, Reason>)
    requires r == Depacketize(payload, format.codec, format.mode, 0, Provenance(None, None))
    ensures r.Ok? ==> Reading(payload, format).Ok? && |r.value| == |Reading(payload, format).value|
    ensures r.Err? ==> Reading(payload, format) == Err(r.error)
  {
    hide Bodies;
  }

  // ---------------------------------------------------------------------------------------------
  // Evidence
  // ---------------------------------------------------------------------------------------------

  datatype Evidence = Evidence(success: nat, failure: nat, firstRejection: Option<Reason>) {
    /** FormatEvidence.is_valid. */
    predicate IsValid() {
      success > 0 && failure == 0
    }
  }

  const NO_EVIDENCE := Evidence(0, 0, None)

  /** A format that no sample speaks for is not valid. */
  lemma UnseenNotValid()
    ensures !NO_EVIDENCE.IsValid()
  {
  }

  function Judge(evidence: Evidence, probe: PayloadProbe): Evidence {
    if probe.success then evidence.(success := evidence.success + 1)
    else evidence.(
      failure := evidence.failure + 1,
      firstRejection := if evidence.firstRejection.None? then probe.rejection else evidence.firstRejection)
  }

  type Verdicts = map<Format, Evidence>

  ghost predicate CoversFormats(verdicts: Verdicts) {
    forall format: Format :: format in verdicts
  }

  ghost function Judged(verdicts: Verdicts, payload: Bytes): (judged: Verdicts)
    ensures judged.Keys == verdicts.Keys
  {
    map format | format in verdicts :: Judge(verdicts[format], ProbeOf(payload, format))
  }

  /** A rejected probe with where it happened. */
  datatype Failure = Failure(flow: FlowKey, format: Format, reason: Reason, provenance: Provenance)

  ghost function RejectionsUpTo(record: RtpRecord, n: nat): seq<Failure>
    requires n <= |FORMATS|
  {
    if n == 0 then []
    else
      match Reading(record.payload, FORMATS[n - 1])
      case Ok(_) => RejectionsUpTo(record, n - 1)
      case Err(reason) =>
        RejectionsUpTo(record, n - 1) + [Failure(record.flowKey, FORMATS[n - 1], reason, record.provenance)]
  }

  ghost function Rejections(record: RtpRecord): seq<Failure> {
    RejectionsUpTo(record, |FORMATS|)
  }

  // ---------------------------------------------------------------------------------------------
  // One pass over the records
  // ---------------------------------------------------------------------------------------------

  /** candidate_identifier, an injective name for a flow and a packet number. */
  datatype CandidateId = CandidateId(packetNumber: int, flow: FlowKey)

  datatype Candidate = Candidate(
    id: CandidateId, flow: FlowKey, firstPacketNumber: int, sampled: nat, sampleOverflow: nat, verdicts: Verdicts)

  /** Everything a pass keeps, with the failures unbounded. */
  datatype Scan = Scan(
    states: map<FlowKey, Candidate>, observed: nat, sampled: nat, candidateOverflow: nat, sampleOverflow: nat,
    failures: seq<Failure>)

  const NOTHING_SCANNED := Scan(map[], 0, 0, 0, 0, [])

  /** A record at its place in the stream, counted from one. */
  datatype Sighting = Sighting(record: RtpRecord, position: nat)

  function NumberOf(s: Sighting): int {
    if s.record.provenance.packetNumber.Some? then s.record.provenance.packetNumber.value else s.position
  }

  function NoVerdicts(): Verdicts {
    map[Format(Amr, OctetAligned) := NO_EVIDENCE, Format(Amr, BandwidthEfficient) := NO_EVIDENCE,
        Format(AmrWb, OctetAligned) := NO_EVIDENCE, Format(AmrWb, BandwidthEfficient) := NO_EVIDENCE]
  }

  /** _new_candidate. */
  function NewCandidate(s: Sighting): Candidate {
    var key := s.record.flowKey;
    Candidate(CandidateId(NumberOf(s), key), key, NumberOf(s), 0, 0, NoVerdicts())
  }

  /** A known flow seen again, perhaps with a lower packet number. */
  function Renumbered(c: Candidate, record: RtpRecord): Candidate {
    var number := record.provenance.packetNumber;
    if number.Some? && number.value < c.firstPacketNumber
    then c.(firstPacketNumber := number.value, id := CandidateId(number.value, record.flowKey))
    else c
  }

  ghost function Sampled(limits: ResourceLimits, c: Candidate, payload: Bytes): Candidate {
    if c.sampled >= limits.maxSamplesPerFlow then c.(sampleOverflow := c.sampleOverflow + 1)
    else c.(sampled := c.sampled + 1, verdicts := Judged(c.verdicts, payload))
  }

  /** The candidate a sighting goes to, before it is sampled; None when there is no room for another flow. */
  function Admitted(limits: ResourceLimits, states: map<FlowKey, Candidate>, s: Sighting): Option<Candidate> {
    var key := s.record.flowKey;
    if key in states then Some(Renumbered(states[key], s.record))
    else if |states| >= limits.maxCandidates then None
    else Some(NewCandidate(s))
  }

  ghost function Observe(selector: FlowSelector, limits: ResourceLimits, t: Scan, s: Sighting): Scan {
    if !selector.MatchesFlow(s.record.flowKey) then t
    else
      match Admitted(limits, t.states, s)
      case None => t.(observed := t.observed + 1, candidateOverflow := t.candidateOverflow + 1)
      case Some(c) =>
        var states := t.states[s.record.flowKey := Sampled(limits, c, s.record.payload)];
        if c.sampled >= limits.maxSamplesPerFlow
        then t.(states := states, observed := t.observed + 1, sampleOverflow := t.sampleOverflow + 1)
        else t.(states := states, observed := t.observed + 1, sampled := t.sampled + 1,
                failures := t.failures + Rejections(s.record))
  }

  ghost function ScanOf(selector: FlowSelector, limits: ResourceLimits, records: seq<RtpRecord>): Scan {
    if records == [] then NOTHING_SCANNED
    else
      Observe(selector, limits, ScanOf(selector, limits, records[..|records| - 1]),
              Sighting(records[|records| - 1], |records|))
  }

  /** The verdicts with the first n formats judged. */
  ghost predicate JudgedUpTo(after: Verdicts, before: Verdicts, payload: Bytes, n: nat)
    requires n <= |FORMATS|
  {
    && after.Keys == before.Keys
    && forall f | f in before ::
         after[f] == if f in FORMATS[..n] then Judge(before[f], ProbeOf(payload, f)) else before[f]
  }

  lemma JudgedNext(after: Verdicts, before: Verdicts, payload: Bytes, n: nat)
    requires n < |FORMATS| && CoversFormats(before) && JudgedUpTo(after, before, payload, n)
    ensures FORMATS[n] in after
    ensures JudgedUpTo(after[FORMATS[n] := Judge(after[FORMATS[n]], ProbeOf(payload, FORMATS[n]))], before, payload,
                       n + 1)
  {
    hide ProbeOf, Judge;
    FormatPrefix(n);
    assert FORMATS[n] in before;
  }

  lemma JudgedAll(after: Verdicts, before: Verdicts, payload: Bytes)
    ensures JudgedUpTo(before, before, payload, 0)
    ensures JudgedUpTo(after, before, payload, |FORMATS|) ==> after == Judged(before, payload)
  {
    hide ProbeOf, Judge;
    assert FORMATS[..|FORMATS|] == FORMATS;
    EveryFormat();
  }

  /** The failures so far, kept up to the limit and counted beyond it. */
  ghost predicate Retains(limits: ResourceLimits, failures: seq<Failure>, diagnostics: seq<Failure>, overflow: int) {
    diagnostics == Kept(limits, failures) && overflow == |failures| - |diagnostics|
  }

  lemma RetainsNext(
    limits: ResourceLimits, failures: seq<Failure>, diagnostics: seq<Failure>, overflow: int, record: RtpRecord, n: nat)
    requires n < |FORMATS| && Retains(limits, failures + RejectionsUpTo(record, n), diagnostics, overflow)
    ensures var probe := ProbeOf(record.payload, FORMATS[n]);
            var all := failures + RejectionsUpTo(record, n + 1);
            if probe.success then Retains(limits, all, diagnostics, overflow)
            else
              && probe.rejection.Some?
              && var failure := Failure(record.flowKey, FORMATS[n], probe.rejection.value, record.provenance);
              if |diagnostics| < limits.maxDiagnostics then Retains(limits, all, diagnostics + [failure], overflow)
              else Retains(limits, all, diagnostics, overflow + 1)
  {
    hide Bodies, Kept;
    var before := failures + RejectionsUpTo(record, n);
    var probe := ProbeOf(record.payload, FORMATS[n]);
    if !probe.success {
      var failure := Failure(record.flowKey, FORMATS[n], probe.rejection.value, record.provenance);
      KeptAppend(limits, before, failure);
      assert failures + RejectionsUpTo(record, n + 1) == before + [failure];
    }
  }

  /** The inner loop of discover_candidates: one sampled payload weighed in every format. */
  method Weigh(
    limits: ResourceLimits, verdicts: Verdicts, record: RtpRecord, diagnostics: seq<Failure>, overflow: nat,
    ghost failures: seq<Failure>)
    returns (verdicts': Verdicts, diagnostics': seq<Failure>, overflow': nat)
    requires CoversFormats(verdicts)
    requires Retains(limits, failures, diagnostics, overflow)
    ensures verdicts' == Judged(verdicts, record.payload)
    ensures Retains(limits, failures + Rejections(record), diagnostics', overflow')
  {
    hide ProbeOf, Judge, Retains, JudgedUpTo, CoversFormats, Judged;
    verdicts', diagnostics', overflow' := verdicts, diagnostics, overflow;
    var results := ProbePayload(record.payload);
    assert failures + RejectionsUpTo(record, 0) == failures;
    hide RejectionsUpTo;
    JudgedAll(verdicts', verdicts, record.payload);
    for i := 0 to |FORMATS|
      invariant JudgedUpTo(verdicts', verdicts, record.payload, i)
      invariant Retains(limits, failures + RejectionsUpTo(record, i), diagnostics', overflow')
    {
      var result := results[i];
      JudgedNext(verdicts', verdicts, record.payload, i);
      RetainsNext(limits, failures, diagnostics', overflow', record, i);
      ProbeFormat(record.payload, FORMATS[i]);
      verdicts' := verdicts'[result.format := Judge(verdicts'[result.format], result)];
      if !result.success {
        var failure := Failure(record.flowKey, result.format, result.rejection.value, record.provenance);
        if |diagnostics'| < limits.maxDiagnostics {
          diagnostics' := diagnostics' + [failure];
        } else {
          overflow' := overflow' + 1;
        }
      }
    }
    JudgedAll(verdicts', verdicts, record.payload);
  }

  lemma ProbeFormat(payload: Bytes, format: Format)
    ensures ProbeOf(payload, format).format == format
  {
    hide Bodies;
  }

  lemma FormatPrefix(i: nat)
    requires i < |FORMATS|
    ensures FORMATS[i] !in FORMATS[..i] && forall f :: f in FORMATS[..i + 1] <==> f in FORMATS[..i] || f == FORMATS[i]
  {
    assert FORMATS[..i + 1] == FORMATS[..i] + [FORMATS[i]];
  }

  lemma OneOfFour(f: Format)
    ensures f in FORMATS
  {
    match f
    case Format(Amr, OctetAligned) => assert FORMATS[0] == f;
    case Format(Amr, BandwidthEfficient) => assert FORMATS[1] == f;
    case Format(AmrWb, OctetAligned) => assert FORMATS[2] == f;
    case Format(AmrWb, BandwidthEfficient) => assert FORMATS[3] == f;
  }

  lemma EveryFormat()
    ensures forall f: Format :: f in FORMATS
  {
    forall f: Format ensures f in FORMATS {
      OneOfFour(f);
    }
  }

  ghost predicate AllComplete(states: map<FlowKey, Candidate>) {
    forall k | k in states :: CoversFormats(states[k].verdicts)
  }

  lemma FreshVerdict(f: Format)
    ensures f in NoVerdicts() && NoVerdicts()[f] == NO_EVIDENCE
  {
    match f
    case Format(Amr, OctetAligned) =>
    case Format(Amr, BandwidthEfficient) =>
    case Format(AmrWb, OctetAligned) =>
    case Format(AmrWb, BandwidthEfficient) =>
  }

  lemma AdmittedComplete(limits: ResourceLimits, states: map<FlowKey, Candidate>, s: Sighting)
    requires AllComplete(states) && Admitted(limits, states, s).Some?
    ensures CoversFormats(Admitted(limits, states, s).value.verdicts)
  {
    forall f: Format ensures f in NoVerdicts() {
      FreshVerdict(f);
    }
  }

  /** discover_candidates for a record whose flow has a state: count it or sample it. */
  method Sample(
    limits: ResourceLimits, c: Candidate, record: RtpRecord, diagnostics: seq<Failure>, overflow: nat,
    ghost failures: seq<Failure>)
    returns (c': Candidate, diagnostics': seq<Failure>, overflow': nat)
    requires CoversFormats(c.verdicts)
    requires Retains(limits, failures, diagnostics, overflow)
    ensures c' == Sampled(limits, c, record.payload) && CoversFormats(c'.verdicts)
    ensures Retains(limits, if c.sampled >= limits.maxSamplesPerFlow then failures else failures + Rejections(record),
                    diagnostics', overflow')
  {
    hide Bodies, Retains, Rejections;
    if c.sampled >= limits.maxSamplesPerFlow {
      return c.(sampleOverflow := c.sampleOverflow + 1), diagnostics, overflow;
    }
    var verdicts;
    verdicts, diagnostics', overflow' := Weigh(limits, c.verdicts, record, diagnostics, overflow, failures);
    c' := c.(sampled := c.sampled + 1, verdicts := verdicts);
  }

  lemma ScanUnfold(selector: FlowSelector, limits: ResourceLimits, records: seq<RtpRecord>, i: nat)
    requires i < |records|
    ensures ScanOf(selector, limits, records[..i + 1])
            == Observe(selector, limits, ScanOf(selector, limits, records[..i]), Sighting(records[i], i + 1))
  {
    hide Observe;
    assert records[..i + 1][..i] == records[..i];
  }

  /** discover_candidates up to the freezing of its states. */
  method DiscoverStates(records: seq<RtpRecord>, selector: FlowSelector, limits: ResourceLimits)
    returns (t: Scan, diagnostics: seq<Failure>, diagnosticOverflow: nat)
    ensures var full := ScanOf(selector, limits, records);
            && t == full.(failures := [])
            && Retains(limits, full.failures, diagnostics, diagnosticOverflow)
  {
    hide Bodies, Retains, Rejections, Sampled, ScanOf, Admitted, CoversFormats;
    var states: map<FlowKey, Candidate> := map[];
    diagnostics, diagnosticOverflow := [], 0;
    var observed, sampled, candidateOverflow, sampleOverflow := 0, 0, 0, 0;
    ghost var failures: seq<Failure> := [];
    NothingKept(selector, limits);
    for i := 0 to |records|
      invariant Scan(states, observed, sampled, candidateOverflow, sampleOverflow, failures)
                == ScanOf(selector, limits, records[..i])
      invariant AllComplete(states)
      invariant Retains(limits, failures, diagnostics, diagnosticOverflow)
    {
      var record, position := records[i], i + 1;
      ScanUnfold(selector, limits, records, i);
      if selector.MatchesFlow(record.flowKey) {
        observed := observed + 1;
        var state := Admitted(limits, states, Sighting(record, position));
        if state.None? {
          candidateOverflow := candidateOverflow + 1;
        } else {
          AdmittedComplete(limits, states, Sighting(record, position));
          var c;
          c, diagnostics, diagnosticOverflow :=
            Sample(limits, state.value, record, diagnostics, diagnosticOverflow, failures);
          if state.value.sampled >= limits.maxSamplesPerFlow {
            sampleOverflow := sampleOverflow + 1;
          } else {
            sampled := sampled + 1;
            failures := failures + Rejections(record);
          }
          states := states[record.flowKey := c];
        }
      }
    }
    assert records[..|records|] == records;
    t := Scan(states, observed, sampled, candidateOverflow, sampleOverflow, []);
  }

  lemma NothingKept(selector: FlowSelector, limits: ResourceLimits)
    ensures Retains(limits, [], [], 0) && ScanOf(selector, limits, []) == NOTHING_SCANNED
  {
  }
}
