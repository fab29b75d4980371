/** What discovery's counters and verdicts mean, flow by flow, and that the order of the records hardly matters. */
module Findings {
  import opened Models
  import opened Rfc4867
  import opened Discovery

  // ---------------------------------------------------------------------------------------------
  // One flow on its own
  // ---------------------------------------------------------------------------------------------

  /** The sightings of one flow. */
  function OfFlow(records: seq<RtpRecord>, key: FlowKey): seq<Sighting> {
    if records == [] then []
    else
      var last := records[|records| - 1];
      OfFlow(records[..|records| - 1], key) + (if last.flowKey == key then [Sighting(last, |records|)] else [])
  }

  /** What a flow's candidate would be with no other flow around. */
  ghost function Summary(limits: ResourceLimits, sightings: seq<Sighting>): Candidate
    requires sightings != []
  {
    var front, last := sightings[..|sightings| - 1], sightings[|sightings| - 1];
    Sampled(limits, if front == [] then NewCandidate(last) else Renumbered(Summary(limits, front), last.record),
            last.record.payload)
  }

  /** Each candidate depends on the records of its own flow only. */
  ghost predicate FlowViewed(
    selector: FlowSelector, limits: ResourceLimits, t: Scan, sightings: seq<Sighting>, key: FlowKey)
  {
    && (key in t.states ==>
          selector.MatchesFlow(key) && sightings != [] && t.states[key] == Summary(limits, sightings))
    && (selector.MatchesFlow(key) && key !in t.states && |t.states| < limits.maxCandidates ==> sightings == [])
    && (selector.MatchesFlow(key) && t.candidateOverflow == 0 && sightings != [] ==> key in t.states)
  }

  lemma ObserveViewed(
    selector: FlowSelector, limits: ResourceLimits, t: Scan, s: Sighting, sightings: seq<Sighting>, key: FlowKey)
    requires FlowViewed(selector, limits, t, sightings, key)
    requires FlowViewed(selector, limits, t, sightings, s.record.flowKey) || s.record.flowKey != key
    ensures FlowViewed(selector, limits, Observe(selector, limits, t, s),
                       if s.record.flowKey == key then sightings + [s] else sightings, key)
  {
    hide Sampled, Renumbered, NewCandidate, Rejections, Summary, FlowSelector.MatchesFlow;
    if s.record.flowKey == key {
      SummaryStep(limits, sightings, s);
    } else if Admitted(limits, t.states, s).Some? {
      GrowsOnly(t.states, s.record.flowKey, Sampled(limits, Admitted(limits, t.states, s).value, s.record.payload));
    }
  }

  lemma SummaryStep(limits: ResourceLimits, sightings: seq<Sighting>, s: Sighting)
    ensures Summary(limits, sightings + [s])
            == Sampled(limits,
                       if sightings == [] then NewCandidate(s) else Renumbered(Summary(limits, sightings), s.record),
                       s.record.payload)
  {
    hide Sampled, Renumbered, NewCandidate;
    assert (sightings + [s])[..|sightings|] == sightings;
  }

  lemma GrowsOnly(states: map<FlowKey, Candidate>, key: FlowKey, c: Candidate)
    ensures |states| <= |states[key := c]|
  {
    var grown := states[key := c];
    if key in states {
      assert grown.Keys == states.Keys;
    } else {
      assert grown.Keys == states.Keys + {key};
    }
  }

  lemma OfFlowStep(records: seq<RtpRecord>, key: FlowKey)
    requires records != []
    ensures var front, last := records[..|records| - 1], records[|records| - 1];
            OfFlow(records, key)
            == if last.flowKey == key then OfFlow(front, key) + [Sighting(last, |records|)] else OfFlow(front, key)
  {
  }

  lemma {:induction false} FlowView(
    selector: FlowSelector, limits: ResourceLimits, records: seq<RtpRecord>, key: FlowKey)
    ensures FlowViewed(selector, limits, ScanOf(selector, limits, records), OfFlow(records, key), key)
  {
    hide FlowViewed, Observe;
    if records == [] {
      NothingViewed(selector, limits, key);
      assert records == [];
    } else {
      var front, last := records[..|records| - 1], records[|records| - 1];
      FlowView(selector, limits, front, key);
      OfFlowStep(records, key);
      ObserveViewed(selector, limits, ScanOf(selector, limits, front), Sighting(last, |records|), OfFlow(front, key),
                    key);
    }
  }

  lemma NothingViewed(selector: FlowSelector, limits: ResourceLimits, key: FlowKey)
    ensures FlowViewed(selector, limits, ScanOf(selector, limits, []), OfFlow([], key), key)
  {
  }

  // ---------------------------------------------------------------------------------------------
  // What a summary says
  // ---------------------------------------------------------------------------------------------

  function Min(a: int, b: int): int {
    if a < b then a else b
  }

  ghost function EvidenceOf(sightings: seq<Sighting>, format: Format): Evidence {
    if sightings == [] then NO_EVIDENCE
    else
      Judge(EvidenceOf(sightings[..|sightings| - 1], format),
            ProbeOf(sightings[|sightings| - 1].record.payload, format))
  }

  /** The samples a flow gets: its first sightings. */
  function Samples(limits: ResourceLimits, sightings: seq<Sighting>): (samples: seq<Sighting>)
    requires limits.maxSamplesPerFlow >= 1
    ensures |samples| == Min(|sightings|, limits.maxSamplesPerFlow)
  {
    sightings[..Min(|sightings|, limits.maxSamplesPerFlow)]
  }

  lemma {:induction false} SummaryCounts(limits: ResourceLimits, sightings: seq<Sighting>, format: Format)
    requires limits.maxSamplesPerFlow >= 1 && sightings != []
    ensures var c := Summary(limits, sightings);
            && c.sampled == |Samples(limits, sightings)|
            && c.sampled + c.sampleOverflow == |sightings|
            && format in c.verdicts
            && c.verdicts[format] == EvidenceOf(Samples(limits, sightings), format)
  {
    hide Judge, ProbeOf, Summary, EvidenceOf;
    var n := |sightings| - 1;
    var front, last := sightings[..n], sightings[n];
    assert sightings == front + [last];
    SummaryStep(limits, front, last);
    if front != [] {
      SummaryCounts(limits, front, format);
    } else {
      FreshVerdict(format);
      NoEvidence(format);
    }
    if n < limits.maxSamplesPerFlow {
      EvidenceStep(front, last, format);
      assert Samples(limits, front) == front && Samples(limits, sightings) == sightings;
    } else {
      assert Samples(limits, front) == Samples(limits, sightings);
    }
  }

  lemma NoEvidence(format: Format)
    ensures EvidenceOf([], format) == NO_EVIDENCE
  {
  }

  lemma EvidenceStep(front: seq<Sighting>, last: Sighting, format: Format)
    ensures EvidenceOf(front + [last], format) == Judge(EvidenceOf(front, format), ProbeOf(last.record.payload, format))
  {
    hide Judge, ProbeOf;
    assert (front + [last])[..|front|] == front;
  }

  /** The payloads that do not read before a first failure. */
  ghost predicate FirstFailure(sightings: seq<Sighting>, format: Format, i: int, reason: Reason) {
    && 0 <= i < |sightings|
    && Reading(sightings[i].record.payload, format) == Err(reason)
    && forall j | 0 <= j < i :: Reads(sightings[j].record.payload, format)
  }

  ghost predicate AllRead(sightings: seq<Sighting>, format: Format) {
    forall i | 0 <= i < |sightings| :: Reads(sightings[i].record.payload, format)
  }

  /** Each sample is a success or a failure, and the first rejection is that of the first failure. */
  ghost predicate Weighed(sightings: seq<Sighting>, format: Format, e: Evidence) {
    && e.success + e.failure == |sightings|
    && (e.failure == 0 <==> AllRead(sightings, format))
    && (e.firstRejection.None? <==> e.failure == 0)
    && (e.failure > 0 ==> exists i :: FirstFailure(sightings, format, i, e.firstRejection.value))
  }

  lemma WeighedStep(front: seq<Sighting>, last: Sighting, format: Format, e: Evidence)
    requires Weighed(front, format, e)
    ensures Weighed(front + [last], format, Judge(e, ProbeOf(last.record.payload, format)))
  {
    hide Reading;
    var all, e' := front + [last], Judge(e, ProbeOf(last.record.payload, format));
    ReadsAppend(front, last, format);
    if e.failure > 0 {
      var i :| FirstFailure(front, format, i, e.firstRejection.value);
      assert FirstFailure(all, format, i, e.firstRejection.value);
    } else if e'.failure > 0 {
      assert FirstFailure(all, format, |front|, e'.firstRejection.value);
    }
  }

  lemma ReadsAppend(front: seq<Sighting>, last: Sighting, format: Format)
    ensures AllRead(front + [last], format) <==> AllRead(front, format) && Reads(last.record.payload, format)
  {
    hide Reads;
    var all := front + [last];
    if AllRead(all, format) {
      forall i | 0 <= i < |front| ensures Reads(front[i].record.payload, format) {
        assert all[i] == front[i];
      }
      assert all[|front|] == last;
    }
  }

  lemma {:induction false} EvidenceWeighed(sightings: seq<Sighting>, format: Format)
    ensures Weighed(sightings, format, EvidenceOf(sightings, format))
  {
    hide Judge, ProbeOf, EvidenceOf, Weighed;
    if sightings == [] {
      NothingWeighed(format);
      assert sightings == [];
    } else {
      var front, last := sightings[..|sightings| - 1], sightings[|sightings| - 1];
      assert sightings == front + [last];
      EvidenceWeighed(front, format);
      EvidenceStep(front, last, format);
      WeighedStep(front, last, format, EvidenceOf(front, format));
    }
  }

  lemma NothingWeighed(format: Format)
    ensures Weighed([], format, EvidenceOf([], format))
  {
  }

  /** The verdicts of every candidate weigh the first samples of its flow. */
  lemma CandidateWeighed(
    selector: FlowSelector, limits: ResourceLimits, records: seq<RtpRecord>, key: FlowKey, format: Format)
    requires limits.Valid() && key in ScanOf(selector, limits, records).states
    ensures var c, sightings := ScanOf(selector, limits, records).states[key], OfFlow(records, key);
            && sightings != []
            && c.sampled == Min(|sightings|, limits.maxSamplesPerFlow) && c.sampled + c.sampleOverflow == |sightings|
            && format in c.verdicts && Weighed(Samples(limits, sightings), format, c.verdicts[format])
  {
    hide ScanOf, Summary, Weighed, EvidenceOf, FlowSelector.MatchesFlow;
    FlowView(selector, limits, records, key);
    SummaryCounts(limits, OfFlow(records, key), format);
    EvidenceWeighed(Samples(limits, OfFlow(records, key)), format);
  }

  /** A format is valid exactly when each of the flow's first samples reads in it; there is always at least one. */
  lemma ValidIff(
    selector: FlowSelector, limits: ResourceLimits, records: seq<RtpRecord>, key: FlowKey, format: Format)
    requires limits.Valid() && key in ScanOf(selector, limits, records).states
    requires format in ScanOf(selector, limits, records).states[key].verdicts
    ensures var e := ScanOf(selector, limits, records).states[key].verdicts[format];
            e.IsValid() <==> AllRead(Samples(limits, OfFlow(records, key)), format)
    ensures Samples(limits, OfFlow(records, key)) != []
  {
    hide ScanOf, AllRead;
    CandidateWeighed(selector, limits, records, key, format);
  }

  // ---------------------------------------------------------------------------------------------
  // The name of a candidate
  // ---------------------------------------------------------------------------------------------

  /**
   * The numbers a flow's packets bring: their packet numbers, and for a first packet without one its place among all
   * the records.
   */
  predicate Brings(sightings: seq<Sighting>, i: int, n: int) {
    && 0 <= i < |sightings|
    && match sightings[i].record.provenance.packetNumber
       case Some(number) => n == number
       case None => i == 0 && n == sightings[i].position
  }

  ghost predicate LeastBrought(sightings: seq<Sighting>, n: int) {
    && (exists i :: Brings(sightings, i, n))
    && (forall i, m | Brings(sightings, i, m) :: n <= m)
  }

  lemma BringsAppend(front: seq<Sighting>, last: Sighting, i: int, m: int)
    ensures Brings(front + [last], i, m)
            <==> Brings(front, i, m)
                 || (i == |front| && if last.record.provenance.packetNumber.Some?
                                     then m == last.record.provenance.packetNumber.value
                                     else front == [] && m == last.position)
  {
  }

  lemma LeastStep(front: seq<Sighting>, last: Sighting, n: int, n': int)
    requires front != [] ==> LeastBrought(front, n)
    requires var number := last.record.provenance.packetNumber;
             n' == if front == [] then (if number.Some? then number.value else last.position)
                   else if number.Some? && number.value < n then number.value else n
    ensures LeastBrought(front + [last], n')
  {
    hide Brings;
    var all, number := front + [last], last.record.provenance.packetNumber;
    forall i, m ensures Brings(all, i, m) ==> n' <= m {
      BringsAppend(front, last, i, m);
      if front == [] {
        NoneBrought(i, m);
      }
    }
    if front != [] && n' == n {
      var i :| Brings(front, i, n);
      BringsAppend(front, last, i, n);
    } else {
      BringsAppend(front, last, |front|, n');
    }
  }

  lemma NoneBrought(i: int, m: int)
    ensures !Brings([], i, m)
  {
  }

  lemma {:induction false} SummaryNamed(limits: ResourceLimits, sightings: seq<Sighting>, key: FlowKey)
    requires sightings != [] && forall i | 0 <= i < |sightings| :: sightings[i].record.flowKey == key
    ensures var c := Summary(limits, sightings);
            && c.flow == key && c.id == CandidateId(c.firstPacketNumber, key)
            && LeastBrought(sightings, c.firstPacketNumber)
  {
    hide Judged, Summary, LeastBrought;
    var n := |sightings| - 1;
    var front, last := sightings[..n], sightings[n];
    assert sightings == front + [last];
    SummaryStep(limits, front, last);
    if front == [] {
      LeastStep(front, last, 0, Summary(limits, sightings).firstPacketNumber);
    } else {
      SummaryNamed(limits, front, key);
      LeastStep(front, last, Summary(limits, front).firstPacketNumber, Summary(limits, sightings).firstPacketNumber);
    }
  }

  /** Each sighting is a record of the flow at its own place. */
  lemma {:induction false} SightingPlace(records: seq<RtpRecord>, key: FlowKey)
    ensures forall i | 0 <= i < |OfFlow(records, key)| ::
              var s := OfFlow(records, key)[i];
              1 <= s.position <= |records| && records[s.position - 1] == s.record && s.record.flowKey == key
  {
    if records != [] {
      var front := records[..|records| - 1];
      SightingPlace(front, key);
      var sightings := OfFlow(records, key);
      forall i | 0 <= i < |sightings|
        ensures 1 <= sightings[i].position <= |records| && records[sightings[i].position - 1] == sightings[i].record
        ensures sightings[i].record.flowKey == key
      {
        if i < |OfFlow(front, key)| {
          assert sightings[i] == OfFlow(front, key)[i];
        }
      }
    }
  }

  /** A candidate is named after its flow and the least number that the flow's packets bring. */
  lemma CandidateNamed(selector: FlowSelector, limits: ResourceLimits, records: seq<RtpRecord>, key: FlowKey)
    requires limits.Valid() && key in ScanOf(selector, limits, records).states
    ensures var c := ScanOf(selector, limits, records).states[key];
            && c.flow == key && c.id == CandidateId(c.firstPacketNumber, key)
            && LeastBrought(OfFlow(records, key), c.firstPacketNumber)
  {
    hide ScanOf, Summary, FlowSelector.MatchesFlow, LeastBrought;
    FlowView(selector, limits, records, key);
    SightingPlace(records, key);
    SummaryNamed(limits, OfFlow(records, key), key);
  }

  // ---------------------------------------------------------------------------------------------
  // Conservation
  // ---------------------------------------------------------------------------------------------

  function Matching(selector: FlowSelector, records: seq<RtpRecord>): nat {
    if records == [] then 0
    else
      Matching(selector, records[..|records| - 1])
      + (if selector.MatchesFlow(records[|records| - 1].flowKey) then 1 else 0)
  }

  /** Every matching record is sampled, beyond its flow's samples, or beyond the candidates. */
  lemma {:induction false} ScanConserved(selector: FlowSelector, limits: ResourceLimits, records: seq<RtpRecord>)
    ensures var t := ScanOf(selector, limits, records);
            && t.observed == Matching(selector, records)
            && t.observed == t.sampled + t.sampleOverflow + t.candidateOverflow
  {
    hide Sampled, Rejections, Admitted, FlowSelector.MatchesFlow;
    if records != [] {
      ScanConserved(selector, limits, records[..|records| - 1]);
    }
  }

  /** The failures of one flow in one format. */
  function FailuresIn(failures: seq<Failure>, key: FlowKey, format: Format): nat {
    if failures == [] then 0
    else
      var last := failures[|failures| - 1];
      FailuresIn(failures[..|failures| - 1], key, format) + (if last.flow == key && last.format == format then 1 else 0)
  }

  lemma {:induction false} FailuresConcat(a: seq<Failure>, b: seq<Failure>, key: FlowKey, format: Format)
    ensures FailuresIn(a + b, key, format) == FailuresIn(a, key, format) + FailuresIn(b, key, format)
  {
    if b == [] {
      assert a + b == a;
    } else {
      FailuresConcat(a, b[..|b| - 1], key, format);
      assert (a + b)[..|a + b| - 1] == a + b[..|b| - 1];
    }
  }

  lemma {:induction false} RejectionsCount(record: RtpRecord, n: nat, key: FlowKey, format: Format)
    requires n <= |FORMATS|
    ensures FailuresIn(RejectionsUpTo(record, n), key, format)
            == if record.flowKey == key && format in FORMATS[..n] && !Reads(record.payload, format) then 1 else 0
  {
    hide Bodies;
    if n > 0 {
      RejectionsCount(record, n - 1, key, format);
      FormatPrefix(n - 1);
      var front := RejectionsUpTo(record, n - 1);
      if !Reads(record.payload, FORMATS[n - 1]) {
        var last := Failure(record.flowKey, FORMATS[n - 1], Reading(record.payload, FORMATS[n - 1]).error,
                            record.provenance);
        assert (front + [last])[..|front|] == front;
      }
    }
  }

  /** The logged failures of each flow and format are the ones its evidence counts. */
  ghost predicate Logged(t: Scan, key: FlowKey, format: Format) {
    FailuresIn(t.failures, key, format)
    == if key in t.states && format in t.states[key].verdicts then t.states[key].verdicts[format].failure else 0
  }

  lemma AllRejections(record: RtpRecord, key: FlowKey, format: Format)
    ensures FailuresIn(Rejections(record), key, format)
            == if record.flowKey == key && !Reads(record.payload, format) then 1 else 0
  {
    hide Reads, RejectionsUpTo;
    RejectionsCount(record, |FORMATS|, key, format);
    assert FORMATS[..|FORMATS|] == FORMATS;
    OneOfFour(format);
  }

  lemma ObserveLogged(
    selector: FlowSelector, limits: ResourceLimits, t: Scan, s: Sighting, key: FlowKey, format: Format)
    requires Logged(t, key, format) && AllComplete(t.states)
    ensures Logged(Observe(selector, limits, t, s), key, format) && AllComplete(Observe(selector, limits, t, s).states)
  {
    hide Rejections, FailuresIn, Reading, FlowSelector.MatchesFlow;
    FailuresConcat(t.failures, Rejections(s.record), key, format);
    AllRejections(s.record, key, format);
    FreshVerdict(format);
    if Admitted(limits, t.states, s).Some? {
      AdmittedComplete(limits, t.states, s);
    }
  }

  lemma {:induction false} FailuresLogged(
    selector: FlowSelector, limits: ResourceLimits, records: seq<RtpRecord>, key: FlowKey, format: Format)
    ensures Logged(ScanOf(selector, limits, records), key, format)
            && AllComplete(ScanOf(selector, limits, records).states)
  {
    hide Observe, Logged, AllComplete;
    if records == [] {
      NothingLogged(selector, limits, key, format);
      assert records == [];
    } else {
      var front := records[..|records| - 1];
      FailuresLogged(selector, limits, front, key, format);
      ObserveLogged(selector, limits, ScanOf(selector, limits, front), Sighting(records[|records| - 1], |records|), key,
                    format);
    }
  }

  lemma NothingLogged(selector: FlowSelector, limits: ResourceLimits, key: FlowKey, format: Format)
    ensures Logged(ScanOf(selector, limits, []), key, format) && AllComplete(ScanOf(selector, limits, []).states)
  {
  }

  // ---------------------------------------------------------------------------------------------
  // Which flows become candidates
  // ---------------------------------------------------------------------------------------------

  /** The flows the selector lets through, in the order in which they are first seen. */
  function FlowsSeen(selector: FlowSelector, records: seq<RtpRecord>): (flows: seq<FlowKey>) {
    if records == [] then []
    else
      var front, key := FlowsSeen(selector, records[..|records| - 1]), records[|records| - 1].flowKey;
      front + (if selector.MatchesFlow(key) && key !in front then [key] else [])
  }

  ghost predicate FirstFlows(states: map<FlowKey, Candidate>, seen: seq<FlowKey>, limit: int)
    requires limit >= 0
  {
    && |states| == Min(|seen|, limit)
    && forall k :: k in states <==> k in seen[..Min(|seen|, limit)]
  }

  lemma FlowsSeenStep(selector: FlowSelector, front: seq<RtpRecord>, last: RtpRecord)
    ensures var seen, key := FlowsSeen(selector, front), last.flowKey;
            FlowsSeen(selector, front + [last])
            == seen + (if selector.MatchesFlow(key) && key !in seen then [key] else [])
  {
    hide FlowSelector.MatchesFlow;
    assert (front + [last])[..|front|] == front;
  }

  lemma ObserveKeys(selector: FlowSelector, limits: ResourceLimits, t: Scan, s: Sighting)
    ensures var key, t' := s.record.flowKey, Observe(selector, limits, t, s);
            var turned := selector.MatchesFlow(key) && key !in t.states && |t.states| >= limits.maxCandidates;
            && t'.states.Keys
               == (if selector.MatchesFlow(key) && !turned then t.states.Keys + {key} else t.states.Keys)
            && t'.candidateOverflow == t.candidateOverflow + (if turned then 1 else 0)
  {
    hide Sampled, Renumbered, NewCandidate, Rejections, FlowSelector.MatchesFlow, Admitted;
    AdmittedIff(limits, t.states, s);
    var admitted := Admitted(limits, t.states, s);
    if admitted.Some? {
      KeysWith(t.states, s.record.flowKey, Sampled(limits, admitted.value, s.record.payload));
    }
  }

  lemma AdmittedIff(limits: ResourceLimits, states: map<FlowKey, Candidate>, s: Sighting)
    ensures Admitted(limits, states, s).Some? <==> s.record.flowKey in states || |states| < limits.maxCandidates
  {
    hide Renumbered, NewCandidate;
  }

  lemma KeysWith<K, V>(m: map<K, V>, k: K, v: V)
    ensures m[k := v].Keys == m.Keys + {k}
  {
  }

  lemma FirstFlowsStep(
    states: map<FlowKey, Candidate>, states': map<FlowKey, Candidate>, seen: seq<FlowKey>, key: FlowKey, limit: nat)
    requires FirstFlows(states, seen, limit)
    requires states'.Keys
             == if key in states || |states| < limit then states.Keys + {key} else states.Keys
    ensures FirstFlows(states', if key in seen then seen else seen + [key], limit)
  {
    if key in states || |states| >= limit {
      assert states'.Keys == states.Keys;
      SameFlows(states, states', seen, limit);
      FurtherFlow(states', seen, key, limit);
    } else {
      NewFlow(states, states', seen, key, limit);
    }
  }

  lemma FurtherFlow(states: map<FlowKey, Candidate>, seen: seq<FlowKey>, key: FlowKey, limit: nat)
    requires FirstFlows(states, seen, limit) && (key in states || |states| >= limit)
    ensures FirstFlows(states, if key in seen then seen else seen + [key], limit)
  {
    if key !in seen {
      assert (seen + [key])[..limit] == seen[..limit];
    }
  }

  lemma NewFlow(
    states: map<FlowKey, Candidate>, states': map<FlowKey, Candidate>, seen: seq<FlowKey>, key: FlowKey, limit: nat)
    requires FirstFlows(states, seen, limit) && key !in states && |states| < limit
    requires states'.Keys == states.Keys + {key}
    ensures key !in seen && FirstFlows(states', seen + [key], limit)
  {
    assert seen[..|seen|] == seen && (seen + [key])[..|seen| + 1] == seen + [key];
    assert |states'.Keys| == |states.Keys| + 1;
  }

  /**
   * The candidates are the flows the selector lets through that are seen first, as many as the limit allows.
   */
  lemma {:induction false} FirstFlowsAdmitted(selector: FlowSelector, limits: ResourceLimits, records: seq<RtpRecord>)
    requires limits.Valid()
    ensures FirstFlows(ScanOf(selector, limits, records).states, FlowsSeen(selector, records), limits.maxCandidates)
  {
    hide ScanOf, Observe, FlowSelector.MatchesFlow, FirstFlows, FlowsSeen;
    if records == [] {
      NoFlowsSeen(selector, limits);
      assert records == [];
    } else {
      var front, last := records[..|records| - 1], records[|records| - 1];
      assert records == front + [last] && records[..|front| + 1] == records;
      FirstFlowsAdmitted(selector, limits, front);
      ScanUnfold(selector, limits, records, |front|);
      FlowsSeenStep(selector, front, last);
      var t := ScanOf(selector, limits, front);
      ObserveKeys(selector, limits, t, Sighting(last, |records|));
      if selector.MatchesFlow(last.flowKey) {
        FirstFlowsStep(t.states, ScanOf(selector, limits, records).states, FlowsSeen(selector, front), last.flowKey,
                       limits.maxCandidates);
      }
      SameFlows(t.states, ScanOf(selector, limits, records).states, FlowsSeen(selector, front), limits.maxCandidates);
      assert FlowsSeen(selector, front) + [] == FlowsSeen(selector, front);
    }
  }

  lemma NoFlowsSeen(selector: FlowSelector, limits: ResourceLimits)
    requires limits.Valid()
    ensures FirstFlows(ScanOf(selector, limits, []).states, FlowsSeen(selector, []), limits.maxCandidates)
  {
  }

  lemma SameFlows(states: map<FlowKey, Candidate>, states': map<FlowKey, Candidate>, seen: seq<FlowKey>, limit: nat)
    requires FirstFlows(states, seen, limit)
    ensures states'.Keys == states.Keys ==> FirstFlows(states', seen, limit)
  {
    assert |states| == |states.Keys| && |states'| == |states'.Keys|;
  }

  /** A record let through whose flow is not a candidate. */
  ghost predicate LeftOut(selector: FlowSelector, states: set<FlowKey>, record: RtpRecord) {
    selector.MatchesFlow(record.flowKey) && record.flowKey !in states
  }

  ghost function TurnedAwayAt(selector: FlowSelector, states: set<FlowKey>, records: seq<RtpRecord>): set<int> {
    set i | 0 <= i < |records| && LeftOut(selector, states, records[i])
  }

  lemma {:induction false} SeenAll(selector: FlowSelector, records: seq<RtpRecord>)
    ensures forall i | 0 <= i < |records| && selector.MatchesFlow(records[i].flowKey) ::
              records[i].flowKey in FlowsSeen(selector, records)
  {
    if records != [] {
      hide FlowSelector.MatchesFlow;
      SeenAll(selector, records[..|records| - 1]);
    }
  }

  lemma TurnedAwayAppend(selector: FlowSelector, states: set<FlowKey>, front: seq<RtpRecord>, last: RtpRecord)
    ensures |TurnedAwayAt(selector, states, front + [last])|
            == |TurnedAwayAt(selector, states, front)| + (if LeftOut(selector, states, last) then 1 else 0)
  {
    hide LeftOut;
    var before, all := TurnedAwayAt(selector, states, front), front + [last];
    if LeftOut(selector, states, last) {
      assert TurnedAwayAt(selector, states, all) == before + {|front|};
    } else {
      assert TurnedAwayAt(selector, states, all) == before;
    }
  }

  lemma NoneStays(selector: FlowSelector, states: set<FlowKey>, states': set<FlowKey>, records: seq<RtpRecord>)
    requires TurnedAwayAt(selector, states, records) == {} && states <= states'
    ensures TurnedAwayAt(selector, states', records) == {}
  {
    hide FlowSelector.MatchesFlow;
    forall i | 0 <= i < |records| && selector.MatchesFlow(records[i].flowKey) ensures records[i].flowKey in states {
      assert i !in TurnedAwayAt(selector, states, records);
    }
  }

  /** The records without a candidate are counted, each once. */
  lemma {:induction false} OverflowCounted(selector: FlowSelector, limits: ResourceLimits, records: seq<RtpRecord>)
    requires limits.Valid()
    ensures var t := ScanOf(selector, limits, records);
            t.candidateOverflow == |TurnedAwayAt(selector, t.states.Keys, records)|
  {
    hide ScanOf, Observe, FlowSelector.MatchesFlow, FlowsSeen, TurnedAwayAt;
    if records == [] {
      NoneTurnedAway(selector, limits);
      assert records == [];
    } else {
      var front, last := records[..|records| - 1], records[|records| - 1];
      assert records == front + [last] && records[..|front| + 1] == records;
      var t, t' := ScanOf(selector, limits, front), ScanOf(selector, limits, records);
      OverflowCounted(selector, limits, front);
      ScanUnfold(selector, limits, records, |front|);
      ObserveKeys(selector, limits, t, Sighting(last, |records|));
      if |t.states| < limits.maxCandidates {
        FirstFlowsAdmitted(selector, limits, front);
        SeenAll(selector, front);
        RoomForAll(selector, t.states, front, limits.maxCandidates);
        NoneStays(selector, t.states.Keys, t'.states.Keys, front);
      } else {
        assert t'.states.Keys == t.states.Keys;
      }
      TurnedAwayAppend(selector, t'.states.Keys, front, last);
    }
  }

  lemma NoneTurnedAway(selector: FlowSelector, limits: ResourceLimits)
    ensures ScanOf(selector, limits, []).candidateOverflow == 0
    ensures TurnedAwayAt(selector, ScanOf(selector, limits, []).states.Keys, []) == {}
  {
  }

  lemma RoomForAll(selector: FlowSelector, states: map<FlowKey, Candidate>, records: seq<RtpRecord>, limit: nat)
    requires FirstFlows(states, FlowsSeen(selector, records), limit) && |states| < limit
    requires forall i | 0 <= i < |records| && selector.MatchesFlow(records[i].flowKey) ::
               records[i].flowKey in FlowsSeen(selector, records)
    ensures TurnedAwayAt(selector, states.Keys, records) == {}
  {
    hide FlowSelector.MatchesFlow, FlowsSeen;
    var seen := FlowsSeen(selector, records);
    assert seen[..|seen|] == seen;
  }
}
