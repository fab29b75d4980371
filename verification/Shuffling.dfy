/** Totals over a whole discovery, and discovery of the same records in another order. */
module Shuffling {
  import opened Models
  import opened Retention
  import opened Discovery
  import opened Findings
  import opened Ranking

  // ---------------------------------------------------------------------------------------------
  // Retained and overflowed diagnostics add up to all failures
  // ---------------------------------------------------------------------------------------------

  function FailureSum(formats: seq<Evidence>): nat {
    if formats == [] then 0 else FailureSum(formats[..|formats| - 1]) + formats[|formats| - 1].failure
  }

  function TotalFailures(candidates: seq<FlowCandidate>): nat {
    if candidates == [] then 0
    else TotalFailures(candidates[..|candidates| - 1]) + FailureSum(candidates[|candidates| - 1].formats)
  }

  /** The failures of one flow, format by format. */
  function Row(failures: seq<Failure>, key: FlowKey): nat {
    FailuresIn(failures, key, FORMATS[0]) + FailuresIn(failures, key, FORMATS[1])
    + FailuresIn(failures, key, FORMATS[2]) + FailuresIn(failures, key, FORMATS[3])
  }

  function Rows(failures: seq<Failure>, candidates: seq<FlowCandidate>): nat {
    if candidates == [] then 0
    else
      Rows(failures, candidates[..|candidates| - 1]) + Row(failures, candidates[|candidates| - 1].flow)
  }

  lemma RowStep(front: seq<Failure>, last: Failure, key: FlowKey)
    ensures Row(front + [last], key) == Row(front, key) + (if last.flow == key then 1 else 0)
  {
    hide FailuresIn;
    FailuresStep(front, last, key, FORMATS[0]);
    FailuresStep(front, last, key, FORMATS[1]);
    FailuresStep(front, last, key, FORMATS[2]);
    FailuresStep(front, last, key, FORMATS[3]);
    match last.format
    case Format(Amr, OctetAligned) =>
    case Format(Amr, BandwidthEfficient) =>
    case Format(AmrWb, OctetAligned) =>
    case Format(AmrWb, BandwidthEfficient) =>
  }

  lemma FailuresStep(front: seq<Failure>, last: Failure, key: FlowKey, format: Format)
    ensures FailuresIn(front + [last], key, format)
            == FailuresIn(front, key, format) + (if last.flow == key && last.format == format then 1 else 0)
  {
    assert (front + [last])[..|front|] == front;
  }

  ghost predicate OnePerFlow(candidates: seq<FlowCandidate>) {
    forall i, j | 0 <= i < j < |candidates| :: candidates[i].flow != candidates[j].flow
  }

  ghost predicate HasFlow(candidates: seq<FlowCandidate>, key: FlowKey) {
    exists i :: 0 <= i < |candidates| && candidates[i].flow == key
  }

  lemma HasFlowStep(candidates: seq<FlowCandidate>, key: FlowKey)
    requires candidates != [] && OnePerFlow(candidates)
    ensures var n := |candidates| - 1;
            && OnePerFlow(candidates[..n])
            && (HasFlow(candidates, key) <==> HasFlow(candidates[..n], key) || candidates[n].flow == key)
            && !(HasFlow(candidates[..n], key) && candidates[n].flow == key)
  {
    var n := |candidates| - 1;
    if HasFlow(candidates[..n], key) {
      var i :| 0 <= i < n && candidates[..n][i].flow == key;
      assert candidates[i].flow == key;
    }
    if HasFlow(candidates, key) && candidates[n].flow != key {
      var i :| 0 <= i < |candidates| && candidates[i].flow == key;
      assert candidates[..n][i].flow == key;
    }
  }

  lemma {:induction false} RowsStep(front: seq<Failure>, last: Failure, candidates: seq<FlowCandidate>)
    requires OnePerFlow(candidates)
    ensures Rows(front + [last], candidates)
            == Rows(front, candidates) + (if HasFlow(candidates, last.flow) then 1 else 0)
  {
    hide Row, HasFlow, OnePerFlow;
    if candidates == [] {
      NoFlow(last.flow);
      assert candidates == [];
    } else {
      var n := |candidates| - 1;
      HasFlowStep(candidates, last.flow);
      RowsStep(front, last, candidates[..n]);
      RowStep(front, last, candidates[n].flow);
    }
  }

  lemma NoFlow(key: FlowKey)
    ensures !HasFlow([], key)
  {
  }

  lemma {:induction false} RowsOfNothing(candidates: seq<FlowCandidate>)
    ensures Rows([], candidates) == 0
  {
    if candidates != [] {
      RowsOfNothing(candidates[..|candidates| - 1]);
    }
  }

  lemma {:induction false} RowsCount(failures: seq<Failure>, candidates: seq<FlowCandidate>)
    requires OnePerFlow(candidates) && forall i | 0 <= i < |failures| :: HasFlow(candidates, failures[i].flow)
    ensures Rows(failures, candidates) == |failures|
  {
    hide Rows, HasFlow, OnePerFlow;
    if failures == [] {
      RowsOfNothing(candidates);
      assert failures == [];
    } else {
      var front, last := failures[..|failures| - 1], failures[|failures| - 1];
      assert failures == front + [last];
      RowsCount(front, candidates);
      RowsStep(front, last, candidates);
    }
  }

  lemma FailureSumOfFour(formats: seq<Evidence>)
    requires |formats| == 4
    ensures FailureSum(formats)
            == formats[0].failure + formats[1].failure + formats[2].failure + formats[3].failure
  {
    assert formats[..3][..2] == formats[..2] && formats[..2][..1] == formats[..1];
    assert FailureSum(formats[..0]) == 0;
    assert formats[..1][..0] == [];
    assert FailureSum(formats[..1]) == formats[0].failure;
    assert FailureSum(formats[..2]) == formats[0].failure + formats[1].failure;
  }

  /** A candidate's evidence counts its row of the failures. */
  ghost predicate CountsRow(failures: seq<Failure>, c: FlowCandidate) {
    FailureSum(c.formats) == Row(failures, c.flow)
  }

  lemma RowCounted(selector: FlowSelector, limits: ResourceLimits, records: seq<RtpRecord>, c: FlowCandidate)
    requires var t := ScanOf(selector, limits, records);
             AllComplete(t.states) && c.flow in t.states && c == Freeze(t.states[c.flow])
    ensures CountsRow(ScanOf(selector, limits, records).failures, c)
  {
    hide ScanOf, FailuresIn, Freeze, FailureSum;
    var t := ScanOf(selector, limits, records);
    FailuresLogged(selector, limits, records, c.flow, FORMATS[0]);
    FailuresLogged(selector, limits, records, c.flow, FORMATS[1]);
    FailuresLogged(selector, limits, records, c.flow, FORMATS[2]);
    FailuresLogged(selector, limits, records, c.flow, FORMATS[3]);
    FrozenFlow(t.states[c.flow]);
    FailureSumOfFour(c.formats);
  }

  lemma {:induction false} RowsSum(failures: seq<Failure>, candidates: seq<FlowCandidate>)
    requires forall i | 0 <= i < |candidates| :: CountsRow(failures, candidates[i])
    ensures TotalFailures(candidates) == Rows(failures, candidates)
  {
    hide FailureSum, Row;
    if candidates != [] {
      RowsSum(failures, candidates[..|candidates| - 1]);
      assert CountsRow(failures, candidates[|candidates| - 1]);
    }
  }

  lemma RankedOnce(candidates: seq<FlowCandidate>, states: map<FlowKey, Candidate>)
    requires AllComplete(states) && OwnFlows(states) && Lists(candidates, states)
    ensures OnePerFlow(candidates)
    ensures forall k | k in states :: HasFlow(candidates, k)
  {
    hide SortsBefore, Freeze;
    forall i, j | 0 <= i < j < |candidates| ensures candidates[i].flow != candidates[j].flow {
      assert candidates[i] in candidates && candidates[j] in candidates;
      SortOrder(candidates[i], candidates[j], candidates[i]);
    }
    forall k | k in states ensures HasFlow(candidates, k) {
      FrozenFlow(states[k]);
      var i :| 0 <= i < |candidates| && candidates[i] == Freeze(states[k]);
    }
  }

  /** Retained and overflowed diagnostics together are the failures of all candidates in all formats. */
  lemma DiagnosticsConserved(
    selector: FlowSelector, limits: ResourceLimits, records: seq<RtpRecord>, r: DiscoveryResult)
    requires Reports(r, limits, ScanOf(selector, limits, records))
    ensures |r.diagnostics| + r.diagnosticOverflow == TotalFailures(r.candidates)
    ensures r.observed == r.sampled + r.sampleOverflow + r.candidateOverflow
    ensures r.observed == Matching(selector, records)
  {
    hide ScanOf, Freeze, Row, Ranked, TotalFailures, Rows, Kept, CountsRow, HasFlow, OnePerFlow;
    var t := ScanOf(selector, limits, records);
    ScanTidy(selector, limits, records);
    ScanConserved(selector, limits, records);
    RankedOnce(r.candidates, t.states);
    forall i | 0 <= i < |r.candidates| ensures CountsRow(t.failures, r.candidates[i]) {
      assert r.candidates[i] in r.candidates;
      RowCounted(selector, limits, records, r.candidates[i]);
    }
    RowsSum(t.failures, r.candidates);
    RowsCount(t.failures, r.candidates);
  }

  // ---------------------------------------------------------------------------------------------
  // Overflow of the candidate list
  // ---------------------------------------------------------------------------------------------

  /** A flow that was turned away. */
  ghost predicate TurnedAway(selector: FlowSelector, limits: ResourceLimits, records: seq<RtpRecord>, k: FlowKey) {
    selector.MatchesFlow(k) && OfFlow(records, k) != [] && k !in ScanOf(selector, limits, records).states
  }

  ghost predicate OverflowMeans(selector: FlowSelector, limits: ResourceLimits, records: seq<RtpRecord>) {
    var t := ScanOf(selector, limits, records);
    && |t.states| <= limits.maxCandidates
    && (t.candidateOverflow > 0 ==>
          |t.states| == limits.maxCandidates && exists k :: TurnedAway(selector, limits, records, k))
  }

  lemma StillTurnedAway(selector: FlowSelector, limits: ResourceLimits, records: seq<RtpRecord>, k: FlowKey)
    requires records != [] && TurnedAway(selector, limits, records[..|records| - 1], k)
    requires |ScanOf(selector, limits, records[..|records| - 1]).states| == limits.maxCandidates
    ensures TurnedAway(selector, limits, records, k)
  {
    hide Sampled, Rejections, Renumbered, NewCandidate, FlowSelector.MatchesFlow;
  }

  lemma ObserveGrows(selector: FlowSelector, limits: ResourceLimits, t: Scan, s: Sighting)
    requires |t.states| <= limits.maxCandidates
    ensures |t.states| <= |Observe(selector, limits, t, s).states| <= limits.maxCandidates
    ensures Observe(selector, limits, t, s).candidateOverflow > t.candidateOverflow ==>
              |t.states| == limits.maxCandidates && selector.MatchesFlow(s.record.flowKey)
              && s.record.flowKey !in Observe(selector, limits, t, s).states
  {
    hide Sampled, Rejections, Renumbered, NewCandidate, FlowSelector.MatchesFlow;
    if selector.MatchesFlow(s.record.flowKey) && Admitted(limits, t.states, s).Some? {
      var c := Sampled(limits, Admitted(limits, t.states, s).value, s.record.payload);
      var key, grown := s.record.flowKey, t.states[s.record.flowKey := c];
      if key in t.states {
        assert grown.Keys == t.states.Keys;
      } else {
        assert grown.Keys == t.states.Keys + {key};
      }
    }
  }

  lemma {:induction false} OverflowTurnsAway(selector: FlowSelector, limits: ResourceLimits, records: seq<RtpRecord>)
    requires limits.Valid()
    ensures OverflowMeans(selector, limits, records)
  {
    hide Observe, TurnedAway, FlowSelector.MatchesFlow;
    if records == [] {
      assert ScanOf(selector, limits, []) == NOTHING_SCANNED;
    } else {
      var front, last := records[..|records| - 1], records[|records| - 1];
      OverflowTurnsAway(selector, limits, front);
      var before, s := ScanOf(selector, limits, front), Sighting(last, |records|);
      ObserveGrows(selector, limits, before, s);
      if before.candidateOverflow > 0 {
        var k :| TurnedAway(selector, limits, front, k);
        StillTurnedAway(selector, limits, records, k);
      } else if ScanOf(selector, limits, records).candidateOverflow > 0 {
        JustTurnedAway(selector, limits, records);
      }
    }
  }

  lemma JustTurnedAway(selector: FlowSelector, limits: ResourceLimits, records: seq<RtpRecord>)
    requires records != []
    requires selector.MatchesFlow(records[|records| - 1].flowKey)
    requires records[|records| - 1].flowKey !in ScanOf(selector, limits, records).states
    ensures TurnedAway(selector, limits, records, records[|records| - 1].flowKey)
  {
    hide ScanOf, FlowSelector.MatchesFlow;
  }

  // ---------------------------------------------------------------------------------------------
  // Counting records, whatever their order
  // ---------------------------------------------------------------------------------------------

  /** A record of the flow, reading in the format when one is named. */
  ghost predicate Counts(record: RtpRecord, key: FlowKey, format: Option<Format>) {
    record.flowKey == key && (format.Some? ==> Reads(record.payload, format.value))
  }

  ghost function CountOf(records: seq<RtpRecord>, key: FlowKey, format: Option<Format>): nat {
    if records == [] then 0
    else
      CountOf(records[..|records| - 1], key, format) + (if Counts(records[|records| - 1], key, format) then 1 else 0)
  }

  lemma {:induction false} CountConcat(a: seq<RtpRecord>, b: seq<RtpRecord>, key: FlowKey, format: Option<Format>)
    ensures CountOf(a + b, key, format) == CountOf(a, key, format) + CountOf(b, key, format)
  {
    hide Counts;
    if b == [] {
      assert a + b == a;
    } else {
      CountConcat(a, b[..|b| - 1], key, format);
      assert (a + b)[..|a + b| - 1] == a + b[..|b| - 1];
    }
  }

  lemma RemoveOne(front: seq<RtpRecord>, before: seq<RtpRecord>, after: seq<RtpRecord>, x: RtpRecord)
    requires multiset(front + [x]) == multiset(before + [x] + after)
    ensures multiset(front) == multiset(before + after)
  {
    assert multiset(front + [x]) == multiset(front) + multiset{x};
    assert multiset(before + [x] + after) == multiset(before) + multiset{x} + multiset(after);
    assert multiset(before + after) == multiset(before) + multiset(after);
    assert multiset(front) == multiset(front + [x]) - multiset{x};
    assert multiset(before + after) == multiset(before + [x] + after) - multiset{x};
  }

  lemma {:induction false} CountShuffled(a: seq<RtpRecord>, b: seq<RtpRecord>, key: FlowKey, format: Option<Format>)
    requires multiset(a) == multiset(b)
    ensures CountOf(a, key, format) == CountOf(b, key, format)
  {
    hide CountOf, Counts;
    SameLength(a, b);
    if a == [] {
      assert a == b;
    } else {
      var n := |a| - 1;
      var last := a[n];
      assert a == a[..n] + [last];
      assert last in a;
      assert last in multiset(a);
      assert last in b;
      var j :| 0 <= j < |b| && b[j] == last;
      var rest := b[..j] + b[j + 1..];
      assert b == b[..j] + [last] + b[j + 1..];
      RemoveOne(a[..n], b[..j], b[j + 1..], last);
      CountShuffled(a[..n], rest, key, format);
      CountConcat(a[..n], [last], key, format);
      CountConcat(b[..j], b[j + 1..], key, format);
      CountConcat(b[..j] + [last], b[j + 1..], key, format);
      CountConcat(b[..j], [last], key, format);
    }
  }

  lemma SameLength(a: seq<RtpRecord>, b: seq<RtpRecord>)
    requires multiset(a) == multiset(b)
    ensures |a| == |b|
  {
    assert |multiset(a)| == |a| && |multiset(b)| == |b|;
  }

  lemma {:induction false} FlowCount(records: seq<RtpRecord>, key: FlowKey)
    ensures |OfFlow(records, key)| == CountOf(records, key, None)
  {
    hide Reads;
    if records != [] {
      FlowCount(records[..|records| - 1], key);
    }
  }

  lemma {:induction false} SuccessCount(records: seq<RtpRecord>, key: FlowKey, format: Format)
    ensures EvidenceOf(OfFlow(records, key), format).success == CountOf(records, key, Some(format))
  {
    hide EvidenceOf, Reading;
    if records == [] {
      NoEvidence(format);
      assert records == [];
    } else {
      var front, last := records[..|records| - 1], records[|records| - 1];
      SuccessCount(front, key, format);
      OfFlowStep(records, key);
      EvidenceStep(OfFlow(front, key), Sighting(last, |records|), format);
    }
  }

  // ---------------------------------------------------------------------------------------------
  // What a diagnostic says
  // ---------------------------------------------------------------------------------------------

  /** A packet of this flow whose payload the format refuses, for this reason and captured there. */
  ghost predicate Refuses(record: RtpRecord, flow: FlowKey, format: Format, reason: Reason, provenance: Provenance) {
    record.flowKey == flow && record.provenance == provenance && Reading(record.payload, format) == Err(reason)
  }

  ghost predicate AllTrue(records: seq<RtpRecord>, failures: seq<Failure>) {
    forall f | f in failures :: exists r :: r in records && Refuses(r, f.flow, f.format, f.reason, f.provenance)
  }

  lemma {:induction false} RejectionsTrue(record: RtpRecord, n: nat, f: Failure)
    requires n <= |FORMATS| && f in RejectionsUpTo(record, n)
    ensures Refuses(record, f.flow, f.format, f.reason, f.provenance)
  {
    hide Reading;
    if n > 0 && f in RejectionsUpTo(record, n - 1) {
      RejectionsTrue(record, n - 1, f);
    }
  }

  lemma {:induction false} ScanTrue(selector: FlowSelector, limits: ResourceLimits, records: seq<RtpRecord>)
    ensures AllTrue(records, ScanOf(selector, limits, records).failures)
  {
    if records != [] {
      hide ScanOf, Sampled, Admitted, FlowSelector.MatchesFlow, RejectionsUpTo, Refuses, NOTHING_SCANNED;
      var front, last := records[..|records| - 1], records[|records| - 1];
      ScanTrue(selector, limits, front);
      ScanUnfold(selector, limits, records, |records| - 1);
      assert records[..|records| - 1 + 1] == records && records == front + [last];
      forall f | f in Rejections(last) ensures Refuses(last, f.flow, f.format, f.reason, f.provenance) {
        RejectionsTrue(last, |FORMATS|, f);
      }
    }
  }

  /** Each diagnostic names a listed candidate and tells a refusal of a packet of that candidate's flow. */
  lemma DiagnosticTold(
    result: DiscoveryResult, selector: FlowSelector, limits: ResourceLimits, records: seq<RtpRecord>,
    d: ProbeDiagnostic)
    requires limits.Valid() && Reports(result, limits, ScanOf(selector, limits, records)) && d in result.diagnostics
    ensures exists c, r ::
              && c in result.candidates && c.id == d.candidateId
              && r in records && Refuses(r, c.flow, d.format, d.reason, d.provenance)
  {
    hide ScanOf, Refuses, Freeze, Kept, Ranked;
    var t := ScanOf(selector, limits, records);
    var kept := Kept(limits, t.failures);
    ScanTrue(selector, limits, records);
    KeptMembers(limits, t.failures);
    var i :| 0 <= i < |result.diagnostics| && result.diagnostics[i] == d;
    var f := kept[i];
    assert f in t.failures;
    var r :| r in records && Refuses(r, f.flow, f.format, f.reason, f.provenance);
    CandidateNamed(selector, limits, records, f.flow);
    FrozenFlow(t.states[f.flow]);
    var c := Freeze(t.states[f.flow]);
    assert c in result.candidates && c.id == d.candidateId;
  }

  lemma KeptMembers(limits: ResourceLimits, failures: seq<Failure>)
    ensures forall f | f in Kept(limits, failures) :: f in failures
  {
  }
}
