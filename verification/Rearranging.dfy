/** Discovery of the same records in another order finds the same candidates. */
module Rearranging {
  import opened Models
  import opened Retention
  import opened Discovery
  import opened Findings
  import opened Ranking
  import opened Shuffling

  // ---------------------------------------------------------------------------------------------
  // One flow's candidate
  // ---------------------------------------------------------------------------------------------

  ghost predicate Numbered(records: seq<RtpRecord>) {
    forall r | r in records :: r.provenance.packetNumber.Some?
  }

  ghost predicate IsLowest(sightings: seq<Sighting>, n: int) {
    && (forall i | 0 <= i < |sightings| :: n <= NumberOf(sightings[i]))
    && exists i :: 0 <= i < |sightings| && n == NumberOf(sightings[i])
  }

  ghost predicate OfOneFlow(sightings: seq<Sighting>, key: FlowKey) {
    forall i | 0 <= i < |sightings| ::
      sightings[i].record.flowKey == key && sightings[i].record.provenance.packetNumber.Some?
  }

  lemma LowestAppend(front: seq<Sighting>, last: Sighting, n: int)
    requires front != [] ==> IsLowest(front, n)
    ensures IsLowest(front + [last], if front == [] || NumberOf(last) < n then NumberOf(last) else n)
  {
    hide NumberOf;
    var all := front + [last];
    assert all[|front|] == last;
    if front != [] && NumberOf(last) >= n {
      var i :| 0 <= i < |front| && n == NumberOf(front[i]);
      assert all[i] == front[i];
    }
  }

  lemma SampledKeeps(limits: ResourceLimits, c: Candidate, payload: Bytes)
    ensures var d := Sampled(limits, c, payload);
            d.id == c.id && d.flow == c.flow && d.firstPacketNumber == c.firstPacketNumber
  {
    hide Judged;
  }

  /** A candidate is named after its flow and the lowest packet number of its flow. */
  lemma {:induction false} SummaryNumber(limits: ResourceLimits, sightings: seq<Sighting>, key: FlowKey)
    requires sightings != [] && OfOneFlow(sightings, key)
    ensures var c := Summary(limits, sightings);
            c.flow == key && c.id == CandidateId(c.firstPacketNumber, key) && IsLowest(sightings, c.firstPacketNumber)
  {
    hide Sampled, Summary, IsLowest;
    var n := |sightings| - 1;
    var front, last := sightings[..n], sightings[n];
    assert sightings == front + [last];
    SummaryStep(limits, front, last);
    if front == [] {
      LowestAppend(front, last, 0);
      SampledKeeps(limits, NewCandidate(last), last.record.payload);
    } else {
      SummaryNumber(limits, front, key);
      LowestAppend(front, last, Summary(limits, front).firstPacketNumber);
      SampledKeeps(limits, Renumbered(Summary(limits, front), last.record), last.record.payload);
    }
  }

  ghost predicate Sighted(sightings: seq<Sighting>, r: RtpRecord) {
    exists i :: 0 <= i < |sightings| && sightings[i].record == r
  }

  lemma SightedAppend(front: seq<Sighting>, last: Sighting, r: RtpRecord)
    ensures Sighted(front + [last], r) <==> Sighted(front, r) || last.record == r
  {
    var all := front + [last];
    if Sighted(front, r) {
      var i :| 0 <= i < |front| && front[i].record == r;
      assert all[i].record == r;
    }
    assert all[|front|] == last;
  }

  lemma {:induction false} OfFlowMembers(records: seq<RtpRecord>, key: FlowKey, r: RtpRecord)
    ensures Sighted(OfFlow(records, key), r) <==> r in records && r.flowKey == key
  {
    hide OfFlow, Sighted;
    if records == [] {
      NothingSighted(key, r);
      assert records == [];
    } else {
      var front, last := records[..|records| - 1], records[|records| - 1];
      assert records == front + [last];
      OfFlowMembers(front, key, r);
      OfFlowStep(records, key);
      SightedAppend(OfFlow(front, key), Sighting(last, |records|), r);
    }
  }

  lemma NothingSighted(key: FlowKey, r: RtpRecord)
    ensures !Sighted(OfFlow([], key), r)
  {
  }

  lemma OfFlowOne(records: seq<RtpRecord>, key: FlowKey)
    requires Numbered(records)
    ensures OfOneFlow(OfFlow(records, key), key)
  {
    hide OfFlow;
    var sightings := OfFlow(records, key);
    forall i | 0 <= i < |sightings|
      ensures sightings[i].record.flowKey == key && sightings[i].record.provenance.packetNumber.Some?
    {
      assert Sighted(sightings, sightings[i].record);
      OfFlowMembers(records, key, sightings[i].record);
    }
  }

  lemma LowestBelow(a: seq<Sighting>, b: seq<Sighting>, key: FlowKey, m: int, n: int)
    requires OfOneFlow(a, key) && OfOneFlow(b, key) && IsLowest(a, m) && IsLowest(b, n)
    requires forall i | 0 <= i < |b| :: Sighted(a, b[i].record)
    ensures m <= n
  {
    var i :| 0 <= i < |b| && n == NumberOf(b[i]);
    var j :| 0 <= j < |a| && a[j].record == b[i].record;
    assert NumberOf(a[j]) == NumberOf(b[i]);
  }

  lemma SightedAlike(a: seq<RtpRecord>, b: seq<RtpRecord>, key: FlowKey)
    requires multiset(a) == multiset(b)
    ensures forall i | 0 <= i < |OfFlow(b, key)| :: Sighted(OfFlow(a, key), OfFlow(b, key)[i].record)
  {
    hide OfFlow;
    var sightings := OfFlow(b, key);
    forall i | 0 <= i < |sightings| ensures Sighted(OfFlow(a, key), sightings[i].record) {
      var r := sightings[i].record;
      assert Sighted(sightings, r);
      OfFlowMembers(b, key, r);
      assert r in multiset(b);
      assert r in multiset(a);
      OfFlowMembers(a, key, r);
    }
  }

  /** The same but for the first rejection. */
  ghost predicate SameEvidence(e: Evidence, f: Evidence) {
    e.success == f.success && e.failure == f.failure
  }

  ghost predicate SameCandidate(c: Candidate, d: Candidate) {
    && c.id == d.id && c.flow == d.flow && c.firstPacketNumber == d.firstPacketNumber
    && c.sampled == d.sampled && c.sampleOverflow == d.sampleOverflow
    && CoversFormats(c.verdicts) && CoversFormats(d.verdicts)
    && forall f: Format :: SameEvidence(c.verdicts[f], d.verdicts[f])
  }

  lemma EvidenceShuffled(limits: ResourceLimits, a: seq<RtpRecord>, b: seq<RtpRecord>, key: FlowKey, format: Format)
    requires limits.Valid() && multiset(a) == multiset(b)
    requires OfFlow(a, key) != [] && |OfFlow(a, key)| <= limits.maxSamplesPerFlow
    ensures OfFlow(b, key) != []
    ensures var c, d := Summary(limits, OfFlow(a, key)), Summary(limits, OfFlow(b, key));
            && c.sampled == d.sampled && c.sampleOverflow == d.sampleOverflow == 0
            && format in c.verdicts && format in d.verdicts
            && SameEvidence(c.verdicts[format], d.verdicts[format])
  {
    hide OfFlow, Summary, EvidenceOf, CountOf;
    var x, y := OfFlow(a, key), OfFlow(b, key);
    FlowCount(a, key);
    FlowCount(b, key);
    CountShuffled(a, b, key, None);
    CountShuffled(a, b, key, Some(format));
    SummaryCounts(limits, x, format);
    SummaryCounts(limits, y, format);
    assert Samples(limits, x) == x && Samples(limits, y) == y;
    SuccessCount(a, key, format);
    SuccessCount(b, key, format);
    EvidenceWeighed(x, format);
    EvidenceWeighed(y, format);
  }

  lemma CandidateShuffled(limits: ResourceLimits, a: seq<RtpRecord>, b: seq<RtpRecord>, key: FlowKey)
    requires limits.Valid() && multiset(a) == multiset(b) && Numbered(a)
    requires OfFlow(a, key) != [] && |OfFlow(a, key)| <= limits.maxSamplesPerFlow
    ensures OfFlow(b, key) != []
    ensures SameCandidate(Summary(limits, OfFlow(a, key)), Summary(limits, OfFlow(b, key)))
  {
    hide OfFlow, Summary, SameEvidence, IsLowest, OfOneFlow, Sighted;
    EvidenceShuffled(limits, a, b, key, FORMATS[0]);
    var x, y := OfFlow(a, key), OfFlow(b, key);
    StillNumbered(a, b);
    OfFlowOne(a, key);
    OfFlowOne(b, key);
    SummaryNumber(limits, x, key);
    SummaryNumber(limits, y, key);
    SightedAlike(a, b, key);
    SightedAlike(b, a, key);
    LowestBelow(x, y, key, Summary(limits, x).firstPacketNumber, Summary(limits, y).firstPacketNumber);
    LowestBelow(y, x, key, Summary(limits, y).firstPacketNumber, Summary(limits, x).firstPacketNumber);
    forall f: Format
      ensures f in Summary(limits, x).verdicts && f in Summary(limits, y).verdicts
              && SameEvidence(Summary(limits, x).verdicts[f], Summary(limits, y).verdicts[f])
    {
      EvidenceShuffled(limits, a, b, key, f);
    }
  }

  lemma StillNumbered(a: seq<RtpRecord>, b: seq<RtpRecord>)
    requires multiset(a) == multiset(b) && Numbered(a)
    ensures Numbered(b)
  {
    forall r | r in b ensures r.provenance.packetNumber.Some? {
      assert r in multiset(b);
      assert r in multiset(a);
    }
  }

  // ---------------------------------------------------------------------------------------------
  // The whole list
  // ---------------------------------------------------------------------------------------------

  lemma {:induction false} SampleOverflows(
    selector: FlowSelector, limits: ResourceLimits, records: seq<RtpRecord>, key: FlowKey)
    requires limits.Valid() && ScanOf(selector, limits, records).sampleOverflow == 0
    ensures key in ScanOf(selector, limits, records).states ==>
              ScanOf(selector, limits, records).states[key].sampleOverflow == 0
  {
    hide Judged, Rejections, FlowSelector.MatchesFlow;
    if records != [] {
      SampleOverflows(selector, limits, records[..|records| - 1], key);
    }
  }

  lemma NoOverflowFlows(selector: FlowSelector, limits: ResourceLimits, records: seq<RtpRecord>, key: FlowKey)
    requires limits.Valid()
    requires var t := ScanOf(selector, limits, records); t.candidateOverflow == 0 && t.sampleOverflow == 0
    ensures var t := ScanOf(selector, limits, records);
            && (key in t.states <==> selector.MatchesFlow(key) && OfFlow(records, key) != [])
            && (key in t.states ==>
                  t.states[key] == Summary(limits, OfFlow(records, key))
                  && |OfFlow(records, key)| <= limits.maxSamplesPerFlow)
  {
    hide ScanOf, OfFlow, Summary, FlowSelector.MatchesFlow;
    FlowView(selector, limits, records, key);
    SampleOverflows(selector, limits, records, key);
    if key in ScanOf(selector, limits, records).states {
      SummaryCounts(limits, OfFlow(records, key), FORMATS[0]);
    }
  }

  lemma {:induction false} SomeSampleOverflow(selector: FlowSelector, limits: ResourceLimits, records: seq<RtpRecord>)
    returns (key: FlowKey)
    requires limits.Valid() && ScanOf(selector, limits, records).sampleOverflow > 0
    ensures key in ScanOf(selector, limits, records).states
    ensures ScanOf(selector, limits, records).states[key].sampleOverflow > 0
  {
    hide Judged, Rejections, FlowSelector.MatchesFlow;
    var n := |records| - 1;
    if ScanOf(selector, limits, records[..n]).sampleOverflow > 0 {
      key := SomeSampleOverflow(selector, limits, records[..n]);
    } else {
      key := records[n].flowKey;
    }
  }

  lemma FlowsShuffled(a: seq<RtpRecord>, b: seq<RtpRecord>, key: FlowKey)
    requires multiset(a) == multiset(b)
    ensures |OfFlow(a, key)| == |OfFlow(b, key)|
  {
    hide OfFlow, CountOf;
    FlowCount(a, key);
    FlowCount(b, key);
    CountShuffled(a, b, key, None);
  }

  /** Without overflow in one order there is none in another. */
  lemma NoOverflowShuffled(selector: FlowSelector, limits: ResourceLimits, a: seq<RtpRecord>, b: seq<RtpRecord>)
    requires limits.Valid() && multiset(a) == multiset(b)
    requires var t := ScanOf(selector, limits, a); t.candidateOverflow == 0 && t.sampleOverflow == 0
    ensures var t := ScanOf(selector, limits, b); t.candidateOverflow == 0 && t.sampleOverflow == 0
  {
    hide ScanOf, OfFlow, Summary, FlowSelector.MatchesFlow;
    var s, t := ScanOf(selector, limits, a), ScanOf(selector, limits, b);
    forall k ensures k in t.states ==> k in s.states {
      FlowView(selector, limits, b, k);
      NoOverflowFlows(selector, limits, a, k);
      FlowsShuffled(a, b, k);
    }
    OverflowTurnsAway(selector, limits, a);
    OverflowTurnsAway(selector, limits, b);
    if t.candidateOverflow > 0 {
      var k :| TurnedAway(selector, limits, b, k);
      NoOverflowFlows(selector, limits, a, k);
      FlowsShuffled(a, b, k);
      OneMore(s.states.Keys, t.states.Keys, k);
    } else if t.sampleOverflow > 0 {
      var k := SomeSampleOverflow(selector, limits, b);
      FlowView(selector, limits, b, k);
      NoOverflowFlows(selector, limits, a, k);
      FlowsShuffled(a, b, k);
      SummaryCounts(limits, OfFlow(b, k), FORMATS[0]);
    }
  }

  lemma OneMore(a: set<FlowKey>, b: set<FlowKey>, k: FlowKey)
    ensures b <= a && k in a && k !in b ==> |a| > |b|
  {
    if b <= a && k in a && k !in b {
      assert a == b + {k} + (a - b - {k});
    }
  }

  /** A candidate without its first rejections. */
  function Erased(c: FlowCandidate): (erased: FlowCandidate)
  {
    c.(formats := seq(|c.formats|, i requires 0 <= i < |c.formats| => c.formats[i].(firstRejection := None)))
  }

  function ErasedAll(candidates: seq<FlowCandidate>): (erased: seq<FlowCandidate>)
    ensures |erased| == |candidates|
  {
    seq(|candidates|, i requires 0 <= i < |candidates| => Erased(candidates[i]))
  }

  lemma ErasedRanked(candidates: seq<FlowCandidate>)
    requires Ranked(candidates)
    ensures Ranked(ErasedAll(candidates))
  {
    hide TextBefore;
  }

  lemma ErasedAlike(c: Candidate, d: Candidate)
    requires SameCandidate(c, d)
    ensures Erased(Freeze(c)) == Erased(Freeze(d))
  {
    forall i | 0 <= i < |FORMATS| ensures SameEvidence(c.verdicts[FORMATS[i]], d.verdicts[FORMATS[i]]) {
    }
  }

  lemma {:induction false} RankedUnique(a: seq<FlowCandidate>, b: seq<FlowCandidate>)
    requires Ranked(a) && Ranked(b) && forall c :: c in a <==> c in b
    ensures a == b
  {
    if a == [] || b == [] {
      HeadIn(a);
      HeadIn(b);
    } else {
      hide SortsBefore;
      HeadIn(a);
      HeadIn(b);
      HeadsEqual(a, b);
      forall c ensures c in a[1..] <==> c in b[1..] {
        TailIn(a, c);
        TailIn(b, c);
      }
      RankedUnique(a[1..], b[1..]);
      assert a == [a[0]] + a[1..] && b == [b[0]] + b[1..];
    }
  }

  lemma HeadIn(a: seq<FlowCandidate>)
    ensures a != [] ==> a[0] in a
  {
  }

  lemma HeadsEqual(a: seq<FlowCandidate>, b: seq<FlowCandidate>)
    requires Ranked(a) && Ranked(b) && a != [] && b != [] && a[0] in b && b[0] in a
    ensures a[0] == b[0]
  {
    hide SortsBefore;
    SortOrder(a[0], b[0], a[0]);
  }

  lemma TailIn(a: seq<FlowCandidate>, c: FlowCandidate)
    requires Ranked(a) && a != []
    ensures c in a[1..] <==> c in a && c != a[0]
  {
    hide SortsBefore;
    SortOrder(a[0], a[0], a[0]);
    if c in a && c != a[0] {
      var i :| 0 <= i < |a| && a[i] == c;
      assert a[1..][i - 1] == c;
    }
  }

  lemma ErasedMember(
    a: seq<FlowCandidate>, sa: map<FlowKey, Candidate>, b: seq<FlowCandidate>, sb: map<FlowKey, Candidate>)
    requires AllComplete(sa) && AllComplete(sb) && Lists(a, sa) && Lists(b, sb)
    requires forall k | k in sa :: k in sb && SameCandidate(sa[k], sb[k])
    ensures forall c | c in ErasedAll(a) :: c in ErasedAll(b)
  {
    hide Freeze, Ranked, SameCandidate, Erased;
    forall c | c in ErasedAll(a) ensures c in ErasedAll(b) {
      var i :| 0 <= i < |a| && ErasedAll(a)[i] == c;
      assert a[i] in a;
      var k := a[i].flow;
      ErasedAlike(sa[k], sb[k]);
      var j :| 0 <= j < |b| && b[j] == Freeze(sb[k]);
      assert ErasedAll(b)[j] == c;
    }
  }

  lemma SameSymmetric(c: Candidate, d: Candidate)
    requires SameCandidate(c, d)
    ensures SameCandidate(d, c)
  {
  }

  /**
   * With no overflow and every packet numbered, records in another order give the same candidates in the same order
   * with the same counts; only the first rejection reasons may differ.
   */
  lemma RecordOrderIsIrrelevant(
    selector: FlowSelector, limits: ResourceLimits, a: seq<RtpRecord>, b: seq<RtpRecord>,
    ra: DiscoveryResult, rb: DiscoveryResult)
    requires limits.Valid() && multiset(a) == multiset(b) && Numbered(a)
    requires Reports(ra, limits, ScanOf(selector, limits, a)) && Reports(rb, limits, ScanOf(selector, limits, b))
    requires ra.candidateOverflow == 0 && ra.sampleOverflow == 0
    ensures rb.candidateOverflow == 0 && rb.sampleOverflow == 0
    ensures ErasedAll(ra.candidates) == ErasedAll(rb.candidates)
  {
    hide ScanOf, OfFlow, Summary, Lists, ErasedAll, Ranked, Kept, AllComplete, SameCandidate, FlowSelector.MatchesFlow;
    var s, t := ScanOf(selector, limits, a), ScanOf(selector, limits, b);
    NoOverflowShuffled(selector, limits, a, b);
    forall k ensures (k in s.states <==> k in t.states)
                     && (k in s.states
                         ==> SameCandidate(s.states[k], t.states[k]) && SameCandidate(t.states[k], s.states[k]))
    {
      NoOverflowFlows(selector, limits, a, k);
      NoOverflowFlows(selector, limits, b, k);
      FlowsShuffled(a, b, k);
      if k in s.states {
        CandidateShuffled(limits, a, b, k);
        SameSymmetric(s.states[k], t.states[k]);
      }
    }
    ErasedMember(ra.candidates, s.states, rb.candidates, t.states);
    ErasedMember(rb.candidates, t.states, ra.candidates, s.states);
    ListsRanked(ra.candidates, s.states);
    ListsRanked(rb.candidates, t.states);
    ErasedRanked(ra.candidates);
    ErasedRanked(rb.candidates);
    RankedUnique(ErasedAll(ra.candidates), ErasedAll(rb.candidates));
  }

  lemma ListsRanked(candidates: seq<FlowCandidate>, states: map<FlowKey, Candidate>)
    requires AllComplete(states) && Lists(candidates, states)
    ensures Ranked(candidates)
  {
    hide Ranked;
  }
}
