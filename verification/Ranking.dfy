/** The sorted candidate list and how little it depends on the order of the records (discovery.py). */
module Ranking {
  import opened Models
  import opened Retention
  import opened Discovery

  // ---------------------------------------------------------------------------------------------
  // The sort key is a total order
  // ---------------------------------------------------------------------------------------------

  /** Text compares character by character; a proper prefix comes first. */
  predicate TextBefore(a: string, b: string) {
    b != [] && (a == [] || a[0] < b[0] || (a[0] == b[0] && TextBefore(a[1..], b[1..])))
  }

  lemma {:induction false} TextOrder(a: string, b: string, c: string)
    ensures !TextBefore(a, a)
    ensures TextBefore(a, b) && TextBefore(b, c) ==> TextBefore(a, c)
    ensures a == b || TextBefore(a, b) || TextBefore(b, a)
  {
    if a != [] && b != [] {
      TextOrder(a[1..], b[1..], if c == [] then [] else c[1..]);
      assert a == [a[0]] + a[1..] && b == [b[0]] + b[1..];
    } else if a != [] {
      TextOrder(a[1..], [], []);
    }
  }

  /** A candidate frozen for the result: evidence in the order of the formats. */
  datatype FlowCandidate = FlowCandidate(
    id: CandidateId, flow: FlowKey, firstPacketNumber: int, sampled: nat, sampleOverflow: nat, formats: seq<Evidence>)

  /** _freeze_candidate. */
  function Freeze(c: Candidate): (frozen: FlowCandidate)
    requires forall i | 0 <= i < |FORMATS| :: FORMATS[i] in c.verdicts
  {
    FlowCandidate(c.id, c.flow, c.firstPacketNumber, c.sampled, c.sampleOverflow,
                  seq(|FORMATS|, i requires 0 <= i < |FORMATS| => c.verdicts[FORMATS[i]]))
  }

  /** _candidate_sort_key(a) < _candidate_sort_key(b). */
  predicate SortsBefore(a: FlowCandidate, b: FlowCandidate) {
    var f, g := a.flow, b.flow;
    if a.firstPacketNumber != b.firstPacketNumber then a.firstPacketNumber < b.firstPacketNumber
    else if f.srcAddress != g.srcAddress then TextBefore(f.srcAddress, g.srcAddress)
    else if f.srcPort != g.srcPort then f.srcPort < g.srcPort
    else if f.dstAddress != g.dstAddress then TextBefore(f.dstAddress, g.dstAddress)
    else if f.dstPort != g.dstPort then f.dstPort < g.dstPort
    else if f.ssrc != g.ssrc then f.ssrc < g.ssrc
    else f.payloadType < g.payloadType
  }

  lemma SortOrder(a: FlowCandidate, b: FlowCandidate, c: FlowCandidate)
    ensures !SortsBefore(a, a)
    ensures SortsBefore(a, b) && SortsBefore(b, c) ==> SortsBefore(a, c)
    ensures a.flow == b.flow || SortsBefore(a, b) || SortsBefore(b, a)
  {
    hide TextBefore;
    TextOrder(a.flow.srcAddress, b.flow.srcAddress, c.flow.srcAddress);
    TextOrder(a.flow.dstAddress, b.flow.dstAddress, c.flow.dstAddress);
  }

  /** One text comes before another by their first difference, or as a proper prefix. */
  lemma {:induction false} TextBeforeIff(a: string, b: string)
    ensures TextBefore(a, b)
            <==> exists n: nat :: n <= |a| && n < |b| && a[..n] == b[..n] && (n == |a| || a[n] < b[n])
  {
    if a != [] && b != [] && a[0] == b[0] {
      TextBeforeIff(a[1..], b[1..]);
      if TextBefore(a[1..], b[1..]) {
        var m: nat :| m <= |a| - 1 && m < |b| - 1 && a[1..][..m] == b[1..][..m]
          && (m == |a| - 1 || a[1..][m] < b[1..][m]);
        assert a[..m + 1] == [a[0]] + a[1..][..m] && b[..m + 1] == [b[0]] + b[1..][..m];
        FirstDifference(a, b, m + 1);
      }
      if n: nat :| n <= |a| && n < |b| && a[..n] == b[..n] && (n == |a| || a[n] < b[n]) {
        assert n > 0 && a[1..][..n - 1] == a[..n][1..] && b[1..][..n - 1] == b[..n][1..];
        FirstDifference(a[1..], b[1..], n - 1);
      }
    } else if TextBefore(a, b) {
      FirstDifference(a, b, 0);
    }
  }

  lemma FirstDifference(a: string, b: string, n: nat)
    requires n <= |a| && n < |b| && a[..n] == b[..n] && (n == |a| || a[n] < b[n])
    ensures exists m: nat :: m <= |a| && m < |b| && a[..m] == b[..m] && (m == |a| || a[m] < b[m])
  {
  }

  datatype KeyPart = Number(number: int) | Text(text: string)

  /** The parts of the sort key, the most important first. */
  function SortKey(c: FlowCandidate): (parts: seq<KeyPart>)
    ensures |parts| == 7
  {
    [Number(c.firstPacketNumber), Text(c.flow.srcAddress), Number(c.flow.srcPort), Text(c.flow.dstAddress),
     Number(c.flow.dstPort), Number(c.flow.ssrc), Number(c.flow.payloadType)]
  }

  predicate PartBefore(a: KeyPart, b: KeyPart) {
    match (a, b)
    case (Number(x), Number(y)) => x < y
    case (Text(x), Text(y)) => TextBefore(x, y)
    case _ => false
  }

  lemma {:induction false} FirstUnlike(x: seq<KeyPart>, y: seq<KeyPart>) returns (k: nat)
    requires |x| == |y| && x != y
    ensures k < |x| && x[..k] == y[..k] && x[k] != y[k]
  {
    var n := |x| - 1;
    if x[..n] == y[..n] {
      assert x == x[..n] + [x[n]] && y == y[..n] + [y[n]];
      k := n;
    } else {
      k := FirstUnlike(x[..n], y[..n]);
      assert x[..n][..k] == x[..k] && y[..n][..k] == y[..k];
    }
  }

  lemma SortsByPart(a: FlowCandidate, b: FlowCandidate, k: nat)
    requires k < 7 && SortKey(a)[..k] == SortKey(b)[..k] && SortKey(a)[k] != SortKey(b)[k]
    ensures SortsBefore(a, b) <==> PartBefore(SortKey(a)[k], SortKey(b)[k])
  {
    hide TextBefore;
    var x, y := SortKey(a), SortKey(b);
    forall i | 0 <= i < k ensures x[i] == y[i] {
      assert x[..k][i] == y[..k][i];
    }
    assert (k > 0 ==> x[0] == y[0]) && (k > 1 ==> x[1] == y[1]) && (k > 2 ==> x[2] == y[2]);
    assert (k > 3 ==> x[3] == y[3]) && (k > 4 ==> x[4] == y[4]) && (k > 5 ==> x[5] == y[5]);
    assert k == 0 || k == 1 || k == 2 || k == 3 || k == 4 || k == 5 || k == 6;
  }

  /** The first part of the key in which two candidates differ decides between them. */
  lemma SortsBeforeIff(a: FlowCandidate, b: FlowCandidate)
    ensures SortsBefore(a, b)
            <==> exists k: nat :: k < 7 && SortKey(a)[..k] == SortKey(b)[..k]
                   && PartBefore(SortKey(a)[k], SortKey(b)[k])
  {
    hide TextBefore, SortsBefore, SortKey;
    if k: nat :| k < 7 && SortKey(a)[..k] == SortKey(b)[..k] && PartBefore(SortKey(a)[k], SortKey(b)[k]) {
      PartApart(SortKey(a)[k]);
      SortsByPart(a, b, k);
    }
    if SortsBefore(a, b) {
      if SortKey(a) == SortKey(b) {
        KeyApart(a, b);
      }
      var k := FirstUnlike(SortKey(a), SortKey(b));
      SortsByPart(a, b, k);
    }
  }

  lemma PartApart(part: KeyPart)
    ensures !PartBefore(part, part)
  {
    hide TextBefore;
    if part.Text? {
      TextOrder(part.text, part.text, part.text);
    }
  }

  lemma KeyApart(a: FlowCandidate, b: FlowCandidate)
    requires SortKey(a) == SortKey(b)
    ensures !SortsBefore(a, b)
  {
    hide TextBefore;
    var x, y := SortKey(a), SortKey(b);
    assert x[0] == y[0] && x[1] == y[1] && x[2] == y[2] && x[3] == y[3];
    assert x[4] == y[4] && x[5] == y[5] && x[6] == y[6];
    TextOrder(a.flow.srcAddress, a.flow.srcAddress, a.flow.srcAddress);
  }

  predicate Ranked(s: seq<FlowCandidate>) {
    forall i, j | 0 <= i < j < |s| :: SortsBefore(s[i], s[j])
  }

  /** The candidates of a scan in their order. */
  ghost predicate Lists(ranked: seq<FlowCandidate>, states: map<FlowKey, Candidate>)
    requires AllComplete(states)
  {
    && Ranked(ranked)
    && (forall c | c in ranked :: c.flow in states && c == Freeze(states[c.flow]))
    && (forall k | k in states :: Freeze(states[k]) in ranked)
  }

  ghost predicate OwnFlows(states: map<FlowKey, Candidate>) {
    forall k | k in states :: states[k].flow == k
  }

  method InsertRanked(s: seq<FlowCandidate>, c: FlowCandidate) returns (t: seq<FlowCandidate>)
    requires Ranked(s) && forall x | x in s :: x.flow != c.flow
    ensures Ranked(t) && forall x :: x in t <==> x in s || x == c
  {
    var i := 0;
    while i < |s| && SortsBefore(s[i], c)
      invariant 0 <= i <= |s|
      invariant forall j | 0 <= j < i :: SortsBefore(s[j], c)
    {
      i := i + 1;
    }
    t := s[..i] + [c] + s[i..];
    RankedInsert(s, i, c);
  }

  lemma RankedInsert(s: seq<FlowCandidate>, i: nat, c: FlowCandidate)
    requires i <= |s| && Ranked(s) && forall x | x in s :: x.flow != c.flow
    requires forall j | 0 <= j < i :: SortsBefore(s[j], c)
    requires i < |s| ==> !SortsBefore(s[i], c)
    ensures var t := s[..i] + [c] + s[i..]; Ranked(t) && forall x :: x in t <==> x in s || x == c
  {
    hide SortsBefore;
    forall j | i <= j < |s| ensures SortsBefore(c, s[j]) {
      assert s[i] in s;
      SortOrder(c, s[i], s[j]);
    }
    assert s == s[..i] + s[i..];
  }

  /** sorted(states.values(), key=_candidate_sort_key), frozen. */
  method Rank(states: map<FlowKey, Candidate>) returns (ranked: seq<FlowCandidate>)
    requires AllComplete(states) && OwnFlows(states)
    ensures Lists(ranked, states)
  {
    hide Freeze, Ranked, SortsBefore;
    ranked := [];
    NothingRanked();
    var rest := states.Keys;
    while rest != {}
      invariant rest <= states.Keys && Ranked(ranked)
      invariant forall c | c in ranked :: c.flow in states && c.flow !in rest && c == Freeze(states[c.flow])
      invariant forall k | k in states && k !in rest :: Freeze(states[k]) in ranked
      decreases |rest|
    {
      var k :| k in rest;
      FrozenFlow(states[k]);
      ranked := InsertRanked(ranked, Freeze(states[k]));
      rest := rest - {k};
    }
  }

  lemma NothingRanked()
    ensures Ranked([])
  {
  }

  lemma FrozenFlow(c: Candidate)
    requires forall i | 0 <= i < |FORMATS| :: FORMATS[i] in c.verdicts
    ensures Freeze(c).flow == c.flow && Freeze(c).firstPacketNumber == c.firstPacketNumber
    ensures Freeze(c).id == c.id && Freeze(c).sampled == c.sampled && Freeze(c).sampleOverflow == c.sampleOverflow
    ensures |Freeze(c).formats| == |FORMATS|
    ensures forall i | 0 <= i < |FORMATS| :: Freeze(c).formats[i] == c.verdicts[FORMATS[i]]
  {
  }

  // ---------------------------------------------------------------------------------------------
  // The result of discovery
  // ---------------------------------------------------------------------------------------------

  datatype ProbeDiagnostic = ProbeDiagnostic(
    candidateId: CandidateId, format: Format, reason: Reason, provenance: Provenance)

  datatype DiscoveryResult = DiscoveryResult(
    candidates: seq<FlowCandidate>, diagnostics: seq<ProbeDiagnostic>, observed: nat, sampled: nat,
    candidateOverflow: nat, sampleOverflow: nat, diagnosticOverflow: nat)

  function Labelled(states: map<FlowKey, Candidate>, failures: seq<Failure>): (diagnostics: seq<ProbeDiagnostic>)
    requires forall i | 0 <= i < |failures| :: failures[i].flow in states
    ensures |diagnostics| == |failures|
  {
    seq(|failures|, i requires 0 <= i < |failures| =>
      ProbeDiagnostic(states[failures[i].flow].id, failures[i].format, failures[i].reason, failures[i].provenance))
  }

  /** What a result says of the pass it comes from. */
  ghost predicate Reports(r: DiscoveryResult, limits: ResourceLimits, t: Scan) {
    && AllComplete(t.states) && Lists(r.candidates, t.states)
    && r.observed == t.observed && r.sampled == t.sampled
    && r.candidateOverflow == t.candidateOverflow && r.sampleOverflow == t.sampleOverflow
    && (forall i | 0 <= i < |t.failures| :: t.failures[i].flow in t.states)
    && (forall i | 0 <= i < |Kept(limits, t.failures)| :: Kept(limits, t.failures)[i].flow in t.states)
    && r.diagnostics == Labelled(t.states, Kept(limits, t.failures))
    && |r.diagnostics| + r.diagnosticOverflow == |t.failures|
  }

  ghost predicate Tidy(t: Scan) {
    && AllComplete(t.states) && OwnFlows(t.states)
    && forall i | 0 <= i < |t.failures| :: t.failures[i].flow in t.states
  }

  lemma {:induction false} RejectionsFlow(record: RtpRecord, n: nat)
    requires n <= |FORMATS|
    ensures forall i | 0 <= i < |RejectionsUpTo(record, n)| :: RejectionsUpTo(record, n)[i].flow == record.flowKey
  {
    hide Reading;
    if n > 0 {
      RejectionsFlow(record, n - 1);
    }
  }

  lemma ObserveTidy(selector: FlowSelector, limits: ResourceLimits, t: Scan, s: Sighting)
    requires Tidy(t)
    ensures Tidy(Observe(selector, limits, t, s))
  {
    hide Judged, RejectionsUpTo, FlowSelector.MatchesFlow, CoversFormats;
    RejectionsFlow(s.record, |FORMATS|);
    var t' := Observe(selector, limits, t, s);
    if Admitted(limits, t.states, s).Some? {
      AdmittedComplete(limits, t.states, s);
      JudgedComplete(Admitted(limits, t.states, s).value.verdicts, s.record.payload);
      forall i | 0 <= i < |t'.failures| ensures t'.failures[i].flow in t'.states {
        if i >= |t.failures| {
          assert t'.failures[i] == Rejections(s.record)[i - |t.failures|];
        }
      }
    }
  }

  lemma JudgedComplete(verdicts: Verdicts, payload: Bytes)
    requires CoversFormats(verdicts)
    ensures CoversFormats(Judged(verdicts, payload))
  {
    hide ProbeOf, Judge;
  }

  lemma {:induction false} ScanTidy(selector: FlowSelector, limits: ResourceLimits, records: seq<RtpRecord>)
    ensures Tidy(ScanOf(selector, limits, records))
  {
    hide Observe;
    if records != [] {
      ScanTidy(selector, limits, records[..|records| - 1]);
      ObserveTidy(selector, limits, ScanOf(selector, limits, records[..|records| - 1]),
                  Sighting(records[|records| - 1], |records|));
    }
  }

  lemma KeptPrefix(limits: ResourceLimits, failures: seq<Failure>)
    ensures Kept(limits, failures) <= failures
  {
  }

  /** discover_candidates. */
  method DiscoverCandidates(records: seq<RtpRecord>, selector: FlowSelector, limits: ResourceLimits)
    returns (r: DiscoveryResult)
    ensures Reports(r, limits, ScanOf(selector, limits, records))
  {
    hide ScanOf, Kept, CoversFormats, Lists, OwnFlows;
    var t, failures, overflow := DiscoverStates(records, selector, limits);
    ghost var full := ScanOf(selector, limits, records);
    ScanTidy(selector, limits, records);
    KeptPrefix(limits, full.failures);
    var ranked := Rank(t.states);
    forall i | 0 <= i < |failures| ensures failures[i].flow in t.states {
      assert failures[i] == full.failures[i];
    }
    r := DiscoveryResult(ranked, Labelled(t.states, failures), t.observed, t.sampled, t.candidateOverflow,
                         t.sampleOverflow, overflow);
  }
}
