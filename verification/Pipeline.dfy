/** extract_pcap as a whole: from the datagrams of a capture to the bytes of a storage file and a report (api.py). */
module Pipeline {
  import opened Models
  import opened Retention
  import opened CodecTables
  import opened Storage
  import opened Timeline
  import opened Emitting
  import opened StoredRuns
  import opened TimelineNormalizers
  import opened TimelineRouters
  import opened FlowStates
  import opened Discovery
  import opened Selection
  import opened Extraction

  // ---------------------------------------------------------------------------------------------
  // The output stream
  // ---------------------------------------------------------------------------------------------

  /** A stream that may accept less than it is given, or nothing. */
  class OutputStream {
    var data: Bytes

    /** How often the stream accepted nothing. */
    ghost var refusals: nat

    constructor ()
      ensures data == [] && refusals == 0
    {
      data, refusals := [], 0;
    }

    method Write(chunk: Bytes) returns (written: int)
      modifies this
      ensures written <= |chunk|
      ensures refusals == old(refusals) + (if written <= 0 then 1 else 0)
      ensures data == old(data) + chunk[..if written > 0 then written else 0]
    {
      written := *;
      if written > |chunk| {
        written := |chunk|;
      }
      if written <= 0 {
        refusals := refusals + 1;
      }
      data := data + chunk[..if written > 0 then written else 0];
    }
  }

  /** Only part of these bytes was written. */
  ghost predicate CutShort(before: Bytes, after: Bytes, bytes: Bytes) {
    exists n :: 0 <= n < |bytes| && after == before + bytes[..n]
  }

  /** _write_all: everything, or an error after some of it because the stream refused to go on. */
  method WriteAll(stream: OutputStream, bytes: Bytes) returns (ok: bool)
    modifies stream
    ensures stream.refusals == old(stream.refusals) + (if ok then 0 else 1)
    ensures ok ==> stream.data == old(stream.data) + bytes
    ensures !ok ==> CutShort(old(stream.data), stream.data, bytes)
  {
    var remaining := bytes;
    ghost var done := 0;
    while remaining != []
      invariant 0 <= done <= |bytes| && remaining == bytes[done..]
      invariant stream.data == old(stream.data) + bytes[..done] && stream.refusals == old(stream.refusals)
      decreases |remaining|
    {
      var written := stream.Write(remaining);
      if written <= 0 {
        assert stream.data == old(stream.data) + bytes[..done];
        return false;
      }
      assert bytes[..done + written] == bytes[..done] + remaining[..written];
      remaining, done := remaining[written..], done + written;
    }
    assert bytes[..done] == bytes;
    return true;
  }

  lemma CutLonger(before: Bytes, whole: Bytes, after: Bytes, part: Bytes, more: Bytes)
    requires CutShort(before + whole, after, part)
    ensures CutShort(before, after, whole + part + more)
  {
    var n :| 0 <= n < |part| && after == before + whole + part[..n];
    assert (whole + part + more)[..|whole| + n] == whole + part[..n];
  }

  /** The next frames of the storage file. */
  method WriteFrames(stream: OutputStream, codec: Codec, frames: seq<EncodedFrame>) returns (ok: bool)
    requires AllWritable(codec, frames)
    modifies stream
    ensures stream.refusals == old(stream.refusals) + (if ok then 0 else 1)
    ensures ok ==> stream.data == old(stream.data) + StoredFrames(codec, frames)
    ensures !ok ==> CutShort(old(stream.data), stream.data, StoredFrames(codec, frames))
  {
    hide SerializeFrame, AllWritable, StoredFrames, CutShort;
    NothingStored(codec);
    assert frames[..0] == [];
    for i := 0 to |frames|
      invariant AllWritable(codec, frames[..i]) && stream.refusals == old(stream.refusals)
      invariant stream.data == old(stream.data) + StoredFrames(codec, frames[..i])
    {
      FrameWritable(codec, frames, i);
      var bytes := SerializeFrame(frames[i]).value;
      AllWritableAppend(codec, frames, i);
      FrameStored(codec, frames[i]);
      RestStored(codec, frames, i + 1);
      ok := WriteAll(stream, bytes);
      if !ok {
        CutLonger(old(stream.data), StoredFrames(codec, frames[..i]), stream.data, bytes,
                  StoredFrames(codec, frames[i + 1..]));
        return false;
      }
    }
    assert frames[..|frames|] == frames;
    return true;
  }

  lemma RestStored(codec: Codec, frames: seq<EncodedFrame>, n: nat)
    requires AllWritable(codec, frames) && n <= |frames|
    ensures AllWritable(codec, frames[..n]) && AllWritable(codec, frames[n..])
    ensures StoredFrames(codec, frames) == StoredFrames(codec, frames[..n]) + StoredFrames(codec, frames[n..])
  {
    hide AllWritable, StoredFrames;
    assert frames == frames[..n] + frames[n..];
    StoredFramesJoin(codec, frames[..n], frames[n..]);
  }

  lemma FrameWritable(codec: Codec, frames: seq<EncodedFrame>, i: nat)
    requires AllWritable(codec, frames) && i < |frames|
    ensures Writable(codec, frames[i]) && SerializeFrame(frames[i]).Ok?
  {
    hide SerializeFrame;
  }

  lemma FrameStored(codec: Codec, frame: EncodedFrame)
    requires Writable(codec, frame)
    ensures StoredFrame(codec, frame) == SerializeFrame(frame).value
  {
    hide SerializeFrame;
  }

  // ---------------------------------------------------------------------------------------------
  // The states of the selected flows
  // ---------------------------------------------------------------------------------------------

  ghost predicate OneConfigEach(cfgs: seq<Config>) {
    forall i, j | 0 <= i < j < |cfgs| :: cfgs[i].flow != cfgs[j].flow
  }

  ghost predicate Configured(cfgs: seq<Config>, key: FlowKey) {
    exists j :: 0 <= j < |cfgs| && cfgs[j].flow == key
  }

  lemma ConfiguredNext(cfgs: seq<Config>, i: nat)
    requires OneConfigEach(cfgs) && i < |cfgs|
    ensures forall k :: Configured(cfgs[..i + 1], k) <==> Configured(cfgs[..i], k) || k == cfgs[i].flow
    ensures !Configured(cfgs[..i], cfgs[i].flow)
  {
    forall k ensures Configured(cfgs[..i + 1], k) <==> Configured(cfgs[..i], k) || k == cfgs[i].flow {
      if Configured(cfgs[..i], k) {
        var j :| 0 <= j < i && cfgs[..i][j].flow == k;
        assert cfgs[..i + 1][j].flow == k;
      }
      if Configured(cfgs[..i + 1], k) && k != cfgs[i].flow {
        var j :| 0 <= j < i + 1 && cfgs[..i + 1][j].flow == k;
        assert cfgs[..i][j].flow == k;
      }
      assert cfgs[..i + 1][i] == cfgs[i];
    }
  }

  /** _new_flow_states. */
  method NewFlowStates(cfgs: seq<Config>) returns (states: States)
    requires OneConfigEach(cfgs)
    ensures fresh(Objects(states)) && Indexed(FlowsOf(cfgs), states)
    ensures AllFollow(states, FlowsOf(cfgs), [], []) && NoErrors(states, FlowsOf(cfgs), [])
    ensures forall i | 0 <= i < |cfgs| :: cfgs[i].flow in states && states[cfgs[i].flow].normalizer.cfg == cfgs[i]
  {
    hide FlowState.Valid, Configured;
    states := map[];
    NothingConfigured();
    for i := 0 to |cfgs|
      invariant forall k | k in states :: fresh(states[k]) && fresh(states[k].normalizer)
      invariant Separate(states)
      invariant forall k :: k in states <==> Configured(cfgs[..i], k)
      invariant forall j | 0 <= j < i :: cfgs[j].flow in states && states[cfgs[j].flow].normalizer.cfg == cfgs[j]
      invariant forall k | k in states :: Follows(states[k], k, [], 0, [], []) && states[k].Idle()
    {
      var state := new FlowState(cfgs[i]);
      assert FramesIn(state.normalizer.drained) == [];
      ConfiguredNext(cfgs, i);
      states := states[cfgs[i].flow := state];
    }
    assert cfgs[..|cfgs|] == cfgs;
    IndexedFlows(cfgs, states);
  }

  lemma NothingConfigured()
    ensures forall k :: !Configured([], k)
  {
  }

  lemma IndexedFlows(cfgs: seq<Config>, states: States)
    requires OneConfigEach(cfgs) && Separate(states)
    requires forall k :: k in states <==> Configured(cfgs, k)
    ensures Indexed(FlowsOf(cfgs), states)
  {
    hide Separate;
    var flows := FlowsOf(cfgs);
    forall k ensures k in flows <==> k in states {
      if k in states {
        var j :| 0 <= j < |cfgs| && cfgs[j].flow == k;
        assert flows[j] == k;
      }
      if k in flows {
        var j :| 0 <= j < |flows| && flows[j] == k;
        assert cfgs[j].flow == k;
      }
    }
  }

  // ---------------------------------------------------------------------------------------------
  // One flow extracted
  // ---------------------------------------------------------------------------------------------

  /** The timeline of a selection. */
  function ConfigFor(selection: SelectedFlow, gaps: GapPolicy, limits: ResourceLimits): Config {
    Config(selection.flow, selection.format.codec, selection.format.mode, gaps, limits)
  }

  /** The selection, renamed after the first packet of the flow's records when that was unknown. */
  function Identified(selection: SelectedFlow, records: seq<RtpRecord>): SelectedFlow {
    if selection.firstPacketNumber == 0 && FirstNumber(records).Some? then
      var first := FirstNumber(records).value;
      selection.(id := CandidateId(first, selection.flow), firstPacketNumber := first)
    else selection
  }

  /** Record i is the first one with a number. */
  ghost predicate FirstNumbered(records: seq<RtpRecord>, i: nat) {
    && i < |records| && records[i].provenance.packetNumber.Some?
    && forall j | 0 <= j < i :: records[j].provenance.packetNumber == None
  }

  /** The first number of some records is that of the first one that has any. */
  lemma {:induction false} FirstNumberIff(records: seq<RtpRecord>)
    ensures forall i: nat | FirstNumbered(records, i) :: FirstNumber(records) == records[i].provenance.packetNumber
    ensures FirstNumber(records) == None
            <==> forall i | 0 <= i < |records| :: records[i].provenance.packetNumber == None
  {
    if records != [] {
      var front, last := records[..|records| - 1], records[|records| - 1];
      FirstNumberIff(front);
      forall i: nat | FirstNumbered(records, i) ensures FirstNumber(records) == records[i].provenance.packetNumber {
        if i < |front| {
          assert FirstNumbered(front, i);
        }
      }
      assert records == front + [last];
    }
  }

  /**
   * What a report says was selected: the flow and format selected, under the selected number or, if that was open, the
   * number of the flow's first numbered packet; and the identifier is that of this flow and number.
   */
  lemma IdentifiedName(selection: SelectedFlow, records: seq<RtpRecord>)
    requires selection.id == CandidateId(selection.firstPacketNumber, selection.flow)
    ensures var named := Identified(selection, records);
            && named.flow == selection.flow && named.format == selection.format
            && named.id == CandidateId(named.firstPacketNumber, selection.flow)
            && (selection.firstPacketNumber != 0 ==> named == selection)
            && (selection.firstPacketNumber == 0 ==>
                  && (forall i: nat | FirstNumbered(records, i) ::
                        Some(named.firstPacketNumber) == records[i].provenance.packetNumber)
                  && ((forall i | 0 <= i < |records| :: records[i].provenance.packetNumber == None) ==>
                        named == selection))
  {
    FirstNumberIff(records);
  }

  /** What the capture held: its packets, and the UDP datagrams among them that the selector let through. */
  datatype CaptureCounts = CaptureCounts(packets: nat, udpPackets: nat)

  datatype ExtractionReport = ExtractionReport(
    selected: SelectedFlow, passes: nat, capture: CaptureCounts, selectedRtpPackets: nat, emittedFrames: nat,
    badQualityFrames: nat, duplicatePackets: nat, gaps: nat, insertedNoData: nat, reorderedPackets: nat,
    latePackets: nat, overlapFrames: nat, malformedPackets: nat, historyOverflows: nat, diagnostics: seq<Report>,
    diagnosticOverflow: nat)

  datatype ExtractionExit =
    | Extracted(report: ExtractionReport)
    | MalformedRaised
    | WriteFailed
    | NoPackets
    | NothingAccepted

  /** What a report says of a flow's whole run, of its malformed datagrams and of the errors kept. */
  ghost predicate Describes(
    report: ExtractionReport, cfg: Config, records: seq<RtpRecord>, faults: nat, kept: seq<Report>)
  {
    var t := Complete(cfg, records);
    var c := t.state.counters;
    var total := faults + c.malformed + c.latePackets + c.overflows;
    && report.selectedRtpPackets == |records|
    && report.emittedFrames == |t.emitted| && report.badQualityFrames == |BadPlaces(t.released)|
    && report.insertedNoData == (if cfg.policy.NoData? then c.gaps else 0)
    && report.duplicatePackets == c.duplicates && report.gaps == c.gaps && report.reorderedPackets == c.reordered
    && report.latePackets == c.latePackets && report.overlapFrames == c.overlaps
    && report.malformedPackets == faults + c.malformed && report.historyOverflows == c.overflows
    && EarliestOf(report.diagnostics, kept + EventReports(c.diagnostics), cfg.limits)
    && |report.diagnostics| == (if total < cfg.limits.maxDiagnostics then total else cfg.limits.maxDiagnostics)
    && |report.diagnostics| + report.diagnosticOverflow == total
  }

  /** _report. */
  method MakeReport(state: FlowState, selection: SelectedFlow, capture: CaptureCounts, passes: nat)
    returns (report: ExtractionReport)
    requires state.Valid() && state.normalizer.finished && state.normalizer.output == []
    requires state.normalizer.cfg.limits.Valid()
    ensures Describes(report, state.normalizer.cfg, state.normalizer.log, state.malformedRtpCount, state.diagnostics)
    ensures report.capture == capture && report.passes == passes
    ensures report.selected == Identified(selection, state.normalizer.log)
  {
    hide TimelineNormalizer.Valid, Complete, BadQuality, BadPlaces, EarliestOf;
    var n := state.normalizer;
    DrainedCounters(n);
    DrainedState(n);
    var diagnostics, overflow := state.Combined();
    var selected := selection;
    if selection.firstPacketNumber == 0 && state.firstPacketNumber.Some? {
      var first := state.firstPacketNumber.value;
      selected := selection.(id := CandidateId(first, selection.flow), firstPacketNumber := first);
    }
    report := ExtractionReport(
      selected, passes, capture, state.selectedRtpPacketCount, n.emittedFrameCount, n.badQualityFrameCount,
      n.counters.duplicates, n.counters.gaps, n.insertedNoDataCount, n.counters.reordered, n.counters.latePackets,
      n.counters.overlaps, state.malformedRtpCount + n.counters.malformed, n.counters.overflows, diagnostics, overflow);
  }

  /** The file so far: what the flow's timeline has released for these datagrams. */
  ghost function FileSoFar(cfg: Config, udps: seq<UdpRecord>): Bytes {
    var records := RecordsFor(udps, cfg.flow);
    SoFarWritable(cfg, records);
    StorageHeader(cfg.codec) + StoredFrames(cfg.codec, FramesIn(Run(cfg, records).emitted))
  }

  lemma SoFarWritable(cfg: Config, records: seq<RtpRecord>)
    ensures AllWritable(cfg.codec, FramesIn(Run(cfg, records).emitted))
  {
    hide Run, Complete, Writable;
    RunWritable(cfg, records);
    assert records[..|records|] == records;
    CompleteExtends(cfg, records, |records|);
  }

  /** The datagram at which a strict policy stops: the first malformed one, or the first with a malformed payload. */
  ghost predicate StopsAt(cfg: Config, udps: seq<UdpRecord>, n: nat) {
    && 0 < n <= |udps| && ErrorsOf(cfg, udps[..n - 1], [cfg.flow]) == [] && ErrorsOf(cfg, udps[..n], [cfg.flow]) != []
  }

  /** Where the loop over the datagrams stands, with these frames written. */
  ghost predicate WrittenUpTo(state: FlowState, cfg: Config, udps: seq<UdpRecord>, frames: seq<EncodedFrame>)
    reads state, state.normalizer
  {
    && state.normalizer.cfg == cfg && FollowsAll(state, cfg.flow, [cfg.flow], udps, frames) && state.Idle()
  }

  lemma WrittenFrames(state: FlowState, cfg: Config, udps: seq<UdpRecord>, frames: seq<EncodedFrame>)
    requires WrittenUpTo(state, cfg, udps, frames)
    ensures frames == FramesIn(Run(cfg, RecordsFor(udps, cfg.flow)).emitted)
  {
    hide Run, RecordsFor, FaultCount, ErrorsOf, TimelineNormalizer.Mirrored, Inserted, BadQuality, Kept;
    var n := state.normalizer;
    assert n.drained + [] == n.drained;
  }

  /** Frames that come next in the file are written after it. */
  lemma FileGrows(cfg: Config, udps: seq<UdpRecord>, n: nat, earlier: seq<EncodedFrame>, frames: seq<EncodedFrame>)
    requires n <= |udps|
    requires earlier + frames == FramesIn(Run(cfg, RecordsFor(udps[..n], cfg.flow)).emitted)
    ensures AllWritable(cfg.codec, earlier) && AllWritable(cfg.codec, frames)
    ensures FileSoFar(cfg, udps[..n])
            == StorageHeader(cfg.codec) + StoredFrames(cfg.codec, earlier) + StoredFrames(cfg.codec, frames)
  {
    hide Run, RecordsFor, AllWritable, StoredFrames, StorageHeader;
    SoFarWritable(cfg, RecordsFor(udps[..n], cfg.flow));
    StoredFramesJoin(cfg.codec, earlier, frames);
  }

  /** What is written while reading comes first in the file of the whole capture. */
  lemma FileExtends(cfg: Config, udps: seq<UdpRecord>, n: nat)
    requires n <= |udps|
    ensures FileSoFar(cfg, udps[..n]) <= StorageFile(cfg, RecordsFor(udps, cfg.flow))
  {
    hide Run, Complete, RecordsFor, AllWritable, StoredFrames, StorageHeader;
    var some, all := RecordsFor(udps[..n], cfg.flow), RecordsFor(udps, cfg.flow);
    RecordsExtend(udps, n, cfg.flow);
    assert some == all[..|some|];
    CompleteExtends(cfg, all, |some|);
    var a, b := FramesIn(Run(cfg, some).emitted), FramesIn(Complete(cfg, all).emitted);
    assert b == a + b[|a|..];
    RunWritable(cfg, all);
    StoredFramesJoin(cfg.codec, a, b[|a|..]);
  }

  lemma {:induction false} RecordsExtend(udps: seq<UdpRecord>, n: nat, key: FlowKey)
    requires n <= |udps|
    ensures RecordsFor(udps[..n], key) <= RecordsFor(udps, key)
  {
    hide RecordsFor;
    if n == |udps| {
      assert udps[..n] == udps;
    } else {
      var front, last := udps[..|udps| - 1], udps[|udps| - 1];
      assert udps == front + [last] && front[..n] == udps[..n];
      RecordsExtend(front, n, key);
      OneMoreDatagram(front, last, [], key);
    }
  }

  lemma CutPrefix(before: Bytes, after: Bytes, part: Bytes, whole: Bytes)
    requires CutShort(before, after, part) && part <= whole
    ensures CutShort(before, after, whole)
  {
    var n :| 0 <= n < |part| && after == before + part[..n];
    assert whole[..n] == part[..n];
  }

  /** One turn of the loop of extract_pcap: a datagram is routed, and what it releases is written. */
  method ExtractNext(
    states: States, cfg: Config, udps: seq<UdpRecord>, n: nat, policy: MalformedPolicy, stream: OutputStream,
    ghost routed: seq<Routed>, ghost before: Bytes)
    returns (ghost more: seq<Routed>, ok: bool, raised: bool)
    requires n < |udps| && Indexed([cfg.flow], states) && AllFollow(states, [cfg.flow], udps[..n], routed)
    requires cfg.flow in states && states[cfg.flow].normalizer.cfg == cfg
    requires policy.Strict? ==> NoErrors(states, [cfg.flow], udps[..n])
    requires stream !in Objects(states) && stream.data == before + FileSoFar(cfg, udps[..n])
    modifies stream, Objects(states)
    ensures AllFollow(states, [cfg.flow], udps[..n + 1], routed + more)
    ensures raised <==> policy.Strict? && !NoErrors(states, [cfg.flow], udps[..n + 1])
    ensures stream.refusals == old(stream.refusals) + (if ok then 0 else 1)
    ensures ok ==> stream.data == before + FileSoFar(cfg, udps[..n + 1])
    ensures !ok ==> CutShort(before, stream.data, FileSoFar(cfg, udps[..n + 1]))
  {
    hide Indexed, NoErrors, FileSoFar, StoredFrames, StorageHeader, AllWritable, RecordsFor, Only, CutShort;
    hide FollowsAll, FlowState.Idle, Run;
    var key := cfg.flow;
    WrittenFrames(states[key], cfg, udps[..n], Only(routed, key));
    assert udps[..n + 1] == udps[..n] + [udps[n]];
    var out;
    out, raised := RouteDatagram(states, [key], udps[..n], udps[n], policy, routed);
    more := out;
    WrittenFrames(states[key], cfg, udps[..n + 1], Only(routed + more, key));
    var frames := OnlyFrames(out, key);
    OnlyJoin(routed, out, key);
    FileGrows(cfg, udps, n + 1, Only(routed, key), frames);
    assert Only(routed, key) + [] == Only(routed, key);
    FileGrows(cfg, udps, n, Only(routed, key), []);
    NothingStored(cfg.codec);
    ok := WriteFrames(stream, cfg.codec, frames);
    if !ok {
      ghost var file := FileSoFar(cfg, udps[..n]) + StoredFrames(cfg.codec, frames);
      assert file + [] == file == FileSoFar(cfg, udps[..n + 1]);
      CutLonger(before, FileSoFar(cfg, udps[..n]), stream.data, StoredFrames(cfg.codec, frames), []);
    }
  }

  lemma {:induction false} OnlyJoin(a: seq<Routed>, b: seq<Routed>, key: FlowKey)
    ensures Only(a + b, key) == Only(a, key) + Only(b, key)
  {
    if b == [] {
      assert a + b == a;
    } else {
      OnlyJoin(a, b[..|b| - 1], key);
      assert (a + b)[..|a + b| - 1] == a + b[..|b| - 1];
    }
  }

  /** The one state of a single selection. */
  method NewFlowState(cfg: Config) returns (states: States)
    ensures fresh(Objects(states)) && Indexed([cfg.flow], states) && cfg.flow in states
    ensures AllFollow(states, [cfg.flow], [], []) && NoErrors(states, [cfg.flow], [])
    ensures states[cfg.flow].normalizer.cfg == cfg
  {
    hide Indexed, AllFollow, NoErrors;
    states := NewFlowStates([cfg]);
    assert FlowsOf([cfg]) == [cfg.flow];
    assert [cfg][0] == cfg;
  }

  lemma SingleErrors(states: States, cfg: Config, udps: seq<UdpRecord>)
    requires Indexed([cfg.flow], states) && cfg.flow in states && states[cfg.flow].normalizer.cfg == cfg
    ensures NoErrors(states, [cfg.flow], udps) <==> ErrorsOf(cfg, udps, [cfg.flow]) == []
  {
    hide ErrorsOf, Separate;
  }

  lemma FileStarts(cfg: Config)
    ensures FileSoFar(cfg, []) == StorageHeader(cfg.codec)
  {
    hide StorageHeader;
    NothingStored(cfg.codec);
    assert StorageHeader(cfg.codec) + [] == StorageHeader(cfg.codec);
  }

  /** The loop of extract_pcap over the datagrams: read, written, or stopped by either side. */
  method ExtractAll(
    states: States, cfg: Config, udps: seq<UdpRecord>, policy: MalformedPolicy, stream: OutputStream,
    ghost before: Bytes)
    returns (ghost routed: seq<Routed>, ok: bool, raised: bool)
    requires Indexed([cfg.flow], states) && cfg.flow in states && states[cfg.flow].normalizer.cfg == cfg
    requires AllFollow(states, [cfg.flow], [], []) && NoErrors(states, [cfg.flow], [])
    requires stream !in Objects(states) && stream.data == before + StorageHeader(cfg.codec)
    modifies stream, Objects(states)
    ensures stream.refusals == old(stream.refusals) + (if ok then 0 else 1)
    ensures !ok ==> CutShort(before, stream.data, StorageFile(cfg, RecordsFor(udps, cfg.flow)))
    ensures ok ==> (raised <==> policy.Strict? && ErrorsOf(cfg, udps, [cfg.flow]) != [])
    ensures ok && raised ==> exists n: nat :: StopsAt(cfg, udps, n) && stream.data == before + FileSoFar(cfg, udps[..n])
    ensures ok && !raised ==>
              AllFollow(states, [cfg.flow], udps, routed) && stream.data == before + FileSoFar(cfg, udps)
  {
    hide Indexed, AllFollow, NoErrors, FileSoFar, StorageFile, StorageHeader, RecordsFor, ErrorsOf, CutShort;
    var key := cfg.flow;
    routed, ok, raised := [], true, false;
    FileStarts(cfg);
    assert udps[..0] == [];
    for i := 0 to |udps|
      invariant ok && !raised && stream.refusals == old(stream.refusals)
      invariant AllFollow(states, [key], udps[..i], routed) && (policy.Strict? ==> NoErrors(states, [key], udps[..i]))
      invariant stream.data == before + FileSoFar(cfg, udps[..i])
    {
      ghost var more;
      more, ok, raised := ExtractNext(states, cfg, udps, i, policy, stream, routed, before);
      routed := routed + more;
      FileExtends(cfg, udps, i + 1);
      if !ok {
        CutPrefix(before, stream.data, FileSoFar(cfg, udps[..i + 1]), StorageFile(cfg, RecordsFor(udps, key)));
        return;
      }
      if raised {
        SingleErrors(states, cfg, udps[..i]);
        SingleErrors(states, cfg, udps[..i + 1]);
        ErrorsGrow(cfg, udps, [key], i + 1);
        assert udps[..i + 1 - 1] == udps[..i];
        assert StopsAt(cfg, udps, i + 1);
        return;
      }
    }
    assert udps[..|udps|] == udps;
    SingleErrors(states, cfg, udps);
  }

  /** The frames that finish releases are written, and the file is whole. */
  method ExtractRest(
    states: States, cfg: Config, udps: seq<UdpRecord>, stream: OutputStream, ghost routed: seq<Routed>,
    ghost before: Bytes)
    returns (ok: bool)
    requires Indexed([cfg.flow], states) && cfg.flow in states && states[cfg.flow].normalizer.cfg == cfg
    requires AllFollow(states, [cfg.flow], udps, routed)
    requires stream !in Objects(states) && stream.data == before + FileSoFar(cfg, udps)
    modifies stream, Objects(states)
    ensures stream.refusals == old(stream.refusals) + (if ok then 0 else 1)
    ensures !ok ==> CutShort(before, stream.data, StorageFile(cfg, RecordsFor(udps, cfg.flow)))
    ensures ok ==>
              && stream.data == before + StorageFile(cfg, RecordsFor(udps, cfg.flow))
              && exists frames :: Done(states[cfg.flow], cfg.flow, [cfg.flow], udps, frames)
  {
    hide Indexed, FileSoFar, StorageFile, StoredFrames, StorageHeader, AllWritable, RecordsFor, Only, CutShort;
    hide FollowsAll, FlowState.Idle, Run, Complete;
    var key := cfg.flow;
    ghost var records := RecordsFor(udps, key);
    WrittenFrames(states[key], cfg, udps, Only(routed, key));
    var out := FinishAll(states, [key], udps, routed);
    assert Done(states[key], key, [key], udps, Only(routed + out, key));
    var frames := OnlyFrames(out, key);
    OnlyJoin(routed, out, key);
    FileEnds(cfg, udps, Only(routed, key), frames);
    ok := WriteFrames(stream, cfg.codec, frames);
    assert Done(states[key], key, [key], udps, Only(routed + out, key));
    if !ok {
      ghost var file := FileSoFar(cfg, udps) + StoredFrames(cfg.codec, frames);
      assert file + [] == file == StorageFile(cfg, records);
      CutLonger(before, FileSoFar(cfg, udps), stream.data, StoredFrames(cfg.codec, frames), []);
    }
  }

  lemma FileEnds(cfg: Config, udps: seq<UdpRecord>, earlier: seq<EncodedFrame>, frames: seq<EncodedFrame>)
    requires earlier == FramesIn(Run(cfg, RecordsFor(udps, cfg.flow)).emitted)
    requires earlier + frames == FramesIn(Complete(cfg, RecordsFor(udps, cfg.flow)).emitted)
    ensures AllWritable(cfg.codec, frames)
    ensures StorageFile(cfg, RecordsFor(udps, cfg.flow)) == FileSoFar(cfg, udps) + StoredFrames(cfg.codec, frames)
  {
    hide Run, Complete, RecordsFor, AllWritable, StoredFrames, StorageHeader;
    RunWritable(cfg, RecordsFor(udps, cfg.flow));
    StoredFramesJoin(cfg.codec, earlier, frames);
  }

  /** What a report says of the capture and of the flow in it. */
  ghost predicate Tells(
    report: ExtractionReport, cfg: Config, udps: seq<UdpRecord>, selection: SelectedFlow, capture: CaptureCounts,
    passes: nat)
  {
    var records, errors := RecordsFor(udps, cfg.flow), ErrorsOf(cfg, udps, [cfg.flow]);
    && Describes(report, cfg, records, FaultCount(udps, [cfg.flow], cfg.flow), Kept(cfg.limits, errors))
    && report.malformedPackets == |errors|
    && report.selected == Identified(selection, records)
    && report.capture == capture && report.passes == passes
  }

  /** What the exit of an extraction says of the datagrams, and of the stream before and after it. */
  ghost predicate Ends(
    exit: ExtractionExit, cfg: Config, udps: seq<UdpRecord>, selection: SelectedFlow, policy: MalformedPolicy,
    capture: CaptureCounts, passes: nat, before: Bytes, after: Bytes, refused: bool)
  {
    var records, errors := RecordsFor(udps, cfg.flow), ErrorsOf(cfg, udps, [cfg.flow]);
    && (exit.WriteFailed? <==> refused)
    && (refused ==> CutShort(before, after, StorageFile(cfg, records)))
    && (!refused ==> (exit.MalformedRaised? <==> policy.Strict? && errors != []))
    && (exit.MalformedRaised? ==>
          exists n: nat :: StopsAt(cfg, udps, n) && after == before + FileSoFar(cfg, udps[..n]))
    && (!exit.WriteFailed? && !exit.MalformedRaised? ==>
          && after == before + StorageFile(cfg, records)
          && (exit.NoPackets? <==> records == [])
          && (exit.Extracted? <==> Run(cfg, records).state.counters.accepted > 0))
    && (exit.Extracted? ==> Tells(exit.report, cfg, udps, selection, capture, passes))
  }

  /**
   * extract_pcap for a resolved selection: the magic header, then every frame the flow's timeline emits, written while
   * the capture is read, and a report. The exits are exact: the stream refused to go on, and holds part of the file; a
   * strict policy met its first error, and the stream holds what was released until then; or the stream holds the
   * whole file, and the flow had no packet, none that was accepted, or a report is made.
   */
  method ExtractPcap(
    udps: seq<UdpRecord>, selection: SelectedFlow, gaps: GapPolicy, policy: MalformedPolicy, limits: ResourceLimits,
    stream: OutputStream, capturePackets: nat, passes: nat)
    returns (exit: ExtractionExit)
    requires limits.Valid()
    modifies stream
    ensures Ends(exit, ConfigFor(selection, gaps, limits), udps, selection, policy,
                 CaptureCounts(capturePackets, |udps|), passes, old(stream.data), stream.data,
                 stream.refusals > old(stream.refusals))
  {
    hide Complete, Run, RecordsFor, FaultCount, ErrorsOf, FlowState.Valid, StorageFile, FileSoFar, StorageHeader;
    hide AllFollow;
    hide Indexed, EarliestOf, BadQuality, CutShort, Kept, StopsAt;
    var cfg := ConfigFor(selection, gaps, limits);
    var key := cfg.flow;
    var states := NewFlowState(cfg);
    FileExtends(cfg, udps, 0);
    FileStarts(cfg);
    assert udps[..0] == [];
    var ok := WriteAll(stream, StorageHeader(cfg.codec));
    if !ok {
      CutPrefix(old(stream.data), stream.data, StorageHeader(cfg.codec), StorageFile(cfg, RecordsFor(udps, key)));
      return WriteFailed;
    }
    ghost var routed;
    var raised;
    routed, ok, raised := ExtractAll(states, cfg, udps, policy, stream, old(stream.data));
    if !ok {
      return WriteFailed;
    }
    if raised {
      return MalformedRaised;
    }
    ok := ExtractRest(states, cfg, udps, stream, routed, old(stream.data));
    if !ok {
      return WriteFailed;
    }
    exit := Conclude(states[key], cfg, udps, selection, CaptureCounts(capturePackets, |udps|), passes);
  }

  /** The checks after the loop, and the report. */
  method Conclude(
    state: FlowState, cfg: Config, ghost udps: seq<UdpRecord>, selection: SelectedFlow, capture: CaptureCounts,
    passes: nat)
    returns (exit: ExtractionExit)
    requires cfg.limits.Valid() && state.normalizer.cfg == cfg
    requires exists frames :: Done(state, cfg.flow, [cfg.flow], udps, frames)
    ensures !exit.WriteFailed? && !exit.MalformedRaised?
    ensures exit.NoPackets? <==> RecordsFor(udps, cfg.flow) == []
    ensures exit.Extracted? <==> Run(cfg, RecordsFor(udps, cfg.flow)).state.counters.accepted > 0
    ensures exit.Extracted? ==> Tells(exit.report, cfg, udps, selection, capture, passes)
  {
    hide Complete, Run, RecordsFor, FaultCount, ErrorsOf, FlowState.Valid, EarliestOf, BadQuality, Kept;
    ghost var records := RecordsFor(udps, cfg.flow);
    FollowedCounts(state);
    FinishedCounters(cfg, state.normalizer);
    NothingRun(cfg, records);
    if state.selectedRtpPacketCount == 0 {
      return NoPackets;
    }
    if state.normalizer.counters.accepted == 0 {
      return NothingAccepted;
    }
    DrainedState(state.normalizer);
    ErrorsCounted(cfg, udps, [cfg.flow]);
    var report := MakeReport(state, selection, capture, passes);
    return Extracted(report);
  }

  lemma NothingRun(cfg: Config, records: seq<RtpRecord>)
    ensures records == [] ==> Run(cfg, records).state.counters.accepted == 0
  {
  }

  method OnlyFrames(routed: seq<Routed>, key: FlowKey) returns (frames: seq<EncodedFrame>)
    ensures frames == Only(routed, key)
  {
    frames := [];
    for i := 0 to |routed|
      invariant frames == Only(routed[..i], key)
    {
      assert routed[..i + 1][..i] == routed[..i];
      if routed[i].flow == key {
        frames := frames + [routed[i].frame];
      }
    }
    assert routed[..|routed|] == routed;
  }

  lemma DrainedState(n: TimelineNormalizer)
    requires n.Valid() && n.finished && n.output == []
    ensures n.counters == Complete(n.cfg, n.log).state.counters
    ensures n.badQualityFrameCount == |BadPlaces(Complete(n.cfg, n.log).released)|
  {
    hide Complete, Run, Inserted, BadQuality, BadPlaces;
    BadQualityReleased(n.cfg, n.log);
    assert n.drained + [] == n.drained;
  }

  lemma FollowedCounts(state: FlowState)
    requires state.Valid()
    ensures state.selectedRtpPacketCount == |state.normalizer.log| && state.normalizer.Valid()
  {
    hide TimelineNormalizer.Valid;
  }

  lemma FinishedCounters(cfg: Config, n: TimelineNormalizer)
    requires n.Valid() && n.finished && n.cfg == cfg
    ensures n.counters.accepted == Run(cfg, n.log).state.counters.accepted
    ensures n.counters.malformed == Run(cfg, n.log).state.counters.malformed
  {
    hide Run, InOrder, Gaps, Emissions, TimelineNormalizer.Mirrored, TimelineNormalizer.Drained;
  }
}
