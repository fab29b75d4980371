/** From a sender's speech on the wire to the storage file that extraction writes. */
module Captures {
  import opened Models
  import opened CodecTables
  import opened Rfc4867
  import opened Storage
  import opened Rtcp
  import opened Rtp
  import opened Timeline
  import opened Windows
  import opened Wraps
  import opened Delivery
  import opened EndToEnd
  import opened StoredRuns
  import opened Filling
  import opened Speaking
  import opened SecondPass
  import opened TimelineRouters
  import opened Extraction
  import opened Selection
  import opened Pipeline

  /** A datagram carrying exactly this record, not mistakable for RTCP. */
  ghost predicate Carried(udp: UdpRecord, record: RtpRecord) {
    !Compound(udp.payload) && exists padding :: MadeOf(udp, record, padding)
  }

  /** A datagram without a record of this flow: another flow, RTCP, no RTP at all, or malformed RTP. */
  predicate Other(udp: UdpRecord, key: FlowKey) {
    FlowRecords(ParsedRecord(udp), key) == []
  }

  /** The datagrams carry these packets of the flow, in this order, among whatever else was captured. */
  ghost predicate Convey(udps: seq<UdpRecord>, records: seq<RtpRecord>, key: FlowKey) {
    if udps == [] then records == []
    else
      var n, m := |udps| - 1, |records| - 1;
      || (Other(udps[n], key) && Convey(udps[..n], records, key))
      || (m >= 0 && Carried(udps[n], records[m]) && records[m].flowKey == key && Convey(udps[..n], records[..m], key))
  }

  lemma {:induction false} ConveyedRecords(udps: seq<UdpRecord>, records: seq<RtpRecord>, key: FlowKey)
    requires Convey(udps, records, key)
    ensures RecordsFor(udps, key) == records
  {
    hide Carried, Parse, RecordsFor, ParsedRecord;
    if udps == [] {
      NothingConveyed(key);
    } else {
      var n, m := |udps| - 1, |records| - 1;
      assert udps == udps[..n] + [udps[n]];
      OneMoreDatagram(udps[..n], udps[n], [key], key);
      if Other(udps[n], key) && Convey(udps[..n], records, key) {
        ConveyedRecords(udps[..n], records, key);
        assert records + [] == records;
      } else {
        ConveyedRecords(udps[..n], records[..m], key);
        CarriedParses(udps[n], records[m], key);
        assert records == records[..m] + [records[m]];
      }
    }
  }

  lemma NothingConveyed(key: FlowKey)
    ensures RecordsFor([], key) == []
  {
  }

  lemma CarriedParses(udp: UdpRecord, record: RtpRecord, key: FlowKey)
    requires Carried(udp, record) && record.flowKey == key
    ensures FlowRecords(ParsedRecord(udp), key) == [record]
  {
    hide Parse, Compound, MadeOf;
    ParseIff(udp, record);
    OnlyRecord(record, key);
  }

  lemma ArrivesIffSent(stream: seq<Sent>, talk: seq<Sent>)
    requires Delivers(stream, talk)
    ensures stream == [] <==> talk == []
  {
    hide Copy;
    if stream != [] {
      assert stream[0] in stream;
    }
    if talk != [] {
      assert talk[0] in talk;
    }
  }

  /** A delivery has no malformed payload, and a packet is accepted if there is one. */
  lemma DeliveryClean(cfg: Config, udps: seq<UdpRecord>, stream: seq<Sent>, g: int)
    requires cfg.limits.Valid() && Delivered(cfg, stream, g) && Convey(udps, Captured(stream), cfg.flow)
    ensures |ErrorsOf(cfg, udps, [cfg.flow])| == FaultCount(udps, [cfg.flow], cfg.flow)
    ensures Run(cfg, RecordsFor(udps, cfg.flow)).state.counters.accepted > 0 <==> stream != []
  {
    hide Delivered, Convey, Run, RecordsFor, FaultCount, ErrorsOf, FrameCount;
    var records := Captured(stream);
    ConveyedRecords(udps, records, cfg.flow);
    AllReadable(cfg, stream, g);
    forall i | 0 <= i < |records| ensures FrameCount(cfg, records[i].payload) > 0 {
      assert stream[i] in stream;
    }
    NoneMalformed(cfg, records);
    ErrorsCounted(cfg, udps, [cfg.flow]);
    NothingRun(cfg, records);
    if stream != [] {
      FirstAccepted(cfg, records);
    }
  }

  /**
   * The capture of a sender's speech, these bodies at these times: its packets reordered, duplicated and wrapped within
   * what Delivered allows, among any other traffic.
   */
  ghost predicate Spoken(
    udps: seq<UdpRecord>, cfg: Config, stream: seq<Sent>, talk: seq<Sent>, times: seq<int>,
    bodies: seq<Body>, g: int)
  {
    && Convey(udps, Captured(stream), cfg.flow)
    && Delivered(cfg, stream, g) && Delivers(stream, talk) && Speaks(cfg, talk, times, bodies)
  }

  /**
   * Datagrams carrying a sender's packets, late, early or twice, among other traffic, give the storage file of the
   * sender's speech frames in their original order, with the sender's gaps filled if that is the policy, which a reader
   * gets back, and no error but malformed datagrams.
   */
  lemma CaptureRestored(
    udps: seq<UdpRecord>, cfg: Config, stream: seq<Sent>, talk: seq<Sent>, times: seq<int>,
    bodies: seq<Body>, g: int)
    returns (stored: seq<Body>)
    requires cfg.limits.Valid() && Spoken(udps, cfg, stream, talk, times, bodies, g)
    ensures StoresAt(cfg, times, bodies, stored) && (Gapless(times, TimestampStep(cfg.codec)) ==> stored == bodies)
    ensures var file := StorageFile(cfg, RecordsFor(udps, cfg.flow));
            file == StorageStream(cfg.codec, stored) && ReadStorage(cfg.codec, file) == Some(stored)
    ensures |ErrorsOf(cfg, udps, [cfg.flow])| == FaultCount(udps, [cfg.flow], cfg.flow)
    ensures RecordsFor(udps, cfg.flow) == [] <==> talk == []
    ensures Run(cfg, RecordsFor(udps, cfg.flow)).state.counters.accepted > 0 <==> talk != []
  {
    hide Convey, Delivered, Delivers, Speaks, Complete, Run, RecordsFor, Gapless, TimestampStep;
    hide ReadStorage, AllWritable, StoredFrames, StorageStream, StorageFile, ErrorsOf, FaultCount, StoresAt;
    stored := SpokenStored(cfg, stream, talk, times, bodies, g);
    ConveyedRecords(udps, Captured(stream), cfg.flow);
    DeliveryClean(cfg, udps, stream, g);
    ArrivesIffSent(stream, talk);
  }

  /**
   * extract_pcap on such a capture, unless the stream refuses to go on: a strict policy stops at a malformed datagram
   * of the flow, with part of the speech written; otherwise the stream has gained exactly the storage file of the
   * sender's speech, its gaps filled if that is the policy, and there is a report unless nothing was said.
   */
  method RestoreCapture(
    udps: seq<UdpRecord>, selection: SelectedFlow, gaps: GapPolicy, policy: MalformedPolicy, limits: ResourceLimits,
    output: OutputStream, capturePackets: nat, passes: nat, ghost stream: seq<Sent>, ghost talk: seq<Sent>,
    ghost times: seq<int>, ghost bodies: seq<Body>, ghost g: int)
    returns (exit: ExtractionExit, ghost stored: seq<Body>)
    requires limits.Valid()
    requires Spoken(udps, ConfigFor(selection, gaps, limits), stream, talk, times, bodies, g)
    modifies output
    ensures SpeechWritten(exit, ConfigFor(selection, gaps, limits), udps, policy, talk, times, bodies, stored,
                     old(output.data), output.data, output.refusals > old(output.refusals))
  {
    hide Spoken, Ends, SpeechWritten, StoresAt, Gapless, TimestampStep, StorageStream, StorageFile, RecordsFor, Run;
    hide ErrorsOf, FaultCount, ReadStorage;
    ghost var cfg := ConfigFor(selection, gaps, limits);
    stored := CaptureRestored(udps, cfg, stream, talk, times, bodies, g);
    exit := ExtractPcap(udps, selection, gaps, policy, limits, output, capturePackets, passes);
    EndsRestored(exit, cfg, udps, selection, policy, CaptureCounts(capturePackets, |udps|), passes, talk, times, bodies,
                 stored, old(output.data), output.data, output.refusals > old(output.refusals));
  }

  /** How extraction ends on the capture of what a sender said. */
  ghost predicate SpeechWritten(
    exit: ExtractionExit, cfg: Config, udps: seq<UdpRecord>, policy: MalformedPolicy, talk: seq<Sent>, times: seq<int>,
    bodies: seq<Body>, stored: seq<Body>, before: Bytes, after: Bytes, refused: bool)
  {
    var faults, file := FaultCount(udps, [cfg.flow], cfg.flow), StorageStream(cfg.codec, stored);
    && StoresAt(cfg, times, bodies, stored) && ReadStorage(cfg.codec, file) == Some(stored)
    && (Gapless(times, TimestampStep(cfg.codec)) ==> stored == bodies)
    && (exit.WriteFailed? <==> refused)
    && (!refused && policy.Strict? && faults > 0 ==> exit.MalformedRaised? && before <= after <= before + file)
    && (!refused && !(policy.Strict? && faults > 0) ==>
          && after == before + file
          && (if talk == [] then exit.NoPackets? else exit.Extracted? && exit.report.malformedPackets == faults))
  }

  lemma EndsRestored(
    exit: ExtractionExit, cfg: Config, udps: seq<UdpRecord>, selection: SelectedFlow, policy: MalformedPolicy,
    capture: CaptureCounts, passes: nat, talk: seq<Sent>, times: seq<int>, bodies: seq<Body>, stored: seq<Body>,
    before: Bytes, after: Bytes, refused: bool)
    requires Ends(exit, cfg, udps, selection, policy, capture, passes, before, after, refused)
    requires StoresAt(cfg, times, bodies, stored)
    requires ReadStorage(cfg.codec, StorageStream(cfg.codec, stored)) == Some(stored)
    requires Gapless(times, TimestampStep(cfg.codec)) ==> stored == bodies
    requires StorageFile(cfg, RecordsFor(udps, cfg.flow)) == StorageStream(cfg.codec, stored)
    requires |ErrorsOf(cfg, udps, [cfg.flow])| == FaultCount(udps, [cfg.flow], cfg.flow)
    requires RecordsFor(udps, cfg.flow) == [] <==> talk == []
    requires Run(cfg, RecordsFor(udps, cfg.flow)).state.counters.accepted > 0 <==> talk != []
    ensures SpeechWritten(exit, cfg, udps, policy, talk, times, bodies, stored, before, after, refused)
  {
    hide StorageStream, StorageFile, Run, RecordsFor, ErrorsOf, Describes, FileSoFar, CutShort, FaultCount, StoresAt;
    hide Gapless, TimestampStep, ReadStorage;
    if exit.MalformedRaised? {
      var n: nat :| StopsAt(cfg, udps, n) && after == before + FileSoFar(cfg, udps[..n]);
      FileExtends(cfg, udps, n);
    }
  }
}
