/** One flow's timeline as a state machine on values: what push and finish compute (timeline.py). */
module Timeline {
  import opened Models
  import opened CodecTables
  import opened Rfc4867
  import opened IntKeys

  // ---------------------------------------------------------------------------------------------
  // Wrapping counters
  // ---------------------------------------------------------------------------------------------

  const SEQUENCE_CYCLE: int := 0x1_0000
  const TIMESTAMP_CYCLE: int := 0x1_0000_0000

  /** _extend_wrapping: the value moved to the cycle nearest the reference. */
  function ExtendWrapping(value: int, reference: Option<int>, modulus: int): int
    requires modulus > 0
  {
    match reference
    case None => value
    case Some(high) =>
      var half := modulus / 2;
      var candidate := high - high % modulus + value;
      if candidate - high > half then candidate - modulus
      else if high - candidate > half then candidate + modulus
      else candidate
  }

  // ---------------------------------------------------------------------------------------------
  // Frames competing for one timestamp
  // ---------------------------------------------------------------------------------------------

  /** Optional capture times compare with infinity in place of an absent one. */
  predicate TimeBefore(a: Option<real>, b: Option<real>) {
    a.Some? && (b.None? || a.value < b.value)
  }

  /** _provenance_key(a) < _provenance_key(b). */
  predicate Earlier(a: Provenance, b: Provenance) {
    if a.packetNumber.Some? && b.packetNumber.Some? then
      a.packetNumber.value < b.packetNumber.value
      || (a.packetNumber.value == b.packetNumber.value && TimeBefore(a.captureTimestamp, b.captureTimestamp))
    else if a.packetNumber.Some? || b.packetNumber.Some? then a.packetNumber.Some?
    else TimeBefore(a.captureTimestamp, b.captureTimestamp)
  }

  /** _prefer_frame. */
  predicate Prefer(candidate: EncodedFrame, current: EncodedFrame) {
    if candidate.quality != current.quality then candidate.quality
    else if candidate.bitLength != current.bitLength then candidate.bitLength > current.bitLength
    else Earlier(candidate.provenance, current.provenance)
  }

  type Pending = map<int, EncodedFrame>

  /** One frame entering the reorder buffer. */
  function Insert(pending: Pending, frame: EncodedFrame): Pending {
    if frame.mediaTimestamp !in pending || Prefer(frame, pending[frame.mediaTimestamp])
    then pending[frame.mediaTimestamp := frame]
    else pending
  }

  function InsertAll(pending: Pending, frames: seq<EncodedFrame>): Pending {
    if frames == [] then pending
    else Insert(InsertAll(pending, frames[..|frames| - 1]), frames[|frames| - 1])
  }

  /** How many of the frames found their timestamp taken. */
  function Overlaps(pending: Pending, frames: seq<EncodedFrame>): nat {
    if frames == [] then 0
    else
      var front := frames[..|frames| - 1];
      Overlaps(pending, front)
      + (if frames[|frames| - 1].mediaTimestamp in InsertAll(pending, front) then 1 else 0)
  }

  predicate IsLate(committed: Option<int>, frame: EncodedFrame) {
    committed.Some? && frame.mediaTimestamp <= committed.value
  }

  /** The frames still after everything committed. */
  function OnTime(committed: Option<int>, frames: seq<EncodedFrame>): seq<EncodedFrame> {
    if frames == [] then []
    else
      var last := frames[|frames| - 1];
      OnTime(committed, frames[..|frames| - 1]) + (if IsLate(committed, last) then [] else [last])
  }

  // ---------------------------------------------------------------------------------------------
  // Releasing frames in timestamp order
  // ---------------------------------------------------------------------------------------------

  /** The frames of a buffer in timestamp order. */
  ghost function InOrder(pending: Pending): (frames: seq<EncodedFrame>)
    ensures |frames| == |pending.Keys|
  {
    var keys := SortedKeys(pending.Keys);
    seq(|keys|, i requires 0 <= i < |keys| => pending[keys[i]])
  }

  function AtMost(pending: Pending, watermark: int): Pending {
    map t | t in pending && t <= watermark :: pending[t]
  }

  function Above(pending: Pending, watermark: int): Pending {
    map t | t in pending && t > watermark :: pending[t]
  }

  // ---------------------------------------------------------------------------------------------
  // Emissions: released frames with the gaps before them
  // ---------------------------------------------------------------------------------------------

  datatype Emission = Emission(frame: EncodedFrame, synthetic: bool)

  /** range(lo, hi, step). */
  function Range(lo: int, hi: int, step: nat): seq<int>
    requires step > 0
    decreases hi - lo
  {
    if lo >= hi then [] else [lo] + Range(lo + step, hi, step)
  }

  /** The timestamps missing between the last committed frame and the next. */
  function Missing(codec: Codec, committed: Option<int>, timestamp: int): seq<int> {
    match committed
    case None => []
    case Some(last) => Range(last + TimestampStep(codec), timestamp, TimestampStep(codec))
  }

  /** _no_data_frame. */
  function NoDataFrame(codec: Codec, timestamp: int): EncodedFrame {
    EncodedFrame(codec, 15, false, 0, [], timestamp, Provenance(None, None))
  }

  function Fill(codec: Codec, timestamps: seq<int>): seq<Emission> {
    seq(|timestamps|, i requires 0 <= i < |timestamps| => Emission(NoDataFrame(codec, timestamps[i]), true))
  }

  /** _commit_frame: what one released frame emits. */
  function EmissionsAt(codec: Codec, policy: GapPolicy, committed: Option<int>, frame: EncodedFrame): seq<Emission> {
    (if policy.NoData? then Fill(codec, Missing(codec, committed, frame.mediaTimestamp)) else [])
    + [Emission(frame, false)]
  }

  /** The last committed timestamp once these frames are committed. */
  function CommittedAfter(committed: Option<int>, frames: seq<EncodedFrame>): Option<int> {
    if frames == [] then committed else Some(frames[|frames| - 1].mediaTimestamp)
  }

  function Emissions(
    codec: Codec, policy: GapPolicy, committed: Option<int>, frames: seq<EncodedFrame>): seq<Emission>
  {
    if frames == [] then []
    else
      var front := frames[..|frames| - 1];
      Emissions(codec, policy, committed, front)
      + EmissionsAt(codec, policy, CommittedAfter(committed, front), frames[|frames| - 1])
  }

  function Gaps(codec: Codec, committed: Option<int>, frames: seq<EncodedFrame>): nat {
    if frames == [] then 0
    else
      var front := frames[..|frames| - 1];
      Gaps(codec, committed, front)
      + |Missing(codec, CommittedAfter(committed, front), frames[|frames| - 1].mediaTimestamp)|
  }

  // ---------------------------------------------------------------------------------------------
  // The duplicate history
  // ---------------------------------------------------------------------------------------------

  /** _packet_identity: everything but the flow and the provenance. */
  datatype Identity = Identity(
    sequence: int, timestamp: int, marker: bool, payload: Bytes, csrcs: seq<int>,
    extensionProfile: Option<int>, extensionData: Bytes, paddingLength: int)

  function IdentityOf(record: RtpRecord, sequence: int): Identity {
    Identity(sequence, record.timestamp, record.marker, record.payload, record.csrcs,
             record.extensionProfile, record.extensionData, record.paddingLength)
  }

  datatype HistoryEntry = HistoryEntry(identity: Identity, timestamp: int)

  type History = seq<HistoryEntry>

  /** _evict_committed_packet_identities: entries at or before the last committed timestamp go. */
  function Retained(history: History, committed: Option<int>): History {
    if committed.None? then history
    else if history == [] then []
    else
      var last := history[|history| - 1];
      Retained(history[..|history| - 1], committed) + (if last.timestamp > committed.value then [last] else [])
  }

  predicate Holds(history: History, identity: Identity) {
    exists i :: 0 <= i < |history| && history[i].identity == identity
  }

  // ---------------------------------------------------------------------------------------------
  // The machine
  // ---------------------------------------------------------------------------------------------

  datatype Config = Config(flow: FlowKey, codec: Codec, mode: PayloadMode, policy: GapPolicy, limits: ResourceLimits)

  function HistoryLimit(cfg: Config): int {
    if cfg.limits.reorderWindow * 4 > 4 then cfg.limits.reorderWindow * 4 else 4
  }

  /** How far behind the highest timestamp the watermark runs. */
  function Span(cfg: Config): int {
    cfg.limits.reorderWindow * TimestampStep(cfg.codec)
  }

  datatype Event = LatePacket | PacketHistoryOverflow

  datatype Diagnostic = Diagnostic(event: Event, provenance: Provenance)

  datatype Counters = Counters(
    packets: nat, accepted: nat, observed: nat, malformed: nat, duplicates: nat, reordered: nat,
    latePackets: nat, overlaps: nat, gaps: nat, overflows: nat,
    diagnostics: seq<Diagnostic>, diagnosticOverflow: nat)

  datatype State = State(
    pending: Pending, history: History, highestSequence: Option<int>, highestTimestamp: Option<int>,
    committed: Option<int>, counters: Counters, finished: bool)

  const NO_COUNTS := Counters(0, 0, 0, 0, 0, 0, 0, 0, 0, 0, [], 0)

  const INITIAL := State(map[], [], None, None, None, NO_COUNTS, false)

  /** _retain_diagnostic. */
  function Note(cfg: Config, counters: Counters, event: Event, provenance: Provenance): Counters {
    if |counters.diagnostics| < cfg.limits.maxDiagnostics
    then counters.(diagnostics := counters.diagnostics + [Diagnostic(event, provenance)])
    else counters.(diagnosticOverflow := counters.diagnosticOverflow + 1)
  }

  /** The four exits of a push. */
  datatype Outcome =
    | Duplicate
    | Overflow
    | Malformed(reason: Reason)
    | Accepted(sequence: int, timestamp: int, frames: seq<EncodedFrame>)

  datatype Push = Push(state: State, outcome: Outcome, released: seq<EncodedFrame>, emitted: seq<Emission>)

  function Higher(high: Option<int>, value: int): Option<int> {
    if high.None? || value > high.value then Some(value) else high
  }

  function ExtendedSequence(s: State, record: RtpRecord): int {
    ExtendWrapping(record.sequence, s.highestSequence, SEQUENCE_CYCLE)
  }

  function ExtendedTimestamp(s: State, record: RtpRecord): int {
    ExtendWrapping(record.timestamp, s.highestTimestamp, TIMESTAMP_CYCLE)
  }

  /** Which exit a push takes. */
  ghost function OutcomeOf(cfg: Config, s: State, record: RtpRecord): Outcome {
    var sequence, timestamp := ExtendedSequence(s, record), ExtendedTimestamp(s, record);
    var history := Retained(s.history, s.committed);
    if Holds(history, IdentityOf(record, sequence)) then Duplicate
    else if |history| >= HistoryLimit(cfg) then Overflow
    else
      match Depacketize(record.payload, cfg.codec, cfg.mode, timestamp, record.provenance)
      case Err(reason) => Malformed(reason)
      case Ok(frames) => Accepted(sequence, timestamp, frames)
  }

  /** The timestamp an identity is kept under: its last frame's, or its own when it has no frame. */
  function LastTimestamp(timestamp: int, frames: seq<EncodedFrame>): int {
    if frames == [] then timestamp else frames[|frames| - 1].mediaTimestamp
  }

  function HighestAfter(s: State, timestamp: int, frames: seq<EncodedFrame>): Option<int> {
    Higher(Higher(s.highestTimestamp, timestamp), LastTimestamp(timestamp, frames))
  }

  function BufferedAfter(s: State, frames: seq<EncodedFrame>): Pending {
    InsertAll(s.pending, OnTime(s.committed, frames))
  }

  function WatermarkAfter(cfg: Config, s: State, timestamp: int, frames: seq<EncodedFrame>): int {
    HighestAfter(s, timestamp, frames).value - Span(cfg)
  }

  /** The frames an accepted packet makes safe to commit. */
  ghost function ReleasedBy(cfg: Config, s: State, timestamp: int, frames: seq<EncodedFrame>): seq<EncodedFrame> {
    InOrder(AtMost(BufferedAfter(s, frames), WatermarkAfter(cfg, s, timestamp, frames)))
  }

  ghost function CountersAfter(
    cfg: Config, s: State, record: RtpRecord, sequence: int, timestamp: int, frames: seq<EncodedFrame>): Counters
  {
    var onTime := OnTime(s.committed, frames);
    var c := s.counters;
    var counted := c.(
      packets := c.packets + 1,
      accepted := c.accepted + 1,
      observed := c.observed + |frames|,
      reordered := c.reordered + (if s.highestSequence.Some? && sequence < s.highestSequence.value then 1 else 0),
      overlaps := c.overlaps + Overlaps(s.pending, onTime),
      gaps := c.gaps + Gaps(cfg.codec, s.committed, ReleasedBy(cfg, s, timestamp, frames)));
    if |onTime| < |frames|
    then Note(cfg, counted.(latePackets := c.latePackets + 1), LatePacket, record.provenance)
    else counted
  }

  /** The accepted exit: the only one that moves the high marks, the watermark and the output. */
  ghost function Accept(
    cfg: Config, s: State, record: RtpRecord, sequence: int, timestamp: int, frames: seq<EncodedFrame>): State
  {
    var released := ReleasedBy(cfg, s, timestamp, frames);
    s.(history := Retained(s.history, s.committed)
                  + [HistoryEntry(IdentityOf(record, sequence), LastTimestamp(timestamp, frames))],
       highestSequence := Higher(s.highestSequence, sequence),
       highestTimestamp := HighestAfter(s, timestamp, frames),
       pending := Above(BufferedAfter(s, frames), WatermarkAfter(cfg, s, timestamp, frames)),
       committed := CommittedAfter(s.committed, released),
       counters := CountersAfter(cfg, s, record, sequence, timestamp, frames))
  }

  ghost function PushRecord(cfg: Config, s: State, record: RtpRecord): Push {
    var outcome := OutcomeOf(cfg, s, record);
    var history := Retained(s.history, s.committed);
    var c := s.counters;
    match outcome
    case Duplicate =>
      Push(s.(history := history, counters := c.(packets := c.packets + 1, duplicates := c.duplicates + 1)),
           outcome, [], [])
    case Overflow =>
      var counted := c.(packets := c.packets + 1, overflows := c.overflows + 1);
      Push(s.(history := history, counters := Note(cfg, counted, PacketHistoryOverflow, record.provenance)),
           outcome, [], [])
    case Malformed(_) =>
      var entry := HistoryEntry(IdentityOf(record, ExtendedSequence(s, record)), ExtendedTimestamp(s, record));
      Push(s.(history := history + [entry],
              counters := c.(packets := c.packets + 1, malformed := c.malformed + 1)),
           outcome, [], [])
    case Accepted(sequence, timestamp, frames) =>
      var released := ReleasedBy(cfg, s, timestamp, frames);
      Push(Accept(cfg, s, record, sequence, timestamp, frames), outcome, released,
           Emissions(cfg.codec, cfg.policy, s.committed, released))
  }

  /** finish: every frame still pending, in order. */
  ghost function FinishState(cfg: Config, s: State): State {
    if s.finished then s
    else
      var released := InOrder(s.pending);
      s.(finished := true, pending := map[], committed := CommittedAfter(s.committed, released),
         counters := s.counters.(gaps := s.counters.gaps + Gaps(cfg.codec, s.committed, released)))
  }

  ghost function FinishReleased(s: State): seq<EncodedFrame> {
    if s.finished then [] else InOrder(s.pending)
  }

  // ---------------------------------------------------------------------------------------------
  // Whole runs
  // ---------------------------------------------------------------------------------------------

  /** A run of pushes, with the output drained between them. */
  datatype Trace = Trace(state: State, outcomes: seq<Outcome>, released: seq<EncodedFrame>, emitted: seq<Emission>)

  ghost function Run(cfg: Config, records: seq<RtpRecord>): (t: Trace)
    ensures |t.outcomes| == |records|
  {
    if records == [] then Trace(INITIAL, [], [], [])
    else
      var t := Run(cfg, records[..|records| - 1]);
      var p := PushRecord(cfg, t.state, records[|records| - 1]);
      Trace(p.state, t.outcomes + [p.outcome], t.released + p.released, t.emitted + p.emitted)
  }

  /** The run followed by finish. */
  ghost function Complete(cfg: Config, records: seq<RtpRecord>): Trace {
    var t := Run(cfg, records);
    var released := FinishReleased(t.state);
    Trace(FinishState(cfg, t.state), t.outcomes, t.released + released,
          t.emitted + Emissions(cfg.codec, cfg.policy, t.state.committed, released))
  }

  /** The frames of a packet that entered the buffer. */
  function TimelyFrames(committed: Option<int>, outcome: Outcome): seq<EncodedFrame> {
    match outcome
    case Accepted(_, _, frames) => OnTime(committed, frames)
    case _ => []
  }

  /** All frames that entered the buffer over a run, in arrival order. */
  ghost function Timely(cfg: Config, records: seq<RtpRecord>): seq<EncodedFrame> {
    if records == [] then []
    else
      var front := records[..|records| - 1];
      Timely(cfg, front)
      + TimelyFrames(Run(cfg, front).state.committed, OutcomeOf(cfg, Run(cfg, front).state, records[|records| - 1]))
  }
}
