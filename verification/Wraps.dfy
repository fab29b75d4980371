/** Recovering the true sequence numbers and timestamps from their wrapped values. */
module Wraps {
  import opened Models
  import opened CodecTables
  import opened Timeline
  import opened Runs
  import opened Windows

  // ---------------------------------------------------------------------------------------------
  // One value
  // ---------------------------------------------------------------------------------------------

  lemma CycleSplit(y: int, high: int, modulus: int)
    requires modulus > 0
    ensures y == high - high % modulus + y % modulus + (y / modulus - high / modulus) * modulus
    ensures 0 <= y % modulus < modulus && 0 <= high % modulus < modulus
  {
    assert y == (y / modulus) * modulus + y % modulus;
    assert high == (high / modulus) * modulus + high % modulus;
  }

  lemma FarCycles(k: int, modulus: int)
    requires modulus > 0
    ensures k >= 1 ==> k * modulus >= modulus
    ensures k >= 2 ==> k * modulus >= 2 * modulus
    ensures k <= -1 ==> k * modulus <= -modulus
    ensures k <= -2 ==> k * modulus <= -2 * modulus
  {
    if k >= 1 {
      assert k * modulus == modulus + (k - 1) * modulus;
      assert k >= 2 ==> k * modulus == 2 * modulus + (k - 2) * modulus;
    } else if k <= -1 {
      assert k * modulus == -modulus - (-k - 1) * modulus;
      assert k <= -2 ==> k * modulus == -2 * modulus - (-k - 2) * modulus;
    }
  }

  /**
   * Extension returns y, a number with the given wrapped value, exactly when y is less than half a cycle from the
   * reference, or exactly half a cycle away and in the reference's own cycle.
   */
  lemma ExtendExactly(value: int, high: int, modulus: int, y: int)
    requires modulus > 0 && modulus % 2 == 0 && value == y % modulus
    ensures var half := modulus / 2;
            ExtendWrapping(value, Some(high), modulus) == y
            <==> -half < y - high < half || ((y - high == half || high - y == half) && y / modulus == high / modulus)
  {
    var k := y / modulus - high / modulus;
    CycleSplit(y, high, modulus);
    FarCycles(k, modulus);
    var candidate := high - high % modulus + value;
    assert y == candidate + k * modulus;
    assert modulus == 2 * (modulus / 2);
  }

  /** The extended value has the wrapped value it came from. */
  lemma ExtendKeepsValue(value: int, reference: Option<int>, modulus: int)
    requires modulus > 0 && 0 <= value < modulus
    ensures ExtendWrapping(value, reference, modulus) % modulus == value
  {
    if reference.Some? {
      var high := reference.value;
      var q := high / modulus;
      assert high - high % modulus == q * modulus;
      MultipleRemainder(q, value, modulus);
      MultipleRemainder(q - 1, value, modulus);
      MultipleRemainder(q + 1, value, modulus);
      assert (q - 1) * modulus == q * modulus - modulus && (q + 1) * modulus == q * modulus + modulus;
    }
  }

  lemma MultipleRemainder(q: int, r: int, modulus: int)
    requires modulus > 0 && 0 <= r < modulus
    ensures (q * modulus + r) % modulus == r
  {
    var x := q * modulus + r;
    var k := x / modulus - q;
    assert x == (x / modulus) * modulus + x % modulus;
    assert k * modulus == r - x % modulus by {
      assert (x / modulus - q) * modulus == (x / modulus) * modulus - q * modulus;
    }
    FarCycles(k, modulus);
  }

  // ---------------------------------------------------------------------------------------------
  // A stream with its true numbering
  // ---------------------------------------------------------------------------------------------

  /** A captured packet with the unwrapped sequence number and timestamp its sender counted. */
  datatype Sent = Sent(record: RtpRecord, sequence: int, timestamp: int)

  /** The two counters that wrap on the wire. */
  datatype Counter = SequenceNumber | MediaTimestamp

  function Cycle(c: Counter): (cycle: int)
    ensures cycle > 0 && cycle % 2 == 0
  {
    if c.SequenceNumber? then 0x1_0000 else 0x1_0000_0000
  }

  function OnWire(c: Counter, record: RtpRecord): int {
    if c.SequenceNumber? then record.sequence else record.timestamp
  }

  function TrueValue(c: Counter, x: Sent): int {
    if c.SequenceNumber? then x.sequence else x.timestamp
  }

  function Extended(c: Counter, s: State, record: RtpRecord): int {
    if c.SequenceNumber? then ExtendedSequence(s, record) else ExtendedTimestamp(s, record)
  }

  function Mark(c: Counter, s: State): Option<int> {
    if c.SequenceNumber? then s.highestSequence else s.highestTimestamp
  }

  function AcceptedValue(c: Counter, outcome: Outcome): int
    requires outcome.Accepted?
  {
    if c.SequenceNumber? then outcome.sequence else outcome.timestamp
  }

  /** What the wire shows of one counter is the sender's value modulo its cycle. */
  predicate FaithfulIn(c: Counter, x: Sent) {
    OnWire(c, x.record) == TrueValue(c, x) % Cycle(c)
  }

  predicate Faithful(x: Sent) {
    FaithfulIn(SequenceNumber, x) && FaithfulIn(MediaTimestamp, x)
  }

  function Captured(stream: seq<Sent>): (records: seq<RtpRecord>)
    ensures |records| == |stream|
  {
    seq(|stream|, i requires 0 <= i < |stream| => stream[i].record)
  }

  lemma CapturedAt(stream: seq<Sent>, j: nat)
    requires j < |stream|
    ensures Captured(stream)[j] == stream[j].record
  {
  }

  lemma CapturedFront(stream: seq<Sent>)
    requires stream != []
    ensures var records := Captured(stream);
            records != [] && records[..|records| - 1] == Captured(stream[..|stream| - 1])
            && records[|records| - 1] == stream[|stream| - 1].record
  {
  }

  /** The highest true sequence number and last-frame timestamp of the accepted packets. */
  datatype Highs = Highs(sequence: Option<int>, timestamp: Option<int>)

  ghost function LastTrue(cfg: Config, x: Sent): int {
    x.timestamp + (FrameCount(cfg, x.record.payload) - 1) * TimestampStep(cfg.codec)
  }

  ghost function HighsAfter(cfg: Config, highs: Highs, x: Sent, outcome: Outcome): Highs {
    if outcome.Accepted?
    then Highs(Higher(highs.sequence, x.sequence), Higher(Higher(highs.timestamp, x.timestamp), LastTrue(cfg, x)))
    else highs
  }

  ghost function TrueHighs(cfg: Config, stream: seq<Sent>): Highs {
    if stream == [] then Highs(None, None)
    else
      var front := stream[..|stream| - 1];
      HighsAfter(cfg, TrueHighs(cfg, front), stream[|stream| - 1],
                 OutcomeOf(cfg, Run(cfg, Captured(front)).state, stream[|stream| - 1].record))
  }

  function TrueMark(c: Counter, highs: Highs): Option<int> {
    if c.SequenceNumber? then highs.sequence else highs.timestamp
  }

  /** One counter less than half a cycle from the highest accepted before it. */
  ghost predicate NearIn(c: Counter, highs: Highs, x: Sent) {
    TrueMark(c, highs).Some? ==> -(Cycle(c) / 2) < TrueValue(c, x) - TrueMark(c, highs).value < Cycle(c) / 2
  }

  ghost predicate Near(highs: Highs, x: Sent) {
    NearIn(SequenceNumber, highs, x) && NearIn(MediaTimestamp, highs, x)
  }

  /** Every packet of a run has this counter near the accepted packets before it; the other may do as it likes. */
  ghost predicate NearRunIn(c: Counter, cfg: Config, stream: seq<Sent>) {
    forall i | 0 <= i < |stream| :: FaithfulIn(c, stream[i]) && NearIn(c, TrueHighs(cfg, stream[..i]), stream[i])
  }

  ghost predicate NearRun(cfg: Config, stream: seq<Sent>) {
    forall i | 0 <= i < |stream| :: Faithful(stream[i]) && Near(TrueHighs(cfg, stream[..i]), stream[i])
  }

  lemma NearRunParts(cfg: Config, stream: seq<Sent>)
    ensures NearRun(cfg, stream) <==> NearRunIn(SequenceNumber, cfg, stream) && NearRunIn(MediaTimestamp, cfg, stream)
  {
    hide FaithfulIn, NearIn, TrueHighs;
    if NearRunIn(SequenceNumber, cfg, stream) && NearRunIn(MediaTimestamp, cfg, stream) {
      forall i | 0 <= i < |stream| ensures Faithful(stream[i]) && Near(TrueHighs(cfg, stream[..i]), stream[i]) {
        assert FaithfulIn(SequenceNumber, stream[i]) && FaithfulIn(MediaTimestamp, stream[i]);
      }
    }
  }

  /** The constant number of whole cycles by which extension differs from the true numbering. */
  datatype Offset = Offset(sequence: int, timestamp: int)

  function Shift(c: Counter, o: Offset): int {
    if c.SequenceNumber? then o.sequence else o.timestamp
  }

  ghost predicate WholeCycles(o: Offset) {
    o.sequence % 0x1_0000 == 0 && o.timestamp % 0x1_0000_0000 == 0
  }

  /** The offset is fixed by the first accepted packet. */
  ghost function OffsetOf(cfg: Config, stream: seq<Sent>): Offset {
    if stream == [] then Offset(0, 0)
    else
      var front, last := stream[..|stream| - 1], stream[|stream| - 1];
      var s := Run(cfg, Captured(front)).state;
      if TrueHighs(cfg, front).sequence.None? && OutcomeOf(cfg, s, last.record).Accepted?
      then Offset(ExtendedSequence(s, last.record) - last.sequence, ExtendedTimestamp(s, last.record) - last.timestamp)
      else OffsetOf(cfg, front)
  }

  ghost predicate TracksOne(high: Option<int>, trueHigh: Option<int>, offset: int) {
    (high.Some? <==> trueHigh.Some?) && (high.Some? ==> high.value == trueHigh.value + offset)
  }

  /** One high mark is the true one, moved by the offset. */
  ghost predicate TracksIn(c: Counter, s: State, highs: Highs, o: Offset) {
    TracksOne(Mark(c, s), TrueMark(c, highs), Shift(c, o))
  }

  /** Both high marks are the true ones, moved by the offset. */
  ghost predicate Tracks(s: State, highs: Highs, o: Offset) {
    && TracksIn(SequenceNumber, s, highs, o) && TracksIn(MediaTimestamp, s, highs, o)
    && (highs.sequence.Some? <==> highs.timestamp.Some?)
  }

  lemma ShiftedRemainder(value: int, shift: int, cycle: int)
    requires cycle > 0 && shift % cycle == 0
    ensures (value + shift) % cycle == value % cycle
  {
    var k := shift / cycle;
    CycleSplit(value, 0, cycle);
    assert value + shift == (value / cycle + k) * cycle + value % cycle;
    MultipleRemainder(value / cycle + k, value % cycle, cycle);
  }

  /** Near a mark that is tracked, a counter extends to its true value plus the offset. */
  lemma RecoverIn(c: Counter, x: Sent, s: State, highs: Highs, o: Offset)
    requires FaithfulIn(c, x) && NearIn(c, highs, x) && TracksIn(c, s, highs, o) && TrueMark(c, highs).Some?
    requires Shift(c, o) % Cycle(c) == 0
    ensures Extended(c, s, x.record) == TrueValue(c, x) + Shift(c, o)
  {
    hide ExtendWrapping;
    var y := TrueValue(c, x) + Shift(c, o);
    ShiftedRemainder(TrueValue(c, x), Shift(c, o), Cycle(c));
    ExtendExactly(OnWire(c, x.record), Mark(c, s).value, Cycle(c), y);
  }

  lemma RecoverBoth(x: Sent, s: State, highs: Highs, o: Offset)
    requires Faithful(x) && Near(highs, x) && Tracks(s, highs, o) && WholeCycles(o) && highs.sequence.Some?
    ensures ExtendedSequence(s, x.record) == x.sequence + o.sequence
    ensures ExtendedTimestamp(s, x.record) == x.timestamp + o.timestamp
  {
    hide FaithfulIn, NearIn, TracksIn, ExtendedSequence, ExtendedTimestamp;
    RecoverIn(SequenceNumber, x, s, highs, o);
    RecoverIn(MediaTimestamp, x, s, highs, o);
  }

  lemma FirstOffset(c: Counter, x: Sent, s: State)
    requires FaithfulIn(c, x) && Mark(c, s).None?
    ensures (Extended(c, s, x.record) - TrueValue(c, x)) % Cycle(c) == 0
  {
  }

  lemma HigherOffset(high: Option<int>, trueHigh: Option<int>, offset: int, value: int)
    requires TracksOne(high, trueHigh, offset)
    ensures TracksOne(Higher(high, value + offset), Higher(trueHigh, value), offset)
  {
  }

  /** An accepted packet moves a mark and its true mark alike. */
  lemma AcceptTracks(
    c: Counter, cfg: Config, s: State, x: Sent, sequence: int, timestamp: int, frames: seq<EncodedFrame>, highs: Highs,
    o: Offset)
    requires frames != [] && Spaced(frames, timestamp, TimestampStep(cfg.codec))
    requires |frames| == FrameCount(cfg, x.record.payload)
    requires AcceptedValue(c, Accepted(sequence, timestamp, frames)) == TrueValue(c, x) + Shift(c, o)
    requires TracksIn(c, s, highs, o)
    ensures TracksIn(c, Accept(cfg, s, x.record, sequence, timestamp, frames),
                     HighsAfter(cfg, highs, x, Accepted(sequence, timestamp, frames)), o)
  {
    hide Retained, ReleasedBy, CountersAfter, BufferedAfter, WatermarkAfter, TimestampStep, Spaced, FrameCount;
    hide TracksOne;
    hide LastTimestamp, IdentityOf, Higher;
    SpacedLast(frames, timestamp, TimestampStep(cfg.codec));
    if c.SequenceNumber? {
      HigherOffset(s.highestSequence, highs.sequence, o.sequence, x.sequence);
    } else {
      var last := LastTrue(cfg, x);
      HigherOffset(s.highestTimestamp, highs.timestamp, o.timestamp, x.timestamp);
      HigherOffset(Higher(s.highestTimestamp, timestamp), Higher(highs.timestamp, x.timestamp), o.timestamp, last);
    }
  }

  /** One push keeps one counter's tracking, whatever the other does; only an accepted packet moves it. */
  lemma PushTracks(c: Counter, cfg: Config, s: State, x: Sent, highs: Highs, o: Offset)
    requires FaithfulIn(c, x) && NearIn(c, highs, x) && TracksIn(c, s, highs, o) && Shift(c, o) % Cycle(c) == 0
    requires TrueMark(c, highs).None? && OutcomeOf(cfg, s, x.record).Accepted? ==>
               Shift(c, o) == Extended(c, s, x.record) - TrueValue(c, x)
    ensures var out := OutcomeOf(cfg, s, x.record);
            && TracksIn(c, PushRecord(cfg, s, x.record).state, HighsAfter(cfg, highs, x, out), o)
            && (!out.Accepted? ==> Mark(c, PushRecord(cfg, s, x.record).state) == Mark(c, s))
            && (out.Accepted? ==> AcceptedValue(c, out) == Extended(c, s, x.record))
            && (out.Accepted? || TrueMark(c, highs).Some? ==> Extended(c, s, x.record) == TrueValue(c, x) + Shift(c, o))
  {
    hide PushRecord, OutcomeOf, Accept, ExtendedSequence, ExtendedTimestamp, ReleasedBy, Spaced, FrameCount, TracksOne;
    hide NearIn, TimestampStep, LastTrue, FaithfulIn;
    PushExits(cfg, s, x.record);
    var out := OutcomeOf(cfg, s, x.record);
    if TrueMark(c, highs).Some? {
      RecoverIn(c, x, s, highs, o);
    }
    if out.Accepted? {
      AcceptedPacket(cfg, s, x.record);
      AcceptTracks(c, cfg, s, x, out.sequence, out.timestamp, out.frames, highs, o);
    }
  }

  /** Before anything is accepted any offset tracks. */
  lemma NothingTracks(c: Counter, s: State, highs: Highs, a: Offset, b: Offset)
    requires TracksIn(c, s, highs, a) && TrueMark(c, highs).None?
    ensures TracksIn(c, s, highs, b) && Mark(c, s).None?
  {
  }

  lemma NearRunFront(c: Counter, cfg: Config, stream: seq<Sent>)
    requires stream != [] && NearRunIn(c, cfg, stream)
    ensures NearRunIn(c, cfg, stream[..|stream| - 1])
    ensures FaithfulIn(c, stream[|stream| - 1])
    ensures NearIn(c, TrueHighs(cfg, stream[..|stream| - 1]), stream[|stream| - 1])
  {
    hide NearIn, FaithfulIn, TrueHighs;
    var front := stream[..|stream| - 1];
    forall i | 0 <= i < |front| ensures FaithfulIn(c, front[i]) && NearIn(c, TrueHighs(cfg, front[..i]), front[i]) {
      assert front[..i] == stream[..i];
      assert front[i] == stream[i];
    }
    var n := |stream| - 1;
    assert FaithfulIn(c, stream[n]) && NearIn(c, TrueHighs(cfg, stream[..n]), stream[n]);
  }

  lemma StreamUnfold(cfg: Config, stream: seq<Sent>)
    requires stream != []
    ensures var front, last := stream[..|stream| - 1], stream[|stream| - 1];
            var s := Run(cfg, Captured(front)).state;
            var out := OutcomeOf(cfg, s, last.record);
            && Run(cfg, Captured(stream)).state == PushRecord(cfg, s, last.record).state
            && Run(cfg, Captured(stream)).outcomes == Run(cfg, Captured(front)).outcomes + [out]
            && TrueHighs(cfg, stream) == HighsAfter(cfg, TrueHighs(cfg, front), last, out)
            && OffsetOf(cfg, stream)
               == if TrueHighs(cfg, front).sequence.None? && out.Accepted?
                  then Offset(ExtendedSequence(s, last.record) - last.sequence,
                              ExtendedTimestamp(s, last.record) - last.timestamp)
                  else OffsetOf(cfg, front)
  {
    hide Run, PushRecord, OutcomeOf, HighsAfter, ExtendedSequence, ExtendedTimestamp, Captured;
    CapturedFront(stream);
    RunUnfold(cfg, Captured(stream));
    PushOutcome(cfg, Run(cfg, Captured(stream[..|stream| - 1])).state, stream[|stream| - 1].record);
  }

  /** The two true marks are there together. */
  lemma HighsTogether(cfg: Config, stream: seq<Sent>)
    ensures TrueHighs(cfg, stream).sequence.Some? <==> TrueHighs(cfg, stream).timestamp.Some?
  {
    if stream != [] {
      hide Run, OutcomeOf, LastTrue;
      HighsTogether(cfg, stream[..|stream| - 1]);
    }
  }

  /** An empty true mark was empty before, and the last packet was not accepted. */
  lemma NothingAcceptedLast(cfg: Config, stream: seq<Sent>)
    requires stream != [] && TrueHighs(cfg, stream).sequence.None?
    ensures var front, last := stream[..|stream| - 1], stream[|stream| - 1];
            && TrueHighs(cfg, front).sequence.None?
            && !OutcomeOf(cfg, Run(cfg, Captured(front)).state, last.record).Accepted?
  {
    hide Run, OutcomeOf, Captured, LastTrue;
  }

  /** While the true marks are empty so are the marks, and no packet has been accepted. */
  lemma {:induction false} NoneAccepted(cfg: Config, stream: seq<Sent>)
    requires TrueHighs(cfg, stream).sequence.None?
    ensures forall i | 0 <= i < |stream| :: !Run(cfg, Captured(stream)).outcomes[i].Accepted?
    ensures Run(cfg, Captured(stream)).state.highestSequence.None?
            && Run(cfg, Captured(stream)).state.highestTimestamp.None?
  {
    hide Run, PushRecord, OutcomeOf, Captured, TrueHighs, OffsetOf, HighsAfter;
    if stream == [] {
      EmptyStream(cfg);
      assert stream == [];
    } else {
      var front, last := stream[..|stream| - 1], stream[|stream| - 1];
      NothingAcceptedLast(cfg, stream);
      NoneAccepted(cfg, front);
      StreamUnfold(cfg, stream);
      PushExits(cfg, Run(cfg, Captured(front)).state, last.record);
    }
  }

  lemma {:induction false} NeverAccepted(cfg: Config, stream: seq<Sent>, i: nat)
    requires TrueHighs(cfg, stream).sequence.None? && i <= |stream|
    ensures TrueHighs(cfg, stream[..i]).sequence.None?
  {
    hide TrueHighs;
    var n := |stream| - 1;
    if i == |stream| {
      assert stream[..i] == stream;
    } else {
      NothingAcceptedLast(cfg, stream);
      NeverAccepted(cfg, stream[..n], i);
      assert stream[..n][..i] == stream[..i];
    }
  }

  /** One packet extends to its true value plus the offset, if it is accepted or a high mark was there. */
  ghost predicate RecoveredAt(c: Counter, cfg: Config, stream: seq<Sent>, i: nat, shift: int)
    requires i < |stream|
  {
    var s, out := Run(cfg, Captured(stream[..i])).state, Run(cfg, Captured(stream)).outcomes[i];
    && (out.Accepted? ==> AcceptedValue(c, out) == TrueValue(c, stream[i]) + shift)
    && (out.Accepted? || Mark(c, s).Some? ==> Extended(c, s, stream[i].record) == TrueValue(c, stream[i]) + shift)
  }

  ghost predicate RecoveredIn(c: Counter, cfg: Config, stream: seq<Sent>, shift: int) {
    forall i | 0 <= i < |stream| :: RecoveredAt(c, cfg, stream, i, shift)
  }

  lemma RecoveredStill(c: Counter, cfg: Config, stream: seq<Sent>, shift: int)
    requires stream != [] && RecoveredIn(c, cfg, stream[..|stream| - 1], shift)
    ensures forall i | 0 <= i < |stream| - 1 :: RecoveredAt(c, cfg, stream, i, shift)
  {
    hide Run, PushRecord, OutcomeOf, Captured, Extended;
    var front := stream[..|stream| - 1];
    StreamUnfold(cfg, stream);
    forall i | 0 <= i < |front| ensures RecoveredAt(c, cfg, stream, i, shift) {
      assert front[..i] == stream[..i];
      assert RecoveredAt(c, cfg, front, i, shift);
    }
  }

  /** With nothing accepted there is nothing to recover, whatever the offset. */
  lemma RecoveredVacuously(c: Counter, cfg: Config, stream: seq<Sent>, shift: int)
    requires TrueHighs(cfg, stream).sequence.None?
    ensures RecoveredIn(c, cfg, stream, shift)
  {
    hide Run, OutcomeOf, Captured, Extended, TrueHighs;
    NoneAccepted(cfg, stream);
    forall i | 0 <= i < |stream| ensures RecoveredAt(c, cfg, stream, i, shift) {
      NeverAccepted(cfg, stream, i);
      NoneAccepted(cfg, stream[..i]);
    }
  }

  /**
   * If one counter of each packet is less than half a cycle from the highest accepted before it, then, whatever the
   * other counter does, its high mark is the true one plus one constant number of whole cycles, and so is the extended
   * value of every accepted packet and of every packet that meets a high mark, accepted or not.
   */
  lemma {:induction false} CounterRecovered(c: Counter, cfg: Config, stream: seq<Sent>)
    requires NearRunIn(c, cfg, stream)
    ensures Shift(c, OffsetOf(cfg, stream)) % Cycle(c) == 0
    ensures TracksIn(c, Run(cfg, Captured(stream)).state, TrueHighs(cfg, stream), OffsetOf(cfg, stream))
    ensures RecoveredIn(c, cfg, stream, Shift(c, OffsetOf(cfg, stream)))
  {
    hide Run, PushRecord, OutcomeOf, Captured, TrueHighs, OffsetOf, HighsAfter, TracksIn, NearIn, FaithfulIn;
    hide ExtendedSequence, ExtendedTimestamp, RecoveredIn, NearRunIn, RecoveredAt;
    if stream == [] {
      EmptyStream(cfg);
      assert stream == [];
    } else {
      var front, last := stream[..|stream| - 1], stream[|stream| - 1];
      var s, highs, o := Run(cfg, Captured(front)).state, TrueHighs(cfg, front), OffsetOf(cfg, stream);
      NearRunFront(c, cfg, stream);
      CounterRecovered(c, cfg, front);
      StreamUnfold(cfg, stream);
      HighsTogether(cfg, front);
      if highs.sequence.None? && OutcomeOf(cfg, s, last.record).Accepted? {
        NothingTracks(c, s, highs, OffsetOf(cfg, front), o);
        FirstOffset(c, last, s);
        RecoveredVacuously(c, cfg, front, Shift(c, o));
      }
      PushTracks(c, cfg, s, last, highs, o);
      RecoveredStill(c, cfg, stream, Shift(c, o));
      RecoveredLast(c, cfg, stream, o);
    }
  }

  lemma RecoveredLast(c: Counter, cfg: Config, stream: seq<Sent>, o: Offset)
    requires stream != []
    requires forall i | 0 <= i < |stream| - 1 :: RecoveredAt(c, cfg, stream, i, Shift(c, o))
    requires var front, last := stream[..|stream| - 1], stream[|stream| - 1];
             var s := Run(cfg, Captured(front)).state;
             var out := OutcomeOf(cfg, s, last.record);
             && TracksIn(c, s, TrueHighs(cfg, front), o)
             && (out.Accepted? ==> AcceptedValue(c, out) == Extended(c, s, last.record))
             && (out.Accepted? || TrueMark(c, TrueHighs(cfg, front)).Some? ==>
                   Extended(c, s, last.record) == TrueValue(c, last) + Shift(c, o))
    ensures RecoveredIn(c, cfg, stream, Shift(c, o))
  {
    hide Run, PushRecord, OutcomeOf, Captured, TrueHighs, Extended;
    StreamUnfold(cfg, stream);
    var n := |stream| - 1;
    assert RecoveredAt(c, cfg, stream, n, Shift(c, o));
  }

  /** Timestamps are recovered whatever the sequence numbers do. */
  lemma TimestampsRecovered(cfg: Config, stream: seq<Sent>)
    requires NearRunIn(MediaTimestamp, cfg, stream)
    ensures var shift := OffsetOf(cfg, stream).timestamp;
            && shift % 0x1_0000_0000 == 0
            && TracksOne(Run(cfg, Captured(stream)).state.highestTimestamp, TrueHighs(cfg, stream).timestamp, shift)
            && forall i | 0 <= i < |stream| ::
                 var s, out := Run(cfg, Captured(stream[..i])).state, Run(cfg, Captured(stream)).outcomes[i];
                 && (out.Accepted? ==> out.timestamp == stream[i].timestamp + shift)
                 && (out.Accepted? || s.highestTimestamp.Some? ==>
                       ExtendedTimestamp(s, stream[i].record) == stream[i].timestamp + shift)
  {
    hide Run, Captured, TrueHighs, OffsetOf, NearRunIn, ExtendedTimestamp, TracksOne;
    CounterRecovered(MediaTimestamp, cfg, stream);
    var shift := OffsetOf(cfg, stream).timestamp;
    forall i | 0 <= i < |stream|
      ensures var s, out := Run(cfg, Captured(stream[..i])).state, Run(cfg, Captured(stream)).outcomes[i];
              && (out.Accepted? ==> out.timestamp == stream[i].timestamp + shift)
              && (out.Accepted? || s.highestTimestamp.Some? ==>
                    ExtendedTimestamp(s, stream[i].record) == stream[i].timestamp + shift)
    {
      assert RecoveredAt(MediaTimestamp, cfg, stream, i, shift);
    }
  }

  /** Both extended values of every accepted packet are the true ones plus the offset. */
  ghost predicate Recovered(outcomes: seq<Outcome>, stream: seq<Sent>, o: Offset)
    requires |outcomes| == |stream|
  {
    forall i | 0 <= i < |stream| && outcomes[i].Accepted? ::
      outcomes[i].sequence == stream[i].sequence + o.sequence
      && outcomes[i].timestamp == stream[i].timestamp + o.timestamp
  }

  /** With both counters near, both are recovered by one offset. */
  lemma WrapsRecovered(cfg: Config, stream: seq<Sent>)
    requires NearRun(cfg, stream)
    ensures WholeCycles(OffsetOf(cfg, stream))
    ensures Tracks(Run(cfg, Captured(stream)).state, TrueHighs(cfg, stream), OffsetOf(cfg, stream))
    ensures Recovered(Run(cfg, Captured(stream)).outcomes, stream, OffsetOf(cfg, stream))
  {
    hide Run, Captured, TrueHighs, OffsetOf, NearRun, NearRunIn, Extended, TracksIn;
    NearRunParts(cfg, stream);
    HighsTogether(cfg, stream);
    CounterRecovered(SequenceNumber, cfg, stream);
    CounterRecovered(MediaTimestamp, cfg, stream);
    var o := OffsetOf(cfg, stream);
    var outcomes := Run(cfg, Captured(stream)).outcomes;
    forall i | 0 <= i < |stream| && outcomes[i].Accepted?
      ensures outcomes[i].sequence == stream[i].sequence + o.sequence
      ensures outcomes[i].timestamp == stream[i].timestamp + o.timestamp
    {
      assert RecoveredAt(SequenceNumber, cfg, stream, i, o.sequence);
      assert RecoveredAt(MediaTimestamp, cfg, stream, i, o.timestamp);
    }
  }

  lemma EmptyStream(cfg: Config)
    ensures OffsetOf(cfg, []) == Offset(0, 0) && TrueHighs(cfg, []) == Highs(None, None)
    ensures Run(cfg, Captured([])).state == INITIAL
    ensures forall c: Counter :: Shift(c, OffsetOf(cfg, [])) % Cycle(c) == 0
    ensures forall c: Counter :: TracksIn(c, Run(cfg, Captured([])).state, TrueHighs(cfg, []), OffsetOf(cfg, []))
    ensures forall c: Counter :: RecoveredIn(c, cfg, [], Shift(c, OffsetOf(cfg, [])))
  {
    assert Captured([]) == [];
  }
}
