/** What every push keeps: the reorder window, the bounded history, and replays that change nothing. */
module Windows {
  import opened Models
  import opened CodecTables
  import opened Rfc4867
  import opened Timeline
  import opened Buffering
  import opened Runs

  // ---------------------------------------------------------------------------------------------
  // The frames of an accepted packet
  // ---------------------------------------------------------------------------------------------

  /** Frames one step apart, from the packet's timestamp on. */
  ghost predicate Spaced(frames: seq<EncodedFrame>, timestamp: int, step: nat) {
    forall i | 0 <= i < |frames| :: frames[i].mediaTimestamp == timestamp + i * step
  }

  /** How many frames the codec and mode find in a payload. */
  ghost function FrameCount(cfg: Config, payload: Bytes): nat {
    var bodies := Bodies(cfg.codec, cfg.mode, payload);
    if bodies.Ok? then |bodies.value| else 0
  }

  lemma FramesSpaced(codec: Codec, bodies: seq<Body>, timestamp: int, provenance: Provenance)
    ensures Spaced(Frames(codec, bodies, timestamp, provenance), timestamp, TimestampStep(codec))
  {
    hide TimestampStep;
  }

  /** What the accepted exit says of its packet. */
  lemma AcceptedPacket(cfg: Config, s: State, record: RtpRecord)
    requires OutcomeOf(cfg, s, record).Accepted?
    ensures var o := OutcomeOf(cfg, s, record);
            && o.sequence == ExtendedSequence(s, record) && o.timestamp == ExtendedTimestamp(s, record)
            && Depacketize(record.payload, cfg.codec, cfg.mode, o.timestamp, record.provenance) == Ok(o.frames)
            && o.frames != [] && |o.frames| == FrameCount(cfg, record.payload)
            && Spaced(o.frames, o.timestamp, TimestampStep(cfg.codec))
    ensures !Holds(Retained(s.history, s.committed), IdentityOf(record, OutcomeOf(cfg, s, record).sequence))
    ensures |Retained(s.history, s.committed)| < HistoryLimit(cfg)
  {
    hide Holds, Retained, ExtendedSequence, ExtendedTimestamp, Bodies, HistoryLimit, Spaced, TimestampStep, Encode;
    var bodies := Bodies(cfg.codec, cfg.mode, record.payload).value;
    AcceptedIffEncoding(cfg.codec, cfg.mode, record.payload, bodies);
    FramesSpaced(cfg.codec, bodies, ExtendedTimestamp(s, record), record.provenance);
  }

  lemma SpacedLast(frames: seq<EncodedFrame>, timestamp: int, step: nat)
    requires Spaced(frames, timestamp, step) && frames != []
    ensures LastTimestamp(timestamp, frames) == timestamp + (|frames| - 1) * step
    ensures forall i | 0 <= i < |frames| :: timestamp <= frames[i].mediaTimestamp <= LastTimestamp(timestamp, frames)
    ensures timestamp <= LastTimestamp(timestamp, frames)
  {
    forall i | 0 <= i < |frames| ensures timestamp <= frames[i].mediaTimestamp <= LastTimestamp(timestamp, frames) {
      MulOrder(i, |frames| - 1, step);
    }
    MulOrder(0, |frames| - 1, step);
  }

  lemma MulOrder(a: nat, b: nat, step: nat)
    requires a <= b
    ensures 0 <= a * step <= b * step
  {
    assert b * step == a * step + (b - a) * step;
  }

  // ---------------------------------------------------------------------------------------------
  // Frames on time
  // ---------------------------------------------------------------------------------------------

  lemma {:induction false} OnTimeMembers(committed: Option<int>, frames: seq<EncodedFrame>)
    ensures forall f :: f in OnTime(committed, frames) <==> f in frames && !IsLate(committed, f)
    ensures |OnTime(committed, frames)| <= |frames|
  {
    if frames != [] {
      hide IsLate;
      OnTimeMembers(committed, frames[..|frames| - 1]);
      assert frames == frames[..|frames| - 1] + [frames[|frames| - 1]];
    }
  }

  lemma {:induction false} AllOnTime(committed: Option<int>, frames: seq<EncodedFrame>)
    requires forall i | 0 <= i < |frames| :: !IsLate(committed, frames[i])
    ensures OnTime(committed, frames) == frames
  {
    if frames != [] {
      hide IsLate;
      AllOnTime(committed, frames[..|frames| - 1]);
      assert frames == frames[..|frames| - 1] + [frames[|frames| - 1]];
    }
  }

  lemma {:induction false} NoneOnTime(committed: Option<int>, frames: seq<EncodedFrame>)
    requires forall i | 0 <= i < |frames| :: IsLate(committed, frames[i])
    ensures OnTime(committed, frames) == []
  {
    if frames != [] {
      hide IsLate;
      NoneOnTime(committed, frames[..|frames| - 1]);
    }
  }

  // ---------------------------------------------------------------------------------------------
  // The reorder window
  // ---------------------------------------------------------------------------------------------

  /** Pending frames lie inside the window, and everything committed lies behind it. */
  ghost predicate InWindow(cfg: Config, s: State) {
    && Keyed(s.pending)
    && (forall t | t in s.pending ::
          && s.highestTimestamp.Some? && t <= s.highestTimestamp.value
          && s.highestTimestamp.value - cfg.limits.reorderWindow * TimestampStep(cfg.codec) < t)
    && (s.committed.Some? ==>
          && s.highestTimestamp.Some?
          && s.committed.value <= s.highestTimestamp.value - cfg.limits.reorderWindow * TimestampStep(cfg.codec))
  }

  /** The watermark runs a whole reorder window of frames behind the highest timestamp. */
  lemma SpanIsWindow(cfg: Config)
    ensures Span(cfg) == cfg.limits.reorderWindow * TimestampStep(cfg.codec)
  {
    hide TimestampStep;
  }

  lemma BufferedFrames(s: State, frames: seq<EncodedFrame>)
    requires Keyed(s.pending)
    ensures var buffered := BufferedAfter(s, frames);
            && Keyed(buffered)
            && forall t :: t in buffered <==> t in s.pending || HasFrameAt(OnTime(s.committed, frames), t)
  {
    hide InsertAll, OnTime, Keyed, HasFrameAt;
    InsertAllKeys(s.pending, OnTime(s.committed, frames));
  }

  lemma TimelyTimestamps(committed: Option<int>, frames: seq<EncodedFrame>, t: int)
    ensures HasFrameAt(OnTime(committed, frames), t)
            <==> HasFrameAt(frames, t) && (committed.Some? ==> t > committed.value)
  {
    hide OnTime;
    OnTimeMembers(committed, frames);
    var timely := OnTime(committed, frames);
    if HasFrameAt(timely, t) {
      var i :| 0 <= i < |timely| && timely[i].mediaTimestamp == t;
      assert timely[i] in frames;
      var j :| 0 <= j < |frames| && frames[j] == timely[i];
    }
    if HasFrameAt(frames, t) && (committed.Some? ==> t > committed.value) {
      var j :| 0 <= j < |frames| && frames[j].mediaTimestamp == t;
      assert frames[j] in timely;
      var i :| 0 <= i < |timely| && timely[i] == frames[j];
    }
  }

  /** What a release does to the committed timestamp, key by key. */
  lemma ReleaseMoves(pending: Pending, committed: Option<int>, w: int)
    requires Keyed(pending)
    ensures var committed' := CommittedAfter(committed, InOrder(AtMost(pending, w)));
            && (forall t | t in pending && t <= w :: committed'.Some? && t <= committed'.value)
            && (committed' == committed || (committed'.Some? && committed'.value in pending && committed'.value <= w))
  {
    hide InOrder, AtMost;
    if InOrder(AtMost(pending, w)) == [] {
      EmptyRelease(pending, w);
    } else {
      LastReleased(pending, w);
    }
  }

  lemma AcceptInWindow(
    cfg: Config, s: State, record: RtpRecord, sequence: int, timestamp: int, frames: seq<EncodedFrame>)
    requires InWindow(cfg, s) && cfg.limits.Valid()
    requires frames != [] && Spaced(frames, timestamp, TimestampStep(cfg.codec))
    ensures InWindow(cfg, Accept(cfg, s, record, sequence, timestamp, frames))
  {
    hide InOrder, InsertAll, OnTime, Retained, CountersAfter, Span, TimestampStep, Spaced, BufferedAfter, AtMost;
    var s' := Accept(cfg, s, record, sequence, timestamp, frames);
    var w := WatermarkAfter(cfg, s, timestamp, frames);
    var buffered := BufferedAfter(s, frames);
    SpacedLast(frames, timestamp, TimestampStep(cfg.codec));
    BufferedFrames(s, frames);
    ReleaseMoves(buffered, s.committed, w);
    SpanIsWindow(cfg);
    forall t | t in s'.pending ensures s'.highestTimestamp.value - Span(cfg) < t <= s'.highestTimestamp.value {
      assert t in buffered;
      if t !in s.pending {
        TimelyTimestamps(s.committed, frames, t);
        var i :| 0 <= i < |frames| && frames[i].mediaTimestamp == t;
      }
    }
  }

  lemma PushInWindow(cfg: Config, s: State, record: RtpRecord)
    requires InWindow(cfg, s) && cfg.limits.Valid()
    ensures InWindow(cfg, PushRecord(cfg, s, record).state)
  {
    hide PushRecord, OutcomeOf, Accept, ReleasedBy, Spaced, Span, ExtendedSequence, ExtendedTimestamp, Depacketize;
    PushExits(cfg, s, record);
    var o := OutcomeOf(cfg, s, record);
    if o.Accepted? {
      AcceptedPacket(cfg, s, record);
      AcceptInWindow(cfg, s, record, o.sequence, o.timestamp, o.frames);
    }
  }

  /** At every moment of a run, every pending frame is newer than the highest timestamp less the window. */
  lemma {:induction false} RunInWindow(cfg: Config, records: seq<RtpRecord>)
    requires cfg.limits.Valid()
    ensures InWindow(cfg, Run(cfg, records).state)
  {
    if records != [] {
      hide Run, PushRecord, InWindow;
      var front := records[..|records| - 1];
      RunInWindow(cfg, front);
      RunUnfold(cfg, records);
      PushInWindow(cfg, Run(cfg, front).state, records[|records| - 1]);
    }
  }
}
