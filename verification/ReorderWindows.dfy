/** What the reorder window promises, told by the arrived frames alone: how long a frame waits, and which come late. */
module ReorderWindows {
  import opened Models
  import opened CodecTables
  import opened Timeline
  import opened Buffering
  import opened Runs
  import opened Windows
  import opened Histories
  import opened Accounts
  import opened Wraps
  import opened Reordering
  import opened Delivery
  import opened FirstArrivals

  // ---------------------------------------------------------------------------------------------
  // The highest timestamp is that of the latest frame
  // ---------------------------------------------------------------------------------------------

  /** The timestamp of the latest of these frames. */
  ghost predicate IsLatest(frames: seq<EncodedFrame>, high: Option<int>) {
    match high
    case None => frames == []
    case Some(h) => HasFrameAt(frames, h) && forall f | f in frames :: f.mediaTimestamp <= h
  }

  lemma LatestAppend(
    frames: seq<EncodedFrame>, high: Option<int>, more: seq<EncodedFrame>, timestamp: int, step: nat)
    requires IsLatest(frames, high) && more != [] && Spaced(more, timestamp, step)
    ensures IsLatest(frames + more, Higher(Higher(high, timestamp), LastTimestamp(timestamp, more)))
  {
    hide Spaced;
    var all := frames + more;
    SpacedLast(more, timestamp, step);
    assert all[|all| - 1].mediaTimestamp == LastTimestamp(timestamp, more);
    if high.Some? {
      var i :| 0 <= i < |frames| && frames[i].mediaTimestamp == high.value;
      assert all[i] == frames[i];
    }
  }

  /** The highest timestamp of a run is that of the latest frame of all accepted packets. */
  lemma {:induction false} RunLatest(cfg: Config, records: seq<RtpRecord>)
    ensures IsLatest(Arrived(Run(cfg, records).outcomes), Run(cfg, records).state.highestTimestamp)
  {
    hide Run, PushRecord, OutcomeOf, Arrived, IsLatest, TimestampStep, Spaced, ExtendedSequence, ExtendedTimestamp;
    hide LastTimestamp, Higher;
    if records == [] {
      NothingArrived(cfg);
    } else {
      var front, last := records[..|records| - 1], records[|records| - 1];
      var t := Run(cfg, front);
      var o := OutcomeOf(cfg, t.state, last);
      RunLatest(cfg, front);
      RunUnfold(cfg, records);
      PushOutcome(cfg, t.state, last);
      PushExits(cfg, t.state, last);
      ArrivedAppend(t.outcomes, o);
      if o.Accepted? {
        AcceptedPacket(cfg, t.state, last);
        LatestAppend(Arrived(t.outcomes), t.state.highestTimestamp, o.frames, o.timestamp, TimestampStep(cfg.codec));
        AcceptHigh(cfg, t.state, last, o.sequence, o.timestamp, o.frames);
      } else {
        assert Arrived(t.outcomes) + [] == Arrived(t.outcomes);
      }
    }
  }

  lemma NothingArrived(cfg: Config)
    ensures IsLatest(Arrived(Run(cfg, []).outcomes), Run(cfg, []).state.highestTimestamp)
  {
  }

  lemma AcceptHigh(
    cfg: Config, s: State, record: RtpRecord, sequence: int, timestamp: int, frames: seq<EncodedFrame>)
    ensures Accept(cfg, s, record, sequence, timestamp, frames).highestTimestamp
            == Higher(Higher(s.highestTimestamp, timestamp), LastTimestamp(timestamp, frames))
  {
    hide InOrder, InsertAll, OnTime, Retained, CountersAfter, Span, LastTimestamp, Higher;
  }

  // ---------------------------------------------------------------------------------------------
  // Arrived frames are timely or late
  // ---------------------------------------------------------------------------------------------

  ghost predicate TimelyOrLate(timely: seq<EncodedFrame>, arrived: seq<EncodedFrame>, committed: Option<int>) {
    && (forall f | f in timely :: f in arrived)
    && (forall f | f in arrived :: f in timely || IsLate(committed, f))
  }

  ghost predicate Forward(a: Option<int>, b: Option<int>) {
    a.Some? ==> b.Some? && a.value <= b.value
  }

  lemma TimelyOrLateAppend(
    timely: seq<EncodedFrame>, arrived: seq<EncodedFrame>, committed: Option<int>, frames: seq<EncodedFrame>,
    after: Option<int>)
    requires TimelyOrLate(timely, arrived, committed) && Forward(committed, after)
    ensures TimelyOrLate(timely + OnTime(committed, frames), arrived + frames, after)
  {
    hide OnTime;
    OnTimeMembers(committed, frames);
  }

  lemma PushForward(cfg: Config, s: State, record: RtpRecord)
    requires InWindow(cfg, s)
    ensures Forward(s.committed, PushRecord(cfg, s, record).state.committed)
  {
    hide PushRecord, OutcomeOf, Accept, ReleasedBy, InWindow;
    PushExits(cfg, s, record);
    var o := OutcomeOf(cfg, s, record);
    if o.Accepted? {
      AcceptAdvances(cfg, s, record, o.sequence, o.timestamp, o.frames);
    }
  }

  lemma TimelyOnTime(committed: Option<int>, outcome: Outcome)
    ensures TimelyFrames(committed, outcome) == OnTime(committed, FramesOf(outcome))
  {
  }

  lemma {:induction false} RunTimelyOrLate(cfg: Config, records: seq<RtpRecord>)
    requires cfg.limits.Valid()
    ensures TimelyOrLate(Timely(cfg, records), Arrived(Run(cfg, records).outcomes), Run(cfg, records).state.committed)
  {
    hide Run, PushRecord, OutcomeOf, Arrived, Timely, TimelyOrLate, OnTime, InWindow, Forward, TimelyFrames, FramesOf;
    if records == [] {
      NothingTimelyOrLate(cfg);
    } else {
      var front, last := records[..|records| - 1], records[|records| - 1];
      var t := Run(cfg, front);
      var o := OutcomeOf(cfg, t.state, last);
      RunTimelyOrLate(cfg, front);
      RunUnfold(cfg, records);
      PushOutcome(cfg, t.state, last);
      ArrivedAppend(t.outcomes, o);
      RunInWindow(cfg, front);
      PushForward(cfg, t.state, last);
      TimelyOnTime(t.state.committed, o);
      TimelyOrLateAppend(Timely(cfg, front), Arrived(t.outcomes), t.state.committed, FramesOf(o),
                         Run(cfg, records).state.committed);
    }
  }

  lemma NothingTimelyOrLate(cfg: Config)
    ensures TimelyOrLate(Timely(cfg, []), Arrived(Run(cfg, []).outcomes), Run(cfg, []).state.committed)
  {
  }

  // ---------------------------------------------------------------------------------------------
  // How long a frame waits
  // ---------------------------------------------------------------------------------------------

  /** A frame a whole window or more after this time has arrived. */
  ghost predicate Overtaken(cfg: Config, arrived: seq<EncodedFrame>, t: int) {
    exists i :: 0 <= i < |arrived|
      && arrived[i].mediaTimestamp >= t + cfg.limits.reorderWindow * TimestampStep(cfg.codec)
  }

  lemma OvertakenIff(cfg: Config, arrived: seq<EncodedFrame>, high: Option<int>, t: int)
    requires IsLatest(arrived, high)
    ensures Overtaken(cfg, arrived, t)
            <==> high.Some? && t <= high.value - cfg.limits.reorderWindow * TimestampStep(cfg.codec)
  {
    hide TimestampStep;
    if Overtaken(cfg, arrived, t) {
      var i :| 0 <= i < |arrived|
        && arrived[i].mediaTimestamp >= t + cfg.limits.reorderWindow * TimestampStep(cfg.codec);
      assert arrived[i] in arrived;
    }
    if high.Some? {
      var i :| 0 <= i < |arrived| && arrived[i].mediaTimestamp == high.value;
    }
  }

  lemma FrameThere(frames: seq<EncodedFrame>, t: int)
    ensures HasFrameAt(frames, t) <==> exists f :: f in frames && f.mediaTimestamp == t
  {
    if HasFrameAt(frames, t) {
      var i :| 0 <= i < |frames| && frames[i].mediaTimestamp == t;
      assert frames[i] in frames;
    }
  }

  /**
   * A frame is held back exactly as long as the window lasts: at every moment of every run, a timestamp is pending if
   * and only if a frame of it has arrived and no frame a whole window or more after it has.
   */
  lemma PendingIff(cfg: Config, records: seq<RtpRecord>, t: int)
    requires cfg.limits.Valid()
    ensures var arrived := Arrived(Run(cfg, records).outcomes);
            t in Run(cfg, records).state.pending <==> HasFrameAt(arrived, t) && !Overtaken(cfg, arrived, t)
  {
    hide Run, Arrived, Timely, Best, HasFrameAt, TimestampStep, InOrder, CommittedAfter, IsLatest, Overtaken, Keyed;
    var s, arrived, timely := Run(cfg, records).state, Arrived(Run(cfg, records).outcomes), Timely(cfg, records);
    RunInWindow(cfg, records);
    RunLatest(cfg, records);
    RunReleases(cfg, records);
    RunTimelyOrLate(cfg, records);
    BestWins(timely, t);
    FrameThere(arrived, t);
    FrameThere(timely, t);
    OvertakenIff(cfg, arrived, s.highestTimestamp, t);
  }

  lemma InCut(all: Pending, committed: Option<int>, t: int)
    ensures t in After(all, committed) <==> t in all && (committed.Some? ==> t > committed.value)
    ensures t in Through(all, committed) <==> t in all && committed.Some? && t <= committed.value
  {
  }

  lemma InOrderTimes(pending: Pending, t: int)
    requires Keyed(pending)
    ensures HasFrameAt(InOrder(pending), t) <==> t in pending
  {
    hide InOrder, HasFrameAt;
    InOrderSorted(pending);
    FrameThere(InOrder(pending), t);
    if t in pending {
      assert pending[t] in InOrder(pending);
    }
  }

  lemma ThroughKeyed(all: Pending, committed: Option<int>)
    requires Keyed(all)
    ensures Keyed(Through(all, committed))
  {
  }

  /**
   * Nothing is released earlier and nothing later: before the finish, exactly those times of frames that entered the
   * buffer are released for which a frame a whole window or more later has arrived.
   */
  lemma ReleasedIff(cfg: Config, records: seq<RtpRecord>, t: int)
    requires cfg.limits.Valid()
    ensures HasFrameAt(Run(cfg, records).released, t)
            <==> HasFrameAt(Timely(cfg, records), t) && Overtaken(cfg, Arrived(Run(cfg, records).outcomes), t)
  {
    hide Run, Arrived, Timely, Best, HasFrameAt, TimestampStep, InOrder, CommittedAfter, IsLatest, Overtaken, Keyed;
    hide After, Through, TimelyOrLate;
    var s, arrived, timely := Run(cfg, records).state, Arrived(Run(cfg, records).outcomes), Timely(cfg, records);
    RunInWindow(cfg, records);
    RunLatest(cfg, records);
    RunReleases(cfg, records);
    BestWins(timely, t);
    ThroughKeyed(Best(timely), s.committed);
    InOrderTimes(Through(Best(timely), s.committed), t);
    InCut(Best(timely), s.committed, t);
    OvertakenIff(cfg, arrived, s.highestTimestamp, t);
  }

  // ---------------------------------------------------------------------------------------------
  // Which frames are late
  // ---------------------------------------------------------------------------------------------

  /** This time is at or before that of a frame already overtaken by a whole window. */
  ghost predicate Missed(cfg: Config, arrived: seq<EncodedFrame>, t: int) {
    exists f :: f in arrived && t <= f.mediaTimestamp && Overtaken(cfg, arrived, f.mediaTimestamp)
  }

  lemma LastOf(frames: seq<EncodedFrame>, committed: Option<int>)
    requires committed == CommittedAfter(None, frames)
    ensures committed.Some? ==> HasFrameAt(frames, committed.value)
  {
  }

  lemma LateIff(cfg: Config, records: seq<RtpRecord>, f: EncodedFrame)
    requires cfg.limits.Valid()
    ensures IsLate(Run(cfg, records).state.committed, f)
            <==> Missed(cfg, Arrived(Run(cfg, records).outcomes), f.mediaTimestamp)
  {
    hide Run, Arrived, Timely, Best, HasFrameAt, TimestampStep, InOrder, CommittedAfter, IsLatest, Overtaken, Keyed;
    hide After, Through;
    var s, arrived, timely := Run(cfg, records).state, Arrived(Run(cfg, records).outcomes), Timely(cfg, records);
    RunInWindow(cfg, records);
    RunLatest(cfg, records);
    RunReleases(cfg, records);
    RunTimelyOrLate(cfg, records);
    if IsLate(s.committed, f) {
      var c := s.committed.value;
      LastOf(Run(cfg, records).released, s.committed);
      ReleasedIff(cfg, records, c);
      FrameThere(timely, c);
    }
    if Missed(cfg, arrived, f.mediaTimestamp) {
      var g :| g in arrived && f.mediaTimestamp <= g.mediaTimestamp && Overtaken(cfg, arrived, g.mediaTimestamp);
      FrameThere(arrived, g.mediaTimestamp);
      PendingIff(cfg, records, g.mediaTimestamp);
      if g in timely {
        FrameThere(timely, g.mediaTimestamp);
        BestWins(timely, g.mediaTimestamp);
        InCut(Best(timely), s.committed, g.mediaTimestamp);
      }
    }
  }

  /** A packet counts as late exactly when one of its frames is at or before a frame a whole window has overtaken. */
  lemma LatePacketIff(cfg: Config, records: seq<RtpRecord>, record: RtpRecord)
    requires cfg.limits.Valid()
    ensures var s, arrived := Run(cfg, records).state, Arrived(Run(cfg, records).outcomes);
            var o := OutcomeOf(cfg, s, record);
            LateOne(s, o) == 1 <==> exists f :: f in FramesOf(o) && Missed(cfg, arrived, f.mediaTimestamp)
  {
    hide Run, OutcomeOf, Arrived, Missed, OnTime, IsLate, FramesOf, TimelyFrames;
    var s, arrived := Run(cfg, records).state, Arrived(Run(cfg, records).outcomes);
    var o := OutcomeOf(cfg, s, record);
    TimelyOnTime(s.committed, o);
    forall f | f in FramesOf(o) ensures IsLate(s.committed, f) <==> Missed(cfg, arrived, f.mediaTimestamp) {
      LateIff(cfg, records, f);
    }
    SomeLate(s.committed, FramesOf(o));
  }

  /** A packet displaced by less than the window is never late: no arrived frame is a whole window after its start. */
  lemma DisplacedOnTime(cfg: Config, records: seq<RtpRecord>, record: RtpRecord)
    requires cfg.limits.Valid()
    requires var o := OutcomeOf(cfg, Run(cfg, records).state, record);
             && o.Accepted?
             && forall f | f in Arrived(Run(cfg, records).outcomes) ::
                  f.mediaTimestamp < o.timestamp + cfg.limits.reorderWindow * TimestampStep(cfg.codec)
    ensures var s := Run(cfg, records).state;
            LateOne(s, OutcomeOf(cfg, s, record)) == 0
  {
    hide Run, OutcomeOf, Arrived, Missed, Overtaken, TimestampStep, Spaced, TimelyFrames, ExtendedSequence;
    hide ExtendedTimestamp, Retained, Holds, HistoryLimit;
    var s, arrived := Run(cfg, records).state, Arrived(Run(cfg, records).outcomes);
    var o := OutcomeOf(cfg, s, record);
    LatePacketIff(cfg, records, record);
    AcceptedPacket(cfg, s, record);
    SpacedLast(o.frames, o.timestamp, TimestampStep(cfg.codec));
    MissedDisplaced(cfg, arrived, o.timestamp);
    forall f | f in o.frames ensures !Missed(cfg, arrived, f.mediaTimestamp) {
      MissedEarlier(cfg, arrived, o.timestamp, f.mediaTimestamp);
    }
  }

  lemma MissedEarlier(cfg: Config, arrived: seq<EncodedFrame>, t: int, u: int)
    requires t <= u
    ensures Missed(cfg, arrived, u) ==> Missed(cfg, arrived, t)
  {
    hide Overtaken;
  }

  lemma MissedDisplaced(cfg: Config, arrived: seq<EncodedFrame>, t: int)
    requires forall f | f in arrived :: f.mediaTimestamp < t + cfg.limits.reorderWindow * TimestampStep(cfg.codec)
    ensures !Missed(cfg, arrived, t)
  {
    hide TimestampStep, Overtaken;
    if Missed(cfg, arrived, t) {
      var f :| f in arrived && t <= f.mediaTimestamp && Overtaken(cfg, arrived, f.mediaTimestamp);
      OvertakenBy(cfg, arrived, f.mediaTimestamp);
    }
  }

  lemma OvertakenBy(cfg: Config, arrived: seq<EncodedFrame>, t: int)
    ensures Overtaken(cfg, arrived, t)
            ==> exists f :: f in arrived
                  && f.mediaTimestamp >= t + cfg.limits.reorderWindow * TimestampStep(cfg.codec)
  {
    hide TimestampStep;
    if Overtaken(cfg, arrived, t) {
      var i :| 0 <= i < |arrived|
        && arrived[i].mediaTimestamp >= t + cfg.limits.reorderWindow * TimestampStep(cfg.codec);
      assert arrived[i] in arrived;
    }
  }

  lemma {:induction false} SomeLate(committed: Option<int>, frames: seq<EncodedFrame>)
    ensures |OnTime(committed, frames)| <= |frames|
    ensures |OnTime(committed, frames)| < |frames| <==> exists f :: f in frames && IsLate(committed, f)
  {
    if frames != [] {
      hide IsLate;
      SomeLate(committed, frames[..|frames| - 1]);
      assert frames == frames[..|frames| - 1] + [frames[|frames| - 1]];
    }
  }

  // ---------------------------------------------------------------------------------------------
  // The window is filled to the last frame
  // ---------------------------------------------------------------------------------------------

  /** Frames at g, g + step, g + 2 * step and so on, in this order. */
  ghost predicate OneByOne(frames: seq<EncodedFrame>, g: int, step: nat) {
    forall i | 0 <= i < |frames| :: frames[i].mediaTimestamp == g + i * step
  }

  /** The points g + a * step up to, not including, g + b * step. */
  ghost function StepsBetween(g: int, step: nat, a: nat, b: nat): set<int>
    decreases b
  {
    if a >= b then {} else StepsBetween(g, step, a, b - 1) + {g + (b - 1) * step}
  }

  lemma {:induction false} InSteps(g: int, step: nat, a: nat, b: nat, t: int)
    ensures t in StepsBetween(g, step, a, b) <==> exists i: nat :: a <= i < b && t == g + i * step
    decreases b
  {
    if a < b {
      InSteps(g, step, a, b - 1, t);
      if exists i: nat :: a <= i < b && t == g + i * step {
        var i: nat :| a <= i < b && t == g + i * step;
        assert i == b - 1 || (a <= i < b - 1 && t == g + i * step);
      }
    }
  }

  lemma {:induction false} StepsCount(g: int, step: nat, a: nat, b: nat)
    requires step > 0
    ensures |StepsBetween(g, step, a, b)| == if a >= b then 0 else b - a
    decreases b
  {
    if a < b {
      hide StepsBetween;
      StepsCount(g, step, a, b - 1);
      InSteps(g, step, a, b - 1, g + (b - 1) * step);
      StepsGrow(g, step, a, b);
      if g + (b - 1) * step in StepsBetween(g, step, a, b - 1) {
        var i: nat :| a <= i < b - 1 && g + (b - 1) * step == g + i * step;
        MulBefore(i, b - 1, step);
      }
    } else {
      assert StepsBetween(g, step, a, b) == {};
    }
  }

  lemma StepsGrow(g: int, step: nat, a: nat, b: nat)
    requires a < b
    ensures StepsBetween(g, step, a, b) == StepsBetween(g, step, a, b - 1) + {g + (b - 1) * step}
  {
  }

  lemma MulBefore(a: int, b: int, step: nat)
    requires step > 0
    ensures a < b <==> a * step < b * step
  {
    if a < b {
      MulGrows(a, b - a - 1, step);
    } else {
      MulGrows(b - 1, a - b, step);
      assert (b - 1) * step + step == b * step;
    }
  }

  lemma MulGrows(a: int, k: nat, step: nat)
    ensures a * step + step <= (a + k + 1) * step
  {
    assert (a + k + 1) * step == a * step + k * step + step;
    assert 0 <= k * step;
  }

  lemma PointPending(cfg: Config, arrived: seq<EncodedFrame>, g: int, n: nat, t: int)
    requires cfg.limits.Valid() && OneByOne(arrived, g, TimestampStep(cfg.codec)) && n == |arrived|
    ensures HasFrameAt(arrived, t) && !Overtaken(cfg, arrived, t)
            <==> exists i: nat :: n - cfg.limits.reorderWindow <= i < n && t == g + i * TimestampStep(cfg.codec)
  {
    hide TimestampStep, Overtaken;
    var w, step := cfg.limits.reorderWindow, TimestampStep(cfg.codec);
    if HasFrameAt(arrived, t) && !Overtaken(cfg, arrived, t) {
      var i: nat :| i < n && arrived[i].mediaTimestamp == t;
      PointOvertaken(cfg, arrived, g, i);
    }
    if i: nat :| n - w <= i < n && t == g + i * step {
      PointOvertaken(cfg, arrived, g, i);
      assert arrived[i].mediaTimestamp == t;
    }
  }

  lemma PointOvertaken(cfg: Config, arrived: seq<EncodedFrame>, g: int, i: nat)
    requires cfg.limits.Valid() && OneByOne(arrived, g, TimestampStep(cfg.codec)) && i < |arrived|
    ensures Overtaken(cfg, arrived, g + i * TimestampStep(cfg.codec)) <==> i + cfg.limits.reorderWindow < |arrived|
  {
    hide TimestampStep;
    var w, step := cfg.limits.reorderWindow, TimestampStep(cfg.codec);
    StepPositive(cfg.codec);
    assert (i + w) * step == i * step + w * step;
    forall k | 0 <= k < |arrived| ensures arrived[k].mediaTimestamp >= g + i * step + w * step <==> i + w <= k {
      MulBefore(k, i + w, step);
    }
    if i + w < |arrived| {
      assert arrived[i + w].mediaTimestamp >= g + i * step + w * step;
    }
  }

  lemma StepPositive(codec: Codec)
    ensures TimestampStep(codec) > 0
  {
  }

  /**
   * The window is used to the last frame: when n frames have arrived one step after the other, exactly the last
   * min(n, reorderWindow) of them are still held back.
   */
  lemma WindowFull(cfg: Config, records: seq<RtpRecord>, g: int)
    requires cfg.limits.Valid() && OneByOne(Arrived(Run(cfg, records).outcomes), g, TimestampStep(cfg.codec))
    ensures var n, w := |Arrived(Run(cfg, records).outcomes)|, cfg.limits.reorderWindow;
            && |Run(cfg, records).state.pending| == (if n < w then n else w)
            && forall t :: t in Run(cfg, records).state.pending
                 <==> exists i: nat :: n - w <= i < n && t == g + i * TimestampStep(cfg.codec)
  {
    hide Run, Arrived, HasFrameAt, Overtaken, OneByOne, StepsBetween, TimestampStep;
    var arrived, pending := Arrived(Run(cfg, records).outcomes), Run(cfg, records).state.pending;
    var n, w, step := |arrived|, cfg.limits.reorderWindow, TimestampStep(cfg.codec);
    var a := if n < w then 0 else n - w;
    StepPositive(cfg.codec);
    forall t ensures t in pending <==> exists i: nat :: n - w <= i < n && t == g + i * step {
      PendingIff(cfg, records, t);
      PointPending(cfg, arrived, g, n, t);
    }
    forall t ensures t in pending.Keys <==> t in StepsBetween(g, step, a, n) {
      InSteps(g, step, a, n, t);
    }
    assert pending.Keys == StepsBetween(g, step, a, n);
    StepsCount(g, step, a, n);
  }

  /**
   * So it is for a sender: of n frames sent one step after the other and delivered in that order, exactly the last
   * min(n, reorderWindow) are held back, for any number of frames to a packet.
   */
  lemma SentWindowFull(cfg: Config, stream: seq<Sent>, g: int, h: int)
    requires cfg.limits.Valid() && Delivered(cfg, stream, g) && NoCopies(stream)
    requires OneByOne(TrueAll(cfg, stream), h, TimestampStep(cfg.codec))
    ensures var n, w := |TrueAll(cfg, stream)|, cfg.limits.reorderWindow;
            |Run(cfg, Captured(stream)).state.pending| == (if n < w then n else w)
  {
    hide Run, Arrived, TrueAll, MovedAll, Captured, Delivered, NoCopies, NearRun, TrueHighs, SentHighs, OffsetOf;
    hide TimestampStep, AllInWindow, NearRunIn, OneByOne;
    FirstsAccepted(cfg, stream, g);
    CleanArrived(cfg, stream);
    AllTakenOf(Run(cfg, Captured(stream)).outcomes, stream);
    OneByOneMoved(TrueAll(cfg, stream), h, TimestampStep(cfg.codec), OffsetOf(cfg, stream).timestamp);
    WindowFull(cfg, Captured(stream), h + OffsetOf(cfg, stream).timestamp);
  }

  lemma OneByOneMoved(frames: seq<EncodedFrame>, g: int, step: nat, d: int)
    requires OneByOne(frames, g, step)
    ensures OneByOne(MovedAll(frames, d), g + d, step) && |MovedAll(frames, d)| == |frames|
  {
  }
}
