/** How many frames filling the gaps gives, from what the packets say. */
module Grids {
  import opened Models
  import opened CodecTables
  import opened Timeline
  import opened Buffering
  import opened Runs
  import opened Emitting
  import opened Windows
  import opened Capacity
  import opened Wraps
  import opened StoredRuns

  /** Every accepted packet starts on the grid through g. */
  ghost predicate AcceptedOnGrid(cfg: Config, outcomes: seq<Outcome>, g: int) {
    forall i | 0 <= i < |outcomes| && outcomes[i].Accepted? ::
      Congruent(outcomes[i].timestamp, g, TimestampStep(cfg.codec))
  }

  lemma AcceptedFrameOnGrid(cfg: Config, s: State, record: RtpRecord, f: EncodedFrame, g: int)
    requires var o := OutcomeOf(cfg, s, record);
             o.Accepted? && f in o.frames && Congruent(o.timestamp, g, TimestampStep(cfg.codec))
    ensures Congruent(f.mediaTimestamp, g, TimestampStep(cfg.codec))
  {
    hide OutcomeOf, Retained, Holds, ExtendedSequence, ExtendedTimestamp, HistoryLimit, FrameCount, TimestampStep;
    AcceptedPacket(cfg, s, record);
    var o, step := OutcomeOf(cfg, s, record), TimestampStep(cfg.codec);
    var i :| 0 <= i < |o.frames| && o.frames[i] == f;
    var k: int :| o.timestamp == g + k * step;
    assert f.mediaTimestamp == g + (k + i) * step;
  }

  lemma {:induction false} TimelyOnGrid(cfg: Config, records: seq<RtpRecord>, f: EncodedFrame, g: int)
    requires AcceptedOnGrid(cfg, Run(cfg, records).outcomes, g) && f in Timely(cfg, records)
    ensures Congruent(f.mediaTimestamp, g, TimestampStep(cfg.codec))
  {
    hide Run, PushRecord, OutcomeOf, Timely, Congruent, TimestampStep;
    TimelySome(cfg, records, f);
    var front, last := records[..|records| - 1], records[|records| - 1];
    RunUnfold(cfg, records);
    var s := Run(cfg, front).state;
    PushOutcome(cfg, s, last);
    GridFront(cfg, Run(cfg, front).outcomes, OutcomeOf(cfg, s, last), g);
    if f in Timely(cfg, front) {
      TimelyOnGrid(cfg, front, f, g);
    } else {
      TimelyOf(s.committed, OutcomeOf(cfg, s, last), f);
      AcceptedFrameOnGrid(cfg, s, last, f, g);
    }
  }

  lemma GridFront(cfg: Config, outcomes: seq<Outcome>, last: Outcome, g: int)
    requires AcceptedOnGrid(cfg, outcomes + [last], g)
    ensures AcceptedOnGrid(cfg, outcomes, g)
    ensures last.Accepted? ==> Congruent(last.timestamp, g, TimestampStep(cfg.codec))
  {
    hide Congruent, TimestampStep;
    var all := outcomes + [last];
    forall i | 0 <= i < |outcomes| && outcomes[i].Accepted?
      ensures Congruent(outcomes[i].timestamp, g, TimestampStep(cfg.codec))
    {
      assert all[i] == outcomes[i];
    }
    assert all[|outcomes|] == last;
  }

  lemma BothCongruent(a: int, b: int, g: int, step: nat) returns (k: nat)
    requires step > 0 && Congruent(a, g, step) && Congruent(b, g, step) && a <= b
    ensures b == a + k * step
  {
    var i: int :| a == g + i * step;
    var j: int :| b == g + j * step;
    assert (j + 1) * step == j * step + step && j * step == i * step + (j - i) * step;
    FactorOrder(i, j + 1, step);
    k := j - i;
  }

  lemma CongruentOnGrid(frames: seq<EncodedFrame>, g: int, step: nat)
    requires step > 0 && SortedByTime(frames) && forall f | f in frames :: Congruent(f.mediaTimestamp, g, step)
    ensures OnGrid(frames, step)
  {
    hide Congruent;
    forall i | 0 <= i < |frames|
      ensures StepsOn(frames[0].mediaTimestamp, frames[i].mediaTimestamp, step)
    {
      assert frames[0] in frames && frames[i] in frames;
      var k := BothCongruent(frames[0].mediaTimestamp, frames[i].mediaTimestamp, g, step);
    }
  }

  /** When every accepted packet starts on one grid, filling the gaps gives (last - first) / step + 1 frames. */
  lemma AcceptedOutputCount(cfg: Config, records: seq<RtpRecord>, g: int)
    requires cfg.policy == NoData && AcceptedOnGrid(cfg, Run(cfg, records).outcomes, g)
    ensures var t := Complete(cfg, records);
            t.released != [] ==>
              var first, last := t.released[0].mediaTimestamp, t.released[|t.released| - 1].mediaTimestamp;
              && (|t.emitted| - 1) * TimestampStep(cfg.codec) == last - first
              && GridTimes(Times(t.emitted), first, TimestampStep(cfg.codec))
  {
    hide Run, Complete, Timely, InOrder, Best, Emissions, Gaps, TimestampStep, Congruent, OnGrid, AcceptedOnGrid;
    CompleteIsSorting(cfg, records);
    ReleasedSorted(cfg, records);
    var released := Complete(cfg, records).released;
    forall f | f in released ensures Congruent(f.mediaTimestamp, g, TimestampStep(cfg.codec)) {
      ReleasedTimely(Timely(cfg, records), f);
      TimelyOnGrid(cfg, records, f, g);
    }
    CongruentOnGrid(released, g, TimestampStep(cfg.codec));
    if released != [] {
      RunOutputCount(cfg, records);
    }
  }

  /**
   * The same of a sender whose true timestamps lie on one grid, though neither 160 nor 320 divides 2^32: near enough
   * to be recovered, the accepted timestamps lie on one grid too.
   */
  lemma SentOutputCount(cfg: Config, stream: seq<Sent>, g: int)
    requires cfg.policy == NoData && NearRunIn(MediaTimestamp, cfg, stream)
    requires forall x | x in stream :: Congruent(x.timestamp, g, TimestampStep(cfg.codec))
    ensures var t := Complete(cfg, Captured(stream));
            t.released != [] ==>
              var first, last := t.released[0].mediaTimestamp, t.released[|t.released| - 1].mediaTimestamp;
              && (|t.emitted| - 1) * TimestampStep(cfg.codec) == last - first
              && GridTimes(Times(t.emitted), first, TimestampStep(cfg.codec))
  {
    hide Run, Complete, Captured, OffsetOf, NearRunIn, TrueHighs, TracksOne, ExtendedTimestamp, Congruent;
    hide TimestampStep;
    TimestampsRecovered(cfg, stream);
    var outcomes, shift := Run(cfg, Captured(stream)).outcomes, OffsetOf(cfg, stream).timestamp;
    forall i | 0 <= i < |outcomes| && outcomes[i].Accepted?
      ensures Congruent(outcomes[i].timestamp, g + shift, TimestampStep(cfg.codec))
    {
      assert stream[i] in stream;
      CongruentMoved(stream[i].timestamp, g, TimestampStep(cfg.codec), shift);
    }
    AcceptedOutputCount(cfg, Captured(stream), g + shift);
  }
}
