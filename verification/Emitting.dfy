/** The order of the output and the gap policies, over the released frames of a whole run. */
module Emitting {
  import opened Models
  import opened CodecTables
  import opened IntKeys
  import opened Timeline
  import opened Buffering
  import opened Runs

  function Times(emissions: seq<Emission>): (times: seq<int>)
    ensures |times| == |emissions|
  {
    seq(|emissions|, i requires 0 <= i < |emissions| => emissions[i].frame.mediaTimestamp)
  }

  function FramesIn(emissions: seq<Emission>): (frames: seq<EncodedFrame>)
    ensures |frames| == |emissions|
  {
    seq(|emissions|, i requires 0 <= i < |emissions| => emissions[i].frame)
  }

  /** Every timestamp is after the one before it, by at most one step. */
  predicate Steady(times: seq<int>, step: int) {
    forall i | 0 <= i < |times| - 1 :: times[i] < times[i + 1] <= times[i] + step
  }

  lemma {:induction false} SteadyRange(lo: int, hi: int, step: nat)
    requires step > 0
    ensures var r := Range(lo, hi, step);
            && Steady(r, step)
            && (r == [] <==> lo >= hi)
            && (r != [] ==> r[0] == lo && r[|r| - 1] < hi <= r[|r| - 1] + step)
    decreases hi - lo
  {
    if lo < hi {
      SteadyRange(lo + step, hi, step);
      var r, tail := Range(lo, hi, step), Range(lo + step, hi, step);
      assert r == [lo] + tail;
    }
  }

  lemma SteadyConcat(a: seq<int>, b: seq<int>, step: int)
    requires Steady(a, step) && Steady(b, step)
    requires a != [] && b != [] ==> a[|a| - 1] < b[0] <= a[|a| - 1] + step
    ensures Steady(a + b, step)
  {
  }

  /** Filling the gap up to a later timestamp keeps the steps small. */
  lemma SteadyExtend(times: seq<int>, last: int, step: nat)
    requires step > 0 && times != [] && Steady(times, step) && times[|times| - 1] < last
    ensures Steady(times + Range(times[|times| - 1] + step, last, step) + [last], step)
  {
    hide Range;
    var gap := Range(times[|times| - 1] + step, last, step);
    SteadyRange(times[|times| - 1] + step, last, step);
    SteadyConcat(times, gap, step);
    SteadyConcat(times + gap, [last], step);
  }

  lemma {:induction false} SteadySorted(times: seq<int>, step: int)
    requires Steady(times, step)
    ensures StrictlySorted(times)
  {
    if |times| > 1 {
      var front := times[..|times| - 1];
      SteadySorted(front, step);
      forall i, j | 0 <= i < j < |times| ensures times[i] < times[j] {
        var last := |times| - 2;
        assert times[last] < times[last + 1];
        assert front[last] == times[last];
        if j == |times| - 1 && i < last {
          assert front[i] < front[last];
        } else if j < |times| - 1 {
          assert front[i] < front[j];
        }
      }
    }
  }

  lemma TimesAppend(codec: Codec, committed: Option<int>, front: seq<EncodedFrame>, last: EncodedFrame)
    ensures Times(Emissions(codec, NoData, committed, front + [last]))
            == Times(Emissions(codec, NoData, committed, front))
               + Missing(codec, CommittedAfter(committed, front), last.mediaTimestamp) + [last.mediaTimestamp]
    ensures Times(Emissions(codec, Omit, committed, front + [last]))
            == Times(Emissions(codec, Omit, committed, front)) + [last.mediaTimestamp]
  {
    hide Missing, Emissions, CommittedAfter, TimestampStep, Times, Fill;
    var prior := CommittedAfter(committed, front);
    var gap := Missing(codec, prior, last.mediaTimestamp);
    EmissionsLast(codec, NoData, committed, front, last);
    EmissionsLast(codec, Omit, committed, front, last);
    TimesConcat(Emissions(codec, NoData, committed, front), Fill(codec, gap) + [Emission(last, false)]);
    TimesConcat(Fill(codec, gap), [Emission(last, false)]);
    TimesConcat(Emissions(codec, Omit, committed, front), [Emission(last, false)]);
    TimesFill(codec, gap, last);
    assert [] + [Emission(last, false)] == [Emission(last, false)];
  }

  lemma TimesConcat(a: seq<Emission>, b: seq<Emission>)
    ensures Times(a + b) == Times(a) + Times(b)
  {
  }

  lemma TimesFill(codec: Codec, times: seq<int>, last: EncodedFrame)
    ensures Times(Fill(codec, times)) == times
    ensures Times([Emission(last, false)]) == [last.mediaTimestamp]
  {
  }

  /** The times run steadily from the first frame to the last. */
  ghost predicate Spans(times: seq<int>, frames: seq<EncodedFrame>, step: int) {
    && Steady(times, step)
    && frames != [] && times != []
    && times[0] == frames[0].mediaTimestamp && times[|times| - 1] == frames[|frames| - 1].mediaTimestamp
  }

  lemma SpansAppend(codec: Codec, times: seq<int>, front: seq<EncodedFrame>, last: EncodedFrame)
    requires Spans(times, front, TimestampStep(codec)) && front[|front| - 1].mediaTimestamp < last.mediaTimestamp
    ensures Spans(times + Missing(codec, CommittedAfter(None, front), last.mediaTimestamp) + [last.mediaTimestamp],
                  front + [last], TimestampStep(codec))
  {
    hide TimestampStep, Range, Steady;
    SteadyExtend(times, last.mediaTimestamp, TimestampStep(codec));
  }

  /** Filling the gaps leaves no step out: each emission follows the one before it by at most one step. */
  lemma {:induction false} NoDataSteady(codec: Codec, frames: seq<EncodedFrame>)
    requires SortedByTime(frames) && frames != []
    ensures Spans(Times(Emissions(codec, NoData, None, frames)), frames, TimestampStep(codec))
  {
    hide Emissions, TimestampStep, Missing, Times, Spans, CommittedAfter;
    var front, last := frames[..|frames| - 1], frames[|frames| - 1];
    assert frames == front + [last];
    TimesAppend(codec, None, front, last);
    if front == [] {
      OneTime(codec, last);
    } else {
      assert front[|front| - 1].mediaTimestamp < last.mediaTimestamp;
      NoDataSteady(codec, front);
      SpansAppend(codec, Times(Emissions(codec, NoData, None, front)), front, last);
    }
  }

  lemma OneTime(codec: Codec, frame: EncodedFrame)
    ensures Times(Emissions(codec, NoData, None, [frame])) == [frame.mediaTimestamp]
    ensures Spans([frame.mediaTimestamp], [frame], TimestampStep(codec))
  {
    hide TimestampStep;
    TimesAppend(codec, None, [], frame);
    EmissionsNothing(codec, NoData, None);
    NoTimes();
    assert [] + [frame] == [frame];
    assert [] + [] + [frame.mediaTimestamp] == [frame.mediaTimestamp];
  }

  lemma NoTimes()
    ensures Times([]) == []
  {
  }

  lemma {:induction false} OmitTimes(codec: Codec, frames: seq<EncodedFrame>)
    ensures Emissions(codec, Omit, None, frames)
            == seq(|frames|, i requires 0 <= i < |frames| => Emission(frames[i], false))
  {
    if frames == [] {
      EmissionsNothing(codec, Omit, None);
    } else {
      hide Emissions, Missing, TimestampStep;
      var front, last := frames[..|frames| - 1], frames[|frames| - 1];
      OmitTimes(codec, front);
      EmissionsLast(codec, Omit, None, front, last);
      assert frames == front + [last];
      assert EmissionsAt(codec, Omit, CommittedAfter(None, front), last) == [Emission(last, false)];
      hide EmissionsAt, CommittedAfter;
    }
  }

  /** Everything a run emits, under either policy, is strictly increasing in time. */
  lemma RunOutputIncreases(cfg: Config, records: seq<RtpRecord>)
    ensures StrictlySorted(Times(Complete(cfg, records).emitted))
  {
    hide Emissions, Gaps, Complete, Best, InOrder, SortedKeys, TimestampStep;
    CompleteIsSorting(cfg, records);
    var released := Complete(cfg, records).released;
    InsertAllKeys(map[], Timely(cfg, records));
    assert Best(Timely(cfg, records)) == InsertAll(map[], Timely(cfg, records)) by {
      BestDefinition(Timely(cfg, records));
    }
    InOrderSorted(Best(Timely(cfg, records)));
    if released == [] {
      EmissionsNothing(cfg.codec, cfg.policy, None);
    } else if cfg.policy.NoData? {
      NoDataSteady(cfg.codec, released);
      SteadySorted(Times(Complete(cfg, records).emitted), TimestampStep(cfg.codec));
    } else {
      OmitTimes(cfg.codec, released);
    }
  }

  lemma BestDefinition(frames: seq<EncodedFrame>)
    ensures Best(frames) == InsertAll(map[], frames)
  {
  }

  lemma ReleasedSorted(cfg: Config, records: seq<RtpRecord>)
    ensures SortedByTime(Complete(cfg, records).released)
  {
    hide Emissions, Gaps, Complete, InOrder, SortedKeys, InsertAll;
    CompleteIsSorting(cfg, records);
    InsertAllKeys(map[], Timely(cfg, records));
    InOrderSorted(Best(Timely(cfg, records)));
  }

  /** Under NO_DATA no step of the output is skipped. */
  lemma RunOutputSteady(cfg: Config, records: seq<RtpRecord>)
    requires cfg.policy == NoData
    ensures Steady(Times(Complete(cfg, records).emitted), TimestampStep(cfg.codec))
  {
    hide Emissions, Gaps, Complete, InOrder, TimestampStep;
    CompleteIsSorting(cfg, records);
    ReleasedSorted(cfg, records);
    if Complete(cfg, records).released == [] {
      EmissionsNothing(cfg.codec, NoData, None);
    } else {
      NoDataSteady(cfg.codec, Complete(cfg, records).released);
    }
  }

  // ---------------------------------------------------------------------------------------------
  // Frames on the grid
  // ---------------------------------------------------------------------------------------------

  /** Every frame is a whole number of steps after the first. */
  ghost predicate OnGrid(frames: seq<EncodedFrame>, step: nat) {
    forall i | 0 <= i < |frames| :: StepsOn(frames[0].mediaTimestamp, frames[i].mediaTimestamp, step)
  }

  ghost predicate StepsOn(from: int, to: int, step: nat) {
    exists k: nat :: to == from + k * step
  }

  lemma {:induction false} RangeOnGrid(lo: int, n: nat, step: nat)
    requires step > 0
    ensures var r := Range(lo, lo + n * step, step);
            |r| == n && forall i | 0 <= i < n :: r[i] == lo + i * step
    decreases n
  {
    if n > 0 {
      RangeOnGrid(lo + step, n - 1, step);
      assert lo + step + (n - 1) * step == lo + n * step;
      assert lo < lo + n * step;
      var r, tail := Range(lo, lo + n * step, step), Range(lo + step, lo + n * step, step);
      assert r == [lo] + tail;
      forall i | 0 <= i < n ensures r[i] == lo + i * step {
        if i > 0 {
          assert tail[i - 1] == lo + step + (i - 1) * step;
        }
      }
    }
  }

  /** Emission number i is i steps after the first. */
  ghost predicate GridTimes(times: seq<int>, first: int, step: nat) {
    forall i | 0 <= i < |times| :: times[i] == first + i * step
  }

  lemma GridTimesAppend(times: seq<int>, gap: seq<int>, first: int, step: nat, last: int)
    requires times != [] && GridTimes(times, first, step)
    requires GridTimes(gap, times[|times| - 1] + step, step) && last == times[|times| - 1] + step + |gap| * step
    ensures GridTimes(times + gap + [last], first, step)
  {
    var all := times + gap + [last];
    var m := |times| - 1;
    forall i | 0 <= i < |all| ensures all[i] == first + i * step {
      if i > m {
        assert all[i] == times[m] + step + (i - m - 1) * step by {
          if i < |times| + |gap| {
            assert all[i] == gap[i - m - 1];
          }
        }
        assert m * step + step + (i - m - 1) * step == i * step;
      }
    }
  }

  lemma FactorOrder(a: int, b: int, step: nat)
    requires a * step < b * step
    ensures a < b
  {
    assert a * step == b * step + (a - b) * step;
    if a >= b {
      ProductNonnegative(a - b, step);
    }
  }

  lemma ProductNonnegative(a: nat, b: nat)
    ensures a * b >= 0
  {
  }

  /** With every frame on the grid, NO_DATA emits each grid point from the first frame to the last exactly once. */
  lemma {:induction false} NoDataGrid(codec: Codec, frames: seq<EncodedFrame>)
    requires SortedByTime(frames) && OnGrid(frames, TimestampStep(codec)) && frames != []
    ensures var times := Times(Emissions(codec, NoData, None, frames));
            GridTimes(times, frames[0].mediaTimestamp, TimestampStep(codec))
  {
    hide Emissions, TimestampStep, Range, Times;
    var front, last := frames[..|frames| - 1], frames[|frames| - 1];
    var step, first := TimestampStep(codec), frames[0].mediaTimestamp;
    assert frames == front + [last];
    if front == [] {
      OneTime(codec, last);
    } else {
      TimesAppend(codec, None, front, last);
      NoDataGrid(codec, front);
      NoDataSteady(codec, front);
      assert front[|front| - 1].mediaTimestamp < last.mediaTimestamp;
      var k: nat :| last.mediaTimestamp == first + k * step;
      GridStep(codec, Times(Emissions(codec, NoData, None, front)), front, last, k);
    }
  }

  lemma GridStep(codec: Codec, times: seq<int>, front: seq<EncodedFrame>, last: EncodedFrame, k: nat)
    requires var step := TimestampStep(codec);
             && Spans(times, front, step) && GridTimes(times, times[0], step)
             && front[|front| - 1].mediaTimestamp < last.mediaTimestamp == times[0] + k * step
    ensures GridTimes(times + Missing(codec, CommittedAfter(None, front), last.mediaTimestamp) + [last.mediaTimestamp],
                      times[0], TimestampStep(codec))
  {
    hide TimestampStep, Range, Steady;
    var step, m := TimestampStep(codec), |times| - 1;
    assert times[m] == times[0] + m * step;
    FactorOrder(m, k, step);
    assert times[m] + step + (k - m - 1) * step == last.mediaTimestamp by {
      assert m * step + step + (k - m - 1) * step == k * step;
    }
    RangeOnGrid(times[m] + step, k - m - 1, step);
    GridTimesAppend(times, Range(times[m] + step, last.mediaTimestamp, step), times[0], step, last.mediaTimestamp);
  }

  /** A run whose released frames are on the grid emits (last - first) / step + 1 frames. */
  lemma RunOutputCount(cfg: Config, records: seq<RtpRecord>)
    requires cfg.policy == NoData && Complete(cfg, records).released != []
    requires OnGrid(Complete(cfg, records).released, TimestampStep(cfg.codec))
    ensures var t := Complete(cfg, records);
            var first, last := t.released[0].mediaTimestamp, t.released[|t.released| - 1].mediaTimestamp;
            && (|t.emitted| - 1) * TimestampStep(cfg.codec) == last - first
            && GridTimes(Times(t.emitted), first, TimestampStep(cfg.codec))
  {
    hide Emissions, Gaps, Complete, InOrder, TimestampStep, Steady, OnGrid;
    CompleteIsSorting(cfg, records);
    ReleasedSorted(cfg, records);
    NoDataSteady(cfg.codec, Complete(cfg, records).released);
    NoDataGrid(cfg.codec, Complete(cfg, records).released);
  }

  // ---------------------------------------------------------------------------------------------
  // The two policies
  // ---------------------------------------------------------------------------------------------

  /** The emissions that carry a received frame. */
  function Real(emissions: seq<Emission>): seq<Emission> {
    if emissions == [] then []
    else
      Real(emissions[..|emissions| - 1])
      + (if emissions[|emissions| - 1].synthetic then [] else [emissions[|emissions| - 1]])
  }

  /** inserted_no_data_count once these emissions are drained. */
  function Inserted(emissions: seq<Emission>): nat {
    if emissions == [] then 0
    else Inserted(emissions[..|emissions| - 1]) + (if emissions[|emissions| - 1].synthetic then 1 else 0)
  }

  lemma {:induction false} RealConcat(a: seq<Emission>, b: seq<Emission>)
    ensures Real(a + b) == Real(a) + Real(b)
    ensures Inserted(a + b) == Inserted(a) + Inserted(b)
  {
    if b == [] {
      assert a + b == a;
    } else {
      RealConcat(a, b[..|b| - 1]);
      assert (a + b)[..|a + b| - 1] == a + b[..|b| - 1];
    }
  }

  lemma {:induction false} RealFill(codec: Codec, times: seq<int>)
    ensures Real(Fill(codec, times)) == [] && Inserted(Fill(codec, times)) == |times|
  {
    if times != [] {
      RealFill(codec, times[..|times| - 1]);
      assert Fill(codec, times)[..|times| - 1] == Fill(codec, times[..|times| - 1]);
    }
  }

  lemma RealAt(codec: Codec, committed: Option<int>, frame: EncodedFrame)
    ensures Real(EmissionsAt(codec, NoData, committed, frame)) == EmissionsAt(codec, Omit, committed, frame)
    ensures Inserted(EmissionsAt(codec, NoData, committed, frame)) == |Missing(codec, committed, frame.mediaTimestamp)|
    ensures Inserted(EmissionsAt(codec, Omit, committed, frame)) == 0
  {
    hide Missing, Fill;
    var times := Missing(codec, committed, frame.mediaTimestamp);
    RealFill(codec, times);
    RealConcat(Fill(codec, times), [Emission(frame, false)]);
    assert [] + [Emission(frame, false)] == [Emission(frame, false)];
    RealOne(Emission(frame, false));
  }

  lemma RealOne(e: Emission)
    ensures !e.synthetic ==> Real([e]) == [e] && Inserted([e]) == 0
  {
    assert [e][..0] == [];
  }

  lemma {:induction false} PoliciesAgree(codec: Codec, committed: Option<int>, frames: seq<EncodedFrame>)
    ensures Real(Emissions(codec, NoData, committed, frames)) == Emissions(codec, Omit, committed, frames)
    ensures Inserted(Emissions(codec, NoData, committed, frames)) == Gaps(codec, committed, frames)
    ensures Inserted(Emissions(codec, Omit, committed, frames)) == 0
  {
    hide EmissionsAt, Missing, Emissions, Gaps, CommittedAfter, Real, Inserted;
    if frames == [] {
      EmissionsNothing(codec, NoData, committed);
      EmissionsNothing(codec, Omit, committed);
      RealNothing();
    } else {
      var front, last := frames[..|frames| - 1], frames[|frames| - 1];
      PoliciesAgree(codec, committed, front);
      assert frames == front + [last];
      EmissionsLast(codec, NoData, committed, front, last);
      EmissionsLast(codec, Omit, committed, front, last);
      RealConcat(Emissions(codec, NoData, committed, front),
                 EmissionsAt(codec, NoData, CommittedAfter(committed, front), last));
      RealConcat(Emissions(codec, Omit, committed, front),
                 EmissionsAt(codec, Omit, CommittedAfter(committed, front), last));
      RealAt(codec, CommittedAfter(committed, front), last);
    }
  }

  lemma RealNothing()
    ensures Real([]) == [] && Inserted([]) == 0
  {
  }

  lemma OutcomeIgnoresPolicy(cfg: Config, s: State, record: RtpRecord)
    ensures OutcomeOf(cfg.(policy := NoData), s, record) == OutcomeOf(cfg.(policy := Omit), s, record)
  {
    hide Holds, Retained, IdentityOf, ExtendWrapping;
  }

  lemma AcceptIgnoresPolicy(
    cfg: Config, s: State, record: RtpRecord, sequence: int, timestamp: int, frames: seq<EncodedFrame>)
    ensures Accept(cfg.(policy := NoData), s, record, sequence, timestamp, frames)
            == Accept(cfg.(policy := Omit), s, record, sequence, timestamp, frames)
    ensures ReleasedBy(cfg.(policy := NoData), s, timestamp, frames)
            == ReleasedBy(cfg.(policy := Omit), s, timestamp, frames)
  {
    hide InOrder, InsertAll, OnTime, Gaps, Overlaps, Retained, AtMost, Above, IdentityOf, HighestAfter;
  }

  lemma PushIgnoresPolicy(cfg: Config, s: State, record: RtpRecord)
    ensures var a := PushRecord(cfg.(policy := NoData), s, record);
            var b := PushRecord(cfg.(policy := Omit), s, record);
            a.state == b.state && a.outcome == b.outcome && a.released == b.released
  {
    hide OutcomeOf, Accept, ReleasedBy, Retained, Emissions, IdentityOf, ExtendedSequence, ExtendedTimestamp;
    OutcomeIgnoresPolicy(cfg, s, record);
    var outcome := OutcomeOf(cfg.(policy := NoData), s, record);
    if outcome.Accepted? {
      AcceptIgnoresPolicy(cfg, s, record, outcome.sequence, outcome.timestamp, outcome.frames);
    }
  }

  /** The state, the exits and the released frames of a run do not depend on the gap policy. */
  lemma {:induction false} RunIgnoresPolicy(cfg: Config, records: seq<RtpRecord>)
    ensures var a, b := Run(cfg.(policy := NoData), records), Run(cfg.(policy := Omit), records);
            a.state == b.state && a.outcomes == b.outcomes && a.released == b.released
  {
    if records != [] {
      hide PushRecord, Run;
      var front := records[..|records| - 1];
      RunIgnoresPolicy(cfg, front);
      RunUnfold(cfg.(policy := NoData), records);
      RunUnfold(cfg.(policy := Omit), records);
      PushIgnoresPolicy(cfg, Run(cfg.(policy := NoData), front).state, records[|records| - 1]);
    }
  }

  /**
   * On the same pushes, erasing the synthetic frames of the NO_DATA output gives the OMIT output, both count
   * the same gaps, and draining NO_DATA inserts exactly that many frames.
   */
  lemma ErasingGivesOmit(cfg: Config, records: seq<RtpRecord>)
    ensures var filled, omitted := Complete(cfg.(policy := NoData), records), Complete(cfg.(policy := Omit), records);
            && Real(filled.emitted) == omitted.emitted
            && filled.state.counters.gaps == omitted.state.counters.gaps == Inserted(filled.emitted)
            && Inserted(omitted.emitted) == 0
  {
    hide Run, Emissions, Gaps, Real, Inserted, InOrder, Best;
    RunIgnoresPolicy(cfg, records);
    CompleteIsSorting(cfg.(policy := NoData), records);
    CompleteIsSorting(cfg.(policy := Omit), records);
    hide FinishState, CommittedAfter;
    PoliciesAgree(cfg.codec, None, Complete(cfg.(policy := Omit), records).released);
  }
}
