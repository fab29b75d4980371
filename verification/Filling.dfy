/** What the storage file holds when gaps are filled: one frame for each step from the first to the last. */
module Filling {
  import opened Models
  import opened Bits
  import opened CodecTables
  import opened Rfc4867
  import opened Storage
  import opened IntKeys
  import opened Timeline
  import opened Buffering
  import opened Runs
  import opened Emitting
  import opened Reordering
  import opened EndToEnd
  import opened StoredRuns

  const NO_DATA_BODY := Body(15, false, [])

  // ---------------------------------------------------------------------------------------------
  // Emissions one by one
  // ---------------------------------------------------------------------------------------------

  /** A received frame, or a NO_DATA frame of its own. */
  ghost predicate FromOrFilled(codec: Codec, frames: seq<EncodedFrame>, e: Emission) {
    if e.synthetic then e.frame == NoDataFrame(codec, e.frame.mediaTimestamp)
    else exists i :: 0 <= i < |frames| && frames[i] == e.frame
  }

  ghost predicate AllFromOrFilled(codec: Codec, frames: seq<EncodedFrame>, emissions: seq<Emission>) {
    forall k | 0 <= k < |emissions| :: FromOrFilled(codec, frames, emissions[k])
  }

  lemma FromLonger(codec: Codec, frames: seq<EncodedFrame>, last: EncodedFrame, emissions: seq<Emission>)
    requires AllFromOrFilled(codec, frames, emissions)
    ensures AllFromOrFilled(codec, frames + [last], emissions)
  {
    var all := frames + [last];
    forall k | 0 <= k < |emissions| ensures FromOrFilled(codec, all, emissions[k]) {
      assert FromOrFilled(codec, frames, emissions[k]);
      if !emissions[k].synthetic {
        var i :| 0 <= i < |frames| && frames[i] == emissions[k].frame;
        assert all[i] == emissions[k].frame;
      }
    }
  }

  lemma FromStep(codec: Codec, committed: Option<int>, front: seq<EncodedFrame>, last: EncodedFrame)
    ensures AllFromOrFilled(codec, front + [last], EmissionsAt(codec, NoData, committed, last))
  {
    hide Missing;
    assert (front + [last])[|front|] == last;
  }

  lemma FromJoin(codec: Codec, frames: seq<EncodedFrame>, a: seq<Emission>, b: seq<Emission>)
    requires AllFromOrFilled(codec, frames, a) && AllFromOrFilled(codec, frames, b)
    ensures AllFromOrFilled(codec, frames, a + b)
  {
    hide FromOrFilled;
  }

  lemma {:induction false} EmittedFrom(codec: Codec, frames: seq<EncodedFrame>)
    ensures AllFromOrFilled(codec, frames, Emissions(codec, NoData, None, frames))
  {
    hide Emissions, Gaps, EmissionsAt, AllFromOrFilled, CommittedAfter;
    if frames == [] {
      EmissionsNothing(codec, NoData, None);
      assert frames == [];
      NothingFrom(codec);
    } else {
      var front, last := frames[..|frames| - 1], frames[|frames| - 1];
      assert frames == front + [last];
      EmittedFrom(codec, front);
      EmissionsLast(codec, NoData, None, front, last);
      FromLonger(codec, front, last, Emissions(codec, NoData, None, front));
      FromStep(codec, CommittedAfter(None, front), front, last);
      FromJoin(codec, frames, Emissions(codec, NoData, None, front),
               EmissionsAt(codec, NoData, CommittedAfter(None, front), last));
    }
  }

  lemma NothingFrom(codec: Codec)
    ensures AllFromOrFilled(codec, [], [])
  {
  }

  ghost predicate Emitted(emissions: seq<Emission>, frame: EncodedFrame) {
    exists k :: 0 <= k < |emissions| && emissions[k] == Emission(frame, false)
  }

  lemma EmittedLonger(emissions: seq<Emission>, more: seq<Emission>, frame: EncodedFrame)
    requires Emitted(emissions, frame) || Emitted(more, frame)
    ensures Emitted(emissions + more, frame)
  {
    if Emitted(emissions, frame) {
      var k :| 0 <= k < |emissions| && emissions[k] == Emission(frame, false);
      assert (emissions + more)[k] == Emission(frame, false);
    } else {
      var k :| 0 <= k < |more| && more[k] == Emission(frame, false);
      assert (emissions + more)[|emissions| + k] == Emission(frame, false);
    }
  }

  lemma {:induction false} AllEmitted(codec: Codec, frames: seq<EncodedFrame>, i: nat)
    requires i < |frames|
    ensures Emitted(Emissions(codec, NoData, None, frames), frames[i])
  {
    hide Emissions, Gaps, EmissionsAt, Emitted, CommittedAfter;
    var front, last := frames[..|frames| - 1], frames[|frames| - 1];
    assert frames == front + [last];
    EmissionsLast(codec, NoData, None, front, last);
    if i < |front| {
      AllEmitted(codec, front, i);
    } else {
      EmittedAtOnce(codec, CommittedAfter(None, front), last);
    }
    EmittedLonger(Emissions(codec, NoData, None, front), EmissionsAt(codec, NoData, CommittedAfter(None, front), last),
                  frames[i]);
  }

  lemma EmittedAtOnce(codec: Codec, committed: Option<int>, frame: EncodedFrame)
    ensures Emitted(EmissionsAt(codec, NoData, committed, frame), frame)
  {
    hide Missing, Fill;
    var emissions := EmissionsAt(codec, NoData, committed, frame);
    assert emissions[|emissions| - 1] == Emission(frame, false);
  }

  // ---------------------------------------------------------------------------------------------
  // The bodies of a filled stream
  // ---------------------------------------------------------------------------------------------

  /** The body at one step: that of the frame there, or NO_DATA when there is none. */
  ghost predicate BodyAt(times: seq<int>, bodies: seq<Body>, t: int, body: Body)
    requires |times| == |bodies|
  {
    if t in times then exists i :: 0 <= i < |times| && times[i] == t && bodies[i] == body
    else body == NO_DATA_BODY
  }

  /** One body for each step from the first time to the last, the given ones at their times and NO_DATA elsewhere. */
  ghost predicate Fills(filled: seq<Body>, times: seq<int>, bodies: seq<Body>, step: nat) {
    && |times| == |bodies|
    && (times == [] ==> filled == [])
    && (times != [] ==>
          && (|filled| - 1) * step == times[|times| - 1] - times[0]
          && (forall i | 0 <= i < |times| :: StepsOn(times[0], times[i], step))
          && (forall k | 0 <= k < |filled| :: BodyAt(times, bodies, times[0] + k * step, filled[k])))
  }

  function TimesOf(frames: seq<EncodedFrame>): (times: seq<int>)
    ensures |times| == |frames|
  {
    seq(|frames|, i requires 0 <= i < |frames| => frames[i].mediaTimestamp)
  }

  /** The body that one emission of a filled stream packs. */
  lemma FilledBody(codec: Codec, frames: seq<EncodedFrame>, bodies: seq<Body>, emissions: seq<Emission>, k: nat)
    returns (body: Body)
    requires SortedByTime(frames) && AllPack(codec, frames, bodies)
    requires emissions == Emissions(codec, NoData, None, frames) && StrictlySorted(Times(emissions)) && k < |emissions|
    ensures emissions[k].frame.codec == codec && Packs(emissions[k].frame, body)
    ensures BodyAt(TimesOf(frames), bodies, emissions[k].frame.mediaTimestamp, body)
  {
    hide Emissions, Packs, Emitted;
    EmittedFrom(codec, frames);
    var e, times := emissions[k], TimesOf(frames);
    assert FromOrFilled(codec, frames, e);
    if e.synthetic {
      body := NO_DATA_BODY;
      NoDataPacks(codec, e.frame.mediaTimestamp);
      if e.frame.mediaTimestamp in times {
        var i :| 0 <= i < |times| && times[i] == e.frame.mediaTimestamp;
        AllEmitted(codec, frames, i);
        EmittedElsewhere(emissions, frames[i], k);
      }
    } else {
      var i :| 0 <= i < |frames| && frames[i] == e.frame;
      assert times[i] == e.frame.mediaTimestamp && Packs(frames[i], bodies[i]);
      body := bodies[i];
    }
  }

  lemma EmittedElsewhere(emissions: seq<Emission>, frame: EncodedFrame, k: nat)
    requires Emitted(emissions, frame) && StrictlySorted(Times(emissions)) && k < |emissions|
    ensures emissions[k].frame.mediaTimestamp == frame.mediaTimestamp ==> !emissions[k].synthetic
  {
    var j :| 0 <= j < |emissions| && emissions[j] == Emission(frame, false);
    var times := Times(emissions);
    assert times[j] == frame.mediaTimestamp && times[k] == emissions[k].frame.mediaTimestamp;
    assert j < k ==> times[j] < times[k];
    assert k < j ==> times[k] < times[j];
  }

  lemma NoDataPacks(codec: Codec, t: int)
    ensures Packs(NoDataFrame(codec, t), NO_DATA_BODY) && NoDataFrame(codec, t).codec == codec
  {
    hide Pack;
    PackNothing();
  }

  lemma {:induction false} FilledBodies(
    codec: Codec, frames: seq<EncodedFrame>, bodies: seq<Body>, emissions: seq<Emission>, n: nat)
    returns (filled: seq<Body>)
    requires SortedByTime(frames) && AllPack(codec, frames, bodies) && n <= |emissions|
    requires emissions == Emissions(codec, NoData, None, frames) && StrictlySorted(Times(emissions))
    ensures AllPack(codec, FramesIn(emissions[..n]), filled) && |filled| == n
    ensures forall k | 0 <= k < n :: BodyAt(TimesOf(frames), bodies, emissions[k].frame.mediaTimestamp, filled[k])
  {
    hide Emissions, Packs, BodyAt, TimesOf;
    filled := [];
    if n > 0 {
      var front := FilledBodies(codec, frames, bodies, emissions, n - 1);
      var body := FilledBody(codec, frames, bodies, emissions, n - 1);
      filled := front + [body];
      assert forall k | 0 <= k < n - 1 :: FramesIn(emissions[..n])[k] == FramesIn(emissions[..n - 1])[k];
    }
  }

  /** Frames on the grid, emitted with their gaps filled, pack one body for each step. */
  lemma FilledStream(codec: Codec, frames: seq<EncodedFrame>, bodies: seq<Body>) returns (filled: seq<Body>)
    requires SortedByTime(frames) && AllPack(codec, frames, bodies) && OnGrid(frames, TimestampStep(codec))
    ensures AllPack(codec, FramesIn(Emissions(codec, NoData, None, frames)), filled)
    ensures Fills(filled, TimesOf(frames), bodies, TimestampStep(codec))
  {
    hide Emissions, Gaps, TimestampStep, AllPack, BodyAt, Steady;
    var emissions, step := Emissions(codec, NoData, None, frames), TimestampStep(codec);
    if frames == [] {
      EmissionsNothing(codec, NoData, None);
      assert frames == [];
      filled := FilledNothing(codec, bodies, emissions);
    } else {
      NoDataSteady(codec, frames);
      NoDataGrid(codec, frames);
      SteadySorted(Times(emissions), step);
      filled := FilledBodies(codec, frames, bodies, emissions, |emissions|);
      assert emissions[..|emissions|] == emissions;
      PackedSame(codec, frames, bodies);
      GridFills(filled, frames, bodies, emissions, step);
    }
  }

  lemma FilledNothing(codec: Codec, bodies: seq<Body>, emissions: seq<Emission>) returns (filled: seq<Body>)
    requires emissions == [] && AllPack(codec, [], bodies)
    ensures AllPack(codec, FramesIn(emissions), filled) && Fills(filled, TimesOf([]), bodies, TimestampStep(codec))
  {
    filled := [];
  }

  lemma PackedSame(codec: Codec, frames: seq<EncodedFrame>, bodies: seq<Body>)
    requires AllPack(codec, frames, bodies)
    ensures |frames| == |bodies|
  {
  }

  lemma GridFills(
    filled: seq<Body>, frames: seq<EncodedFrame>, bodies: seq<Body>, emissions: seq<Emission>, step: nat)
    requires frames != [] && |frames| == |bodies| && |filled| == |emissions| && OnGrid(frames, step)
    requires Spans(Times(emissions), frames, step) && GridTimes(Times(emissions), frames[0].mediaTimestamp, step)
    requires forall k | 0 <= k < |emissions| ::
               BodyAt(TimesOf(frames), bodies, emissions[k].frame.mediaTimestamp, filled[k])
    ensures Fills(filled, TimesOf(frames), bodies, step)
  {
    hide BodyAt, Steady;
    var times := Times(emissions);
    assert times[|times| - 1] == frames[0].mediaTimestamp + (|times| - 1) * step;
    forall k | 0 <= k < |filled|
      ensures BodyAt(TimesOf(frames), bodies, frames[0].mediaTimestamp + k * step, filled[k])
    {
      assert times[k] == frames[0].mediaTimestamp + k * step == emissions[k].frame.mediaTimestamp;
    }
  }

  // ---------------------------------------------------------------------------------------------
  // A sender's speech
  // ---------------------------------------------------------------------------------------------

  lemma MovedOnGrid(frames: seq<EncodedFrame>, d: int, step: nat)
    requires OnGrid(frames, step)
    ensures OnGrid(MovedAll(frames, d), step)
  {
    forall i | 0 <= i < |frames|
      ensures StepsOn(frames[0].mediaTimestamp + d, frames[i].mediaTimestamp + d, step)
    {
      assert StepsOn(frames[0].mediaTimestamp, frames[i].mediaTimestamp, step);
      var k: nat :| frames[i].mediaTimestamp == frames[0].mediaTimestamp + k * step;
      assert frames[i].mediaTimestamp + d == frames[0].mediaTimestamp + d + k * step;
    }
  }

  ghost predicate MovedTimes(times: seq<int>, moved: seq<int>, d: int) {
    |times| == |moved| && forall i | 0 <= i < |times| :: moved[i] == times[i] + d
  }

  lemma BodyAtMoved(times: seq<int>, moved: seq<int>, bodies: seq<Body>, d: int, t: int, body: Body)
    requires |times| == |bodies| && MovedTimes(times, moved, d)
    requires BodyAt(moved, bodies, t + d, body)
    ensures BodyAt(times, bodies, t, body)
  {
    if t in times {
      var i :| 0 <= i < |times| && times[i] == t;
      assert moved[i] == t + d;
    }
    if t + d in moved {
      var i :| 0 <= i < |moved| && moved[i] == t + d && bodies[i] == body;
      assert times[i] == t;
    }
  }

  lemma FillsMoved(filled: seq<Body>, times: seq<int>, moved: seq<int>, bodies: seq<Body>, step: nat, d: int)
    requires MovedTimes(times, moved, d) && Fills(filled, moved, bodies, step)
    ensures Fills(filled, times, bodies, step)
  {
    hide BodyAt;
    forall i | 0 <= i < |times| ensures StepsOn(times[0], times[i], step) {
      assert StepsOn(moved[0], moved[i], step);
      var k: nat :| moved[i] == moved[0] + k * step;
      assert times[i] == times[0] + k * step;
    }
    if times != [] {
      forall k | 0 <= k < |filled| ensures BodyAt(times, bodies, times[0] + k * step, filled[k]) {
        assert BodyAt(moved, bodies, moved[0] + k * step, filled[k]);
        BodyAtMoved(times, moved, bodies, d, times[0] + k * step, filled[k]);
      }
    }
  }

  /** The bodies as they are, or with the gaps between their times filled. */
  ghost predicate StoresAt(cfg: Config, times: seq<int>, bodies: seq<Body>, stored: seq<Body>) {
    match cfg.policy
    case Omit => stored == bodies
    case NoData => Fills(stored, times, bodies, TimestampStep(cfg.codec))
  }

  lemma StoredFrom(cfg: Config, times: seq<int>, bodies: seq<Body>, released: seq<EncodedFrame>, d: int)
    returns (stored: seq<Body>)
    requires AllPack(cfg.codec, released, bodies) && OnGrid(released, TimestampStep(cfg.codec))
    requires SortedByTime(released) && MovedTimes(times, TimesOf(released), d)
    ensures StoresAt(cfg, times, bodies, stored)
    ensures AllPack(cfg.codec, FramesIn(Emissions(cfg.codec, cfg.policy, None, released)), stored)
  {
    hide Emissions, Gaps, AllPack, OnGrid, SortedByTime, Fills, TimestampStep, TimesOf, Adjacent, MovedTimes, FramesIn;
    var codec := cfg.codec;
    if cfg.policy.Omit? {
      EmitsExactly(codec, Omit, released);
      stored := bodies;
    } else {
      stored := FilledStream(codec, released, bodies);
      FillsMoved(stored, times, TimesOf(released), bodies, TimestampStep(codec), d);
    }
  }

  lemma EmitsReleased(cfg: Config, records: seq<RtpRecord>)
    ensures Complete(cfg, records).emitted == Emissions(cfg.codec, cfg.policy, None, Complete(cfg, records).released)
  {
    hide Emissions, Gaps, Complete, InOrder, Best;
    CompleteIsSorting(cfg, records);
  }

  /** Times one step apart, with nothing left out. */
  predicate Gapless(times: seq<int>, step: nat) {
    forall i | 0 <= i < |times| - 1 :: times[i + 1] == times[i] + step
  }

  lemma {:induction false} GaplessAt(times: seq<int>, step: nat, i: nat)
    requires Gapless(times, step) && i < |times|
    ensures times[i] == times[0] + i * step
  {
    if i > 0 {
      GaplessAt(times, step, i - 1);
      assert times[i - 1 + 1] == times[i - 1] + step;
      assert (i - 1) * step + step == i * step;
    }
  }

  /** With nothing to fill, filling changes nothing. */
  lemma GaplessFills(filled: seq<Body>, times: seq<int>, bodies: seq<Body>, step: nat)
    requires step > 0 && Gapless(times, step) && Fills(filled, times, bodies, step)
    ensures filled == bodies
  {
    hide BodyAt, Gapless;
    if times != [] {
      var n := |times| - 1;
      GaplessAt(times, step, n);
      FactorEqual(|filled| - 1, n, step);
      forall k | 0 <= k < |times| ensures filled[k] == bodies[k] {
        GaplessAt(times, step, k);
        assert BodyAt(times, bodies, times[0] + k * step, filled[k]);
        GaplessBody(times, bodies, step, k, filled[k]);
      }
    }
  }

  lemma GaplessBody(times: seq<int>, bodies: seq<Body>, step: nat, k: nat, body: Body)
    requires step > 0 && Gapless(times, step) && |times| == |bodies| && k < |times|
    requires BodyAt(times, bodies, times[k], body)
    ensures body == bodies[k]
  {
    hide Gapless;
    var i :| 0 <= i < |times| && times[i] == times[k] && bodies[i] == body;
    GaplessAt(times, step, i);
    GaplessAt(times, step, k);
    FactorEqual(i, k, step);
  }
}
