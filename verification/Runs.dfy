/** Whole runs of one timeline: what comes out, and in what order. */
module Runs {
  import opened Models
  import opened Timeline
  import opened Buffering

  // ---------------------------------------------------------------------------------------------
  // Emissions follow the released frames
  // ---------------------------------------------------------------------------------------------

  lemma CommittedAfterConcat(committed: Option<int>, a: seq<EncodedFrame>, b: seq<EncodedFrame>)
    ensures CommittedAfter(committed, a + b) == CommittedAfter(CommittedAfter(committed, a), b)
  {
    if b == [] {
      assert a + b == a;
    }
  }

  lemma EmissionsLast(
    codec: Codec, policy: GapPolicy, committed: Option<int>, front: seq<EncodedFrame>, last: EncodedFrame)
    ensures Emissions(codec, policy, committed, front + [last])
            == Emissions(codec, policy, committed, front)
               + EmissionsAt(codec, policy, CommittedAfter(committed, front), last)
    ensures Gaps(codec, committed, front + [last])
            == Gaps(codec, committed, front) + |Missing(codec, CommittedAfter(committed, front), last.mediaTimestamp)|
  {
    hide EmissionsAt, Missing;
    assert (front + [last])[..|front|] == front;
  }

  lemma EmissionsNothing(codec: Codec, policy: GapPolicy, committed: Option<int>)
    ensures Emissions(codec, policy, committed, []) == [] && Gaps(codec, committed, []) == 0
    ensures CommittedAfter(committed, []) == committed
  {
  }

  lemma {:induction false} EmissionsConcat(
    codec: Codec, policy: GapPolicy, committed: Option<int>, a: seq<EncodedFrame>, b: seq<EncodedFrame>)
    ensures Emissions(codec, policy, committed, a + b)
            == Emissions(codec, policy, committed, a) + Emissions(codec, policy, CommittedAfter(committed, a), b)
    ensures Gaps(codec, committed, a + b) == Gaps(codec, committed, a) + Gaps(codec, CommittedAfter(committed, a), b)
  {
    hide EmissionsAt, Missing, Emissions, Gaps, CommittedAfter;
    if b == [] {
      assert a + b == a;
      EmissionsNothing(codec, policy, CommittedAfter(committed, a));
    } else {
      var front, last := b[..|b| - 1], b[|b| - 1];
      EmissionsConcat(codec, policy, committed, a, front);
      EmissionsLast(codec, policy, committed, a + front, last);
      EmissionsLast(codec, policy, CommittedAfter(committed, a), front, last);
      CommittedAfterConcat(committed, a, front);
      assert a + b == a + front + [last] && b == front + [last];
    }
  }

  // ---------------------------------------------------------------------------------------------
  // One push
  // ---------------------------------------------------------------------------------------------

  lemma {:induction false} OnTimeAbove(c: int, frames: seq<EncodedFrame>)
    ensures AllAbove(OnTime(Some(c), frames), c)
  {
    if frames != [] {
      OnTimeAbove(c, frames[..|frames| - 1]);
    }
  }

  lemma InsertAfter(all: Pending, committed: Option<int>, frames: seq<EncodedFrame>)
    ensures var timely := OnTime(committed, frames);
            After(InsertAll(all, timely), committed) == InsertAll(After(all, committed), timely)
            && Through(InsertAll(all, timely), committed) == Through(all, committed)
  {
    hide InsertAll, OnTime, AtMost, Above;
    if committed.Some? {
      OnTimeAbove(committed.value, frames);
      InsertAllAbove(all, OnTime(committed, frames), committed.value);
    }
  }

  /** What a state and its released frames say about the frames that entered the buffer. */
  ghost predicate Releases(all: Pending, s: State, released: seq<EncodedFrame>) {
    && Keyed(all)
    && s.pending == After(all, s.committed)
    && released == InOrder(Through(all, s.committed))
    && s.committed == CommittedAfter(None, released)
  }

  lemma AcceptReleases(
    cfg: Config, s: State, record: RtpRecord, sequence: int, timestamp: int, frames: seq<EncodedFrame>,
    all: Pending, released: seq<EncodedFrame>)
    requires Releases(all, s, released)
    ensures Releases(InsertAll(all, OnTime(s.committed, frames)), Accept(cfg, s, record, sequence, timestamp, frames),
                     released + ReleasedBy(cfg, s, timestamp, frames))
  {
    hide InsertAll, OnTime, InOrder, After, Through, Above, AtMost, Higher, CountersAfter, Retained, Keyed;
    var all' := InsertAll(all, OnTime(s.committed, frames));
    InsertAllKeys(all, OnTime(s.committed, frames));
    InsertAfter(all, s.committed, frames);
    ReleaseStep(all', s.committed, WatermarkAfter(cfg, s, timestamp, frames));
    CommittedAfterConcat(None, released, ReleasedBy(cfg, s, timestamp, frames));
  }

  /** Only the accepted exit moves the buffer, the high marks and the committed timestamp. */
  lemma PushExits(cfg: Config, s: State, record: RtpRecord)
    ensures var p := PushRecord(cfg, s, record);
            match OutcomeOf(cfg, s, record)
            case Accepted(sequence, timestamp, frames) =>
              && p.state == Accept(cfg, s, record, sequence, timestamp, frames)
              && p.released == ReleasedBy(cfg, s, timestamp, frames)
            case _ =>
              && p.state.pending == s.pending && p.state.committed == s.committed
              && p.state.highestSequence == s.highestSequence && p.state.highestTimestamp == s.highestTimestamp
              && p.released == [] && p.emitted == []
  {
    hide OutcomeOf, Accept, ReleasedBy, Retained, Note, Emissions, IdentityOf, ExtendedSequence, ExtendedTimestamp;
  }

  lemma PushReleases(cfg: Config, s: State, record: RtpRecord, all: Pending, released: seq<EncodedFrame>)
    requires Releases(all, s, released)
    ensures var p := PushRecord(cfg, s, record);
            Releases(InsertAll(all, TimelyFrames(s.committed, p.outcome)), p.state, released + p.released)
  {
    hide OutcomeOf, PushRecord, Accept, ReleasedBy, InsertAll, OnTime, After, Through, Keyed, InOrder, CommittedAfter;
    PushExits(cfg, s, record);
    PushOutcome(cfg, s, record);
    match OutcomeOf(cfg, s, record)
    case Accepted(sequence, timestamp, frames) =>
      AcceptReleases(cfg, s, record, sequence, timestamp, frames, all, released);
    case _ =>
      InsertNothing(all);
      assert released + [] == released;
  }

  lemma InsertNothing(all: Pending)
    ensures InsertAll(all, []) == all
  {
  }

  /** The emissions and gap count of a push are those of the frames it releases. */
  lemma PushEmits(cfg: Config, s: State, record: RtpRecord)
    ensures var p := PushRecord(cfg, s, record);
            && p.emitted == Emissions(cfg.codec, cfg.policy, s.committed, p.released)
            && p.state.committed == CommittedAfter(s.committed, p.released)
            && p.state.counters.gaps == s.counters.gaps + Gaps(cfg.codec, s.committed, p.released)
            && p.state.finished == s.finished
  {
    hide OutcomeOf, ReleasedBy, Retained, OnTime, Higher, BufferedAfter, WatermarkAfter, HighestAfter, Overlaps;
    hide LastTimestamp, IdentityOf, ExtendedSequence, ExtendedTimestamp;
  }

  // ---------------------------------------------------------------------------------------------
  // Runs
  // ---------------------------------------------------------------------------------------------

  lemma RunUnfold(cfg: Config, records: seq<RtpRecord>)
    requires records != []
    ensures var t := Run(cfg, records[..|records| - 1]);
            var p := PushRecord(cfg, t.state, records[|records| - 1]);
            && Run(cfg, records)
               == Trace(p.state, t.outcomes + [p.outcome], t.released + p.released, t.emitted + p.emitted)
            && Timely(cfg, records)
               == Timely(cfg, records[..|records| - 1]) + TimelyFrames(t.state.committed, p.outcome)
  {
    hide PushRecord, OutcomeOf, TimelyFrames;
    PushOutcome(cfg, Run(cfg, records[..|records| - 1]).state, records[|records| - 1]);
  }

  lemma PushOutcome(cfg: Config, s: State, record: RtpRecord)
    ensures PushRecord(cfg, s, record).outcome == OutcomeOf(cfg, s, record)
  {
    hide OutcomeOf, Accept, ReleasedBy, Retained, Note, Emissions;
  }

  lemma {:induction false} RunReleases(cfg: Config, records: seq<RtpRecord>)
    ensures Releases(Best(Timely(cfg, records)), Run(cfg, records).state, Run(cfg, records).released)
  {
    if records == [] {
      InOrderNothing();
    } else {
      hide Run, Timely, PushRecord, Releases, TimelyFrames, InsertAll;
      var front := records[..|records| - 1];
      RunReleases(cfg, front);
      RunUnfold(cfg, records);
      var t := Run(cfg, front);
      PushReleases(cfg, t.state, records[|records| - 1], Best(Timely(cfg, front)), t.released);
      InsertAllConcat(map[], Timely(cfg, front),
                      TimelyFrames(t.state.committed, PushRecord(cfg, t.state, records[|records| - 1]).outcome));
    }
  }

  lemma {:induction false} RunEmits(cfg: Config, records: seq<RtpRecord>)
    ensures var t := Run(cfg, records);
            && t.emitted == Emissions(cfg.codec, cfg.policy, None, t.released)
            && t.state.committed == CommittedAfter(None, t.released)
            && t.state.counters.gaps == Gaps(cfg.codec, None, t.released)
            && !t.state.finished
  {
    if records != [] {
      hide Run, PushRecord, Emissions, Gaps, CommittedAfter, Timely;
      var front := records[..|records| - 1];
      RunEmits(cfg, front);
      RunUnfold(cfg, records);
      var t := Run(cfg, front);
      var p := PushRecord(cfg, t.state, records[|records| - 1]);
      PushEmits(cfg, t.state, records[|records| - 1]);
      EmissionsConcat(cfg.codec, cfg.policy, None, t.released, p.released);
      CommittedAfterConcat(None, t.released, p.released);
    }
  }

  /**
   * Buffering is sorting: over a whole run and finish, the real frames that come out are, in timestamp order,
   * the best frame of each timestamp among the frames that entered the buffer, and what is emitted is those
   * frames with the gaps between them.
   */
  lemma CompleteIsSorting(cfg: Config, records: seq<RtpRecord>)
    ensures var t := Complete(cfg, records);
            && t.released == InOrder(Best(Timely(cfg, records)))
            && t.emitted == Emissions(cfg.codec, cfg.policy, None, t.released)
            && t.state.counters.gaps == Gaps(cfg.codec, None, t.released)
            && t.state.pending == map[]
  {
    hide Run, Timely, InOrder, InsertAll, Emissions, Gaps, CommittedAfter;
    var t := Run(cfg, records);
    var all := Best(Timely(cfg, records));
    RunReleases(cfg, records);
    RunEmits(cfg, records);
    InOrderThrough(all, t.state.committed);
    EmissionsConcat(cfg.codec, cfg.policy, None, t.released, InOrder(t.state.pending));
    CommittedAfterConcat(None, t.released, InOrder(t.state.pending));
  }

  lemma InOrderThrough(all: Pending, committed: Option<int>)
    ensures InOrder(all) == InOrder(Through(all, committed)) + InOrder(After(all, committed))
  {
    hide InOrder;
    match committed
    case None =>
      InOrderNothing();
      assert [] + InOrder(all) == InOrder(all);
    case Some(c) => InOrderSplit(all, c);
  }
}
