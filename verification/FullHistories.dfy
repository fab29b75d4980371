/** The duplicate history is filled to its limit, and not beyond: four identities for each frame of the window. */
module FullHistories {
  import opened Models
  import opened CodecTables
  import opened Timeline
  import opened Buffering
  import opened Runs
  import opened Windows
  import opened Histories
  import opened Accounts
  import opened Wraps
  import opened ReorderWindows

  /** A packet overflows exactly when it is not a duplicate and four identities per frame of the window are held. */
  lemma OverflowIff(cfg: Config, s: State, record: RtpRecord)
    requires cfg.limits.Valid()
    ensures OutcomeOf(cfg, s, record).Overflow?
            <==> !OutcomeOf(cfg, s, record).Duplicate?
                 && |Retained(s.history, s.committed)| >= 4 * cfg.limits.reorderWindow
  {
    hide Holds, Retained, IdentityOf, ExtendedSequence, ExtendedTimestamp, OutcomeOf;
    OutcomeHistory(cfg, s, record);
  }

  /** Different packets of one time, each with at most one frame. */
  ghost predicate AtOnce(cfg: Config, records: seq<RtpRecord>, timestamp: int) {
    && 0 <= timestamp < 0x1_0000_0000
    && (forall i | 0 <= i < |records| ::
          && 0 <= records[i].sequence < 0x1_0000 && records[i].timestamp == timestamp
          && FrameCount(cfg, records[i].payload) <= 1)
    && (forall i, j | 0 <= i < j < |records| :: records[i].sequence != records[j].sequence)
  }

  ghost predicate AllAt(frames: seq<EncodedFrame>, t: int) {
    forall f | f in frames :: f.mediaTimestamp == t
  }

  lemma LatestAt(frames: seq<EncodedFrame>, high: Option<int>, t: int)
    requires AllAt(frames, t) && IsLatest(frames, high)
    ensures high == None || high == Some(t)
  {
    if high.Some? {
      var i :| 0 <= i < |frames| && frames[i].mediaTimestamp == high.value;
      assert frames[i] in frames;
    }
  }

  lemma ExtendSame(t: int, high: Option<int>)
    requires 0 <= t < 0x1_0000_0000 && (high == None || high == Some(t))
    ensures ExtendWrapping(t, high, 0x1_0000_0000) == t
  {
  }

  /** The frames of such a packet are at its own timestamp. */
  lemma OneFrame(cfg: Config, s: State, record: RtpRecord, t: int)
    requires 0 <= t < 0x1_0000_0000 && (s.highestTimestamp == None || s.highestTimestamp == Some(t))
    requires record.timestamp == t && FrameCount(cfg, record.payload) <= 1
    ensures AllAt(FramesOf(OutcomeOf(cfg, s, record)), t)
  {
    hide OutcomeOf, FrameCount, ExtendWrapping, Retained, Holds, IdentityOf, TimestampStep;
    ExtendSame(t, s.highestTimestamp);
    if OutcomeOf(cfg, s, record).Accepted? {
      AcceptedPacket(cfg, s, record);
      var o := OutcomeOf(cfg, s, record);
      assert o.frames[0].mediaTimestamp == o.timestamp + 0 * TimestampStep(cfg.codec);
    }
  }

  lemma AtOnceFront(cfg: Config, records: seq<RtpRecord>, t: int)
    requires AtOnce(cfg, records, t) && records != []
    ensures AtOnce(cfg, records[..|records| - 1], t)
  {
    hide FrameCount;
  }

  lemma {:induction false} ArrivedAtOnce(cfg: Config, records: seq<RtpRecord>, t: int)
    requires AtOnce(cfg, records, t)
    ensures AllAt(Arrived(Run(cfg, records).outcomes), t)
  {
    hide Run, PushRecord, OutcomeOf, Arrived, FramesOf, FrameCount, IsLatest;
    if records == [] {
      NothingTimely(cfg);
    } else {
      var front, last := records[..|records| - 1], records[|records| - 1];
      var tr := Run(cfg, front);
      AtOnceFront(cfg, records, t);
      ArrivedAtOnce(cfg, front, t);
      RunLatest(cfg, front);
      LatestAt(Arrived(tr.outcomes), tr.state.highestTimestamp, t);
      OneFrame(cfg, tr.state, last, t);
      RunUnfold(cfg, records);
      PushOutcome(cfg, tr.state, last);
      ArrivedAppend(tr.outcomes, OutcomeOf(cfg, tr.state, last));
    }
  }

  /** Nothing of one time is committed before something later arrives. */
  lemma NothingCommitted(cfg: Config, records: seq<RtpRecord>, t: int)
    requires cfg.limits.Valid() && AllAt(Arrived(Run(cfg, records).outcomes), t)
    ensures Run(cfg, records).state.committed == None
  {
    hide Run, Arrived, Timely, TimestampStep, CommittedAfter, HasFrameAt, Releases, TimelyOrLate;
    var s, arrived := Run(cfg, records).state, Arrived(Run(cfg, records).outcomes);
    RunEmits(cfg, records);
    if s.committed.Some? {
      var c := s.committed.value;
      LastOf(Run(cfg, records).released, s.committed);
      ReleasedIff(cfg, records, c);
      RunTimelyOrLate(cfg, records);
      TimelyAt(cfg, records, c, t);
      NotOvertaken(cfg, arrived, t);
    }
  }

  lemma TimelyAt(cfg: Config, records: seq<RtpRecord>, c: int, t: int)
    requires AllAt(Arrived(Run(cfg, records).outcomes), t)
    requires TimelyOrLate(Timely(cfg, records), Arrived(Run(cfg, records).outcomes), Run(cfg, records).state.committed)
    requires HasFrameAt(Timely(cfg, records), c)
    ensures c == t
  {
    hide Run, Arrived, Timely;
    FrameThere(Timely(cfg, records), c);
  }

  lemma NotOvertaken(cfg: Config, arrived: seq<EncodedFrame>, t: int)
    requires cfg.limits.Valid() && AllAt(arrived, t)
    ensures !Overtaken(cfg, arrived, t)
  {
    hide Overtaken;
    OvertakenBy(cfg, arrived, t);
    assert cfg.limits.reorderWindow * TimestampStep(cfg.codec) > 0;
  }

  /** Each identity held is that of one of these packets. */
  ghost predicate From(history: History, records: seq<RtpRecord>) {
    forall e | e in history ::
      exists i :: 0 <= i < |records| && e.identity.sequence % 0x1_0000 == records[i].sequence
  }

  lemma FromAppend(history: History, front: seq<RtpRecord>, last: RtpRecord, more: History)
    requires From(history, front)
    requires forall e | e in more :: e.identity.sequence % 0x1_0000 == last.sequence
    ensures From(history + more, front + [last])
  {
    var records := front + [last];
    forall e | e in history + more
      ensures exists i :: 0 <= i < |records| && e.identity.sequence % 0x1_0000 == records[i].sequence
    {
      if e in history {
        var i :| 0 <= i < |front| && e.identity.sequence % 0x1_0000 == front[i].sequence;
        assert records[i] == front[i];
      } else {
        assert records[|front|] == last;
      }
    }
  }

  lemma HeldFrom(history: History, records: seq<RtpRecord>, identity: Identity)
    requires From(history, records)
    ensures Holds(history, identity)
            ==> exists i :: 0 <= i < |records| && identity.sequence % 0x1_0000 == records[i].sequence
  {
    if Holds(history, identity) {
      var k :| 0 <= k < |history| && history[k].identity == identity;
      assert history[k] in history;
    }
  }

  lemma NotFrom(history: History, records: seq<RtpRecord>, record: RtpRecord, sequence: int)
    requires records != [] && record == records[|records| - 1] && From(history, records[..|records| - 1])
    requires forall i, j | 0 <= i < j < |records| :: records[i].sequence != records[j].sequence
    requires sequence % 0x1_0000 == record.sequence
    ensures !Holds(history, IdentityOf(record, sequence))
  {
    hide Holds, From;
    HeldFrom(history, records[..|records| - 1], IdentityOf(record, sequence));
  }

  /**
   * The history takes 4 * reorderWindow packets of one time and turns every further one away as an overflow: neither
   * sooner nor later.
   */
  lemma {:induction false} HistoryFilled(cfg: Config, records: seq<RtpRecord>, t: int)
    requires cfg.limits.Valid() && AtOnce(cfg, records, t)
    ensures var limit := 4 * cfg.limits.reorderWindow;
            && (forall i | 0 <= i < |records| :: !Run(cfg, records).outcomes[i].Duplicate?)
            && (forall i | 0 <= i < |records| :: Run(cfg, records).outcomes[i].Overflow? <==> i >= limit)
            && |Run(cfg, records).state.history| == (if |records| < limit then |records| else limit)
            && From(Run(cfg, records).state.history, records)
  {
    hide Run, PushRecord, OutcomeOf, Arrived, FrameCount, AtOnce, Holds, Retained, IdentityOf, ExtendedSequence;
    hide ExtendedTimestamp, LastTimestamp, HistoryLimit, From;
    if records == [] {
      NoneHeldYet(cfg);
    } else {
      var front, last := records[..|records| - 1], records[|records| - 1];
      AtOnceFront(cfg, records, t);
      HistoryFilled(cfg, front, t);
      RunUnfold(cfg, records);
      PushOutcome(cfg, Run(cfg, front).state, last);
      HistoryFilledStep(cfg, records, t);
    }
  }

  lemma NoneHeldYet(cfg: Config)
    ensures Run(cfg, []).state.history == [] && From([], [])
  {
  }

  lemma HistoryFilledStep(cfg: Config, records: seq<RtpRecord>, t: int)
    requires cfg.limits.Valid() && AtOnce(cfg, records, t) && records != []
    requires From(Run(cfg, records[..|records| - 1]).state.history, records[..|records| - 1])
    ensures var s, last := Run(cfg, records[..|records| - 1]).state, records[|records| - 1];
            var o, s' := OutcomeOf(cfg, s, last), PushRecord(cfg, s, last).state;
            && !o.Duplicate? && (o.Overflow? <==> |s.history| >= 4 * cfg.limits.reorderWindow)
            && |s'.history| == |s.history| + (if o.Overflow? then 0 else 1)
            && From(s'.history, records)
  {
    hide Run, PushRecord, OutcomeOf, Arrived, FrameCount, Holds, HistoryLimit, From, ExtendWrapping;
    hide LastTimestamp;
    var front, last := records[..|records| - 1], records[|records| - 1];
    var s := Run(cfg, front).state;
    AtOnceFront(cfg, records, t);
    ArrivedAtOnce(cfg, front, t);
    NothingCommitted(cfg, front, t);
    ExtendKeepsValue(last.sequence, s.highestSequence, 0x1_0000);
    NotFrom(s.history, records, last, ExtendedSequence(s, last));
    OutcomeHistory(cfg, s, last);
    OverflowIff(cfg, s, last);
    PushHistory(cfg, s, last);
    var more := PushRecord(cfg, s, last).state.history[|s.history|..];
    FromAppend(s.history, front, last, more);
    assert records == front + [last];
    assert PushRecord(cfg, s, last).state.history == s.history + more;
  }
}
