/** The bounded duplicate history: bounds, permanent overflow, and replays that change nothing. */
module Histories {
  import opened Models
  import opened CodecTables
  import opened Rfc4867
  import opened IntKeys
  import opened Timeline
  import opened Buffering
  import opened Runs
  import opened Windows

  // ---------------------------------------------------------------------------------------------
  // Eviction
  // ---------------------------------------------------------------------------------------------

  predicate Passed(committed: Option<int>, timestamp: int) {
    committed.Some? && timestamp <= committed.value
  }

  lemma {:induction false} RetainedMembers(history: History, committed: Option<int>)
    ensures forall e :: e in Retained(history, committed) <==> e in history && !Passed(committed, e.timestamp)
    ensures |Retained(history, committed)| <= |history|
  {
    if history != [] && committed.Some? {
      RetainedMembers(history[..|history| - 1], committed);
      assert history == history[..|history| - 1] + [history[|history| - 1]];
    }
  }

  /** Evicting again at the same committed timestamp evicts nothing more. */
  lemma {:induction false} RetainedTwice(history: History, committed: Option<int>)
    ensures Retained(Retained(history, committed), committed) == Retained(history, committed)
  {
    if history != [] && committed.Some? {
      var front, last := history[..|history| - 1], history[|history| - 1];
      RetainedTwice(front, committed);
      if last.timestamp > committed.value {
        RetainedAppend(Retained(front, committed), last, committed);
      } else {
        assert Retained(front, committed) + [] == Retained(front, committed);
      }
    }
  }

  lemma RetainedAppend(history: History, last: HistoryEntry, committed: Option<int>)
    ensures Retained(history + [last], committed)
            == Retained(history, committed) + (if Passed(committed, last.timestamp) then [] else [last])
  {
    assert (history + [last])[..|history|] == history;
    if committed.Some? && last.timestamp <= committed.value {
      assert Retained(history, committed) + [] == Retained(history, committed);
    }
  }

  ghost predicate DistinctIdentities(history: History) {
    forall i, j | 0 <= i < j < |history| :: history[i].identity != history[j].identity
  }

  lemma {:induction false} RetainedDistinct(history: History, committed: Option<int>)
    requires DistinctIdentities(history)
    ensures DistinctIdentities(Retained(history, committed))
  {
    if history != [] && committed.Some? {
      var front, last := history[..|history| - 1], history[|history| - 1];
      RetainedDistinct(front, committed);
      RetainedMembers(front, committed);
      var kept := Retained(front, committed);
      forall i | 0 <= i < |kept| ensures kept[i].identity != last.identity {
        assert kept[i] in kept;
      }
    }
  }

  // ---------------------------------------------------------------------------------------------
  // Bounded state
  // ---------------------------------------------------------------------------------------------

  /** The history never exceeds its limit and never repeats an identity. */
  ghost predicate Bounded(cfg: Config, s: State) {
    |s.history| <= HistoryLimit(cfg) && DistinctIdentities(s.history)
  }

  /** How a push moves the history. */
  lemma PushHistory(cfg: Config, s: State, record: RtpRecord)
    ensures var kept := Retained(s.history, s.committed);
            var history' := PushRecord(cfg, s, record).state.history;
            match OutcomeOf(cfg, s, record)
            case Duplicate => history' == kept
            case Overflow => history' == kept
            case Malformed(_) =>
              history'
              == kept + [HistoryEntry(IdentityOf(record, ExtendedSequence(s, record)), ExtendedTimestamp(s, record))]
            case Accepted(sequence, timestamp, frames) =>
              history' == kept + [HistoryEntry(IdentityOf(record, sequence), LastTimestamp(timestamp, frames))]
  {
    hide OutcomeOf, ReleasedBy, Retained, CountersAfter, Note, Emissions, IdentityOf, ExtendedSequence;
    hide ExtendedTimestamp;
    hide BufferedAfter, WatermarkAfter, HighestAfter;
  }

  /** What the outcome says about the history it met. */
  lemma OutcomeHistory(cfg: Config, s: State, record: RtpRecord)
    ensures var kept := Retained(s.history, s.committed);
            var o := OutcomeOf(cfg, s, record);
            && (o.Duplicate? <==> Holds(kept, IdentityOf(record, ExtendedSequence(s, record))))
            && (o.Overflow?
                <==> !Holds(kept, IdentityOf(record, ExtendedSequence(s, record))) && |kept| >= HistoryLimit(cfg))
            && (o.Accepted?
                ==> o.sequence == ExtendedSequence(s, record) && o.timestamp == ExtendedTimestamp(s, record))
  {
    hide Holds, Retained, IdentityOf, ExtendedSequence, ExtendedTimestamp, HistoryLimit;
  }

  lemma AppendDistinct(history: History, entry: HistoryEntry)
    requires DistinctIdentities(history) && !Holds(history, entry.identity)
    ensures DistinctIdentities(history + [entry])
  {
  }

  lemma PushBounded(cfg: Config, s: State, record: RtpRecord)
    requires Bounded(cfg, s)
    ensures Bounded(cfg, PushRecord(cfg, s, record).state)
  {
    hide PushRecord, OutcomeOf, Retained, Holds, DistinctIdentities, IdentityOf, ExtendedSequence, ExtendedTimestamp;
    hide HistoryLimit, LastTimestamp;
    var kept, o := Retained(s.history, s.committed), OutcomeOf(cfg, s, record);
    PushHistory(cfg, s, record);
    OutcomeHistory(cfg, s, record);
    RetainedMembers(s.history, s.committed);
    RetainedDistinct(s.history, s.committed);
    var identity := IdentityOf(record, ExtendedSequence(s, record));
    match o
    case Malformed(_) => AppendDistinct(kept, HistoryEntry(identity, ExtendedTimestamp(s, record)));
    case Accepted(_, t, frames) => AppendDistinct(kept, HistoryEntry(identity, LastTimestamp(t, frames)));
    case _ =>
  }

  lemma {:induction false} RunBounded(cfg: Config, records: seq<RtpRecord>)
    requires cfg.limits.Valid()
    ensures Bounded(cfg, Run(cfg, records).state)
  {
    if records != [] {
      hide Run, PushRecord, Bounded;
      var front := records[..|records| - 1];
      RunBounded(cfg, front);
      RunUnfold(cfg, records);
      PushBounded(cfg, Run(cfg, front).state, records[|records| - 1]);
    }
  }

  // ---------------------------------------------------------------------------------------------
  // Every pending frame's packet is still in the history
  // ---------------------------------------------------------------------------------------------

  /** The timestamp is one of the n steps up to the entry's. */
  ghost predicate Among(entry: HistoryEntry, t: int, n: nat, step: nat) {
    exists j: nat :: j < n && t == entry.timestamp - j * step
  }

  ghost predicate CoveredBy(cfg: Config, entry: HistoryEntry, t: int) {
    Among(entry, t, FrameCount(cfg, entry.identity.payload), TimestampStep(cfg.codec))
  }

  /** Each pending timestamp belongs to a packet whose identity is held and not yet due for eviction. */
  ghost predicate Covered(cfg: Config, s: State) {
    forall t | t in s.pending ::
      exists i :: 0 <= i < |s.history| && s.history[i].timestamp >= t && CoveredBy(cfg, s.history[i], t)
  }

  lemma AmongFrames(frames: seq<EncodedFrame>, timestamp: int, step: nat, entry: HistoryEntry, t: int)
    requires Spaced(frames, timestamp, step) && HasFrameAt(frames, t)
             && entry.timestamp == LastTimestamp(timestamp, frames)
    ensures entry.timestamp >= t && Among(entry, t, |frames|, step)
  {
    var i :| 0 <= i < |frames| && frames[i].mediaTimestamp == t;
    SpacedLast(frames, timestamp, step);
    var j := |frames| - 1 - i;
    assert (|frames| - 1) * step == i * step + j * step;
    assert t == entry.timestamp - j * step;
  }

  lemma StillCovered(cfg: Config, s: State, t: int, history': History)
    requires Covered(cfg, s) && t in s.pending && !Passed(s.committed, t)
    requires Retained(s.history, s.committed) <= history'
    ensures exists i :: 0 <= i < |history'| && history'[i].timestamp >= t && CoveredBy(cfg, history'[i], t)
  {
    hide CoveredBy, Retained;
    var i :| 0 <= i < |s.history| && s.history[i].timestamp >= t && CoveredBy(cfg, s.history[i], t);
    RetainedMembers(s.history, s.committed);
    var kept := Retained(s.history, s.committed);
    assert s.history[i] in kept;
    var j :| 0 <= j < |kept| && kept[j] == s.history[i];
    assert history'[j] == kept[j];
  }

  lemma PushCovered(cfg: Config, s: State, record: RtpRecord)
    requires Covered(cfg, s) && InWindow(cfg, s) && cfg.limits.Valid()
    ensures Covered(cfg, PushRecord(cfg, s, record).state)
  {
    hide PushRecord, OutcomeOf, Retained, CoveredBy, IdentityOf, ExtendedSequence, ExtendedTimestamp, Accept, Spaced;
    hide Span;
    var s', o := PushRecord(cfg, s, record).state, OutcomeOf(cfg, s, record);
    PushHistory(cfg, s, record);
    PushExits(cfg, s, record);
    if o.Accepted? {
      AcceptedPacket(cfg, s, record);
      AcceptCovered(cfg, s, record, o.sequence, o.timestamp, o.frames);
    } else {
      hide LastTimestamp;
      forall t | t in s'.pending
        ensures exists i :: 0 <= i < |s'.history| && s'.history[i].timestamp >= t && CoveredBy(cfg, s'.history[i], t)
      {
        PendingNotPassed(cfg, s, t);
        StillCovered(cfg, s, t, s'.history);
      }
    }
  }

  lemma PendingNotPassed(cfg: Config, s: State, t: int)
    requires InWindow(cfg, s) && t in s.pending
    ensures !Passed(s.committed, t)
  {
  }

  lemma AcceptCovered(
    cfg: Config, s: State, record: RtpRecord, sequence: int, timestamp: int, frames: seq<EncodedFrame>)
    requires Covered(cfg, s) && InWindow(cfg, s)
    requires Spaced(frames, timestamp, TimestampStep(cfg.codec)) && |frames| == FrameCount(cfg, record.payload)
    ensures Covered(cfg, Accept(cfg, s, record, sequence, timestamp, frames))
  {
    hide Retained, ReleasedBy, CountersAfter, BufferedAfter, WatermarkAfter, HighestAfter, TimestampStep, Spaced, Among;
    hide FrameCount, Covered, InWindow;
    var s' := Accept(cfg, s, record, sequence, timestamp, frames);
    var last := s'.history[|s'.history| - 1];
    forall t | t in s'.pending
      ensures exists i :: 0 <= i < |s'.history| && s'.history[i].timestamp >= t && CoveredBy(cfg, s'.history[i], t)
    {
      InWindowKeyed(cfg, s);
      BufferedFrames(s, frames);
      if t in s.pending {
        PendingNotPassed(cfg, s, t);
        StillCovered(cfg, s, t, s'.history);
      } else {
        TimelyTimestamps(s.committed, frames, t);
        AmongFrames(frames, timestamp, TimestampStep(cfg.codec), last, t);
        assert CoveredBy(cfg, last, t);
      }
    }
    CoveredFrom(cfg, s');
  }

  lemma InWindowKeyed(cfg: Config, s: State)
    requires InWindow(cfg, s)
    ensures Keyed(s.pending)
  {
  }

  lemma CoveredFrom(cfg: Config, s: State)
    requires forall t | t in s.pending ::
               exists i :: 0 <= i < |s.history| && s.history[i].timestamp >= t && CoveredBy(cfg, s.history[i], t)
    ensures Covered(cfg, s)
  {
  }

  lemma {:induction false} RunCovered(cfg: Config, records: seq<RtpRecord>)
    requires cfg.limits.Valid()
    ensures Covered(cfg, Run(cfg, records).state)
  {
    if records != [] {
      hide Run, PushRecord, Covered, InWindow;
      var front := records[..|records| - 1];
      RunCovered(cfg, front);
      RunInWindow(cfg, front);
      RunUnfold(cfg, records);
      PushCovered(cfg, Run(cfg, front).state, records[|records| - 1]);
    }
  }

  /** n timestamps, one step apart, ending at t. */
  ghost function Points(t: int, step: nat, n: nat): (points: set<int>)
    ensures |points| <= n
    ensures forall j: nat | j < n :: t - j * step in points
  {
    if n == 0 then {}
    else
      var fewer := Points(t, step, n - 1);
      var points := fewer + {t - (n - 1) * step};
      assert |points| <= |fewer| + 1;
      points
  }

  ghost predicate AmongAny(history: History, t: int, n: nat, step: nat) {
    exists i :: 0 <= i < |history| && Among(history[i], t, n, step)
  }

  lemma UncoveredByLast(history: History, t: int, n: nat, step: nat)
    requires history != [] && AmongAny(history, t, n, step)
    requires t !in Points(history[|history| - 1].timestamp, step, n)
    ensures AmongAny(history[..|history| - 1], t, n, step)
  {
    hide Points, Among;
    var front := history[..|history| - 1];
    var i :| 0 <= i < |history| && Among(history[i], t, n, step);
    NotAmongPoints(history[|history| - 1], t, n, step);
    assert front[i] == history[i];
  }

  lemma NotAmongPoints(entry: HistoryEntry, t: int, n: nat, step: nat)
    ensures Among(entry, t, n, step) ==> t in Points(entry.timestamp, step, n)
  {
    hide Points;
  }

  lemma {:induction false} CoverBound(keys: set<int>, history: History, n: nat, step: nat)
    requires forall t | t in keys :: AmongAny(history, t, n, step)
    ensures |keys| <= |history| * n
  {
    if history == [] {
      if keys != {} {
        Nonempty(keys);
      }
    } else {
      hide Points, Among, AmongAny;
      var points := Points(history[|history| - 1].timestamp, step, n);
      forall t | t in keys - points ensures AmongAny(history[..|history| - 1], t, n, step) {
        UncoveredByLast(history, t, n, step);
      }
      CoverBound(keys - points, history[..|history| - 1], n, step);
      DifferenceBound(keys, points);
      ProductStep(|history|, n);
    }
  }

  lemma ProductStep(m: nat, n: nat)
    ensures m * n == (m - 1) * n + n
  {
  }

  lemma DifferenceBound<T>(a: set<T>, b: set<T>)
    ensures |a| <= |a - b| + |b|
  {
    assert a <= (a - b) + b;
    SubsetBound(a, (a - b) + b);
  }

  lemma SubsetBound<T>(a: set<T>, b: set<T>)
    requires a <= b
    ensures |a| <= |b|
  {
    assert b == a + (b - a);
  }

  /** Every identity in the history came with a payload of at most n frames. */
  ghost predicate PayloadsWithin(cfg: Config, history: History, n: nat) {
    forall i | 0 <= i < |history| :: FrameCount(cfg, history[i].identity.payload) <= n
  }

  /** At most limit times n frames are pending, when no retained payload holds more than n frames. */
  lemma PendingBound(cfg: Config, records: seq<RtpRecord>, n: nat)
    requires cfg.limits.Valid() && PayloadsWithin(cfg, Run(cfg, records).state.history, n)
    ensures |Run(cfg, records).state.pending| <= HistoryLimit(cfg) * n
  {
    hide Run, TimestampStep, FrameCount, HistoryLimit;
    var s := Run(cfg, records).state;
    RunCovered(cfg, records);
    RunBounded(cfg, records);
    var keys := s.pending.Keys;
    forall t | t in keys ensures AmongAny(s.history, t, n, TimestampStep(cfg.codec)) {
      var i :| 0 <= i < |s.history| && s.history[i].timestamp >= t && CoveredBy(cfg, s.history[i], t);
      assert Among(s.history[i], t, n, TimestampStep(cfg.codec));
    }
    CoverBound(keys, s.history, n, TimestampStep(cfg.codec));
    MulOrder(|s.history|, HistoryLimit(cfg), n);
  }

  // ---------------------------------------------------------------------------------------------
  // A full history stays full
  // ---------------------------------------------------------------------------------------------

  /** No identity can be retained any more. */
  ghost predicate Full(cfg: Config, s: State) {
    |Retained(s.history, s.committed)| >= HistoryLimit(cfg)
  }

  /** The parts of a state that decide what comes out. */
  ghost predicate SameTimeline(a: State, b: State) {
    && a.pending == b.pending && a.committed == b.committed && a.finished == b.finished
    && a.highestSequence == b.highestSequence && a.highestTimestamp == b.highestTimestamp
  }

  lemma PushFull(cfg: Config, s: State, record: RtpRecord)
    requires Full(cfg, s)
    ensures var p := PushRecord(cfg, s, record);
            && (p.outcome.Duplicate? || p.outcome.Overflow?)
            && Full(cfg, p.state) && SameTimeline(s, p.state) && p.released == [] && p.emitted == []
  {
    hide PushRecord, OutcomeOf, Retained, Holds, IdentityOf, ExtendedSequence, ExtendedTimestamp, HistoryLimit, Accept;
    hide ReleasedBy;
    OutcomeHistory(cfg, s, record);
    AcceptedOrMalformed(cfg, s, record);
    PushOutcome(cfg, s, record);
    PushExits(cfg, s, record);
    PushEmits(cfg, s, record);
    PushHistory(cfg, s, record);
    RetainedTwice(s.history, s.committed);
  }

  lemma AcceptedOrMalformed(cfg: Config, s: State, record: RtpRecord)
    ensures var o := OutcomeOf(cfg, s, record);
            o.Accepted? || o.Malformed? ==> |Retained(s.history, s.committed)| < HistoryLimit(cfg)
  {
    hide Holds, Retained, IdentityOf, ExtendedSequence, ExtendedTimestamp, HistoryLimit;
  }

  lemma {:induction false} RunFull(cfg: Config, before: seq<RtpRecord>, after: seq<RtpRecord>)
    requires Full(cfg, Run(cfg, before).state)
    ensures var s, t := Run(cfg, before), Run(cfg, before + after);
            && Full(cfg, t.state) && SameTimeline(s.state, t.state)
            && t.released == s.released && t.emitted == s.emitted
            && forall i | |before| <= i < |before + after| :: t.outcomes[i].Duplicate? || t.outcomes[i].Overflow?
  {
    hide Run, PushRecord, Full;
    if after == [] {
      assert before + after == before;
    } else {
      var front := after[..|after| - 1];
      var all := before + after;
      assert all[..|all| - 1] == before + front;
      RunFull(cfg, before, front);
      RunUnfold(cfg, all);
      PushFull(cfg, Run(cfg, before + front).state, after[|after| - 1]);
    }
  }

  /**
   * Overflow is permanent: after one overflow, every later push is a duplicate or an overflow, nothing more
   * comes out before finish, and finish emits exactly the frames pending at the overflow.
   */
  lemma OverflowIsPermanent(cfg: Config, before: seq<RtpRecord>, after: seq<RtpRecord>)
    requires before != [] && Run(cfg, before).outcomes[|before| - 1].Overflow?
    ensures var s, t := Run(cfg, before), Run(cfg, before + after);
            && (forall i | |before| <= i < |before + after| :: t.outcomes[i].Duplicate? || t.outcomes[i].Overflow?)
            && t.state.pending == s.state.pending && t.emitted == s.emitted
            && Complete(cfg, before + after).released == s.released + InOrder(s.state.pending)
  {
    hide PushRecord, OutcomeOf, Run, Emissions, InOrder, Retained;
    var front, last := before[..|before| - 1], before[|before| - 1];
    var s := Run(cfg, front).state;
    RunUnfold(cfg, before);
    PushOutcome(cfg, s, last);
    OutcomeHistory(cfg, s, last);
    PushHistory(cfg, s, last);
    PushExits(cfg, s, last);
    RetainedTwice(s.history, s.committed);
    RunFull(cfg, before, after);
    RunEmits(cfg, before);
  }

  // ---------------------------------------------------------------------------------------------
  // Replays
  // ---------------------------------------------------------------------------------------------

  /** The packet's identity is still held, or its last frame has been committed. */
  ghost predicate Remembered(s: State, entry: HistoryEntry) {
    entry in s.history || Passed(s.committed, entry.timestamp)
  }

  /** The high marks have reached the packet. */
  ghost predicate Reached(s: State, sequence: int, last: int) {
    && s.highestSequence.Some? && s.highestSequence.value >= sequence
    && s.highestTimestamp.Some? && s.highestTimestamp.value >= last
  }

  lemma PushRemembers(cfg: Config, s: State, record: RtpRecord, entry: HistoryEntry, sequence: int)
    requires InWindow(cfg, s) && Remembered(s, entry) && Reached(s, sequence, entry.timestamp)
    ensures Remembered(PushRecord(cfg, s, record).state, entry)
    ensures Reached(PushRecord(cfg, s, record).state, sequence, entry.timestamp)
  {
    hide PushRecord, OutcomeOf, Retained, IdentityOf, ExtendedSequence, ExtendedTimestamp, LastTimestamp;
    PushHistory(cfg, s, record);
    PushExits(cfg, s, record);
    RetainedMembers(s.history, s.committed);
    var o := OutcomeOf(cfg, s, record);
    if o.Accepted? {
      AcceptAdvances(cfg, s, record, o.sequence, o.timestamp, o.frames);
    }
  }

  lemma AcceptAdvances(
    cfg: Config, s: State, record: RtpRecord, sequence: int, timestamp: int, frames: seq<EncodedFrame>)
    requires InWindow(cfg, s)
    ensures var s' := Accept(cfg, s, record, sequence, timestamp, frames);
            && (s.committed.Some? ==> s'.committed.Some? && s'.committed.value >= s.committed.value)
            && s'.highestSequence.Some? && s'.highestSequence.value >= sequence
            && (s.highestSequence.Some? ==> s'.highestSequence.value >= s.highestSequence.value)
            && s'.highestTimestamp.Some? && s'.highestTimestamp.value >= LastTimestamp(timestamp, frames)
            && (s.highestTimestamp.Some? ==> s'.highestTimestamp.value >= s.highestTimestamp.value)
  {
    hide InOrder, InsertAll, OnTime, Retained, CountersAfter, Span, TimestampStep, BufferedAfter, AtMost, LastTimestamp;
    BufferedFrames(s, frames);
    ReleaseMoves(BufferedAfter(s, frames), s.committed, WatermarkAfter(cfg, s, timestamp, frames));
    var c := Accept(cfg, s, record, sequence, timestamp, frames).committed;
    if s.committed.Some? && c != s.committed {
      TimelyTimestamps(s.committed, frames, c.value);
    }
  }

  lemma {:induction false} RunRemembers(
    cfg: Config, before: seq<RtpRecord>, after: seq<RtpRecord>, entry: HistoryEntry, sequence: int)
    requires cfg.limits.Valid()
    requires Remembered(Run(cfg, before).state, entry) && Reached(Run(cfg, before).state, sequence, entry.timestamp)
    ensures Remembered(Run(cfg, before + after).state, entry)
    ensures Reached(Run(cfg, before + after).state, sequence, entry.timestamp)
  {
    hide Run, PushRecord, Remembered, Reached, InWindow;
    if after == [] {
      assert before + after == before;
    } else {
      var front := after[..|after| - 1];
      var all := before + after;
      assert all[..|all| - 1] == before + front;
      RunRemembers(cfg, before, front, entry, sequence);
      RunUnfold(cfg, all);
      RunInWindow(cfg, before + front);
      PushRemembers(cfg, Run(cfg, before + front).state, after[|after| - 1], entry, sequence);
    }
  }

  /** Accepting a packet whose frames are all committed moves nothing. */
  lemma StaleAccept(
    cfg: Config, s: State, record: RtpRecord, sequence: int, timestamp: int, frames: seq<EncodedFrame>)
    requires InWindow(cfg, s) && frames != [] && Spaced(frames, timestamp, TimestampStep(cfg.codec))
    requires Passed(s.committed, LastTimestamp(timestamp, frames))
    requires Reached(s, sequence, LastTimestamp(timestamp, frames))
    ensures SameTimeline(s, Accept(cfg, s, record, sequence, timestamp, frames))
    ensures ReleasedBy(cfg, s, timestamp, frames) == []
  {
    hide InOrder, InsertAll, OnTime, Retained, CountersAfter, Span, TimestampStep, Spaced, Keyed;
    SpacedLast(frames, timestamp, TimestampStep(cfg.codec));
    NoneOnTime(s.committed, frames);
    InsertNothing(s.pending);
    var w := WatermarkAfter(cfg, s, timestamp, frames);
    SpanIsWindow(cfg);
    NothingBelow(s.pending, w);
  }

  lemma NothingBelow(pending: Pending, w: int)
    requires forall t | t in pending :: t > w
    ensures InOrder(AtMost(pending, w)) == [] && Above(pending, w) == pending
  {
    hide InOrder;
    MapEq(Above(pending, w), pending);
    MapEq(AtMost(pending, w), map[]);
    InOrderNothing();
  }

  lemma ReplayPush(cfg: Config, s: State, again: RtpRecord, entry: HistoryEntry, sequence: int, timestamp: int, n: nat)
    requires InWindow(cfg, s) && Remembered(s, entry) && Reached(s, sequence, entry.timestamp)
    requires ExtendedSequence(s, again) == sequence && ExtendedTimestamp(s, again) == timestamp
    requires entry.identity == IdentityOf(again, sequence)
    requires n == FrameCount(cfg, again.payload) > 0
             && entry.timestamp == timestamp + (n - 1) * TimestampStep(cfg.codec)
    ensures var p := PushRecord(cfg, s, again);
            SameTimeline(s, p.state) && p.released == [] && p.emitted == []
            && Retained(p.state.history, p.state.committed) == Retained(s.history, s.committed)
  {
    hide PushRecord, OutcomeOf, Retained, IdentityOf, ExtendedSequence, ExtendedTimestamp, Accept, ReleasedBy, InWindow;
    hide TimestampStep, Spaced, FrameCount, Remembered, Holds, Emissions, Gaps, HistoryLimit, Depacketize;
    PushExits(cfg, s, again);
    PushEmits(cfg, s, again);
    EmissionsNothing(cfg.codec, cfg.policy, s.committed);
    var o := OutcomeOf(cfg, s, again);
    ReadableNotMalformed(cfg, s, again);
    if !o.Accepted? {
      StaleHistory(cfg, s, again);
    } else {
      AcceptedPacket(cfg, s, again);
      SpacedLast(o.frames, o.timestamp, TimestampStep(cfg.codec));
      NotHeld(s, entry);
      StaleAccept(cfg, s, again, o.sequence, o.timestamp, o.frames);
      StaleHistory(cfg, s, again);
    }
  }

  /** An identity kept under a committed timestamp is evicted by the next push. */
  lemma StaleHistory(cfg: Config, s: State, record: RtpRecord)
    requires var o := OutcomeOf(cfg, s, record);
             !o.Malformed? && (o.Accepted? ==> Passed(s.committed, LastTimestamp(o.timestamp, o.frames)))
    ensures Retained(PushRecord(cfg, s, record).state.history, s.committed) == Retained(s.history, s.committed)
  {
    hide PushRecord, OutcomeOf, Retained, IdentityOf, LastTimestamp, Passed;
    PushHistory(cfg, s, record);
    RetainedTwice(s.history, s.committed);
    var o := OutcomeOf(cfg, s, record);
    if o.Accepted? {
      RetainedAppend(Retained(s.history, s.committed),
                     HistoryEntry(IdentityOf(record, o.sequence), LastTimestamp(o.timestamp, o.frames)), s.committed);
    }
  }

  lemma ReadableNotMalformed(cfg: Config, s: State, record: RtpRecord)
    requires FrameCount(cfg, record.payload) > 0
    ensures !OutcomeOf(cfg, s, record).Malformed?
  {
    hide Bodies, Holds, Retained, HistoryLimit;
  }

  lemma NotHeld(s: State, entry: HistoryEntry)
    requires Remembered(s, entry) && !Holds(Retained(s.history, s.committed), entry.identity)
    ensures Passed(s.committed, entry.timestamp)
  {
    hide Retained;
    RetainedMembers(s.history, s.committed);
    if !Passed(s.committed, entry.timestamp) {
      MemberHeld(Retained(s.history, s.committed), entry);
    }
  }

  lemma MemberHeld(history: History, entry: HistoryEntry)
    requires entry in history
    ensures Holds(history, entry.identity)
  {
  }

  /** The same packet captured again, at whatever position. */
  predicate SamePacket(a: RtpRecord, b: RtpRecord) {
    IdentityOf(a, 0) == IdentityOf(b, 0)
  }

  lemma AcceptedRemembered(cfg: Config, before: seq<RtpRecord>, record: RtpRecord)
    requires cfg.limits.Valid() && OutcomeOf(cfg, Run(cfg, before).state, record).Accepted?
    ensures var o := OutcomeOf(cfg, Run(cfg, before).state, record);
            var entry := HistoryEntry(IdentityOf(record, o.sequence), LastTimestamp(o.timestamp, o.frames));
            var s := Run(cfg, before + [record]).state;
            Remembered(s, entry) && Reached(s, o.sequence, entry.timestamp)
  {
    hide Run, PushRecord, OutcomeOf, Retained, IdentityOf, LastTimestamp, InWindow, ReleasedBy;
    var all := before + [record];
    assert all[..|all| - 1] == before;
    RunUnfold(cfg, all);
    var s := Run(cfg, before).state;
    var o := OutcomeOf(cfg, s, record);
    PushHistory(cfg, s, record);
    PushExits(cfg, s, record);
    RunInWindow(cfg, before);
    AcceptAdvances(cfg, s, record, o.sequence, o.timestamp, o.frames);
  }

  /**
   * Replaying an accepted packet at any later moment before finish, while its sequence number and timestamp still
   * extend to the same values, emits nothing and leaves the pending frames, the high marks, the committed timestamp
   * and the live part of the history alone, whether its identity is held, was evicted, or the history is full.
   */
  lemma ReplayChangesNothing(
    cfg: Config, before: seq<RtpRecord>, record: RtpRecord, between: seq<RtpRecord>, again: RtpRecord)
    requires cfg.limits.Valid() && SamePacket(record, again)
    requires OutcomeOf(cfg, Run(cfg, before).state, record).Accepted?
    requires var o := OutcomeOf(cfg, Run(cfg, before).state, record);
             var s := Run(cfg, before + [record] + between).state;
             ExtendedSequence(s, again) == o.sequence && ExtendedTimestamp(s, again) == o.timestamp
    ensures var s := Run(cfg, before + [record] + between).state;
            var p := PushRecord(cfg, s, again);
            && SameTimeline(s, p.state) && p.released == [] && p.emitted == []
            && Retained(p.state.history, p.state.committed) == Retained(s.history, s.committed)
  {
    hide Run, PushRecord, OutcomeOf, InWindow, FrameCount, Retained, Remembered, Reached, Spaced, TimestampStep;
    hide ExtendedSequence, ExtendedTimestamp, LastTimestamp, SameTimeline;
    var o := OutcomeOf(cfg, Run(cfg, before).state, record);
    var entry := HistoryEntry(IdentityOf(record, o.sequence), LastTimestamp(o.timestamp, o.frames));
    AcceptedPacket(cfg, Run(cfg, before).state, record);
    SpacedLast(o.frames, o.timestamp, TimestampStep(cfg.codec));
    AcceptedRemembered(cfg, before, record);
    RunRemembers(cfg, before + [record], between, entry, o.sequence);
    RunInWindow(cfg, before + [record] + between);
    ReplayPush(cfg, Run(cfg, before + [record] + between).state, again, entry, o.sequence, o.timestamp, |o.frames|);
  }
}
