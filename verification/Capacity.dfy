/** Why the bounded history is large enough: a pigeonhole over the reorder window. */
module Capacity {
  import opened Models
  import opened CodecTables
  import opened IntKeys
  import opened Timeline
  import opened Buffering
  import opened Runs
  import opened Windows
  import opened Histories

  /** The identity an accepted packet leaves in the history. */
  function EntryFor(record: RtpRecord, outcome: Outcome): HistoryEntry
    requires outcome.Accepted?
  {
    HistoryEntry(IdentityOf(record, outcome.sequence), LastTimestamp(outcome.timestamp, outcome.frames))
  }

  /** Every identity a run has accepted, under its last frame's timestamp. */
  ghost function AcceptedEntries(cfg: Config, records: seq<RtpRecord>): set<HistoryEntry> {
    if records == [] then {}
    else
      var front, last := records[..|records| - 1], records[|records| - 1];
      var outcome := OutcomeOf(cfg, Run(cfg, front).state, last);
      AcceptedEntries(cfg, front) + (if outcome.Accepted? then {EntryFor(last, outcome)} else {})
  }

  ghost function At(entries: set<HistoryEntry>, t: int): set<HistoryEntry> {
    set e | e in entries && e.timestamp == t
  }

  /** At most three distinct packet identities end at any one timestamp. */
  ghost predicate AtMostThree(entries: set<HistoryEntry>) {
    forall t :: |At(entries, t)| <= 3
  }

  ghost predicate Congruent(a: int, g: int, step: nat) {
    exists k: int :: a == g + k * step
  }

  lemma CongruentMoved(a: int, g: int, step: nat, d: int)
    requires Congruent(a, g, step)
    ensures Congruent(a + d, g + d, step)
  {
    var k: int :| a == g + k * step;
    assert a + d == g + d + k * step;
  }

  /** No payload is malformed, and every accepted packet starts on the grid through g. */
  ghost predicate GridRun(cfg: Config, outcomes: seq<Outcome>, g: int) {
    forall i | 0 <= i < |outcomes| ::
      && !outcomes[i].Malformed?
      && (outcomes[i].Accepted? ==> Congruent(outcomes[i].timestamp, g, TimestampStep(cfg.codec)))
  }

  // ---------------------------------------------------------------------------------------------
  // What the pushes keep
  // ---------------------------------------------------------------------------------------------

  /** The high mark and the pending frames are on the grid. */
  ghost predicate GridState(cfg: Config, s: State, g: int) {
    && (s.highestTimestamp.Some? ==> Congruent(s.highestTimestamp.value, g, TimestampStep(cfg.codec)))
    && forall t | t in s.pending :: Congruent(t, g, TimestampStep(cfg.codec))
  }

  /** Each held identity's last frame is still pending or its timestamp is committed. */
  ghost predicate Anchored(s: State) {
    forall i | 0 <= i < |s.history| :: Settled(s, s.history[i].timestamp)
  }

  ghost predicate Settled(s: State, t: int) {
    Passed(s.committed, t) || t in s.pending
  }

  lemma CongruentStep(a: int, g: int, step: nat, i: nat)
    requires Congruent(a, g, step)
    ensures Congruent(a + i * step, g, step)
  {
    var k: int :| a == g + k * step;
    assert a + i * step == g + (k + i) * step;
  }

  lemma AcceptGrid(
    cfg: Config, s: State, record: RtpRecord, sequence: int, timestamp: int, frames: seq<EncodedFrame>, g: int)
    requires GridState(cfg, s, g) && Keyed(s.pending) && Congruent(timestamp, g, TimestampStep(cfg.codec))
    requires frames != [] && Spaced(frames, timestamp, TimestampStep(cfg.codec))
    ensures GridState(cfg, Accept(cfg, s, record, sequence, timestamp, frames), g)
  {
    hide InOrder, InsertAll, OnTime, Retained, CountersAfter, Span, TimestampStep, BufferedAfter, AtMost, Congruent;
    hide Keyed;
    var s', step := Accept(cfg, s, record, sequence, timestamp, frames), TimestampStep(cfg.codec);
    BufferedFrames(s, frames);
    SpacedLast(frames, timestamp, step);
    CongruentStep(timestamp, g, step, |frames| - 1);
    forall t | t in s'.pending ensures Congruent(t, g, step) {
      if t !in s.pending {
        TimelyTimestamps(s.committed, frames, t);
        var i :| 0 <= i < |frames| && frames[i].mediaTimestamp == t;
        CongruentStep(timestamp, g, step, i);
      }
    }
  }

  /** A buffered timestamp is released or stays pending. */
  lemma BufferedSettled(
    cfg: Config, s: State, record: RtpRecord, sequence: int, timestamp: int, frames: seq<EncodedFrame>, t: int)
    requires Keyed(s.pending) && t in BufferedAfter(s, frames)
    ensures Settled(Accept(cfg, s, record, sequence, timestamp, frames), t)
  {
    hide InOrder, InsertAll, OnTime, Retained, CountersAfter, Span, TimestampStep, BufferedAfter, AtMost, Keyed;
    hide HighestAfter;
    BufferedFrames(s, frames);
    ReleaseMoves(BufferedAfter(s, frames), s.committed, WatermarkAfter(cfg, s, timestamp, frames));
  }

  lemma LastFrameSettled(
    cfg: Config, s: State, record: RtpRecord, sequence: int, timestamp: int, frames: seq<EncodedFrame>)
    requires InWindow(cfg, s) && frames != []
    ensures Settled(Accept(cfg, s, record, sequence, timestamp, frames), LastTimestamp(timestamp, frames))
  {
    hide Accept, InWindow, BufferedAfter, HasFrameAt;
    var t := LastTimestamp(timestamp, frames);
    InWindowKeyed(cfg, s);
    BufferedFrames(s, frames);
    LastHasFrame(frames);
    TimelyTimestamps(s.committed, frames, t);
    if t in BufferedAfter(s, frames) {
      BufferedSettled(cfg, s, record, sequence, timestamp, frames, t);
    } else {
      AcceptAdvances(cfg, s, record, sequence, timestamp, frames);
    }
  }

  lemma LastHasFrame(frames: seq<EncodedFrame>)
    requires frames != []
    ensures HasFrameAt(frames, frames[|frames| - 1].mediaTimestamp)
  {
  }

  lemma OldEntrySettled(
    cfg: Config, s: State, record: RtpRecord, sequence: int, timestamp: int, frames: seq<EncodedFrame>, t: int)
    requires InWindow(cfg, s) && Settled(s, t)
    ensures Settled(Accept(cfg, s, record, sequence, timestamp, frames), t)
  {
    hide Accept, InWindow, BufferedAfter;
    InWindowKeyed(cfg, s);
    BufferedFrames(s, frames);
    AcceptAdvances(cfg, s, record, sequence, timestamp, frames);
    if t in s.pending {
      BufferedSettled(cfg, s, record, sequence, timestamp, frames, t);
    }
  }

  /** The history holds only accepted entries. */
  ghost predicate Within(history: History, entries: set<HistoryEntry>) {
    forall i | 0 <= i < |history| :: history[i] in entries
  }

  ghost predicate GridInvariant(cfg: Config, s: State, entries: set<HistoryEntry>, g: int) {
    InWindow(cfg, s) && Bounded(cfg, s) && GridState(cfg, s, g) && Anchored(s) && Within(s.history, entries)
  }

  lemma RetainedWithin(history: History, committed: Option<int>, entries: set<HistoryEntry>)
    requires Within(history, entries)
    ensures Within(Retained(history, committed), entries)
  {
    hide Retained;
    RetainedMembers(history, committed);
    var kept := Retained(history, committed);
    forall i | 0 <= i < |kept| ensures kept[i] in entries {
      assert kept[i] in history;
    }
  }

  lemma RetainedSettled(s: State, i: nat)
    requires Anchored(s) && i < |Retained(s.history, s.committed)|
    ensures Settled(s, Retained(s.history, s.committed)[i].timestamp)
    ensures Retained(s.history, s.committed)[i].timestamp in s.pending
  {
    hide Retained;
    RetainedMembers(s.history, s.committed);
    var e := Retained(s.history, s.committed)[i];
    assert e in Retained(s.history, s.committed);
    var j :| 0 <= j < |s.history| && s.history[j] == e;
    assert Settled(s, s.history[j].timestamp);
  }

  lemma PushAnchored(cfg: Config, s: State, record: RtpRecord)
    requires InWindow(cfg, s) && Anchored(s) && !OutcomeOf(cfg, s, record).Malformed?
    ensures Anchored(PushRecord(cfg, s, record).state)
  {
    hide PushRecord, OutcomeOf, Retained, IdentityOf, ExtendedSequence, ExtendedTimestamp, InWindow, Accept, Settled;
    hide Spaced;
    hide LastTimestamp;
    var s', o := PushRecord(cfg, s, record).state, OutcomeOf(cfg, s, record);
    PushHistory(cfg, s, record);
    PushExits(cfg, s, record);
    if o.Accepted? {
      AcceptedPacket(cfg, s, record);
      LastFrameSettled(cfg, s, record, o.sequence, o.timestamp, o.frames);
    }
    forall i | 0 <= i < |s'.history| ensures Settled(s', s'.history[i].timestamp) {
      if i < |Retained(s.history, s.committed)| {
        RetainedSettled(s, i);
        if o.Accepted? {
          OldEntrySettled(cfg, s, record, o.sequence, o.timestamp, o.frames, s'.history[i].timestamp);
        } else {
          SettledSame(s, s', s'.history[i].timestamp);
        }
      }
    }
  }

  lemma SettledSame(s: State, s': State, t: int)
    requires Settled(s, t) && s.pending == s'.pending && s.committed == s'.committed
    ensures Settled(s', t)
  {
  }

  lemma PushGrid(cfg: Config, s: State, record: RtpRecord, entries: set<HistoryEntry>, g: int)
    requires cfg.limits.Valid() && GridInvariant(cfg, s, entries, g)
    requires var o := OutcomeOf(cfg, s, record);
             !o.Malformed? && (o.Accepted? ==> Congruent(o.timestamp, g, TimestampStep(cfg.codec)))
    ensures var o := OutcomeOf(cfg, s, record);
            GridInvariant(cfg, PushRecord(cfg, s, record).state,
                          entries + (if o.Accepted? then {EntryFor(record, o)} else {}), g)
  {
    hide PushRecord, OutcomeOf, Retained, IdentityOf, ExtendedSequence, ExtendedTimestamp, InWindow, Accept;
    hide LastTimestamp;
    hide Bounded, Anchored, Congruent, TimestampStep, Spaced;
    var o := OutcomeOf(cfg, s, record);
    PushInWindow(cfg, s, record);
    PushBounded(cfg, s, record);
    PushAnchored(cfg, s, record);
    PushHistory(cfg, s, record);
    PushExits(cfg, s, record);
    RetainedWithin(s.history, s.committed, entries);
    if o.Accepted? {
      AcceptedPacket(cfg, s, record);
      InWindowKeyed(cfg, s);
      AcceptGrid(cfg, s, record, o.sequence, o.timestamp, o.frames, g);
    }
  }

  // ---------------------------------------------------------------------------------------------
  // The pigeonholes
  // ---------------------------------------------------------------------------------------------

  /** On the grid, at most reorder_window timestamps fit in the window. */
  lemma GridPending(cfg: Config, s: State, g: int)
    requires cfg.limits.Valid() && InWindow(cfg, s) && GridState(cfg, s, g)
    ensures |s.pending| <= cfg.limits.reorderWindow
  {
    hide TimestampStep, Points, Keyed;
    var w, step := cfg.limits.reorderWindow, TimestampStep(cfg.codec);
    if s.pending.Keys != {} {
      Nonempty(s.pending.Keys);
      var high := s.highestTimestamp.value;
      var points := Points(high, step, w);
      forall t | t in s.pending.Keys ensures t in points {
        WindowPoint(high, t, g, step, w);
      }
      SubsetBound(s.pending.Keys, points);
    }
  }

  lemma WindowPoint(high: int, t: int, g: int, step: nat, w: nat)
    requires Congruent(high, g, step) && Congruent(t, g, step) && high - w * step < t <= high
    ensures t in Points(high, step, w)
  {
    hide Points;
    var kh: int :| high == g + kh * step;
    var kt: int :| t == g + kt * step;
    var j := kh - kt;
    assert high - t == j * step;
    FactorBounds(j, w, step);
  }

  lemma FactorBounds(j: int, w: nat, step: nat)
    requires 0 <= j * step < w * step
    ensures 0 <= j < w
  {
    assert w * step == j * step + (w - j) * step;
  }

  /** Entries spread over the keys, at most three to each. */
  lemma {:induction false} ThreePerKey(entries: set<HistoryEntry>, keys: set<int>)
    requires AtMostThree(entries) && forall e | e in entries :: e.timestamp in keys
    ensures |entries| <= 3 * |keys|
    decreases |keys|
  {
    if keys == {} {
      if entries != {} {
        SomeEntry(entries);
      }
    } else {
      Nonempty(keys);
      var t :| t in keys;
      var rest := entries - At(entries, t);
      forall u ensures |At(rest, u)| <= 3 {
        SubsetBound(At(rest, u), At(entries, u));
      }
      ThreePerKey(rest, keys - {t});
      DifferenceBound(entries, At(entries, t));
    }
  }

  lemma SomeEntry(entries: set<HistoryEntry>)
    requires entries != {}
    ensures exists e :: e in entries
  {
    var e :| e in entries;
  }

  ghost function Members(history: History): set<HistoryEntry> {
    set i | 0 <= i < |history| :: history[i]
  }

  lemma {:induction false} MembersCount(history: History)
    requires DistinctIdentities(history)
    ensures |Members(history)| == |history|
  {
    if history != [] {
      var front, last := history[..|history| - 1], history[|history| - 1];
      MembersCount(front);
      assert Members(history) == Members(front) + {last};
      assert last !in Members(front);
    }
  }

  /** The retained history never reaches the limit. */
  lemma HistoryFits(cfg: Config, s: State, entries: set<HistoryEntry>, g: int)
    requires cfg.limits.Valid() && GridInvariant(cfg, s, entries, g) && AtMostThree(entries)
    ensures |Retained(s.history, s.committed)| < HistoryLimit(cfg)
  {
    hide Retained, InWindow, GridState, Members, DistinctIdentities, AtMostThree, Anchored;
    var kept := Retained(s.history, s.committed);
    RetainedWithin(s.history, s.committed, entries);
    RetainedDistinct(s.history, s.committed);
    MembersCount(kept);
    MembersWithin(kept, entries);
    AtMostThreeSubset(Members(kept), entries);
    KeptPending(s);
    ThreePerKey(Members(kept), s.pending.Keys);
    GridPending(cfg, s, g);
  }

  lemma MembersWithin(history: History, entries: set<HistoryEntry>)
    requires Within(history, entries)
    ensures Members(history) <= entries
  {
  }

  lemma AtMostThreeSubset(a: set<HistoryEntry>, b: set<HistoryEntry>)
    requires a <= b && AtMostThree(b)
    ensures AtMostThree(a)
  {
    forall t ensures |At(a, t)| <= 3 {
      SubsetBound(At(a, t), At(b, t));
    }
  }

  lemma KeptPending(s: State)
    requires Anchored(s)
    ensures forall e | e in Members(Retained(s.history, s.committed)) :: e.timestamp in s.pending.Keys
  {
    hide Retained, Anchored, Settled;
    var kept := Retained(s.history, s.committed);
    forall i | 0 <= i < |kept| ensures kept[i].timestamp in s.pending {
      RetainedSettled(s, i);
    }
  }

  lemma AcceptedEntriesGrow(cfg: Config, records: seq<RtpRecord>)
    requires records != []
    ensures AcceptedEntries(cfg, records[..|records| - 1]) <= AcceptedEntries(cfg, records)
  {
    hide OutcomeOf, Run;
  }

  lemma {:induction false} RunGrid(cfg: Config, records: seq<RtpRecord>, g: int)
    requires cfg.limits.Valid() && GridRun(cfg, Run(cfg, records).outcomes, g)
    ensures GridInvariant(cfg, Run(cfg, records).state, AcceptedEntries(cfg, records), g)
  {
    if records != [] {
      hide Run, PushRecord, GridInvariant, OutcomeOf, Congruent, EntryFor;
      var front, last := records[..|records| - 1], records[|records| - 1];
      RunUnfold(cfg, records);
      PushOutcome(cfg, Run(cfg, front).state, last);
      GridRunFront(cfg, records, g);
      RunGrid(cfg, front, g);
      PushGrid(cfg, Run(cfg, front).state, last, AcceptedEntries(cfg, front), g);
    }
  }

  lemma GridRunFront(cfg: Config, records: seq<RtpRecord>, g: int)
    requires records != [] && GridRun(cfg, Run(cfg, records).outcomes, g)
    ensures GridRun(cfg, Run(cfg, records[..|records| - 1]).outcomes, g)
    ensures var o := PushRecord(cfg, Run(cfg, records[..|records| - 1]).state, records[|records| - 1]).outcome;
            !o.Malformed? && (o.Accepted? ==> Congruent(o.timestamp, g, TimestampStep(cfg.codec)))
  {
    hide Run, PushRecord, GridRun;
    RunUnfold(cfg, records);
    GridRunSplit(cfg, Run(cfg, records[..|records| - 1]).outcomes,
                 PushRecord(cfg, Run(cfg, records[..|records| - 1]).state, records[|records| - 1]).outcome, g);
  }

  lemma GridRunSplit(cfg: Config, outcomes: seq<Outcome>, last: Outcome, g: int)
    requires GridRun(cfg, outcomes + [last], g)
    ensures GridRun(cfg, outcomes, g)
    ensures !last.Malformed? && (last.Accepted? ==> Congruent(last.timestamp, g, TimestampStep(cfg.codec)))
  {
    hide Congruent, TimestampStep;
    var all := outcomes + [last];
    forall i | 0 <= i < |outcomes|
      ensures !outcomes[i].Malformed?
      ensures outcomes[i].Accepted? ==> Congruent(outcomes[i].timestamp, g, TimestampStep(cfg.codec))
    {
      assert all[i] == outcomes[i];
    }
    assert all[|outcomes|] == last;
  }

  /**
   * On a well-formed stream whose packets start on the grid, with at most three distinct identities to each
   * last-frame timestamp, no push overflows the history and at most reorder_window frames are pending.
   */
  lemma {:induction false} HistorySuffices(cfg: Config, records: seq<RtpRecord>, g: int)
    requires cfg.limits.Valid() && GridRun(cfg, Run(cfg, records).outcomes, g)
    requires AtMostThree(AcceptedEntries(cfg, records))
    ensures forall i | 0 <= i < |records| :: !Run(cfg, records).outcomes[i].Overflow?
    ensures |Run(cfg, records).state.pending| <= cfg.limits.reorderWindow
  {
    hide Run, PushRecord, OutcomeOf, AtMostThree, Bounded, Anchored, Within, AcceptedEntries, InWindow, GridState;
    RunGrid(cfg, records, g);
    GridPending(cfg, Run(cfg, records).state, g);
    if records != [] {
      hide GridInvariant;
      var front, last := records[..|records| - 1], records[|records| - 1];
      GridRunFront(cfg, records, g);
      AcceptedEntriesGrow(cfg, records);
      AtMostThreeSubset(AcceptedEntries(cfg, front), AcceptedEntries(cfg, records));
      HistorySuffices(cfg, front, g);
      RunGrid(cfg, front, g);
      HistoryFits(cfg, Run(cfg, front).state, AcceptedEntries(cfg, front), g);
      OutcomeHistory(cfg, Run(cfg, front).state, last);
      PushOutcome(cfg, Run(cfg, front).state, last);
      RunUnfold(cfg, records);
    }
  }
}
