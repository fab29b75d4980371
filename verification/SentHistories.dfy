/** When the duplicate history is large enough, from what the sender sent. */
module SentHistories {
  import opened Models
  import opened CodecTables
  import opened Timeline
  import opened Runs
  import opened Windows
  import opened Histories
  import opened Capacity
  import opened Wraps
  import opened Reordering

  lemma {:induction false} EntriesFrom(cfg: Config, records: seq<RtpRecord>, e: HistoryEntry) returns (i: nat)
    requires e in AcceptedEntries(cfg, records)
    ensures i < |records|
    ensures var o := Run(cfg, records).outcomes[i]; o.Accepted? && e == EntryFor(records[i], o)
  {
    hide Run, PushRecord, OutcomeOf, EntryFor;
    EntriesNothing(cfg, records);
    var front, last := records[..|records| - 1], records[|records| - 1];
    RunUnfold(cfg, records);
    PushOutcome(cfg, Run(cfg, front).state, last);
    if e in AcceptedEntries(cfg, front) {
      i := EntriesFrom(cfg, front, e);
    } else {
      i := |front|;
    }
  }

  lemma EntriesNothing(cfg: Config, records: seq<RtpRecord>)
    ensures records == [] ==> AcceptedEntries(cfg, records) == {}
  {
    hide Run, OutcomeOf, EntryFor;
  }

  /** An accepted identity is kept under its packet's true numbering, moved by the offset. */
  lemma EntryTrue(cfg: Config, stream: seq<Sent>, e: HistoryEntry) returns (i: nat)
    requires NearRun(cfg, stream) && e in AcceptedEntries(cfg, Captured(stream))
    ensures i < |stream|
    ensures e.identity.sequence == stream[i].sequence + OffsetOf(cfg, stream).sequence
    ensures e.timestamp == LastTrue(cfg, stream[i]) + OffsetOf(cfg, stream).timestamp
    ensures var o := Run(cfg, Captured(stream)).outcomes[i]; o.Accepted? && e == EntryFor(stream[i].record, o)
  {
    hide Run, OutcomeOf, AcceptedEntries, NearRun, OffsetOf, Tracks, WholeCycles, TrueHighs, FrameCount, TimestampStep;
    hide ExtendedSequence, ExtendedTimestamp, Spaced, Retained, Holds, LastTimestamp;
    var records := Captured(stream);
    i := EntriesFrom(cfg, records, e);
    WrapsRecovered(cfg, stream);
    OutcomeAt(cfg, records, i);
    AcceptedPacket(cfg, Run(cfg, records[..i]).state, records[i]);
    var o := Run(cfg, records).outcomes[i];
    SpacedLast(o.frames, o.timestamp, TimestampStep(cfg.codec));
  }

  /** The distinct packets, by their true numbering, whose last frames are at one timestamp. */
  ghost function SentIdentities(cfg: Config, stream: seq<Sent>, t: int): set<Identity> {
    set i | 0 <= i < |stream| && LastTrue(cfg, stream[i]) == t :: IdentityOf(stream[i].record, stream[i].sequence)
  }

  ghost predicate AtMostThreeSent(cfg: Config, stream: seq<Sent>) {
    forall t :: |SentIdentities(cfg, stream, t)| <= 3
  }

  function MovedEntry(identity: Identity, shift: int, t: int): HistoryEntry {
    HistoryEntry(identity.(sequence := identity.sequence + shift), t)
  }

  function MovedEntries(identities: set<Identity>, shift: int, t: int): set<HistoryEntry> {
    set identity | identity in identities :: MovedEntry(identity, shift, t)
  }

  lemma {:induction false} MovedCount(identities: set<Identity>, shift: int, t: int)
    ensures |MovedEntries(identities, shift, t)| <= |identities|
  {
    if identities != {} {
      hide MovedEntry;
      var a :| a in identities;
      var rest := identities - {a};
      MovedCount(rest, shift, t);
      assert MovedEntries(identities, shift, t) == MovedEntries(rest, shift, t) + {MovedEntry(a, shift, t)};
    }
  }

  lemma SubsetCount<T>(a: set<T>, b: set<T>)
    requires a <= b
    ensures |a| <= |b|
  {
    assert b == a + (b - a);
  }

  /** What is kept for the packets that end at one timestamp is theirs, moved by the offset. */
  lemma EntriesSent(cfg: Config, stream: seq<Sent>, t: int)
    requires NearRun(cfg, stream)
    ensures var o := OffsetOf(cfg, stream);
            At(AcceptedEntries(cfg, Captured(stream)), t)
            <= MovedEntries(SentIdentities(cfg, stream, t - o.timestamp), o.sequence, t)
  {
    hide NearRun, OffsetOf, AcceptedEntries, Run, LastTrue;
    var o, entries := OffsetOf(cfg, stream), AcceptedEntries(cfg, Captured(stream));
    forall e | e in At(entries, t)
      ensures e in MovedEntries(SentIdentities(cfg, stream, t - o.timestamp), o.sequence, t)
    {
      var i := EntryTrue(cfg, stream, e);
      var identity := IdentityOf(stream[i].record, stream[i].sequence);
      assert identity in SentIdentities(cfg, stream, t - o.timestamp);
      assert e == MovedEntry(identity, o.sequence, t);
    }
  }

  lemma EntriesFew(cfg: Config, stream: seq<Sent>)
    requires NearRun(cfg, stream) && AtMostThreeSent(cfg, stream)
    ensures AtMostThree(AcceptedEntries(cfg, Captured(stream)))
  {
    hide NearRun, OffsetOf, AcceptedEntries, SentIdentities, MovedEntries, At;
    var o, entries := OffsetOf(cfg, stream), AcceptedEntries(cfg, Captured(stream));
    forall t ensures |At(entries, t)| <= 3 {
      var sent := SentIdentities(cfg, stream, t - o.timestamp);
      EntriesSent(cfg, stream, t);
      MovedCount(sent, o.sequence, t);
      SubsetCount(At(entries, t), MovedEntries(sent, o.sequence, t));
    }
  }

  ghost predicate SentOnGrid(cfg: Config, stream: seq<Sent>, g: int) {
    forall x | x in stream ::
      FrameCount(cfg, x.record.payload) > 0 && Congruent(x.timestamp, g, TimestampStep(cfg.codec))
  }

  /** Readable packets sent on a grid, with timestamps near enough to be recovered, make a run on a grid. */
  lemma SentGrid(cfg: Config, stream: seq<Sent>, g: int)
    requires NearRunIn(MediaTimestamp, cfg, stream) && SentOnGrid(cfg, stream, g)
    ensures GridRun(cfg, Run(cfg, Captured(stream)).outcomes, g + OffsetOf(cfg, stream).timestamp)
  {
    hide Run, Captured, OffsetOf, NearRunIn, TrueHighs, TracksOne, ExtendedTimestamp, Congruent, TimestampStep;
    hide OutcomeOf;
    hide FrameCount;
    TimestampsRecovered(cfg, stream);
    var records, shift := Captured(stream), OffsetOf(cfg, stream).timestamp;
    var outcomes := Run(cfg, records).outcomes;
    forall i | 0 <= i < |outcomes|
      ensures !outcomes[i].Malformed?
      ensures outcomes[i].Accepted? ==> Congruent(outcomes[i].timestamp, g + shift, TimestampStep(cfg.codec))
    {
      assert stream[i] in stream;
      OutcomeAt(cfg, records, i);
      CapturedAt(stream, i);
      ReadableNotMalformed(cfg, Run(cfg, records[..i]).state, records[i]);
      CongruentMoved(stream[i].timestamp, g, TimestampStep(cfg.codec), shift);
    }
  }

  /**
   * Of readable packets sent on a grid, both counters near enough to be recovered, however often each is repeated, with
   * at most three distinct ones ending at any timestamp, none overflows the history and at most the window is pending.
   */
  lemma SentHistorySuffices(cfg: Config, stream: seq<Sent>, g: int)
    requires cfg.limits.Valid() && NearRun(cfg, stream) && SentOnGrid(cfg, stream, g) && AtMostThreeSent(cfg, stream)
    ensures forall i | 0 <= i < |stream| :: !Run(cfg, Captured(stream)).outcomes[i].Overflow?
    ensures |Run(cfg, Captured(stream)).state.pending| <= cfg.limits.reorderWindow
  {
    hide NearRun, NearRunIn, SentOnGrid, AtMostThreeSent, Run, Captured, OffsetOf, AtMostThree, AcceptedEntries;
    hide GridRun;
    NearRunParts(cfg, stream);
    SentGrid(cfg, stream, g);
    EntriesFew(cfg, stream);
    HistorySuffices(cfg, Captured(stream), g + OffsetOf(cfg, stream).timestamp);
  }
}
