/** A delivery without copies is accepted packet by packet. */
module FirstArrivals {
  import opened Models
  import opened CodecTables
  import opened Rfc4867
  import opened Timeline
  import opened Windows
  import opened Histories
  import opened Capacity
  import opened Wraps
  import opened SentHistories
  import opened Accounts
  import opened Reordering
  import opened Delivery

  lemma {:induction false} PrefixArrives(cfg: Config, stream: seq<Sent>, j: nat, g: int)
    requires Delivered(cfg, stream, g) && NoCopies(stream) && j < |stream|
    ensures Arrives(cfg, stream[..j], stream[j], g) && !Seen(stream[..j], stream[j])
  {
    hide Arrives, Seen, Delivered, NoCopies;
    var front, last := stream[..|stream| - 1], stream[|stream| - 1];
    assert stream == front + [last];
    DeliveredAppend(cfg, front, last, g);
    NoCopiesAppend(front, last);
    if j < |front| {
      PrefixArrives(cfg, front, j, g);
      assert front[..j] == stream[..j];
    } else {
      assert stream[..j] == front;
    }
  }

  lemma FewIdentities(cfg: Config, front: seq<Sent>, last: Sent, t: int)
    requires LastTrue(cfg, last) != t
    ensures SentIdentities(cfg, front + [last], t) == SentIdentities(cfg, front, t)
  {
    hide LastTrue, IdentityOf;
    var all := front + [last];
    forall i | 0 <= i < |front| ensures all[i] == front[i] {
    }
    forall identity ensures identity in SentIdentities(cfg, all, t) <==> identity in SentIdentities(cfg, front, t) {
      if identity in SentIdentities(cfg, all, t) {
        var i :| 0 <= i < |all| && LastTrue(cfg, all[i]) == t && identity == IdentityOf(all[i].record, all[i].sequence);
        assert i < |front| && all[i] == front[i];
      }
      if identity in SentIdentities(cfg, front, t) {
        var i :| 0 <= i < |front| && LastTrue(cfg, front[i]) == t
                 && identity == IdentityOf(front[i].record, front[i].sequence);
        assert all[i] == front[i];
      }
    }
  }

  /** At most three packets of a delivery end at any one timestamp. */
  lemma {:induction false} DeliveredFew(cfg: Config, stream: seq<Sent>, g: int)
    requires Delivered(cfg, stream, g)
    ensures AtMostThreeSent(cfg, stream)
  {
    hide Delivered, Near, Faithful, Congruent, InTime, FrameCount, SentIdentities, LastTrue, Copy;
    if stream == [] {
      NoneSent(cfg);
      assert stream == [];
    } else {
      var front, last := stream[..|stream| - 1], stream[|stream| - 1];
      assert stream == front + [last];
      DeliveredAppend(cfg, front, last, g);
      DeliveredFew(cfg, front, g);
      forall t ensures |SentIdentities(cfg, stream, t)| <= 3 {
        if t != LastTrue(cfg, last) {
          FewIdentities(cfg, front, last, t);
        }
      }
    }
  }

  lemma NoneSent(cfg: Config)
    ensures AtMostThreeSent(cfg, [])
  {
    hide LastTrue, IdentityOf;
    forall t ensures |SentIdentities(cfg, [], t)| <= 3 {
      assert SentIdentities(cfg, [], t) == {};
    }
  }

  ghost predicate AllAccepted(outcomes: seq<Outcome>) {
    forall i | 0 <= i < |outcomes| :: outcomes[i].Accepted?
  }

  /** What a delivery without copies keeps: everything accepted, in the window, the high marks those of all arrivals. */
  ghost predicate Smooth(cfg: Config, stream: seq<Sent>) {
    && NearRun(cfg, stream)
    && AllInWindow(cfg, Captured(stream))
    && AllAccepted(Run(cfg, Captured(stream)).outcomes)
    && TrueHighs(cfg, stream) == SentHighs(cfg, stream)
  }

  lemma SmoothGrid(cfg: Config, stream: seq<Sent>, g: int)
    requires Smooth(cfg, stream) && Delivered(cfg, stream, g) && NoCopies(stream)
    ensures GridRun(cfg, Run(cfg, Captured(stream)).outcomes, g + OffsetOf(cfg, stream).timestamp)
  {
    hide Delivered, NoCopies, NearRun, OffsetOf, Run, Captured, TrueHighs, SentHighs, AllInWindow, TimestampStep;
    hide Congruent;
    hide Tracks, WholeCycles, Near, Faithful, InTime, FrameCount, Distinct, Seen;
    WrapsRecovered(cfg, stream);
    var outcomes, o := Run(cfg, Captured(stream)).outcomes, OffsetOf(cfg, stream);
    forall i | 0 <= i < |stream|
      ensures Congruent(outcomes[i].timestamp, g + o.timestamp, TimestampStep(cfg.codec))
    {
      PrefixArrives(cfg, stream, i, g);
      CongruentMoved(stream[i].timestamp, g, TimestampStep(cfg.codec), o.timestamp);
    }
  }

  /** The state a smooth run leaves: the history has room, and holds only packets that arrived. */
  lemma SmoothState(cfg: Config, stream: seq<Sent>, g: int)
    requires cfg.limits.Valid() && Smooth(cfg, stream) && Delivered(cfg, stream, g) && NoCopies(stream)
    ensures var s := Run(cfg, Captured(stream)).state;
            && |Retained(s.history, s.committed)| < HistoryLimit(cfg)
            && Within(Retained(s.history, s.committed), AcceptedEntries(cfg, Captured(stream)))
  {
    hide Delivered, NoCopies, NearRun, OffsetOf, Run, Captured, TrueHighs, SentHighs, AllInWindow, AcceptedEntries;
    hide Retained, Within, GridState, Bounded, Anchored, InWindow, GridRun, AtMostThree, HistoryLimit, AllAccepted;
    var records, g' := Captured(stream), g + OffsetOf(cfg, stream).timestamp;
    SmoothGrid(cfg, stream, g);
    RunGrid(cfg, records, g');
    DeliveredFew(cfg, stream, g);
    EntriesFew(cfg, stream);
    HistoryFits(cfg, Run(cfg, records).state, AcceptedEntries(cfg, records), g');
    RetainedWithin(Run(cfg, records).state.history, Run(cfg, records).state.committed, AcceptedEntries(cfg, records));
  }

  lemma NewIdentity(cfg: Config, front: seq<Sent>, last: Sent, g: int)
    requires cfg.limits.Valid() && Smooth(cfg, front) && Delivered(cfg, front, g) && NoCopies(front)
    requires Arrives(cfg, front, last, g) && !Seen(front, last) && front != []
    ensures var s := Run(cfg, Captured(front)).state;
            && ExtendedSequence(s, last.record) == last.sequence + OffsetOf(cfg, front).sequence
            && ExtendedTimestamp(s, last.record) == last.timestamp + OffsetOf(cfg, front).timestamp
            && !Holds(Retained(s.history, s.committed), IdentityOf(last.record, ExtendedSequence(s, last.record)))
  {
    hide Delivered, NoCopies, NearRun, OffsetOf, Run, Captured, TrueHighs, AllInWindow, AcceptedEntries, Retained;
    hide Tracks, WholeCycles, Near, Faithful, InTime, FrameCount, LastTrue, Congruent, EntryFor, Distinct;
    hide ExtendedSequence, ExtendedTimestamp, Recovered, SentHighs, Seen;
    var s, o := Run(cfg, Captured(front)).state, OffsetOf(cfg, front);
    WrapsRecovered(cfg, front);
    SomeHighs(cfg, front);
    RecoverBoth(last, s, TrueHighs(cfg, front), o);
    SmoothState(cfg, front, g);
    var kept, identity := Retained(s.history, s.committed), IdentityOf(last.record, ExtendedSequence(s, last.record));
    if Holds(kept, identity) {
      var k :| 0 <= k < |kept| && kept[k].identity == identity;
      var i := EntryTrue(cfg, front, kept[k]);
      SameSequenceSeen(cfg, front, last, i);
    }
  }

  lemma SameSequenceSeen(cfg: Config, front: seq<Sent>, last: Sent, i: nat)
    ensures i < |front| && front[i].sequence == last.sequence && Distinct(cfg, front, last) ==> Seen(front, last)
  {
    hide Copy, LastTrue;
  }

  lemma SomeHighs(cfg: Config, stream: seq<Sent>)
    ensures stream != [] ==> SentHighs(cfg, stream).sequence.Some? && SentHighs(cfg, stream).timestamp.Some?
    ensures stream == [] ==> SentHighs(cfg, stream) == Highs(None, None)
  {
    hide LastTrue;
  }

  lemma AcceptedWhen(cfg: Config, s: State, record: RtpRecord)
    requires !Holds(Retained(s.history, s.committed), IdentityOf(record, ExtendedSequence(s, record)))
    requires |Retained(s.history, s.committed)| < HistoryLimit(cfg)
    requires FrameCount(cfg, record.payload) > 0
    ensures OutcomeOf(cfg, s, record).Accepted?
    ensures OutcomeOf(cfg, s, record).timestamp == ExtendedTimestamp(s, record)
  {
    hide Holds, Retained, ExtendedSequence, ExtendedTimestamp, HistoryLimit, Bodies, Frames;
  }

  lemma NewAccepted(cfg: Config, front: seq<Sent>, last: Sent, g: int)
    requires cfg.limits.Valid() && Smooth(cfg, front) && Delivered(cfg, front, g) && NoCopies(front)
    requires Arrives(cfg, front, last, g) && !Seen(front, last)
    ensures var s := Run(cfg, Captured(front)).state;
            OutcomeOf(cfg, s, last.record).Accepted? && ArrivesInWindow(cfg, s, OutcomeOf(cfg, s, last.record))
  {
    hide Delivered, NoCopies, NearRun, OffsetOf, Captured, TrueHighs, AllInWindow, Retained, OutcomeOf, PushRecord;
    hide WholeCycles, Near, Faithful, FrameCount, LastTrue, Congruent, Holds, Distinct, Seen, Span, HistoryLimit;
    hide ExtendedSequence, ExtendedTimestamp, SentHighs, IdentityOf, Recovered;
    var s := Run(cfg, Captured(front)).state;
    if front == [] {
      assert Captured(front) == [];
      FirstEver(cfg, last.record);
    } else {
      hide Run;
      NewIdentity(cfg, front, last, g);
      SmoothState(cfg, front, g);
      WrapsRecovered(cfg, front);
      SomeHighs(cfg, front);
    }
    AcceptedWhen(cfg, s, last.record);
  }

  lemma FirstEver(cfg: Config, record: RtpRecord)
    ensures var s := Run(cfg, []).state;
            && !Holds(Retained(s.history, s.committed), IdentityOf(record, ExtendedSequence(s, record)))
            && |Retained(s.history, s.committed)| < HistoryLimit(cfg)
            && s.highestTimestamp.None?
  {
    hide ExtendedSequence;
  }

  lemma SmoothAppend(cfg: Config, stream: seq<Sent>)
    requires stream != []
    requires var front, last := stream[..|stream| - 1], stream[|stream| - 1];
             var s := Run(cfg, Captured(front)).state;
             && Smooth(cfg, front) && Faithful(last) && Near(SentHighs(cfg, front), last)
             && OutcomeOf(cfg, s, last.record).Accepted? && ArrivesInWindow(cfg, s, OutcomeOf(cfg, s, last.record))
    ensures Smooth(cfg, stream)
  {
    hide Run, PushRecord, OutcomeOf, Captured, TrueHighs, SentHighs, OffsetOf, Near, Faithful, ArrivesInWindow;
    hide LastTrue;
    var front, last := stream[..|stream| - 1], stream[|stream| - 1];
    StreamUnfold(cfg, stream);
    assert stream == front + [last];
    SentHighsAppend(cfg, front, last);
    NearRunAppend(cfg, stream);
    InWindowAppend(cfg, stream);
  }

  lemma NearRunAppend(cfg: Config, stream: seq<Sent>)
    requires stream != []
    requires var front, last := stream[..|stream| - 1], stream[|stream| - 1];
             NearRun(cfg, front) && Faithful(last) && Near(TrueHighs(cfg, front), last)
    ensures NearRun(cfg, stream)
  {
    hide Near, Faithful, TrueHighs;
    var front := stream[..|stream| - 1];
    forall i | 0 <= i < |stream| ensures Faithful(stream[i]) && Near(TrueHighs(cfg, stream[..i]), stream[i]) {
      if i < |front| {
        assert front[i] == stream[i] && front[..i] == stream[..i];
      }
    }
  }

  lemma InWindowAppend(cfg: Config, stream: seq<Sent>)
    requires stream != []
    requires var front, last := stream[..|stream| - 1], stream[|stream| - 1];
             var s := Run(cfg, Captured(front)).state;
             AllInWindow(cfg, Captured(front)) && ArrivesInWindow(cfg, s, OutcomeOf(cfg, s, last.record))
    ensures AllInWindow(cfg, Captured(stream))
  {
    hide Run, OutcomeOf, ArrivesInWindow, Captured;
    var records, front := Captured(stream), Captured(stream[..|stream| - 1]);
    CapturedFront(stream);
    forall i | 0 <= i < |records|
      ensures ArrivesInWindow(cfg, Run(cfg, records[..i]).state,
                              OutcomeOf(cfg, Run(cfg, records[..i]).state, records[i]))
    {
      if i < |front| {
        assert front[i] == records[i] && front[..i] == records[..i];
      } else {
        assert records[..i] == front;
      }
    }
  }

  /** Every packet of a delivery without copies is accepted, none late, and the high marks are those of all arrivals. */
  lemma {:induction false} FirstsAccepted(cfg: Config, stream: seq<Sent>, g: int)
    requires cfg.limits.Valid() && Delivered(cfg, stream, g) && NoCopies(stream)
    ensures Smooth(cfg, stream) && Clean(cfg, stream)
  {
    hide Delivered, NoCopies, NearRun, Captured, TrueHighs, SentHighs, Run, OutcomeOf, ArrivesInWindow, AllInWindow;
    hide Faithful, Near, NearRunIn, Congruent, Distinct, Seen, InTime, FrameCount;
    if stream == [] {
      NothingSmooth(cfg);
      assert stream == [];
    } else {
      var front, last := stream[..|stream| - 1], stream[|stream| - 1];
      assert stream == front + [last];
      DeliveredAppend(cfg, front, last, g);
      NoCopiesAppend(front, last);
      FirstsAccepted(cfg, front, g);
      NewAccepted(cfg, front, last, g);
      SmoothAppend(cfg, stream);
    }
    NearRunParts(cfg, stream);
  }

  lemma NothingSmooth(cfg: Config)
    ensures Smooth(cfg, [])
  {
    hide PushRecord;
    assert Captured([]) == [];
  }
}
