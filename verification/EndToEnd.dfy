/** From the sender's speech frames to the bytes of the storage file. */
module EndToEnd {
  import opened Models
  import opened Bits
  import opened CodecTables
  import opened Rfc4867
  import opened Storage
  import opened Timeline
  import opened Buffering
  import opened Runs
  import opened Emitting
  import opened Windows
  import opened Histories
  import opened Capacity
  import opened Wraps
  import opened Accounts
  import opened Reordering
  import opened Delivery
  import opened FirstArrivals

  // ---------------------------------------------------------------------------------------------
  // Copies leave no trace in the output
  // ---------------------------------------------------------------------------------------------

  /** States that treat every later packet alike. */
  ghost predicate Alike(a: State, b: State) {
    SameTimeline(a, b) && Retained(a.history, a.committed) == Retained(b.history, b.committed)
  }

  lemma AlikeOutcome(cfg: Config, a: State, b: State, record: RtpRecord)
    requires Alike(a, b)
    ensures OutcomeOf(cfg, a, record) == OutcomeOf(cfg, b, record)
    ensures ExtendedSequence(a, record) == ExtendedSequence(b, record)
    ensures ExtendedTimestamp(a, record) == ExtendedTimestamp(b, record)
  {
    hide Retained, Holds, Depacketize, ExtendWrapping, HistoryLimit, IdentityOf;
  }

  lemma AlikeAccept(
    cfg: Config, a: State, b: State, record: RtpRecord, sequence: int, timestamp: int, frames: seq<EncodedFrame>)
    requires SameTimeline(a, b)
    ensures SameTimeline(Accept(cfg, a, record, sequence, timestamp, frames),
                         Accept(cfg, b, record, sequence, timestamp, frames))
    ensures ReleasedBy(cfg, a, timestamp, frames) == ReleasedBy(cfg, b, timestamp, frames)
  {
    hide Retained, InOrder, InsertAll, OnTime, CommittedAfter, Span, CountersAfter, IdentityOf, Higher, AtMost, Above;
    hide LastTimestamp;
  }

  lemma AlikePush(cfg: Config, a: State, b: State, record: RtpRecord)
    requires Alike(a, b)
    ensures var p, q := PushRecord(cfg, a, record), PushRecord(cfg, b, record);
            Alike(p.state, q.state) && p.released == q.released && p.emitted == q.emitted
  {
    hide PushRecord, OutcomeOf, Retained, Accept, ReleasedBy, Emissions, Gaps, ExtendedSequence, ExtendedTimestamp;
    hide IdentityOf, LastTimestamp, Holds, HistoryLimit;
    AlikeOutcome(cfg, a, b, record);
    PushExits(cfg, a, record);
    PushExits(cfg, b, record);
    PushEmits(cfg, a, record);
    PushEmits(cfg, b, record);
    PushHistory(cfg, a, record);
    PushHistory(cfg, b, record);
    var o := OutcomeOf(cfg, a, record);
    if o.Accepted? {
      AlikeAccept(cfg, a, b, record, o.sequence, o.timestamp, o.frames);
    }
  }

  /** Pushing another copy of a packet that has arrived gives a state like the one before. */
  lemma CopyPush(cfg: Config, firsts: seq<Sent>, x: Sent, g: int)
    requires cfg.limits.Valid() && Delivered(cfg, firsts, g) && NoCopies(firsts)
    requires Seen(firsts, x) && Faithful(x) && Near(SentHighs(cfg, firsts), x)
    ensures var s := Run(cfg, Captured(firsts)).state;
            var p := PushRecord(cfg, s, x.record);
            Alike(p.state, s) && p.released == [] && p.emitted == []
  {
    hide Delivered, NoCopies, Run, PushRecord, OutcomeOf, Captured, SentHighs, TrueHighs, OffsetOf, Near, Faithful;
    hide ExtendedSequence, ExtendedTimestamp, SameTimeline, Retained, Tracks, WholeCycles, NearRun, AllInWindow, Clean;
    var records := Captured(firsts);
    var s, o := Run(cfg, records).state, OffsetOf(cfg, firsts);
    FirstsAccepted(cfg, firsts, g);
    WrapsRecovered(cfg, firsts);
    SeenSome(firsts, x);
    SomeHighs(cfg, firsts);
    RecoverBoth(x, s, SentHighs(cfg, firsts), o);
    var j :| 0 <= j < |firsts| && Copy(firsts[j], x);
    OutcomeAt(cfg, records, j);
    CapturedAt(firsts, j);
    assert records == records[..j] + [records[j]] + records[j + 1..];
    ReplayChangesNothing(cfg, records[..j], records[j], records[j + 1..], x.record);
    SameTimelineSymmetric(s, PushRecord(cfg, s, x.record).state);
  }

  lemma SameTimelineSymmetric(a: State, b: State)
    ensures SameTimeline(a, b) ==> SameTimeline(b, a) && a.committed == b.committed
  {
  }

  lemma AlikeTransitive(a: State, b: State, c: State)
    requires Alike(a, b) && Alike(b, c)
    ensures Alike(a, c)
  {
    hide Retained;
  }

  /** A run over a delivery and the run over its first arrivals. */
  ghost predicate SameOutput(cfg: Config, a: seq<RtpRecord>, b: seq<RtpRecord>) {
    var s, t := Run(cfg, a), Run(cfg, b);
    Alike(s.state, t.state) && s.released == t.released && s.emitted == t.emitted
  }

  lemma SameOutputPush(cfg: Config, a: seq<RtpRecord>, b: seq<RtpRecord>, record: RtpRecord)
    requires SameOutput(cfg, a, b)
    ensures SameOutput(cfg, a + [record], b + [record])
  {
    hide Run, PushRecord, Alike;
    assert (a + [record])[..|a|] == a && (b + [record])[..|b|] == b;
    RunUnfold(cfg, a + [record]);
    RunUnfold(cfg, b + [record]);
    AlikePush(cfg, Run(cfg, a).state, Run(cfg, b).state, record);
  }

  lemma SameOutputCopy(cfg: Config, a: seq<RtpRecord>, b: seq<RtpRecord>, record: RtpRecord)
    requires SameOutput(cfg, a, b)
    requires var s := Run(cfg, b).state;
             var p := PushRecord(cfg, s, record);
             Alike(p.state, s) && p.released == [] && p.emitted == []
    ensures SameOutput(cfg, a + [record], b)
  {
    hide Run, PushRecord, Alike;
    assert (a + [record])[..|a|] == a;
    RunUnfold(cfg, a + [record]);
    var s, t := Run(cfg, a).state, Run(cfg, b).state;
    AlikePush(cfg, s, t, record);
    AlikeTransitive(PushRecord(cfg, s, record).state, PushRecord(cfg, t, record).state, t);
  }

  lemma {:induction false} CopiesErased(cfg: Config, stream: seq<Sent>, g: int)
    requires cfg.limits.Valid() && Delivered(cfg, stream, g)
    ensures SameOutput(cfg, Captured(stream), Captured(Firsts(stream)))
  {
    hide Delivered, Run, SameOutput, Captured, Firsts, Seen, NoCopies, SentHighs, Near, Faithful, Congruent, Distinct;
    hide FrameCount, InTime, Alike;
    if stream == [] {
      assert stream == [];
      NothingErased(cfg);
    } else {
      var front, last := stream[..|stream| - 1], stream[|stream| - 1];
      assert stream == front + [last];
      DeliveredAppend(cfg, front, last, g);
      CopiesErased(cfg, front, g);
      FirstsDelivered(cfg, front, g);
      FirstsUnfold(front, last);
      CapturedAppend(front, last);
      CapturedAppend(Firsts(front), last);
      if Seen(front, last) {
        FirstsSeen(front, last);
        CopyPush(cfg, Firsts(front), last, g);
        SameOutputCopy(cfg, Captured(front), Captured(Firsts(front)), last.record);
      } else {
        SameOutputPush(cfg, Captured(front), Captured(Firsts(front)), last.record);
      }
    }
  }

  lemma NothingErased(cfg: Config)
    ensures SameOutput(cfg, Captured([]), Captured(Firsts([])))
  {
    hide Run;
  }

  lemma CapturedAppend(front: seq<Sent>, last: Sent)
    ensures Captured(front + [last]) == Captured(front) + [last.record]
  {
  }

  /** Finishing the run over a delivery releases and emits what its first arrivals alone would. */
  lemma CompleteErased(cfg: Config, stream: seq<Sent>, g: int)
    requires cfg.limits.Valid() && Delivered(cfg, stream, g)
    ensures Complete(cfg, Captured(stream)).released == Complete(cfg, Captured(Firsts(stream))).released
    ensures Complete(cfg, Captured(stream)).emitted == Complete(cfg, Captured(Firsts(stream))).emitted
  {
    hide Run, Captured, Firsts, Delivered, InOrder, Emissions, Gaps, Retained;
    CopiesErased(cfg, stream, g);
  }

  // ---------------------------------------------------------------------------------------------
  // The released frames are the sender's, in the sender's order
  // ---------------------------------------------------------------------------------------------

  /** The packets of a talk do not overlap in time. */
  ghost predicate InSendingOrder(cfg: Config, talk: seq<Sent>) {
    forall j, k | 0 <= j < k < |talk| :: LastTrue(cfg, talk[j]) < talk[k].timestamp
  }

  /** Everything that arrives is a copy of a packet of the talk, and every packet of the talk arrives. */
  ghost predicate Delivers(stream: seq<Sent>, talk: seq<Sent>) {
    && (forall x | x in stream :: Seen(talk, x))
    && (forall x | x in talk :: Seen(stream, x))
  }

  /** The same packets in the talk's order, each with the provenance of its first arrival. */
  ghost predicate Arranges(arranged: seq<Sent>, firsts: seq<Sent>, talk: seq<Sent>) {
    && |arranged| == |talk|
    && (forall k | 0 <= k < |talk| :: Copy(arranged[k], talk[k]) && arranged[k] in firsts)
  }

  lemma {:induction false} Arrange(firsts: seq<Sent>, talk: seq<Sent>) returns (arranged: seq<Sent>)
    requires forall x | x in talk :: Seen(firsts, x)
    ensures Arranges(arranged, firsts, talk)
  {
    hide Copy;
    if talk == [] {
      arranged := [];
    } else {
      var n := |talk| - 1;
      forall x | x in talk[..n] ensures Seen(firsts, x) {
        assert x in talk;
      }
      var front := Arrange(firsts, talk[..n]);
      assert talk[n] in talk;
      var i :| 0 <= i < |firsts| && Copy(firsts[i], talk[n]);
      arranged := front + [firsts[i]];
    }
  }

  /** Copies among first arrivals are one and the same. */
  lemma {:induction false} FirstUnique(firsts: seq<Sent>, x: Sent, y: Sent)
    requires NoCopies(firsts) && x in firsts && y in firsts && Copy(x, y)
    ensures x == y
  {
    hide Copy, Seen, NoCopies;
    var front, last := firsts[..|firsts| - 1], firsts[|firsts| - 1];
    assert firsts == front + [last];
    NoCopiesAppend(front, last);
    if x in front && y in front {
      FirstUnique(front, x, y);
    } else if x in front {
      MemberSeen(front, x, last);
    } else if y in front {
      CopyOrder(x, y, x);
      MemberSeen(front, y, last);
    }
  }

  lemma MemberSeen(front: seq<Sent>, x: Sent, y: Sent)
    ensures x in front && Copy(x, y) ==> Seen(front, y)
  {
    hide Copy;
  }

  lemma ArrangedSame(arranged: seq<Sent>, firsts: seq<Sent>, talk: seq<Sent>)
    requires Arranges(arranged, firsts, talk) && NoCopies(firsts)
    requires forall x | x in firsts :: Seen(talk, x)
    ensures SameSent(firsts, arranged)
  {
    hide Copy, NoCopies;
    forall x ensures x in firsts <==> x in arranged {
      if x in firsts {
        var k :| 0 <= k < |talk| && Copy(talk[k], x);
        CopyOrder(arranged[k], talk[k], x);
        FirstUnique(firsts, arranged[k], x);
        assert arranged[k] in arranged;
      }
      if x in arranged {
        var k :| 0 <= k < |arranged| && arranged[k] == x;
      }
    }
  }

  lemma FirstsFrom(stream: seq<Sent>, talk: seq<Sent>)
    requires Delivers(stream, talk)
    ensures forall x | x in Firsts(stream) :: Seen(talk, x)
    ensures forall x | x in talk :: Seen(Firsts(stream), x)
  {
    hide Seen, Firsts;
    FirstsMembers(stream);
    forall x | x in talk ensures Seen(Firsts(stream), x) {
      FirstsSeen(stream, x);
    }
  }

  lemma ArrangedOrder(cfg: Config, arranged: seq<Sent>, firsts: seq<Sent>, talk: seq<Sent>)
    requires Arranges(arranged, firsts, talk) && InSendingOrder(cfg, talk)
    ensures InSendingOrder(cfg, arranged)
  {
    hide LastTrue, SamePacket;
    forall j, k | 0 <= j < k < |arranged| ensures LastTrue(cfg, arranged[j]) < arranged[k].timestamp {
      CopySame(cfg, arranged[j], talk[j]);
    }
  }

  /** The true frames of packets in sending order are sorted by time. */
  lemma {:induction false} TrueAllSorted(cfg: Config, talk: seq<Sent>)
    requires InSendingOrder(cfg, talk)
    ensures SortedByTime(TrueAll(cfg, talk))
  {
    hide TrueFrames, TrueAll, LastTrue, SortedByTime;
    if talk == [] {
      ArrivedNothing(cfg, 0);
      assert talk == [];
      NothingSorted();
    } else {
      var n := |talk| - 1;
      TrueAllSorted(cfg, talk[..n]);
      TrueAllUnfold(cfg, talk);
      TrueFramesSorted(cfg, talk[n]);
      forall f, h | f in TrueAll(cfg, talk[..n]) && h in TrueFrames(cfg, talk[n])
        ensures f.mediaTimestamp < h.mediaTimestamp
      {
        TrueAllMembers(cfg, talk[..n], f);
        var i :| 0 <= i < n && f in TrueFrames(cfg, talk[..n][i]);
        TrueFrameTimes(cfg, talk[i], f);
        TrueFrameTimes(cfg, talk[n], h);
      }
      SortedJoin(TrueAll(cfg, talk[..n]), TrueFrames(cfg, talk[n]));
    }
  }

  lemma NothingSorted()
    ensures SortedByTime([])
  {
  }

  lemma SortedJoin(a: seq<EncodedFrame>, b: seq<EncodedFrame>)
    requires SortedByTime(a) && SortedByTime(b)
    requires forall f, h | f in a && h in b :: f.mediaTimestamp < h.mediaTimestamp
    ensures SortedByTime(a + b)
  {
    var s := a + b;
    forall i, j | 0 <= i < j < |s| ensures s[i].mediaTimestamp < s[j].mediaTimestamp {
      if i < |a| && j >= |a| {
        assert s[i] in a && s[j] in b;
      }
    }
  }

  lemma TrueFrameTimes(cfg: Config, x: Sent, f: EncodedFrame)
    requires f in TrueFrames(cfg, x)
    ensures x.timestamp <= f.mediaTimestamp <= LastTrue(cfg, x)
  {
    hide TimestampStep, Bodies, TrueFrames;
    var frames := TrueFrames(cfg, x);
    var i :| 0 <= i < |frames| && frames[i] == f;
    FrameAt(cfg, x, i);
    CountTrue(cfg, x);
    MulOrder(i, |frames| - 1, TimestampStep(cfg.codec));
  }

  lemma CountTrue(cfg: Config, x: Sent)
    ensures |TrueFrames(cfg, x)| == FrameCount(cfg, x.record.payload)
  {
    hide Bodies, TimestampStep;
  }

  lemma TrueFramesSorted(cfg: Config, x: Sent)
    ensures SortedByTime(TrueFrames(cfg, x))
  {
    hide TimestampStep, Bodies, TrueFrames;
    var frames, step := TrueFrames(cfg, x), TimestampStep(cfg.codec);
    forall i, j | 0 <= i < j < |frames| ensures frames[i].mediaTimestamp < frames[j].mediaTimestamp {
      FrameAt(cfg, x, i);
      FrameAt(cfg, x, j);
      MulOrder(i, j - 1, step);
      assert j * step == (j - 1) * step + step;
    }
  }

  /** Sorting frames that are already sorted, in whatever order they come, gives the sorted frames. */
  lemma BestOfSorted(a: seq<EncodedFrame>, b: seq<EncodedFrame>)
    requires SortedByTime(b) && forall f :: f in a <==> f in b
    ensures InOrder(Best(a)) == b
  {
    hide InOrder, Best, SortedByTime;
    InsertAllKeys(map[], a);
    BestKeyed(a);
    SortedInOrder(Best(a));
    forall f ensures f in InOrder(Best(a)) <==> f in b {
      InOrderMembers(Best(a), f);
      BestWins(a, f.mediaTimestamp);
      BestIsOnly(a, b, f);
    }
    SortedFramesUnique(InOrder(Best(a)), b);
  }

  lemma BestIsOnly(a: seq<EncodedFrame>, b: seq<EncodedFrame>, f: EncodedFrame)
    requires SortedByTime(b) && forall h :: h in a <==> h in b
    ensures var t := f.mediaTimestamp; (t in Best(a) && Best(a)[t] == f) <==> f in a
  {
    hide InsertAll, Best, Prefer;
    var t := f.mediaTimestamp;
    BestWins(a, t);
    if t in Best(a) {
      var k :| Wins(a, k) && a[k].mediaTimestamp == t && Best(a)[t] == a[k];
      WinnerIn(a, k);
      if f in a {
        OneAtATime(b, f, a[k]);
      }
    } else {
      MemberHasFrame(a, f);
    }
  }

  lemma MemberHasFrame(a: seq<EncodedFrame>, f: EncodedFrame)
    ensures f in a ==> HasFrameAt(a, f.mediaTimestamp)
  {
  }

  lemma WinnerIn(a: seq<EncodedFrame>, k: int)
    requires Wins(a, k)
    ensures a[k] in a
  {
  }

  lemma OneAtATime(b: seq<EncodedFrame>, f: EncodedFrame, h: EncodedFrame)
    requires SortedByTime(b) && f in b && h in b && f.mediaTimestamp == h.mediaTimestamp
    ensures f == h
  {
  }

  lemma AllTaken(cfg: Config, stream: seq<Sent>)
    requires Smooth(cfg, stream)
    ensures Taken(cfg, stream) == stream
  {
    hide Run, NearRun, AllInWindow, TrueHighs, SentHighs, TakenOf;
    AllTakenOf(Run(cfg, Captured(stream)).outcomes, stream);
  }

  /**
   * Whatever the order, the duplicates, the overlaps and the wraps, what is released is, at each timestamp, the best of
   * the frames that the first arrivals carry for it, in order, at the sender's timestamps plus whole cycles.
   */
  lemma BestReleased(cfg: Config, stream: seq<Sent>, g: int) returns (d: int)
    requires cfg.limits.Valid() && Delivered(cfg, stream, g)
    ensures d % 0x1_0000_0000 == 0
    ensures Complete(cfg, Captured(stream)).released == MovedAll(InOrder(Best(TrueAll(cfg, Firsts(stream)))), d)
  {
    hide Delivered, Firsts, Complete, Captured, TrueAll, MovedAll, OffsetOf, InOrder, Best, NoCopies, Clean, Smooth;
    var firsts := Firsts(stream);
    FirstsDelivered(cfg, stream, g);
    FirstsAccepted(cfg, firsts, g);
    CompleteErased(cfg, stream, g);
    CleanReleases(cfg, firsts);
    AllTaken(cfg, firsts);
    d := OffsetOf(cfg, firsts).timestamp;
  }

  /**
   * Whatever the order, the duplicates and the wraps, the frames released are exactly the sender's frames in the
   * sender's order, at the sender's timestamps plus one whole number of cycles.
   */
  lemma TalkReleased(cfg: Config, stream: seq<Sent>, talk: seq<Sent>, g: int) returns (arranged: seq<Sent>, d: int)
    requires cfg.limits.Valid() && Delivered(cfg, stream, g) && Delivers(stream, talk) && InSendingOrder(cfg, talk)
    ensures Arranges(arranged, stream, talk) && d % 0x1_0000_0000 == 0
    ensures Complete(cfg, Captured(stream)).released == MovedAll(TrueAll(cfg, arranged), d)
  {
    hide Delivered, Firsts, Complete, Captured, TrueAll, MovedAll, OffsetOf, InOrder, Best, NoCopies, Clean, Seen, Copy;
    hide InSendingOrder, SameSent, SortedByTime, SentFrame, Smooth;
    var firsts := Firsts(stream);
    FirstsDelivered(cfg, stream, g);
    d := BestReleased(cfg, stream, g);
    FirstsFrom(stream, talk);
    arranged := Arrange(firsts, talk);
    ArrangedSame(arranged, firsts, talk);
    ArrangedOrder(cfg, arranged, firsts, talk);
    TrueAllSorted(cfg, arranged);
    SameTrueAll(cfg, firsts, arranged);
    BestOfSorted(TrueAll(cfg, firsts), TrueAll(cfg, arranged));
    FirstsMembers(stream);
  }

  lemma SameTrueAll(cfg: Config, a: seq<Sent>, b: seq<Sent>)
    requires SameSent(a, b)
    ensures forall f :: f in TrueAll(cfg, a) <==> f in TrueAll(cfg, b)
  {
    hide TrueAll, SentFrame;
    SameSentSymmetric(a, b);
    forall f ensures f in TrueAll(cfg, a) <==> f in TrueAll(cfg, b) {
      TrueAllMembers(cfg, a, f);
      TrueAllMembers(cfg, b, f);
      if SentFrame(cfg, a, f) {
        SentFrameSame(cfg, a, b, f);
      }
      if SentFrame(cfg, b, f) {
        SentFrameSame(cfg, b, a, f);
      }
    }
  }

  lemma SameSentSymmetric(a: seq<Sent>, b: seq<Sent>)
    requires SameSent(a, b)
    ensures SameSent(b, a)
  {
  }

  // ---------------------------------------------------------------------------------------------
  // Two deliveries of one talk
  // ---------------------------------------------------------------------------------------------

  /** The same frames, each moved by d and with a provenance of its own. */
  predicate SameSound(a: seq<EncodedFrame>, b: seq<EncodedFrame>, d: int) {
    && |a| == |b|
    && forall i | 0 <= i < |a| ::
         b[i] == a[i].(mediaTimestamp := a[i].mediaTimestamp + d, provenance := b[i].provenance)
  }

  lemma SameSoundJoin(a: seq<EncodedFrame>, b: seq<EncodedFrame>, c: seq<EncodedFrame>, d: seq<EncodedFrame>)
    requires SameSound(a, b, 0) && SameSound(c, d, 0)
    ensures SameSound(a + c, b + d, 0)
  {
  }

  lemma CopySounds(cfg: Config, x: Sent, y: Sent)
    requires Copy(x, y)
    ensures SameSound(TrueFrames(cfg, x), TrueFrames(cfg, y), 0)
  {
    hide TimestampStep, Bodies;
    CopySame(cfg, x, y);
  }

  lemma {:induction false} ArrangedSound(cfg: Config, arranged: seq<Sent>, stream: seq<Sent>, talk: seq<Sent>)
    requires Arranges(arranged, stream, talk)
    ensures SameSound(TrueAll(cfg, arranged), TrueAll(cfg, talk), 0)
  {
    hide TrueAll, TrueFrames, SameSound, Copy;
    if talk == [] {
      assert arranged == [];
      NothingSounds(cfg);
    } else {
      var n := |talk| - 1;
      ArrangedSound(cfg, arranged[..n], stream, talk[..n]);
      TrueAllUnfold(cfg, arranged);
      TrueAllUnfold(cfg, talk);
      CopySounds(cfg, arranged[n], talk[n]);
      SameSoundJoin(TrueAll(cfg, arranged[..n]), TrueAll(cfg, talk[..n]), TrueFrames(cfg, arranged[n]),
                    TrueFrames(cfg, talk[n]));
    }
  }

  lemma NothingSounds(cfg: Config)
    ensures SameSound(TrueAll(cfg, []), TrueAll(cfg, []), 0)
  {
  }

  lemma SameSoundMoved(
    a: seq<EncodedFrame>, b: seq<EncodedFrame>, talk: seq<EncodedFrame>, da: int, db: int)
    requires SameSound(a, talk, 0) && SameSound(b, talk, 0)
    ensures SameSound(MovedAll(a, da), MovedAll(b, db), db - da)
  {
    forall i | 0 <= i < |a|
      ensures Moved(b[i], db)
              == Moved(a[i], da).(mediaTimestamp := a[i].mediaTimestamp + da + (db - da), provenance := b[i].provenance)
    {
      assert talk[i] == a[i].(mediaTimestamp := a[i].mediaTimestamp + 0, provenance := talk[i].provenance);
      assert talk[i] == b[i].(mediaTimestamp := b[i].mediaTimestamp + 0, provenance := talk[i].provenance);
    }
  }

  lemma CyclesBetween(da: int, db: int, cycle: int)
    requires cycle > 0 && da % cycle == 0 && db % cycle == 0
    ensures (db - da) % cycle == 0
  {
    ShiftedRemainder(db - da, da, cycle);
  }

  /**
   * Two deliveries of the same packets, in whatever orders and with whatever copies, release the same frames in the
   * same order, all moved by one whole number of cycles.
   */
  lemma DeliveriesAgree(cfg: Config, a: seq<Sent>, b: seq<Sent>, talk: seq<Sent>, ga: int, gb: int)
    returns (d: int)
    requires cfg.limits.Valid() && InSendingOrder(cfg, talk)
    requires Delivered(cfg, a, ga) && Delivers(a, talk) && Delivered(cfg, b, gb) && Delivers(b, talk)
    ensures d % 0x1_0000_0000 == 0
    ensures SameSound(Complete(cfg, Captured(a)).released, Complete(cfg, Captured(b)).released, d)
  {
    hide Delivered, Delivers, InSendingOrder, Complete, Captured, TrueAll, MovedAll, Arranges, SameSound;
    var arrangedA, da := TalkReleased(cfg, a, talk, ga);
    var arrangedB, db := TalkReleased(cfg, b, talk, gb);
    ArrangedSound(cfg, arrangedA, a, talk);
    ArrangedSound(cfg, arrangedB, b, talk);
    SameSoundMoved(TrueAll(cfg, arrangedA), TrueAll(cfg, arrangedB), TrueAll(cfg, talk), da, db);
    CyclesBetween(da, db, 0x1_0000_0000);
    d := db - da;
  }

  // ---------------------------------------------------------------------------------------------
  // What the storage file holds
  // ---------------------------------------------------------------------------------------------

  /** The speech frames that the packets carry, in order. */
  ghost function TalkBodies(cfg: Config, talk: seq<Sent>): seq<Body> {
    if talk == [] then []
    else
      var last := Bodies(cfg.codec, cfg.mode, talk[|talk| - 1].record.payload);
      TalkBodies(cfg, talk[..|talk| - 1]) + (if last.Ok? then last.value else [])
  }

  lemma AllPackMoved(codec: Codec, frames: seq<EncodedFrame>, bodies: seq<Body>, d: int)
    requires AllPack(codec, frames, bodies)
    ensures AllPack(codec, MovedAll(frames, d), bodies)
  {
    hide Pack, ValidBody;
  }

  lemma AllPackConcat(
    codec: Codec, a: seq<EncodedFrame>, b: seq<EncodedFrame>, bodies: seq<Body>, more: seq<Body>)
    requires AllPack(codec, a, bodies) && AllPack(codec, b, more)
    ensures AllPack(codec, a + b, bodies + more)
  {
    hide Packs;
  }

  lemma NothingPacks(codec: Codec)
    ensures AllPack(codec, [], [])
  {
  }

  lemma {:induction false} TrueAllPack(cfg: Config, talk: seq<Sent>)
    ensures AllPack(cfg.codec, TrueAll(cfg, talk), TalkBodies(cfg, talk))
  {
    hide TrueAll, AllPack, Frames, Bodies;
    if talk == [] {
      NothingPacks(cfg.codec);
      ArrivedNothing(cfg, 0);
      assert talk == [];
    } else {
      var last := talk[|talk| - 1];
      TrueAllPack(cfg, talk[..|talk| - 1]);
      TrueAllUnfold(cfg, talk);
      ParsedFramesPack(last.record.payload, cfg.codec, cfg.mode, last.timestamp, last.record.provenance);
      NothingPacks(cfg.codec);
      var bodies := Bodies(cfg.codec, cfg.mode, last.record.payload);
      AllPackConcat(cfg.codec, TrueAll(cfg, talk[..|talk| - 1]), TrueFrames(cfg, last),
                    TalkBodies(cfg, talk[..|talk| - 1]), if bodies.Ok? then bodies.value else []);
    }
  }

  lemma {:induction false} ArrangedBodies(cfg: Config, arranged: seq<Sent>, stream: seq<Sent>, talk: seq<Sent>)
    requires Arranges(arranged, stream, talk)
    ensures TalkBodies(cfg, arranged) == TalkBodies(cfg, talk)
  {
    hide Copy, Bodies;
    if talk != [] {
      var n := |talk| - 1;
      ArrangedBodies(cfg, arranged[..n], stream, talk[..n]);
      CopySame(cfg, arranged[n], talk[n]);
    }
  }

  function Flatten(speech: seq<seq<Body>>): seq<Body> {
    if speech == [] then [] else Flatten(speech[..|speech| - 1]) + speech[|speech| - 1]
  }

  /** Each packet carries these frames behind some mode request. */
  ghost predicate Carries(cfg: Config, talk: seq<Sent>, requests: seq<ModeBits>, speech: seq<seq<Body>>) {
    && |talk| == |requests| == |speech|
    && forall k | 0 <= k < |talk| ::
         WellFormed(cfg.codec, speech[k]) && talk[k].record.payload == Encode(cfg.mode, requests[k], speech[k])
  }

  lemma {:induction false} CarriedBodies(cfg: Config, talk: seq<Sent>, requests: seq<ModeBits>, speech: seq<seq<Body>>)
    requires Carries(cfg, talk, requests, speech)
    ensures TalkBodies(cfg, talk) == Flatten(speech)
  {
    hide Bodies, Encode, WellFormed;
    if talk != [] {
      var n := |talk| - 1;
      CarriedBodies(cfg, talk[..n], requests[..n], speech[..n]);
      ParseUndoesEncode(cfg.codec, cfg.mode, requests[n], speech[n]);
    }
  }

  // ---------------------------------------------------------------------------------------------
  // Gap policies on the sender's frames
  // ---------------------------------------------------------------------------------------------

  /** Each packet starts one step after the last frame of the packet before it. */
  ghost predicate GapFree(cfg: Config, talk: seq<Sent>) {
    forall k | 0 <= k < |talk| - 1 :: talk[k + 1].timestamp == LastTrue(cfg, talk[k]) + TimestampStep(cfg.codec)
  }

  predicate Adjacent(frames: seq<EncodedFrame>, step: nat) {
    forall i | 0 <= i < |frames| - 1 :: frames[i + 1].mediaTimestamp == frames[i].mediaTimestamp + step
  }

  lemma AdjacentJoin(a: seq<EncodedFrame>, b: seq<EncodedFrame>, step: nat)
    requires Adjacent(a, step) && Adjacent(b, step)
    requires a != [] && b != [] ==> b[0].mediaTimestamp == a[|a| - 1].mediaTimestamp + step
    ensures Adjacent(a + b, step)
  {
  }

  lemma TrueFramesAdjacent(cfg: Config, x: Sent)
    requires FrameCount(cfg, x.record.payload) > 0
    ensures var frames := TrueFrames(cfg, x);
            && Adjacent(frames, TimestampStep(cfg.codec)) && frames != []
            && frames[0].mediaTimestamp == x.timestamp && frames[|frames| - 1].mediaTimestamp == LastTrue(cfg, x)
  {
    hide Bodies, TimestampStep, TrueFrames;
    var frames, step := TrueFrames(cfg, x), TimestampStep(cfg.codec);
    CountTrue(cfg, x);
    forall i | 0 <= i < |frames| - 1 ensures frames[i + 1].mediaTimestamp == frames[i].mediaTimestamp + step {
      FrameAt(cfg, x, i);
      FrameAt(cfg, x, i + 1);
      assert (i + 1) * step == i * step + step;
    }
    FrameAt(cfg, x, 0);
    FrameAt(cfg, x, |frames| - 1);
  }

  lemma {:induction false} TrueAllAdjacent(cfg: Config, talk: seq<Sent>)
    requires GapFree(cfg, talk) && forall x | x in talk :: FrameCount(cfg, x.record.payload) > 0
    ensures Adjacent(TrueAll(cfg, talk), TimestampStep(cfg.codec))
    ensures talk != [] ==>
              var frames := TrueAll(cfg, talk);
              frames != [] && frames[|frames| - 1].mediaTimestamp == LastTrue(cfg, talk[|talk| - 1])
  {
    hide TrueAll, TrueFrames, LastTrue, TimestampStep, FrameCount, Adjacent;
    if talk == [] {
      ArrivedNothing(cfg, 0);
      assert talk == [];
      NothingAdjacent(TimestampStep(cfg.codec));
    } else {
      var n := |talk| - 1;
      assert talk == talk[..n] + [talk[n]];
      TrueAllAdjacent(cfg, talk[..n]);
      TrueAllUnfold(cfg, talk);
      TrueFramesAdjacent(cfg, talk[n]);
      if n == 0 {
        ArrivedNothing(cfg, 0);
      } else {
        assert talk[n - 1 + 1].timestamp == LastTrue(cfg, talk[n - 1]) + TimestampStep(cfg.codec);
      }
      AdjacentJoin(TrueAll(cfg, talk[..n]), TrueFrames(cfg, talk[n]), TimestampStep(cfg.codec));
    }
  }

  lemma NothingAdjacent(step: nat)
    ensures Adjacent([], step)
  {
  }

  lemma AdjacentMoved(frames: seq<EncodedFrame>, step: nat, d: int)
    requires Adjacent(frames, step)
    ensures Adjacent(MovedAll(frames, d), step)
  {
    forall i | 0 <= i < |frames| - 1
      ensures Moved(frames[i + 1], d).mediaTimestamp == Moved(frames[i], d).mediaTimestamp + step
    {
    }
  }

  lemma EmitsAlone(codec: Codec, policy: GapPolicy, committed: Option<int>, frame: EncodedFrame)
    requires policy.Omit? || committed.None? || frame.mediaTimestamp == committed.value + TimestampStep(codec)
    ensures EmissionsAt(codec, policy, committed, frame) == [Emission(frame, false)]
  {
    hide TimestampStep;
  }

  /** Frames one step apart, or any frames under OMIT, are emitted as they are. */
  lemma {:induction false} EmitsExactly(codec: Codec, policy: GapPolicy, frames: seq<EncodedFrame>)
    requires policy.Omit? || Adjacent(frames, TimestampStep(codec))
    ensures FramesIn(Emissions(codec, policy, None, frames)) == frames
  {
    hide TimestampStep, EmissionsAt, Emissions, Missing, Gaps;
    if frames == [] {
      EmissionsNothing(codec, policy, None);
      assert frames == [];
    } else {
      var front, last := frames[..|frames| - 1], frames[|frames| - 1];
      assert frames == front + [last];
      EmitsExactly(codec, policy, front);
      EmissionsLast(codec, policy, None, front, last);
      EmitsAlone(codec, policy, CommittedAfter(None, front), last);
    }
  }

  lemma ArrangedGapFree(cfg: Config, arranged: seq<Sent>, stream: seq<Sent>, talk: seq<Sent>)
    requires Arranges(arranged, stream, talk) && GapFree(cfg, talk)
    ensures GapFree(cfg, arranged)
  {
    hide LastTrue, SamePacket, TimestampStep;
    forall k | 0 <= k < |arranged| - 1
      ensures arranged[k + 1].timestamp == LastTrue(cfg, arranged[k]) + TimestampStep(cfg.codec)
    {
      CopySame(cfg, arranged[k], talk[k]);
    }
  }

  lemma ArrangedReadable(cfg: Config, arranged: seq<Sent>, stream: seq<Sent>, talk: seq<Sent>, g: int)
    requires Arranges(arranged, stream, talk) && Delivered(cfg, stream, g)
    ensures forall x | x in arranged :: FrameCount(cfg, x.record.payload) > 0
  {
    hide FrameCount, Delivered, Copy;
    AllReadable(cfg, stream, g);
  }

  lemma {:induction false} AllReadable(cfg: Config, stream: seq<Sent>, g: int)
    requires Delivered(cfg, stream, g)
    ensures forall x | x in stream :: FrameCount(cfg, x.record.payload) > 0
  {
    hide Delivered, FrameCount, Faithful, Near, Congruent, Distinct, Seen, InTime;
    if stream != [] {
      var front, last := stream[..|stream| - 1], stream[|stream| - 1];
      assert stream == front + [last];
      DeliveredAppend(cfg, front, last, g);
      AllReadable(cfg, front, g);
    }
  }

  /**
   * End to end: speech frames, split into packets in either payload format behind any mode requests, numbered modulo
   * 2^16 and 2^32, then reordered and duplicated, are stored as the magic header and the original frames in their
   * original order, which is what a reader of the storage format gets back.
   */
  lemma SpeechRestored(
    cfg: Config, stream: seq<Sent>, talk: seq<Sent>, requests: seq<ModeBits>, speech: seq<seq<Body>>, g: int)
    requires cfg.limits.Valid() && Delivered(cfg, stream, g) && Delivers(stream, talk) && InSendingOrder(cfg, talk)
    requires Carries(cfg, talk, requests, speech)
    requires cfg.policy.Omit? || GapFree(cfg, talk)
    ensures var frames := FramesIn(Complete(cfg, Captured(stream)).emitted);
            && AllWritable(cfg.codec, frames)
            && StorageHeader(cfg.codec) + StoredFrames(cfg.codec, frames) == StorageStream(cfg.codec, Flatten(speech))
            && ReadStorage(cfg.codec, StorageHeader(cfg.codec) + StoredFrames(cfg.codec, frames))
               == Some(Flatten(speech))
  {
    hide Delivered, Delivers, InSendingOrder, Carries, Complete, Captured, TrueAll, MovedAll, Emissions, Gaps, Best;
    hide AllPack, ReadStorage, StoredBodies, StoredFrames, AllWritable, InOrder, Arranges, GapFree, Flatten, TalkBodies;
    hide StorageHeader, Adjacent;
    var codec := cfg.codec;
    var arranged, d := TalkReleased(cfg, stream, talk, g);
    var released := MovedAll(TrueAll(cfg, arranged), d);
    CompleteIsSorting(cfg, Captured(stream));
    if !cfg.policy.Omit? {
      ArrangedGapFree(cfg, arranged, stream, talk);
      ArrangedReadable(cfg, arranged, stream, talk, g);
      TrueAllAdjacent(cfg, arranged);
      AdjacentMoved(TrueAll(cfg, arranged), TimestampStep(codec), d);
    }
    EmitsExactly(codec, cfg.policy, released);
    TrueAllPack(cfg, arranged);
    ArrangedBodies(cfg, arranged, stream, talk);
    CarriedBodies(cfg, talk, requests, speech);
    AllPackMoved(codec, TrueAll(cfg, arranged), Flatten(speech), d);
    PackedFramesStore(codec, released, Flatten(speech));
    AllPackValid(codec, released, Flatten(speech));
    StorageIffStream(codec, StorageStream(codec, Flatten(speech)), Flatten(speech));
  }

  lemma AllPackValid(codec: Codec, frames: seq<EncodedFrame>, bodies: seq<Body>)
    requires AllPack(codec, frames, bodies)
    ensures AllValid(codec, bodies)
  {
    hide ValidBody, FrameOf;
    forall i | 0 <= i < |bodies| ensures ValidBody(codec, bodies[i]) {
      assert Packs(frames[i], bodies[i]);
    }
  }
}
