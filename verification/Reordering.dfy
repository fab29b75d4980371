/** Arrival order does not matter: the same packets in another order give the same output, up to whole cycles. */
module Reordering {
  import opened Models
  import opened CodecTables
  import opened Rfc4867
  import opened Timeline
  import opened Buffering
  import opened Runs
  import opened Windows
  import opened Accounts
  import opened Wraps

  // ---------------------------------------------------------------------------------------------
  // Moving frames in time
  // ---------------------------------------------------------------------------------------------

  function Moved(frame: EncodedFrame, d: int): EncodedFrame {
    frame.(mediaTimestamp := frame.mediaTimestamp + d)
  }

  function MovedAll(frames: seq<EncodedFrame>, d: int): (moved: seq<EncodedFrame>)
    ensures |moved| == |frames|
  {
    seq(|frames|, i requires 0 <= i < |frames| => Moved(frames[i], d))
  }

  lemma MovedConcat(a: seq<EncodedFrame>, b: seq<EncodedFrame>, d: int)
    ensures MovedAll(a + b, d) == MovedAll(a, d) + MovedAll(b, d)
  {
  }

  lemma FramesMoved(codec: Codec, bodies: seq<Body>, timestamp: int, provenance: Provenance, d: int)
    ensures Frames(codec, bodies, timestamp + d, provenance)
            == MovedAll(Frames(codec, bodies, timestamp, provenance), d)
  {
    hide TimestampStep;
  }

  /** A buffer moved in time: the same frames at moved timestamps. */
  ghost predicate MovedAt(a: Pending, b: Pending, d: int, t: int) {
    && (t in b <==> t - d in a)
    && (t in b ==> b[t] == Moved(a[t - d], d))
  }

  ghost predicate IsMoved(a: Pending, b: Pending, d: int) {
    forall t :: MovedAt(a, b, d, t)
  }

  lemma PreferMoved(f: EncodedFrame, g: EncodedFrame, d: int)
    ensures Prefer(Moved(f, d), Moved(g, d)) == Prefer(f, g)
  {
  }

  lemma InsertAt(pending: Pending, f: EncodedFrame, t: int)
    ensures t in Insert(pending, f) <==> t in pending || t == f.mediaTimestamp
    ensures t in pending && t != f.mediaTimestamp ==> Insert(pending, f)[t] == pending[t]
    ensures t == f.mediaTimestamp ==>
              Insert(pending, f)[t] == if t !in pending || Prefer(f, pending[t]) then f else pending[t]
  {
    hide Prefer;
  }

  lemma InsertMovedAt(a: Pending, b: Pending, f: EncodedFrame, d: int, t: int)
    requires MovedAt(a, b, d, t)
    ensures MovedAt(Insert(a, f), Insert(b, Moved(f, d)), d, t)
  {
    hide Prefer, Insert;
    InsertAt(a, f, t - d);
    InsertAt(b, Moved(f, d), t);
    if t in b && t == f.mediaTimestamp + d {
      PreferMoved(f, a[t - d], d);
    }
  }

  lemma InsertMoved(a: Pending, b: Pending, f: EncodedFrame, d: int)
    requires IsMoved(a, b, d)
    ensures IsMoved(Insert(a, f), Insert(b, Moved(f, d)), d)
  {
    hide Prefer, Insert, MovedAt;
    forall t ensures MovedAt(Insert(a, f), Insert(b, Moved(f, d)), d, t) {
      assert MovedAt(a, b, d, t);
      InsertMovedAt(a, b, f, d, t);
    }
  }

  lemma MovedFront(frames: seq<EncodedFrame>, d: int)
    requires frames != []
    ensures var moved, n := MovedAll(frames, d), |frames| - 1;
            moved[..n] == MovedAll(frames[..n], d) && moved[n] == Moved(frames[n], d)
  {
  }

  lemma {:induction false} BestMoved(frames: seq<EncodedFrame>, d: int)
    ensures IsMoved(Best(frames), Best(MovedAll(frames, d)), d)
  {
    hide Best, IsMoved, Insert, MovedAll;
    if frames == [] {
      BestNothing(d);
      assert frames == [];
    } else {
      var front, last := frames[..|frames| - 1], frames[|frames| - 1];
      BestMoved(front, d);
      BestStep(frames);
      BestStep(MovedAll(frames, d));
      MovedFront(frames, d);
      InsertMoved(Best(front), Best(MovedAll(front, d)), last, d);
    }
  }

  lemma BestNothing(d: int)
    ensures IsMoved(Best([]), Best(MovedAll([], d)), d)
  {
  }

  /** Sorted frame sequences with the same frames are equal. */
  lemma {:induction false} SortedFramesUnique(a: seq<EncodedFrame>, b: seq<EncodedFrame>)
    requires SortedByTime(a) && SortedByTime(b)
    requires forall f :: f in a <==> f in b
    ensures a == b
  {
    if a == [] || b == [] {
      if a != [] {
        FirstIn(a);
      }
      if b != [] {
        FirstIn(b);
      }
    } else {
      FirstIn(a);
      FirstIn(b);
      SortedFirsts(a, b);
      forall f ensures f in a[1..] <==> f in b[1..] {
        RestMembers(a, f);
        RestMembers(b, f);
      }
      SortedFramesUnique(a[1..], b[1..]);
      assert a == [a[0]] + a[1..] && b == [b[0]] + b[1..];
    }
  }

  lemma FirstIn(a: seq<EncodedFrame>)
    requires a != []
    ensures a[0] in a
  {
  }

  lemma SortedFirsts(a: seq<EncodedFrame>, b: seq<EncodedFrame>)
    requires SortedByTime(a) && SortedByTime(b) && a != [] && b != [] && a[0] in b && b[0] in a
    ensures a[0] == b[0]
  {
  }

  lemma RestMembers(a: seq<EncodedFrame>, f: EncodedFrame)
    requires SortedByTime(a) && a != []
    ensures f in a[1..] <==> f in a && f != a[0]
  {
    if f in a && f != a[0] {
      var i :| 0 <= i < |a| && a[i] == f;
      assert a[1..][i - 1] == f;
    }
  }

  lemma MovedMembers(frames: seq<EncodedFrame>, d: int, f: EncodedFrame)
    ensures f in MovedAll(frames, d) <==> Moved(f, -d) in frames
  {
    if f in MovedAll(frames, d) {
      var i :| 0 <= i < |frames| && MovedAll(frames, d)[i] == f;
      assert Moved(f, -d) == frames[i];
    }
    if Moved(f, -d) in frames {
      var i :| 0 <= i < |frames| && frames[i] == Moved(f, -d);
      assert MovedAll(frames, d)[i] == f;
    }
  }

  lemma MovedHolds(a: Pending, b: Pending, d: int, f: EncodedFrame)
    requires IsMoved(a, b, d)
    ensures var t := f.mediaTimestamp;
            t in b && b[t] == f <==> t - d in a && a[t - d] == Moved(f, -d)
  {
    hide IsMoved;
    assert MovedAt(a, b, d, f.mediaTimestamp) by { MovedAnywhere(a, b, d, f.mediaTimestamp); }
  }

  lemma MovedAnywhere(a: Pending, b: Pending, d: int, t: int)
    requires IsMoved(a, b, d)
    ensures MovedAt(a, b, d, t)
  {
    hide MovedAt;
  }

  lemma MovedSorted(frames: seq<EncodedFrame>, d: int)
    requires SortedByTime(frames)
    ensures SortedByTime(MovedAll(frames, d))
  {
  }

  lemma InOrderMembers(pending: Pending, f: EncodedFrame)
    requires Keyed(pending)
    ensures f in InOrder(pending) <==> f.mediaTimestamp in pending && pending[f.mediaTimestamp] == f
  {
    hide InOrder;
    InOrderSorted(pending);
  }

  lemma InOrderMoved(a: Pending, b: Pending, d: int)
    requires Keyed(a) && Keyed(b) && IsMoved(a, b, d)
    ensures InOrder(b) == MovedAll(InOrder(a), d)
  {
    hide InOrder, MovedAll, IsMoved, SortedByTime, Keyed;
    SortedInOrder(a);
    SortedInOrder(b);
    MovedSorted(InOrder(a), d);
    forall f ensures f in InOrder(b) <==> f in MovedAll(InOrder(a), d) {
      MovedMembers(InOrder(a), d, f);
      InOrderMembers(b, f);
      InOrderMembers(a, Moved(f, -d));
      MovedHolds(a, b, d, f);
    }
    SortedFramesUnique(InOrder(b), MovedAll(InOrder(a), d));
  }

  lemma SortedInOrder(pending: Pending)
    requires Keyed(pending)
    ensures SortedByTime(InOrder(pending))
  {
    hide InOrder;
    InOrderSorted(pending);
  }

  lemma BestInOrderMoved(frames: seq<EncodedFrame>, d: int)
    ensures InOrder(Best(MovedAll(frames, d))) == MovedAll(InOrder(Best(frames)), d)
  {
    hide InOrder, InsertAll, IsMoved;
    BestMoved(frames, d);
    InsertAllKeys(map[], frames);
    InsertAllKeys(map[], MovedAll(frames, d));
    InOrderMoved(Best(frames), Best(MovedAll(frames, d)), d);
  }

  // ---------------------------------------------------------------------------------------------
  // The true frames of a stream
  // ---------------------------------------------------------------------------------------------

  ghost function TrueFrames(cfg: Config, x: Sent): seq<EncodedFrame> {
    var bodies := Bodies(cfg.codec, cfg.mode, x.record.payload);
    if bodies.Ok? then Frames(cfg.codec, bodies.value, x.timestamp, x.record.provenance) else []
  }

  ghost function TrueAll(cfg: Config, stream: seq<Sent>): seq<EncodedFrame> {
    if stream == [] then []
    else TrueAll(cfg, stream[..|stream| - 1]) + TrueFrames(cfg, stream[|stream| - 1])
  }

  /** Every packet has a timestamp less than half a cycle away, and every accepted one arrives inside the window. */
  ghost predicate Clean(cfg: Config, stream: seq<Sent>) {
    NearRunIn(MediaTimestamp, cfg, stream) && AllInWindow(cfg, Captured(stream))
  }

  function TakenOf(outcomes: seq<Outcome>, stream: seq<Sent>): seq<Sent>
    requires |outcomes| == |stream|
  {
    if stream == [] then []
    else
      var n := |stream| - 1;
      TakenOf(outcomes[..n], stream[..n]) + (if outcomes[n].Accepted? then [stream[n]] else [])
  }

  /** The packets that are accepted, the first arrivals in a run that drops copies. */
  ghost function Taken(cfg: Config, stream: seq<Sent>): seq<Sent> {
    TakenOf(Run(cfg, Captured(stream)).outcomes, stream)
  }

  lemma {:induction false} AllTakenOf(outcomes: seq<Outcome>, stream: seq<Sent>)
    requires |outcomes| == |stream| && forall i | 0 <= i < |outcomes| :: outcomes[i].Accepted?
    ensures TakenOf(outcomes, stream) == stream
  {
    if stream != [] {
      var n := |stream| - 1;
      AllTakenOf(outcomes[..n], stream[..n]);
      assert stream == stream[..n] + [stream[n]];
    }
  }

  lemma {:induction false} OutcomeAt(cfg: Config, records: seq<RtpRecord>, i: nat)
    requires i < |records|
    ensures Run(cfg, records).outcomes[i] == OutcomeOf(cfg, Run(cfg, records[..i]).state, records[i])
  {
    hide Run, PushRecord, OutcomeOf;
    var front := records[..|records| - 1];
    RunUnfold(cfg, records);
    PushOutcome(cfg, Run(cfg, front).state, records[|records| - 1]);
    if i < |front| {
      OutcomeAt(cfg, front, i);
      assert front[..i] == records[..i];
    } else {
      assert front == records[..i];
    }
  }

  lemma AcceptedFrames(cfg: Config, s: State, x: Sent, o: Offset)
    requires OutcomeOf(cfg, s, x.record).Accepted?
    requires OutcomeOf(cfg, s, x.record).timestamp == x.timestamp + o.timestamp
    ensures OutcomeOf(cfg, s, x.record).frames == MovedAll(TrueFrames(cfg, x), o.timestamp)
  {
    hide OutcomeOf, Bodies, Frames, ExtendedSequence, ExtendedTimestamp, MovedAll, Spaced, Retained, Holds;
    AcceptedPacket(cfg, s, x.record);
    var bodies := Bodies(cfg.codec, cfg.mode, x.record.payload);
    FramesMoved(cfg.codec, bodies.value, x.timestamp, x.record.provenance, o.timestamp);
  }

  /** Each accepted outcome carries the packet's true frames, moved. */
  ghost predicate AllMoved(cfg: Config, outcomes: seq<Outcome>, stream: seq<Sent>, d: int)
    requires |outcomes| == |stream|
  {
    forall i | 0 <= i < |stream| && outcomes[i].Accepted? ::
      outcomes[i].frames == MovedAll(TrueFrames(cfg, stream[i]), d)
  }

  lemma AllMovedFront(cfg: Config, outcomes: seq<Outcome>, stream: seq<Sent>, d: int)
    requires |outcomes| == |stream| && stream != [] && AllMoved(cfg, outcomes, stream, d)
    ensures var n := |stream| - 1;
            && AllMoved(cfg, outcomes[..n], stream[..n], d)
            && FramesOf(outcomes[n]) == if outcomes[n].Accepted? then MovedAll(TrueFrames(cfg, stream[n]), d) else []
  {
    hide MovedAll, TrueFrames;
  }

  lemma {:induction false} ArrivedMoved(cfg: Config, outcomes: seq<Outcome>, stream: seq<Sent>, d: int)
    requires |outcomes| == |stream| && AllMoved(cfg, outcomes, stream, d)
    ensures Arrived(outcomes) == MovedAll(TrueAll(cfg, TakenOf(outcomes, stream)), d)
  {
    hide MovedAll, TrueFrames, Arrived, TrueAll, AllMoved, FramesOf;
    if stream == [] {
      assert outcomes == [];
      ArrivedNothing(cfg, d);
    } else {
      var n := |stream| - 1;
      AllMovedFront(cfg, outcomes, stream, d);
      ArrivedMoved(cfg, outcomes[..n], stream[..n], d);
      ArrivedAppend(outcomes[..n], outcomes[n]);
      assert outcomes == outcomes[..n] + [outcomes[n]];
      var taken := TakenOf(outcomes[..n], stream[..n]);
      if outcomes[n].Accepted? {
        var all := taken + [stream[n]];
        assert all[..|all| - 1] == taken && all[|all| - 1] == stream[n];
        TrueAllUnfold(cfg, all);
        MovedConcat(TrueAll(cfg, taken), TrueFrames(cfg, stream[n]), d);
      } else {
        assert taken + [] == taken && Arrived(outcomes[..n]) + [] == Arrived(outcomes[..n]);
      }
    }
  }

  lemma ArrivedNothing(cfg: Config, d: int)
    ensures Arrived([]) == [] && TrueAll(cfg, []) == [] && MovedAll([], d) == []
  {
  }

  lemma TrueAllUnfold(cfg: Config, stream: seq<Sent>)
    requires stream != []
    ensures var n := |stream| - 1;
            TrueAll(cfg, stream) == TrueAll(cfg, stream[..n]) + TrueFrames(cfg, stream[n])
  {
  }

  lemma CleanArrived(cfg: Config, stream: seq<Sent>)
    requires Clean(cfg, stream)
    ensures Arrived(Run(cfg, Captured(stream)).outcomes)
            == MovedAll(TrueAll(cfg, Taken(cfg, stream)), OffsetOf(cfg, stream).timestamp)
  {
    hide Run, OutcomeOf, MovedAll, TrueFrames, TrueAll, Arrived, NearRunIn, AllInWindow, OffsetOf, TrueHighs, TracksOne;
    hide ExtendedTimestamp;
    TimestampsRecovered(cfg, stream);
    var outcomes, o := Run(cfg, Captured(stream)).outcomes, OffsetOf(cfg, stream);
    forall i | 0 <= i < |stream| && outcomes[i].Accepted?
      ensures outcomes[i].frames == MovedAll(TrueFrames(cfg, stream[i]), o.timestamp)
    {
      OutcomeAt(cfg, Captured(stream), i);
      AcceptedFrames(cfg, Run(cfg, Captured(stream)[..i]).state, stream[i], o);
    }
    ArrivedMoved(cfg, outcomes, stream, o.timestamp);
  }

  /** A clean run releases the best true frames of its accepted packets in order, moved by whole cycles. */
  lemma CleanReleases(cfg: Config, stream: seq<Sent>)
    requires cfg.limits.Valid() && Clean(cfg, stream)
    ensures OffsetOf(cfg, stream).timestamp % 0x1_0000_0000 == 0
    ensures Complete(cfg, Captured(stream)).released
            == MovedAll(InOrder(Best(TrueAll(cfg, Taken(cfg, stream)))), OffsetOf(cfg, stream).timestamp)
  {
    hide Run, Complete, MovedAll, TrueAll, Arrived, NearRunIn, AllInWindow, OffsetOf, TrueHighs, InOrder, Best;
    hide ExtendedTimestamp, TracksOne;
    TimestampsRecovered(cfg, stream);
    CleanArrived(cfg, stream);
    BufferingRefinesSorting(cfg, Captured(stream));
    BestInOrderMoved(TrueAll(cfg, Taken(cfg, stream)), OffsetOf(cfg, stream).timestamp);
  }

  // ---------------------------------------------------------------------------------------------
  // The same packets in another order
  // ---------------------------------------------------------------------------------------------

  ghost predicate SameSent(a: seq<Sent>, b: seq<Sent>) {
    forall x :: x in a <==> x in b
  }

  /** Distinct packets were captured at positions that can be told apart. */
  ghost predicate DistinctCaptures(stream: seq<Sent>) {
    forall x, y | x in stream && y in stream && x != y ::
      Earlier(x.record.provenance, y.record.provenance) || Earlier(y.record.provenance, x.record.provenance)
  }

  ghost predicate SentFrame(cfg: Config, stream: seq<Sent>, f: EncodedFrame) {
    exists i :: 0 <= i < |stream| && f in TrueFrames(cfg, stream[i])
  }

  lemma SentFrameStep(cfg: Config, stream: seq<Sent>, f: EncodedFrame)
    requires stream != []
    ensures var n := |stream| - 1;
            SentFrame(cfg, stream, f) <==> SentFrame(cfg, stream[..n], f) || f in TrueFrames(cfg, stream[n])
  {
    hide TrueFrames;
    var n := |stream| - 1;
    if SentFrame(cfg, stream[..n], f) {
      var i :| 0 <= i < n && f in TrueFrames(cfg, stream[..n][i]);
      assert f in TrueFrames(cfg, stream[i]);
    }
    if SentFrame(cfg, stream, f) && f !in TrueFrames(cfg, stream[n]) {
      var i :| 0 <= i < |stream| && f in TrueFrames(cfg, stream[i]);
      assert stream[..n][i] == stream[i];
    }
  }

  lemma {:induction false} TrueAllMembers(cfg: Config, stream: seq<Sent>, f: EncodedFrame)
    ensures f in TrueAll(cfg, stream) <==> SentFrame(cfg, stream, f)
  {
    hide TrueFrames, TrueAll;
    if stream == [] {
      ArrivedNothing(cfg, 0);
      assert stream == [];
    } else {
      hide SentFrame;
      TrueAllMembers(cfg, stream[..|stream| - 1], f);
      TrueAllUnfold(cfg, stream);
      SentFrameStep(cfg, stream, f);
    }
  }

  lemma SentFrameSame(cfg: Config, a: seq<Sent>, b: seq<Sent>, f: EncodedFrame)
    requires SameSent(a, b) && SentFrame(cfg, a, f)
    ensures SentFrame(cfg, b, f)
  {
    hide TrueFrames;
    var i :| 0 <= i < |a| && f in TrueFrames(cfg, a[i]);
    assert a[i] in b;
    var j :| 0 <= j < |b| && b[j] == a[i];
  }

  lemma TrueFramesTold(cfg: Config, x: Sent, y: Sent, f: EncodedFrame, g: EncodedFrame)
    requires f in TrueFrames(cfg, x) && g in TrueFrames(cfg, y) && f.mediaTimestamp == g.mediaTimestamp
    ensures f.provenance == x.record.provenance && g.provenance == y.record.provenance
    ensures x == y ==> f == g
  {
    hide Bodies, TimestampStep, FrameOf;
    if x == y {
      var frames, step := TrueFrames(cfg, x), TimestampStep(cfg.codec);
      var i :| 0 <= i < |frames| && frames[i] == f;
      var j :| 0 <= j < |frames| && frames[j] == g;
      FrameAt(cfg, x, i);
      FrameAt(cfg, x, j);
      assert i * step == j * step;
      FactorEqual(i, j, step);
    } else {
      var frames := TrueFrames(cfg, x);
      var i :| 0 <= i < |frames| && frames[i] == f;
      FrameAt(cfg, x, i);
      var other := TrueFrames(cfg, y);
      var j :| 0 <= j < |other| && other[j] == g;
      FrameAt(cfg, y, j);
    }
  }

  lemma FrameAt(cfg: Config, x: Sent, i: nat)
    requires i < |TrueFrames(cfg, x)|
    ensures TrueFrames(cfg, x)[i].mediaTimestamp == x.timestamp + i * TimestampStep(cfg.codec)
    ensures TrueFrames(cfg, x)[i].provenance == x.record.provenance
  {
    hide Bodies, TimestampStep;
  }

  lemma FactorEqual(a: int, b: int, step: nat)
    requires step > 0 && a * step == b * step
    ensures a == b
  {
    assert (a - b) * step == 0;
  }

  lemma TrueAllDistinguished(cfg: Config, stream: seq<Sent>)
    requires DistinctCaptures(stream)
    ensures Distinguished(TrueAll(cfg, stream))
  {
    hide TrueAll, TrueFrames, Earlier;
    var all := TrueAll(cfg, stream);
    forall f, g | f in all && g in all && f.mediaTimestamp == g.mediaTimestamp && f != g
      ensures Earlier(f.provenance, g.provenance) || Earlier(g.provenance, f.provenance)
    {
      TrueAllMembers(cfg, stream, f);
      TrueAllMembers(cfg, stream, g);
      var i :| 0 <= i < |stream| && f in TrueFrames(cfg, stream[i]);
      var j :| 0 <= j < |stream| && g in TrueFrames(cfg, stream[j]);
      TrueFramesTold(cfg, stream[i], stream[j], f, g);
    }
  }

  /**
   * Two clean runs that accept the same packets, in whatever orders and with whatever else they drop, release the same
   * frames in the same order, each up to its own whole number of timestamp cycles, if the captures of those packets can
   * be told apart. The copies that are dropped do not matter; which copy is accepted may, by its capture alone.
   */
  lemma ArrivalOrderIsIrrelevant(cfg: Config, a: seq<Sent>, b: seq<Sent>)
    requires cfg.limits.Valid() && Clean(cfg, a) && Clean(cfg, b)
    requires SameSent(Taken(cfg, a), Taken(cfg, b)) && DistinctCaptures(Taken(cfg, a))
    ensures var frames := InOrder(Best(TrueAll(cfg, Taken(cfg, a))));
            && Complete(cfg, Captured(a)).released == MovedAll(frames, OffsetOf(cfg, a).timestamp)
            && Complete(cfg, Captured(b)).released == MovedAll(frames, OffsetOf(cfg, b).timestamp)
            && OffsetOf(cfg, a).timestamp % 0x1_0000_0000 == 0 && OffsetOf(cfg, b).timestamp % 0x1_0000_0000 == 0
  {
    hide Run, Complete, MovedAll, TrueAll, Clean, OffsetOf, InOrder, Best, DistinctCaptures, TrueFrames, Distinguished;
    hide SentFrame, Taken;
    CleanReleases(cfg, a);
    CleanReleases(cfg, b);
    var x, y := Taken(cfg, a), Taken(cfg, b);
    TrueAllDistinguished(cfg, x);
    forall f ensures f in TrueAll(cfg, x) <==> f in TrueAll(cfg, y) {
      TrueAllMembers(cfg, x, f);
      TrueAllMembers(cfg, y, f);
      if SentFrame(cfg, x, f) {
        SentFrameSame(cfg, x, y, f);
      }
      if SentFrame(cfg, y, f) {
        SentFrameSame(cfg, y, x, f);
      }
    }
    BestIgnoresOrder(TrueAll(cfg, x), TrueAll(cfg, y));
  }
}
