/** What arrives of a sender's packets: reordered, duplicated, but near enough to be put right. */
module Delivery {
  import opened Models
  import opened CodecTables
  import opened Timeline
  import opened Windows
  import opened Histories
  import opened Capacity
  import opened Wraps
  import opened SentHistories

  // ---------------------------------------------------------------------------------------------
  // Copies
  // ---------------------------------------------------------------------------------------------

  /** The same packet, captured at whatever position. */
  predicate Copy(x: Sent, y: Sent) {
    x.sequence == y.sequence && x.timestamp == y.timestamp && SamePacket(x.record, y.record)
  }

  ghost predicate Seen(stream: seq<Sent>, x: Sent) {
    exists i :: 0 <= i < |stream| && Copy(stream[i], x)
  }

  /** The first arrival of every packet. */
  ghost function Firsts(stream: seq<Sent>): seq<Sent> {
    if stream == [] then []
    else
      var front, last := stream[..|stream| - 1], stream[|stream| - 1];
      if Seen(front, last) then Firsts(front) else Firsts(front) + [last]
  }

  lemma CopyOrder(x: Sent, y: Sent, z: Sent)
    ensures Copy(x, x) && (Copy(x, y) ==> Copy(y, x)) && (Copy(x, y) && Copy(y, z) ==> Copy(x, z))
  {
    hide IdentityOf;
  }

  lemma SeenAppend(stream: seq<Sent>, last: Sent, x: Sent)
    ensures Seen(stream + [last], x) <==> Seen(stream, x) || Copy(last, x)
  {
    hide Copy;
    var longer := stream + [last];
    if Seen(stream, x) {
      var i :| 0 <= i < |stream| && Copy(stream[i], x);
      assert Copy(longer[i], x);
    }
    assert longer[|stream|] == last;
  }

  lemma SeenCopy(stream: seq<Sent>, x: Sent, y: Sent)
    requires Copy(x, y)
    ensures Seen(stream, x) <==> Seen(stream, y)
  {
    hide Copy;
    CopyOrder(x, y, x);
    if Seen(stream, x) {
      var i :| 0 <= i < |stream| && Copy(stream[i], x);
      CopyOrder(stream[i], x, y);
    }
    if Seen(stream, y) {
      var i :| 0 <= i < |stream| && Copy(stream[i], y);
      CopyOrder(stream[i], y, x);
    }
  }

  lemma {:induction false} FirstsSeen(stream: seq<Sent>, x: Sent)
    ensures Seen(Firsts(stream), x) <==> Seen(stream, x)
  {
    if stream != [] {
      hide Seen, Copy;
      var front, last := stream[..|stream| - 1], stream[|stream| - 1];
      FirstsSeen(front, x);
      assert stream == front + [last];
      SeenAppend(front, last, x);
      SeenAppend(Firsts(front), last, x);
      if Copy(last, x) {
        SeenCopy(front, last, x);
      }
    }
  }

  lemma {:induction false} FirstsMembers(stream: seq<Sent>)
    ensures forall x | x in Firsts(stream) :: x in stream
  {
    if stream != [] {
      hide Seen;
      FirstsMembers(stream[..|stream| - 1]);
      assert stream == stream[..|stream| - 1] + [stream[|stream| - 1]];
    }
  }

  // ---------------------------------------------------------------------------------------------
  // What a delivery keeps to
  // ---------------------------------------------------------------------------------------------

  function Raise(highs: Highs, x: Sent, last: int): Highs {
    Highs(Higher(highs.sequence, x.sequence), Higher(Higher(highs.timestamp, x.timestamp), last))
  }

  /** The highest sequence number and last-frame timestamp sent of what has arrived. */
  ghost function SentHighs(cfg: Config, stream: seq<Sent>): Highs {
    if stream == [] then Highs(None, None)
    else
      var last := stream[|stream| - 1];
      Raise(SentHighs(cfg, stream[..|stream| - 1]), last, LastTrue(cfg, last))
  }

  /** A packet of its own: no other packet shares its sequence number, and at most three end where it ends. */
  ghost predicate Distinct(cfg: Config, stream: seq<Sent>, x: Sent) {
    && (forall i | 0 <= i < |stream| && !Copy(stream[i], x) :: stream[i].sequence != x.sequence)
    && |SentIdentities(cfg, stream + [x], LastTrue(cfg, x))| <= 3
  }

  ghost predicate InTime(cfg: Config, highs: Highs, x: Sent) {
    highs.timestamp.Some? ==>
      x.timestamp > highs.timestamp.value - cfg.limits.reorderWindow * TimestampStep(cfg.codec)
  }

  /**
   * One more packet may arrive: well formed, on the grid, less than half a cycle away, first time inside the window.
   */
  ghost predicate Arrives(cfg: Config, front: seq<Sent>, x: Sent, g: int) {
    && Faithful(x)
    && FrameCount(cfg, x.record.payload) > 0
    && Congruent(x.timestamp, g, TimestampStep(cfg.codec))
    && Near(SentHighs(cfg, front), x)
    && Distinct(cfg, front, x)
    && (!Seen(front, x) ==> InTime(cfg, SentHighs(cfg, front), x))
  }

  ghost predicate Delivered(cfg: Config, stream: seq<Sent>, g: int) {
    stream != [] ==>
      && Delivered(cfg, stream[..|stream| - 1], g)
      && Arrives(cfg, stream[..|stream| - 1], stream[|stream| - 1], g)
  }

  lemma DeliveredAppend(cfg: Config, front: seq<Sent>, last: Sent, g: int)
    ensures Delivered(cfg, front + [last], g) <==> Delivered(cfg, front, g) && Arrives(cfg, front, last, g)
  {
    hide Arrives;
    assert (front + [last])[..|front|] == front;
  }

  lemma SentHighsAppend(cfg: Config, front: seq<Sent>, last: Sent)
    ensures SentHighs(cfg, front + [last]) == Raise(SentHighs(cfg, front), last, LastTrue(cfg, last))
  {
    hide Raise, LastTrue;
    assert (front + [last])[..|front|] == front;
  }

  predicate Covers(highs: Highs, x: Sent, last: int) {
    && highs.sequence.Some? && x.sequence <= highs.sequence.value
    && highs.timestamp.Some? && x.timestamp <= highs.timestamp.value && last <= highs.timestamp.value
  }

  lemma RaiseCovers(highs: Highs, x: Sent, last: int, y: Sent, other: int)
    ensures Covers(Raise(highs, x, last), x, last)
    ensures Covers(highs, y, other) ==> Covers(Raise(highs, x, last), y, other)
    ensures Covers(highs, x, last) ==> Raise(highs, x, last) == highs
  {
  }

  lemma {:induction false} HighsCover(cfg: Config, stream: seq<Sent>, x: Sent)
    requires Seen(stream, x)
    ensures Covers(SentHighs(cfg, stream), x, LastTrue(cfg, x))
  {
    hide Covers, Raise, SentHighs, LastTrue, Copy;
    SeenSome(stream, x);
    var front, last := stream[..|stream| - 1], stream[|stream| - 1];
    assert stream == front + [last];
    SeenAppend(front, last, x);
    SentHighsAppend(cfg, front, last);
    RaiseCovers(SentHighs(cfg, front), last, LastTrue(cfg, last), x, LastTrue(cfg, x));
    if Seen(front, x) {
      HighsCover(cfg, front, x);
    } else {
      CopyCovers(cfg, SentHighs(cfg, stream), last, x);
    }
  }

  lemma SeenSome(stream: seq<Sent>, x: Sent)
    requires Seen(stream, x)
    ensures stream != []
  {
  }

  lemma CopySame(cfg: Config, x: Sent, y: Sent)
    requires Copy(x, y)
    ensures x.record.payload == y.record.payload && LastTrue(cfg, x) == LastTrue(cfg, y)
  {
    hide FrameCount, TimestampStep;
  }

  lemma CopyCovers(cfg: Config, highs: Highs, x: Sent, y: Sent)
    requires Copy(x, y) && Covers(highs, x, LastTrue(cfg, x))
    ensures Covers(highs, y, LastTrue(cfg, y))
  {
    hide LastTrue;
    CopySame(cfg, x, y);
  }

  // ---------------------------------------------------------------------------------------------
  // The first arrivals are a delivery without copies
  // ---------------------------------------------------------------------------------------------

  ghost predicate NoCopies(stream: seq<Sent>) {
    stream != [] ==> NoCopies(stream[..|stream| - 1]) && !Seen(stream[..|stream| - 1], stream[|stream| - 1])
  }

  lemma NoCopiesAppend(front: seq<Sent>, last: Sent)
    ensures NoCopies(front + [last]) <==> NoCopies(front) && !Seen(front, last)
  {
    hide Seen;
    assert (front + [last])[..|front|] == front;
  }

  lemma FirstsUnfold(front: seq<Sent>, last: Sent)
    ensures Firsts(front + [last]) == if Seen(front, last) then Firsts(front) else Firsts(front) + [last]
  {
    hide Seen;
    assert (front + [last])[..|front|] == front;
  }

  lemma IdentitiesWithin(cfg: Config, a: seq<Sent>, b: seq<Sent>, t: int)
    requires forall x | x in a :: x in b
    ensures SentIdentities(cfg, a, t) <= SentIdentities(cfg, b, t)
  {
    hide LastTrue, IdentityOf;
    forall identity | identity in SentIdentities(cfg, a, t) ensures identity in SentIdentities(cfg, b, t) {
      var i :| 0 <= i < |a| && LastTrue(cfg, a[i]) == t && identity == IdentityOf(a[i].record, a[i].sequence);
      assert a[i] in b;
      var j :| 0 <= j < |b| && b[j] == a[i];
    }
  }

  lemma FirstsDistinct(cfg: Config, front: seq<Sent>, x: Sent)
    requires Distinct(cfg, front, x)
    ensures Distinct(cfg, Firsts(front), x)
  {
    hide Copy, LastTrue, Firsts, SentIdentities;
    FirstsMembers(front);
    var firsts := Firsts(front);
    forall i | 0 <= i < |firsts| && !Copy(firsts[i], x) ensures firsts[i].sequence != x.sequence {
      assert firsts[i] in front;
      var j :| 0 <= j < |front| && front[j] == firsts[i];
    }
    forall y | y in firsts + [x] ensures y in front + [x] {
      assert y in firsts || y == x;
      assert (front + [x])[|front|] == x;
      if y in firsts {
        var j :| 0 <= j < |front| && front[j] == y;
        assert (front + [x])[j] == y;
      }
    }
    var t := LastTrue(cfg, x);
    IdentitiesWithin(cfg, firsts + [x], front + [x], t);
    SubsetCount(SentIdentities(cfg, firsts + [x], t), SentIdentities(cfg, front + [x], t));
  }

  lemma FirstsHighs(cfg: Config, front: seq<Sent>, last: Sent)
    requires SentHighs(cfg, Firsts(front)) == SentHighs(cfg, front)
    ensures SentHighs(cfg, Firsts(front + [last])) == SentHighs(cfg, front + [last])
  {
    hide SentHighs, Seen, Raise, LastTrue, Firsts, Covers;
    FirstsUnfold(front, last);
    SentHighsAppend(cfg, front, last);
    SentHighsAppend(cfg, Firsts(front), last);
    if Seen(front, last) {
      HighsCover(cfg, front, last);
      RaiseCovers(SentHighs(cfg, front), last, LastTrue(cfg, last), last, LastTrue(cfg, last));
    }
  }

  lemma {:induction false} FirstsDelivered(cfg: Config, stream: seq<Sent>, g: int)
    requires Delivered(cfg, stream, g)
    ensures Delivered(cfg, Firsts(stream), g) && NoCopies(Firsts(stream))
    ensures SentHighs(cfg, Firsts(stream)) == SentHighs(cfg, stream)
  {
    hide Delivered, Firsts, NoCopies, SentHighs, Seen, Distinct, Near, Faithful, FrameCount, Congruent, InTime;
    if stream == [] {
      NothingDelivered(cfg, g);
      assert stream == [];
    } else {
      var front, last := stream[..|stream| - 1], stream[|stream| - 1];
      assert stream == front + [last];
      DeliveredAppend(cfg, front, last, g);
      FirstsDelivered(cfg, front, g);
      FirstsHighs(cfg, front, last);
      FirstsUnfold(front, last);
      if !Seen(front, last) {
        FirstsSeen(front, last);
        FirstsDistinct(cfg, front, last);
        DeliveredAppend(cfg, Firsts(front), last, g);
        NoCopiesAppend(Firsts(front), last);
      }
    }
  }

  lemma NothingDelivered(cfg: Config, g: int)
    ensures Delivered(cfg, [], g) && NoCopies([]) && Firsts([]) == [] && SentHighs(cfg, []) == Highs(None, None)
  {
  }
}
