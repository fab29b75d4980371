/** From what a sender says at which times, however often and in however many packets, to the storage file. */
module Speaking {
  import opened Models
  import opened Bits
  import opened CodecTables
  import opened Rfc4867
  import opened Storage
  import opened IntKeys
  import opened Timeline
  import opened Buffering
  import opened Emitting
  import opened Windows
  import opened Capacity
  import opened Wraps
  import opened Reordering
  import opened Delivery
  import opened EndToEnd
  import opened StoredRuns
  import opened Grids
  import opened Filling

  // ---------------------------------------------------------------------------------------------
  // What the packets say
  // ---------------------------------------------------------------------------------------------

  /** A frame that says what is said at its time. */
  ghost predicate Says(codec: Codec, f: EncodedFrame, times: seq<int>, bodies: seq<Body>)
    requires |times| == |bodies|
  {
    f.codec == codec && exists i :: 0 <= i < |times| && times[i] == f.mediaTimestamp && Packs(f, bodies[i])
  }

  /**
   * The packets say these bodies at these times: every frame is the one said at its time, and at each time some packet
   * has it. Several packets may carry the frame of one time, as redundant transmission does.
   */
  ghost predicate Speaks(cfg: Config, talk: seq<Sent>, times: seq<int>, bodies: seq<Body>) {
    && |times| == |bodies| && StrictlySorted(times)
    && (forall f | f in TrueAll(cfg, talk) :: Says(cfg.codec, f, times, bodies))
    && (forall i | 0 <= i < |times| :: HasFrameAt(TrueAll(cfg, talk), times[i]))
  }

  /** A copy of a packet carries the same frames, but for their provenance. */
  lemma CopyFrame(cfg: Config, x: Sent, y: Sent, f: EncodedFrame) returns (h: EncodedFrame)
    requires Copy(x, y) && f in TrueFrames(cfg, x)
    ensures h in TrueFrames(cfg, y) && h == f.(provenance := h.provenance)
  {
    hide TrueFrames, Copy;
    CopySounds(cfg, x, y);
    var a, b := TrueFrames(cfg, x), TrueFrames(cfg, y);
    var i :| 0 <= i < |a| && a[i] == f;
    h := b[i];
    assert b[i] == a[i].(mediaTimestamp := a[i].mediaTimestamp + 0, provenance := b[i].provenance);
  }

  lemma InTrueAll(cfg: Config, sent: seq<Sent>, x: Sent, f: EncodedFrame)
    requires x in sent && f in TrueFrames(cfg, x)
    ensures f in TrueAll(cfg, sent)
  {
    hide TrueAll, TrueFrames;
    TrueAllMembers(cfg, sent, f);
    var i :| 0 <= i < |sent| && sent[i] == x;
  }

  lemma FrameOfCopy(cfg: Config, a: seq<Sent>, b: seq<Sent>, f: EncodedFrame) returns (h: EncodedFrame)
    requires f in TrueAll(cfg, a) && forall x | x in a :: Seen(b, x)
    ensures h in TrueAll(cfg, b) && h == f.(provenance := h.provenance)
  {
    hide TrueAll, TrueFrames, Copy;
    TrueAllMembers(cfg, a, f);
    var i :| 0 <= i < |a| && f in TrueFrames(cfg, a[i]);
    assert a[i] in a;
    var j :| 0 <= j < |b| && Copy(b[j], a[i]);
    CopyOrder(b[j], a[i], b[j]);
    h := CopyFrame(cfg, a[i], b[j], f);
    InTrueAll(cfg, b, b[j], h);
  }

  lemma SaysAgain(codec: Codec, f: EncodedFrame, h: EncodedFrame, times: seq<int>, bodies: seq<Body>)
    requires |times| == |bodies| && Says(codec, f, times, bodies) && h == f.(provenance := h.provenance)
    ensures Says(codec, h, times, bodies)
  {
    hide Pack, ValidBody;
    var i :| 0 <= i < |times| && times[i] == f.mediaTimestamp && Packs(f, bodies[i]);
    assert Packs(h, bodies[i]);
  }

  /** Packets that are copies of the talk, all of it, say the same. */
  lemma CopiesSpeak(cfg: Config, sent: seq<Sent>, talk: seq<Sent>, times: seq<int>, bodies: seq<Body>)
    requires Speaks(cfg, talk, times, bodies)
    requires (forall x | x in sent :: Seen(talk, x)) && (forall x | x in talk :: Seen(sent, x))
    ensures Speaks(cfg, sent, times, bodies)
  {
    hide TrueAll, Says, Seen, StrictlySorted;
    forall f | f in TrueAll(cfg, sent) ensures Says(cfg.codec, f, times, bodies) {
      var h := FrameOfCopy(cfg, sent, talk, f);
      SaysAgain(cfg.codec, h, f, times, bodies);
    }
    forall i | 0 <= i < |times| ensures HasFrameAt(TrueAll(cfg, sent), times[i]) {
      assert HasFrameAt(TrueAll(cfg, talk), times[i]);
      var f := FrameAtTime(TrueAll(cfg, talk), times[i]);
      var h := FrameOfCopy(cfg, talk, sent, f);
      TimeOfFrame(TrueAll(cfg, sent), h);
    }
  }

  lemma FrameAtTime(frames: seq<EncodedFrame>, t: int) returns (f: EncodedFrame)
    requires HasFrameAt(frames, t)
    ensures f in frames && f.mediaTimestamp == t
  {
    var k :| 0 <= k < |frames| && frames[k].mediaTimestamp == t;
    f := frames[k];
  }

  lemma TimeOfFrame(frames: seq<EncodedFrame>, f: EncodedFrame)
    requires f in frames
    ensures HasFrameAt(frames, f.mediaTimestamp)
  {
  }

  // ---------------------------------------------------------------------------------------------
  // The best frames say it
  // ---------------------------------------------------------------------------------------------

  lemma BestTimes(frames: seq<EncodedFrame>, t: int)
    ensures t in TimesOf(InOrder(Best(frames))) <==> HasFrameAt(frames, t)
  {
    hide InOrder, Best;
    BestKeyed(frames);
    BestWins(frames, t);
    var chosen := InOrder(Best(frames));
    if t in TimesOf(chosen) {
      var i :| 0 <= i < |chosen| && TimesOf(chosen)[i] == t;
      assert chosen[i] in chosen;
      ReleasedTimely(frames, chosen[i]);
      TimeOfFrame(frames, chosen[i]);
    }
    if HasFrameAt(frames, t) {
      var f := Best(frames)[t];
      InOrderMembers(Best(frames), f);
      var i :| 0 <= i < |chosen| && chosen[i] == f;
      assert TimesOf(chosen)[i] == t;
    }
  }

  lemma SortedTimes(frames: seq<EncodedFrame>)
    requires SortedByTime(frames)
    ensures StrictlySorted(TimesOf(frames))
  {
  }

  lemma TimeSaid(codec: Codec, f: EncodedFrame, times: seq<int>, bodies: seq<Body>, i: nat)
    requires |times| == |bodies| && StrictlySorted(times) && i < |times| && Says(codec, f, times, bodies)
    requires f.mediaTimestamp == times[i]
    ensures f.codec == codec && Packs(f, bodies[i])
  {
    hide Packs;
    var k :| 0 <= k < |times| && times[k] == f.mediaTimestamp && Packs(f, bodies[k]);
    SortedPlaces(times, i, k);
  }

  lemma SortedPlaces(times: seq<int>, i: nat, k: nat)
    requires StrictlySorted(times) && i < |times| && k < |times|
    ensures times[i] == times[k] ==> i == k
  {
  }

  /** The best frames, in order, are one for each time, and pack what is said. */
  lemma BestSpeaks(codec: Codec, frames: seq<EncodedFrame>, times: seq<int>, bodies: seq<Body>)
    requires |times| == |bodies| && StrictlySorted(times)
    requires forall f | f in frames :: Says(codec, f, times, bodies)
    requires forall i | 0 <= i < |times| :: HasFrameAt(frames, times[i])
    ensures var chosen := InOrder(Best(frames));
            SortedByTime(chosen) && TimesOf(chosen) == times && AllPack(codec, chosen, bodies)
  {
    hide InOrder, Best, Says, Packs, HasFrameAt, StrictlySorted, SortedByTime;
    BestKeyed(frames);
    SortedInOrder(Best(frames));
    var chosen := InOrder(Best(frames));
    SortedTimes(chosen);
    forall t ensures t in TimesOf(chosen) <==> t in times {
      BestTimes(frames, t);
      if HasFrameAt(frames, t) {
        var f := FrameAtTime(frames, t);
        TimeIn(codec, f, times, bodies);
      }
    }
    SortedUnique(TimesOf(chosen), times);
    forall i | 0 <= i < |chosen| ensures chosen[i].codec == codec && Packs(chosen[i], bodies[i]) {
      assert chosen[i] in chosen && TimesOf(chosen)[i] == times[i];
      ReleasedTimely(frames, chosen[i]);
      TimeSaid(codec, chosen[i], times, bodies, i);
    }
  }

  lemma TimeIn(codec: Codec, f: EncodedFrame, times: seq<int>, bodies: seq<Body>)
    requires |times| == |bodies| && Says(codec, f, times, bodies)
    ensures f.mediaTimestamp in times
  {
    hide Packs;
  }

  lemma {:induction false} AllCongruent(cfg: Config, stream: seq<Sent>, g: int)
    requires Delivered(cfg, stream, g)
    ensures forall x | x in stream :: Congruent(x.timestamp, g, TimestampStep(cfg.codec))
  {
    hide Delivered, FrameCount, Faithful, Near, Congruent, Distinct, Seen, InTime, TimestampStep;
    if stream != [] {
      var front, last := stream[..|stream| - 1], stream[|stream| - 1];
      assert stream == front + [last];
      DeliveredAppend(cfg, front, last, g);
      AllCongruent(cfg, front, g);
    }
  }

  lemma SentFrameCongruent(cfg: Config, sent: seq<Sent>, f: EncodedFrame, g: int)
    requires f in TrueAll(cfg, sent) && forall x | x in sent :: Congruent(x.timestamp, g, TimestampStep(cfg.codec))
    ensures Congruent(f.mediaTimestamp, g, TimestampStep(cfg.codec))
  {
    hide TrueAll, TrueFrames, TimestampStep;
    TrueAllMembers(cfg, sent, f);
    var step := TimestampStep(cfg.codec);
    var i :| 0 <= i < |sent| && f in TrueFrames(cfg, sent[i]);
    assert sent[i] in sent;
    var frames := TrueFrames(cfg, sent[i]);
    var j :| 0 <= j < |frames| && frames[j] == f;
    FrameAt(cfg, sent[i], j);
    var k: int :| sent[i].timestamp == g + k * step;
    assert f.mediaTimestamp == g + (k + j) * step;
  }

  lemma ChosenOnGrid(cfg: Config, stream: seq<Sent>, g: int)
    requires Delivered(cfg, stream, g)
    ensures OnGrid(InOrder(Best(TrueAll(cfg, Firsts(stream)))), TimestampStep(cfg.codec))
  {
    hide Delivered, Firsts, TrueAll, InOrder, Best, TimestampStep, Congruent, SortedByTime, OnGrid;
    AllCongruent(cfg, stream, g);
    FirstsMembers(stream);
    var frames := TrueAll(cfg, Firsts(stream));
    var chosen := InOrder(Best(frames));
    BestKeyed(frames);
    SortedInOrder(Best(frames));
    forall f | f in chosen ensures Congruent(f.mediaTimestamp, g, TimestampStep(cfg.codec)) {
      ReleasedTimely(frames, f);
      SentFrameCongruent(cfg, Firsts(stream), f, g);
    }
    CongruentOnGrid(chosen, g, TimestampStep(cfg.codec));
  }

  lemma ChosenMoved(codec: Codec, chosen: seq<EncodedFrame>, bodies: seq<Body>, d: int)
    requires SortedByTime(chosen) && OnGrid(chosen, TimestampStep(codec)) && AllPack(codec, chosen, bodies)
    ensures var moved := MovedAll(chosen, d);
            && SortedByTime(moved) && OnGrid(moved, TimestampStep(codec)) && AllPack(codec, moved, bodies)
            && MovedTimes(TimesOf(chosen), TimesOf(moved), d)
  {
    hide TimestampStep, AllPack, OnGrid;
    MovedSorted(chosen, d);
    MovedOnGrid(chosen, d, TimestampStep(codec));
    AllPackMoved(codec, chosen, bodies, d);
  }

  // ---------------------------------------------------------------------------------------------
  // What is stored
  // ---------------------------------------------------------------------------------------------

  /** What is released says it, moved by whole cycles. */
  lemma ReleasedSpeaks(
    cfg: Config, stream: seq<Sent>, talk: seq<Sent>, times: seq<int>, bodies: seq<Body>, g: int)
    returns (d: int)
    requires cfg.limits.Valid() && Delivered(cfg, stream, g) && Delivers(stream, talk)
    requires Speaks(cfg, talk, times, bodies)
    ensures var released := Complete(cfg, Captured(stream)).released;
            && AllPack(cfg.codec, released, bodies) && OnGrid(released, TimestampStep(cfg.codec))
            && SortedByTime(released) && MovedTimes(times, TimesOf(released), d)
  {
    hide Delivered, Delivers, Complete, Captured, TrueAll, MovedAll, AllPack, OnGrid, SortedByTime, TimestampStep;
    hide TimesOf, MovedTimes, Firsts, InOrder, Best, Says, Seen, StrictlySorted, HasFrameAt;
    var firsts := Firsts(stream);
    var frames := TrueAll(cfg, firsts);
    d := BestReleased(cfg, stream, g);
    FirstsFrom(stream, talk);
    CopiesSpeak(cfg, firsts, talk, times, bodies);
    BestSpeaks(cfg.codec, frames, times, bodies);
    ChosenOnGrid(cfg, stream, g);
    ChosenMoved(cfg.codec, InOrder(Best(frames)), bodies, d);
  }

  /**
   * End to end under either policy: however the packets were reordered and duplicated, and however many of them carry
   * the frame of one time, the file is the magic header and what was said in its order, with NO_DATA at exactly the
   * steps left out if gaps are filled, and that is what a reader of the storage format gets back.
   */
  lemma SpokenStored(
    cfg: Config, stream: seq<Sent>, talk: seq<Sent>, times: seq<int>, bodies: seq<Body>, g: int)
    returns (stored: seq<Body>)
    requires cfg.limits.Valid() && Delivered(cfg, stream, g) && Delivers(stream, talk)
    requires Speaks(cfg, talk, times, bodies)
    ensures StoresAt(cfg, times, bodies, stored)
    ensures Gapless(times, TimestampStep(cfg.codec)) ==> stored == bodies
    ensures StorageFile(cfg, Captured(stream)) == StorageStream(cfg.codec, stored)
    ensures ReadStorage(cfg.codec, StorageFile(cfg, Captured(stream))) == Some(stored)
  {
    hide Delivered, Delivers, Complete, Captured, AllPack, ReadStorage, StoredFrames, Speaks, Emissions, OnGrid;
    hide AllWritable, StorageHeader, StoredBodies, MovedTimes, TimesOf, SortedByTime, TimestampStep, Gapless, Fills;
    hide FramesIn;
    var records := Captured(stream);
    var d := ReleasedSpeaks(cfg, stream, talk, times, bodies, g);
    EmitsReleased(cfg, records);
    stored := StoredFrom(cfg, times, bodies, Complete(cfg, records).released, d);
    RunWritable(cfg, records);
    PackedFramesStore(cfg.codec, FramesIn(Complete(cfg, records).emitted), stored);
    AllPackValid(cfg.codec, FramesIn(Complete(cfg, records).emitted), stored);
    StorageIffStream(cfg.codec, StorageStream(cfg.codec, stored), stored);
    if Gapless(times, TimestampStep(cfg.codec)) && cfg.policy.NoData? {
      GaplessFills(stored, times, bodies, TimestampStep(cfg.codec));
    }
  }

  // ---------------------------------------------------------------------------------------------
  // Packets sent one after the other
  // ---------------------------------------------------------------------------------------------

  /** The sender's own times, frame by frame. */
  ghost function TalkTimes(cfg: Config, talk: seq<Sent>): seq<int> {
    TimesOf(TrueAll(cfg, talk))
  }

  lemma PackedSays(codec: Codec, frames: seq<EncodedFrame>, bodies: seq<Body>, f: EncodedFrame)
    requires AllPack(codec, frames, bodies) && f in frames
    ensures |TimesOf(frames)| == |bodies| && Says(codec, f, TimesOf(frames), bodies)
  {
    hide Packs;
    var i :| 0 <= i < |frames| && frames[i] == f;
    assert TimesOf(frames)[i] == f.mediaTimestamp && Packs(frames[i], bodies[i]);
  }

  /** Packets that carry each frame once, each starting after the one before it, say their frames in order. */
  lemma CarriedSpeaks(cfg: Config, talk: seq<Sent>, requests: seq<ModeBits>, speech: seq<seq<Body>>)
    requires InSendingOrder(cfg, talk) && Carries(cfg, talk, requests, speech)
    ensures Speaks(cfg, talk, TalkTimes(cfg, talk), Flatten(speech))
  {
    hide TrueAll, AllPack, Carries, InSendingOrder, Flatten, TalkBodies, Says, SortedByTime, StrictlySorted;
    var frames, bodies := TrueAll(cfg, talk), Flatten(speech);
    TrueAllSorted(cfg, talk);
    TrueAllPack(cfg, talk);
    CarriedBodies(cfg, talk, requests, speech);
    SortedTimes(frames);
    PackedSame(cfg.codec, frames, bodies);
    forall f | f in frames ensures Says(cfg.codec, f, TimesOf(frames), bodies) {
      PackedSays(cfg.codec, frames, bodies, f);
    }
    forall i | 0 <= i < |TimesOf(frames)| ensures HasFrameAt(frames, TimesOf(frames)[i]) {
      assert frames[i] in frames;
      TimeOfFrame(frames, frames[i]);
    }
  }

  /** For such packets the file holds the sender's frames, with the steps left out filled if that is the policy. */
  lemma SpeechStored(
    cfg: Config, stream: seq<Sent>, talk: seq<Sent>, requests: seq<ModeBits>, speech: seq<seq<Body>>, g: int)
    returns (stored: seq<Body>)
    requires cfg.limits.Valid() && Delivered(cfg, stream, g) && Delivers(stream, talk) && InSendingOrder(cfg, talk)
    requires Carries(cfg, talk, requests, speech)
    ensures StoresAt(cfg, TalkTimes(cfg, talk), Flatten(speech), stored)
    ensures GapFree(cfg, talk) ==> stored == Flatten(speech)
    ensures StorageFile(cfg, Captured(stream)) == StorageStream(cfg.codec, stored)
    ensures ReadStorage(cfg.codec, StorageFile(cfg, Captured(stream))) == Some(stored)
  {
    hide Delivered, Delivers, InSendingOrder, Carries, Complete, Captured, StoresAt, ReadStorage, StoredFrames;
    hide AllWritable, StorageHeader, StoredBodies, Flatten, GapFree, TalkTimes, Speaks;
    CarriedSpeaks(cfg, talk, requests, speech);
    stored := SpokenStored(cfg, stream, talk, TalkTimes(cfg, talk), Flatten(speech), g);
    if GapFree(cfg, talk) {
      SpeechRestored(cfg, stream, talk, requests, speech, g);
    }
  }
}
