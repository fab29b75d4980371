/** Whatever a run emits can be stored, and what is stored can be read back. */
module StoredRuns {
  import opened Models
  import opened CodecTables
  import opened Bits
  import opened Rfc4867
  import opened Storage
  import opened Timeline
  import opened Buffering
  import opened Runs
  import opened Emitting
  import opened Windows
  import opened Reordering
  import opened EndToEnd

  /** Every frame of an accepted packet passes the serialization checks. */
  lemma AcceptedWritable(cfg: Config, s: State, record: RtpRecord, f: EncodedFrame)
    requires OutcomeOf(cfg, s, record).Accepted? && f in OutcomeOf(cfg, s, record).frames
    ensures Writable(cfg.codec, f)
  {
    hide OutcomeOf, Bodies, Frames, SerializeFrame, StoredBody, Packs, Retained, Holds, ExtendedSequence;
    hide ExtendedTimestamp, Spaced, HistoryLimit, FrameCount;
    var o := OutcomeOf(cfg, s, record);
    AcceptedPacket(cfg, s, record);
    ParsedFramesPack(record.payload, cfg.codec, cfg.mode, o.timestamp, record.provenance);
    var bodies := Bodies(cfg.codec, cfg.mode, record.payload).value;
    var i :| 0 <= i < |o.frames| && o.frames[i] == f;
    SerializePacked(f, bodies[i]);
  }

  lemma {:induction false} TimelyWritable(cfg: Config, records: seq<RtpRecord>, f: EncodedFrame)
    requires f in Timely(cfg, records)
    ensures Writable(cfg.codec, f)
  {
    hide Run, PushRecord, OutcomeOf, Timely, Writable;
    TimelySome(cfg, records, f);
    var front, last := records[..|records| - 1], records[|records| - 1];
    RunUnfold(cfg, records);
    var s := Run(cfg, front).state;
    PushOutcome(cfg, s, last);
    if f in Timely(cfg, front) {
      TimelyWritable(cfg, front, f);
    } else {
      var o := OutcomeOf(cfg, s, last);
      TimelyOf(s.committed, o, f);
      AcceptedWritable(cfg, s, last, f);
    }
  }

  lemma TimelySome(cfg: Config, records: seq<RtpRecord>, f: EncodedFrame)
    requires f in Timely(cfg, records)
    ensures records != []
  {
    hide Run, OutcomeOf;
  }

  lemma TimelyOf(committed: Option<int>, o: Outcome, f: EncodedFrame)
    requires f in TimelyFrames(committed, o)
    ensures o.Accepted? && f in o.frames
  {
    hide OnTime;
    if o.Accepted? {
      OnTimeMembers(committed, o.frames);
    }
  }

  /** What is released was buffered before. */
  lemma ReleasedTimely(frames: seq<EncodedFrame>, f: EncodedFrame)
    requires f in InOrder(Best(frames))
    ensures f in frames
  {
    hide InOrder, Best, Prefer;
    BestKeyed(frames);
    InOrderMembers(Best(frames), f);
    BestWins(frames, f.mediaTimestamp);
    var k :| Wins(frames, k) && Best(frames)[f.mediaTimestamp] == frames[k];
    assert frames[k] in frames;
  }

  lemma NoDataWritable(codec: Codec, t: int)
    ensures Writable(codec, NoDataFrame(codec, t))
  {
    hide Pack;
    var f := NoDataFrame(codec, t);
    var body := Body(15, false, []);
    PackNothing();
    assert Packs(f, body);
    SerializePacked(f, body);
  }

  lemma PackNothing()
    ensures Pack([]) == []
  {
  }

  lemma {:induction false} EmissionsWritable(
    codec: Codec, policy: GapPolicy, committed: Option<int>, frames: seq<EncodedFrame>)
    requires forall f | f in frames :: Writable(codec, f)
    ensures AllWritable(codec, FramesIn(Emissions(codec, policy, committed, frames)))
  {
    hide Writable, Emissions, Gaps, EmissionsAt, CommittedAfter;
    if frames == [] {
      EmissionsNothing(codec, policy, committed);
      assert frames == [];
    } else {
      var front, last := frames[..|frames| - 1], frames[|frames| - 1];
      assert frames == front + [last];
      EmissionsWritable(codec, policy, committed, front);
      EmissionsLast(codec, policy, committed, front, last);
      OneWritable(codec, policy, CommittedAfter(committed, front), last);
      WritableConcat(codec, Emissions(codec, policy, committed, front),
                     EmissionsAt(codec, policy, CommittedAfter(committed, front), last));
    }
  }

  lemma OneWritable(codec: Codec, policy: GapPolicy, committed: Option<int>, frame: EncodedFrame)
    requires Writable(codec, frame)
    ensures AllWritable(codec, FramesIn(EmissionsAt(codec, policy, committed, frame)))
  {
    hide Writable, Missing, NoDataFrame;
    var emissions := EmissionsAt(codec, policy, committed, frame);
    forall i | 0 <= i < |emissions| ensures Writable(codec, emissions[i].frame) {
      if i < |emissions| - 1 {
        NoDataWritable(codec, Missing(codec, committed, frame.mediaTimestamp)[i]);
      }
    }
  }

  lemma WritableConcat(codec: Codec, a: seq<Emission>, b: seq<Emission>)
    requires AllWritable(codec, FramesIn(a)) && AllWritable(codec, FramesIn(b))
    ensures AllWritable(codec, FramesIn(a + b))
  {
    hide Writable;
    forall i | 0 <= i < |a + b| ensures Writable(codec, (a + b)[i].frame) {
      if i < |a| {
        assert FramesIn(a)[i] == (a + b)[i].frame;
      } else {
        assert FramesIn(b)[i - |a|] == (a + b)[i].frame;
      }
    }
  }

  /** Every frame any run emits, received or synthetic, passes all serialization checks. */
  lemma RunWritable(cfg: Config, records: seq<RtpRecord>)
    ensures AllWritable(cfg.codec, FramesIn(Complete(cfg, records).emitted))
  {
    hide Complete, Writable, Emissions, Gaps, InOrder, Best, Timely, AllWritable;
    CompleteIsSorting(cfg, records);
    var released := Complete(cfg, records).released;
    forall f | f in released ensures Writable(cfg.codec, f) {
      ReleasedTimely(Timely(cfg, records), f);
      TimelyWritable(cfg, records, f);
    }
    EmissionsWritable(cfg.codec, cfg.policy, None, released);
  }

  /** A received frame, or a NO_DATA frame of the codec: type 15, bad quality, no speech bits, captured nowhere. */
  ghost predicate ReceivedOrFilled(codec: Codec, policy: GapPolicy, frames: seq<EncodedFrame>, e: Emission) {
    if e.synthetic then
      && policy.NoData?
      && e.frame == EncodedFrame(codec, 15, false, 0, [], e.frame.mediaTimestamp, Provenance(None, None))
    else e.frame in frames
  }

  lemma {:induction false} EmissionsAre(
    codec: Codec, policy: GapPolicy, committed: Option<int>, frames: seq<EncodedFrame>)
    ensures forall e | e in Emissions(codec, policy, committed, frames) :: ReceivedOrFilled(codec, policy, frames, e)
  {
    hide Emissions, Gaps, EmissionsAt, CommittedAfter;
    if frames == [] {
      EmissionsNothing(codec, policy, committed);
      assert frames == [];
    } else {
      var front, last := frames[..|frames| - 1], frames[|frames| - 1];
      assert frames == front + [last];
      EmissionsAre(codec, policy, committed, front);
      EmissionsLast(codec, policy, committed, front, last);
      EmissionsOfOne(codec, policy, CommittedAfter(committed, front), last);
    }
  }

  lemma EmissionsOfOne(codec: Codec, policy: GapPolicy, committed: Option<int>, frame: EncodedFrame)
    ensures forall e | e in EmissionsAt(codec, policy, committed, frame) ::
              ReceivedOrFilled(codec, policy, [frame], e)
  {
    hide Missing;
  }

  /** What a run emits are frames that entered its buffer and, under NO_DATA only, NO_DATA frames. */
  lemma EmittedAre(cfg: Config, records: seq<RtpRecord>)
    ensures forall e | e in Complete(cfg, records).emitted ::
              ReceivedOrFilled(cfg.codec, cfg.policy, Timely(cfg, records), e)
  {
    hide Complete, Emissions, Gaps, InOrder, Best, Timely;
    CompleteIsSorting(cfg, records);
    var released := Complete(cfg, records).released;
    EmissionsAre(cfg.codec, cfg.policy, None, released);
    forall f | f in released ensures f in Timely(cfg, records) {
      ReleasedTimely(Timely(cfg, records), f);
    }
  }

  lemma {:induction false} StoredFramesJoin(codec: Codec, a: seq<EncodedFrame>, b: seq<EncodedFrame>)
    requires AllWritable(codec, a + b)
    ensures AllWritable(codec, a) && AllWritable(codec, b)
    ensures StoredFrames(codec, a + b) == StoredFrames(codec, a) + StoredFrames(codec, b)
  {
    hide Writable, StoredFrame, StoredFrames;
    PartsWritable(codec, a, b);
    if b == [] {
      NothingStored(codec);
      assert a + b == a;
    } else {
      var front, last, n := b[..|b| - 1], b[|b| - 1], |a + b| - 1;
      assert (a + b)[..n] == a + front && b[..|b| - 1 + 1] == b && (a + b)[..n + 1] == a + b;
      PartsWritable(codec, a + front, [last]);
      assert a + front + [last] == a + b;
      StoredFramesJoin(codec, a, front);
      AllWritableAppend(codec, a + b, n);
      AllWritableAppend(codec, b, |b| - 1);
    }
  }

  lemma PartsWritable(codec: Codec, a: seq<EncodedFrame>, b: seq<EncodedFrame>)
    requires AllWritable(codec, a + b)
    ensures AllWritable(codec, a) && AllWritable(codec, b)
  {
    hide Writable;
    forall i | 0 <= i < |a| ensures Writable(codec, a[i]) {
      assert Writable(codec, (a + b)[i]);
    }
    forall i | 0 <= i < |b| ensures Writable(codec, b[i]) {
      assert Writable(codec, (a + b)[|a| + i]);
    }
  }

  /** What part of a run emits comes first in what the whole emits. */
  lemma {:induction false} RunsExtend(cfg: Config, records: seq<RtpRecord>, n: nat)
    requires n <= |records|
    ensures Run(cfg, records[..n]).emitted <= Run(cfg, records).emitted
  {
    hide Run, PushRecord, Timely;
    if n == |records| {
      assert records[..n] == records;
    } else {
      var front := records[..|records| - 1];
      assert front[..n] == records[..n];
      RunsExtend(cfg, front, n);
      RunUnfold(cfg, records);
    }
  }

  lemma CompleteExtends(cfg: Config, records: seq<RtpRecord>, n: nat)
    requires n <= |records|
    ensures FramesIn(Run(cfg, records[..n]).emitted) <= FramesIn(Complete(cfg, records).emitted)
  {
    hide Run, Emissions, FinishReleased, FinishState;
    RunsExtend(cfg, records, n);
  }

  /** The storage file of a run: the magic header and every emitted frame. */
  ghost function StorageFile(cfg: Config, records: seq<RtpRecord>): Bytes {
    RunWritable(cfg, records);
    StorageHeader(cfg.codec) + StoredFrames(cfg.codec, FramesIn(Complete(cfg, records).emitted))
  }

  lemma {:induction false} WritableBodies(codec: Codec, frames: seq<EncodedFrame>) returns (bodies: seq<Body>)
    requires AllWritable(codec, frames)
    ensures AllPack(codec, frames, bodies)
  {
    hide SerializeFrame, Packs;
    if frames == [] {
      bodies := [];
    } else {
      var front, last := frames[..|frames| - 1], frames[|frames| - 1];
      var before := WritableBodies(codec, front);
      assert Writable(codec, frames[|frames| - 1]);
      var body := PackedBody(last);
      bodies := before + [body];
    }
  }

  /** A reader of the storage format gets back the type, the quality flag and the data of every frame. */
  lemma StorageRecovers(codec: Codec, frames: seq<EncodedFrame>)
    requires AllWritable(codec, frames)
    ensures exists bodies: seq<Body> ::
              && ReadStorage(codec, StorageHeader(codec) + StoredFrames(codec, frames)) == Some(bodies)
              && |bodies| == |frames|
              && forall i | 0 <= i < |frames| ::
                   bodies[i].frameType == frames[i].frameType && bodies[i].quality == frames[i].quality
                   && |bodies[i].bits| == frames[i].bitLength && Pack(bodies[i].bits) == frames[i].data
  {
    hide ReadStorage, StoredBodies, StoredFrames, AllWritable, StorageHeader, Pack, ValidBody, AllPack;
    var bodies := WritableBodies(codec, frames);
    PackedFramesStore(codec, frames, bodies);
    AllPackValid(codec, frames, bodies);
    StorageIffStream(codec, StorageStream(codec, bodies), bodies);
    PackedCount(codec, frames, bodies);
    forall i | 0 <= i < |frames|
      ensures bodies[i].frameType == frames[i].frameType && bodies[i].quality == frames[i].quality
              && |bodies[i].bits| == frames[i].bitLength && Pack(bodies[i].bits) == frames[i].data
    {
      PackedAt(codec, frames, bodies, i);
    }
  }

  lemma PackedCount(codec: Codec, frames: seq<EncodedFrame>, bodies: seq<Body>)
    requires AllPack(codec, frames, bodies)
    ensures |frames| == |bodies|
  {
  }

  lemma PackedAt(codec: Codec, frames: seq<EncodedFrame>, bodies: seq<Body>, i: nat)
    requires AllPack(codec, frames, bodies) && i < |frames| == |bodies|
    ensures bodies[i].frameType == frames[i].frameType && bodies[i].quality == frames[i].quality
            && |bodies[i].bits| == frames[i].bitLength && Pack(bodies[i].bits) == frames[i].data
  {
    hide Pack, ValidBody;
    assert Packs(frames[i], bodies[i]);
  }
}
