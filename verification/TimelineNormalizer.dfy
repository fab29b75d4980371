/** The per-flow normalizer as the object it is (timeline.py), proved against the state machine on values. */
module TimelineNormalizers {
  import opened Models
  import opened CodecTables
  import opened Rfc4867
  import opened Depacketizer
  import opened IntKeys
  import opened Maps
  import opened Timeline
  import opened Buffering
  import opened Runs
  import opened Emitting
  import opened Histories

  // ---------------------------------------------------------------------------------------------
  // sorted() and max() over timestamps
  // ---------------------------------------------------------------------------------------------

  method InsertKey(s: seq<int>, key: int) returns (t: seq<int>)
    requires StrictlySorted(s) && key !in s
    ensures StrictlySorted(t) && forall x :: x in t <==> x in s || x == key
  {
    var i := 0;
    while i < |s| && s[i] < key
      invariant 0 <= i <= |s|
      invariant forall j | 0 <= j < i :: s[j] < key
    {
      i := i + 1;
    }
    t := s[..i] + [key] + s[i..];
    KeyInserted(s, i, key);
  }

  lemma KeyInserted(s: seq<int>, i: nat, key: int)
    requires i <= |s| && StrictlySorted(s)
    requires forall j | 0 <= j < i :: s[j] < key
    requires i < |s| ==> key < s[i]
    ensures var t := s[..i] + [key] + s[i..]; StrictlySorted(t) && forall x :: x in t <==> x in s || x == key
  {
    var t := s[..i] + [key] + s[i..];
    forall x ensures x in t <==> x in s || x == key {
      assert s == s[..i] + s[i..];
    }
  }

  method Sorted(keys: set<int>) returns (s: seq<int>)
    ensures s == SortedKeys(keys)
  {
    hide SortedKeys;
    s := [];
    var rest := keys;
    while rest != {}
      invariant StrictlySorted(s) && rest <= keys
      invariant forall x :: x in s <==> x in keys && x !in rest
      decreases |rest|
    {
      Nonempty(rest);
      var key :| key in rest;
      s := InsertKey(s, key);
      rest := rest - {key};
    }
    SortedUnique(s, SortedKeys(keys));
  }

  method Maximum(keys: set<int>) returns (m: int)
    requires keys != {}
    ensures m in keys && forall x | x in keys :: x <= m
  {
    hide SortedKeys;
    var s := Sorted(keys);
    Nonempty(keys);
    LastIsMaximum(s);
    m := s[|s| - 1];
  }

  lemma LastIsMaximum(s: seq<int>)
    requires StrictlySorted(s)
    ensures s != [] ==> s[|s| - 1] in s && forall x | x in s :: x <= s[|s| - 1]
  {
    forall x | x in s ensures x <= s[|s| - 1] {
      var i :| 0 <= i < |s| && s[i] == x;
    }
  }

  // ---------------------------------------------------------------------------------------------
  // What a method hands back
  // ---------------------------------------------------------------------------------------------

  /** The errors raised before anything is touched. */
  datatype Refusal = AlreadyFinished | OutputUnread | WrongFlow

  datatype Exit = Refused(why: Refusal) | Raised(reason: Reason) | Returned

  function BadQuality(emissions: seq<Emission>): nat {
    if emissions == [] then 0
    else
      var last := emissions[|emissions| - 1];
      BadQuality(emissions[..|emissions| - 1]) + (if !last.synthetic && !last.frame.quality then 1 else 0)
  }

  lemma TakenOne(all: seq<Emission>, n: nat)
    requires n < |all|
    ensures all[..n + 1] == all[..n] + [all[n]]
    ensures all[n..] == [all[n]] + all[n + 1..]
    ensures FramesIn(all[..n + 1]) == FramesIn(all[..n]) + [all[n].frame]
  {
    assert all[..n + 1] == all[..n] + [all[n]];
  }

  lemma DrainOne(drained: seq<Emission>, next: Emission)
    ensures Inserted(drained + [next]) == Inserted(drained) + (if next.synthetic then 1 else 0)
    ensures BadQuality(drained + [next])
            == BadQuality(drained) + (if !next.synthetic && !next.frame.quality then 1 else 0)
  {
    assert (drained + [next])[..|drained|] == drained;
  }

  class TimelineNormalizer {
    const cfg: Config

    var pending: Pending
    var recentPacketOrder: History
    var recentPackets: set<Identity>
    var highestSequence: Option<int>
    var highestTimestamp: Option<int>
    var lastCommittedTimestamp: Option<int>
    var emittedFrameCount: nat
    var badQualityFrameCount: nat
    var insertedNoDataCount: nat
    var counters: Counters
    var outputPending: bool
    var finished: bool

    /** What the iterator handed out last has still to yield. */
    var output: seq<Emission>

    /** Every record that was not refused, and everything yielded so far. */
    ghost var log: seq<RtpRecord>
    ghost var drained: seq<Emission>

    ghost function Now(): State
      reads this
    {
      State(pending, recentPacketOrder, highestSequence, highestTimestamp, lastCommittedTimestamp, counters, finished)
    }

    /** The set holds exactly the identities in the deque. */
    ghost predicate Mirrored()
      reads `recentPacketOrder, `recentPackets
    {
      forall identity :: identity in recentPackets <==> Holds(recentPacketOrder, identity)
    }

    /** The output counters describe what was yielded. */
    ghost predicate Drained()
      reads this
    {
      && emittedFrameCount == |drained|
      && insertedNoDataCount == Inserted(drained)
      && badQualityFrameCount == BadQuality(drained)
      && (output != [] ==> outputPending)
    }

    /** The run the object is in. */
    ghost function Expected(): Trace
      reads this
    {
      if finished then Complete(cfg, log) else Run(cfg, log)
    }

    ghost predicate Valid()
      reads this
    {
      && Mirrored()
      && Drained()
      && Now() == Expected().state
      && drained + output == Expected().emitted
    }

    constructor (cfg: Config)
      ensures Valid() && this.cfg == cfg
      ensures Now() == INITIAL && log == [] && drained == [] && output == [] && !outputPending
    {
      this.cfg := cfg;
      pending, recentPacketOrder, recentPackets := map[], [], {};
      highestSequence, highestTimestamp, lastCommittedTimestamp := None, None, None;
      counters, emittedFrameCount, badQualityFrameCount, insertedNoDataCount := NO_COUNTS, 0, 0, 0;
      outputPending, finished, output := false, false, [];
      log, drained := [], [];
    }

    /** _retain_diagnostic. */
    method RetainDiagnostic(event: Event, provenance: Provenance)
      modifies `counters
      ensures counters == Note(cfg, old(counters), event, provenance)
    {
      if |counters.diagnostics| < cfg.limits.maxDiagnostics {
        counters := counters.(diagnostics := counters.diagnostics + [Diagnostic(event, provenance)]);
      } else {
        counters := counters.(diagnosticOverflow := counters.diagnosticOverflow + 1);
      }
    }

    /** _evict_committed_packet_identities. */
    method EvictCommittedPacketIdentities()
      requires Mirrored()
      modifies `recentPacketOrder, `recentPackets
      ensures Mirrored() && recentPacketOrder == Retained(old(recentPacketOrder), lastCommittedTimestamp)
    {
      hide Retained, Holds;
      var order, committed := recentPacketOrder, lastCommittedTimestamp;
      RetainedNothing(order, committed);
      if committed.None? {
        return;
      }
      var retained: History, identities: set<Identity> := [], {};
      HoldsNothing();
      for i := 0 to |order|
        invariant retained == Retained(order[..i], committed)
        invariant forall identity :: identity in identities <==> Holds(retained, identity)
      {
        var entry := order[i];
        assert order[..i + 1] == order[..i] + [entry];
        RetainedAppend(order[..i], entry, committed);
        if entry.timestamp > committed.value {
          HoldsAppend(retained, entry);
          retained, identities := retained + [entry], identities + {entry.identity};
        }
      }
      assert order[..|order|] == order;
      recentPacketOrder, recentPackets := retained, identities;
    }

    /** _retain_packet_identity. */
    method RetainPacketIdentity(identity: Identity, timestamp: int) returns (kept: bool)
      requires Mirrored()
      modifies `recentPacketOrder, `recentPackets
      ensures Mirrored()
      ensures var retained := Retained(old(recentPacketOrder), lastCommittedTimestamp);
              && kept == (|retained| < HistoryLimit(cfg))
              && recentPacketOrder == if kept then retained + [HistoryEntry(identity, timestamp)] else retained
    {
      EvictCommittedPacketIdentities();
      if |recentPacketOrder| >= HistoryLimit(cfg) {
        return false;
      }
      HoldsAppend(recentPacketOrder, HistoryEntry(identity, timestamp));
      recentPacketOrder := recentPacketOrder + [HistoryEntry(identity, timestamp)];
      recentPackets := recentPackets + {identity};
      return true;
    }

    /** _add_frames. */
    method AddFrames(frames: seq<EncodedFrame>) returns (hadLateFrame: bool)
      modifies `pending, `counters
      ensures var timely := OnTime(lastCommittedTimestamp, frames);
              && pending == InsertAll(old(pending), timely)
              && counters == old(counters).(observed := old(counters).observed + |frames|,
                                            overlaps := old(counters).overlaps + Overlaps(old(pending), timely))
              && hadLateFrame == (|timely| < |frames|)
    {
      hide InsertAll, Overlaps, Prefer, OnTime;
      hadLateFrame := false;
      AddNothing(lastCommittedTimestamp, pending);
      for i := 0 to |frames|
        invariant var timely := OnTime(lastCommittedTimestamp, frames[..i]);
                  && pending == InsertAll(old(pending), timely)
                  && counters == old(counters).(observed := old(counters).observed + i,
                                                overlaps := old(counters).overlaps + Overlaps(old(pending), timely))
                  && |timely| <= i && hadLateFrame == (|timely| < i)
      {
        var frame := frames[i];
        AddOne(lastCommittedTimestamp, old(pending), frames[..i], frame);
        assert frames[..i + 1] == frames[..i] + [frame];
        counters := counters.(observed := counters.observed + 1);
        if lastCommittedTimestamp.Some? && frame.mediaTimestamp <= lastCommittedTimestamp.value {
          hadLateFrame := true;
        } else if frame.mediaTimestamp !in pending {
          pending := pending[frame.mediaTimestamp := frame];
        } else {
          counters := counters.(overlaps := counters.overlaps + 1);
          if Prefer(frame, pending[frame.mediaTimestamp]) {
            pending := pending[frame.mediaTimestamp := frame];
          }
        }
      }
      assert frames[..|frames|] == frames;
    }

    /** _commit_frame. */
    method CommitFrame(frame: EncodedFrame) returns (emissions: seq<Emission>)
      modifies `counters, `lastCommittedTimestamp
      ensures emissions == EmissionsAt(cfg.codec, cfg.policy, old(lastCommittedTimestamp), frame)
      ensures counters == old(counters).(
                gaps := old(counters).gaps + |Missing(cfg.codec, old(lastCommittedTimestamp), frame.mediaTimestamp)|)
      ensures lastCommittedTimestamp == Some(frame.mediaTimestamp)
    {
      hide TimestampStep;
      var missing: seq<int> := [];
      if lastCommittedTimestamp.Some? {
        var expected := lastCommittedTimestamp.value + TimestampStep(cfg.codec);
        if expected < frame.mediaTimestamp {
          missing := Range(expected, frame.mediaTimestamp, TimestampStep(cfg.codec));
          counters := counters.(gaps := counters.gaps + |missing|);
        }
      }
      lastCommittedTimestamp := Some(frame.mediaTimestamp);
      if cfg.policy.NoData? && |missing| > 0 {
        return Fill(cfg.codec, missing) + [Emission(frame, false)];
      }
      return [Emission(frame, false)];
    }

    /** _commit_through. */
    method CommitThrough(watermark: int) returns (emissions: seq<Emission>)
      modifies `pending, `counters, `lastCommittedTimestamp
      ensures var released := InOrder(AtMost(old(pending), watermark));
              && emissions == Emissions(cfg.codec, cfg.policy, old(lastCommittedTimestamp), released)
              && pending == Above(old(pending), watermark)
              && lastCommittedTimestamp == CommittedAfter(old(lastCommittedTimestamp), released)
              && counters == old(counters).(
                   gaps := old(counters).gaps + Gaps(cfg.codec, old(lastCommittedTimestamp), released))
    {
      hide Progress, Remaining, EmissionsAt, Missing, SortedKeys, InOrder, TimestampStep;
      ghost var before, committed, gaps := pending, lastCommittedTimestamp, counters.gaps;
      ghost var released := InOrder(AtMost(before, watermark));
      var timestamps := Sorted(set t | t in pending && t <= watermark);
      ReleasedFrames(before, watermark);
      emissions := [];
      NoProgress(cfg, committed, gaps, before);
      for i := 0 to |timestamps|
        invariant Remaining(pending, before, timestamps[..i])
        invariant Progress(cfg, committed, gaps, released[..i], emissions, lastCommittedTimestamp, counters.gaps)
        invariant counters == old(counters).(gaps := counters.gaps)
      {
        var t := timestamps[i];
        RemainingStep(pending, before, timestamps, i);
        var frame := pending[t];
        ghost var last, counted := lastCommittedTimestamp, counters.gaps;
        var more := CommitFrame(frame);
        ProgressStep(cfg, committed, gaps, released, i, emissions, last, counted);
        emissions := emissions + more;
        pending := Without(pending, t);
      }
      assert released[..|timestamps|] == released && timestamps[..|timestamps|] == timestamps;
      ProgressDone(cfg, committed, gaps, released, emissions, lastCommittedTimestamp, counters.gaps);
      RemainingDone(pending, before, watermark);
    }

    /** _prepare_output: the emissions become the iterator handed out. */
    method PrepareOutput(emissions: seq<Emission>)
      requires output == [] && !outputPending
      modifies `output, `outputPending
      ensures output == emissions && outputPending == (emissions != [])
    {
      output, outputPending := emissions, emissions != [];
    }

    /** push's bookkeeping for a packet whose payload could be read. */
    method MarkAccepted(identity: Identity, sequence: int, timestamp: int, identityTimestamp: int, reordered: bool)
      requires Mirrored() && |Retained(recentPacketOrder, lastCommittedTimestamp)| < HistoryLimit(cfg)
      modifies `recentPacketOrder, `recentPackets, `highestSequence, `highestTimestamp, `counters
      ensures Mirrored()
      ensures recentPacketOrder == Retained(old(recentPacketOrder), lastCommittedTimestamp)
                                   + [HistoryEntry(identity, identityTimestamp)]
      ensures highestSequence == Higher(old(highestSequence), sequence)
      ensures highestTimestamp == Higher(old(highestTimestamp), timestamp)
      ensures counters == old(counters).(accepted := old(counters).accepted + 1,
                                         reordered := old(counters).reordered + (if reordered then 1 else 0))
    {
      hide Retained, Mirrored;
      var _ := RetainPacketIdentity(identity, identityTimestamp);
      if highestSequence.None? || sequence > highestSequence.value {
        highestSequence := Some(sequence);
      }
      if reordered {
        counters := counters.(reordered := counters.reordered + 1);
      }
      if highestTimestamp.None? || timestamp > highestTimestamp.value {
        highestTimestamp := Some(timestamp);
      }
      counters := counters.(accepted := counters.accepted + 1);
    }

    /** push's buffering of the frames, with the diagnostic for a late packet. */
    method BufferFrames(frames: seq<EncodedFrame>, provenance: Provenance)
      modifies `pending, `counters
      ensures var timely := OnTime(lastCommittedTimestamp, frames);
              && pending == InsertAll(old(pending), timely)
              && counters == Buffered(cfg, old(counters), frames, timely, Overlaps(old(pending), timely), provenance)
      ensures counters.gaps == old(counters).gaps
    {
      hide InsertAll, Overlaps, OnTime;
      var hadLateFrame := AddFrames(frames);
      if hadLateFrame {
        counters := counters.(latePackets := counters.latePackets + 1);
        RetainDiagnostic(LatePacket, provenance);
      }
    }

    /** push's release of the frames that the new high mark makes safe to commit. */
    method ReleaseFrames(frames: seq<EncodedFrame>)
      requires highestTimestamp.Some? && output == [] && !outputPending
      modifies `highestTimestamp, `pending, `counters, `lastCommittedTimestamp, `output, `outputPending
      ensures highestTimestamp == Higher(old(highestTimestamp), LastTimestamp(old(highestTimestamp).value, frames))
      ensures var watermark := highestTimestamp.value - Span(cfg);
              var released := InOrder(AtMost(old(pending), watermark));
              && pending == Above(old(pending), watermark)
              && lastCommittedTimestamp == CommittedAfter(old(lastCommittedTimestamp), released)
              && counters == old(counters).(
                   gaps := old(counters).gaps + Gaps(cfg.codec, old(lastCommittedTimestamp), released))
              && output == Emissions(cfg.codec, cfg.policy, old(lastCommittedTimestamp), released)
              && outputPending == (output != [])
    {
      hide InOrder, AtMost, Above, Emissions, Gaps, CommittedAfter, TimestampStep;
      if frames != [] {
        var latestFrameTimestamp := frames[|frames| - 1].mediaTimestamp;
        if latestFrameTimestamp > highestTimestamp.value {
          highestTimestamp := Some(latestFrameTimestamp);
        }
      }
      var watermark := highestTimestamp.value - cfg.limits.reorderWindow * TimestampStep(cfg.codec);
      var emissions := CommitThrough(watermark);
      PrepareOutput(emissions);
    }

    /** The rest of push once the payload has been read; s is the state the push began in. */
    method AcceptPacket(
      ghost s: State, record: RtpRecord, sequence: int, timestamp: int, frames: seq<EncodedFrame>, reordered: bool)
      requires Mirrored() && output == [] && !outputPending
      requires Now() == s.(history := Retained(s.history, s.committed),
                           counters := s.counters.(packets := s.counters.packets + 1))
      requires |Retained(s.history, s.committed)| < HistoryLimit(cfg)
      requires reordered == (s.highestSequence.Some? && sequence < s.highestSequence.value)
      modifies this
      ensures Mirrored() && unchanged(`log, `drained, `emittedFrameCount, `insertedNoDataCount, `badQualityFrameCount)
      ensures Now() == Accept(cfg, s, record, sequence, timestamp, frames)
      ensures output == Emissions(cfg.codec, cfg.policy, s.committed, ReleasedBy(cfg, s, timestamp, frames))
      ensures outputPending == (output != [])
    {
      hide Mirrored, Retained, InsertAll, Overlaps, OnTime, InOrder, AtMost, Above, Emissions, Gaps, CommittedAfter;
      hide Buffered, Accept, ReleasedBy, Span, HistoryLimit, LastTimestamp, Higher;
      RetainedTwice(s.history, s.committed);
      HighsAgree(s, timestamp, frames);
      MarkAccepted(IdentityOf(record, sequence), sequence, timestamp, LastTimestamp(timestamp, frames), reordered);
      BufferFrames(frames, record.provenance);
      ReleaseFrames(frames);
      AcceptIs(cfg, s, record, sequence, timestamp, frames, Now());
    }

    /** What push does with a record it does not refuse. */
    method Consume(record: RtpRecord) returns (exit: Exit)
      requires Mirrored() && output == [] && !outputPending
      modifies this
      ensures Mirrored() && unchanged(`log, `drained, `emittedFrameCount, `insertedNoDataCount, `badQualityFrameCount)
      ensures var p := PushRecord(cfg, old(Now()), record);
              && Now() == p.state && output == p.emitted && outputPending == (output != [])
              && exit == (if p.outcome.Malformed? then Raised(p.outcome.reason) else Returned)
    {
      hide PushRecord, Retained, Holds, Accept, Emissions, Depacketize, ExtendWrapping, ReleasedBy, HistoryLimit, Note;
      hide IdentityOf;
      ghost var s := Now();
      PushCases(cfg, s, record);
      counters := counters.(packets := counters.packets + 1);
      var sequence := ExtendWrapping(record.sequence, highestSequence, SEQUENCE_CYCLE);
      var reordered := highestSequence.Some? && sequence < highestSequence.value;
      var identity := IdentityOf(record, sequence);
      EvictCommittedPacketIdentities();
      if identity in recentPackets {
        counters := counters.(duplicates := counters.duplicates + 1);
        return Returned;
      }
      var timestamp := ExtendWrapping(record.timestamp, highestTimestamp, TIMESTAMP_CYCLE);
      if |recentPacketOrder| >= HistoryLimit(cfg) {
        counters := counters.(overflows := counters.overflows + 1);
        RetainDiagnostic(PacketHistoryOverflow, record.provenance);
        return Returned;
      }
      var frames := DepacketizePayload(record.payload, cfg.codec, cfg.mode, timestamp, record.provenance);
      if frames.Err? {
        RetainedTwice(s.history, s.committed);
        var _ := RetainPacketIdentity(identity, timestamp);
        counters := counters.(malformed := counters.malformed + 1);
        return Raised(frames.error);
      }
      AcceptPacket(s, record, sequence, timestamp, frames.value, reordered);
      return Returned;
    }

    /** push, with the record's outcome; a refused record touches nothing. */
    method Push(record: RtpRecord) returns (exit: Exit)
      requires Valid()
      modifies this
      ensures Valid()
      ensures exit == Refused(AlreadyFinished) <==> old(finished)
      ensures exit == Refused(OutputUnread) <==> !old(finished) && old(outputPending)
      ensures exit == Refused(WrongFlow) <==> !old(finished) && !old(outputPending) && record.flowKey != cfg.flow
      ensures exit.Refused? <==> old(finished) || old(outputPending) || record.flowKey != cfg.flow
      ensures exit.Refused? ==> unchanged(this)
      ensures !exit.Refused? ==>
                var p := PushRecord(cfg, old(Now()), record);
                && Now() == p.state && output == p.emitted && outputPending == (output != [])
                && log == old(log) + [record] && drained == old(drained)
                && exit == (if p.outcome.Malformed? then Raised(p.outcome.reason) else Returned)
    {
      hide PushRecord, Run, Complete, Mirrored, Inserted, BadQuality;
      if finished {
        return Refused(AlreadyFinished);
      }
      if outputPending {
        return Refused(OutputUnread);
      }
      if record.flowKey != cfg.flow {
        return Refused(WrongFlow);
      }
      RunPushed(cfg, log, record);
      log := log + [record];
      exit := Consume(record);
    }

    /** What finish does when it is neither refused nor repeated. */
    method Flush()
      requires Mirrored() && !finished && output == [] && !outputPending
      modifies this
      ensures Mirrored() && unchanged(`log, `drained, `emittedFrameCount, `insertedNoDataCount, `badQualityFrameCount)
      ensures Now() == FinishState(cfg, old(Now()))
      ensures output == Emissions(cfg.codec, cfg.policy, old(lastCommittedTimestamp), FinishReleased(old(Now())))
      ensures outputPending == (output != [])
    {
      hide InOrder, Emissions, Gaps, CommittedAfter, AtMost, Above, FinishReleased, FinishState, Mirrored;
      FinishCases(cfg, Now());
      finished := true;
      if pending.Keys == {} {
        return;
      }
      var watermark := Maximum(pending.Keys);
      EverythingThrough(pending, watermark);
      var emissions := CommitThrough(watermark);
      PrepareOutput(emissions);
    }

    /** finish: everything still buffered is committed. */
    method Finish() returns (exit: Exit)
      requires Valid()
      modifies this
      ensures Valid()
      ensures exit == if old(outputPending) then Refused(OutputUnread) else Returned
      ensures old(outputPending) || old(finished) ==> unchanged(this)
      ensures !old(outputPending) && !old(finished) ==>
                && finished && Now() == FinishState(cfg, old(Now()))
                && output == Emissions(cfg.codec, cfg.policy, old(lastCommittedTimestamp), FinishReleased(old(Now())))
                && outputPending == (output != [])
                && unchanged(`log, `drained)
    {
      hide Run, Complete, FinishReleased, FinishState, Mirrored, Inserted, BadQuality, Emissions;
      if outputPending {
        return Refused(OutputUnread);
      }
      if finished {
        return Returned;
      }
      RunFinished(cfg, log);
      Flush();
      return Returned;
    }

    /** One step of the iterator handed out last. */
    method Next() returns (frame: Option<EncodedFrame>)
      requires Valid()
      modifies `output, `outputPending, `emittedFrameCount, `insertedNoDataCount, `badQualityFrameCount, `drained
      ensures Valid() && Now() == old(Now())
      ensures old(output) == [] ==> frame == None && !outputPending && output == [] && drained == old(drained)
      ensures old(output) != [] ==>
                && frame == Some(old(output)[0].frame) && outputPending
                && output == old(output)[1..] && drained == old(drained) + [old(output)[0]]
    {
      hide Run, Complete, Inserted, BadQuality, Mirrored;
      if output == [] {
        outputPending := false;
        return None;
      }
      var next := output[0];
      DrainOne(drained, next);
      emittedFrameCount := emittedFrameCount + 1;
      if next.synthetic {
        insertedNoDataCount := insertedNoDataCount + 1;
      } else if !next.frame.quality {
        badQualityFrameCount := badQualityFrameCount + 1;
      }
      assert drained + output == drained + [next] + output[1..];
      drained, output := drained + [next], output[1..];
      return Some(next.frame);
    }

    /** Consuming the iterator to its end. */
    method Drain() returns (frames: seq<EncodedFrame>)
      requires Valid()
      modifies `output, `outputPending, `emittedFrameCount, `insertedNoDataCount, `badQualityFrameCount, `drained
      ensures Valid() && Now() == old(Now())
      ensures frames == FramesIn(old(output)) && drained == old(drained) + old(output)
      ensures output == [] && !outputPending
    {
      hide Valid;
      frames := [];
      ghost var all, taken := output, 0;
      var next := Next();
      if next.Some? {
        taken := 1;
        frames := [next.value];
      }
      assert all[..0] == [];
      while next.Some?
        invariant Valid() && Now() == old(Now())
        invariant taken <= |all| && drained == old(drained) + all[..taken]
        invariant frames == FramesIn(all[..taken]) && output == all[taken..]
        invariant next.None? ==> output == [] && !outputPending
        decreases |output|, next.Some?
      {
        next := Next();
        if next.Some? {
          TakenOne(all, taken);
          taken := taken + 1;
          frames := frames + [next.value];
        }
      }
      assert all[..taken] == all;
    }
  }

  /** The four exits of a push, told apart by what the object computes. */
  lemma PushCases(cfg: Config, s: State, record: RtpRecord)
    ensures var p := PushRecord(cfg, s, record);
            var kept := Retained(s.history, s.committed);
            var identity := IdentityOf(record, ExtendedSequence(s, record));
            var timestamp, c := ExtendedTimestamp(s, record), s.counters;
            var frames := Depacketize(record.payload, cfg.codec, cfg.mode, timestamp, record.provenance);
            if Holds(kept, identity) then
              && p.state == s.(history := kept,
                               counters := c.(packets := c.packets + 1, duplicates := c.duplicates + 1))
              && p.emitted == [] && !p.outcome.Malformed?
            else if |kept| >= HistoryLimit(cfg) then
              && p.state == s.(history := kept,
                               counters := Note(cfg, c.(packets := c.packets + 1, overflows := c.overflows + 1),
                                                PacketHistoryOverflow, record.provenance))
              && p.emitted == [] && !p.outcome.Malformed?
            else if frames.Err? then
              && p.state == s.(history := kept + [HistoryEntry(identity, timestamp)],
                               counters := c.(packets := c.packets + 1, malformed := c.malformed + 1))
              && p.emitted == [] && p.outcome == Malformed(frames.error)
            else
              && p.state == Accept(cfg, s, record, ExtendedSequence(s, record), timestamp, frames.value)
              && p.emitted == Emissions(cfg.codec, cfg.policy, s.committed, ReleasedBy(cfg, s, timestamp, frames.value))
              && !p.outcome.Malformed?
  {
    hide Retained, Holds, Accept, Emissions, Depacketize, ExtendWrapping, ReleasedBy, HistoryLimit, Note, IdentityOf;
  }

  /** The counters once the frames of a packet are buffered. */
  ghost function Buffered(
    cfg: Config, c: Counters, frames: seq<EncodedFrame>, timely: seq<EncodedFrame>, overlaps: nat,
    provenance: Provenance): Counters
  {
    var counted := c.(observed := c.observed + |frames|, overlaps := c.overlaps + overlaps);
    if |timely| < |frames|
    then Note(cfg, counted.(latePackets := counted.latePackets + 1), LatePacket, provenance)
    else counted
  }

  /** Raising the high mark to the last frame from the mark or from the packet's timestamp is the same. */
  lemma HighsAgree(s: State, timestamp: int, frames: seq<EncodedFrame>)
    ensures var high := Higher(s.highestTimestamp, timestamp);
            high.Some? && Higher(high, LastTimestamp(high.value, frames)) == HighestAfter(s, timestamp, frames)
  {
  }

  /** The parts of an accepted push put together. */
  lemma AcceptIs(
    cfg: Config, s: State, record: RtpRecord, sequence: int, timestamp: int, frames: seq<EncodedFrame>, t: State)
    requires t.history == Retained(s.history, s.committed)
                          + [HistoryEntry(IdentityOf(record, sequence), LastTimestamp(timestamp, frames))]
    requires t.highestSequence == Higher(s.highestSequence, sequence)
    requires t.highestTimestamp == HighestAfter(s, timestamp, frames)
    requires t.finished == s.finished
    requires var timely := OnTime(s.committed, frames);
             var buffered := InsertAll(s.pending, timely);
             var watermark := HighestAfter(s, timestamp, frames).value - Span(cfg);
             var released := InOrder(AtMost(buffered, watermark));
             var c := s.counters;
             var late := s.highestSequence.Some? && sequence < s.highestSequence.value;
             var marked := c.(packets := c.packets + 1, accepted := c.accepted + 1,
                              reordered := c.reordered + (if late then 1 else 0));
             && t.pending == Above(buffered, watermark)
             && t.committed == CommittedAfter(s.committed, released)
             && t.counters
                == Buffered(cfg, marked, frames, timely, Overlaps(s.pending, timely), record.provenance)
                   .(gaps := c.gaps + Gaps(cfg.codec, s.committed, released))
    ensures t == Accept(cfg, s, record, sequence, timestamp, frames)
    ensures ReleasedBy(cfg, s, timestamp, frames)
            == InOrder(AtMost(InsertAll(s.pending, OnTime(s.committed, frames)),
                              HighestAfter(s, timestamp, frames).value - Span(cfg)))
  {
    hide Retained, InsertAll, Overlaps, OnTime, InOrder, AtMost, Above, Gaps, CommittedAfter, Span, HighestAfter;
  }

  lemma RunPushed(cfg: Config, log: seq<RtpRecord>, record: RtpRecord)
    ensures var t, p := Run(cfg, log), PushRecord(cfg, Run(cfg, log).state, record);
            && Run(cfg, log + [record]).state == p.state && Run(cfg, log + [record]).emitted == t.emitted + p.emitted
            && p.state.finished == t.state.finished
  {
    hide Run, PushRecord;
    RunUnfold(cfg, log + [record]);
    PushEmits(cfg, Run(cfg, log).state, record);
    assert (log + [record])[..|log|] == log;
  }

  /** finish with an empty buffer and with a filled one. */
  lemma FinishCases(cfg: Config, s: State)
    requires !s.finished
    ensures var released := InOrder(s.pending);
            && FinishReleased(s) == released
            && FinishState(cfg, s)
               == s.(finished := true, pending := map[], committed := CommittedAfter(s.committed, released),
                     counters := s.counters.(gaps := s.counters.gaps + Gaps(cfg.codec, s.committed, released)))
    ensures s.pending.Keys == {} ==>
              && FinishState(cfg, s) == s.(finished := true)
              && Emissions(cfg.codec, cfg.policy, s.committed, FinishReleased(s)) == []
  {
    hide InOrder, Gaps, Emissions;
    if s.pending.Keys == {} {
      MapEq(s.pending, map[]);
      InOrderNothing();
      EmissionsNothing(cfg.codec, cfg.policy, s.committed);
    }
  }

  lemma RunFinished(cfg: Config, log: seq<RtpRecord>)
    ensures var t := Run(cfg, log);
            && Complete(cfg, log).state == FinishState(cfg, t.state) && FinishState(cfg, t.state).finished
            && Complete(cfg, log).emitted
               == t.emitted + Emissions(cfg.codec, cfg.policy, t.state.committed, FinishReleased(t.state))
  {
    hide Run, InOrder, Emissions, Gaps;
  }

  /** Committing through the largest timestamp commits everything. */
  lemma EverythingThrough(pending: Pending, watermark: int)
    requires forall t | t in pending.Keys :: t <= watermark
    ensures AtMost(pending, watermark) == pending && Above(pending, watermark) == map[]
  {
    MapEq(AtMost(pending, watermark), pending);
    MapEq(Above(pending, watermark), map[]);
  }

  lemma RetainedNothing(history: History, committed: Option<int>)
    ensures Retained([], committed) == []
    ensures committed.None? ==> Retained(history, committed) == history
  {
  }

  lemma HoldsNothing()
    ensures forall identity :: !Holds([], identity)
  {
  }

  lemma HoldsAppend(history: History, entry: HistoryEntry)
    ensures forall identity ::
              Holds(history + [entry], identity) <==> Holds(history, identity) || identity == entry.identity
  {
    var longer := history + [entry];
    forall identity ensures Holds(longer, identity) <==> Holds(history, identity) || identity == entry.identity {
      if Holds(history, identity) {
        var i :| 0 <= i < |history| && history[i].identity == identity;
        assert longer[i].identity == identity;
      }
      assert longer[|history|].identity == entry.identity;
    }
  }

  lemma AddNothing(committed: Option<int>, pending: Pending)
    ensures OnTime(committed, []) == [] && InsertAll(pending, []) == pending && Overlaps(pending, []) == 0
  {
  }

  lemma InsertOne(pending: Pending, timely: seq<EncodedFrame>, frame: EncodedFrame)
    ensures InsertAll(pending, timely + [frame]) == Insert(InsertAll(pending, timely), frame)
    ensures Overlaps(pending, timely + [frame])
            == Overlaps(pending, timely) + (if frame.mediaTimestamp in InsertAll(pending, timely) then 1 else 0)
  {
    hide Insert;
    assert (timely + [frame])[..|timely|] == timely;
  }

  lemma AddOne(committed: Option<int>, pending: Pending, front: seq<EncodedFrame>, frame: EncodedFrame)
    ensures var timely, more := OnTime(committed, front), OnTime(committed, front + [frame]);
            if IsLate(committed, frame) then more == timely
            else
              && |more| == |timely| + 1
              && InsertAll(pending, more) == Insert(InsertAll(pending, timely), frame)
              && Overlaps(pending, more)
                 == Overlaps(pending, timely) + (if frame.mediaTimestamp in InsertAll(pending, timely) then 1 else 0)
  {
    hide InsertAll, Overlaps, Insert;
    assert (front + [frame])[..|front|] == front;
    InsertOne(pending, OnTime(committed, front), frame);
  }

  /** The first released frames are committed. */
  ghost predicate Progress(
    cfg: Config, committed: Option<int>, gaps: nat, frames: seq<EncodedFrame>,
    emissions: seq<Emission>, last: Option<int>, counted: nat)
  {
    && emissions == Emissions(cfg.codec, cfg.policy, committed, frames)
    && last == CommittedAfter(committed, frames)
    && counted == gaps + Gaps(cfg.codec, committed, frames)
  }

  lemma NoProgress(cfg: Config, committed: Option<int>, gaps: nat, pending: Pending)
    ensures Progress(cfg, committed, gaps, [], [], committed, gaps) && Remaining(pending, pending, [])
  {
    hide Emissions, Gaps;
    EmissionsNothing(cfg.codec, cfg.policy, committed);
  }

  lemma ProgressStep(
    cfg: Config, committed: Option<int>, gaps: nat, released: seq<EncodedFrame>, i: nat,
    emissions: seq<Emission>, last: Option<int>, counted: nat)
    requires i < |released| && Progress(cfg, committed, gaps, released[..i], emissions, last, counted)
    ensures Progress(cfg, committed, gaps, released[..i + 1],
                     emissions + EmissionsAt(cfg.codec, cfg.policy, last, released[i]),
                     Some(released[i].mediaTimestamp),
                     counted + |Missing(cfg.codec, last, released[i].mediaTimestamp)|)
  {
    hide Emissions, Gaps, EmissionsAt, Missing;
    assert released[..i + 1] == released[..i] + [released[i]];
    EmissionsLast(cfg.codec, cfg.policy, committed, released[..i], released[i]);
  }

  lemma ProgressDone(
    cfg: Config, committed: Option<int>, gaps: nat, released: seq<EncodedFrame>,
    emissions: seq<Emission>, last: Option<int>, counted: nat)
    requires Progress(cfg, committed, gaps, released, emissions, last, counted)
    ensures emissions == Emissions(cfg.codec, cfg.policy, committed, released)
    ensures last == CommittedAfter(committed, released)
    ensures counted == gaps + Gaps(cfg.codec, committed, released)
  {
    hide Emissions, Gaps, CommittedAfter;
  }

  /** What is left of a buffer once some keys are popped. */
  ghost predicate Remaining(pending: Pending, before: Pending, popped: seq<int>) {
    && (forall t :: t in pending <==> t in before && t !in popped)
    && (forall t | t in pending :: pending[t] == before[t])
  }

  lemma RemainingStep(pending: Pending, before: Pending, keys: seq<int>, i: nat)
    requires i < |keys| && StrictlySorted(keys) && keys[i] in before
    requires Remaining(pending, before, keys[..i])
    ensures keys[i] in pending && pending[keys[i]] == before[keys[i]]
    ensures Remaining(Without(pending, keys[i]), before, keys[..i + 1])
  {
    FreshKey(keys, i);
    PrefixMembers(keys, i);
    var k := keys[i];
    assert k in pending;
    forall t ensures t in Without(pending, k) <==> t in before && t !in keys[..i + 1] {
      assert t in pending <==> t in before && t !in keys[..i];
    }
  }

  lemma RemainingDone(pending: Pending, before: Pending, watermark: int)
    requires Remaining(pending, before, SortedKeys(set t | t in before && t <= watermark))
    ensures pending == Above(before, watermark)
  {
    hide SortedKeys;
    MapEq(pending, Above(before, watermark));
  }

  /** The frames up to a watermark are the buffered frames at the sorted timestamps. */
  lemma ReleasedFrames(pending: Pending, watermark: int)
    ensures var keys := SortedKeys(set t | t in pending && t <= watermark);
            var released := InOrder(AtMost(pending, watermark));
            && |released| == |keys|
            && forall i | 0 <= i < |keys| :: keys[i] in pending && released[i] == pending[keys[i]]
  {
    hide SortedKeys;
    var low := AtMost(pending, watermark);
    SetEq(low.Keys, set t | t in pending && t <= watermark);
    var keys := SortedKeys(low.Keys);
    forall i | 0 <= i < |keys| ensures keys[i] in pending {
      assert keys[i] in keys;
    }
  }

  lemma FreshKey(keys: seq<int>, i: nat)
    requires StrictlySorted(keys) && i < |keys|
    ensures keys[i] !in keys[..i]
  {
  }

  lemma PrefixMembers(keys: seq<int>, i: nat)
    requires i < |keys|
    ensures forall t :: t in keys[..i + 1] <==> t in keys[..i] || t == keys[i]
  {
    assert keys[..i + 1] == keys[..i] + [keys[i]];
  }

  /** Once everything is drained the output counters are those of the whole run. */
  lemma DrainedCounters(n: TimelineNormalizer)
    requires n.Valid() && n.finished && n.output == []
    ensures n.emittedFrameCount == |Complete(n.cfg, n.log).emitted|
    ensures n.insertedNoDataCount == if n.cfg.policy.NoData? then n.counters.gaps else 0
  {
    hide Complete, Run, Emissions, Gaps, Inserted, BadQuality, InOrder, Best;
    var t := Complete(n.cfg, n.log);
    assert n.drained + n.output == n.drained;
    CompleteIsSorting(n.cfg, n.log);
    PoliciesAgree(n.cfg.codec, None, t.released);
  }

  // ---------------------------------------------------------------------------------------------
  // Frames of bad quality
  // ---------------------------------------------------------------------------------------------

  /** Where the frames without the quality bit are. */
  ghost function BadPlaces(frames: seq<EncodedFrame>): set<int> {
    set i | 0 <= i < |frames| && !frames[i].quality
  }

  lemma BadPlacesAppend(front: seq<EncodedFrame>, last: EncodedFrame)
    ensures |BadPlaces(front + [last])| == |BadPlaces(front)| + (if last.quality then 0 else 1)
  {
    var all := front + [last];
    assert BadPlaces(all) == BadPlaces(front) + (if last.quality then {} else {|front|});
  }

  lemma {:induction false} BadConcat(a: seq<Emission>, b: seq<Emission>)
    ensures BadQuality(a + b) == BadQuality(a) + BadQuality(b)
  {
    if b == [] {
      assert a + b == a;
    } else {
      BadConcat(a, b[..|b| - 1]);
      assert (a + b)[..|a + b| - 1] == a + b[..|b| - 1];
    }
  }

  lemma {:induction false} NoneBad(emissions: seq<Emission>)
    requires forall i | 0 <= i < |emissions| :: emissions[i].synthetic
    ensures BadQuality(emissions) == 0
  {
    if emissions != [] {
      NoneBad(emissions[..|emissions| - 1]);
    }
  }

  lemma BadOne(codec: Codec, policy: GapPolicy, committed: Option<int>, frame: EncodedFrame)
    ensures BadQuality(EmissionsAt(codec, policy, committed, frame)) == if frame.quality then 0 else 1
  {
    hide Missing, BadQuality;
    var gap := if policy.NoData? then Fill(codec, Missing(codec, committed, frame.mediaTimestamp)) else [];
    NoneBad(gap);
    BadConcat(gap, [Emission(frame, false)]);
    DrainOne([], Emission(frame, false));
    NoneBad([]);
    assert [] + [Emission(frame, false)] == [Emission(frame, false)];
  }

  lemma {:induction false} BadEmissions(
    codec: Codec, policy: GapPolicy, committed: Option<int>, frames: seq<EncodedFrame>)
    ensures BadQuality(Emissions(codec, policy, committed, frames)) == |BadPlaces(frames)|
  {
    hide Emissions, Gaps, EmissionsAt, CommittedAfter, BadQuality, BadPlaces;
    if frames == [] {
      EmissionsNothing(codec, policy, committed);
      NoneBad([]);
      NoBadPlaces();
      assert frames == [];
    } else {
      var front, last := frames[..|frames| - 1], frames[|frames| - 1];
      assert frames == front + [last];
      BadEmissions(codec, policy, committed, front);
      EmissionsLast(codec, policy, committed, front, last);
      BadConcat(Emissions(codec, policy, committed, front),
                EmissionsAt(codec, policy, CommittedAfter(committed, front), last));
      BadOne(codec, policy, CommittedAfter(committed, front), last);
      BadPlacesAppend(front, last);
    }
  }

  lemma NoBadPlaces()
    ensures BadPlaces([]) == {}
  {
  }

  /** The bad-quality counter counts the released frames without the quality bit, and no NO_DATA frame put in a gap. */
  lemma BadQualityReleased(cfg: Config, records: seq<RtpRecord>)
    ensures BadQuality(Complete(cfg, records).emitted) == |BadPlaces(Complete(cfg, records).released)|
  {
    hide Complete, Emissions, Gaps, BadQuality, BadPlaces, InOrder, Best;
    CompleteIsSorting(cfg, records);
    BadEmissions(cfg.codec, cfg.policy, None, Complete(cfg, records).released);
  }
}
