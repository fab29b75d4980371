/** What a run says of each packet: which are dropped, which count as reordered, which frame wins a timestamp. */
module Reception {
  import opened Models
  import opened Timeline
  import opened Buffering
  import opened Runs
  import opened Histories
  import opened Reordering

  // ---------------------------------------------------------------------------------------------
  // Only copies are dropped as duplicates
  // ---------------------------------------------------------------------------------------------

  /** The extended sequence number of the packet at position i of a run. */
  ghost function SequenceAt(cfg: Config, records: seq<RtpRecord>, i: nat): int
    requires i < |records|
  {
    ExtendedSequence(Run(cfg, records[..i]).state, records[i])
  }

  /** An identity was kept for the packet at position i, which was accepted or malformed. */
  ghost predicate KeptFor(cfg: Config, records: seq<RtpRecord>, identity: Identity, i: nat) {
    && i < |records|
    && identity == IdentityOf(records[i], SequenceAt(cfg, records, i))
    && (Run(cfg, records).outcomes[i].Accepted? || Run(cfg, records).outcomes[i].Malformed?)
  }

  ghost predicate KeptForSome(cfg: Config, records: seq<RtpRecord>, identity: Identity) {
    exists i: nat :: KeptFor(cfg, records, identity, i)
  }

  ghost predicate HistoryKept(cfg: Config, records: seq<RtpRecord>) {
    forall k | 0 <= k < |Run(cfg, records).state.history| ::
      KeptForSome(cfg, records, Run(cfg, records).state.history[k].identity)
  }

  lemma KeptStill(cfg: Config, records: seq<RtpRecord>, identity: Identity)
    requires records != [] && KeptForSome(cfg, records[..|records| - 1], identity)
    ensures KeptForSome(cfg, records, identity)
  {
    hide Run, PushRecord, ExtendedSequence, IdentityOf;
    var front := records[..|records| - 1];
    RunUnfold(cfg, records);
    var i: nat :| KeptFor(cfg, front, identity, i);
    assert front[..i] == records[..i] && front[i] == records[i];
    assert KeptFor(cfg, records, identity, i);
  }

  lemma KeptNow(cfg: Config, records: seq<RtpRecord>)
    requires records != []
    requires var o := OutcomeOf(cfg, Run(cfg, records[..|records| - 1]).state, records[|records| - 1]);
             o.Accepted? || o.Malformed?
    ensures var n := |records| - 1;
            KeptForSome(cfg, records,
                        IdentityOf(records[n], ExtendedSequence(Run(cfg, records[..n]).state, records[n])))
  {
    hide Run, PushRecord, OutcomeOf, ExtendedSequence, IdentityOf;
    var n := |records| - 1;
    RunUnfold(cfg, records);
    PushOutcome(cfg, Run(cfg, records[..n]).state, records[n]);
    assert KeptFor(cfg, records, IdentityOf(records[n], SequenceAt(cfg, records, n)), n);
  }

  lemma RetainedFrom(history: History, committed: Option<int>, k: nat)
    requires k < |Retained(history, committed)|
    ensures exists j :: 0 <= j < |history| && history[j] == Retained(history, committed)[k]
  {
    hide Retained;
    RetainedMembers(history, committed);
    assert Retained(history, committed)[k] in history;
  }

  lemma {:induction false} RunHistoryKept(cfg: Config, records: seq<RtpRecord>)
    ensures HistoryKept(cfg, records)
  {
    hide Run, PushRecord, OutcomeOf, ExtendedSequence, ExtendedTimestamp, IdentityOf, Retained, KeptForSome;
    hide LastTimestamp;
    if records == [] {
      NothingHeld(cfg);
      assert records == [];
    } else {
      var front, last := records[..|records| - 1], records[|records| - 1];
      var s := Run(cfg, front).state;
      RunHistoryKept(cfg, front);
      RunUnfold(cfg, records);
      PushHistory(cfg, s, last);
      OutcomeHistory(cfg, s, last);
      var o, kept := OutcomeOf(cfg, s, last), Retained(s.history, s.committed);
      if o.Accepted? || o.Malformed? {
        KeptNow(cfg, records);
      }
      forall k | 0 <= k < |kept| ensures KeptForSome(cfg, records, kept[k].identity) {
        RetainedFrom(s.history, s.committed, k);
        var j :| 0 <= j < |s.history| && s.history[j] == kept[k];
        KeptStill(cfg, records, s.history[j].identity);
      }
    }
  }

  lemma NothingHeld(cfg: Config)
    ensures Run(cfg, []).state.history == []
  {
  }

  /** Everything but the flow and the provenance is the same. */
  predicate SameBytes(a: RtpRecord, b: RtpRecord) {
    && a.timestamp == b.timestamp && a.marker == b.marker && a.payload == b.payload && a.csrcs == b.csrcs
    && a.extensionProfile == b.extensionProfile && a.extensionData == b.extensionData
    && a.paddingLength == b.paddingLength
  }

  /** A packet is dropped as a duplicate only if the very same packet was accepted or malformed before. */
  lemma DuplicatesAreCopies(cfg: Config, records: seq<RtpRecord>, record: RtpRecord)
    requires OutcomeOf(cfg, Run(cfg, records).state, record).Duplicate?
    ensures exists i: nat :: i < |records|
              && (Run(cfg, records).outcomes[i].Accepted? || Run(cfg, records).outcomes[i].Malformed?)
              && SequenceAt(cfg, records, i) == ExtendedSequence(Run(cfg, records).state, record)
              && SameBytes(records[i], record)
  {
    hide Run, OutcomeOf, ExtendedSequence, Retained;
    var s := Run(cfg, records).state;
    RunHistoryKept(cfg, records);
    OutcomeHistory(cfg, s, record);
    var kept := Retained(s.history, s.committed);
    var k :| 0 <= k < |kept| && kept[k].identity == IdentityOf(record, ExtendedSequence(s, record));
    RetainedFrom(s.history, s.committed, k);
    var j :| 0 <= j < |s.history| && s.history[j] == kept[k];
    assert KeptForSome(cfg, records, s.history[j].identity);
    var i: nat :| KeptFor(cfg, records, kept[k].identity, i);
    assert SameBytes(records[i], record);
  }

  /**
   * A malformed packet that comes again at once is a duplicate exactly while its time is not committed; afterwards its
   * identity is evicted, and every copy is malformed anew.
   */
  lemma MalformedAgain(cfg: Config, s: State, record: RtpRecord)
    requires OutcomeOf(cfg, s, record).Malformed?
    ensures var again := OutcomeOf(cfg, PushRecord(cfg, s, record).state, record);
            if s.committed.Some? && ExtendedTimestamp(s, record) <= s.committed.value
            then again == OutcomeOf(cfg, s, record) else again.Duplicate?
  {
    hide PushRecord, Retained, IdentityOf, ExtendWrapping, HistoryLimit;
    var s' := PushRecord(cfg, s, record).state;
    PushExits(cfg, s, record);
    PushHistory(cfg, s, record);
    OutcomeHistory(cfg, s, record);
    var kept := Retained(s.history, s.committed);
    var entry := HistoryEntry(IdentityOf(record, ExtendedSequence(s, record)), ExtendedTimestamp(s, record));
    RetainedTwice(s.history, s.committed);
    RetainedAppend(kept, entry, s.committed);
    if !Passed(s.committed, entry.timestamp) {
      assert Retained(s'.history, s'.committed)[|kept|] == entry;
    } else {
      assert kept + [] == kept;
    }
  }

  // ---------------------------------------------------------------------------------------------
  // High marks and reordered packets
  // ---------------------------------------------------------------------------------------------

  /** The packet at position i was accepted after one with a higher sequence number. */
  ghost predicate OutOfOrder(outcomes: seq<Outcome>, i: nat) {
    && i < |outcomes| && outcomes[i].Accepted?
    && exists j :: 0 <= j < i && outcomes[j].Accepted? && outcomes[j].sequence > outcomes[i].sequence
  }

  ghost function OutOfOrderCount(outcomes: seq<Outcome>, n: nat): nat
    requires n <= |outcomes|
  {
    if n == 0 then 0 else OutOfOrderCount(outcomes, n - 1) + (if OutOfOrder(outcomes, n - 1) then 1 else 0)
  }

  /** The highest accepted sequence number, if any. */
  ghost predicate IsHighest(high: Option<int>, outcomes: seq<Outcome>) {
    match high
    case None => forall i | 0 <= i < |outcomes| :: !outcomes[i].Accepted?
    case Some(h) =>
      && (forall i | 0 <= i < |outcomes| && outcomes[i].Accepted? :: outcomes[i].sequence <= h)
      && exists i :: 0 <= i < |outcomes| && outcomes[i].Accepted? && outcomes[i].sequence == h
  }

  lemma HighestAppend(high: Option<int>, outcomes: seq<Outcome>, last: Outcome)
    requires IsHighest(high, outcomes)
    ensures IsHighest(if last.Accepted? then Higher(high, last.sequence) else high, outcomes + [last])
    ensures OutOfOrder(outcomes + [last], |outcomes|)
            <==> last.Accepted? && high.Some? && last.sequence < high.value
  {
    var all := outcomes + [last];
    assert all[|outcomes|] == last;
    if high.Some? {
      var i :| 0 <= i < |outcomes| && outcomes[i].Accepted? && outcomes[i].sequence == high.value;
      assert all[i] == outcomes[i];
    }
    forall i | 0 <= i < |outcomes| ensures all[i] == outcomes[i] {
    }
  }

  lemma {:induction false} CountPrefix(outcomes: seq<Outcome>, last: Outcome, n: nat)
    requires n <= |outcomes|
    ensures OutOfOrderCount(outcomes + [last], n) == OutOfOrderCount(outcomes, n)
  {
    if n > 0 {
      CountPrefix(outcomes, last, n - 1);
      assert OutOfOrder(outcomes + [last], n - 1) <==> OutOfOrder(outcomes, n - 1) by {
        forall j | 0 <= j < n ensures (outcomes + [last])[j] == outcomes[j] {
        }
      }
    }
  }

  lemma PushReordered(cfg: Config, s: State, record: RtpRecord)
    ensures var p := PushRecord(cfg, s, record);
            var o := OutcomeOf(cfg, s, record);
            && p.state.highestSequence
               == (if o.Accepted? then Higher(s.highestSequence, o.sequence) else s.highestSequence)
            && p.state.counters.reordered
               == s.counters.reordered
                  + (if o.Accepted? && s.highestSequence.Some? && o.sequence < s.highestSequence.value then 1 else 0)
  {
    hide OutcomeOf, ReleasedBy, Retained, Gaps, Overlaps, Emissions, OnTime, BufferedAfter, WatermarkAfter, Higher;
  }

  ghost predicate ReorderedAt(cfg: Config, records: seq<RtpRecord>) {
    var t := Run(cfg, records);
    && IsHighest(t.state.highestSequence, t.outcomes)
    && t.state.counters.reordered == OutOfOrderCount(t.outcomes, |t.outcomes|)
  }

  /** After any run the high mark is the highest accepted sequence number, and the packets counted as reordered are
      those accepted after a higher one. */
  lemma {:induction false} RunReordered(cfg: Config, records: seq<RtpRecord>)
    ensures ReorderedAt(cfg, records)
  {
    hide Run, PushRecord, OutcomeOf, IsHighest, OutOfOrder, Higher, OutOfOrderCount;
    if records == [] {
      NothingReordered(cfg);
      assert records == [];
    } else {
      var front, last := records[..|records| - 1], records[|records| - 1];
      var t := Run(cfg, front);
      var o := OutcomeOf(cfg, t.state, last);
      RunReordered(cfg, front);
      RunUnfold(cfg, records);
      PushOutcome(cfg, t.state, last);
      PushReordered(cfg, t.state, last);
      HighestAppend(t.state.highestSequence, t.outcomes, o);
      CountPrefix(t.outcomes, o, |t.outcomes|);
      CountStep(t.outcomes + [o]);
    }
  }

  lemma CountStep(outcomes: seq<Outcome>)
    requires outcomes != []
    ensures var n := |outcomes| - 1;
            OutOfOrderCount(outcomes, n + 1)
            == OutOfOrderCount(outcomes, n) + (if OutOfOrder(outcomes, n) then 1 else 0)
  {
    hide OutOfOrder;
  }

  lemma NothingReordered(cfg: Config)
    ensures ReorderedAt(cfg, [])
  {
  }

  // ---------------------------------------------------------------------------------------------
  // The frame that wins a timestamp
  // ---------------------------------------------------------------------------------------------

  /**
   * Frame g is no better than f: not alone in its quality bit, with no more speech bits at equal quality, and then not
   * captured before f. A lower packet number is earlier and any number earlier than none; with equal numbers, or
   * without, a lower capture time is earlier and any time earlier than none.
   */
  predicate NoBetter(f: EncodedFrame, g: EncodedFrame) {
    && (g.quality ==> f.quality)
    && (g.quality == f.quality ==> g.bitLength <= f.bitLength)
    && (g.quality == f.quality && g.bitLength == f.bitLength ==>
          var p, q := f.provenance, g.provenance;
          && (q.packetNumber.Some? ==> p.packetNumber.Some? && p.packetNumber.value <= q.packetNumber.value)
          && (p.packetNumber == q.packetNumber && q.captureTimestamp.Some? ==>
                p.captureTimestamp.Some? && p.captureTimestamp.value <= q.captureTimestamp.value))
  }

  lemma NotPreferred(f: EncodedFrame, g: EncodedFrame)
    ensures !Prefer(g, f) <==> NoBetter(f, g)
  {
  }

  /** A released frame is the best of all frames that arrived on time for its timestamp. */
  lemma ReleasedIsBest(cfg: Config, records: seq<RtpRecord>, f: EncodedFrame, g: EncodedFrame)
    requires f in Complete(cfg, records).released && g in Timely(cfg, records) && f.mediaTimestamp == g.mediaTimestamp
    ensures NoBetter(f, g)
  {
    hide Complete, Timely, InOrder, Emissions, Gaps;
    CompleteIsSorting(cfg, records);
    BestBeats(Timely(cfg, records), f, g);
    NotPreferred(f, g);
  }

  lemma BestBeats(frames: seq<EncodedFrame>, f: EncodedFrame, g: EncodedFrame)
    requires f in InOrder(Best(frames)) && g in frames && f.mediaTimestamp == g.mediaTimestamp
    ensures !Prefer(g, f)
  {
    hide InOrder, Best, Prefer;
    BestKeyed(frames);
    InOrderMembers(Best(frames), f);
    BestWins(frames, f.mediaTimestamp);
    var k :| Wins(frames, k) && Best(frames)[f.mediaTimestamp] == frames[k];
    var j :| 0 <= j < |frames| && frames[j] == g;
  }
}
