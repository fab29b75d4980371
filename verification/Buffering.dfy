/** The reorder buffer: which frame wins a timestamp, and why releasing in order is sorting. */
module Buffering {
  import opened Models
  import opened IntKeys
  import opened Timeline

  // ---------------------------------------------------------------------------------------------
  // The preference is a strict weak order
  // ---------------------------------------------------------------------------------------------

  lemma EarlierOrder(a: Provenance, b: Provenance, c: Provenance)
    ensures !Earlier(a, a)
    ensures Earlier(a, b) && Earlier(b, c) ==> Earlier(a, c)
    ensures !Earlier(a, b) && !Earlier(b, c) ==> !Earlier(a, c)
  {
  }

  /** Preference never holds of a frame over itself, chains, and so does its failure. */
  lemma PreferOrder(a: EncodedFrame, b: EncodedFrame, c: EncodedFrame)
    ensures !Prefer(a, a)
    ensures Prefer(a, b) && Prefer(b, c) ==> Prefer(a, c)
    ensures !Prefer(a, b) && !Prefer(b, c) ==> !Prefer(a, c)
  {
    hide Earlier;
    EarlierOrder(a.provenance, b.provenance, c.provenance);
  }

  // ---------------------------------------------------------------------------------------------
  // Inserting frames
  // ---------------------------------------------------------------------------------------------

  /** Every buffered frame sits at its own timestamp. */
  ghost predicate Keyed(pending: Pending) {
    forall t | t in pending :: pending[t].mediaTimestamp == t
  }

  ghost predicate HasFrameAt(frames: seq<EncodedFrame>, t: int) {
    exists i :: 0 <= i < |frames| && frames[i].mediaTimestamp == t
  }

  lemma HasFrameAtAppend(frames: seq<EncodedFrame>, last: EncodedFrame, t: int)
    ensures HasFrameAt(frames + [last], t) <==> HasFrameAt(frames, t) || last.mediaTimestamp == t
  {
    var all := frames + [last];
    if HasFrameAt(frames, t) {
      var i :| 0 <= i < |frames| && frames[i].mediaTimestamp == t;
      assert all[i].mediaTimestamp == t;
    }
    if last.mediaTimestamp == t {
      assert all[|frames|].mediaTimestamp == t;
    }
  }

  lemma {:induction false} InsertAllKeys(pending: Pending, frames: seq<EncodedFrame>)
    requires Keyed(pending)
    ensures Keyed(InsertAll(pending, frames))
    ensures forall t :: t in InsertAll(pending, frames) <==> t in pending || HasFrameAt(frames, t)
  {
    if frames != [] {
      hide Prefer, HasFrameAt;
      var front, last := frames[..|frames| - 1], frames[|frames| - 1];
      InsertAllKeys(pending, front);
      forall t ensures HasFrameAt(frames, t) <==> HasFrameAt(front, t) || last.mediaTimestamp == t {
        HasFrameAtAppend(front, last, t);
        assert frames == front + [last];
      }
    }
  }

  lemma {:induction false} InsertAllConcat(pending: Pending, a: seq<EncodedFrame>, b: seq<EncodedFrame>)
    ensures InsertAll(pending, a + b) == InsertAll(InsertAll(pending, a), b)
  {
    if b == [] {
      assert a + b == a;
    } else {
      hide Insert;
      InsertAllConcat(pending, a, b[..|b| - 1]);
      assert (a + b)[..|a + b| - 1] == a + b[..|b| - 1];
    }
  }

  ghost predicate AllAbove(frames: seq<EncodedFrame>, c: int) {
    forall i | 0 <= i < |frames| :: frames[i].mediaTimestamp > c
  }

  lemma InsertAbove(pending: Pending, frame: EncodedFrame, c: int)
    requires frame.mediaTimestamp > c
    ensures AtMost(Insert(pending, frame), c) == AtMost(pending, c)
    ensures Above(Insert(pending, frame), c) == Insert(Above(pending, c), frame)
  {
    hide Prefer;
    MapEq(AtMost(Insert(pending, frame), c), AtMost(pending, c));
    MapEq(Above(Insert(pending, frame), c), Insert(Above(pending, c), frame));
  }

  /** Frames above a timestamp leave everything at or below it alone. */
  lemma {:induction false} InsertAllAbove(pending: Pending, frames: seq<EncodedFrame>, c: int)
    requires AllAbove(frames, c)
    ensures AtMost(InsertAll(pending, frames), c) == AtMost(pending, c)
    ensures Above(InsertAll(pending, frames), c) == InsertAll(Above(pending, c), frames)
  {
    if frames != [] {
      hide Insert, AtMost, Above;
      InsertAllAbove(pending, frames[..|frames| - 1], c);
      InsertAbove(InsertAll(pending, frames[..|frames| - 1]), frames[|frames| - 1], c);
    }
  }

  // ---------------------------------------------------------------------------------------------
  // The best frame of each timestamp
  // ---------------------------------------------------------------------------------------------

  /** The buffer that all these frames leave behind when none is released. */
  ghost function Best(frames: seq<EncodedFrame>): Pending {
    InsertAll(map[], frames)
  }

  lemma BestKeyed(frames: seq<EncodedFrame>)
    ensures Keyed(Best(frames))
  {
    hide InsertAll;
    InsertAllKeys(map[], frames);
  }

  /** Frame k beats every frame at its timestamp, strictly if they came before it. */
  ghost predicate Wins(frames: seq<EncodedFrame>, k: int) {
    && 0 <= k < |frames|
    && (forall j | 0 <= j < |frames| && frames[j].mediaTimestamp == frames[k].mediaTimestamp ::
          !Prefer(frames[j], frames[k]))
    && (forall j | 0 <= j < k && frames[j].mediaTimestamp == frames[k].mediaTimestamp ::
          Prefer(frames[k], frames[j]))
  }

  /** Best holds, at each timestamp that has a frame, the first of its most preferred frames. */
  lemma {:induction false} BestWins(frames: seq<EncodedFrame>, t: int)
    ensures t in Best(frames) <==> HasFrameAt(frames, t)
    ensures t in Best(frames) ==>
              exists k :: Wins(frames, k) && frames[k].mediaTimestamp == t && Best(frames)[t] == frames[k]
  {
    InsertAllKeys(map[], frames);
    if frames != [] && t in Best(frames) {
      hide HasFrameAt, Prefer, InsertAll;
      var front, last := frames[..|frames| - 1], frames[|frames| - 1];
      BestWins(front, t);
      BestStep(frames);
      if last.mediaTimestamp != t || (t in Best(front) && !Prefer(last, Best(front)[t])) {
        var k :| Wins(front, k) && front[k].mediaTimestamp == t && Best(front)[t] == front[k];
        StillWins(frames, k);
      } else {
        NewWinner(frames);
      }
    }
  }

  lemma BestStep(frames: seq<EncodedFrame>)
    requires frames != []
    ensures Best(frames) == Insert(Best(frames[..|frames| - 1]), frames[|frames| - 1])
  {
    hide Insert;
  }

  lemma StillWins(frames: seq<EncodedFrame>, k: int)
    requires frames != [] && Wins(frames[..|frames| - 1], k)
    requires frames[|frames| - 1].mediaTimestamp != frames[k].mediaTimestamp || !Prefer(frames[|frames| - 1], frames[k])
    ensures Wins(frames, k)
  {
    hide Prefer;
    var front := frames[..|frames| - 1];
    forall j | 0 <= j < |frames| && frames[j].mediaTimestamp == frames[k].mediaTimestamp
      ensures !Prefer(frames[j], frames[k])
    {
      if j < |front| {
        assert front[j] == frames[j];
      }
    }
    forall j | 0 <= j < k && frames[j].mediaTimestamp == frames[k].mediaTimestamp
      ensures Prefer(frames[k], frames[j])
    {
      assert front[j] == frames[j];
    }
  }

  lemma NewWinner(frames: seq<EncodedFrame>)
    requires frames != []
    requires var front, last := frames[..|frames| - 1], frames[|frames| - 1];
             (HasFrameAt(front, last.mediaTimestamp) ==>
                exists k :: Wins(front, k) && front[k].mediaTimestamp == last.mediaTimestamp && Prefer(last, front[k]))
    ensures Wins(frames, |frames| - 1)
  {
    hide Prefer;
    var front, last := frames[..|frames| - 1], frames[|frames| - 1];
    PreferOrder(last, last, last);
    forall j | 0 <= j < |front| && frames[j].mediaTimestamp == last.mediaTimestamp
      ensures Prefer(last, frames[j]) && !Prefer(frames[j], last)
    {
      assert front[j].mediaTimestamp == last.mediaTimestamp;
      var k :| Wins(front, k) && front[k].mediaTimestamp == last.mediaTimestamp && Prefer(last, front[k]);
      assert !Prefer(front[j], front[k]);
      PreferOrder(last, front[j], front[k]);
      PreferOrder(last, front[j], last);
    }
  }

  /** Frames at one timestamp are told apart by their capture position. */
  ghost predicate Distinguished(frames: seq<EncodedFrame>) {
    forall f, g | f in frames && g in frames && f.mediaTimestamp == g.mediaTimestamp && f != g ::
      Earlier(f.provenance, g.provenance) || Earlier(g.provenance, f.provenance)
  }

  /** With distinguished provenance, the best frames do not depend on the order of arrival. */
  lemma BestIgnoresOrder(a: seq<EncodedFrame>, b: seq<EncodedFrame>)
    requires Distinguished(a)
    requires forall f :: f in a <==> f in b
    ensures Best(a) == Best(b)
  {
    hide Best, Prefer, HasFrameAt;
    forall t ensures t in Best(a) <==> t in Best(b) {
      SameTimestamps(a, b, t);
      BestWins(a, t);
      BestWins(b, t);
    }
    forall t | t in Best(a) ensures Best(a)[t] == Best(b)[t] {
      BestWins(a, t);
      BestWins(b, t);
      var i :| Wins(a, i) && a[i].mediaTimestamp == t && Best(a)[t] == a[i];
      var j :| Wins(b, j) && b[j].mediaTimestamp == t && Best(b)[t] == b[j];
      WinnersAgree(a, b, i, j);
    }
    MapEq(Best(a), Best(b));
  }

  lemma SameTimestamps(a: seq<EncodedFrame>, b: seq<EncodedFrame>, t: int)
    requires forall f :: f in a <==> f in b
    ensures HasFrameAt(a, t) <==> HasFrameAt(b, t)
  {
    if HasFrameAt(a, t) {
      var i :| 0 <= i < |a| && a[i].mediaTimestamp == t;
      assert a[i] in b;
    }
    if HasFrameAt(b, t) {
      var i :| 0 <= i < |b| && b[i].mediaTimestamp == t;
      assert b[i] in a;
    }
  }

  lemma WinnersAgree(a: seq<EncodedFrame>, b: seq<EncodedFrame>, i: int, j: int)
    requires Distinguished(a) && forall f :: f in a <==> f in b
    requires Wins(a, i) && Wins(b, j) && a[i].mediaTimestamp == b[j].mediaTimestamp
    ensures a[i] == b[j]
  {
    var f, g := a[i], b[j];
    assert f in b && g in a;
    var i' :| 0 <= i' < |b| && b[i'] == f;
    var j' :| 0 <= j' < |a| && a[j'] == g;
    assert !Prefer(b[i'], g);
    assert !Prefer(a[j'], f);
  }

  // ---------------------------------------------------------------------------------------------
  // Releasing in order
  // ---------------------------------------------------------------------------------------------

  /** The frames at these timestamps, in this order. */
  ghost function FramesAt(pending: Pending, keys: seq<int>): (frames: seq<EncodedFrame>)
    requires forall i | 0 <= i < |keys| :: keys[i] in pending
    ensures |frames| == |keys| && forall i | 0 <= i < |keys| :: frames[i] == pending[keys[i]]
  {
    seq(|keys|, i requires 0 <= i < |keys| => pending[keys[i]])
  }

  lemma InOrderFrames(pending: Pending)
    ensures forall i | 0 <= i < |SortedKeys(pending.Keys)| :: SortedKeys(pending.Keys)[i] in pending
    ensures InOrder(pending) == FramesAt(pending, SortedKeys(pending.Keys))
  {
    hide SortedKeys;
    SortedKeysIn(pending);
  }

  lemma FramesAtConcat(pending: Pending, low: Pending, high: Pending, a: seq<int>, b: seq<int>)
    requires forall i | 0 <= i < |a| :: a[i] in low && a[i] in pending && low[a[i]] == pending[a[i]]
    requires forall i | 0 <= i < |b| :: b[i] in high && b[i] in pending && high[b[i]] == pending[b[i]]
    ensures forall i | 0 <= i < |a + b| :: (a + b)[i] in pending
    ensures FramesAt(pending, a + b) == FramesAt(low, a) + FramesAt(high, b)
  {
  }

  lemma SortedKeysIn(pending: Pending)
    ensures forall i | 0 <= i < |SortedKeys(pending.Keys)| :: SortedKeys(pending.Keys)[i] in pending
  {
    hide SortedKeys;
    forall i | 0 <= i < |SortedKeys(pending.Keys)| ensures SortedKeys(pending.Keys)[i] in pending {
      assert SortedKeys(pending.Keys)[i] in SortedKeys(pending.Keys);
    }
  }

  /** Releasing what is at or below a timestamp and then the rest is releasing everything. */
  lemma InOrderSplit(pending: Pending, c: int)
    ensures InOrder(pending) == InOrder(AtMost(pending, c)) + InOrder(Above(pending, c))
  {
    hide SortedKeys, InOrder;
    var low, high := AtMost(pending, c), Above(pending, c);
    SetEq(pending.Keys, low.Keys + high.Keys);
    SortedUnion(low.Keys, high.Keys);
    InOrderFrames(pending);
    InOrderFrames(low);
    InOrderFrames(high);
    SortedKeysIn(low);
    SortedKeysIn(high);
    FramesAtConcat(pending, low, high, SortedKeys(low.Keys), SortedKeys(high.Keys));
  }

  ghost predicate SortedByTime(frames: seq<EncodedFrame>) {
    forall i, j | 0 <= i < j < |frames| :: frames[i].mediaTimestamp < frames[j].mediaTimestamp
  }

  /** Frames in order are strictly increasing in time, and are exactly the buffered frames. */
  lemma InOrderSorted(pending: Pending)
    requires Keyed(pending)
    ensures SortedByTime(InOrder(pending))
    ensures forall f :: f in InOrder(pending) <==> f.mediaTimestamp in pending && pending[f.mediaTimestamp] == f
  {
    hide SortedKeys;
    var keys := SortedKeys(pending.Keys);
    InOrderFrames(pending);
    forall f ensures f in InOrder(pending) <==> f.mediaTimestamp in pending && pending[f.mediaTimestamp] == f {
      if f.mediaTimestamp in pending && pending[f.mediaTimestamp] == f {
        var i :| 0 <= i < |keys| && keys[i] == f.mediaTimestamp;
        assert InOrder(pending)[i] == f;
      }
    }
  }

  lemma InOrderNothing()
    ensures InOrder(map[]) == []
  {
    var none: Pending := map[];
    assert |InOrder(none)| == |none.Keys|;
  }

  /** What of a buffer a committed timestamp leaves, and what it has passed. */
  ghost function After(pending: Pending, committed: Option<int>): Pending {
    match committed
    case None => pending
    case Some(c) => Above(pending, c)
  }

  ghost function Through(pending: Pending, committed: Option<int>): Pending {
    match committed
    case None => map[]
    case Some(c) => AtMost(pending, c)
  }

  lemma EmptyRelease(pending: Pending, w: int)
    requires InOrder(AtMost(pending, w)) == []
    ensures Above(pending, w) == pending
    ensures forall t | t in pending :: t > w
  {
    var low := AtMost(pending, w);
    assert low.Keys == {};
    forall t | t in pending ensures t > w {
      assert t !in low.Keys;
    }
    MapEq(Above(pending, w), pending);
  }

  lemma LastReleased(pending: Pending, w: int)
    requires Keyed(pending) && InOrder(AtMost(pending, w)) != []
    ensures var r := InOrder(AtMost(pending, w));
            var k := r[|r| - 1].mediaTimestamp;
            k in pending && k <= w && forall t | t in pending && t <= w :: t <= k
  {
    hide InOrder, SortedKeys;
    var low := AtMost(pending, w);
    var r := InOrder(low);
    InOrderSorted(low);
    assert r[|r| - 1] in r;
    forall t | t in pending && t <= w ensures t <= r[|r| - 1].mediaTimestamp {
      assert low[t] in r;
      var i :| 0 <= i < |r| && r[i] == low[t];
    }
  }

  /** One release moves the committed timestamp to the last released frame and cuts the buffer there. */
  lemma ReleaseStep(all: Pending, committed: Option<int>, w: int)
    requires Keyed(all)
    ensures var pending := After(all, committed);
            var released := InOrder(AtMost(pending, w));
            var committed' := CommittedAfter(committed, released);
            && Above(pending, w) == After(all, committed')
            && InOrder(Through(all, committed)) + released == InOrder(Through(all, committed'))
  {
    hide InOrder, AtMost, Above;
    var pending := After(all, committed);
    var released := InOrder(AtMost(pending, w));
    if released == [] {
      EmptyRelease(pending, w);
      assert InOrder(Through(all, committed)) + [] == InOrder(Through(all, committed));
    } else {
      AfterKeyed(all, committed);
      LastReleased(pending, w);
      ReleaseCut(all, committed, w, released[|released| - 1].mediaTimestamp);
      ReleaseJoin(all, committed, w, released[|released| - 1].mediaTimestamp);
    }
  }

  lemma AfterKeyed(all: Pending, committed: Option<int>)
    requires Keyed(all)
    ensures Keyed(After(all, committed))
    ensures forall t | t in After(all, committed) :: committed.None? || t > committed.value
  {
  }

  ghost predicate CutAt(all: Pending, committed: Option<int>, w: int, k: int) {
    var pending := After(all, committed);
    k in pending && k <= w && forall t | t in pending && t <= w :: t <= k
  }

  lemma ReleaseCut(all: Pending, committed: Option<int>, w: int, k: int)
    requires CutAt(all, committed, w, k)
    ensures Above(After(all, committed), w) == After(all, Some(k))
  {
    var left, right := Above(After(all, committed), w), After(all, Some(k));
    forall t ensures t in left <==> t in right {
      assert t in right ==> t in After(all, committed);
    }
    MapEq(left, right);
  }

  lemma ReleaseJoin(all: Pending, committed: Option<int>, w: int, k: int)
    requires CutAt(all, committed, w, k)
    ensures InOrder(Through(all, committed)) + InOrder(AtMost(After(all, committed), w))
            == InOrder(Through(all, Some(k)))
  {
    hide InOrder;
    var joined := Through(all, Some(k));
    var part := AtMost(After(all, committed), w);
    if committed.None? {
      MapEq(part, joined);
      InOrderNothing();
      assert [] + InOrder(part) == InOrder(part);
    } else {
      InOrderSplit(joined, committed.value);
      MapEq(AtMost(joined, committed.value), Through(all, committed));
      forall t ensures t in Above(joined, committed.value) <==> t in part {
        if t in all && t > committed.value && t <= w {
          assert t in After(all, committed);
        }
      }
      MapEq(Above(joined, committed.value), part);
    }
  }
}
