/** Several timelines side by side, none seeing another's records (TimelineRouter in timeline.py). */
module TimelineRouters {
  import opened Models
  import opened Timeline
  import opened Emitting
  import opened TimelineNormalizers

  /** A frame tagged with its flow. */
  datatype Routed = Routed(flow: FlowKey, frame: EncodedFrame)

  function Tagged(key: FlowKey, frames: seq<EncodedFrame>): (routed: seq<Routed>)
    ensures |routed| == |frames|
  {
    seq(|frames|, i requires 0 <= i < |frames| => Routed(key, frames[i]))
  }

  /** One flow's part of the routed output. */
  function Only(routed: seq<Routed>, key: FlowKey): seq<EncodedFrame> {
    if routed == [] then []
    else
      var last := routed[|routed| - 1];
      Only(routed[..|routed| - 1], key) + (if last.flow == key then [last.frame] else [])
  }

  lemma {:induction false} OnlyTagged(routed: seq<Routed>, from: FlowKey, frames: seq<EncodedFrame>, key: FlowKey)
    ensures Only(routed + Tagged(from, frames), key) == Only(routed, key) + (if from == key then frames else [])
  {
    if frames == [] {
      assert routed + Tagged(from, frames) == routed;
    } else {
      var front, last := frames[..|frames| - 1], frames[|frames| - 1];
      OnlyTagged(routed, from, front, key);
      var all := routed + Tagged(from, frames);
      assert all[..|all| - 1] == routed + Tagged(from, front);
      assert frames == front + [last];
    }
  }

  /** The records a flow's normalizer gets to see. */
  function FlowRecords(records: seq<RtpRecord>, key: FlowKey): seq<RtpRecord> {
    if records == [] then []
    else
      var last := records[|records| - 1];
      FlowRecords(records[..|records| - 1], key) + (if last.flowKey == key then [last] else [])
  }

  lemma FlowRecordsStep(records: seq<RtpRecord>, record: RtpRecord, key: FlowKey)
    ensures FlowRecords(records + [record], key)
            == if record.flowKey == key then FlowRecords(records, key) + [record] else FlowRecords(records, key)
  {
    assert (records + [record])[..|records|] == records;
  }

  ghost predicate DistinctFlows(flows: seq<FlowKey>) {
    forall i, j | 0 <= i < j < |flows| :: flows[i] != flows[j]
  }

  /** A timeline that has seen nothing. */
  ghost predicate New(n: TimelineNormalizer, key: FlowKey)
    reads n
  {
    n.Valid() && n.cfg.flow == key && n.log == []
  }

  class TimelineRouter {
    /** The normalizers of a dictionary, with its insertion order. */
    const flows: seq<FlowKey>
    const normalizers: map<FlowKey, TimelineNormalizer>

    /** Every record that was not refused. */
    ghost var log: seq<RtpRecord>

    ghost function Objects(): set<object> {
      set k | k in normalizers :: normalizers[k]
    }

    /** Each normalizer has seen exactly its own flow's records. */
    ghost predicate Valid()
      reads this, Objects()
    {
      && DistinctFlows(flows) && (forall k :: k in flows <==> k in normalizers)
      && (forall j, k | j in normalizers && k in normalizers && j != k :: normalizers[j] != normalizers[k])
      && forall k | k in normalizers ::
           normalizers[k].Valid() && normalizers[k].cfg.flow == k && normalizers[k].log == FlowRecords(log, k)
    }

    constructor (flows: seq<FlowKey>, normalizers: map<FlowKey, TimelineNormalizer>)
      requires DistinctFlows(flows) && forall k :: k in flows <==> k in normalizers
      requires forall j, k | j in normalizers && k in normalizers && j != k :: normalizers[j] != normalizers[k]
      requires forall k | k in normalizers :: New(normalizers[k], k)
      ensures Valid() && this.flows == flows && this.normalizers == normalizers && log == []
    {
      this.flows, this.normalizers, log := flows, normalizers, [];
    }

    /** Some iterator handed out has not been read to its end. */
    ghost predicate AnyPending()
      reads this, Objects()
    {
      exists k :: k in normalizers && normalizers[k].outputPending
    }

    /** push: the record goes to its own flow's normalizer, or nowhere. */
    method Push(record: RtpRecord) returns (exit: Exit)
      requires Valid()
      modifies `log, Objects()
      ensures Valid()
      ensures record.flowKey !in normalizers ==> exit == Returned
      ensures log == if exit.Refused? then old(log) else old(log) + [record]
      ensures record.flowKey in normalizers ==>
                var n := normalizers[record.flowKey];
                && (exit.Refused? <==> old(n.finished) || old(n.outputPending))
                && (exit.Refused? ==>
                      exit == Refused(if old(n.finished) then AlreadyFinished else OutputUnread) && unchanged(n))
                && (!exit.Refused? ==>
                      var p := PushRecord(n.cfg, old(n.Now()), record);
                      && n.Now() == p.state && n.output == p.emitted && n.drained == old(n.drained)
                      && exit == if p.outcome.Malformed? then Raised(p.outcome.reason) else Returned)
      ensures forall k | k in normalizers && k != record.flowKey :: unchanged(normalizers[k])
    {
      hide TimelineNormalizer.Valid, FlowRecords, PushRecord;
      var key := record.flowKey;
      forall k | k in normalizers
        ensures FlowRecords(log + [record], k)
                == if key == k then FlowRecords(log, k) + [record] else FlowRecords(log, k)
      {
        FlowRecordsStep(log, record, k);
      }
      exit := Returned;
      if key in normalizers {
        exit := normalizers[key].Push(record);
      }
      if !exit.Refused? {
        log := log + [record];
      }
    }

    /** Whether finish is refused. */
    method Unread() returns (pending: bool)
      requires Valid()
      ensures pending == AnyPending()
    {
      hide TimelineNormalizer.Valid, FlowRecords;
      for i := 0 to |flows|
        invariant forall j | 0 <= j < i :: !normalizers[flows[j]].outputPending
      {
        if normalizers[flows[i]].outputPending {
          return true;
        }
      }
      return false;
    }

    /** The timelines finished one after the other, each read to its end. */
    method SettleAll() returns (routed: seq<Routed>)
      requires Valid() && !AnyPending()
      modifies Objects()
      ensures forall k | k in normalizers ::
                SettledFrom(normalizers[k], old(normalizers[k].log), old(normalizers[k].drained), Only(routed, k))
    {
      hide TimelineNormalizer.Valid, FlowRecords, Only, SettledFrom, Waiting;
      routed := [];
      NothingRouted();
      forall k | k in normalizers
        ensures Waiting(normalizers[k], old(normalizers[k].log), old(normalizers[k].drained), [])
      {
        IsWaiting(normalizers[k]);
      }
      for i := 0 to |flows|
        invariant forall j | 0 <= j < i ::
                    var n := normalizers[flows[j]];
                    SettledFrom(n, old(n.log), old(n.drained), Only(routed, flows[j]))
        invariant forall j | i <= j < |flows| ::
                    var n := normalizers[flows[j]];
                    Waiting(n, old(n.log), old(n.drained), Only(routed, flows[j]))
      {
        var key := flows[i];
        var frames := Settle(normalizers[key], old(normalizers[key].log), old(normalizers[key].drained),
                             Only(routed, key));
        OnlyAfter(routed, key, frames);
        routed := routed + Tagged(key, frames);
      }
      forall k | k in normalizers
        ensures SettledFrom(normalizers[k], old(normalizers[k].log), old(normalizers[k].drained), Only(routed, k))
      {
        var j :| 0 <= j < |flows| && flows[j] == k;
      }
    }

    /** finish, with the iterator read to its end: refused while output is pending, else every timeline in turn. */
    method Finish() returns (routed: seq<Routed>, refused: bool)
      requires Valid()
      modifies Objects()
      ensures Valid() && refused == old(AnyPending())
      ensures refused ==> routed == [] && forall k | k in normalizers :: unchanged(normalizers[k])
      ensures !refused ==>
                forall k | k in normalizers ::
                  && normalizers[k].finished && normalizers[k].output == []
                  && normalizers[k].drained == Complete(normalizers[k].cfg, FlowRecords(log, k)).emitted
                  && FramesIn(normalizers[k].drained) == FramesIn(old(normalizers[k].drained)) + Only(routed, k)
    {
      hide TimelineNormalizer.Valid, FlowRecords, Complete, Only;
      routed := [];
      refused := Unread();
      if !refused {
        routed := SettleAll();
      }
    }
  }

  /** A timeline that is finished and read to its end, these frames after what it had yielded before. */
  ghost predicate SettledFrom(
    n: TimelineNormalizer, log: seq<RtpRecord>, before: seq<Emission>, frames: seq<EncodedFrame>)
    reads n
  {
    && n.Valid() && n.finished && n.output == [] && n.log == log
    && n.drained == Complete(n.cfg, n.log).emitted
    && FramesIn(n.drained) == FramesIn(before) + frames
  }

  /** A timeline that can be finished and has yielded nothing since. */
  ghost predicate Waiting(n: TimelineNormalizer, log: seq<RtpRecord>, before: seq<Emission>, frames: seq<EncodedFrame>)
    reads n
  {
    n.Valid() && !n.outputPending && n.log == log && n.drained == before && frames == []
  }

  lemma IsWaiting(n: TimelineNormalizer)
    requires n.Valid() && !n.outputPending
    ensures Waiting(n, n.log, n.drained, [])
  {
    hide TimelineNormalizer.Valid;
  }

  lemma NothingRouted()
    ensures forall k :: Only([], k) == []
  {
  }

  lemma OnlyAfter(routed: seq<Routed>, key: FlowKey, frames: seq<EncodedFrame>)
    ensures forall k ::
              Only(routed + Tagged(key, frames), k)
              == if key == k then Only(routed, k) + frames else Only(routed, k)
  {
    hide Only, Tagged;
    forall k
      ensures Only(routed + Tagged(key, frames), k) == if key == k then Only(routed, k) + frames else Only(routed, k)
    {
      OnlyTagged(routed, key, frames, k);
    }
  }

  lemma PendingOutput(n: TimelineNormalizer)
    requires n.Valid() && !n.outputPending
    ensures n.output == []
  {
    hide Complete, Run;
  }

  /** One timeline finished and read to its end. */
  method Settle(
    n: TimelineNormalizer, ghost log: seq<RtpRecord>, ghost before: seq<Emission>, ghost earlier: seq<EncodedFrame>)
    returns (frames: seq<EncodedFrame>)
    requires Waiting(n, log, before, earlier)
    modifies n
    ensures SettledFrom(n, log, before, earlier + frames) && n.counters.malformed == old(n.counters.malformed)
  {
    hide TimelineNormalizer.Valid, Complete, Run, InOrder, Emissions, Gaps, FramesIn, FinishState, FinishReleased;
    PendingOutput(n);
    FinishKeepsMalformed(n.cfg, n.Now());
    var _ := n.Finish();
    ghost var output := n.output;
    frames := n.Drain();
    FramesInConcat(before, output);
    AllDrained(n);
    assert earlier + frames == frames;
  }

  lemma FramesInConcat(a: seq<Emission>, b: seq<Emission>)
    ensures FramesIn(a + b) == FramesIn(a) + FramesIn(b)
  {
  }

  lemma FinishKeepsMalformed(cfg: Config, s: State)
    ensures FinishState(cfg, s).counters.malformed == s.counters.malformed && FinishState(cfg, s).finished
  {
    hide InOrder, Gaps;
  }

  lemma AllDrained(n: TimelineNormalizer)
    requires n.Valid() && n.finished && n.output == []
    ensures n.drained == Complete(n.cfg, n.log).emitted
  {
    hide Complete, Run;
    assert n.drained + [] == n.drained;
  }

  function FlowsOf(cfgs: seq<Config>): (flows: seq<FlowKey>)
    ensures |flows| == |cfgs|
  {
    seq(|cfgs|, i requires 0 <= i < |cfgs| => cfgs[i].flow)
  }

  /** TimelineRouter.__init__: one normalizer for each selection, or an error when a flow is selected twice. */
  method NewRouter(cfgs: seq<Config>) returns (router: Option<TimelineRouter>)
    ensures router.Some? <==> DistinctFlows(FlowsOf(cfgs))
    ensures router.Some? ==>
              && fresh(router.value) && fresh(router.value.Objects()) && router.value.Valid()
              && router.value.log == [] && router.value.flows == FlowsOf(cfgs)
              && forall i | 0 <= i < |cfgs| ::
                   cfgs[i].flow in router.value.normalizers && router.value.normalizers[cfgs[i].flow].cfg == cfgs[i]
  {
    hide TimelineNormalizer.Valid, New, DistinctFlows;
    NoFlows();
    var flows: seq<FlowKey>, normalizers: map<FlowKey, TimelineNormalizer> := [], map[];
    for i := 0 to |cfgs|
      invariant flows == FlowsOf(cfgs)[..i] && DistinctFlows(flows)
      invariant forall k :: k in flows <==> k in normalizers
      invariant forall j, k | j in normalizers && k in normalizers && j != k :: normalizers[j] != normalizers[k]
      invariant forall k | k in normalizers :: fresh(normalizers[k]) && New(normalizers[k], k)
      invariant forall j | 0 <= j < i :: cfgs[j].flow in normalizers && normalizers[cfgs[j].flow].cfg == cfgs[j]
    {
      var key := cfgs[i].flow;
      if key in flows {
        SelectedTwice(FlowsOf(cfgs), i);
        return None;
      }
      var n := new TimelineNormalizer(cfgs[i]);
      IsNew(n);
      DistinctAppend(flows, key);
      flows, normalizers := flows + [key], normalizers[key := n];
    }
    assert flows == FlowsOf(cfgs);
    var router' := new TimelineRouter(flows, normalizers);
    return Some(router');
  }

  lemma NoFlows()
    ensures DistinctFlows([])
  {
  }

  lemma DistinctAppend(flows: seq<FlowKey>, key: FlowKey)
    requires DistinctFlows(flows) && key !in flows
    ensures DistinctFlows(flows + [key])
  {
  }

  lemma IsNew(n: TimelineNormalizer)
    requires n.Valid() && n.log == []
    ensures New(n, n.cfg.flow)
  {
    hide TimelineNormalizer.Valid;
  }

  lemma SelectedTwice(flows: seq<FlowKey>, i: nat)
    requires i < |flows| && flows[i] in flows[..i]
    ensures !DistinctFlows(flows)
  {
    var j :| 0 <= j < i && flows[..i][j] == flows[i];
    assert flows[j] == flows[i];
  }
}
