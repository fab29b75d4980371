/** What a flow selector lets through (models.py). */
module Selectors {
  import opened Models
  import opened Discovery

  const ANY_FLOW := FlowSelector(None, None, None, None, None, None)

  /** A selector with nothing given lets every flow through. */
  lemma EmptyMatchesAll(key: FlowKey)
    ensures ANY_FLOW.MatchesFlow(key)
  {
  }

  /** Giving the source address keeps exactly the flows that have it. */
  lemma SourceAddressFilters(s: FlowSelector, key: FlowKey, v: string)
    ensures s.(srcAddress := Some(v)).MatchesFlow(key)
            <==> s.(srcAddress := None).MatchesFlow(key) && key.srcAddress == v
  {
  }

  lemma DestinationAddressFilters(s: FlowSelector, key: FlowKey, v: string)
    ensures s.(dstAddress := Some(v)).MatchesFlow(key)
            <==> s.(dstAddress := None).MatchesFlow(key) && key.dstAddress == v
  {
  }

  lemma SourcePortFilters(s: FlowSelector, key: FlowKey, v: int)
    ensures s.(srcPort := Some(v)).MatchesFlow(key) <==> s.(srcPort := None).MatchesFlow(key) && key.srcPort == v
  {
  }

  lemma DestinationPortFilters(s: FlowSelector, key: FlowKey, v: int)
    ensures s.(dstPort := Some(v)).MatchesFlow(key) <==> s.(dstPort := None).MatchesFlow(key) && key.dstPort == v
  {
  }

  lemma SsrcFilters(s: FlowSelector, key: FlowKey, v: int)
    ensures s.(ssrc := Some(v)).MatchesFlow(key) <==> s.(ssrc := None).MatchesFlow(key) && key.ssrc == v
  {
  }

  lemma PayloadTypeFilters(s: FlowSelector, key: FlowKey, v: int)
    ensures s.(payloadType := Some(v)).MatchesFlow(key)
            <==> s.(payloadType := None).MatchesFlow(key) && key.payloadType == v
  {
  }

  /** The flow with every given field as given, the others taken from another flow. */
  function Narrowed(s: FlowSelector, key: FlowKey): FlowKey {
    FlowKey(
      if s.srcAddress.Some? then s.srcAddress.value else key.srcAddress,
      if s.dstAddress.Some? then s.dstAddress.value else key.dstAddress,
      if s.srcPort.Some? then s.srcPort.value else key.srcPort,
      if s.dstPort.Some? then s.dstPort.value else key.dstPort,
      if s.ssrc.Some? then s.ssrc.value else key.ssrc,
      if s.payloadType.Some? then s.payloadType.value else key.payloadType)
  }

  /**
   * A given field filters and an absent one is a wildcard: the flows let through are exactly those that keep their
   * fields when the given ones are put in, and every flow becomes one of them that way.
   */
  lemma MatchesIff(s: FlowSelector, key: FlowKey)
    ensures s.MatchesFlow(key) <==> Narrowed(s, key) == key
    ensures s.MatchesFlow(Narrowed(s, key))
  {
  }

  /** A selector is complete exactly when it lets one flow through and no other. */
  lemma CompleteIff(s: FlowSelector)
    ensures s.IsComplete() <==> forall j, k | s.MatchesFlow(j) && s.MatchesFlow(k) :: j == k
  {
    var key := FlowKey("", "", 0, 0, 0, 0);
    var other := FlowKey("x", "x", 1, 1, 1, 1);
    MatchesIff(s, key);
    MatchesIff(s, other);
    if !s.IsComplete() {
      assert Narrowed(s, key) != Narrowed(s, other);
    }
  }

  /** Some flow that is let through would not be with another source or destination port. */
  ghost predicate MindsPorts(s: FlowSelector) {
    exists key: FlowKey, p: int ::
      s.MatchesFlow(key) && (!s.MatchesFlow(key.(srcPort := p)) || !s.MatchesFlow(key.(dstPort := p)))
  }

  /** A port filter minds a port and leaves something open. */
  lemma PortFilterIff(s: FlowSelector)
    ensures s.IsPortFilter()
            <==> MindsPorts(s) && exists j, k :: s.MatchesFlow(j) && s.MatchesFlow(k) && j != k
  {
    CompleteIff(s);
    var key := Narrowed(s, FlowKey("", "", 0, 0, 0, 0));
    MatchesIff(s, FlowKey("", "", 0, 0, 0, 0));
    if s.srcPort.Some? {
      SourcePortFilters(s, key.(srcPort := s.srcPort.value + 1), s.srcPort.value);
      assert s == s.(srcPort := Some(s.srcPort.value));
      assert !s.MatchesFlow(key.(srcPort := s.srcPort.value + 1));
    }
    if s.dstPort.Some? {
      DestinationPortFilters(s, key.(dstPort := s.dstPort.value + 1), s.dstPort.value);
      assert s == s.(dstPort := Some(s.dstPort.value));
      assert !s.MatchesFlow(key.(dstPort := s.dstPort.value + 1));
    }
  }
}
