/** What heartbeats and detection rounds make of each node over whole runs (src/cluster/split_brain_detector.cpp). */
module DetectorRuns {
  import opened Collections
  import opened Partitions
  import opened Quorum

  predicate Overdue(config: Config, last: int, now: int)
  {
    now - last > config.heartbeatTimeout
  }

  /** One round, field by field. */
  lemma RoundOnNode(config: Config, d: Detector, now: int, id: NodeId)
    requires id in d.nodes
    ensures Round(config, d, now).nodes.Keys == d.nodes.Keys
    ensures var r := Round(config, d, now);
      var s, t := d.nodes[id], r.nodes[id];
      var late := !s.isIsolated && now - s.lastHeartbeat > config.heartbeatTimeout;
      && t.lastHeartbeat == s.lastHeartbeat
      && t.missedHeartbeats == s.missedHeartbeats + (if late then 1 else 0)
      && (t.isAlive <==> s.isAlive && !(late && t.missedHeartbeats >= config.maxMissedHeartbeats))
      && (t.isIsolated <==>
        s.isIsolated
        || (!t.isAlive && r.recorded && config.strategy.Majority? && 2 * |ActiveSet(r.nodes)| > |r.nodes|))
      && (id in r.isolatedNodes <==>
        || id in d.isolatedNodes
        || ((s.isIsolated || !t.isAlive) && r.recorded && config.strategy.Majority?
            && 2 * |ActiveSet(r.nodes)| > |r.nodes|))
  {
    hide Splits;
    var swept := SweptNodes(config, d.nodes, now);
    IsolationKeepsQuorum(config, swept);
    assert |swept| == |swept.Keys| && |d.nodes| == |d.nodes.Keys| && swept.Keys == d.nodes.Keys;
    var after := Round(config, d, now).nodes;
    assert after.Keys == swept.Keys && |after| == |after.Keys|;
    IsolatedNone(swept);
  }

  // ---------------------------------------------------------------------------
  // Runs from an empty detector.

  datatype DetectorEvent = AddEvent(id: NodeId) | HeartbeatEvent(id: NodeId, at: int) | RoundEvent(now: int)

  ghost function Step(config: Config, d: Detector, e: DetectorEvent): Detector
  {
    match e
    case AddEvent(id) => Added(d, id)
    case HeartbeatEvent(id, at) => Heard(d, id, at)
    case RoundEvent(now) => Round(config, d, now)
  }

  const NO_NODES: Detector := Detector(map[], {}, false, Healthy)

  ghost function Run(config: Config, events: seq<DetectorEvent>): Detector
  {
    if events == [] then NO_NODES else Step(config, Run(config, events[..|events| - 1]), events[|events| - 1])
  }

  /** A heartbeat of the node has arrived since it was last added. */
  predicate WasHeard(events: seq<DetectorEvent>, id: NodeId)
  {
    events != [] &&
    var before, e := events[..|events| - 1], events[|events| - 1];
    e != AddEvent(id) && ((e.HeartbeatEvent? && e.id == id && IsAdded(before, id)) || WasHeard(before, id))
  }

  predicate IsAdded(events: seq<DetectorEvent>, id: NodeId)
  {
    AddEvent(id) in events
  }

  /** The time of the last heartbeat since the node was added, 0 without one. */
  function LastHeard(events: seq<DetectorEvent>, id: NodeId): int
  {
    if events == [] then 0 else
      var before, e := events[..|events| - 1], events[|events| - 1];
      if e == AddEvent(id) then 0
      else if e.HeartbeatEvent? && e.id == id && IsAdded(before, id) then e.at
      else LastHeard(before, id)
  }

  /** The rounds since then that found the node overdue. */
  function Misses(config: Config, events: seq<DetectorEvent>, id: NodeId): nat
  {
    if events == [] then 0 else
      var before, e := events[..|events| - 1], events[|events| - 1];
      if e == AddEvent(id) || (e.HeartbeatEvent? && e.id == id && IsAdded(before, id)) then 0
      else if e.RoundEvent? && IsAdded(before, id) && Overdue(config, LastHeard(before, id), e.now) then
        Misses(config, before, id) + 1
      else
        Misses(config, before, id)
  }

  /**
   * In every run the detector watches the nodes that were added, and one that is not isolated counts as alive exactly
   * when a heartbeat has arrived and fewer rounds than the limit, or none, have found it overdue since the last one.
   */
  lemma {:induction false} AliveIff(config: Config, events: seq<DetectorEvent>, id: NodeId)
    ensures id in Run(config, events).nodes <==> AddEvent(id) in events
    ensures var d := Run(config, events);
      id in d.nodes && !d.nodes[id].isIsolated ==>
        && d.nodes[id].lastHeartbeat == LastHeard(events, id)
        && d.nodes[id].missedHeartbeats == Misses(config, events, id)
        && (d.nodes[id].isAlive <==>
          WasHeard(events, id)
          && (Misses(config, events, id) == 0 || Misses(config, events, id) < config.maxMissedHeartbeats))
    decreases events
  {
    hide Round;
    if events != [] {
      var before, e := events[..|events| - 1], events[|events| - 1];
      AliveIff(config, before, id);
      assert events == before + [e];
      if e.RoundEvent? {
        RoundKeys(config, Run(config, before), e.now);
        if id in Run(config, before).nodes { RoundOnNode(config, Run(config, before), e.now, id); }
      }
    }
  }

  lemma RoundKeys(config: Config, d: Detector, now: int)
    ensures Round(config, d, now).nodes.Keys == d.nodes.Keys
  {
    hide Splits, HasQuorum;
  }

  // ---------------------------------------------------------------------------
  // Rounds without a heartbeat.

  ghost function Rounds(config: Config, d: Detector, times: seq<int>): Detector
  {
    if times == [] then d else Round(config, Rounds(config, d, times[..|times| - 1]), times[|times| - 1])
  }

  function OverdueRounds(config: Config, last: int, times: seq<int>): nat
  {
    if times == [] then 0 else
      OverdueRounds(config, last, times[..|times| - 1]) + if Overdue(config, last, times[|times| - 1]) then 1 else 0
  }

  /** Active before the rounds, and found overdue by too few of them, if by any, to be given up. */
  predicate StaysActive(config: Config, s: NodeStatus, times: seq<int>)
  {
    var late := OverdueRounds(config, s.lastHeartbeat, times);
    s.isAlive && !s.isIsolated && (late == 0 || s.missedHeartbeats + late < config.maxMissedHeartbeats)
  }

  ghost function StillActive(config: Config, nodes: Nodes, times: seq<int>): set<NodeId>
  {
    set id | id in nodes && StaysActive(config, nodes[id], times)
  }

  /** Rounds leave active exactly those nodes, and only count on their records. */
  lemma {:induction false} ActiveAfterRounds(config: Config, d: Detector, times: seq<int>)
    ensures Rounds(config, d, times).nodes.Keys == d.nodes.Keys
    ensures ActiveSet(Rounds(config, d, times).nodes) == StillActive(config, d.nodes, times)
    ensures forall id :: id in StillActive(config, d.nodes, times) ==>
      Rounds(config, d, times).nodes[id] == d.nodes[id].(
        missedHeartbeats := d.nodes[id].missedHeartbeats + OverdueRounds(config, d.nodes[id].lastHeartbeat, times))
    decreases times
  {
    hide Round;
    if times != [] {
      var before, now := times[..|times| - 1], times[|times| - 1];
      ActiveAfterRounds(config, d, before);
      var m := Rounds(config, d, before);
      RoundKeys(config, m, now);
      forall id | id in d.nodes
        ensures id in ActiveSet(Rounds(config, d, times).nodes) <==> StaysActive(config, d.nodes[id], times)
        ensures StaysActive(config, d.nodes[id], times) ==>
          Rounds(config, d, times).nodes[id] == d.nodes[id].(
            missedHeartbeats := d.nodes[id].missedHeartbeats + OverdueRounds(config, d.nodes[id].lastHeartbeat, times))
      {
        RoundOnNode(config, m, now, id);
        assert id in ActiveSet(m.nodes) <==> StaysActive(config, d.nodes[id], before);
      }
    }
  }

  /** A live node that every round finds heard from in time is left as it is. */
  lemma HeardIsUnchanged(config: Config, d: Detector, times: seq<int>, id: NodeId)
    requires id in d.nodes && d.nodes[id].isAlive && !d.nodes[id].isIsolated
    requires forall i :: 0 <= i < |times| ==> times[i] - d.nodes[id].lastHeartbeat <= config.heartbeatTimeout
    ensures id in Rounds(config, d, times).nodes && Rounds(config, d, times).nodes[id] == d.nodes[id]
  {
    NeverOverdue(config, d.nodes[id].lastHeartbeat, times);
    ActiveAfterRounds(config, d, times);
  }

  lemma {:induction false} NeverOverdue(config: Config, last: int, times: seq<int>)
    requires forall i :: 0 <= i < |times| ==> !Overdue(config, last, times[i])
    ensures OverdueRounds(config, last, times) == 0
    decreases times
  {
    if times != [] { NeverOverdue(config, last, times[..|times| - 1]); }
  }

  lemma QuorumShrinks(config: Config, a: Nodes, b: Nodes)
    requires a.Keys == b.Keys && ActiveSet(b) <= ActiveSet(a) && HasQuorum(config, b)
    ensures HasQuorum(config, a)
  {
    assert |a| == |a.Keys| && |b| == |b.Keys|;
    SubsetSize(ActiveSet(b), ActiveSet(a));
  }

  /**
   * With a partition on record, rounds without a heartbeat confirm the split exactly when the nodes that stay active
   * through them do not make the quorum of the strategy.
   */
  lemma {:induction false} ConfirmedIff(config: Config, d: Detector, times: seq<int>)
    requires d.recorded && times != []
    ensures Rounds(config, d, times).recorded
    ensures Rounds(config, d, times).status == Confirmed <==>
      d.status == Confirmed || !HasQuorum(config, Rounds(config, d, times).nodes)
    decreases times
  {
    hide Round, HasQuorum;
    var before, now := times[..|times| - 1], times[|times| - 1];
    var m := Rounds(config, d, before);
    if before == [] {
      assert m == d;
    } else {
      ConfirmedIff(config, d, before);
    }
    RoundConfirms(config, m, now);
    ActiveAfterRounds(config, m, [now]);
    assert [now][..0] == [] && Rounds(config, m, [now]) == Round(config, m, now);
    assert StillActive(config, m.nodes, [now]) <= ActiveSet(m.nodes);
    if HasQuorum(config, Rounds(config, d, times).nodes) {
      QuorumShrinks(config, m.nodes, Rounds(config, d, times).nodes);
    }
  }

  lemma RoundConfirms(config: Config, d: Detector, now: int)
    requires d.recorded
    ensures var r := Round(config, d, now);
      r.recorded && (r.status == Confirmed <==> d.status == Confirmed || !HasQuorum(config, r.nodes))
  {
    hide HasQuorum, Splits, Isolated;
    IsolationKeepsQuorum(config, SweptNodes(config, d.nodes, now));
  }

  /** Under MAJORITY the split is confirmed exactly when at most half of the nodes stay active. */
  lemma MajorityConfirmsIff(config: Config, d: Detector, times: seq<int>)
    requires config.strategy.Majority? && d.recorded && times != []
    ensures Rounds(config, d, times).status == Confirmed <==>
      d.status == Confirmed || 2 * |StillActive(config, d.nodes, times)| <= |d.nodes|
  {
    ConfirmedIff(config, d, times);
    ActiveAfterRounds(config, d, times);
    var nodes := Rounds(config, d, times).nodes;
    assert |nodes| == |nodes.Keys| && |d.nodes| == |d.nodes.Keys|;
  }

  /** A side that half of the nodes have been silent to for the limit of rounds confirms the split. */
  lemma SilentHalfConfirms(config: Config, d: Detector, times: seq<int>, silent: set<NodeId>)
    requires config.strategy.Majority? && d.recorded && times != []
    requires silent <= d.nodes.Keys && 2 * |silent| >= |d.nodes|
    requires forall id :: id in silent ==>
      OverdueRounds(config, d.nodes[id].lastHeartbeat, times) >= Max(1, config.maxMissedHeartbeats)
    ensures Rounds(config, d, times).status == Confirmed
  {
    MajorityConfirmsIff(config, d, times);
    DisjointSize(silent, StillActive(config, d.nodes, times), d.nodes.Keys);
    assert |d.nodes| == |d.nodes.Keys|;
  }
}
