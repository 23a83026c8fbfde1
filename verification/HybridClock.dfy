/** Hybrid logical clocks and timestamp ordering (src/time/time_sync.cpp, include/cache/time/time_sync.h). */
module HybridClock {
  import opened Bytes

  /** Ticks of the system clock, in nanoseconds. */
  type Instant = int

  datatype HybridLogicalClock = HybridLogicalClock(physicalTime: Instant, logicalTime: u64)

  predicate Less(a: HybridLogicalClock, b: HybridLogicalClock)
  {
    if a.physicalTime != b.physicalTime then a.physicalTime < b.physicalTime else a.logicalTime < b.logicalTime
  }

  predicate LessOrEqual(a: HybridLogicalClock, b: HybridLogicalClock)
  {
    Less(a, b) || a == b
  }

  const MAX_LOGICAL: u64 := TWO_64 - 1

  /** An unsigned counter: after the largest value comes 0. */
  function Bump(n: u64): u64
  {
    (n + 1) % TWO_64
  }

  function Larger(a: u64, b: u64): u64
  {
    if a < b then b else a
  }

  const NANOS_PER_MILLI: nat := 1_000_000

  /** Whole milliseconds between the two instants exceed the tolerated drift. */
  predicate Drifted(now: Instant, received: HybridLogicalClock, maxDrift: nat)
  {
    now < received.physicalTime && (received.physicalTime - now) / NANOS_PER_MILLI > maxDrift
  }

  function Increment(clock: HybridLogicalClock, now: Instant): HybridLogicalClock
  {
    if now > clock.physicalTime then HybridLogicalClock(now, 0)
    else HybridLogicalClock(clock.physicalTime, Bump(clock.logicalTime))
  }

  function Update(clock: HybridLogicalClock, now: Instant, received: HybridLogicalClock, maxDrift: nat)
    : HybridLogicalClock
  {
    if now >= received.physicalTime then
      HybridLogicalClock(now, Bump(Larger(clock.logicalTime, received.logicalTime)))
    else
      HybridLogicalClock(
        if Drifted(now, received, maxDrift) then now else received.physicalTime, Bump(received.logicalTime))
  }

  /** Unless the counter wraps, the next timestamp is the least one after the clock that is not before the reading. */
  lemma IncrementIsLeast(clock: HybridLogicalClock, now: Instant)
    ensures var next := Increment(clock, now);
      if now <= clock.physicalTime && clock.logicalTime == MAX_LOGICAL then
        next == HybridLogicalClock(clock.physicalTime, 0)
      else
        && Less(clock, next) && next.physicalTime >= now
        && forall t :: Less(clock, t) && t.physicalTime >= now ==> LessOrEqual(next, t)
  {
  }

  /**
   * The merged timestamp. A reading that is not behind gives the time, and the counter goes on to the least number
   * above both counters, even where the reading is past both clocks; otherwise the received timestamp goes on by one,
   * at the reading's time when it is ahead by more than `maxDrift` whole milliseconds. The counter wraps to 0.
   */
  lemma MergedIs(clock: HybridLogicalClock, now: Instant, received: HybridLogicalClock, maxDrift: nat)
    ensures var merged := Update(clock, now, received, maxDrift);
      if now >= received.physicalTime then
        && merged.physicalTime == now
        && (if clock.logicalTime == MAX_LOGICAL || received.logicalTime == MAX_LOGICAL then merged.logicalTime == 0 else
            && clock.logicalTime < merged.logicalTime && received.logicalTime < merged.logicalTime
            && (merged.logicalTime - 1 == clock.logicalTime || merged.logicalTime - 1 == received.logicalTime))
      else
        && merged.physicalTime ==
          (if received.physicalTime - now >= (maxDrift + 1) * NANOS_PER_MILLI then now else received.physicalTime)
        && merged.logicalTime == (if received.logicalTime == MAX_LOGICAL then 0 else received.logicalTime + 1)
  {
    WholeMillis(received.physicalTime - now, maxDrift);
  }

  lemma WholeMillis(nanos: int, maxDrift: nat)
    ensures nanos / NANOS_PER_MILLI > maxDrift <==> nanos >= (maxDrift + 1) * NANOS_PER_MILLI
  {
  }

  lemma LessIsStrictTotalOrder(a: HybridLogicalClock, b: HybridLogicalClock, c: HybridLogicalClock)
    ensures !(Less(a, b) && Less(b, a)) && !Less(a, a)
    ensures Less(a, b) || a == b || Less(b, a)
    ensures Less(a, b) && Less(b, c) ==> Less(a, c)
  {
  }

  // ---------------------------------------------------------------------------
  // When one step moves forward.

  predicate IncrementAdvances(clock: HybridLogicalClock, now: Instant)
  {
    now > clock.physicalTime || clock.logicalTime < MAX_LOGICAL
  }

  /** What the receiver can check before it merges a received timestamp. */
  predicate UpdateAdvances(clock: HybridLogicalClock, now: Instant, received: HybridLogicalClock, maxDrift: nat)
  {
    if now < received.physicalTime then
      && !Drifted(now, received, maxDrift)
      && LessOrEqual(clock, received)
      && received.logicalTime < MAX_LOGICAL
    else
      && clock.physicalTime <= now
      && (clock.physicalTime == now || received.physicalTime == now ==>
        Larger(clock.logicalTime, received.logicalTime) < MAX_LOGICAL)
  }

  lemma IncrementAdvancesIff(clock: HybridLogicalClock, now: Instant)
    ensures Less(clock, Increment(clock, now)) <==> IncrementAdvances(clock, now)
  {
  }

  /** The merged timestamp exceeds both the receiver's clock and the received timestamp exactly then. */
  lemma UpdateAdvancesIff(clock: HybridLogicalClock, now: Instant, received: HybridLogicalClock, maxDrift: nat)
    ensures var merged := Update(clock, now, received, maxDrift);
      Less(clock, merged) && Less(received, merged) <==> UpdateAdvances(clock, now, received, maxDrift)
  {
    var larger := Larger(clock.logicalTime, received.logicalTime);
    assert Bump(larger) == if larger < MAX_LOGICAL then larger + 1 else 0;
  }

  /** The merged timestamp exceeds the received one; the receiver's own clock does not matter. */
  predicate ReceivedIsExceeded(clock: HybridLogicalClock, now: Instant, received: HybridLogicalClock, maxDrift: nat)
  {
    if now < received.physicalTime then
      !Drifted(now, received, maxDrift) && received.logicalTime < MAX_LOGICAL
    else
      received.physicalTime == now ==> Larger(clock.logicalTime, received.logicalTime) < MAX_LOGICAL
  }

  lemma ReceivedIsExceededIff(clock: HybridLogicalClock, now: Instant, received: HybridLogicalClock, maxDrift: nat)
    ensures Less(received, Update(clock, now, received, maxDrift)) <==>
      ReceivedIsExceeded(clock, now, received, maxDrift)
  {
    var larger := Larger(clock.logicalTime, received.logicalTime);
    assert Bump(larger) == if larger < MAX_LOGICAL then larger + 1 else 0;
  }

  // ---------------------------------------------------------------------------
  // Runs of many nodes.

  type NodeId = nat

  /** A receive merges the timestamp that the earlier event `from` handed out. */
  datatype Event =
    | Local(node: NodeId, now: Instant)
    | Receive(node: NodeId, now: Instant, from: nat)

  /** `issued`: the nodes that have handed out a timestamp. */
  datatype State = State(clocks: map<NodeId, HybridLogicalClock>, issued: set<NodeId>, stamps: seq<HybridLogicalClock>)

  /** Each node's clock as its constructor leaves it, at the time the node was started. */
  type Starts = map<NodeId, Instant>

  function Initial(starts: Starts): State
  {
    State(map n | n in starts :: HybridLogicalClock(starts[n], 0), {}, [])
  }

  predicate Enabled(s: State, e: Event)
  {
    e.node in s.clocks && (e.Receive? ==> e.from < |s.stamps|)
  }

  function StampOf(s: State, e: Event, maxDrift: nat): HybridLogicalClock
    requires Enabled(s, e)
  {
    match e
    case Local(node, now) => Increment(s.clocks[node], now)
    case Receive(node, now, from) => Update(s.clocks[node], now, s.stamps[from], maxDrift)
  }

  function After(s: State, e: Event, maxDrift: nat): State
    requires Enabled(s, e)
  {
    var stamp := StampOf(s, e, maxDrift);
    State(s.clocks[e.node := stamp], s.issued + {e.node}, s.stamps + [stamp])
  }

  /** Every event could happen in the state the earlier ones led to. */
  predicate IsRun(starts: Starts, events: seq<Event>, maxDrift: nat)
    decreases |events|, 0
  {
    events == [] ||
    var last := |events| - 1;
    IsRun(starts, events[..last], maxDrift) && Enabled(Reached(starts, events[..last], maxDrift), events[last])
  }

  function Reached(starts: Starts, events: seq<Event>, maxDrift: nat): (s: State)
    requires IsRun(starts, events, maxDrift)
    ensures |s.stamps| == |events|
    decreases |events|, 1
  {
    if events == [] then Initial(starts)
    else
      var last := |events| - 1;
      After(Reached(starts, events[..last], maxDrift), events[last], maxDrift)
  }

  /**
   * The test of one event. A node's first timestamp has no earlier one of its own to exceed; the clock its constructor
   * set was never handed out.
   */
  predicate EventAdvances(s: State, e: Event, maxDrift: nat)
    requires Enabled(s, e)
  {
    match e
    case Local(node, now) => node in s.issued ==> IncrementAdvances(s.clocks[node], now)
    case Receive(node, now, from) =>
      if node in s.issued then UpdateAdvances(s.clocks[node], now, s.stamps[from], maxDrift)
      else ReceivedIsExceeded(s.clocks[node], now, s.stamps[from], maxDrift)
  }

  predicate AllAdvance(starts: Starts, events: seq<Event>, maxDrift: nat)
    requires IsRun(starts, events, maxDrift)
  {
    events == [] ||
    var last := |events| - 1;
    AllAdvance(starts, events[..last], maxDrift) &&
    EventAdvances(Reached(starts, events[..last], maxDrift), events[last], maxDrift)
  }

  /** Program order and message order. */
  predicate Precedes(events: seq<Event>, i: nat, j: nat)
    requires i < j < |events|
  {
    events[i].node == events[j].node || (events[j].Receive? && events[j].from == i)
  }

  ghost predicate CausalPath(events: seq<Event>, path: seq<nat>)
  {
    && (forall k :: 0 <= k < |path| ==> path[k] < |events|)
    && (forall k :: 0 < k < |path| ==> path[k - 1] < path[k] && Precedes(events, path[k - 1], path[k]))
  }

  ghost predicate HappenedBefore(events: seq<Event>, i: nat, j: nat)
  {
    exists path: seq<nat> :: CausalPath(events, path) && |path| >= 2 && path[0] == i && path[|path| - 1] == j
  }

  /** The timestamps handed out follow happened-before. */
  ghost predicate OrderedByTime(starts: Starts, events: seq<Event>, maxDrift: nat)
    requires IsRun(starts, events, maxDrift)
  {
    forall i: nat, j: nat :: i < |events| && j < |events| && HappenedBefore(events, i, j) ==>
      Less(Reached(starts, events, maxDrift).stamps[i], Reached(starts, events, maxDrift).stamps[j])
  }

  /** The clock of a node that handed out a timestamp is the timestamp of its latest event. */
  ghost predicate Latest(events: seq<Event>, s: State)
  {
    && |s.stamps| == |events|
    && s.issued <= s.clocks.Keys
    && (forall i :: 0 <= i < |events| ==> events[i].node in s.issued)
    && (forall n :: n in s.issued ==>
      exists i :: 0 <= i < |events| && events[i].node == n && s.stamps[i] == s.clocks[n])
  }

  ghost predicate ClockIsLargest(events: seq<Event>, s: State)
  {
    && |s.stamps| == |events|
    && forall i :: 0 <= i < |events| && events[i].node in s.clocks ==>
      LessOrEqual(s.stamps[i], s.clocks[events[i].node])
  }

  lemma {:induction false} ClocksAreLatest(starts: Starts, events: seq<Event>, maxDrift: nat)
    requires IsRun(starts, events, maxDrift)
    ensures Latest(events, Reached(starts, events, maxDrift))
    decreases |events|
  {
    hide StampOf, IsRun;
    if events != [] {
      var last := |events| - 1;
      var before, e := events[..last], events[last];
      RunSplit(starts, events, maxDrift);
      ClocksAreLatest(starts, before, maxDrift);
      var s := Reached(starts, before, maxDrift);
      assert before + [e] == events;
      ExtendLatest(before, e, s, StampOf(s, e, maxDrift));
    }
  }

  lemma RunSplit(starts: Starts, events: seq<Event>, maxDrift: nat)
    requires IsRun(starts, events, maxDrift) && events != []
    ensures var last := |events| - 1;
      IsRun(starts, events[..last], maxDrift) && Enabled(Reached(starts, events[..last], maxDrift), events[last])
  {
  }

  lemma ExtendLatest(before: seq<Event>, e: Event, s: State, stamp: HybridLogicalClock)
    requires Latest(before, s) && e.node in s.clocks
    ensures Latest(before + [e], State(s.clocks[e.node := stamp], s.issued + {e.node}, s.stamps + [stamp]))
  {
    var events, t := before + [e], State(s.clocks[e.node := stamp], s.issued + {e.node}, s.stamps + [stamp]);
    forall n | n in t.issued
      ensures exists i :: 0 <= i < |events| && events[i].node == n && t.stamps[i] == t.clocks[n]
    {
      if n == e.node {
        assert events[|before|].node == n && t.stamps[|before|] == t.clocks[n];
      } else {
        var i :| 0 <= i < |before| && before[i].node == n && s.stamps[i] == s.clocks[n];
        assert events[i].node == n && t.stamps[i] == t.clocks[n];
      }
    }
  }

  /** If every event advances, one step of causality increases the timestamp. */
  lemma {:induction false} PrecedesIsLess(starts: Starts, events: seq<Event>, maxDrift: nat)
    requires IsRun(starts, events, maxDrift) && AllAdvance(starts, events, maxDrift)
    ensures ClockIsLargest(events, Reached(starts, events, maxDrift))
    ensures PrecedingAreLess(events, Reached(starts, events, maxDrift).stamps)
    decreases |events|
  {
    hide StampOf, EventAdvances, Less, LessOrEqual, Precedes;
    if events != [] {
      var last := |events| - 1;
      var before, e := events[..last], events[last];
      PrecedesIsLess(starts, before, maxDrift);
      ClocksAreLatest(starts, before, maxDrift);
      var s := Reached(starts, before, maxDrift);
      LastAdvances(s, e, maxDrift);
      assert before + [e] == events;
      ExtendOrder(before, e, s, StampOf(s, e, maxDrift));
    }
  }

  ghost predicate PrecedingAreLess(events: seq<Event>, stamps: seq<HybridLogicalClock>)
    requires |stamps| == |events|
  {
    forall i: nat, j: nat :: i < j < |events| && Precedes(events, i, j) ==> Less(stamps[i], stamps[j])
  }

  lemma ExtendOrder(before: seq<Event>, e: Event, s: State, stamp: HybridLogicalClock)
    requires ClockIsLargest(before, s) && PrecedingAreLess(before, s.stamps) && Latest(before, s)
    requires e.node in s.issued ==> Less(s.clocks[e.node], stamp)
    requires e.Receive? && e.from < |before| ==> Less(s.stamps[e.from], stamp)
    ensures ClockIsLargest(before + [e], State(s.clocks[e.node := stamp], s.issued + {e.node}, s.stamps + [stamp]))
    ensures PrecedingAreLess(before + [e], s.stamps + [stamp])
  {
    var events, stamps := before + [e], s.stamps + [stamp];
    forall i: nat, j: nat | i < j < |events| && Precedes(events, i, j)
      ensures Less(stamps[i], stamps[j])
    {
      assert before[i] == events[i] && stamps[i] == s.stamps[i];
      if j < |before| {
        assert Precedes(before, i, j);
      } else if before[i].node == e.node {
        assert LessOrEqual(s.stamps[i], s.clocks[e.node]);
      }
    }
  }

  lemma LastAdvances(s: State, e: Event, maxDrift: nat)
    requires Enabled(s, e)
    ensures EventAdvances(s, e, maxDrift) <==>
      && (e.node in s.issued ==> Less(s.clocks[e.node], StampOf(s, e, maxDrift)))
      && (e.Receive? ==> Less(s.stamps[e.from], StampOf(s, e, maxDrift)))
  {
    hide Less, Increment, Update, IncrementAdvances, UpdateAdvances, ReceivedIsExceeded;
    if e.Local? {
      IncrementAdvancesIff(s.clocks[e.node], e.now);
    } else {
      UpdateAdvancesIff(s.clocks[e.node], e.now, s.stamps[e.from], maxDrift);
      ReceivedIsExceededIff(s.clocks[e.node], e.now, s.stamps[e.from], maxDrift);
    }
  }

  lemma {:induction false} PathIsLess(starts: Starts, events: seq<Event>, maxDrift: nat, path: seq<nat>)
    requires IsRun(starts, events, maxDrift) && AllAdvance(starts, events, maxDrift)
    requires CausalPath(events, path) && |path| >= 2
    ensures var stamps := Reached(starts, events, maxDrift).stamps;
      Less(stamps[path[0]], stamps[path[|path| - 1]])
    decreases |path|
  {
    PrecedesIsLess(starts, events, maxDrift);
    var last := |path| - 1;
    if |path| > 2 {
      PathIsLess(starts, events, maxDrift, path[..last]);
      assert path[..last][last - 1] == path[last - 1];
    }
  }

  lemma {:induction false} OrderedMeansAdvancing(starts: Starts, events: seq<Event>, maxDrift: nat)
    requires IsRun(starts, events, maxDrift) && OrderedByTime(starts, events, maxDrift)
    ensures AllAdvance(starts, events, maxDrift)
    decreases |events|
  {
    hide StampOf, EventAdvances, Less, HappenedBefore;
    if events != [] {
      var last := |events| - 1;
      var before, e := events[..last], events[last];
      OrderedBefore(starts, events, maxDrift);
      OrderedMeansAdvancing(starts, before, maxDrift);
      ClocksAreLatest(starts, before, maxDrift);
      var s, t := Reached(starts, before, maxDrift), Reached(starts, events, maxDrift);
      assert t.stamps == s.stamps + [StampOf(s, e, maxDrift)];
      if e.node in s.issued {
        var i :| 0 <= i < last && before[i].node == e.node && s.stamps[i] == s.clocks[e.node];
        OneStep(events, i, last);
        assert t.stamps[i] == s.stamps[i];
      }
      if e.Receive? {
        OneStep(events, e.from, last);
        assert t.stamps[e.from] == s.stamps[e.from];
      }
      LastAdvances(s, e, maxDrift);
    }
  }

  lemma OrderedBefore(starts: Starts, events: seq<Event>, maxDrift: nat)
    requires IsRun(starts, events, maxDrift) && OrderedByTime(starts, events, maxDrift) && events != []
    ensures OrderedByTime(starts, events[..|events| - 1], maxDrift)
  {
    hide StampOf, Less;
    var last := |events| - 1;
    var before := events[..last];
    var s, t := Reached(starts, before, maxDrift), Reached(starts, events, maxDrift);
    assert forall i :: 0 <= i < last ==> t.stamps[i] == s.stamps[i];
    forall i: nat, j: nat | i < last && j < last && HappenedBefore(before, i, j)
      ensures Less(s.stamps[i], s.stamps[j])
    {
      var path: seq<nat> :| CausalPath(before, path) && |path| >= 2 && path[0] == i && path[|path| - 1] == j;
      assert CausalPath(events, path);
      assert HappenedBefore(events, i, j);
    }
  }

  lemma OneStep(events: seq<Event>, i: nat, j: nat)
    requires i < j < |events| && Precedes(events, i, j)
    ensures HappenedBefore(events, i, j)
  {
    assert CausalPath(events, [i, j]);
  }

  /**
   * The timestamps handed out follow causality in a run exactly when every event passes its local test: on nodes that
   * have handed out a timestamp no increment at the counter's last value and no receive whose clock reads behind the
   * last one, and nowhere a receive that rejects the sender's time as drifted.
   */
  lemma CausalityIff(starts: Starts, events: seq<Event>, maxDrift: nat)
    requires IsRun(starts, events, maxDrift)
    ensures OrderedByTime(starts, events, maxDrift) <==> AllAdvance(starts, events, maxDrift)
  {
    hide Less;
    if AllAdvance(starts, events, maxDrift) {
      forall i: nat, j: nat | i < |events| && j < |events| && HappenedBefore(events, i, j)
        ensures Less(Reached(starts, events, maxDrift).stamps[i], Reached(starts, events, maxDrift).stamps[j])
      {
        var path: seq<nat> :| CausalPath(events, path) && |path| >= 2 && path[0] == i && path[|path| - 1] == j;
        PathIsLess(starts, events, maxDrift, path);
      }
    }
    if OrderedByTime(starts, events, maxDrift) {
      OrderedMeansAdvancing(starts, events, maxDrift);
    }
  }

  /** Clocks that do not step backwards, sources within the drift bound and counters short of their end suffice. */
  predicate Steady(s: State, e: Event, maxDrift: nat)
    requires Enabled(s, e)
  {
    match e
    case Local(node, _) => s.clocks[node].logicalTime < MAX_LOGICAL
    case Receive(node, now, from) =>
      && now >= s.clocks[node].physicalTime
      && !Drifted(now, s.stamps[from], maxDrift)
      && Larger(s.clocks[node].logicalTime, s.stamps[from].logicalTime) < MAX_LOGICAL
  }

  predicate AllSteady(starts: Starts, events: seq<Event>, maxDrift: nat)
    requires IsRun(starts, events, maxDrift)
  {
    events == [] ||
    var last := |events| - 1;
    AllSteady(starts, events[..last], maxDrift) &&
    Steady(Reached(starts, events[..last], maxDrift), events[last], maxDrift)
  }

  lemma {:induction false} SteadyRunsAdvance(starts: Starts, events: seq<Event>, maxDrift: nat)
    requires IsRun(starts, events, maxDrift) && AllSteady(starts, events, maxDrift)
    ensures AllAdvance(starts, events, maxDrift)
    decreases |events|
  {
    if events != [] { SteadyRunsAdvance(starts, events[..|events| - 1], maxDrift); }
  }

  lemma SteadyRunsKeepCausality(starts: Starts, events: seq<Event>, maxDrift: nat)
    requires IsRun(starts, events, maxDrift) && AllSteady(starts, events, maxDrift)
    ensures OrderedByTime(starts, events, maxDrift)
  {
    SteadyRunsAdvance(starts, events, maxDrift);
    CausalityIff(starts, events, maxDrift);
  }

  // ---------------------------------------------------------------------------
  // Timestamp ordering.

  function Generated(latest: HybridLogicalClock, reading: HybridLogicalClock): HybridLogicalClock
  {
    if LessOrEqual(reading, latest) then HybridLogicalClock(latest.physicalTime, Bump(latest.logicalTime)) else reading
  }

  /** The timestamps handed out for successive readings of the time service. */
  function GeneratedAll(latest: HybridLogicalClock, readings: seq<HybridLogicalClock>): (out: seq<HybridLogicalClock>)
    ensures |out| == |readings|
    decreases |readings|
  {
    if readings == [] then []
    else
      var next := Generated(latest, readings[0]);
      [next] + GeneratedAll(next, readings[1..])
  }

  /** At the counter's last value only a later reading is accepted. */
  predicate NeverWraps(latest: HybridLogicalClock, readings: seq<HybridLogicalClock>)
    decreases |readings|
  {
    readings == [] ||
    ((latest.logicalTime < MAX_LOGICAL || Less(latest, readings[0])) &&
     NeverWraps(Generated(latest, readings[0]), readings[1..]))
  }

  predicate StrictlyIncreasing(s: seq<HybridLogicalClock>)
  {
    forall i, j :: 0 <= i < j < |s| ==> Less(s[i], s[j])
  }

  /** Without a wrap, the timestamp handed out is the least one after the latest that is not before the reading. */
  lemma GeneratedIsLeast(latest: HybridLogicalClock, reading: HybridLogicalClock)
    ensures var next := Generated(latest, reading);
      if !Less(latest, reading) && latest.logicalTime == MAX_LOGICAL then
        next == HybridLogicalClock(latest.physicalTime, 0)
      else
        && Less(latest, next) && LessOrEqual(reading, next)
        && forall t :: Less(latest, t) && LessOrEqual(reading, t) ==> LessOrEqual(next, t)
  {
  }

  /** Whatever the time service returns, even readings that go backwards, the timestamps handed out increase. */
  lemma {:induction false} GeneratedIncrease(latest: HybridLogicalClock, readings: seq<HybridLogicalClock>)
    ensures StrictlyIncreasing([latest] + GeneratedAll(latest, readings)) <==> NeverWraps(latest, readings)
    decreases |readings|
  {
    if readings != [] {
      var next := Generated(latest, readings[0]);
      GeneratedIncrease(next, readings[1..]);
      var rest := GeneratedAll(next, readings[1..]);
      assert GeneratedAll(latest, readings) == [next] + rest;
      assert Less(latest, next) <==> latest.logicalTime < MAX_LOGICAL || Less(latest, readings[0]);
      IncreasingFromFirst(latest, next, rest);
    }
  }

  lemma IncreasingFromFirst(a: HybridLogicalClock, b: HybridLogicalClock, rest: seq<HybridLogicalClock>)
    ensures StrictlyIncreasing([a] + ([b] + rest)) <==> Less(a, b) && StrictlyIncreasing([b] + rest)
  {
    hide Less;
    var tail := [b] + rest;
    var out := [a] + tail;
    assert forall i :: 0 <= i < |tail| ==> out[i + 1] == tail[i];
    if StrictlyIncreasing(out) {
      assert Less(out[0], out[1]);
    }
    if Less(a, b) && StrictlyIncreasing(tail) {
      forall i, j | 0 <= i < j < |out|
        ensures Less(out[i], out[j])
      {
        assert out[j] == tail[j - 1];
        if i > 0 { assert out[i] == tail[i - 1]; }
        if i == 0 && j > 1 {
          assert Less(tail[0], tail[j - 1]);
          LessIsStrictTotalOrder(a, b, tail[j - 1]);
        }
      }
    }
  }

  // ---------------------------------------------------------------------------
  // The services.

  class DefaultTimeService {
    var enableHybridLogicalClock: bool
    var maxClockDrift: nat
    var logicalTime: u64
    var lastPhysicalTime: Instant

    function Clock(): HybridLogicalClock
      reads this
    {
      HybridLogicalClock(lastPhysicalTime, logicalTime)
    }

    constructor (enable: bool, maxClockDrift: nat, now: Instant)
      ensures Clock() == HybridLogicalClock(now, 0)
      ensures this.enableHybridLogicalClock == enable && this.maxClockDrift == maxClockDrift
    {
      enableHybridLogicalClock, this.maxClockDrift := enable, maxClockDrift;
      logicalTime, lastPhysicalTime := 0, now;
    }

    method IncrementLogicalClock(now: Instant) returns (r: HybridLogicalClock)
      modifies this`logicalTime, this`lastPhysicalTime
      ensures r == Clock() == Increment(old(Clock()), now)
    {
      if now > lastPhysicalTime {
        r := HybridLogicalClock(now, 0);
        logicalTime := 0;
      } else {
        r := HybridLogicalClock(lastPhysicalTime, Bump(logicalTime));
        logicalTime := Bump(logicalTime);
      }
      lastPhysicalTime := r.physicalTime;
    }

    method NowLogical(now: Instant) returns (r: HybridLogicalClock)
      modifies this`logicalTime, this`lastPhysicalTime
      ensures enableHybridLogicalClock ==> r == Clock() == Increment(old(Clock()), now)
      ensures !enableHybridLogicalClock ==> r == HybridLogicalClock(now, 0) && Clock() == old(Clock())
    {
      if enableHybridLogicalClock {
        r := IncrementLogicalClock(now);
      } else {
        r := HybridLogicalClock(now, 0);
      }
    }

    method UpdateLogicalClock(now: Instant, received: HybridLogicalClock) returns (r: HybridLogicalClock)
      modifies this`logicalTime, this`lastPhysicalTime
      ensures enableHybridLogicalClock ==> r == Clock() == Update(old(Clock()), now, received, maxClockDrift)
      ensures enableHybridLogicalClock ==>
        (Less(old(Clock()), r) && Less(received, r) <==> UpdateAdvances(old(Clock()), now, received, maxClockDrift))
      ensures !enableHybridLogicalClock ==> r == HybridLogicalClock(now, 0) && Clock() == old(Clock())
    {
      if !enableHybridLogicalClock {
        r := NowLogical(now);
        return;
      }
      UpdateAdvancesIff(Clock(), now, received, maxClockDrift);
      var newLogical, newPhysical;
      if now > received.physicalTime {
        newPhysical := now;
        newLogical := Bump(Larger(logicalTime, received.logicalTime));
      } else if now == received.physicalTime {
        newPhysical := now;
        newLogical := Bump(Larger(logicalTime, received.logicalTime));
      } else {
        newPhysical := received.physicalTime;
        newLogical := Bump(received.logicalTime);
        var offset := (received.physicalTime - now) / NANOS_PER_MILLI;
        if offset > maxClockDrift { newPhysical := now; }
      }
      logicalTime := newLogical;
      lastPhysicalTime := newPhysical;
      r := HybridLogicalClock(newPhysical, newLogical);
    }
  }

  class TimestampOrdering {
    const timeService: DefaultTimeService
    var latestTimestamp: HybridLogicalClock

    constructor (timeService: DefaultTimeService, now: Instant)
      modifies timeService`logicalTime, timeService`lastPhysicalTime
      ensures this.timeService == timeService
      ensures timeService.enableHybridLogicalClock ==> latestTimestamp == timeService.Clock()
    {
      this.timeService := timeService;
      var first := timeService.NowLogical(now);
      latestTimestamp := first;
    }

    method GenerateTimestamp(now: Instant) returns (r: HybridLogicalClock)
      modifies this`latestTimestamp, timeService`logicalTime, timeService`lastPhysicalTime
      ensures r == latestTimestamp
      ensures r == Generated(old(latestTimestamp),
        if timeService.enableHybridLogicalClock then Increment(old(timeService.Clock()), now)
        else HybridLogicalClock(now, 0))
      ensures old(latestTimestamp).logicalTime < MAX_LOGICAL ==> Less(old(latestTimestamp), r)
    {
      r := timeService.NowLogical(now);
      if LessOrEqual(r, latestTimestamp) {
        r := HybridLogicalClock(latestTimestamp.physicalTime, Bump(latestTimestamp.logicalTime));
      }
      latestTimestamp := r;
    }
  }
}
