/** When wait edges stand for locks, and refusals for real circular waits (src/transaction/transaction_manager.cpp). */
module CircularWaits {
  import opened Results
  import opened Keys
  import opened WaitGraph
  import opened LockManager

  datatype Request = Request(key: Key, kind: LockType)

  /** The latest request behind each wait edge; the source does not keep it. */
  type Pending = map<(Tx, Tx), Request>

  /** The transaction holds a lock that stands in the request's way. */
  ghost predicate Blocks(s: LockState, holder: Tx, r: Request)
  {
    exists id :: BlocksWith(s, id, holder, r)
  }

  predicate BlocksWith(s: LockState, id: LockId, holder: Tx, r: Request)
  {
    id in s.locks && s.locks[id].tx == holder && s.locks[id].key == r.key && !Compatible(s.locks[id].kind, r.kind)
  }

  /** Whoever is waited for still holds what the waiting request needs. */
  ghost predicate Genuine(s: LockState, p: Pending)
  {
    forall u: Tx, v: Tx :: v in Succ(s.waits, u) ==> (u, v) in p && Blocks(s, v, p[(u, v)])
  }

  /** The requests behind the edges after a step. */
  ghost function Requests(s: LockState, p: Pending, step: LockStep): Pending
  {
    if step.AcquireStep? && Acquire(s, step.tx, step.key, step.kind).1.Waiting? then
      p[(step.tx, Acquire(s, step.tx, step.key, step.kind).1.holder) := Request(step.key, step.kind)]
    else p
  }

  /** Nobody waits for what the step releases. */
  ghost predicate ReleasesUnwaited(s: LockState, p: Pending, step: LockStep)
  {
    match step
    case ReleaseStep(id) =>
      id in s.locks ==>
        forall u: Tx :: s.locks[id].tx in Succ(s.waits, u) && (u, s.locks[id].tx) in p ==>
          exists other :: other != id && BlocksWith(s, other, s.locks[id].tx, p[(u, s.locks[id].tx)])
    case ReleaseAllStep(tx) => forall u: Tx :: tx !in Succ(s.waits, u)
    case _ => true
  }

  lemma ConflictBlocks(s: LockState, tx: Tx, key: Key, kind: LockType)
    requires Inv(s) && Conflict(s.locks, Bucket(s, key), tx, kind).Some?
    ensures Blocks(s, Conflict(s.locks, Bucket(s, key), tx, kind).value, Request(key, kind))
    ensures Conflict(s.locks, Bucket(s, key), tx, kind).value != tx
  {
    hide Acyclic, AllCompatible, Conflict, Compatible;
    NoConflict(s.locks, Bucket(s, key), tx, kind);
    var holder := Conflict(s.locks, Bucket(s, key), tx, kind).value;
    var id :| id in Bucket(s, key) && id in s.locks && s.locks[id].tx == holder
      && s.locks[id].tx != tx && !Compatible(s.locks[id].kind, kind);
    assert BlocksWith(s, id, holder, Request(key, kind));
  }

  /** More locks block no less. */
  lemma StillBlocks(s: LockState, t: LockState, holder: Tx, r: Request)
    requires Blocks(s, holder, r)
    requires forall id :: id in s.locks && s.locks[id].tx == holder ==> id in t.locks && t.locks[id] == s.locks[id]
    ensures Blocks(t, holder, r)
  {
    hide Compatible;
    var id :| BlocksWith(s, id, holder, r);
    assert BlocksWith(t, id, holder, r);
  }

  /** Every edge was there before, with its request, or is blocked by a lock that is held. */
  lemma MoreLocksKeepGenuine(s: LockState, p: Pending, t: LockState, q: Pending)
    requires Genuine(s, p)
    requires forall id :: id in s.locks ==> id in t.locks && t.locks[id] == s.locks[id]
    requires forall u: Tx, v: Tx :: v in Succ(t.waits, u) ==>
      (u, v) in q && ((v in Succ(s.waits, u) && q[(u, v)] == p[(u, v)]) || Blocks(s, v, q[(u, v)]))
    ensures Genuine(t, q)
  {
    hide Blocks;
    forall u: Tx, v: Tx | v in Succ(t.waits, u)
      ensures Blocks(t, v, q[(u, v)])
    {
      StillBlocks(s, t, v, q[(u, v)]);
    }
  }

  lemma AcquireKeepsGenuine(s: LockState, p: Pending, tx: Tx, key: Key, kind: LockType)
    requires Inv(s) && Genuine(s, p)
    ensures var step := AcquireStep(tx, key, kind); Genuine(Step(s, step), Requests(s, p, step))
  {
    hide Blocks, Conflict, CycleReachable, Inv, Genuine, Grant;
    var conflict := Conflict(s.locks, Bucket(s, key), tx, kind);
    if conflict.None? {
      GrantKeepsGenuine(s, p, tx, key, kind);
    } else {
      ConflictBlocks(s, tx, key, kind);
      WaitKeepsGenuine(s, p, tx, conflict.value, Request(key, kind));
      WithdrawnKeepsGenuine(s, p, tx, conflict.value);
    }
  }

  lemma GrantKeepsGenuine(s: LockState, p: Pending, tx: Tx, key: Key, kind: LockType)
    requires Inv(s) && Genuine(s, p)
    ensures Genuine(Grant(s, tx, key, kind), p)
  {
    hide Blocks;
    var t := Grant(s, tx, key, kind);
    assert forall id :: id in s.locks ==> id in t.locks && t.locks[id] == s.locks[id] by { InvTables(s); }
    hide Inv;
    MoreLocksKeepGenuine(s, p, t, p);
  }

  lemma WaitKeepsGenuine(s: LockState, p: Pending, tx: Tx, holder: Tx, r: Request)
    requires Genuine(s, p) && Blocks(s, holder, r)
    ensures Genuine(s.(waits := WithEdge(s.waits, tx, holder)), p[(tx, holder) := r])
  {
    hide Blocks;
    MoreLocksKeepGenuine(s, p, s.(waits := WithEdge(s.waits, tx, holder)), p[(tx, holder) := r]);
  }

  lemma WithdrawnKeepsGenuine(s: LockState, p: Pending, tx: Tx, holder: Tx)
    requires Genuine(s, p)
    ensures Genuine(s.(waits := WithoutEdge(WithEdge(s.waits, tx, holder), tx, holder)), p)
  {
    hide Blocks;
    MoreLocksKeepGenuine(s, p, s.(waits := WithoutEdge(WithEdge(s.waits, tx, holder), tx, holder)), p);
  }

  lemma TimeOutKeepsGenuine(s: LockState, p: Pending, tx: Tx, holder: Tx)
    requires Genuine(s, p)
    ensures Genuine(TimeOut(s, tx, holder), p)
  {
    MoreLocksKeepGenuine(s, p, TimeOut(s, tx, holder), p);
  }

  /** Releasing one lock keeps the edges genuine exactly when nobody waits for just that lock. */
  lemma ReleaseKeepsGenuineIff(s: LockState, p: Pending, id: LockId)
    requires Inv(s) && Genuine(s, p) && id in s.locks
    ensures Genuine(Without(s, {id}), p) <==> ReleasesUnwaited(s, p, ReleaseStep(id))
  {
    hide Inv, Compatible;
    var t, owner := Without(s, {id}), s.locks[id].tx;
    assert t.waits == s.waits && t.locks == s.locks - {id};
    if ReleasesUnwaited(s, p, ReleaseStep(id)) {
      forall u: Tx, v: Tx | v in Succ(t.waits, u)
        ensures (u, v) in p && Blocks(t, v, p[(u, v)])
      {
        if v == owner {
          var other :| other != id && BlocksWith(s, other, owner, p[(u, v)]);
          assert BlocksWith(t, other, owner, p[(u, v)]);
        } else {
          StillBlocks(s, t, v, p[(u, v)]);
        }
      }
    }
    if Genuine(t, p) {
      forall u: Tx | owner in Succ(s.waits, u) && (u, owner) in p
        ensures exists other :: other != id && BlocksWith(s, other, owner, p[(u, owner)])
      {
        var other :| BlocksWith(t, other, owner, p[(u, owner)]);
        assert other != id && BlocksWith(s, other, owner, p[(u, owner)]);
      }
    }
  }

  /** Releasing a transaction keeps the edges genuine exactly when nobody waits for it. */
  lemma ReleaseAllKeepsGenuineIff(s: LockState, p: Pending, tx: Tx)
    requires Inv(s) && Genuine(s, p)
    ensures Genuine(ReleaseAll(s, tx), p) <==> forall u: Tx :: tx !in Succ(s.waits, u)
  {
    hide Compatible, Inv, ReleaseAll;
    var t := ReleaseAll(s, tx);
    ReleaseAllIsExact(s, tx);
    ReleasedWaits(s, tx);
    if u: Tx :| tx in Succ(s.waits, u) {
      NoSelfWait(s, u);
      assert tx in Succ(t.waits, u);
      assert !Blocks(t, tx, p[(u, tx)]);
    } else {
      forall u: Tx, v: Tx | v in Succ(t.waits, u)
        ensures (u, v) in p && Blocks(t, v, p[(u, v)])
      {
        assert v in Succ(s.waits, u);
        StillBlocks(s, t, v, p[(u, v)]);
      }
    }
  }

  lemma ReleasedWaits(s: LockState, tx: Tx)
    ensures ReleaseAll(s, tx).waits == s.waits || ReleaseAll(s, tx).waits == s.waits - {tx}
  {
    hide FilterOut;
  }

  lemma NoSelfWait(s: LockState, u: Tx)
    requires Inv(s)
    ensures u !in Succ(s.waits, u)
  {
    if u in Succ(s.waits, u) { assert IsCycle(s.waits, [u]); }
  }

  // ---------------------------------------------------------------------------
  // The edges.

  /** One step sets or takes away a wait edge, or leaves it as it was. */
  ghost predicate EdgeAfter(s: LockState, step: LockStep, u: Tx, v: Tx, before: bool)
  {
    match step
    case AcquireStep(tx, key, kind) =>
      if tx != u then before else (
        match Acquire(s, tx, key, kind).1
        case Granted(_) => false
        case Waiting(holder) => before || v == holder
        case Deadlock => before && Conflict(s.locks, Bucket(s, key), tx, kind) != Some(v))
    case TimeOutStep(tx, holder) => before && !(tx == u && holder == v)
    case ReleaseStep(_) => before
    case ReleaseAllStep(tx) => before && !(tx == u && exists key, kind :: HoldsLock(s, u, key, kind))
  }

  ghost predicate WaitsFor(steps: seq<LockStep>, u: Tx, v: Tx)
  {
    steps != [] &&
    var before := steps[..|steps| - 1];
    EdgeAfter(LockManager.Run(before), steps[|steps| - 1], u, v, WaitsFor(before, u, v))
  }

  /**
   * What the wait graph holds after any run: an edge for each wait that was answered to a transaction and not ended
   * since by a grant, by its own deadline or refusal, or by the release of all its locks when it has some.
   */
  lemma {:induction false} EdgesAre(steps: seq<LockStep>, u: Tx, v: Tx)
    ensures v in Succ(LockManager.Run(steps).waits, u) <==> WaitsFor(steps, u, v)
    decreases steps
  {
    hide Inv, Acquire, EdgeAfter, LockManager.Step;
    if steps != [] {
      var before := steps[..|steps| - 1];
      EdgesAre(before, u, v);
      InvariantOverRuns(before);
      StepOnEdge(LockManager.Run(before), steps[|steps| - 1], u, v);
    }
  }

  lemma StepOnEdge(s: LockState, step: LockStep, u: Tx, v: Tx)
    requires Inv(s)
    ensures v in Succ(LockManager.Step(s, step).waits, u) <==> EdgeAfter(s, step, u, v, v in Succ(s.waits, u))
  {
    hide Inv, Conflict, CycleReachable, FilterOut;
    if step.ReleaseAllStep? { OwnsIffHolds(s, step.tx); }
  }

  lemma OwnsIffHolds(s: LockState, tx: Tx)
    requires Inv(s)
    ensures tx in s.txLocks <==> exists key, kind :: HoldsLock(s, tx, key, kind)
  {
    hide Acyclic, AllCompatible, BucketsAgree;
    if tx in s.txLocks {
      var id :| id in s.txLocks[tx];
      assert HoldsLock(s, tx, s.locks[id].key, s.locks[id].kind);
    }
    if key, kind :| HoldsLock(s, tx, key, kind) {
      var id :| id in s.locks && s.locks[id] == LockInfo(kind, tx, key);
      assert id in Owned(s, tx);
    }
  }

  // ---------------------------------------------------------------------------
  // Refusals.

  /**
   * A request and a chain of waits that leads from a holder in its way back to the requester: each transaction of the
   * chain waits for the next, which holds a lock that its request needs.
   */
  ghost predicate CircularWait(s: LockState, p: Pending, tx: Tx, r: Request, chain: seq<Tx>)
  {
    && chain != [] && Last(chain) == tx && chain[0] != tx
    && Blocks(s, chain[0], r)
    && IsPath(s.waits, chain)
    && forall i :: 0 <= i < |chain| - 1 ==>
      (chain[i], chain[i + 1]) in p && Blocks(s, chain[i + 1], p[(chain[i], chain[i + 1])])
  }

  /**
   * While the edges are genuine, a request is refused as a deadlock exactly when it would close a circular wait for
   * locks that are held, through the first holder in its way.
   */
  lemma RefusalIsCircularWait(s: LockState, p: Pending, tx: Tx, key: Key, kind: LockType)
    requires Inv(s) && Genuine(s, p)
    ensures Acquire(s, tx, key, kind).1.Deadlock? <==>
      exists chain :: CircularWait(s, p, tx, Request(key, kind), chain)
        && Conflict(s.locks, Bucket(s, key), tx, kind) == Some(chain[0])
  {
    hide Blocks, Conflict, CycleReachable, Inv;
    var conflict := Conflict(s.locks, Bucket(s, key), tx, kind);
    if conflict.Some? {
      assert Acyclic(s.waits) by { InvIsAcyclic(s); }
      ConflictBlocks(s, tx, key, kind);
      DeadlockIffHolderWaits(s.waits, tx, conflict.value);
      if Reaches(s.waits, conflict.value, tx) {
        var chain :| IsPath(s.waits, chain) && chain[0] == conflict.value && Last(chain) == tx;
        assert CircularWait(s, p, tx, Request(key, kind), chain);
      }
    }
  }

  ghost function RunRequests(steps: seq<LockStep>): Pending
  {
    if steps == [] then map[] else
      var before := steps[..|steps| - 1];
      Requests(Run(before), RunRequests(before), steps[|steps| - 1])
  }

  /** In no state of the run is an edge stale. */
  ghost predicate NeverStale(steps: seq<LockStep>)
  {
    Genuine(Run(steps), RunRequests(steps)) && (steps != [] ==> NeverStale(steps[..|steps| - 1]))
  }

  /** Every release in the run is of something nobody waits for. */
  ghost predicate OnlyUnwaitedReleases(steps: seq<LockStep>)
  {
    steps == [] ||
    var before := steps[..|steps| - 1];
    OnlyUnwaitedReleases(before) && ReleasesUnwaited(Run(before), RunRequests(before), steps[|steps| - 1])
  }

  lemma StepKeepsGenuineIff(s: LockState, p: Pending, step: LockStep)
    requires Inv(s) && Genuine(s, p)
    ensures Genuine(Step(s, step), Requests(s, p, step)) <==> ReleasesUnwaited(s, p, step)
  {
    hide Inv, Genuine, Blocks, Acquire, TimeOut, Without, ReleaseAll;
    match step
    case AcquireStep(tx, key, kind) => AcquireKeepsGenuine(s, p, tx, key, kind);
    case TimeOutStep(tx, holder) => TimeOutKeepsGenuine(s, p, tx, holder);
    case ReleaseStep(id) => if id in s.locks { ReleaseKeepsGenuineIff(s, p, id); }
    case ReleaseAllStep(tx) => ReleaseAllKeepsGenuineIff(s, p, tx);
  }

  /** Over all runs: wait edges stand for held locks throughout exactly when nothing is released that is waited for. */
  lemma {:induction false} NeverStaleIff(steps: seq<LockStep>)
    ensures NeverStale(steps) <==> OnlyUnwaitedReleases(steps)
    decreases |steps|
  {
    hide Inv, Genuine, Step, ReleasesUnwaited, Requests;
    if steps == [] {
      NothingPending();
    } else {
      var before := steps[..|steps| - 1];
      NeverStaleIff(before);
      InvariantOverRuns(before);
      if NeverStale(before) { StepKeepsGenuineIff(Run(before), RunRequests(before), steps[|steps| - 1]); }
    }
  }

  lemma NothingPending()
    ensures Genuine(NO_LOCKS, map[])
  {
  }

  /** Hence in such runs the refused requests are exactly those. */
  lemma RefusalsAreReal(steps: seq<LockStep>, tx: Tx, key: Key, kind: LockType)
    requires OnlyUnwaitedReleases(steps)
    ensures var s := Run(steps);
      Acquire(s, tx, key, kind).1.Deadlock? <==>
        exists chain :: CircularWait(s, RunRequests(steps), tx, Request(key, kind), chain)
          && Conflict(s.locks, Bucket(s, key), tx, kind) == Some(chain[0])
  {
    hide Inv, Genuine, Acquire, CircularWait, Conflict;
    NeverStaleIff(steps);
    InvariantOverRuns(steps);
    RefusalIsCircularWait(Run(steps), RunRequests(steps), tx, key, kind);
  }

  /**
   * Only the first holder is looked at: transactions 1 and 2 share `a`, 2 waits for 3 on `b`, and 3 asks for `a`. That
   * is a circular wait of 3 and 2, but 3 is told to wait for 1.
   */
  lemma LaterHolderIsMissed(a: Key, b: Key)
    requires a != b
    ensures var steps := [AcquireStep(1, a, Shared), AcquireStep(2, a, Shared), AcquireStep(3, b, Exclusive),
                          AcquireStep(2, b, Exclusive)];
      && CircularWait(Run(steps), RunRequests(steps), 3, Request(a, Exclusive), [2, 3])
      && Acquire(Run(steps), 3, a, Exclusive).1 == Waiting(1)
  {
    hide Run, Step, RunRequests, Requests, Acquire, CircularWait, ThreeHold;
    var steps := [AcquireStep(1, a, Shared), AcquireStep(2, a, Shared), AcquireStep(3, b, Exclusive),
                  AcquireStep(2, b, Exclusive)];
    assert steps[..0] == [] && Run([]) == NO_LOCKS by { NothingRun(); }
    RunStep(steps, 0);
    RunStep(steps, 1);
    RunStep(steps, 2);
    RunStep(steps, 3);
    assert steps[..4] == steps && steps[..|steps| - 1] == steps[..3];
    ThreeGrants(a, b);
    SecondWaits(a, b);
    LastRequests(steps);
    MissedByThird(a, b, RunRequests(steps[..3]));
  }

  function ThreeHold(a: Key, b: Key, waits: Graph): LockState
  {
    LockState(
      map[1 := LockInfo(Shared, 1, a), 2 := LockInfo(Shared, 2, a), 3 := LockInfo(Exclusive, 3, b)],
      map[a := [1, 2], b := [3]], map[1 := {1}, 2 := {2}, 3 := {3}], waits, 4)
  }

  const SECOND_WAITS: Graph := map[2 := {3}]

  lemma ThreeGrants(a: Key, b: Key)
    requires a != b
    ensures var s := Step(Step(NO_LOCKS, AcquireStep(1, a, Shared)), AcquireStep(2, a, Shared));
      Step(s, AcquireStep(3, b, Exclusive)) == ThreeHold(a, b, NO_WAITS)
  {
    hide Step;
    FirstShares(a);
    SecondShares(a);
    ThirdOnOther(a, b);
  }

  function Sharing(a: Key, both: bool): LockState
  {
    var first, second := LockInfo(Shared, 1, a), LockInfo(Shared, 2, a);
    if both then LockState(map[1 := first, 2 := second], map[a := [1, 2]], map[1 := {1}, 2 := {2}], NO_WAITS, 3)
    else LockState(map[1 := first], map[a := [1]], map[1 := {1}], NO_WAITS, 2)
  }

  lemma FirstShares(a: Key)
    ensures Step(NO_LOCKS, AcquireStep(1, a, Shared)) == Sharing(a, false)
  {
    hide CycleReachable;
    assert Owned(NO_LOCKS, 1) + {1} == {1} && Bucket(NO_LOCKS, a) + [1] == [1];
  }

  lemma SecondShares(a: Key)
    ensures Step(Sharing(a, false), AcquireStep(2, a, Shared)) == Sharing(a, true)
  {
    hide CycleReachable;
    var s := Sharing(a, false);
    assert Bucket(s, a) == [1] && [1][1..] == [];
    assert Conflict(s.locks, [1], 2, Shared) == None;
    assert Owned(s, 2) + {2} == {2} && Bucket(s, a) + [2] == [1, 2];
  }

  lemma ThirdOnOther(a: Key, b: Key)
    requires a != b
    ensures Step(Sharing(a, true), AcquireStep(3, b, Exclusive)) == ThreeHold(a, b, NO_WAITS)
  {
    hide CycleReachable;
    var s := Sharing(a, true);
    assert Owned(s, 3) + {3} == {3} && Bucket(s, b) + [3] == [3];
  }

  lemma SecondWaits(a: Key, b: Key)
    requires a != b
    ensures Step(ThreeHold(a, b, NO_WAITS), AcquireStep(2, b, Exclusive)) == ThreeHold(a, b, SECOND_WAITS)
    ensures Acquire(ThreeHold(a, b, NO_WAITS), 2, b, Exclusive).1 == Waiting(3)
  {
    hide CycleReachable, Reaches, Acyclic;
    var s := ThreeHold(a, b, NO_WAITS);
    assert Bucket(s, b) == [3] && Conflict(s.locks, [3], 2, Exclusive) == Some(3);
    NothingInEmptyGraph(3, 2);
    DeadlockIffHolderWaits(NO_WAITS, 2, 3);
    assert Succ(NO_WAITS, 2) + {3} == {3};
  }

  lemma LastRequests(steps: seq<LockStep>)
    requires steps != []
    ensures var before := steps[..|steps| - 1];
      RunRequests(steps) == Requests(Run(before), RunRequests(before), steps[|steps| - 1])
  {
    hide Run, Requests;
  }

  lemma MissedByThird(a: Key, b: Key, p: Pending)
    requires a != b
    ensures var s := ThreeHold(a, b, SECOND_WAITS);
      && Acquire(s, 3, a, Exclusive).1 == Waiting(1)
      && var q := Requests(ThreeHold(a, b, NO_WAITS), p, AcquireStep(2, b, Exclusive));
      CircularWait(s, q, 3, Request(a, Exclusive), [2, 3])
  {
    hide CycleReachable, Reaches, Acyclic, Acquire;
    var s := ThreeHold(a, b, SECOND_WAITS);
    SecondWaits(a, b);
    var q := Requests(ThreeHold(a, b, NO_WAITS), p, AcquireStep(2, b, Exclusive));
    assert q[(2, 3)] == Request(b, Exclusive);
    assert BlocksWith(s, 2, 2, Request(a, Exclusive));
    assert BlocksWith(s, 3, 3, Request(b, Exclusive));
    var chain: seq<Tx> := [2, 3];
    assert IsPath(SECOND_WAITS, chain) && Last(chain) == 3;
    FirstHolderIsFree(a, b);
  }

  lemma FirstHolderIsFree(a: Key, b: Key)
    requires a != b
    ensures Acquire(ThreeHold(a, b, SECOND_WAITS), 3, a, Exclusive).1 == Waiting(1)
  {
    hide CycleReachable, Reaches, Acyclic;
    var s := ThreeHold(a, b, SECOND_WAITS);
    assert Bucket(s, a) == [1, 2] && Conflict(s.locks, [1, 2], 3, Exclusive) == Some(1);
    OneEdgeFrom(2, 3, 1);
    DeadlockIffHolderWaits(SECOND_WAITS, 3, 1);
  }

  /** In a graph of one edge nothing else is reached. */
  lemma OneEdgeFrom(u: Tx, v: Tx, w: Tx)
    requires u != v && w != u && w != v
    ensures Acyclic(map[u := {v}]) && !Reaches(map[u := {v}], w, v)
  {
    var g: Graph := map[u := {v}];
    forall p | IsPath(g, p)
      ensures p[0] !in Succ(g, Last(p)) && (p[0] == w ==> |p| == 1)
    {
      if |p| > 1 { EdgeOfPath(g, p, 1); }
      if |p| > 2 { EdgeOfPath(g, p, 2); }
    }
  }

  /** Otherwise not: transaction 2 released everything while 1 waited for it, and is refused without holding a lock. */
  lemma RefusedWithoutLocks(a: Key, b: Key)
    requires a != b
    ensures var s := Run([AcquireStep(2, a, Exclusive), AcquireStep(1, b, Exclusive), AcquireStep(1, a, Exclusive),
                          ReleaseAllStep(2)]);
      && Acquire(s, 2, b, Exclusive).1.Deadlock?
      && forall id :: id in s.locks ==> s.locks[id].tx != 2
  {
    hide Run, Step, Acquire;
    var steps := [AcquireStep(2, a, Exclusive), AcquireStep(1, b, Exclusive), AcquireStep(1, a, Exclusive),
                  ReleaseAllStep(2)];
    assert steps[..0] == [] && Run([]) == NO_LOCKS by { NothingRun(); }
    RunStep(steps, 0);
    RunStep(steps, 1);
    RunStep(steps, 2);
    RunStep(steps, 3);
    assert steps[..4] == steps;
    TwoGrants(a, b);
    OneWaits(a, b);
    OtherReleases(a, b);
  }

  function BothHold(a: Key, b: Key, waits: Graph): LockState
  {
    LockState(map[1 := LockInfo(Exclusive, 2, a), 2 := LockInfo(Exclusive, 1, b)], map[a := [1], b := [2]],
      map[2 := {1}, 1 := {2}], waits, 3)
  }

  lemma NothingRun()
    ensures Run([]) == NO_LOCKS
  {
  }

  const NO_WAITS: Graph := map[]
  const ONE_WAIT: Graph := map[1 := {2}]

  lemma TwoGrants(a: Key, b: Key)
    requires a != b
    ensures Step(Step(NO_LOCKS, AcquireStep(2, a, Exclusive)), AcquireStep(1, b, Exclusive)) == BothHold(a, b, NO_WAITS)
  {
    hide CycleReachable;
    var s := Step(NO_LOCKS, AcquireStep(2, a, Exclusive));
    assert Owned(NO_LOCKS, 2) + {1} == {1} && Bucket(NO_LOCKS, a) + [1] == [1];
    assert s == LockState(map[1 := LockInfo(Exclusive, 2, a)], map[a := [1]], map[2 := {1}], NO_WAITS, 2);
    assert Owned(s, 1) + {2} == {2} && Bucket(s, b) + [2] == [2];
  }

  lemma OneWaits(a: Key, b: Key)
    requires a != b
    ensures Step(BothHold(a, b, NO_WAITS), AcquireStep(1, a, Exclusive)) == BothHold(a, b, ONE_WAIT)
  {
    hide CycleReachable, Reaches, Acyclic;
    var s := BothHold(a, b, NO_WAITS);
    assert Conflict(s.locks, Bucket(s, a), 1, Exclusive) == Some(2);
    NothingInEmptyGraph(2, 1);
    DeadlockIffHolderWaits(NO_WAITS, 1, 2);
    assert Succ(NO_WAITS, 1) + {2} == {2};
  }

  lemma EdgeOfPath(g: Graph, p: seq<Tx>, i: nat)
    requires IsPath(g, p) && 0 < i < |p|
    ensures p[i] in Succ(g, p[i - 1])
  {
  }

  lemma NothingInEmptyGraph(u: Tx, v: Tx)
    requires u != v
    ensures Acyclic(NO_WAITS) && !Reaches(NO_WAITS, u, v)
  {
    forall p | IsPath(NO_WAITS, p)
      ensures |p| == 1
    {
      if |p| > 1 { EdgeOfPath(NO_WAITS, p, 1); }
    }
  }

  lemma OtherReleases(a: Key, b: Key)
    requires a != b
    ensures var t := Step(BothHold(a, b, ONE_WAIT), ReleaseAllStep(2));
      && Acquire(t, 2, b, Exclusive).1.Deadlock?
      && forall id :: id in t.locks ==> t.locks[id].tx != 2
  {
    hide CycleReachable, Reaches, Acyclic;
    var s := BothHold(a, b, ONE_WAIT);
    var t := Step(s, ReleaseAllStep(2));
    assert FilterOut([2], {1}) == [2] by { assert [2][1..] == []; }
    assert t.locks == map[2 := LockInfo(Exclusive, 1, b)];
    assert Bucket(t, b) == [2];
    assert t.waits == ONE_WAIT;
    assert Conflict(t.locks, [2], 2, Exclusive) == Some(1);
    OneEdge();
    DeadlockIffHolderWaits(ONE_WAIT, 2, 1);
  }

  lemma OneEdge()
    ensures Acyclic(ONE_WAIT) && Reaches(ONE_WAIT, 1, 2)
  {
    assert IsPath(ONE_WAIT, [1, 2]) && Last([1, 2]) == 2;
    forall p | IsPath(ONE_WAIT, p)
      ensures p[0] !in Succ(ONE_WAIT, Last(p))
    {
      if |p| > 1 { EdgeOfPath(ONE_WAIT, p, 1); }
      if |p| > 2 { EdgeOfPath(ONE_WAIT, p, 2); }
    }
  }

  lemma RunStep(steps: seq<LockStep>, n: nat)
    requires n < |steps|
    ensures Run(steps[..n + 1]) == Step(Run(steps[..n]), steps[n])
  {
    hide Step;
    assert steps[..n + 1][..n] == steps[..n];
  }
}
