/** `DefaultLockManager` (src/transaction/transaction_manager.cpp). */
module LockManager {
  import opened Collections
  import opened Results
  import opened Keys
  import opened WaitGraph

  datatype LockType = Shared | Exclusive | IntentionShared | IntentionExclusive

  /** The number in the source's "lock_<n>". */
  type LockId = nat

  datatype LockInfo = LockInfo(kind: LockType, tx: Tx, key: Key)

  function Compatible(existing: LockType, requested: LockType): bool
  {
    match existing
    case Shared => requested == Shared || requested == IntentionShared
    case Exclusive => false
    case IntentionShared => requested != Exclusive
    case IntentionExclusive => requested == IntentionShared || requested == IntentionExclusive
  }

  /** What a lock allows on a key: reading or changing it, as a whole or in parts that get locks of their own. */
  datatype Use = Use(changes: bool, inParts: bool)

  function Uses(kind: LockType): set<Use>
  {
    match kind
    case Shared => {Use(false, false)}
    case Exclusive => {Use(false, false), Use(true, false)}
    case IntentionShared => {Use(false, true)}
    case IntentionExclusive => {Use(false, true), Use(true, true)}
  }

  /** One of the two changes the key, and they do not both leave the conflict to the locks on parts. */
  predicate Collide(a: Use, b: Use)
  {
    (a.changes || b.changes) && !(a.inParts && b.inParts)
  }

  ghost predicate GoTogether(a: LockType, b: LockType)
  {
    forall u, v :: u in Uses(a) && v in Uses(b) ==> !Collide(u, v)
  }

  /** The table lets two modes stand beside each other exactly when nothing one allows collides with the other. */
  lemma CompatibleIff(a: LockType, b: LockType)
    ensures Compatible(a, b) <==> GoTogether(a, b)
  {
    assert Use(a.Exclusive? || a.IntentionExclusive?, a.IntentionShared? || a.IntentionExclusive?) in Uses(a);
    assert Use(b.Exclusive? || b.IntentionExclusive?, b.IntentionShared? || b.IntentionExclusive?) in Uses(b);
  }

  lemma CompatibleSymmetric(a: LockType, b: LockType)
    ensures Compatible(a, b) == Compatible(b, a)
  {
  }

  // ---------------------------------------------------------------------------
  // The lock tables as values.

  /** `locks_`, `key_locks_`, `transaction_locks_`, `wait_graph_` and `next_lock_id_`. */
  datatype LockState = LockState(
    locks: map<LockId, LockInfo>,
    keyLocks: map<Key, seq<LockId>>,
    txLocks: map<Tx, set<LockId>>,
    waits: Graph,
    nextId: LockId)

  const NO_LOCKS: LockState := LockState(map[], map[], map[], map[], 1)

  function Bucket(s: LockState, key: Key): seq<LockId>
  {
    if key in s.keyLocks then s.keyLocks[key] else []
  }

  function Owned(s: LockState, tx: Tx): set<LockId>
  {
    if tx in s.txLocks then s.txLocks[tx] else {}
  }

  /** Every lock stands in its key's bucket and its transaction's set. */
  ghost predicate LocksIndexed(s: LockState)
  {
    forall id :: id in s.locks ==>
      id < s.nextId && id in Bucket(s, s.locks[id].key) && id in Owned(s, s.locks[id].tx)
  }

  ghost predicate BucketsAgree(s: LockState)
  {
    && (forall key :: key in s.keyLocks ==> s.keyLocks[key] != [] && NoDuplicates(s.keyLocks[key]))
    && (forall key, id :: key in s.keyLocks && id in s.keyLocks[key] ==> id in s.locks && s.locks[id].key == key)
  }

  ghost predicate OwnersAgree(s: LockState)
  {
    && (forall tx :: tx in s.txLocks ==> s.txLocks[tx] != {})
    && (forall tx, id :: tx in s.txLocks && id in s.txLocks[tx] ==> id in s.locks && s.locks[id].tx == tx)
  }

  /** The three maps index one set of locks, without duplicates and without empty entries. */
  ghost predicate TablesAgree(s: LockState)
  {
    LocksIndexed(s) && BucketsAgree(s) && OwnersAgree(s)
  }

  /** Locks of different transactions on one key go together. */
  ghost predicate AllCompatible(s: LockState)
  {
    forall a, b :: a in s.locks && b in s.locks && s.locks[a].key == s.locks[b].key && s.locks[a].tx != s.locks[b].tx
      ==> Compatible(s.locks[a].kind, s.locks[b].kind)
  }

  ghost predicate Inv(s: LockState)
  {
    TablesAgree(s) && AllCompatible(s) && Acyclic(s.waits)
  }

  // ---------------------------------------------------------------------------
  // Steps.

  /** The first holder in the key's bucket that stands in the way. */
  function Conflict(locks: map<LockId, LockInfo>, ids: seq<LockId>, tx: Tx, kind: LockType): Option<Tx>
  {
    if ids == [] then None
    else if ids[0] in locks && locks[ids[0]].tx != tx && !Compatible(locks[ids[0]].kind, kind)
    then Some(locks[ids[0]].tx)
    else Conflict(locks, ids[1..], tx, kind)
  }

  datatype Attempt = Granted(id: LockId) | Deadlock | Waiting(holder: Tx)

  function Grant(s: LockState, tx: Tx, key: Key, kind: LockType): LockState
  {
    LockState(
      s.locks[s.nextId := LockInfo(kind, tx, key)],
      s.keyLocks[key := Bucket(s, key) + [s.nextId]],
      s.txLocks[tx := Owned(s, tx) + {s.nextId}],
      s.waits - {tx},
      s.nextId + 1)
  }

  function WithoutEdge(g: Graph, u: Tx, v: Tx): Graph
  {
    g[u := Succ(g, u) - {v}]
  }

  /** One pass of `acquire_lock`: the request is granted, refused as a deadlock, or has to wait. */
  ghost function Acquire(s: LockState, tx: Tx, key: Key, kind: LockType): (LockState, Attempt)
  {
    var conflict := Conflict(s.locks, Bucket(s, key), tx, kind);
    if conflict.None? then (Grant(s, tx, key, kind), Granted(s.nextId)) else
      var waits := WithEdge(s.waits, tx, conflict.value);
      if CycleReachable(waits, tx)
      then (s.(waits := WithoutEdge(waits, tx, conflict.value)), Deadlock)
      else (s.(waits := waits), Waiting(conflict.value))
  }

  /** A waiting request runs into its deadline. */
  function TimeOut(s: LockState, tx: Tx, holder: Tx): LockState
  {
    s.(waits := WithoutEdge(s.waits, tx, holder))
  }

  function FilterOut(ids: seq<LockId>, gone: set<LockId>): seq<LockId>
  {
    if ids == [] then [] else (if ids[0] in gone then [] else [ids[0]]) + FilterOut(ids[1..], gone)
  }

  /** The tables without some locks. */
  function Without(s: LockState, gone: set<LockId>): LockState
  {
    s.(locks := s.locks - gone,
       keyLocks := map key | key in s.keyLocks && FilterOut(s.keyLocks[key], gone) != []
         :: FilterOut(s.keyLocks[key], gone),
       txLocks := map tx | tx in s.txLocks && s.txLocks[tx] - gone != {} :: s.txLocks[tx] - gone)
  }

  /** `release_all_locks`: a transaction without locks keeps its wait edges. */
  function ReleaseAll(s: LockState, tx: Tx): LockState
  {
    if tx !in s.txLocks then s else Without(s, s.txLocks[tx]).(waits := s.waits - {tx})
  }

  // ---------------------------------------------------------------------------
  // What the steps keep.

  lemma {:induction false} NoConflict(locks: map<LockId, LockInfo>, ids: seq<LockId>, tx: Tx, kind: LockType)
    ensures Conflict(locks, ids, tx, kind).None?
       <==> forall id :: id in ids && id in locks && locks[id].tx != tx ==> Compatible(locks[id].kind, kind)
    ensures Conflict(locks, ids, tx, kind).Some? ==>
      exists id :: id in ids && id in locks && locks[id].tx == Conflict(locks, ids, tx, kind).value
                   && locks[id].tx != tx && !Compatible(locks[id].kind, kind)
    decreases ids
  {
    if ids != [] {
      NoConflict(locks, ids[1..], tx, kind);
      assert ids[0] in ids && forall id :: id in ids <==> id == ids[0] || id in ids[1..];
    }
  }

  lemma AppendNew(ids: seq<LockId>, id: LockId)
    requires NoDuplicates(ids) && id !in ids
    ensures NoDuplicates(ids + [id])
    ensures forall x :: x in ids + [id] <==> x in ids || x == id
  {
    assert forall i :: 0 <= i < |ids| ==> ids[i] in ids;
  }

  lemma GrantKeepsTables(s: LockState, tx: Tx, key: Key, kind: LockType)
    requires TablesAgree(s)
    ensures TablesAgree(Grant(s, tx, key, kind))
  {
    GrantIndexes(s, tx, key, kind);
    GrantKeepsBuckets(s, tx, key, kind);
    GrantKeepsOwners(s, tx, key, kind);
  }

  lemma GrantIndexes(s: LockState, tx: Tx, key: Key, kind: LockType)
    requires LocksIndexed(s)
    ensures LocksIndexed(Grant(s, tx, key, kind))
  {
  }

  lemma GrantKeepsBuckets(s: LockState, tx: Tx, key: Key, kind: LockType)
    requires LocksIndexed(s) && BucketsAgree(s)
    ensures BucketsAgree(Grant(s, tx, key, kind))
  {
    hide NoDuplicates, Bucket, Owned;
    var t, bucket := Grant(s, tx, key, kind), Bucket(s, key);
    BucketHolds(s, key);
    AppendNew(bucket, s.nextId);
    forall k | k in t.keyLocks
      ensures t.keyLocks[k] != [] && NoDuplicates(t.keyLocks[k])
      ensures forall id :: id in t.keyLocks[k] ==> id in t.locks && t.locks[id].key == k
    {
      if k != key { assert forall id :: id in s.keyLocks[k] ==> id in s.locks && id != s.nextId; }
    }
  }

  lemma BucketHolds(s: LockState, key: Key)
    requires LocksIndexed(s) && BucketsAgree(s)
    ensures NoDuplicates(Bucket(s, key)) && s.nextId !in Bucket(s, key) && s.nextId !in s.locks
    ensures forall id :: id in Bucket(s, key) ==> id in s.locks && s.locks[id].key == key
  {
    hide NoDuplicates;
    if key !in s.keyLocks { EmptyBucket(); }
    forall id | id in Bucket(s, key)
      ensures id in s.locks && s.locks[id].key == key && id != s.nextId
    {
      assert key in s.keyLocks && id in s.keyLocks[key];
    }
  }

  lemma GrantKeepsOwners(s: LockState, tx: Tx, key: Key, kind: LockType)
    requires LocksIndexed(s) && OwnersAgree(s)
    ensures OwnersAgree(Grant(s, tx, key, kind))
  {
    var t := Grant(s, tx, key, kind);
    assert s.nextId !in s.locks;
    forall x, id | x in t.txLocks && id in t.txLocks[x]
      ensures id in t.locks && t.locks[id].tx == x
    {
      assert (x == tx && id == s.nextId) || (x in s.txLocks && id in s.txLocks[x]);
    }
  }

  lemma EmptyBucket()
    ensures NoDuplicates<LockId>([])
  {
  }

  lemma GrantKeepsCompatible(s: LockState, tx: Tx, key: Key, kind: LockType)
    requires TablesAgree(s) && AllCompatible(s)
    requires Conflict(s.locks, Bucket(s, key), tx, kind).None?
    ensures AllCompatible(Grant(s, tx, key, kind))
  {
    hide Conflict, Compatible;
    NoConflict(s.locks, Bucket(s, key), tx, kind);
    var t := Grant(s, tx, key, kind);
    forall id | id in s.locks && s.locks[id].key == key && s.locks[id].tx != tx
      ensures Compatible(s.locks[id].kind, kind) && Compatible(kind, s.locks[id].kind)
    {
      CompatibleSymmetric(s.locks[id].kind, kind);
    }
    forall a, b | a in t.locks && b in t.locks && t.locks[a].key == t.locks[b].key && t.locks[a].tx != t.locks[b].tx
      ensures Compatible(t.locks[a].kind, t.locks[b].kind)
    {
      if a != s.nextId && b != s.nextId { assert a in s.locks && b in s.locks; }
    }
  }

  lemma {:induction false} AcquireKeepsInv(s: LockState, tx: Tx, key: Key, kind: LockType)
    requires Inv(s)
    ensures Inv(Acquire(s, tx, key, kind).0)
  {
    hide Compatible, TablesAgree, AllCompatible, Acyclic, CycleReachable, Conflict, Grant;
    var conflict := Conflict(s.locks, Bucket(s, key), tx, kind);
    if conflict.None? {
      GrantKeepsTables(s, tx, key, kind);
      GrantKeepsCompatible(s, tx, key, kind);
      GrantWaits(s, tx, key, kind);
      SubgraphAcyclic(s.waits - {tx}, s.waits);
    } else {
      var waits := WithEdge(s.waits, tx, conflict.value);
      var t := Acquire(s, tx, key, kind).0;
      if CycleReachable(waits, tx) {
        SubgraphAcyclic(t.waits, s.waits);
      } else {
        CheckedEdgeKeepsAcyclic(s.waits, tx, conflict.value);
      }
      WaitsOnly(s, t);
    }
  }

  lemma GrantWaits(s: LockState, tx: Tx, key: Key, kind: LockType)
    ensures Grant(s, tx, key, kind).waits == s.waits - {tx}
  {
  }

  lemma WaitsOnly(s: LockState, t: LockState)
    requires t == s.(waits := t.waits)
    ensures TablesAgree(s) == TablesAgree(t) && AllCompatible(s) == AllCompatible(t)
  {
    hide LocksIndexed, BucketsAgree, OwnersAgree;
    SameTables(s, t);
  }

  lemma SameTables(s: LockState, t: LockState)
    requires s.locks == t.locks && s.keyLocks == t.keyLocks && s.txLocks == t.txLocks && s.nextId == t.nextId
    ensures LocksIndexed(s) == LocksIndexed(t)
    ensures BucketsAgree(s) == BucketsAgree(t)
    ensures OwnersAgree(s) == OwnersAgree(t)
  {
    hide NoDuplicates;
  }

  lemma TimeOutKeepsInv(s: LockState, tx: Tx, holder: Tx)
    requires Inv(s)
    ensures Inv(TimeOut(s, tx, holder))
  {
    hide TablesAgree, AllCompatible, Acyclic;
    var t := TimeOut(s, tx, holder);
    SubgraphAcyclic(t.waits, s.waits);
    WaitsOnly(s, t);
  }

  lemma {:induction false} FilterOutMembers(ids: seq<LockId>, gone: set<LockId>)
    ensures forall id :: id in FilterOut(ids, gone) <==> id in ids && id !in gone
    ensures NoDuplicates(ids) ==> NoDuplicates(FilterOut(ids, gone))
    decreases ids
  {
    if ids != [] {
      FilterOutMembers(ids[1..], gone);
      assert forall id :: id in ids <==> id == ids[0] || id in ids[1..];
      if NoDuplicates(ids) {
        assert NoDuplicates(ids[1..]);
        assert ids[0] !in ids[1..];
        var rest := FilterOut(ids[1..], gone);
        assert forall i :: 0 <= i < |rest| ==> rest[i] in rest;
      }
    }
  }

  lemma WithoutKeepsBuckets(s: LockState, gone: set<LockId>)
    requires BucketsAgree(s)
    ensures BucketsAgree(Without(s, gone))
  {
    hide FilterOut, NoDuplicates;
    forall key | key in s.keyLocks
      ensures forall id :: id in FilterOut(s.keyLocks[key], gone) <==> id in s.keyLocks[key] && id !in gone
      ensures NoDuplicates(FilterOut(s.keyLocks[key], gone))
    {
      FilterOutMembers(s.keyLocks[key], gone);
    }
  }

  lemma WithoutIndexes(s: LockState, gone: set<LockId>)
    requires LocksIndexed(s)
    ensures LocksIndexed(Without(s, gone))
  {
    hide FilterOut;
    var t := Without(s, gone);
    forall id | id in t.locks
      ensures id in Bucket(t, t.locks[id].key) && id in Owned(t, t.locks[id].tx)
    {
      FilterOutMembers(s.keyLocks[s.locks[id].key], gone);
      assert id in s.txLocks[s.locks[id].tx] - gone;
    }
  }

  lemma WithoutKeepsOwners(s: LockState, gone: set<LockId>)
    requires OwnersAgree(s)
    ensures OwnersAgree(Without(s, gone))
  {
    hide FilterOut;
  }

  lemma WithoutKeepsTables(s: LockState, gone: set<LockId>)
    requires TablesAgree(s)
    ensures TablesAgree(Without(s, gone))
  {
    hide Without, LocksIndexed, BucketsAgree, OwnersAgree;
    WithoutIndexes(s, gone);
    WithoutKeepsBuckets(s, gone);
    WithoutKeepsOwners(s, gone);
  }

  lemma WithoutKeepsInv(s: LockState, gone: set<LockId>)
    requires Inv(s)
    ensures Inv(Without(s, gone))
  {
    hide TablesAgree, Acyclic, Compatible, FilterOut;
    WithoutKeepsTables(s, gone);
  }

  lemma ReleaseAllKeepsInv(s: LockState, tx: Tx)
    requires Inv(s)
    ensures Inv(ReleaseAll(s, tx))
  {
    hide TablesAgree, AllCompatible, Acyclic, Without;
    if tx in s.txLocks {
      var u := Without(s, s.txLocks[tx]);
      WithoutKeepsInv(s, s.txLocks[tx]);
      SubgraphAcyclic(s.waits - {tx}, s.waits);
      WaitsOnly(u, ReleaseAll(s, tx));
    }
  }

  /** `release_all_locks(t)` removes exactly t's locks. */
  lemma ReleaseAllIsExact(s: LockState, tx: Tx)
    requires Inv(s)
    ensures ReleaseAll(s, tx).locks == map id | id in s.locks && s.locks[id].tx != tx :: s.locks[id]
    ensures tx !in ReleaseAll(s, tx).txLocks
  {
    hide Inv, FilterOut, Owned;
    InvTables(s);
    OwnedExactly(s, tx);
    hide TablesAgree;
    ReleasedLocks(s, tx);
    LocksOfOthers(s, tx, Owned(s, tx));
  }

  lemma LocksOfOthers(s: LockState, tx: Tx, gone: set<LockId>)
    requires forall id :: id in s.locks ==> (id in gone <==> s.locks[id].tx == tx)
    ensures s.locks - gone == map id | id in s.locks && s.locks[id].tx != tx :: s.locks[id]
  {
  }

  lemma ReleasedLocks(s: LockState, tx: Tx)
    ensures ReleaseAll(s, tx).locks == s.locks - Owned(s, tx)
    ensures tx !in ReleaseAll(s, tx).txLocks
  {
    hide FilterOut;
  }

  /** A transaction's set has exactly its locks. */
  lemma OwnedExactly(s: LockState, tx: Tx)
    requires TablesAgree(s)
    ensures forall id :: id in s.locks ==> (id in Owned(s, tx) <==> s.locks[id].tx == tx)
  {
    hide BucketsAgree;
  }

  // ---------------------------------------------------------------------------
  // Runs.

  datatype LockStep =
    | AcquireStep(tx: Tx, key: Key, kind: LockType)
    | TimeOutStep(tx: Tx, holder: Tx)
    | ReleaseStep(id: LockId)
    | ReleaseAllStep(tx: Tx)

  ghost function Step(s: LockState, step: LockStep): LockState
  {
    match step
    case AcquireStep(tx, key, kind) => Acquire(s, tx, key, kind).0
    case TimeOutStep(tx, holder) => TimeOut(s, tx, holder)
    case ReleaseStep(id) => if id in s.locks then Without(s, {id}) else s
    case ReleaseAllStep(tx) => ReleaseAll(s, tx)
  }

  ghost function Run(steps: seq<LockStep>): LockState
  {
    if steps == [] then NO_LOCKS else Step(Run(steps[..|steps| - 1]), steps[|steps| - 1])
  }

  /**
   * In every reachable state the three tables agree, locks of different transactions on one key are compatible, and
   * the wait-for graph has no cycle.
   */
  lemma {:induction false} InvariantOverRuns(steps: seq<LockStep>)
    ensures Inv(Run(steps))
    decreases steps
  {
    hide Inv, Acquire, TimeOut, Without, ReleaseAll;
    if steps == [] {
      EmptyTables();
    } else {
      var s := Run(steps[..|steps| - 1]);
      InvariantOverRuns(steps[..|steps| - 1]);
      match steps[|steps| - 1]
      case AcquireStep(tx, key, kind) => AcquireKeepsInv(s, tx, key, kind);
      case TimeOutStep(tx, holder) => TimeOutKeepsInv(s, tx, holder);
      case ReleaseStep(id) => WithoutKeepsInv(s, {id});
      case ReleaseAllStep(tx) => ReleaseAllKeepsInv(s, tx);
    }
  }

  lemma EmptyTables()
    ensures Inv(NO_LOCKS)
  {
  }

  ghost predicate HoldsLock(s: LockState, tx: Tx, key: Key, kind: LockType)
  {
    exists id :: id in s.locks && s.locks[id] == LockInfo(kind, tx, key)
  }

  /** A request is granted exactly when it goes together with every lock that others hold on the key. */
  lemma GrantedIff(s: LockState, tx: Tx, key: Key, kind: LockType)
    requires Inv(s)
    ensures Acquire(s, tx, key, kind).1.Granted? <==>
      forall other, held :: other != tx && HoldsLock(s, other, key, held) ==> GoTogether(held, kind)
  {
    hide Compatible, GoTogether, AllCompatible, Acyclic, NoDuplicates, CycleReachable, Grant, Conflict;
    NoConflict(s.locks, Bucket(s, key), tx, kind);
    forall held
      ensures Compatible(held, kind) <==> GoTogether(held, kind)
    {
      CompatibleIff(held, kind);
    }
    var granted := Acquire(s, tx, key, kind).1.Granted?;
    if granted {
      forall other, held | other != tx && HoldsLock(s, other, key, held)
        ensures GoTogether(held, kind)
      {
        var id :| id in s.locks && s.locks[id] == LockInfo(held, other, key);
        assert id in Bucket(s, key);
      }
    } else {
      var id :| id in Bucket(s, key) && id in s.locks && s.locks[id].tx != tx && !Compatible(s.locks[id].kind, kind);
      BucketHolds(s, key);
      assert s.locks[id] == LockInfo(s.locks[id].kind, s.locks[id].tx, key);
      assert HoldsLock(s, s.locks[id].tx, key, s.locks[id].kind);
    }
  }

  /** Over all runs, two transactions can hold two modes on one key at once exactly when the modes go together. */
  lemma HeldTogetherIff(x: Tx, y: Tx, key: Key, a: LockType, b: LockType)
    requires x != y
    ensures (exists steps :: HoldsLock(Run(steps), x, key, a) && HoldsLock(Run(steps), y, key, b)) <==> GoTogether(a, b)
  {
    hide GoTogether, Inv, Acquire, Compatible, Run, HoldsLock;
    if steps :| HoldsLock(Run(steps), x, key, a) && HoldsLock(Run(steps), y, key, b) {
      InvariantOverRuns(steps);
      HeldAreCompatible(Run(steps), x, y, key, a, b);
      CompatibleIff(a, b);
    }
    if GoTogether(a, b) {
      var first, second := AcquireStep(x, key, a), AcquireStep(y, key, b);
      TwoSteps(first, second);
      EmptyTables();
      NothingHeld();
      GrantedIff(NO_LOCKS, x, key, a);
      GrantAdds(NO_LOCKS, x, key, a);
      var s := Acquire(NO_LOCKS, x, key, a).0;
      AcquireKeepsInv(NO_LOCKS, x, key, a);
      GrantedIff(s, y, key, b);
      GrantAdds(s, y, key, b);
      assert HoldsLock(Run([first, second]), x, key, a) && HoldsLock(Run([first, second]), y, key, b);
    }
  }

  lemma HeldAreCompatible(s: LockState, x: Tx, y: Tx, key: Key, a: LockType, b: LockType)
    requires Inv(s) && x != y && HoldsLock(s, x, key, a) && HoldsLock(s, y, key, b)
    ensures Compatible(a, b)
  {
    hide Compatible, TablesAgree, Acyclic;
  }

  lemma NothingHeld()
    ensures forall x, k, l :: !HoldsLock(NO_LOCKS, x, k, l)
  {
  }

  /** A grant adds one lock of the mode asked for; an attempt that is not granted leaves the locks alone. */
  lemma GrantAdds(s: LockState, tx: Tx, key: Key, kind: LockType)
    requires Inv(s)
    ensures var (t, attempt) := Acquire(s, tx, key, kind);
      forall x: Tx, k, l ::
        HoldsLock(t, x, k, l) <==> HoldsLock(s, x, k, l) || (attempt.Granted? && x == tx && k == key && l == kind)
  {
    hide AllCompatible, Acyclic, NoDuplicates, Conflict, CycleReachable;
    var (t, attempt) := Acquire(s, tx, key, kind);
    if attempt.Granted? { assert t.locks[s.nextId] == LockInfo(kind, tx, key); }
    forall x, k, l | HoldsLock(s, x, k, l)
      ensures HoldsLock(t, x, k, l)
    {
      var id :| id in s.locks && s.locks[id] == LockInfo(l, x, k);
      assert id in t.locks && t.locks[id] == LockInfo(l, x, k);
    }
    forall x, k, l | HoldsLock(t, x, k, l)
      ensures HoldsLock(s, x, k, l) || (attempt.Granted? && x == tx && k == key && l == kind)
    {
      var id :| id in t.locks && t.locks[id] == LockInfo(l, x, k);
      if id in s.locks && id != s.nextId { assert s.locks[id] == LockInfo(l, x, k); }
    }
  }

  lemma TwoSteps(first: LockStep, second: LockStep)
    ensures Run([first, second]) == Step(Step(NO_LOCKS, first), second)
  {
    hide Step;
    assert [first, second][..1] == [first] && [first][..0] == [];
    assert Run([first]) == Step(Run([]), first);
  }

  // ---------------------------------------------------------------------------
  // Deadlock.

  ghost predicate Reaches(g: Graph, u: Tx, v: Tx)
  {
    exists p :: IsPath(g, p) && p[0] == u && Last(p) == v
  }

  lemma LastIndex(s: seq<Tx>, x: Tx) returns (i: nat)
    requires x in s
    ensures i < |s| && s[i] == x && x !in s[i + 1..]
  {
    i := |s| - 1;
    while s[i] != x
      invariant i < |s| && x !in s[i + 1..] && x in s[..i + 1]
      decreases i
    {
      assert s[i..] == [s[i]] + s[i + 1..];
      assert s[..i + 1] == s[..i] + [s[i]];
      i := i - 1;
    }
  }

  /** Adding a wait edge closes a cycle exactly when the holder already waits, directly or not, for the requester. */
  lemma DeadlockIffHolderWaits(g: Graph, tx: Tx, holder: Tx)
    requires Acyclic(g) && tx != holder
    ensures CycleReachable(WithEdge(g, tx, holder), tx) <==> Reaches(g, holder, tx)
  {
    var h := WithEdge(g, tx, holder);
    if CycleReachable(h, tx) {
      var p :| IsLasso(h, p) && p[0] == tx;
      var k :| 0 <= k < |p| && p[k] in Succ(h, Last(p));
      assert IsCycle(h, p[k..]);
      CycleGivesPath(g, tx, holder, p[k..]);
    }
    if Reaches(g, holder, tx) {
      var p :| IsPath(g, p) && p[0] == holder && Last(p) == tx;
      PathGivesCycle(g, tx, holder, p);
    }
  }

  lemma CycleGivesPath(g: Graph, tx: Tx, holder: Tx, c: seq<Tx>)
    requires Acyclic(g) && tx != holder && IsCycle(WithEdge(g, tx, holder), c)
    ensures Reaches(g, holder, tx)
  {
    var h := WithEdge(g, tx, holder);
    NewCycleThroughSource(g, tx, holder, c);
    var i0 :| 0 <= i0 < |c| && c[i0] == tx;
    Rotate(h, c, i0);
    var r := c[i0..] + c[..i0];
    var i := LastIndex(r, tx);
    var q := r[i + 1..] + [tx];
    TailStaysInGraph(g, tx, holder, r, i);
    hide IsPath, Acyclic, IsCycle;
    if q[0] != holder {
      assert q[0] in Succ(g, tx);
      CloseCycle(g, tx, q);
    }
    assert IsPath(g, q) && q[0] == holder && Last(q) == tx;
  }

  lemma TailStaysInGraph(g: Graph, tx: Tx, holder: Tx, r: seq<Tx>, i: nat)
    requires IsCycle(WithEdge(g, tx, holder), r) && r[0] == tx
    requires i < |r| && r[i] == tx && tx !in r[i + 1..]
    ensures IsPath(g, r[i + 1..] + [tx])
    ensures (r[i + 1..] + [tx])[0] in Succ(WithEdge(g, tx, holder), tx)
  {
    var h, tail := WithEdge(g, tx, holder), r[i + 1..];
    var q := tail + [tx];
    forall j | 0 < j < |q|
      ensures q[j] in Succ(g, q[j - 1])
    {
      assert q[j - 1] == tail[j - 1] && tail[j - 1] in tail;
      assert Succ(h, q[j - 1]) == Succ(g, q[j - 1]);
      if j < |tail| { assert q[j] == r[i + 1 + j] && q[j - 1] == r[i + j]; }
    }
  }

  lemma CloseCycle(g: Graph, tx: Tx, q: seq<Tx>)
    requires IsPath(g, q) && Last(q) == tx && q[0] in Succ(g, tx)
    ensures !Acyclic(g)
  {
    assert IsCycle(g, q);
  }

  lemma PathGivesCycle(g: Graph, tx: Tx, holder: Tx, p: seq<Tx>)
    requires IsPath(g, p) && p[0] == holder && Last(p) == tx
    ensures CycleReachable(WithEdge(g, tx, holder), tx)
  {
    var h := WithEdge(g, tx, holder);
    assert forall u: Tx :: Succ(g, u) <= Succ(h, u);
    assert IsCycle(h, p);
    assert tx == p[|p| - 1] && tx in p;
    CycleThroughIsReachable(h, p, tx);
  }

  // ---------------------------------------------------------------------------
  // The code.

  class DefaultLockManager {
    var locks: map<LockId, LockInfo>
    var keyLocks: map<Key, seq<LockId>>
    var transactionLocks: map<Tx, set<LockId>>
    var waitGraph: Graph
    var nextLockId: LockId

    ghost function View(): LockState
      reads this
    {
      LockState(locks, keyLocks, transactionLocks, waitGraph, nextLockId)
    }

    ghost predicate Valid()
      reads this
    {
      Inv(View())
    }

    constructor ()
      ensures Valid() && View() == NO_LOCKS
    {
      locks, keyLocks, transactionLocks, waitGraph, nextLockId := map[], map[], map[], map[], 1;
      new;
      EmptyTables();
    }

    /** One pass of `acquire_lock`; a caller told to wait asks again or calls `GiveUp`. */
    method AcquireLock(tx: Tx, key: Key, kind: LockType) returns (r: Attempt)
      requires Valid()
      modifies this
      ensures Valid()
      ensures (View(), r) == Acquire(old(View()), tx, key, kind)
    {
      hide Inv, Conflict, Compatible, CycleReachable, Grant, WithEdge, WithoutEdge;
      AcquireKeepsInv(View(), tx, key, kind);
      var ids := if key in keyLocks then keyLocks[key] else [];
      var i := 0;
      assert ids[0..] == ids;
      while i < |ids|
        invariant 0 <= i <= |ids|
        invariant View() == old(View())
        invariant Conflict(locks, ids, tx, kind) == Conflict(locks, ids[i..], tx, kind)
      {
        ConflictStep(locks, ids, i, tx, kind);
        if ids[i] in locks {
          var existing := locks[ids[i]];
          if existing.tx != tx && !Compatible(existing.kind, kind) {
            r := CheckWait(tx, existing.tx);
            return;
          }
        }
        i := i + 1;
      }
      ConflictStep(locks, ids, i, tx, kind);
      var id := Record(tx, key, kind);
      return Granted(id);
    }

    /** The request has to wait for a holder unless that closes a cycle. */
    method CheckWait(tx: Tx, holder: Tx) returns (r: Attempt)
      modifies this`waitGraph
      ensures var waits := WithEdge(old(waitGraph), tx, holder);
        if CycleReachable(waits, tx)
        then r == Deadlock && waitGraph == WithoutEdge(waits, tx, holder)
        else r == Waiting(holder) && waitGraph == waits
    {
      hide CycleReachable;
      waitGraph := waitGraph[tx := Succ(waitGraph, tx) + {holder}];
      var cycle := FindCycle(waitGraph, tx);
      if cycle != [] {
        waitGraph := waitGraph[tx := waitGraph[tx] - {holder}];
        return Deadlock;
      }
      return Waiting(holder);
    }

    /** The lock is entered in all three tables and the requester's wait edges go. */
    method Record(tx: Tx, key: Key, kind: LockType) returns (id: LockId)
      modifies this
      ensures id == old(nextLockId) && View() == Grant(old(View()), tx, key, kind)
    {
      id := nextLockId;
      nextLockId := nextLockId + 1;
      locks := locks[id := LockInfo(kind, tx, key)];
      keyLocks := keyLocks[key := (if key in keyLocks then keyLocks[key] else []) + [id]];
      transactionLocks := transactionLocks[tx := (if tx in transactionLocks then transactionLocks[tx] else {}) + {id}];
      waitGraph := waitGraph - {tx};
    }

    /** The deadline passed while waiting. */
    method GiveUp(tx: Tx, holder: Tx)
      requires Valid()
      modifies this
      ensures Valid() && View() == TimeOut(old(View()), tx, holder)
    {
      hide Inv;
      TimeOutKeepsInv(View(), tx, holder);
      waitGraph := waitGraph[tx := Succ(waitGraph, tx) - {holder}];
    }

    method ReleaseLock(id: LockId) returns (r: Result<(), Status>)
      requires Valid()
      modifies this
      ensures Valid()
      ensures r == if id in old(locks) then Ok(()) else Err(NotFound)
      ensures View() == if id in old(locks) then Without(old(View()), {id}) else old(View())
    {
      hide Without, FilterOut, AllCompatible, Acyclic;
      if id !in locks { return Err(NotFound); }
      WithoutKeepsInv(View(), {id});
      WithoutOne(View(), id);
      var info := locks[id];
      if info.key in keyLocks {
        var ids := FilterOut(keyLocks[info.key], {id});
        keyLocks := if ids == [] then keyLocks - {info.key} else keyLocks[info.key := ids];
      }
      if info.tx in transactionLocks {
        var ids := transactionLocks[info.tx] - {id};
        transactionLocks := if ids == {} then transactionLocks - {info.tx} else transactionLocks[info.tx := ids];
      }
      locks := locks - {id};
      return Ok(());
    }

    method ReleaseAllLocks(tx: Tx)
      requires Valid()
      modifies this
      ensures Valid() && View() == ReleaseAll(old(View()), tx)
    {
      hide Without, Inv, TablesAgree;
      if tx !in transactionLocks { return; }
      InvTables(View());
      ReleaseAllKeepsInv(View(), tx);
      ghost var all := transactionLocks[tx];
      var left := transactionLocks[tx];
      WithoutNone(View());
      assert all - left == {};
      while left != {}
        invariant left <= all
        invariant Valid() && View() == Without(old(View()), all - left)
        decreases left
      {
        var id :| id in left;
        WithoutMore(old(View()), all - left, id);
        OwnedAreLocks(old(View()), tx, all - left, id);
        var r := ReleaseLock(id);
        ghost var before := left;
        left := left - {id};
        assert all - left == (all - before) + {id};
      }
      assert all - {} == all;
      WithoutWaits(old(View()), all);
      waitGraph := waitGraph - {tx};
    }

    /** Empty exactly when the wait-for graph has no cycle; otherwise each result ends in one. */
    method DetectDeadlocks() returns (deadlocks: seq<seq<Tx>>)
      ensures deadlocks == [] <==> Acyclic(waitGraph)
      ensures forall i :: 0 <= i < |deadlocks| ==> IsLasso(waitGraph, deadlocks[i])
    {
      hide IsLasso, CycleReachable, Acyclic, IsCycle;
      deadlocks := [];
      var visited: set<Tx> := {};
      var left := waitGraph.Keys;
      while left != {}
        invariant left <= waitGraph.Keys
        invariant forall i :: 0 <= i < |deadlocks| ==> IsLasso(waitGraph, deadlocks[i])
        invariant deadlocks == [] ==> visited == {}
        invariant deadlocks == [] ==> forall tx :: tx in waitGraph.Keys - left ==> !CycleReachable(waitGraph, tx)
        decreases left
      {
        var tx :| tx in left;
        if tx !in visited {
          var cycle := FindCycle(waitGraph, tx);
          if cycle != [] {
            deadlocks := deadlocks + [cycle];
            visited := visited + Elements(cycle);
          }
        }
        left := left - {tx};
      }
      if deadlocks == [] {
        NoCycleAnywhere(waitGraph);
      } else {
        LassoMeansCycle(waitGraph, deadlocks[0]);
      }
    }

    method ResolveDeadlock(cycle: seq<Tx>) returns (r: Result<(), Status>)
      requires Valid()
      modifies this
      ensures Valid()
      ensures cycle == [] ==> r == Err(InvalidArgument) && View() == old(View())
      ensures cycle != [] ==> r == Ok(()) && View() == ReleaseAll(old(View()), Largest(cycle))
    {
      hide Inv, ReleaseAll;
      if cycle == [] { return Err(InvalidArgument); }
      var victim := Largest(cycle);
      ReleaseAllLocks(victim);
      return Ok(());
    }

    /** One pass of the background loop: it finds no cycle, so no transaction loses its locks. */
    method DetectionPass()
      requires Valid()
      modifies this
      ensures Valid() && View() == old(View())
    {
      hide Inv, ReleaseAll, Acyclic;
      var deadlocks := DetectDeadlocks();
      var i := 0;
      while i < |deadlocks|
        invariant 0 <= i <= |deadlocks|
        invariant Valid() && (i == 0 ==> View() == old(View()))
      {
        var r := ResolveDeadlock(deadlocks[i]);
        i := i + 1;
      }
      InvIsAcyclic(old(View()));
    }

    method CanAcquireLock(key: Key, kind: LockType) returns (b: bool)
      requires Valid()
      ensures b <==> Acquirable(View(), key, kind)
    {
      hide Compatible, AllCompatible, Acyclic;
      if key !in keyLocks { return true; }
      var ids := keyLocks[key];
      var i := 0;
      while i < |ids|
        invariant 0 <= i <= |ids|
        invariant forall j :: 0 <= j < i && ids[j] in locks ==> Compatible(locks[ids[j]].kind, kind)
      {
        if ids[i] in locks && !Compatible(locks[ids[i]].kind, kind) {
          assert locks[ids[i]].key == key;
          return false;
        }
        i := i + 1;
      }
      return true;
    }
  }

  // ---------------------------------------------------------------------------
  // Lemmas for the methods.

  lemma ConflictStep(locks: map<LockId, LockInfo>, ids: seq<LockId>, i: nat, tx: Tx, kind: LockType)
    requires i <= |ids|
    ensures Conflict(locks, ids[i..], tx, kind)
      == if i == |ids| then None
         else if ids[i] in locks && locks[ids[i]].tx != tx && !Compatible(locks[ids[i]].kind, kind)
         then Some(locks[ids[i]].tx)
         else Conflict(locks, ids[i + 1..], tx, kind)
  {
    if i < |ids| { assert ids[i..][0] == ids[i] && ids[i..][1..] == ids[i + 1..]; }
  }

  lemma {:induction false} FilterNothing(ids: seq<LockId>, gone: set<LockId>)
    requires forall id :: id in ids ==> id !in gone
    ensures FilterOut(ids, gone) == ids
    decreases ids
  {
    if ids != [] {
      assert ids[0] in ids && forall id :: id in ids[1..] ==> id in ids;
      FilterNothing(ids[1..], gone);
    }
  }

  lemma {:induction false} FilterTwice(ids: seq<LockId>, a: set<LockId>, b: set<LockId>)
    ensures FilterOut(FilterOut(ids, a), b) == FilterOut(ids, a + b)
    decreases ids
  {
    if ids != [] {
      FilterTwice(ids[1..], a, b);
      if ids[0] !in a {
        assert FilterOut(ids, a)[1..] == FilterOut(ids[1..], a);
      } else {
        assert FilterOut(ids, a) == FilterOut(ids[1..], a);
        assert FilterOut(ids, a + b) == FilterOut(ids[1..], a + b);
      }
    }
  }

  /** Releasing one lock touches only its own bucket and its own transaction. */
  lemma WithoutOne(s: LockState, id: LockId)
    requires TablesAgree(s) && id in s.locks
    ensures var info := s.locks[id];
      && info.key in s.keyLocks && info.tx in s.txLocks
      && Without(s, {id}) == s.(
           locks := s.locks - {id},
           keyLocks := var ids := FilterOut(s.keyLocks[info.key], {id});
             if ids == [] then s.keyLocks - {info.key} else s.keyLocks[info.key := ids],
           txLocks := var ids := s.txLocks[info.tx] - {id};
             if ids == {} then s.txLocks - {info.tx} else s.txLocks[info.tx := ids])
  {
    hide FilterOut, NoDuplicates, TablesAgree;
    OneBucketChanges(s, id);
    OneOwnerChanges(s, id);
  }

  lemma OneBucketChanges(s: LockState, id: LockId)
    requires TablesAgree(s) && id in s.locks
    ensures var key := s.locks[id].key;
      && key in s.keyLocks
      && var ids := FilterOut(s.keyLocks[key], {id});
      Without(s, {id}).keyLocks == if ids == [] then s.keyLocks - {key} else s.keyLocks[key := ids]
  {
    hide FilterOut, NoDuplicates;
    var key := s.locks[id].key;
    assert key in s.keyLocks;
    forall k | k in s.keyLocks && k != key
      ensures FilterOut(s.keyLocks[k], {id}) == s.keyLocks[k] && s.keyLocks[k] != []
    {
      FilterNothing(s.keyLocks[k], {id});
    }
  }

  lemma OneOwnerChanges(s: LockState, id: LockId)
    requires TablesAgree(s) && id in s.locks
    ensures var tx := s.locks[id].tx;
      && tx in s.txLocks
      && var ids := s.txLocks[tx] - {id};
      Without(s, {id}).txLocks == if ids == {} then s.txLocks - {tx} else s.txLocks[tx := ids]
  {
    hide FilterOut, NoDuplicates;
    var tx := s.locks[id].tx;
    assert tx in s.txLocks;
    forall t | t in s.txLocks && t != tx
      ensures s.txLocks[t] - {id} == s.txLocks[t] && s.txLocks[t] != {}
    {
      assert id !in s.txLocks[t];
    }
  }

  lemma WithoutNone(s: LockState)
    requires TablesAgree(s)
    ensures Without(s, {}) == s
  {
    hide FilterOut, NoDuplicates;
    forall key | key in s.keyLocks
      ensures FilterOut(s.keyLocks[key], {}) == s.keyLocks[key]
    {
      FilterNothing(s.keyLocks[key], {});
    }
    assert forall tx :: tx in s.txLocks ==> s.txLocks[tx] - {} == s.txLocks[tx];
  }

  lemma WithoutMore(s: LockState, gone: set<LockId>, id: LockId)
    ensures Without(Without(s, gone), {id}) == Without(s, gone + {id})
  {
    hide FilterOut;
    forall key | key in s.keyLocks
      ensures FilterOut(FilterOut(s.keyLocks[key], gone), {id}) == FilterOut(s.keyLocks[key], gone + {id})
    {
      FilterTwice(s.keyLocks[key], gone, {id});
    }
    FilterNothing([], gone + {id});
    FilterNothing([], {id});
    assert forall tx :: tx in s.txLocks ==> s.txLocks[tx] - gone - {id} == s.txLocks[tx] - (gone + {id});
  }

  lemma OwnedAreLocks(s: LockState, tx: Tx, gone: set<LockId>, id: LockId)
    requires TablesAgree(s) && tx in s.txLocks && id in s.txLocks[tx] && id !in gone
    ensures id in Without(s, gone).locks
  {
  }

  lemma WithoutWaits(s: LockState, gone: set<LockId>)
    ensures Without(s, gone).waits == s.waits
  {
  }

  lemma InvTables(s: LockState)
    requires Inv(s)
    ensures TablesAgree(s)
  {
  }

  lemma InvIsAcyclic(s: LockState)
    requires Inv(s)
    ensures Acyclic(s.waits)
  {
  }

  lemma LassoMeansCycle(g: Graph, p: seq<Tx>)
    requires IsLasso(g, p)
    ensures !Acyclic(g)
  {
    var k :| 0 <= k < |p| && p[k] in Succ(g, Last(p));
    assert IsCycle(g, p[k..]);
  }

  lemma NoCycleAnywhere(g: Graph)
    requires forall tx :: tx in g ==> !CycleReachable(g, tx)
    ensures Acyclic(g)
  {
    forall c
      ensures !IsCycle(g, c)
    {
      if IsCycle(g, c) {
        assert c[0] in Succ(g, Last(c)) && Last(c) in g;
        CycleThroughIsReachable(g, c, Last(c));
      }
    }
  }

  function Largest(s: seq<Tx>): (m: Tx)
    requires s != []
    ensures m in s && forall x :: x in s ==> x <= m
  {
    assert s == [s[0]] + s[1..];
    if |s| == 1 then s[0] else
      var m := Largest(s[1..]);
      if s[0] > m then s[0] else m
  }

  /** No lock on the key stands in the way of the kind, whoever asks. */
  ghost predicate Acquirable(s: LockState, key: Key, kind: LockType)
  {
    forall id :: id in s.locks && s.locks[id].key == key ==> Compatible(s.locks[id].kind, kind)
  }

  /** What `can_acquire_lock` promises: a transaction without a lock on the key is granted exactly then. */
  lemma AcquirableIsGranted(s: LockState, tx: Tx, key: Key, kind: LockType)
    requires Inv(s)
    ensures Acquirable(s, key, kind) ==> Acquire(s, tx, key, kind).1.Granted?
    ensures (forall id :: id in s.locks && s.locks[id].key == key ==> s.locks[id].tx != tx) ==>
      (Acquirable(s, key, kind) <==> Acquire(s, tx, key, kind).1.Granted?)
  {
    hide Compatible, AllCompatible, Acyclic, Conflict, Grant, NoDuplicates;
    NoConflict(s.locks, Bucket(s, key), tx, kind);
  }
}
