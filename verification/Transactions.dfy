/** `DefaultTransactionManager` (src/transaction/transaction_manager.cpp) as a state machine over its calls. */
module Transactions {
  import opened Bytes
  import opened Collections
  import opened Results
  import opened Keys
  import opened WaitGraph
  import opened LockManager
  import opened Serializability

  datatype Isolation = ReadUncommitted | ReadCommitted | RepeatableRead | SerializableLevel

  datatype TxState = Active | Prepared

  /** Times are milliseconds. */
  datatype Transaction = Transaction(
    state: TxState,
    isolation: Isolation,
    operations: seq<(Key, OpKind)>,
    heldLocks: set<LockId>,
    lastActivity: int,
    timeout: int,
    votes: map<Str, bool>)

  /** `history` records the operations, commits and aborts that took effect, in order. */
  datatype Manager = Manager(
    locks: LockState,
    txs: map<Tx, Transaction>,
    nextTx: Tx,
    defaultTimeout: int,
    history: seq<Event>)

  datatype Outcome =
    | Done
    | UnknownTransaction
    | Expired
    | NotActive
    | DeadlockDetected
    | MustWait(holder: Tx)
    | PrepareRefused

  function Fresh(timeout: int): Manager
  {
    Manager(NO_LOCKS, map[], 1, timeout, [])
  }

  // ---------------------------------------------------------------------------
  // Calls.

  predicate IsExpired(t: Transaction, now: int)
  {
    now - t.lastActivity > t.timeout
  }

  /** `validate_transaction` */
  function Validate(m: Manager, tx: Tx, now: int): Outcome
  {
    if tx !in m.txs then UnknownTransaction
    else if IsExpired(m.txs[tx], now) then Expired
    else Done
  }

  function Begin(m: Manager, isolation: Isolation, now: int): Manager
  {
    m.(txs := m.txs[m.nextTx := Transaction(Active, isolation, [], {}, now, m.defaultTimeout, map[])],
       nextTx := m.nextTx + 1)
  }

  function LockFor(op: OpKind): LockType
  {
    match op
    case ReadOp => Shared
    case WriteOp(_) => Exclusive
    case DeleteOp => Exclusive
    case LockOp(kind) => kind
  }

  /** Only a read at READ_UNCOMMITTED goes without a lock. */
  predicate TakesLock(op: OpKind, isolation: Isolation)
  {
    op.ReadOp? ==> isolation != ReadUncommitted
  }

  /** The operation is recorded in the transaction and in the history. */
  function Recorded(m: Manager, locks: LockState, tx: Tx, key: Key, op: OpKind, ids: set<LockId>, now: int): Manager
    requires tx in m.txs
  {
    var t := m.txs[tx];
    m.(locks := locks,
       txs := m.txs[tx := t.(
         operations := t.operations + [(key, op)], heldLocks := t.heldLocks + ids, lastActivity := now)],
       history := m.history + [OpEvent(tx, key, op, TakesLock(op, t.isolation))])
  }

  /** One attempt of `read`, `write`, `remove` or `lock`. */
  ghost function Access(m: Manager, tx: Tx, key: Key, op: OpKind, now: int): (Manager, Outcome)
  {
    if Validate(m, tx, now) != Done then (m, Validate(m, tx, now))
    else if !TakesLock(op, m.txs[tx].isolation) then (Recorded(m, m.locks, tx, key, op, {}, now), Done)
    else
      var (locks, attempt) := Acquire(m.locks, tx, key, LockFor(op));
      if attempt.Granted? then (Recorded(m, locks, tx, key, op, {attempt.id}, now), Done)
      else (m.(locks := locks), if attempt.Deadlock? then DeadlockDetected else MustWait(attempt.holder))
  }

  predicate AllVotesYes(t: Transaction)
  {
    forall node :: node in t.votes ==> t.votes[node]
  }

  /** `commit_transaction`; a refused prepare drops the transaction and leaves its locks behind. */
  function Commit(m: Manager, tx: Tx, now: int): (Manager, Outcome)
  {
    if Validate(m, tx, now) != Done then (m, Validate(m, tx, now))
    else if m.txs[tx].state != Active then (m, NotActive)
    else if !AllVotesYes(m.txs[tx]) then (m.(txs := m.txs - {tx}), PrepareRefused)
    else (m.(locks := ReleaseAll(m.locks, tx), txs := m.txs - {tx}, history := m.history + [CommitEvent(tx)]), Done)
  }

  function Abort(m: Manager, tx: Tx, now: int): (Manager, Outcome)
  {
    if Validate(m, tx, now) != Done then (m, Validate(m, tx, now))
    else (m.(locks := ReleaseAll(m.locks, tx), txs := m.txs - {tx}, history := m.history + [AbortEvent(tx)]), Done)
  }

  function Prepare(m: Manager, tx: Tx, now: int): (Manager, Outcome)
  {
    if Validate(m, tx, now) != Done then (m, Validate(m, tx, now))
    else if m.txs[tx].state != Active then (m, NotActive)
    else (m.(txs := m.txs[tx := m.txs[tx].(state := Prepared, lastActivity := now)]), Done)
  }

  /** A participant's answer to a prepare message. */
  function Vote(m: Manager, tx: Tx, node: Str, ok: bool): Manager
  {
    if tx !in m.txs then m
    else m.(txs := m.txs[tx := m.txs[tx].(votes := m.txs[tx].votes[node := ok])])
  }

  /** A waiting call runs into its deadline. */
  function GiveUp(m: Manager, tx: Tx, holder: Tx): Manager
  {
    m.(locks := TimeOut(m.locks, tx, holder))
  }

  // ---------------------------------------------------------------------------
  // Runs.

  datatype Call =
    | BeginCall(isolation: Isolation, now: int)
    | AccessCall(tx: Tx, key: Key, op: OpKind, now: int)
    | CommitCall(tx: Tx, now: int)
    | AbortCall(tx: Tx, now: int)
    | PrepareCall(tx: Tx, now: int)
    | VoteCall(tx: Tx, node: Str, ok: bool)
    | GiveUpCall(tx: Tx, holder: Tx)

  ghost function Step(m: Manager, call: Call): Manager
  {
    match call
    case BeginCall(isolation, now) => Begin(m, isolation, now)
    case AccessCall(tx, key, op, now) => Access(m, tx, key, op, now).0
    case CommitCall(tx, now) => Commit(m, tx, now).0
    case AbortCall(tx, now) => Abort(m, tx, now).0
    case PrepareCall(tx, now) => Prepare(m, tx, now).0
    case VoteCall(tx, node, ok) => Vote(m, tx, node, ok)
    case GiveUpCall(tx, holder) => GiveUp(m, tx, holder)
  }

  ghost function Run(m: Manager, calls: seq<Call>): Manager
  {
    if calls == [] then m else Step(Run(m, calls[..|calls| - 1]), calls[|calls| - 1])
  }

  // ---------------------------------------------------------------------------
  // The invariant.

  ghost predicate IdsKnown(m: Manager)
  {
    && (forall tx :: tx in m.txs ==> tx < m.nextTx)
    && (forall i :: 0 <= i < |m.history| ==> m.history[i].tx < m.nextTx)
    && (forall i :: 0 <= i < |m.history| && Finishes(m.history[i], m.history[i].tx) ==> m.history[i].tx !in m.txs)
  }

  ghost predicate Unfinished(h: seq<Event>, tx: Tx)
  {
    forall i :: 0 <= i < |h| ==> !Finishes(h[i], tx)
  }

  /** Every guarded operation of a transaction that has neither committed nor aborted still holds its lock. */
  ghost predicate LocksHeld(m: Manager)
  {
    forall i :: 0 <= i < |m.history|
                && m.history[i].OpEvent? && m.history[i].guarded && Unfinished(m.history, m.history[i].tx)
      ==> HoldsLock(m.locks, m.history[i].tx, m.history[i].key, LockFor(m.history[i].op))
  }

  ghost predicate Sound(m: Manager)
  {
    && Inv(m.locks)
    && IdsKnown(m)
    && LocksHeld(m)
    && Strict(m.history)
    && NothingAfterFinish(m.history)
    && ChangesGuarded(m.history)
  }

  /** One more event by a transaction that has not finished. */
  lemma AppendKeepsOrder(h: seq<Event>, e: Event)
    requires NothingAfterFinish(h) && ChangesGuarded(h)
    requires Unfinished(h, e.tx)
    requires e.OpEvent? && Mutates(e.op) ==> e.guarded
    ensures NothingAfterFinish(h + [e]) && ChangesGuarded(h + [e])
  {
    var g := h + [e];
    forall i, j | 0 <= i < j < |g| && Finishes(g[i], g[i].tx)
      ensures g[j].tx != g[i].tx
    {
      assert g[i] == h[i];
      if j < |h| { assert g[j] == h[j]; }
    }
  }

  lemma AppendKeepsStrict(h: seq<Event>, e: Event)
    requires Strict(h)
    requires forall i :: 0 <= i < |h| && Conflicting(h[i], e) ==> !Unfinished(h, h[i].tx)
    requires NothingAfterFinish(h)
    ensures Strict(h + [e])
  {
    hide Conflicting;
    var g := h + [e];
    forall i, j | 0 <= i < j < |g| && Conflicting(g[i], g[j])
      ensures FinishedBetween(g, g[i].tx, i, j)
    {
      assert g[i] == h[i];
      if j < |h| {
        assert g[j] == h[j];
        var m :| i < m < j && Finishes(h[m], h[i].tx);
        assert Finishes(g[m], g[i].tx);
      } else {
        var m :| 0 <= m < |h| && Finishes(h[m], h[i].tx);
        assert m != i by { ConflictingAreOps(g[i], g[j]); }
        assert m > i;
        assert Finishes(g[m], g[i].tx);
      }
    }
  }

  /** A live transaction has not finished. */
  lemma LiveIsUnfinished(m: Manager, tx: Tx)
    requires IdsKnown(m) && (tx in m.txs || tx == m.nextTx)
    ensures Unfinished(m.history, tx)
  {
  }

  /** A lock that conflicts with a held one is not granted. */
  lemma HeldLockBlocks(s: LockState, tx: Tx, key: Key, kind: LockType, other: Tx, held: LockType)
    requires Inv(s) && HoldsLock(s, other, key, held) && other != tx && !Compatible(held, kind)
    ensures !Acquire(s, tx, key, kind).1.Granted?
  {
    hide Compatible, AllCompatible, Acyclic, NoDuplicates, Grant, Conflict;
    var id :| id in s.locks && s.locks[id] == LockInfo(held, other, key);
    assert id in Bucket(s, key);
    hide Inv, Bucket;
    NoConflict(s.locks, Bucket(s, key), tx, kind);
  }

  /** An operation that got its lock conflicts only with operations of finished transactions. */
  lemma GrantedMeetsNoConflict(m: Manager, tx: Tx, key: Key, op: OpKind, i: nat)
    requires Inv(m.locks) && LocksHeld(m) && i < |m.history|
    requires Acquire(m.locks, tx, key, LockFor(op)).1.Granted?
    requires Conflicting(m.history[i], OpEvent(tx, key, op, true))
    ensures !Unfinished(m.history, m.history[i].tx)
  {
    hide Inv, Acquire, HoldsLock;
    var e := m.history[i];
    if Unfinished(m.history, e.tx) {
      HeldLockBlocks(m.locks, tx, key, LockFor(op), e.tx, LockFor(e.op));
    }
  }

  lemma ReleaseKeepsOthers(s: LockState, tx: Tx, other: Tx, key: Key, kind: LockType)
    requires Inv(s) && HoldsLock(s, other, key, kind) && other != tx
    ensures HoldsLock(ReleaseAll(s, tx), other, key, kind)
  {
    hide Inv, ReleaseAll;
    ReleaseAllIsExact(s, tx);
    var id :| id in s.locks && s.locks[id] == LockInfo(kind, other, key);
    assert id in ReleaseAll(s, tx).locks;
  }

  /** An operation event keeps the locks of all unfinished operations, its own included. */
  lemma OpKeepsLocksHeld(m: Manager, n: Manager, e: Event)
    requires LocksHeld(m) && n.history == m.history + [e] && e.OpEvent?
    requires forall x, k, l :: HoldsLock(m.locks, x, k, l) ==> HoldsLock(n.locks, x, k, l)
    requires e.guarded ==> HoldsLock(n.locks, e.tx, e.key, LockFor(e.op))
    ensures LocksHeld(n)
  {
    hide HoldsLock;
    forall i | 0 <= i < |n.history| && n.history[i].OpEvent? && n.history[i].guarded
               && Unfinished(n.history, n.history[i].tx)
      ensures HoldsLock(n.locks, n.history[i].tx, n.history[i].key, LockFor(n.history[i].op))
    {
      if i < |m.history| {
        assert n.history[i] == m.history[i];
        assert forall j :: 0 <= j < |m.history| ==> n.history[j] == m.history[j];
      }
    }
  }

  lemma SameHistoryKeepsLocksHeld(m: Manager, n: Manager)
    requires LocksHeld(m) && n.history == m.history
    requires forall x, k, l :: HoldsLock(m.locks, x, k, l) ==> HoldsLock(n.locks, x, k, l)
    ensures LocksHeld(n)
  {
    hide HoldsLock;
  }

  lemma AccessKeepsSound(m: Manager, tx: Tx, key: Key, op: OpKind, now: int)
    requires Sound(m)
    ensures Sound(Access(m, tx, key, op, now).0)
  {
    hide Inv, Acquire, HoldsLock, LocksHeld, Strict, NothingAfterFinish, ChangesGuarded, Conflicting, Unfinished;
    var n := Access(m, tx, key, op, now).0;
    AcquireKeepsInv(m.locks, tx, key, LockFor(op));
    GrantAdds(m.locks, tx, key, LockFor(op));
    if n.history == m.history {
      SameHistoryKeepsLocksHeld(m, n);
    } else {
      var e := OpEvent(tx, key, op, TakesLock(op, m.txs[tx].isolation));
      assert n.history == m.history + [e];
      LiveIsUnfinished(m, tx);
      AppendKeepsOrder(m.history, e);
      forall i | 0 <= i < |m.history| && Conflicting(m.history[i], e)
        ensures !Unfinished(m.history, m.history[i].tx)
      {
        assert e.guarded by { ConflictIsGuarded(m.history[i], e); }
        GrantedMeetsNoConflict(m, tx, key, op, i);
      }
      AppendKeepsStrict(m.history, e);
      OpKeepsLocksHeld(m, n, e);
    }
  }

  lemma ConflictIsGuarded(a: Event, b: Event)
    requires Conflicting(a, b)
    ensures a.guarded && b.guarded
  {
  }

  lemma FinishKeepsSound(m: Manager, n: Manager, e: Event)
    requires Sound(m) && e.tx in m.txs && Finishes(e, e.tx)
    requires n == m.(locks := ReleaseAll(m.locks, e.tx), txs := m.txs - {e.tx}, history := m.history + [e])
    ensures Sound(n)
  {
    hide Inv, ReleaseAll, HoldsLock, Strict, NothingAfterFinish, ChangesGuarded, Conflicting;
    ReleaseAllKeepsInv(m.locks, e.tx);
    LiveIsUnfinished(m, e.tx);
    AppendKeepsOrder(m.history, e);
    FinishConflictsWithNothing(m.history, e);
    AppendKeepsStrict(m.history, e);
    forall i | 0 <= i < |n.history| && n.history[i].OpEvent? && n.history[i].guarded
               && Unfinished(n.history, n.history[i].tx)
      ensures HoldsLock(n.locks, n.history[i].tx, n.history[i].key, LockFor(n.history[i].op))
    {
      assert n.history[|m.history|] == e;
      assert n.history[i] == m.history[i] && n.history[i].tx != e.tx;
      assert forall j :: 0 <= j < |m.history| ==> n.history[j] == m.history[j];
      ReleaseKeepsOthers(m.locks, e.tx, m.history[i].tx, m.history[i].key, LockFor(m.history[i].op));
    }
  }

  lemma FinishConflictsWithNothing(h: seq<Event>, e: Event)
    requires Finishes(e, e.tx)
    ensures forall i :: 0 <= i < |h| ==> !Conflicting(h[i], e)
  {
  }

  lemma BookkeepingKeepsSound(m: Manager, n: Manager)
    requires Sound(m) && n.locks == m.locks && n.history == m.history
    requires m.nextTx <= n.nextTx && forall tx :: tx in n.txs ==> tx in m.txs || m.nextTx <= tx < n.nextTx
    ensures Sound(n)
  {
    hide Inv, HoldsLock, Strict, NothingAfterFinish, ChangesGuarded;
  }

  lemma GiveUpKeepsSound(m: Manager, tx: Tx, holder: Tx)
    requires Sound(m)
    ensures Sound(GiveUp(m, tx, holder))
  {
    hide Inv, Strict, NothingAfterFinish, ChangesGuarded, LocksHeld;
    TimeOutKeepsInv(m.locks, tx, holder);
    SameHistoryKeepsLocksHeld(m, GiveUp(m, tx, holder));
  }

  lemma {:induction false} StepKeepsSound(m: Manager, call: Call)
    requires Sound(m)
    ensures Sound(Step(m, call))
  {
    hide Sound, Access, ReleaseAll;
    match call
    case BeginCall(isolation, now) => BookkeepingKeepsSound(m, Begin(m, isolation, now));
    case AccessCall(tx, key, op, now) => AccessKeepsSound(m, tx, key, op, now);
    case CommitCall(tx, now) =>
      var n := Commit(m, tx, now).0;
      if n.history == m.history { BookkeepingKeepsSound(m, n); } else { FinishKeepsSound(m, n, CommitEvent(tx)); }
    case AbortCall(tx, now) =>
      var n := Abort(m, tx, now).0;
      if n.history == m.history { BookkeepingKeepsSound(m, n); } else { FinishKeepsSound(m, n, AbortEvent(tx)); }
    case PrepareCall(tx, now) => BookkeepingKeepsSound(m, Prepare(m, tx, now).0);
    case VoteCall(tx, node, ok) => BookkeepingKeepsSound(m, Vote(m, tx, node, ok));
    case GiveUpCall(tx, holder) => GiveUpKeepsSound(m, tx, holder);
  }

  lemma FreshIsSound(timeout: int)
    ensures Sound(Fresh(timeout))
  {
    hide Inv;
    EmptyTables();
  }

  lemma {:induction false} RunIsSound(timeout: int, calls: seq<Call>)
    ensures Sound(Run(Fresh(timeout), calls))
    decreases calls
  {
    hide Sound, Step;
    if calls == [] {
      FreshIsSound(timeout);
    } else {
      RunIsSound(timeout, calls[..|calls| - 1]);
      StepKeepsSound(Run(Fresh(timeout), calls[..|calls| - 1]), calls[|calls| - 1]);
    }
  }

  /**
   * Strict two-phase locking gives conflict serializability. In every run of begins, reads, writes, removes, locks,
   * prepares, votes, commits, aborts and lock time-outs by any number of transactions, the interleaved operations of
   * the committed transactions leave the same store, and show every read above READ_UNCOMMITTED the same value, as the
   * committed transactions run one after another in the order of their commits.
   */
  lemma RunsAreSerializable(timeout: int, calls: seq<Call>, store: map<Key, Str>)
    ensures var h := Run(Fresh(timeout), calls).history;
      Exec(Db(store, map[]), CommittedActs(h)) == Exec(Db(store, map[]), SerialActs(h))
  {
    hide Run, Exec, CommittedActs, SerialActs, Strict, NothingAfterFinish, ChangesGuarded, LocksHeld, IdsKnown, Inv;
    RunIsSound(timeout, calls);
    CommitOrderIsSerialOrder(Run(Fresh(timeout), calls).history, store);
  }

  /** No dirty access: a conflicting operation waits for the end, commit or abort, of the earlier one's transaction. */
  lemma RunsAreStrict(timeout: int, calls: seq<Call>, i: nat, j: nat)
    requires var h := Run(Fresh(timeout), calls).history;
      i < j < |h| && Conflicting(h[i], h[j])
    ensures var h := Run(Fresh(timeout), calls).history;
      exists m :: i < m < j && Finishes(h[m], h[i].tx)
  {
    hide Run, Conflicting, NothingAfterFinish, ChangesGuarded, LocksHeld, IdsKnown, Inv;
    RunIsSound(timeout, calls);
  }

  // ---------------------------------------------------------------------------
  // Transactions nobody can end any more.

  /** From time `t` on every call for the transaction is refused: it was dropped, or it has expired. */
  predicate Gone(m: Manager, tx: Tx, t: int)
  {
    tx < m.nextTx && (tx !in m.txs || IsExpired(m.txs[tx], t))
  }

  predicate NotBefore(call: Call, t: int)
  {
    match call
    case BeginCall(_, now) => now >= t
    case AccessCall(_, _, _, now) => now >= t
    case CommitCall(_, now) => now >= t
    case AbortCall(_, now) => now >= t
    case PrepareCall(_, now) => now >= t
    case VoteCall(_, _, _) => true
    case GiveUpCall(_, _) => true
  }

  lemma GoneStepKeepsLocks(m: Manager, call: Call, tx: Tx, t: int, key: Key, kind: LockType)
    requires Inv(m.locks) && Gone(m, tx, t) && NotBefore(call, t) && HoldsLock(m.locks, tx, key, kind)
    ensures Gone(Step(m, call), tx, t) && HoldsLock(Step(m, call).locks, tx, key, kind)
  {
    hide Inv, Acquire, ReleaseAll, TimeOut, HoldsLock;
    match call
    case BeginCall(_, _) =>
    case AccessCall(x, k, op, now) => GrantAdds(m.locks, x, k, LockFor(op));
    case CommitCall(x, now) =>
      if Commit(m, x, now).1 == Done { ReleaseKeepsOthers(m.locks, x, tx, key, kind); }
    case AbortCall(x, now) =>
      if Abort(m, x, now).1 == Done { ReleaseKeepsOthers(m.locks, x, tx, key, kind); }
    case PrepareCall(_, _) =>
    case VoteCall(_, _, _) =>
    case GiveUpCall(x, holder) => TimeOutKeepsLocks(m.locks, x, holder, tx, key, kind);
  }

  lemma TimeOutKeepsLocks(s: LockState, x: Tx, holder: Tx, tx: Tx, key: Key, kind: LockType)
    requires HoldsLock(s, tx, key, kind)
    ensures HoldsLock(TimeOut(s, x, holder), tx, key, kind)
  {
  }

  lemma {:induction false} GoneRunKeepsLocks(m: Manager, calls: seq<Call>, tx: Tx, t: int, key: Key, kind: LockType)
    requires Sound(m) && Gone(m, tx, t) && HoldsLock(m.locks, tx, key, kind)
    requires forall i :: 0 <= i < |calls| ==> NotBefore(calls[i], t)
    ensures Sound(Run(m, calls)) && Gone(Run(m, calls), tx, t) && HoldsLock(Run(m, calls).locks, tx, key, kind)
    decreases calls
  {
    hide Sound, Step, Gone, HoldsLock, NotBefore;
    if calls != [] {
      var before := calls[..|calls| - 1];
      GoneRunKeepsLocks(m, before, tx, t, key, kind);
      SoundLocks(Run(m, before));
      StepKeepsSound(Run(m, before), calls[|calls| - 1]);
      GoneStepKeepsLocks(Run(m, before), calls[|calls| - 1], tx, t, key, kind);
    }
  }

  lemma SoundLocks(m: Manager)
    requires Sound(m)
    ensures Inv(m.locks)
  {
  }

  /**
   * A held lock can still be released by some later calls exactly when its transaction is registered and has not
   * expired. An expired transaction is never cleaned up, because `abort_transaction` refuses it, and one dropped by a
   * refused prepare is no longer known, so their locks stay for good.
   */
  lemma {:induction false} LocksReleasableIffAlive(m: Manager, tx: Tx, t: int, key: Key, kind: LockType)
    requires Sound(m) && tx < m.nextTx && HoldsLock(m.locks, tx, key, kind)
    ensures tx in m.txs && t - m.txs[tx].lastActivity <= m.txs[tx].timeout
       <==> exists calls :: (forall i :: 0 <= i < |calls| ==> NotBefore(calls[i], t))
                            && !HoldsLock(Run(m, calls).locks, tx, key, kind)
  {
    hide Inv, LocksHeld, Strict, NothingAfterFinish, ChangesGuarded, IdsKnown;
    if Gone(m, tx, t) {
      forall calls | forall i :: 0 <= i < |calls| ==> NotBefore(calls[i], t)
        ensures HoldsLock(Run(m, calls).locks, tx, key, kind)
      {
        GoneRunKeepsLocks(m, calls, tx, t, key, kind);
      }
    } else {
      var call := AbortCall(tx, t);
      AbortReleases(m, tx, t, key, kind);
      assert [call][..0] == [] && Run(m, [call]) == Step(m, call);
      assert forall i :: 0 <= i < |[call]| ==> NotBefore([call][i], t);
    }
  }

  lemma AbortReleases(m: Manager, tx: Tx, t: int, key: Key, kind: LockType)
    requires Inv(m.locks) && tx in m.txs && !IsExpired(m.txs[tx], t)
    ensures !HoldsLock(Step(m, AbortCall(tx, t)).locks, tx, key, kind)
  {
    hide Inv, ReleaseAll;
    ReleaseAllIsExact(m.locks, tx);
  }

  /** While such a lock is exclusive, nothing on the key ever succeeds for another transaction but unlocked reads. */
  lemma {:induction false} GoneWriterBlocksKey(
      m: Manager, calls: seq<Call>, tx: Tx, t: int, key: Key, other: Tx, op: OpKind, now: int)
    requires Sound(m) && Gone(m, tx, t) && HoldsLock(m.locks, tx, key, Exclusive) && other != tx
    requires forall i :: 0 <= i < |calls| ==> NotBefore(calls[i], t)
    requires other in Run(m, calls).txs
    requires op.ReadOp? ==> Run(m, calls).txs[other].isolation != ReadUncommitted
    ensures Access(Run(m, calls), other, key, op, now).1 != Done
  {
    hide Run, Acquire, HoldsLock, Inv, Gone, LocksHeld, IdsKnown;
    GoneRunKeepsLocks(m, calls, tx, t, key, Exclusive);
    HeldLockBlocks(Run(m, calls).locks, other, key, LockFor(op), tx, Exclusive);
  }

  // ---------------------------------------------------------------------------
  // READ_UNCOMMITTED.

  /** The history as it would read if every operation had taken its lock. */
  function AllGuarded(h: seq<Event>): (r: seq<Event>)
    ensures |r| == |h|
  {
    if h == [] then [] else
      var e := h[|h| - 1];
      AllGuarded(h[..|h| - 1]) + [if e.OpEvent? then e.(guarded := true) else e]
  }

  /** Two reads by transaction 1 at READ_UNCOMMITTED around a committed write by transaction 2. */
  function UncommittedCalls(key: Key, value: Str): seq<Call>
  {
    [BeginCall(ReadUncommitted, 0), BeginCall(ReadCommitted, 0), AccessCall(1, key, ReadOp, 0),
     AccessCall(2, key, WriteOp(value), 0), CommitCall(2, 0), AccessCall(1, key, ReadOp, 0), CommitCall(1, 0)]
  }

  function UncommittedHistory(key: Key, value: Str): seq<Event>
  {
    [OpEvent(1, key, ReadOp, false), OpEvent(2, key, WriteOp(value), true), CommitEvent(2),
     OpEvent(1, key, ReadOp, false), CommitEvent(1)]
  }

  lemma RunStep(m: Manager, calls: seq<Call>, n: nat)
    requires n < |calls|
    ensures Run(m, calls[..n + 1]) == Step(Run(m, calls[..n]), calls[n])
  {
    assert calls[..n + 1][..n] == calls[..n];
  }

  lemma UncommittedRun(timeout: nat, key: Key, value: Str)
    ensures Run(Fresh(timeout), UncommittedCalls(key, value)).history == UncommittedHistory(key, value)
  {
    hide Run, Step;
    var m, c := Fresh(timeout), UncommittedCalls(key, value);
    assert c[..0] == [] && Run(m, c[..0]) == m by { EmptyRun(m); }
    RunStep(m, c, 0); RunStep(m, c, 1); RunStep(m, c, 2); RunStep(m, c, 3);
    RunStep(m, c, 4); RunStep(m, c, 5); RunStep(m, c, 6);
    assert c[..7] == c;
    TwoBegin(timeout);
    var m2 := Run(m, c[..2]);
    ReadUnlocked(m2, key);
    var m3 := Run(m, c[..3]);
    WriteAlone(m3, key, value);
    var m4 := Run(m, c[..4]);
    Commits(m4, 2);
    var m5 := Run(m, c[..5]);
    ReadUnlocked(m5, key);
    Commits(Run(m, c[..6]), 1);
  }

  /** Begun at time 0, with no votes against it. */
  predicate CanRun(m: Manager, tx: Tx, isolation: Isolation)
  {
    tx in m.txs && m.txs[tx].state == Active && m.txs[tx].isolation == isolation && m.txs[tx].votes == map[] &&
    m.txs[tx].lastActivity == 0 && m.txs[tx].timeout >= 0
  }

  lemma TwoBegin(timeout: nat)
    ensures var m := Step(Step(Fresh(timeout), BeginCall(ReadUncommitted, 0)), BeginCall(ReadCommitted, 0));
      CanRun(m, 1, ReadUncommitted) && CanRun(m, 2, ReadCommitted) && m.history == [] && m.locks == NO_LOCKS
  {
  }

  lemma ReadUnlocked(m: Manager, key: Key)
    requires CanRun(m, 1, ReadUncommitted)
    ensures var n := Step(m, AccessCall(1, key, ReadOp, 0));
      && CanRun(n, 1, ReadUncommitted) && (CanRun(m, 2, ReadCommitted) ==> CanRun(n, 2, ReadCommitted))
      && n.history == m.history + [OpEvent(1, key, ReadOp, false)] && n.locks == m.locks
  {
    hide Acquire;
  }

  lemma WriteAlone(m: Manager, key: Key, value: Str)
    requires CanRun(m, 1, ReadUncommitted) && CanRun(m, 2, ReadCommitted) && m.locks == NO_LOCKS
    ensures var n := Step(m, AccessCall(2, key, WriteOp(value), 0));
      && CanRun(n, 1, ReadUncommitted) && CanRun(n, 2, ReadCommitted)
      && n.history == m.history + [OpEvent(2, key, WriteOp(value), true)]
  {
    hide CycleReachable, WithEdge, Grant;
    assert Conflict(NO_LOCKS.locks, Bucket(NO_LOCKS, key), 2, Exclusive) == None;
  }

  lemma Commits(m: Manager, tx: Tx)
    requires exists isolation :: CanRun(m, tx, isolation)
    ensures var n := Step(m, CommitCall(tx, 0));
      && n.history == m.history + [CommitEvent(tx)]
      && (forall other, isolation :: other != tx && CanRun(m, other, isolation) ==> CanRun(n, other, isolation))
  {
    hide ReleaseAll;
  }

  lemma EmptyRun(m: Manager)
    ensures Run(m, []) == m
  {
  }

  function Raised(e: Event): Event
  {
    if e.OpEvent? then e.(guarded := true) else e
  }

  lemma GuardedFive(a: Event, b: Event, c: Event, d: Event, e: Event)
    ensures AllGuarded([a, b, c, d, e]) == [Raised(a), Raised(b), Raised(c), Raised(d), Raised(e)]
  {
    hide AllGuarded, Raised;
    NoneGuarded();
    assert [] + [a] == [a] && [a] + [b] == [a, b] && [a, b] + [c] == [a, b, c];
    assert [a, b, c] + [d] == [a, b, c, d] && [a, b, c, d] + [e] == [a, b, c, d, e];
    GuardedLast([], a);
    GuardedLast([a], b);
    GuardedLast([a, b], c);
    GuardedLast([a, b, c], d);
    GuardedLast([a, b, c, d], e);
  }

  lemma NoneGuarded()
    ensures AllGuarded([]) == []
  {
  }

  lemma GuardedLast(h: seq<Event>, e: Event)
    ensures AllGuarded(h + [e]) == AllGuarded(h) + [Raised(e)]
  {
    assert (h + [e])[..|h|] == h;
  }

  lemma ActsFive(a: Event, b: Event, c: Event, d: Event, e: Event)
    requires a.OpEvent? && Touches(a.op) && b.OpEvent? && Touches(b.op) && d.OpEvent? && Touches(d.op)
    requires !c.OpEvent? && !e.OpEvent?
    ensures Acts([a, b, c, d, e]) == [Act(0, a), Act(1, b), Act(3, d)]
  {
    var h := [a, b, c, d, e];
    assert h[..4] == [a, b, c, d] && h[..4][..3] == [a, b, c] && [a, b, c][..2] == [a, b] && [a, b][..1] == [a];
    assert [a][..0] == [];
    assert Acts([a]) == [Act(0, a)];
    assert Acts([a, b]) == [Act(0, a), Act(1, b)];
    assert Acts([a, b, c]) == [Act(0, a), Act(1, b)];
    assert Acts([a, b, c, d]) == [Act(0, a), Act(1, b), Act(3, d)];
  }

  lemma SerialThree(a: Act, b: Act, c: Act)
    requires a.event.tx == 1 && b.event.tx == 2 && c.event.tx == 1
    ensures Serial([1, 2], [a, b, c]) == [a, c, b]
    ensures Serial([2, 1], [a, b, c]) == [b, a, c]
  {
    hide Of, Serial;
    var abc := [a, b, c];
    OfThree(a, b, c);
    SerialTwo(1, 2, abc);
    SerialTwo(2, 1, abc);
  }

  lemma SerialTwo(x: Tx, y: Tx, acts: seq<Act>)
    ensures Serial([x, y], acts) == Of(acts, x) + Of(acts, y)
  {
    hide Of;
    SerialCons([x, y], acts);
    SerialCons([y], acts);
    assert [x, y][1..] == [y] && [y][1..] == [];
    assert Serial([], acts) == [];
    assert Of(acts, y) + [] == Of(acts, y);
  }

  lemma OfThree(a: Act, b: Act, c: Act)
    requires a.event.tx == 1 && b.event.tx == 2 && c.event.tx == 1
    ensures Of([a, b, c], 1) == [a, c] && Of([a, b, c], 2) == [b]
  {
    hide Of, NotOf;
    assert [a, b, c][1..] == [b, c] && [b, c][1..] == [c] && [c][1..] == [];
    NothingOf(1);
    NothingOf(2);
    OfCons([c], 1);
    OfCons([b, c], 1);
    OfCons([a, b, c], 1);
    OfCons([c], 2);
    OfCons([b, c], 2);
    OfCons([a, b, c], 2);
  }

  lemma UncommittedActs(key: Key, value: Str)
    ensures Acts(AllGuarded(UncommittedHistory(key, value)))
      == [Act(0, OpEvent(1, key, ReadOp, true)), Act(1, OpEvent(2, key, WriteOp(value), true)),
          Act(3, OpEvent(1, key, ReadOp, true))]
  {
    hide Acts, AllGuarded;
    var h := UncommittedHistory(key, value);
    GuardedFive(h[0], h[1], h[2], h[3], h[4]);
    assert h == [h[0], h[1], h[2], h[3], h[4]];
    ActsFive(Raised(h[0]), Raised(h[1]), Raised(h[2]), Raised(h[3]), Raised(h[4]));
  }

  lemma ExecThree(db: Db, a: Act, b: Act, c: Act)
    ensures Exec(db, [a, b, c]) == Exec1(Exec1(Exec1(db, a), b), c)
  {
    hide Exec1;
    assert [a, b, c][1..] == [b, c] && [b, c][1..] == [c] && [c][1..] == [];
    assert Exec(Exec1(db, a), [b, c]) == Exec(Exec1(Exec1(db, a), b), [c]);
    assert Exec(Exec1(Exec1(db, a), b), [c]) == Exec(Exec1(Exec1(Exec1(db, a), b), c), []);
  }

  /**
   * Reads at READ_UNCOMMITTED fall outside the guarantee: this run's two reads of one key by one transaction, which
   * both commit, differ, and in neither serial order of its two transactions do they.
   */
  lemma UncommittedReadsAreNotSerializable(timeout: nat, key: Key, value: Str)
    ensures var h := Run(Fresh(timeout), UncommittedCalls(key, value)).history;
      var acts := Acts(AllGuarded(h));
      && Exec(Db(map[], map[]), acts) != Exec(Db(map[], map[]), Serial([1, 2], acts))
      && Exec(Db(map[], map[]), acts) != Exec(Db(map[], map[]), Serial([2, 1], acts))
  {
    hide Run, Acts, Serial, AllGuarded, Exec;
    UncommittedRun(timeout, key, value);
    UncommittedActs(key, value);
    var a := Act(0, OpEvent(1, key, ReadOp, true));
    var b := Act(1, OpEvent(2, key, WriteOp(value), true));
    var c := Act(3, OpEvent(1, key, ReadOp, true));
    var empty := Db(map[], map[]);
    SerialThree(a, b, c);
    ExecThree(empty, a, b, c);
    ExecThree(empty, a, c, b);
    ExecThree(empty, b, a, c);
    assert Exec(empty, [a, b, c]).seen[0] == None && Exec(empty, [a, b, c]).seen[3] == Some(value);
    assert Exec(empty, [a, c, b]).seen[3] == None;
    assert Exec(empty, [b, a, c]).seen[0] == Some(value);
  }

  // ---------------------------------------------------------------------------
  // The code.

  class DefaultTransactionManager {
    const lockManager: DefaultLockManager
    var transactions: map<Tx, Transaction>
    var nextTransactionId: Tx
    var isRunning: bool
    var defaultTimeout: int
    ghost var history: seq<Event>

    ghost function View(): Manager
      reads this, lockManager
    {
      Manager(lockManager.View(), transactions, nextTransactionId, defaultTimeout, history)
    }

    ghost predicate Valid()
      reads this, lockManager
    {
      Sound(View())
    }

    constructor ()
      ensures Valid() && View() == Fresh(30000) && !isRunning && fresh(lockManager)
    {
      lockManager := new DefaultLockManager();
      transactions, nextTransactionId, isRunning, defaultTimeout, history := map[], 1, false, 30000, [];
      new;
      FreshIsSound(30000);
    }

    /** Transactions that are open when the manager stops stay as they are. */
    method Start()
      modifies this`isRunning
      ensures isRunning && View() == old(View())
    {
      isRunning := true;
    }

    method Stop()
      modifies this`isRunning
      ensures !isRunning && View() == old(View())
    {
      isRunning := false;
    }

    method BeginTransaction(isolation: Isolation, now: int) returns (tx: Option<Tx>)
      requires Valid()
      modifies this
      ensures Valid()
      ensures if isRunning then tx == Some(old(nextTransactionId)) else tx == None
      ensures View() == if isRunning then Begin(old(View()), isolation, now) else old(View())
      ensures isRunning == old(isRunning)
    {
      hide Sound;
      if !isRunning { return None; }
      StepKeepsSound(View(), BeginCall(isolation, now));
      var id := nextTransactionId;
      nextTransactionId := nextTransactionId + 1;
      transactions := transactions[id := Transaction(Active, isolation, [], {}, now, defaultTimeout, map[])];
      return Some(id);
    }

    /** `validate_transaction` */
    method ValidateTransaction(tx: Tx, now: int) returns (r: Outcome)
      ensures r == Validate(View(), tx, now)
    {
      if tx !in transactions { return UnknownTransaction; }
      if IsExpired(transactions[tx], now) { return Expired; }
      return Done;
    }

    /** `read`, `write`, `remove` and `lock` differ in the lock they ask for and in the isolation test of `read`. */
    method AccessKey(tx: Tx, key: Key, op: OpKind, now: int) returns (r: Outcome)
      requires Valid()
      modifies this`transactions, this`history, lockManager
      ensures Valid()
      ensures (View(), r) == Access(old(View()), tx, key, op, now)
    {
      hide Sound, Acquire;
      StepKeepsSound(View(), AccessCall(tx, key, op, now));
      r := ValidateTransaction(tx, now);
      if r != Done { return; }
      var t := transactions[tx];
      if !op.ReadOp? || t.isolation != ReadUncommitted {
        SoundLocks(View());
        var attempt := lockManager.AcquireLock(tx, key, LockFor(op));
        if attempt.Deadlock? { return DeadlockDetected; }
        if attempt.Waiting? { return MustWait(attempt.holder); }
        t := t.(heldLocks := t.heldLocks + {attempt.id});
      } else {
        assert t.heldLocks + {} == t.heldLocks;
      }
      transactions := transactions[tx := t.(operations := t.operations + [(key, op)], lastActivity := now)];
      history := history + [OpEvent(tx, key, op, TakesLock(op, t.isolation))];
      return Done;
    }

    method CommitTransaction(tx: Tx, now: int) returns (r: Outcome)
      requires Valid()
      modifies this`transactions, this`history, lockManager
      ensures Valid()
      ensures (View(), r) == Commit(old(View()), tx, now)
    {
      hide Sound, ReleaseAll;
      StepKeepsSound(View(), CommitCall(tx, now));
      r := ValidateTransaction(tx, now);
      if r != Done { return; }
      var t := transactions[tx];
      if t.state != Active { return NotActive; }
      var allPrepared := true;
      var nodes := t.votes.Keys;
      while nodes != {}
        invariant nodes <= t.votes.Keys
        invariant allPrepared && forall node :: node in t.votes.Keys - nodes ==> t.votes[node]
        invariant View() == old(View())
        decreases nodes
      {
        var node :| node in nodes;
        if !t.votes[node] {
          allPrepared := false;
          transactions := transactions - {tx};
          return PrepareRefused;
        }
        nodes := nodes - {node};
      }
      SoundLocks(View());
      lockManager.ReleaseAllLocks(tx);
      transactions := transactions - {tx};
      history := history + [CommitEvent(tx)];
      return Done;
    }

    method AbortTransaction(tx: Tx, now: int) returns (r: Outcome)
      requires Valid()
      modifies this`transactions, this`history, lockManager
      ensures Valid()
      ensures (View(), r) == Abort(old(View()), tx, now)
    {
      hide Sound, ReleaseAll;
      StepKeepsSound(View(), AbortCall(tx, now));
      r := ValidateTransaction(tx, now);
      if r != Done { return; }
      SoundLocks(View());
      lockManager.ReleaseAllLocks(tx);
      transactions := transactions - {tx};
      history := history + [AbortEvent(tx)];
    }

    method PrepareTransaction(tx: Tx, now: int) returns (r: Outcome)
      requires Valid()
      modifies this`transactions
      ensures Valid()
      ensures (View(), r) == Prepare(old(View()), tx, now)
    {
      hide Sound;
      StepKeepsSound(View(), PrepareCall(tx, now));
      r := ValidateTransaction(tx, now);
      if r != Done { return; }
      if transactions[tx].state != Active { return NotActive; }
      transactions := transactions[tx := transactions[tx].(state := Prepared, lastActivity := now)];
    }

    /** `handle_prepare_response` */
    method HandlePrepareResponse(tx: Tx, node: Str, ok: bool)
      requires Valid()
      modifies this`transactions
      ensures Valid()
      ensures View() == Vote(old(View()), tx, node, ok)
    {
      hide Sound;
      StepKeepsSound(View(), VoteCall(tx, node, ok));
      if tx in transactions {
        transactions := transactions[tx := transactions[tx].(votes := transactions[tx].votes[node := ok])];
      }
    }

    /** Expired transactions are collected and then refused by `abort_transaction`: nothing is cleaned up. */
    method CleanupExpiredTransactions(now: int)
      requires Valid()
      modifies this`transactions, this`history, lockManager
      ensures Valid() && View() == old(View())
    {
      hide Sound;
      var expired: set<Tx> := {};
      var left := transactions.Keys;
      while left != {}
        invariant left <= transactions.Keys && View() == old(View())
        invariant forall tx :: tx in expired ==> tx in transactions && IsExpired(transactions[tx], now)
        decreases left
      {
        var tx :| tx in left;
        if IsExpired(transactions[tx], now) { expired := expired + {tx}; }
        left := left - {tx};
      }
      while expired != {}
        invariant View() == old(View())
        invariant forall tx :: tx in expired ==> tx in transactions && IsExpired(transactions[tx], now)
        decreases expired
      {
        var tx :| tx in expired;
        var r := AbortTransaction(tx, now);
        expired := expired - {tx};
      }
    }

    /** The background detection pass never aborts anyone: the wait-for graph of a sound manager has no cycle. */
    method DeadlockDetectionPass()
      requires Valid()
      modifies lockManager
      ensures Valid() && View() == old(View())
    {
      hide Sound;
      SoundLocks(View());
      lockManager.DetectionPass();
    }
  }
}
