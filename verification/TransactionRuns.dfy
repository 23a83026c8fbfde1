/** What a run of calls to the manager makes of each transaction (src/transaction/transaction_manager.cpp). */
module TransactionRuns {
  import opened Bytes
  import opened Results
  import opened Keys
  import opened WaitGraph
  import opened LockManager
  import opened Serializability
  import T = Transactions
  import opened Transactions

  // ---------------------------------------------------------------------------
  // Isolation levels.

  /** The levels of the transactions begun, in the order of their ids. */
  function Levels(calls: seq<Call>): seq<Isolation>
  {
    if calls == [] then [] else
      var last := calls[|calls| - 1];
      Levels(calls[..|calls| - 1]) + if last.BeginCall? then [last.isolation] else []
  }

  function LevelOf(calls: seq<Call>, tx: Tx): Option<Isolation>
  {
    if 0 < tx <= |Levels(calls)| then Some(Levels(calls)[tx - 1]) else None
  }

  /** The operation of a transaction begun at that level takes a lock. */
  predicate Locking(levels: seq<Isolation>, tx: Tx, op: OpKind)
  {
    0 < tx <= |levels| && (op.ReadOp? ==> levels[tx - 1] != ReadUncommitted)
  }

  predicate EventAgrees(e: Event, levels: seq<Isolation>)
  {
    e.OpEvent? ==> 0 < e.tx <= |levels| && e.guarded == Locking(levels, e.tx, e.op)
  }

  ghost predicate LevelsAgree(m: Manager, levels: seq<Isolation>)
  {
    && m.nextTx == |levels| + 1
    && (forall tx :: tx in m.txs ==> 0 < tx <= |levels| && m.txs[tx].isolation == levels[tx - 1])
    && (forall e :: e in m.history ==> EventAgrees(e, levels))
  }

  lemma StepKeepsLevels(m: Manager, call: Call, levels: seq<Isolation>)
    requires LevelsAgree(m, levels)
    ensures LevelsAgree(T.Step(m, call), levels + if call.BeginCall? then [call.isolation] else [])
  {
    hide T.Step, Locking, EventAgrees;
    StepOnLevels(m, call);
    var n, after := T.Step(m, call), levels + if call.BeginCall? then [call.isolation] else [];
    assert forall i :: 0 <= i < |levels| ==> after[i] == levels[i];
    forall e | e in n.history
      ensures EventAgrees(e, after)
    {
      if e in m.history { LaterLevels(e, levels, after); } else { NewEvent(m, e, after); }
    }
  }

  lemma LaterLevels(e: Event, levels: seq<Isolation>, after: seq<Isolation>)
    requires levels <= after && EventAgrees(e, levels)
    ensures EventAgrees(e, after)
  {
  }

  lemma NewEvent(m: Manager, e: Event, levels: seq<Isolation>)
    requires e.OpEvent? ==>
      e.tx in m.txs && 0 < e.tx <= |levels| && m.txs[e.tx].isolation == levels[e.tx - 1]
      && e.guarded == (e.op.ReadOp? ==> m.txs[e.tx].isolation != ReadUncommitted)
    ensures EventAgrees(e, levels)
  {
  }

  /** One call as the levels and the history show it. */
  lemma StepOnLevels(m: Manager, call: Call)
    ensures var n := T.Step(m, call);
      && n.nextTx == m.nextTx + (if call.BeginCall? then 1 else 0)
      && (forall tx :: tx in n.txs ==>
        if call.BeginCall? && tx == m.nextTx then n.txs[tx].isolation == call.isolation
        else tx in m.txs && n.txs[tx].isolation == m.txs[tx].isolation)
      && (forall e :: e in n.history && e !in m.history && e.OpEvent? ==>
        e.tx in m.txs && e.guarded == (e.op.ReadOp? ==> m.txs[e.tx].isolation != ReadUncommitted))
  {
    hide Acquire, ReleaseAll, TimeOut;
  }

  lemma {:induction false} LevelsOverRuns(timeout: int, calls: seq<Call>)
    ensures LevelsAgree(T.Run(Fresh(timeout), calls), Levels(calls))
    decreases calls
  {
    hide T.Step, LevelsAgree;
    if calls == [] {
      NoLevels(timeout);
    } else {
      var before := calls[..|calls| - 1];
      LevelsOverRuns(timeout, before);
      StepKeepsLevels(T.Run(Fresh(timeout), before), calls[|calls| - 1], Levels(before));
    }
  }

  lemma NoLevels(timeout: int)
    ensures LevelsAgree(Fresh(timeout), [])
  {
  }

  /** Reads and changes of one key by different transactions, not both reads, and no read at READ_UNCOMMITTED. */
  ghost predicate Clash(calls: seq<Call>, a: Event, b: Event)
  {
    && a.OpEvent? && b.OpEvent? && a.tx != b.tx && a.key == b.key && !a.op.LockOp? && !b.op.LockOp?
    && !(a.op.ReadOp? && b.op.ReadOp?)
    && (a.op.ReadOp? ==> LevelOf(calls, a.tx) != Some(ReadUncommitted))
    && (b.op.ReadOp? ==> LevelOf(calls, b.tx) != Some(ReadUncommitted))
  }

  /** The later of two clashing operations comes after the earlier one's transaction has committed or aborted. */
  lemma ClashesWait(timeout: int, calls: seq<Call>, i: nat, j: nat)
    requires var h := T.Run(Fresh(timeout), calls).history;
      i < j < |h| && Clash(calls, h[i], h[j])
    ensures var h := T.Run(Fresh(timeout), calls).history;
      exists m :: i < m < j && (h[m] == CommitEvent(h[i].tx) || h[m] == AbortEvent(h[i].tx))
  {
    hide T.Run, Levels, Clash, EventAgrees, Conflicting;
    LevelsOverRuns(timeout, calls);
    var h := T.Run(Fresh(timeout), calls).history;
    assert h[i] in h && h[j] in h;
    ClashIsConflict(calls, h[i], h[j]);
    RunsAreStrict(timeout, calls, i, j);
  }

  lemma ClashIsConflict(calls: seq<Call>, a: Event, b: Event)
    requires EventAgrees(a, Levels(calls)) && EventAgrees(b, Levels(calls)) && Clash(calls, a, b)
    ensures Conflicting(a, b)
  {
    hide Levels;
  }

  /** No dirty reads above READ_UNCOMMITTED. */
  lemma NoDirtyRead(timeout: int, calls: seq<Call>, i: nat, j: nat)
    requires var h := T.Run(Fresh(timeout), calls).history;
      && i < j < |h| && h[i].OpEvent? && (h[i].op.WriteOp? || h[i].op.DeleteOp?) && h[j].OpEvent? && h[j].op.ReadOp?
      && h[i].key == h[j].key && h[i].tx != h[j].tx && LevelOf(calls, h[j].tx) != Some(ReadUncommitted)
    ensures var h := T.Run(Fresh(timeout), calls).history;
      exists m :: i < m < j && (h[m] == CommitEvent(h[i].tx) || h[m] == AbortEvent(h[i].tx))
  {
    hide T.Run, Levels;
    ClashesWait(timeout, calls, i, j);
  }

  /** READ_COMMITTED is already repeatable: between two reads of a key nobody else changes it. */
  lemma ReadsRepeat(timeout: int, calls: seq<Call>, i: nat, k: nat, j: nat)
    requires var h := T.Run(Fresh(timeout), calls).history;
      && i < k < j < |h| && h[i].OpEvent? && h[i].op.ReadOp? && h[j].OpEvent? && h[j].tx == h[i].tx
      && LevelOf(calls, h[i].tx) != Some(ReadUncommitted)
    ensures var h := T.Run(Fresh(timeout), calls).history;
      h[k].OpEvent? && (h[k].op.WriteOp? || h[k].op.DeleteOp?) && h[k].key == h[i].key ==> h[k].tx == h[i].tx
  {
    hide T.Run, Levels, Strict, ChangesGuarded, LocksHeld, IdsKnown, Inv, Clash;
    var h := T.Run(Fresh(timeout), calls).history;
    RunIsSound(timeout, calls);
    forall m | i < m < j
      ensures h[m] != CommitEvent(h[i].tx) && h[m] != AbortEvent(h[i].tx)
    {
      if Finishes(h[m], h[m].tx) { assert h[j].tx != h[m].tx; }
    }
    if h[k].OpEvent? && (h[k].op.WriteOp? || h[k].op.DeleteOp?) && h[k].key == h[i].key && h[k].tx != h[i].tx {
      UnfoldClash(calls, h[i], h[k]);
      ClashesWait(timeout, calls, i, k);
    }
  }

  lemma UnfoldClash(calls: seq<Call>, a: Event, b: Event)
    requires a.OpEvent? && a.op.ReadOp? && b.OpEvent? && (b.op.WriteOp? || b.op.DeleteOp?)
    requires a.key == b.key && a.tx != b.tx && LevelOf(calls, a.tx) != Some(ReadUncommitted)
    ensures Clash(calls, a, b)
  {
  }

  /**
   * When an attempt succeeds: the transaction is known and was active lately, and it reads at READ_UNCOMMITTED or the
   * lock for its operation goes together with all locks that others hold on the key.
   */
  lemma AccessDoneIff(m: Manager, tx: Tx, key: Key, op: OpKind, now: int)
    requires Inv(m.locks)
    ensures var kind := if op.LockOp? then op.kind else if op.ReadOp? then Shared else Exclusive;
      Access(m, tx, key, op, now).1 == Done <==>
        && tx in m.txs && now - m.txs[tx].lastActivity <= m.txs[tx].timeout
        && (|| (op.ReadOp? && m.txs[tx].isolation == ReadUncommitted)
            || forall other, held :: other != tx && HoldsLock(m.locks, other, key, held) ==> GoTogether(held, kind))
    ensures var attempt := Acquire(m.locks, tx, key, LockFor(op)).1;
      && (Access(m, tx, key, op, now).1 == DeadlockDetected ==> attempt.Deadlock?)
      && (Access(m, tx, key, op, now).1.MustWait? ==> attempt == Waiting(Access(m, tx, key, op, now).1.holder))
  {
    hide Inv, Acquire, GoTogether, HoldsLock;
    GrantedIff(m.locks, tx, key, LockFor(op));
  }

  /** At READ_UNCOMMITTED a read of a live transaction never waits, and it takes no lock. */
  lemma UncommittedReadIsFree(timeout: int, calls: seq<Call>, tx: Tx, key: Key, now: int)
    requires LevelOf(calls, tx) == Some(ReadUncommitted)
    requires tx in T.Run(Fresh(timeout), calls).txs && now - LastActive(timeout, calls, tx) <= timeout
    ensures var (n, r) := Access(T.Run(Fresh(timeout), calls), tx, key, ReadOp, now);
      r == Done && n.locks == T.Run(Fresh(timeout), calls).locks
  {
    hide T.Run, LastActive, Acquire, Levels;
    LevelsOverRuns(timeout, calls);
    RecordsOverRuns(timeout, calls);
  }

  // ---------------------------------------------------------------------------
  // Activity, votes and the prepared state.

  ghost function Answer(m: Manager, call: Call): Outcome
  {
    match call
    case AccessCall(tx, key, op, now) => Access(m, tx, key, op, now).1
    case CommitCall(tx, now) => Commit(m, tx, now).1
    case AbortCall(tx, now) => Abort(m, tx, now).1
    case PrepareCall(tx, now) => Prepare(m, tx, now).1
    case _ => Done
  }

  /** The time of the transaction's begin or of its last operation or prepare that succeeded. */
  ghost function LastActive(timeout: int, calls: seq<Call>, tx: Tx): int
  {
    if calls == [] then 0 else
      var before, call := calls[..|calls| - 1], calls[|calls| - 1];
      if call.BeginCall? && tx == |Levels(before)| + 1 then call.now
      else if (call.AccessCall? || call.PrepareCall?) && call.tx == tx
              && Answer(T.Run(Fresh(timeout), before), call) == Done then call.now
      else LastActive(timeout, before, tx)
  }

  /** Each participant's last vote, from the begin of the transaction on. */
  function LastVotes(calls: seq<Call>, tx: Tx): map<Str, bool>
  {
    if calls == [] then map[] else
      var before, call := calls[..|calls| - 1], calls[|calls| - 1];
      if call.VoteCall? && call.tx == tx && tx <= |Levels(before)| then LastVotes(before, tx)[call.node := call.ok]
      else LastVotes(before, tx)
  }

  /** A prepare call for the transaction has succeeded. */
  ghost predicate WasPrepared(timeout: int, calls: seq<Call>, tx: Tx)
  {
    calls != [] &&
    var before, call := calls[..|calls| - 1], calls[|calls| - 1];
    || WasPrepared(timeout, before, tx)
    || (call.PrepareCall? && call.tx == tx && Answer(T.Run(Fresh(timeout), before), call) == Done)
  }

  /** What the records of an open transaction hold, as the calls determine it. */
  ghost predicate RecordIs(timeout: int, calls: seq<Call>, tx: Tx, t: Transaction)
  {
    && t.timeout == timeout
    && t.lastActivity == LastActive(timeout, calls, tx)
    && t.votes == LastVotes(calls, tx)
    && (t.state.Prepared? <==> WasPrepared(timeout, calls, tx))
  }

  ghost predicate RecordsAgree(timeout: int, calls: seq<Call>, m: Manager)
  {
    m.defaultTimeout == timeout && forall tx :: tx in m.txs ==> RecordIs(timeout, calls, tx, m.txs[tx])
  }

  lemma {:induction false} NotBegunYet(timeout: int, calls: seq<Call>, tx: Tx)
    requires tx > |Levels(calls)|
    ensures LastVotes(calls, tx) == map[] && !WasPrepared(timeout, calls, tx)
    decreases calls
  {
    hide Answer, T.Run;
    if calls != [] {
      var before := calls[..|calls| - 1];
      NotBegunYet(timeout, before, tx);
      LevelsOverRuns(timeout, before);
      UnknownIsRefused(T.Run(Fresh(timeout), before), tx);
    }
  }

  lemma UnknownIsRefused(m: Manager, tx: Tx)
    requires tx !in m.txs
    ensures forall now :: Answer(m, PrepareCall(tx, now)) != Done
  {
  }

  lemma Extended(timeout: int, before: seq<Call>, call: Call, tx: Tx)
    ensures var calls, m := before + [call], T.Run(Fresh(timeout), before);
      && LastActive(timeout, calls, tx) ==
        (if call.BeginCall? && tx == |Levels(before)| + 1 then call.now
         else if (call.AccessCall? || call.PrepareCall?) && call.tx == tx && Answer(m, call) == Done then call.now
         else LastActive(timeout, before, tx))
      && LastVotes(calls, tx) ==
        (if call.VoteCall? && call.tx == tx && tx <= |Levels(before)| then LastVotes(before, tx)[call.node := call.ok]
         else LastVotes(before, tx))
      && (WasPrepared(timeout, calls, tx) <==>
        WasPrepared(timeout, before, tx) || (call.PrepareCall? && call.tx == tx && Answer(m, call) == Done))
  {
    hide Answer, T.Run, Levels;
    assert (before + [call])[..|before|] == before;
  }

  /** One call as an open transaction's record shows it. */
  lemma StepOnRecord(m: Manager, call: Call, tx: Tx)
    requires tx in T.Step(m, call).txs && (tx in m.txs ==> tx < m.nextTx)
    ensures var t := T.Step(m, call).txs[tx];
      if call.BeginCall? && tx == m.nextTx then
        t.timeout == m.defaultTimeout && t.lastActivity == call.now && t.votes == map[] && t.state.Active?
      else
        && tx in m.txs && t.timeout == m.txs[tx].timeout
        && t.lastActivity == (if (call.AccessCall? || call.PrepareCall?) && call.tx == tx && Answer(m, call) == Done
            then call.now else m.txs[tx].lastActivity)
        && t.votes == (if call.VoteCall? && call.tx == tx
            then m.txs[tx].votes[call.node := call.ok] else m.txs[tx].votes)
        && (t.state.Prepared? <==>
          m.txs[tx].state.Prepared? || (call.PrepareCall? && call.tx == tx && Answer(m, call) == Done))
  {
    hide Acquire, ReleaseAll, TimeOut;
  }

  lemma StepRecord(timeout: int, before: seq<Call>, call: Call, tx: Tx)
    requires var m := T.Run(Fresh(timeout), before);
      RecordsAgree(timeout, before, m) && LevelsAgree(m, Levels(before)) && tx in T.Step(m, call).txs
    ensures RecordIs(timeout, before + [call], tx, T.Step(T.Run(Fresh(timeout), before), call).txs[tx])
  {
    hide T.Run, T.Step, Answer, Levels, LastActive, LastVotes, WasPrepared;
    StepOnRecord(T.Run(Fresh(timeout), before), call, tx);
    Extended(timeout, before, call, tx);
    if tx > |Levels(before)| { NotBegunYet(timeout, before, tx); }
  }

  lemma {:induction false} RecordsOverRuns(timeout: int, calls: seq<Call>)
    ensures RecordsAgree(timeout, calls, T.Run(Fresh(timeout), calls))
    decreases calls
  {
    hide T.Step, RecordIs, LevelsAgree;
    if calls != [] {
      var before, call := calls[..|calls| - 1], calls[|calls| - 1];
      var m := T.Run(Fresh(timeout), before);
      RecordsOverRuns(timeout, before);
      LevelsOverRuns(timeout, before);
      assert before + [call] == calls;
      forall tx | tx in T.Step(m, call).txs
        ensures RecordIs(timeout, calls, tx, T.Step(m, call).txs[tx])
      {
        StepRecord(timeout, before, call, tx);
      }
      SameDefault(m, call);
    }
  }

  lemma SameDefault(m: Manager, call: Call)
    ensures T.Step(m, call).defaultTimeout == m.defaultTimeout
  {
    hide Acquire, ReleaseAll;
  }

  /** An answered call that ends its transaction: a commit, done or refused by a vote, or an abort. */
  ghost predicate Ends(m: Manager, call: Call, tx: Tx)
  {
    (call.CommitCall? || call.AbortCall?) && call.tx == tx && Answer(m, call) in {Done, PrepareRefused}
  }

  ghost predicate IsOpen(timeout: int, calls: seq<Call>, tx: Tx)
  {
    && 0 < tx <= |Levels(calls)|
    && forall n :: 0 <= n < |calls| ==> !Ends(T.Run(Fresh(timeout), calls[..n]), calls[n], tx)
  }

  /** The transactions on record are those begun and not ended. */
  lemma {:induction false} OpenIff(timeout: int, calls: seq<Call>, tx: Tx)
    ensures tx in T.Run(Fresh(timeout), calls).txs <==> IsOpen(timeout, calls, tx)
    decreases calls
  {
    hide T.Step, Ends, LevelsAgree;
    if calls != [] {
      var last := |calls| - 1;
      var before, call := calls[..last], calls[last];
      var m := T.Run(Fresh(timeout), before);
      OpenIff(timeout, before, tx);
      LevelsOverRuns(timeout, before);
      NextOpen(m, call, Levels(before), tx);
      if tx == |Levels(before)| + 1 { NoEndBeforeBegin(timeout, before, tx); }
      NotEndedYet(timeout, calls, tx);
    }
  }

  lemma NotEndedYet(timeout: int, calls: seq<Call>, tx: Tx)
    requires calls != []
    ensures var last := |calls| - 1;
      (forall n :: 0 <= n < |calls| ==> !Ends(T.Run(Fresh(timeout), calls[..n]), calls[n], tx)) <==>
        && (forall n :: 0 <= n < last ==> !Ends(T.Run(Fresh(timeout), calls[..last][..n]), calls[..last][n], tx))
        && !Ends(T.Run(Fresh(timeout), calls[..last]), calls[last], tx)
  {
    hide Ends, T.Run;
    var last := |calls| - 1;
    forall n | 0 <= n < last
      ensures calls[..last][..n] == calls[..n] && calls[..last][n] == calls[n]
    {
    }
  }

  lemma NoEndBeforeBegin(timeout: int, calls: seq<Call>, tx: Tx)
    requires tx > |Levels(calls)|
    ensures forall n :: 0 <= n < |calls| ==> !Ends(T.Run(Fresh(timeout), calls[..n]), calls[n], tx)
  {
    hide T.Run, Ends, Levels, LevelsAgree;
    forall n | 0 <= n < |calls|
      ensures !Ends(T.Run(Fresh(timeout), calls[..n]), calls[n], tx)
    {
      LevelsGrow(calls[..n], calls);
      LevelsOverRuns(timeout, calls[..n]);
      UnknownEndsNothing(T.Run(Fresh(timeout), calls[..n]), calls[n], Levels(calls[..n]), tx);
    }
  }

  lemma NextOpen(m: Manager, call: Call, levels: seq<Isolation>, tx: Tx)
    requires LevelsAgree(m, levels)
    ensures tx in T.Step(m, call).txs <==>
      (tx in m.txs && !Ends(m, call, tx)) || (call.BeginCall? && tx == |levels| + 1)
    ensures tx == |levels| + 1 ==> tx !in m.txs && !Ends(m, call, tx)
  {
    hide Acquire, ReleaseAll, TimeOut;
  }

  lemma UnknownEndsNothing(m: Manager, call: Call, levels: seq<Isolation>, tx: Tx)
    requires LevelsAgree(m, levels) && tx > |levels|
    ensures !Ends(m, call, tx)
  {
    hide ReleaseAll;
  }

  lemma {:induction false} LevelsGrow(a: seq<Call>, b: seq<Call>)
    requires a <= b
    ensures |Levels(a)| <= |Levels(b)|
    decreases |b| - |a|
  {
    if |a| < |b| {
      var more := b[..|a| + 1];
      assert more[..|a|] == a;
      LevelsGrow(more, b);
    } else {
      assert a == b;
    }
  }

  /**
   * Every call for a transaction is refused as unknown exactly when that is not open, and as expired exactly when it is
   * open and was idle for more than the time-out.
   */
  lemma RefusedIff(timeout: int, calls: seq<Call>, call: Call)
    requires call.AccessCall? || call.CommitCall? || call.AbortCall? || call.PrepareCall?
    ensures var answer := Answer(T.Run(Fresh(timeout), calls), call);
      && (answer == UnknownTransaction <==> !IsOpen(timeout, calls, call.tx))
      && (answer == Expired <==>
        IsOpen(timeout, calls, call.tx) && call.now - LastActive(timeout, calls, call.tx) > timeout)
  {
    hide T.Run, LastActive, Acquire, ReleaseAll, IsOpen;
    RecordsOverRuns(timeout, calls);
    OpenIff(timeout, calls, call.tx);
  }

  // ---------------------------------------------------------------------------
  // The lock manager below.

  /** What one call asks of the lock manager. */
  ghost function LockStepsOf(timeout: int, before: seq<Call>, call: Call): seq<LockStep>
  {
    match call
    case AccessCall(tx, key, op, now) =>
      if !IsLive(timeout, before, tx, now) || (op.ReadOp? && LevelOf(before, tx) == Some(ReadUncommitted)) then []
      else [AcquireStep(tx, key, if op.LockOp? then op.kind else if op.ReadOp? then Shared else Exclusive)]
    case CommitCall(tx, now) => if CanCommit(timeout, before, tx, now) then [ReleaseAllStep(tx)] else []
    case AbortCall(tx, now) => if IsLive(timeout, before, tx, now) then [ReleaseAllStep(tx)] else []
    case GiveUpCall(tx, holder) => [TimeOutStep(tx, holder)]
    case _ => []
  }

  ghost function LockSteps(timeout: int, calls: seq<Call>): seq<LockStep>
  {
    if calls == [] then [] else
      var before := calls[..|calls| - 1];
      LockSteps(timeout, before) + LockStepsOf(timeout, before, calls[|calls| - 1])
  }

  /**
   * The locks and the wait graph of a manager are those of a lock manager that is asked for the lock of each operation
   * of a live transaction, and for a release at each commit that can be and each abort of a live transaction.
   */
  lemma {:induction false} LocksFollow(timeout: int, calls: seq<Call>)
    ensures T.Run(Fresh(timeout), calls).locks == LockManager.Run(LockSteps(timeout, calls))
    decreases calls
  {
    hide T.Step, LockManager.Step, LockStepsOf;
    if calls != [] {
      var before, call := calls[..|calls| - 1], calls[|calls| - 1];
      LocksFollow(timeout, before);
      var steps, more := LockSteps(timeout, before), LockStepsOf(timeout, before, call);
      LockStepOf(timeout, before, call);
      if more == [] {
        assert steps + more == steps;
      } else {
        assert (steps + more)[..|steps|] == steps && (steps + more)[|steps|] == more[0];
      }
    }
  }

  lemma LockStepOf(timeout: int, before: seq<Call>, call: Call)
    ensures var m, steps := T.Run(Fresh(timeout), before), LockStepsOf(timeout, before, call);
      && |steps| <= 1
      && T.Step(m, call).locks == if steps == [] then m.locks else LockManager.Step(m.locks, steps[0])
  {
    hide T.Run, LastActive, LastVotes, WasPrepared, Levels, Acquire, ReleaseAll, TimeOut;
    RecordsOverRuns(timeout, before);
    LevelsOverRuns(timeout, before);
  }

  ghost predicate IsLive(timeout: int, calls: seq<Call>, tx: Tx, now: int)
  {
    tx in T.Run(Fresh(timeout), calls).txs && now - LastActive(timeout, calls, tx) <= timeout
  }

  predicate AllYes(votes: map<Str, bool>)
  {
    forall node :: node in votes ==> votes[node]
  }

  /** The conditions for a commit, on the calls made so far. */
  ghost predicate CanCommit(timeout: int, calls: seq<Call>, tx: Tx, now: int)
  {
    IsLive(timeout, calls, tx, now) && !WasPrepared(timeout, calls, tx) && AllYes(LastVotes(calls, tx))
  }

  /** How each outcome of a commit call comes about. */
  lemma CommitAnswer(timeout: int, calls: seq<Call>, tx: Tx, now: int)
    ensures var answer := Answer(T.Run(Fresh(timeout), calls), CommitCall(tx, now));
      && (answer == Done <==> CanCommit(timeout, calls, tx, now))
      && (answer == NotActive <==> IsLive(timeout, calls, tx, now) && WasPrepared(timeout, calls, tx))
      && (answer == PrepareRefused <==>
        IsLive(timeout, calls, tx, now) && !WasPrepared(timeout, calls, tx) && !AllYes(LastVotes(calls, tx)))
  {
    hide T.Run, LastActive, LastVotes, WasPrepared, ReleaseAll;
    RecordsOverRuns(timeout, calls);
  }

  lemma CommitAppends(timeout: int, before: seq<Call>, call: Call, tx: Tx)
    ensures var m := T.Run(Fresh(timeout), before);
      CommitEvent(tx) in T.Step(m, call).history <==>
        CommitEvent(tx) in m.history ||
        (call.CommitCall? && call.tx == tx && CanCommit(timeout, before, tx, call.now))
  {
    hide T.Run, LastActive, LastVotes, WasPrepared, Acquire, ReleaseAll;
    RecordsOverRuns(timeout, before);
  }

  /**
   * Which transactions commit in a run: those with a commit call at a moment when they are open, not idle for too long
   * and never prepared, and when every participant that voted since the begin has voted yes last.
   */
  lemma {:induction false} CommittedIff(timeout: int, calls: seq<Call>, tx: Tx)
    ensures CommitEvent(tx) in T.Run(Fresh(timeout), calls).history <==>
      exists n, now :: 0 <= n < |calls| && calls[n] == CommitCall(tx, now) && CanCommit(timeout, calls[..n], tx, now)
    decreases calls
  {
    hide T.Step, CanCommit;
    if calls != [] {
      var last := |calls| - 1;
      var before, call := calls[..last], calls[last];
      CommittedIff(timeout, before, tx);
      CommitAppends(timeout, before, call, tx);
      forall n | 0 <= n < last
        ensures before[..n] == calls[..n] && before[n] == calls[n]
      {
      }
      if call.CommitCall? && call.tx == tx && CanCommit(timeout, before, tx, call.now) {
        assert calls[last] == CommitCall(tx, call.now);
      }
    }
  }

  /** A transaction that was prepared never commits: no call takes it back to the active state. */
  lemma {:induction false} PreparedNeverCommits(timeout: int, calls: seq<Call>, tx: Tx)
    requires WasPrepared(timeout, calls, tx)
    ensures CommitEvent(tx) !in T.Run(Fresh(timeout), calls).history
    decreases calls
  {
    hide T.Step, CanCommit, LevelsAgree, Inv, LocksHeld, Strict, NothingAfterFinish, ChangesGuarded;
    var last := |calls| - 1;
    var before, call := calls[..last], calls[last];
    CommitAppends(timeout, before, call, tx);
    RunIsSound(timeout, before);
    if WasPrepared(timeout, before, tx) {
      PreparedNeverCommits(timeout, before, tx);
      PreparedCannot(timeout, before, tx);
    } else {
      KnownIfPrepared(T.Run(Fresh(timeout), before), call);
      CommitLeaves(T.Run(Fresh(timeout), before), tx);
    }
  }

  lemma PreparedCannot(timeout: int, calls: seq<Call>, tx: Tx)
    requires WasPrepared(timeout, calls, tx)
    ensures forall now :: !CanCommit(timeout, calls, tx, now)
  {
  }

  lemma KnownIfPrepared(m: Manager, call: Call)
    requires call.PrepareCall? && Answer(m, call) == Done
    ensures call.tx in m.txs
  {
  }

  lemma CommitLeaves(m: Manager, tx: Tx)
    requires IdsKnown(m) && tx in m.txs
    ensures CommitEvent(tx) !in m.history
  {
    forall i | 0 <= i < |m.history|
      ensures m.history[i] != CommitEvent(tx)
    {
      assert Finishes(m.history[i], m.history[i].tx) ==> m.history[i].tx != tx;
    }
  }

  /** A commit refused by a vote drops the transaction and releases nothing. */
  lemma RefusedCommitKeepsLocks(m: Manager, tx: Tx, now: int)
    requires Answer(m, CommitCall(tx, now)) == PrepareRefused
    ensures tx !in Commit(m, tx, now).0.txs && Commit(m, tx, now).0.locks == m.locks
  {
  }

  // ---------------------------------------------------------------------------
  // Operations and locks.

  /** The operations of one transaction in a history. */
  function OpsOf(h: seq<Event>, tx: Tx): seq<(Key, OpKind)>
  {
    if h == [] then [] else
      var e := h[|h| - 1];
      OpsOf(h[..|h| - 1], tx) + if e.OpEvent? && e.tx == tx then [(e.key, e.op)] else []
  }

  /** An operation at that level takes a lock of that mode. */
  predicate Asks(op: OpKind, isolation: Isolation, kind: LockType)
  {
    match op
    case ReadOp => isolation != ReadUncommitted && kind == Shared
    case WriteOp(_) => kind == Exclusive
    case DeleteOp => kind == Exclusive
    case LockOp(asked) => kind == asked
  }

  ghost predicate Asked(ops: seq<(Key, OpKind)>, isolation: Isolation, key: Key, kind: LockType)
  {
    exists i :: 0 <= i < |ops| && ops[i].0 == key && Asks(ops[i].1, isolation, kind)
  }

  ghost predicate BookAgrees(m: Manager, tx: Tx)
  {
    && OpsOf(m.history, tx) == (if tx in m.txs then m.txs[tx].operations else [])
    && (forall key, kind :: HoldsLock(m.locks, tx, key, kind) <==>
      tx in m.txs && Asked(m.txs[tx].operations, m.txs[tx].isolation, key, kind))
    && IdsOf(m.locks, tx) == if tx in m.txs then m.txs[tx].heldLocks else {}
  }

  function IdsOf(s: LockState, tx: Tx): set<LockId>
  {
    set id | id in s.locks && s.locks[id].tx == tx
  }

  ghost predicate BooksAgree(m: Manager)
  {
    forall tx :: tx in m.txs || tx >= m.nextTx ==> BookAgrees(m, tx)
  }

  /**
   * In every run an open transaction holds exactly the locks of the operations it has recorded, those are its
   * operations in the history, and its list of lock ids is complete: no lock is released before the end.
   */
  lemma {:induction false} LocksAreOperations(timeout: int, calls: seq<Call>)
    ensures BooksAgree(T.Run(Fresh(timeout), calls))
    decreases calls
  {
    hide T.Step, BooksAgree, Sound;
    if calls == [] {
      EmptyBooks(timeout);
    } else {
      var before, call := calls[..|calls| - 1], calls[|calls| - 1];
      LocksAreOperations(timeout, before);
      RunIsSound(timeout, before);
      StepKeepsBooks(T.Run(Fresh(timeout), before), call);
    }
  }

  lemma EmptyBooks(timeout: int)
    ensures BooksAgree(Fresh(timeout))
  {
    NothingHeld();
  }

  lemma StepKeepsBooks(m: Manager, call: Call)
    requires Sound(m) && BooksAgree(m)
    ensures BooksAgree(T.Step(m, call))
  {
    hide Sound, BookAgrees, Access, Begin, Commit, Abort;
    Survivors(m, call);
    forall tx | tx in T.Step(m, call).txs || tx >= T.Step(m, call).nextTx
      ensures BookAgrees(T.Step(m, call), tx)
    {
      if tx in m.txs { OpenAreNumbered(m, tx); }
      SoundLocks(m);
      match call
      case BeginCall(isolation, now) => BeginKeepsBook(m, isolation, now, tx);
      case AccessCall(x, key, op, now) => AccessKeepsBook(m, x, key, op, now, tx);
      case CommitCall(x, now) => FinishKeepsBook(m, call, tx);
      case AbortCall(x, now) => FinishKeepsBook(m, call, tx);
      case PrepareCall(_, _) => NoteKeepsBook(m, call, tx);
      case VoteCall(_, _, _) => NoteKeepsBook(m, call, tx);
      case GiveUpCall(_, _) => NoteKeepsBook(m, call, tx);
    }
  }

  lemma OpenAreNumbered(m: Manager, tx: Tx)
    requires Sound(m) && tx in m.txs
    ensures tx < m.nextTx
  {
  }

  lemma Survivors(m: Manager, call: Call)
    ensures var n := T.Step(m, call);
      && n.nextTx >= m.nextTx
      && forall tx :: tx in n.txs || tx >= n.nextTx ==> tx in m.txs || tx >= m.nextTx
  {
    hide Acquire, ReleaseAll;
  }

  lemma BeginKeepsBook(m: Manager, isolation: Isolation, now: int, tx: Tx)
    requires BookAgrees(m, tx) && (tx in m.txs ==> tx < m.nextTx)
    ensures BookAgrees(Begin(m, isolation, now), tx)
  {
    hide HoldsLock, OpsOf;
  }

  /** Calls that touch neither locks nor operations. */
  lemma NoteKeepsBook(m: Manager, call: Call, tx: Tx)
    requires BookAgrees(m, tx) && (call.PrepareCall? || call.VoteCall? || call.GiveUpCall?)
    ensures BookAgrees(T.Step(m, call), tx)
  {
    hide HoldsLock, OpsOf, Asked;
    if call.GiveUpCall? {
      forall key, kind
        ensures HoldsLock(TimeOut(m.locks, call.tx, call.holder), tx, key, kind) == HoldsLock(m.locks, tx, key, kind)
      {
        SameLocks(m.locks, TimeOut(m.locks, call.tx, call.holder), tx, key, kind);
      }
    }
  }

  lemma SameLocks(s: LockState, t: LockState, tx: Tx, key: Key, kind: LockType)
    requires forall id :: (id in s.locks && s.locks[id].tx == tx) <==> (id in t.locks && t.locks[id].tx == tx)
    requires forall id :: id in s.locks && s.locks[id].tx == tx ==> t.locks[id] == s.locks[id]
    ensures HoldsLock(s, tx, key, kind) <==> HoldsLock(t, tx, key, kind)
  {
  }

  lemma FinishKeepsBook(m: Manager, call: Call, tx: Tx)
    requires Sound(m) && BookAgrees(m, tx) && (call.CommitCall? || call.AbortCall?)
    requires tx in T.Step(m, call).txs || tx >= T.Step(m, call).nextTx
    ensures BookAgrees(T.Step(m, call), tx)
  {
    hide Inv, ReleaseAll, HoldsLock, OpsOf, LocksHeld, Strict, NothingAfterFinish, ChangesGuarded;
    var n := T.Step(m, call);
    if n.history != m.history {
      OpsAppend(m.history, n.history[|m.history|], tx);
      ReleaseAllIsExact(m.locks, call.tx);
      forall key, kind
        ensures HoldsLock(m.locks, tx, key, kind) <==> HoldsLock(n.locks, tx, key, kind)
      {
        SameLocks(m.locks, n.locks, tx, key, kind);
      }
    }
  }

  lemma OpsAppend(h: seq<Event>, e: Event, tx: Tx)
    ensures OpsOf(h + [e], tx) == OpsOf(h, tx) + if e.OpEvent? && e.tx == tx then [(e.key, e.op)] else []
  {
    assert (h + [e])[..|h|] == h;
  }

  lemma AskedAppend(ops: seq<(Key, OpKind)>, last: (Key, OpKind), isolation: Isolation, key: Key, kind: LockType)
    ensures Asked(ops + [last], isolation, key, kind) <==>
      Asked(ops, isolation, key, kind) || (last.0 == key && Asks(last.1, isolation, kind))
  {
    hide Asks;
    var all := ops + [last];
    assert all[|ops|] == last;
    if Asked(ops, isolation, key, kind) {
      var i :| 0 <= i < |ops| && ops[i].0 == key && Asks(ops[i].1, isolation, kind);
      assert all[i] == ops[i];
    }
  }

  lemma AccessKeepsBook(m: Manager, x: Tx, key: Key, op: OpKind, now: int, tx: Tx)
    requires Inv(m.locks) && BookAgrees(m, tx)
    ensures BookAgrees(Access(m, x, key, op, now).0, tx)
  {
    hide Inv, Acquire, HoldsLock, OpsOf, Asked;
    var n := Access(m, x, key, op, now).0;
    GrantAdds(m.locks, x, key, LockFor(op));
    IdsAfterGrant(m.locks, x, key, LockFor(op), tx);
    hide IdsOf;
    if n.history != m.history {
      OpsAppend(m.history, n.history[|m.history|], tx);
      if tx == x {
        var ops, isolation := m.txs[tx].operations, m.txs[tx].isolation;
        forall k, kind
          ensures Asked(ops + [(key, op)], isolation, k, kind) <==>
            Asked(ops, isolation, k, kind) || (k == key && Asks(op, isolation, kind))
        {
          AskedAppend(ops, (key, op), isolation, k, kind);
        }
      }
    }
  }

  lemma IdsAfterGrant(s: LockState, x: Tx, key: Key, kind: LockType, tx: Tx)
    requires Inv(s)
    ensures var (t, attempt) := Acquire(s, x, key, kind);
      IdsOf(t, tx) == IdsOf(s, tx) + if attempt.Granted? && tx == x then {attempt.id} else {}
  {
    hide AllCompatible, Acyclic, Conflict, CycleReachable;
  }
}
