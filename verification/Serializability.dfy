/** Histories of transactions, and why strict two-phase locking makes them equivalent to the commit order. */
module Serializability {
  import opened Bytes
  import opened Collections
  import opened Results
  import opened Keys
  import opened WaitGraph
  import opened LockManager

  datatype OpKind = ReadOp | WriteOp(value: Str) | DeleteOp | LockOp(kind: LockType)

  /** `guarded` is whether the operation took a lock: all do, except reads at READ_UNCOMMITTED. */
  datatype Event =
    | OpEvent(tx: Tx, key: Key, op: OpKind, guarded: bool)
    | CommitEvent(tx: Tx)
    | AbortEvent(tx: Tx)

  predicate Finishes(e: Event, tx: Tx)
  {
    e == CommitEvent(tx) || e == AbortEvent(tx)
  }

  predicate Mutates(op: OpKind)
  {
    op.WriteOp? || op.DeleteOp?
  }

  predicate Touches(op: OpKind)
  {
    !op.LockOp?
  }

  /** Two guarded data operations of different transactions on one key, at least one a change. */
  predicate Conflicting(a: Event, b: Event)
  {
    && a.OpEvent? && b.OpEvent? && a.guarded && b.guarded
    && a.tx != b.tx && a.key == b.key
    && Touches(a.op) && Touches(b.op) && (Mutates(a.op) || Mutates(b.op))
  }

  ghost predicate FinishedBetween(h: seq<Event>, tx: Tx, i: int, j: int)
  {
    exists m :: 0 <= i < m < j <= |h| && Finishes(h[m], tx)
  }

  /** A conflicting operation comes only after the earlier operation's transaction has committed or aborted. */
  ghost predicate Strict(h: seq<Event>)
  {
    forall i, j :: 0 <= i < j < |h| && Conflicting(h[i], h[j]) ==> FinishedBetween(h, h[i].tx, i, j)
  }

  ghost predicate NothingAfterFinish(h: seq<Event>)
  {
    forall i, j :: 0 <= i < j < |h| && Finishes(h[i], h[i].tx) ==> h[j].tx != h[i].tx
  }

  /** Changes always take a lock. */
  ghost predicate ChangesGuarded(h: seq<Event>)
  {
    forall i :: 0 <= i < |h| && h[i].OpEvent? && Mutates(h[i].op) ==> h[i].guarded
  }

  // ---------------------------------------------------------------------------
  // Executing operations against a store.

  /** A data operation with its position in the history. */
  datatype Act = Act(id: nat, event: Event)

  /** The store and what each guarded read saw. */
  datatype Db = Db(store: map<Key, Str>, seen: map<nat, Option<Str>>)

  function Exec1(db: Db, a: Act): Db
  {
    if !a.event.OpEvent? then db else
      var key := a.event.key;
      match a.event.op
      case ReadOp =>
        if !a.event.guarded then db
        else db.(seen := db.seen[a.id := if key in db.store then Some(db.store[key]) else None])
      case WriteOp(v) => db.(store := db.store[key := v])
      case DeleteOp => db.(store := db.store - {key})
      case LockOp(_) => db
  }

  function Exec(db: Db, acts: seq<Act>): Db
    decreases acts
  {
    if acts == [] then db else Exec(Exec1(db, acts[0]), acts[1..])
  }

  lemma {:induction false} ExecConcat(db: Db, a: seq<Act>, b: seq<Act>)
    ensures Exec(db, a + b) == Exec(Exec(db, a), b)
    decreases a
  {
    hide Exec1;
    if a == [] {
      assert a + b == b;
    } else {
      ExecConcat(Exec1(db, a[0]), a[1..], b);
      assert (a + b)[1..] == a[1..] + b;
    }
  }

  lemma StoreCommutes(store: map<Key, Str>, k: Key, l: Key, v: Str, w: Str)
    requires k != l
    ensures store[k := v][l := w] == store[l := w][k := v]
    ensures (store - {k})[l := w] == store[l := w] - {k}
    ensures (store - {k}) - {l} == (store - {l}) - {k}
  {
  }

  /** Two operations of different transactions that do not conflict can change places. */
  lemma {:induction false} Commute(db: Db, a: Act, b: Act)
    requires a.id != b.id && a.event.tx != b.event.tx && !Conflicting(a.event, b.event)
    requires ActGuarded(a) && ActGuarded(b)
    ensures Exec1(Exec1(db, a), b) == Exec1(Exec1(db, b), a)
  {
    if a.event.OpEvent? && b.event.OpEvent? {
      var k, l := a.event.key, b.event.key;
      if Mutates(a.event.op) && Mutates(b.event.op) {
        var v := if a.event.op.WriteOp? then a.event.op.value else [];
        var w := if b.event.op.WriteOp? then b.event.op.value else [];
        StoreCommutes(db.store, k, l, v, w);
        StoreCommutes(db.store, l, k, w, v);
      } else if a.event.op.ReadOp? && b.event.op.ReadOp? {
        var x := if k in db.store then Some(db.store[k]) else None;
        var y := if l in db.store then Some(db.store[l]) else None;
        assert db.seen[a.id := x][b.id := y] == db.seen[b.id := y][a.id := x];
      }
    }
  }

  ghost predicate ActGuarded(a: Act)
  {
    a.event.OpEvent? && Mutates(a.event.op) ==> a.event.guarded
  }

  /** The acts of one transaction. */
  function Of(acts: seq<Act>, tx: Tx): seq<Act>
  {
    if acts == [] then [] else (if acts[0].event.tx == tx then [acts[0]] else []) + Of(acts[1..], tx)
  }

  function NotOf(acts: seq<Act>, tx: Tx): seq<Act>
  {
    if acts == [] then [] else (if acts[0].event.tx == tx then [] else [acts[0]]) + NotOf(acts[1..], tx)
  }

  lemma {:induction false} OfMembers(acts: seq<Act>, tx: Tx)
    ensures forall a :: a in Of(acts, tx) <==> a in acts && a.event.tx == tx
    ensures forall a :: a in NotOf(acts, tx) <==> a in acts && a.event.tx != tx
    decreases acts
  {
    if acts != [] {
      OfMembers(acts[1..], tx);
      assert forall a :: a in acts <==> a == acts[0] || a in acts[1..];
    }
  }

  ghost predicate MayPass(a: Act, b: Act)
  {
    b.id != a.id && b.event.tx != a.event.tx && !Conflicting(a.event, b.event) && ActGuarded(b)
  }

  /** One act moves behind acts it does not conflict with. */
  lemma {:induction false} MoveBehind(db: Db, a: Act, acts: seq<Act>)
    requires ActGuarded(a)
    requires forall b :: b in acts ==> MayPass(a, b)
    ensures Exec(db, [a] + acts) == Exec(Exec1(Exec(db, acts), a), [])
    decreases acts
  {
    hide Exec1, Conflicting;
    assert ([a] + acts)[1..] == acts;
    if acts != [] {
      var b, rest := acts[0], acts[1..];
      assert b in acts && forall c :: c in rest ==> c in acts;
      Commute(db, a, b);
      MoveBehind(Exec1(db, b), a, rest);
      assert ([a] + rest)[1..] == rest;
    }
  }

  /** Acts come in increasing order of position. */
  ghost predicate Ordered(acts: seq<Act>)
  {
    forall p, q :: 0 <= p < q < |acts| ==> acts[p].id < acts[q].id
  }

  /** If nothing in front of a transaction's acts conflicts with them, they can all run first. */
  lemma {:induction false} RunFirst(db: Db, acts: seq<Act>, tx: Tx)
    requires Ordered(acts) && forall a :: a in acts ==> ActGuarded(a)
    requires forall p, q :: 0 <= p < q < |acts| && acts[p].event.tx != tx && acts[q].event.tx == tx ==>
      !Conflicting(acts[p].event, acts[q].event)
    ensures Exec(db, acts) == Exec(Exec(db, Of(acts, tx)), NotOf(acts, tx))
    decreases acts
  {
    hide Exec1, Conflicting, ActGuarded, Of, NotOf, Exec;
    if acts == [] {
      NothingOf(tx);
      ExecNothing(db);
    } else {
      var a, rest := acts[0], acts[1..];
      assert a in acts && forall c :: c in rest ==> c in acts;
      RunFirst(Exec1(db, a), rest, tx);
      var mine, others := Of(rest, tx), NotOf(rest, tx);
      OfCons(acts, tx);
      ExecCons(db, acts);
      if a.event.tx == tx {
        ExecCons(db, [a] + mine);
        assert ([a] + mine)[1..] == mine;
      } else {
        OfMembers(rest, tx);
        forall b | b in mine
          ensures MayPass(a, b)
        {
          var q :| 0 <= q < |rest| && rest[q] == b;
          assert acts[q + 1] == b;
        }
        MoveBehind(db, a, mine);
        ExecCons(db, [a] + mine);
        ExecNothing(Exec1(Exec(db, mine), a));
        ExecCons(Exec(db, mine), [a] + others);
        assert ([a] + mine)[1..] == mine && ([a] + others)[1..] == others;
      }
    }
  }

  lemma NothingOf(tx: Tx)
    ensures Of([], tx) == [] && NotOf([], tx) == []
  {
  }

  lemma OfCons(acts: seq<Act>, tx: Tx)
    requires acts != []
    ensures if acts[0].event.tx == tx
      then Of(acts, tx) == [acts[0]] + Of(acts[1..], tx) && NotOf(acts, tx) == NotOf(acts[1..], tx)
      else Of(acts, tx) == Of(acts[1..], tx) && NotOf(acts, tx) == [acts[0]] + NotOf(acts[1..], tx)
  {
    assert [] + Of(acts[1..], tx) == Of(acts[1..], tx) && [] + NotOf(acts[1..], tx) == NotOf(acts[1..], tx);
  }

  lemma ExecNothing(db: Db)
    ensures Exec(db, []) == db
  {
  }

  lemma ExecCons(db: Db, acts: seq<Act>)
    requires acts != []
    ensures Exec(db, acts) == Exec(Exec1(db, acts[0]), acts[1..])
  {
    hide Exec1;
  }

  // ---------------------------------------------------------------------------
  // Pulling the transactions out one by one in commit order.

  ghost predicate RankLess(order: seq<Tx>, a: Tx, b: Tx)
  {
    exists x, y :: 0 <= x < y < |order| && order[x] == a && order[y] == b
  }

  /** The acts of the transactions one after another. */
  function Serial(order: seq<Tx>, acts: seq<Act>): seq<Act>
  {
    if order == [] then [] else Of(acts, order[0]) + Serial(order[1..], acts)
  }

  /** Acts kept by the filter stood in the same order before it. */
  lemma {:induction false} NotOfPosition(acts: seq<Act>, tx: Tx, p: nat, q: nat) returns (i: nat, j: nat)
    requires p < q < |NotOf(acts, tx)|
    ensures i < j < |acts| && acts[i] == NotOf(acts, tx)[p] && acts[j] == NotOf(acts, tx)[q]
    decreases acts
  {
    var rest := acts[1..];
    var others, all := NotOf(rest, tx), NotOf(acts, tx);
    assert all == (if acts[0].event.tx == tx then [] else [acts[0]]) + others;
    hide NotOf;
    if acts[0].event.tx == tx {
      i, j := NotOfPosition(rest, tx, p, q);
      i, j := i + 1, j + 1;
    } else {
      if p > 0 {
        i, j := NotOfPosition(rest, tx, p - 1, q - 1);
        i, j := i + 1, j + 1;
      } else {
        OfMembers(rest, tx);
        assert others[q - 1] in others;
        var n :| 0 <= n < |rest| && rest[n] == others[q - 1];
        i, j := 0, n + 1;
      }
    }
  }

  lemma NotOfOrdered(acts: seq<Act>, tx: Tx)
    requires Ordered(acts)
    ensures Ordered(NotOf(acts, tx))
  {
    hide NotOf;
    forall p, q | 0 <= p < q < |NotOf(acts, tx)|
      ensures NotOf(acts, tx)[p].id < NotOf(acts, tx)[q].id
    {
      var i, j := NotOfPosition(acts, tx, p, q);
    }
  }

  lemma {:induction false} OfNotOf(acts: seq<Act>, tx: Tx, other: Tx)
    requires tx != other
    ensures Of(NotOf(acts, tx), other) == Of(acts, other)
    decreases acts
  {
    if acts != [] {
      OfNotOf(acts[1..], tx, other);
      var rest := NotOf(acts[1..], tx);
      if acts[0].event.tx == tx {
        assert NotOf(acts, tx) == rest;
        assert Of(acts, other) == Of(acts[1..], other);
      } else {
        assert NotOf(acts, tx) == [acts[0]] + rest && NotOf(acts, tx)[1..] == rest;
      }
    }
  }

  lemma {:induction false} SerialWithout(order: seq<Tx>, acts: seq<Act>, tx: Tx)
    requires tx !in order
    ensures Serial(order, NotOf(acts, tx)) == Serial(order, acts)
    decreases order
  {
    if order != [] {
      assert order[0] in order && forall t :: t in order[1..] ==> t in order;
      OfNotOf(acts, tx, order[0]);
      SerialWithout(order[1..], acts, tx);
    }
  }

  /** If every conflict follows an order of the transactions, running them one by one in that order changes nothing. */
  lemma {:induction false} ConflictOrderIsSerial(db: Db, order: seq<Tx>, acts: seq<Act>)
    requires NoDuplicates(order) && Ordered(acts)
    requires forall a :: a in acts ==> ActGuarded(a) && a.event.tx in order
    requires forall p, q :: 0 <= p < q < |acts| && Conflicting(acts[p].event, acts[q].event) ==>
      RankLess(order, acts[p].event.tx, acts[q].event.tx)
    ensures Exec(db, acts) == Exec(db, Serial(order, acts))
    decreases order
  {
    hide Exec1, Conflicting, ActGuarded, RankLess, Exec, Of, NotOf, Serial, NoDuplicates;
    ActsHaveOrder(order, acts);
    if order == [] {
      NothingSerial(acts);
    } else {
      var first, later := order[0], order[1..];
      OrderTail(order);
      forall p, q | 0 <= p < q < |acts| && acts[p].event.tx != first && acts[q].event.tx == first
        ensures !Conflicting(acts[p].event, acts[q].event)
      {
        NothingBeforeFirst(order, acts[p].event.tx);
      }
      RunFirst(db, acts, first);
      var mine, others := Of(acts, first), NotOf(acts, first);
      OfMembers(acts, first);
      NotOfOrdered(acts, first);
      forall a | a in others
        ensures ActGuarded(a) && a.event.tx in later
      {
        assert a.event.tx in order;
      }
      OthersFollow(order, acts);
      ConflictOrderIsSerial(Exec(db, mine), later, others);
      SerialWithout(later, acts, first);
      ExecConcat(db, mine, Serial(later, acts));
      SerialCons(order, acts);
    }
  }

  lemma OrderTail(order: seq<Tx>)
    requires NoDuplicates(order) && order != []
    ensures NoDuplicates(order[1..]) && order[0] !in order[1..]
    ensures forall t :: t in order <==> t == order[0] || t in order[1..]
  {
  }

  lemma NothingSerial(acts: seq<Act>)
    ensures acts == [] ==> Serial([], acts) == acts
  {
  }

  lemma SerialCons(order: seq<Tx>, acts: seq<Act>)
    requires order != []
    ensures Serial(order, acts) == Of(acts, order[0]) + Serial(order[1..], acts)
  {
    hide Of;
  }

  /** Without the first transaction's acts the conflicts still follow the order. */
  lemma OthersFollow(order: seq<Tx>, acts: seq<Act>)
    requires order != [] && Ordered(acts)
    requires forall p, q :: 0 <= p < q < |acts| && Conflicting(acts[p].event, acts[q].event) ==>
      RankLess(order, acts[p].event.tx, acts[q].event.tx)
    ensures var others := NotOf(acts, order[0]);
      forall p, q :: 0 <= p < q < |others| && Conflicting(others[p].event, others[q].event) ==>
        RankLess(order[1..], others[p].event.tx, others[q].event.tx)
  {
    hide Conflicting, RankLess, NotOf;
    var others := NotOf(acts, order[0]);
    OfMembers(acts, order[0]);
    forall p, q | 0 <= p < q < |others| && Conflicting(others[p].event, others[q].event)
      ensures RankLess(order[1..], others[p].event.tx, others[q].event.tx)
    {
      var i, j := NotOfPosition(acts, order[0], p, q);
      assert others[p] in others && others[q] in others;
      RankInTail(order, others[p].event.tx, others[q].event.tx);
    }
  }

  lemma ActsHaveOrder(order: seq<Tx>, acts: seq<Act>)
    requires forall a :: a in acts ==> a.event.tx in order
    ensures acts != [] ==> order != []
  {
    if acts != [] { assert acts[0] in acts; }
  }

  lemma NothingBeforeFirst(order: seq<Tx>, a: Tx)
    requires NoDuplicates(order) && order != []
    ensures !RankLess(order, a, order[0])
  {
  }

  lemma RankInTail(order: seq<Tx>, a: Tx, b: Tx)
    requires order != [] && RankLess(order, a, b) && a != order[0]
    ensures RankLess(order[1..], a, b)
  {
    var x, y :| 0 <= x < y < |order| && order[x] == a && order[y] == b;
    assert order[1..][x - 1] == a && order[1..][y - 1] == b;
  }

  // ---------------------------------------------------------------------------
  // Histories.

  /** The data operations of a history, in order. */
  function Acts(h: seq<Event>): seq<Act>
  {
    if h == [] then [] else
      var n := |h| - 1;
      Acts(h[..n]) + (if h[n].OpEvent? && Touches(h[n].op) then [Act(n, h[n])] else [])
  }

  /** The committed transactions in commit order. */
  function CommitOrder(h: seq<Event>): seq<Tx>
  {
    if h == [] then [] else
      var n := |h| - 1;
      CommitOrder(h[..n]) + (if h[n].CommitEvent? then [h[n].tx] else [])
  }

  function Only(acts: seq<Act>, txs: set<Tx>): seq<Act>
  {
    if acts == [] then [] else (if acts[0].event.tx in txs then [acts[0]] else []) + Only(acts[1..], txs)
  }

  function Committed(h: seq<Event>): set<Tx>
  {
    set t | t in CommitOrder(h)
  }

  /** The operations of committed transactions as they were interleaved. */
  function CommittedActs(h: seq<Event>): seq<Act>
  {
    Only(Acts(h), Committed(h))
  }

  /** The same operations, transaction by transaction in commit order. */
  function SerialActs(h: seq<Event>): seq<Act>
  {
    Serial(CommitOrder(h), Acts(h))
  }

  lemma {:induction false} ActsAreEvents(h: seq<Event>)
    ensures Ordered(Acts(h))
    ensures forall p :: 0 <= p < |Acts(h)| ==>
      Acts(h)[p].id < |h| && Acts(h)[p].event == h[Acts(h)[p].id] && Acts(h)[p].event.OpEvent?
    decreases h
  {
    if h != [] {
      var n := |h| - 1;
      ActsAreEvents(h[..n]);
      var before := Acts(h[..n]);
      forall p | 0 <= p < |before|
        ensures before[p].id < n && before[p].event == h[before[p].id]
      {
        assert h[..n][before[p].id] == h[before[p].id];
      }
    }
  }

  lemma {:induction false} OnlyMembers(acts: seq<Act>, txs: set<Tx>)
    ensures forall a :: a in Only(acts, txs) <==> a in acts && a.event.tx in txs
    decreases acts
  {
    if acts != [] {
      OnlyMembers(acts[1..], txs);
      assert forall a :: a in acts <==> a == acts[0] || a in acts[1..];
    }
  }

  lemma {:induction false} OnlyOrdered(acts: seq<Act>, txs: set<Tx>)
    requires Ordered(acts)
    ensures Ordered(Only(acts, txs))
    ensures forall a :: a in Only(acts, txs) <==> a in acts && a.event.tx in txs
    decreases acts
  {
    hide Only;
    OnlyMembers(acts, txs);
    if acts == [] {
      NothingOnly(txs);
    } else {
      var rest := acts[1..];
      OnlyOrdered(rest, txs);
      var kept := Only(rest, txs);
      OnlyCons(acts, txs);
      forall p | 0 <= p < |kept|
        ensures acts[0].id < kept[p].id
      {
        assert kept[p] in kept;
        var q :| 0 <= q < |rest| && rest[q] == kept[p];
        assert acts[q + 1] == kept[p];
      }
      if acts[0].event.tx in txs { PrependOrdered(acts[0], kept); } else { assert [] + kept == kept; }
    }
  }

  lemma NothingOnly(txs: set<Tx>)
    ensures Only([], txs) == []
  {
  }

  lemma OnlyCons(acts: seq<Act>, txs: set<Tx>)
    requires acts != []
    ensures Only(acts, txs) == (if acts[0].event.tx in txs then [acts[0]] else []) + Only(acts[1..], txs)
  {
  }

  lemma PrependOrdered(a: Act, kept: seq<Act>)
    requires Ordered(kept) && forall p :: 0 <= p < |kept| ==> a.id < kept[p].id
    ensures Ordered([a] + kept)
  {
  }

  lemma {:induction false} OfOnly(acts: seq<Act>, txs: set<Tx>, tx: Tx)
    requires tx in txs
    ensures Of(Only(acts, txs), tx) == Of(acts, tx)
    decreases acts
  {
    if acts != [] {
      OfOnly(acts[1..], txs, tx);
      var rest := Only(acts[1..], txs);
      if acts[0].event.tx in txs {
        assert Only(acts, txs) == [acts[0]] + rest && Only(acts, txs)[1..] == rest;
      } else {
        assert Only(acts, txs) == rest;
        assert Of(acts, tx) == Of(acts[1..], tx);
      }
    }
  }

  lemma {:induction false} SerialOfOnly(order: seq<Tx>, acts: seq<Act>, txs: set<Tx>)
    requires forall t :: t in order ==> t in txs
    ensures Serial(order, Only(acts, txs)) == Serial(order, acts)
    decreases order
  {
    if order != [] {
      assert order[0] in order && forall t :: t in order[1..] ==> t in order;
      OfOnly(acts, txs, order[0]);
      SerialOfOnly(order[1..], acts, txs);
    }
  }

  lemma {:induction false} CommitOrderMembers(h: seq<Event>, t: Tx)
    ensures t in CommitOrder(h) <==> exists i :: 0 <= i < |h| && h[i] == CommitEvent(t)
    decreases h
  {
    if h != [] {
      var n := |h| - 1;
      CommitOrderMembers(h[..n], t);
      if i :| 0 <= i < |h| && h[i] == CommitEvent(t) {
        if i < n { assert h[..n][i] == CommitEvent(t); }
      }
      if i :| 0 <= i < n && h[..n][i] == CommitEvent(t) { assert h[i] == CommitEvent(t); }
    }
  }

  lemma {:induction false} CommitRank(h: seq<Event>, i: nat, j: nat)
    requires i < j < |h| && h[i].CommitEvent? && h[j].CommitEvent?
    ensures RankLess(CommitOrder(h), h[i].tx, h[j].tx)
    decreases h
  {
    var n := |h| - 1;
    var before := CommitOrder(h[..n]);
    if j < n {
      CommitRank(h[..n], i, j);
      var x, y :| 0 <= x < y < |before| && before[x] == h[i].tx && before[y] == h[j].tx;
      assert CommitOrder(h)[x] == h[i].tx && CommitOrder(h)[y] == h[j].tx;
    } else {
      assert h[..n][i] == CommitEvent(h[i].tx);
      CommitOrderMembers(h[..n], h[i].tx);
      var x :| 0 <= x < |before| && before[x] == h[i].tx;
      assert CommitOrder(h)[x] == h[i].tx && CommitOrder(h)[|before|] == h[j].tx;
    }
  }

  lemma {:induction false} CommitsOnce(h: seq<Event>)
    requires NothingAfterFinish(h)
    ensures NoDuplicates(CommitOrder(h))
    decreases h
  {
    if h != [] {
      var n := |h| - 1;
      assert forall i :: 0 <= i < n ==> h[..n][i] == h[i];
      CommitsOnce(h[..n]);
      if h[n].CommitEvent? {
        CommitOrderMembers(h[..n], h[n].tx);
      }
    }
  }

  /** Of two conflicting operations the earlier one's transaction committed before the later one took place. */
  lemma CommitsBeforeConflict(h: seq<Event>, i: nat, j: nat)
    requires Strict(h) && NothingAfterFinish(h)
    requires i < j < |h| && Conflicting(h[i], h[j])
    requires h[i].tx in Committed(h) && h[j].tx in Committed(h)
    ensures exists m :: i < m < j && h[m] == CommitEvent(h[i].tx)
    ensures RankLess(CommitOrder(h), h[i].tx, h[j].tx)
  {
    hide Conflicting, RankLess, Committed, CommitOrder;
    var a, b := h[i].tx, h[j].tx;
    var c := CommitPosition(h, a);
    var d := CommitPosition(h, b);
    var m :| i < m < j && Finishes(h[m], a);
    OneFinish(h, a, c, m);
    ConflictingAreOps(h[i], h[j]);
    WorksBeforeFinish(h, b, d, j);
    CommitRank(h, c, d);
  }

  lemma CommitPosition(h: seq<Event>, tx: Tx) returns (c: nat)
    requires tx in Committed(h)
    ensures c < |h| && h[c] == CommitEvent(tx)
  {
    CommitOrderMembers(h, tx);
    c :| 0 <= c < |h| && h[c] == CommitEvent(tx);
  }

  lemma OneFinish(h: seq<Event>, tx: Tx, c: nat, m: nat)
    requires NothingAfterFinish(h) && c < |h| && m < |h| && Finishes(h[c], tx) && Finishes(h[m], tx)
    ensures c == m
  {
  }

  lemma WorksBeforeFinish(h: seq<Event>, tx: Tx, d: nat, j: nat)
    requires NothingAfterFinish(h) && d < |h| && j < |h| && Finishes(h[d], tx) && h[j].tx == tx && h[j].OpEvent?
    ensures j < d
  {
  }

  lemma ConflictingAreOps(a: Event, b: Event)
    requires Conflicting(a, b)
    ensures a.OpEvent? && b.OpEvent?
  {
  }

  /**
   * Conflict serializability: the interleaved operations of the committed transactions leave the same store, and show
   * every guarded read the same value, as the committed transactions run one after another in commit order, from any
   * initial store.
   */
  lemma CommitOrderIsSerialOrder(h: seq<Event>, store: map<Key, Str>)
    requires Strict(h) && NothingAfterFinish(h) && ChangesGuarded(h)
    ensures Exec(Db(store, map[]), CommittedActs(h)) == Exec(Db(store, map[]), SerialActs(h))
  {
    hide Conflicting, RankLess, Exec, Serial, CommitOrder, Acts, Only;
    var order, acts, txs := CommitOrder(h), CommittedActs(h), Committed(h);
    ActsAreEvents(h);
    OnlyOrdered(Acts(h), txs);
    CommitsOnce(h);
    forall a | a in acts
      ensures ActGuarded(a) && a.event.tx in order
    {
      assert a in Acts(h);
    }
    forall p, q | 0 <= p < q < |acts| && Conflicting(acts[p].event, acts[q].event)
      ensures RankLess(order, acts[p].event.tx, acts[q].event.tx)
    {
      assert acts[p] in acts && acts[q] in acts;
      assert acts[p] in Acts(h) && acts[q] in Acts(h);
      CommitsBeforeConflict(h, acts[p].id, acts[q].id);
    }
    ConflictOrderIsSerial(Db(store, map[]), order, acts);
    SerialOfOnly(order, Acts(h), txs);
  }
}
