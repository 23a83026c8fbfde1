/** What the engine logs, and what the recovery loop makes of it (src/storage/lsm_tree.cpp). */
module Recovery {
  import opened Bytes
  import opened Collections
  import opened Results
  import opened Keys
  import opened Ranges
  import opened MemTable
  import opened Layers
  import opened Wal

  const DEFAULT_ENTRY: Entry := Entry([], 0, 0, false)

  /** What an engine operation appends to the log; a put is logged before the memtable may reject it. */
  function Logs(active: Table, frozen: Option<Table>, op: Op): seq<WalEntry>
  {
    match op
    case PutOp(k, e) => [WalEntry(PUT, k, e, 0)]
    case RemoveOp(k, now) => [WalEntry(DELETE, k, Tombstone(now), 0)]
    case FlushOp(first, second) =>
      if second && Proceeds(active, frozen, first) then [WalEntry(CHECKPOINT, Key([], []), DEFAULT_ENTRY, 0)] else []
  }

  /** One turn of the recovery loop on the new memtable. */
  function Redo(m: Table, e: WalEntry, now: i64): Table
  {
    if e.kind == PUT then (if Accepts(e.key, e.data) then m[e.key := e.data] else m)
    else if e.kind == DELETE then Removed(m, e.key, now)
    else m
  }

  function Recovered(m: Table, es: seq<WalEntry>, now: i64): Table
  {
    if es == [] then m else Redo(Recovered(m, es[..|es| - 1], now), es[|es| - 1], now)
  }

  /** The operation on one memtable. */
  function Applied(m: Table, op: Op): Table
  {
    match op
    case PutOp(k, e) => if Accepts(k, e) then m[k := e] else m
    case RemoveOp(k, now) => Removed(m, k, now)
    case FlushOp(_, _) => m
  }

  /** Every operation applied to one memtable that is never flushed. */
  function InMemory(ops: seq<Op>): Table
  {
    if ops == [] then map[] else
      Applied(InMemory(ops[..|ops| - 1]), ops[|ops| - 1])
  }

  /** Equal up to version and timestamp, which the log does not carry. */
  ghost predicate SameContents(a: Table, b: Table)
  {
    && a.Keys == b.Keys
    && forall k :: k in a ==> a[k].value == b[k].value && a[k].deleted == b[k].deleted
  }

  // ---------------------------------------------------------------------------
  // The operations that a log stands for.

  function Mutation(e: WalEntry): seq<Op>
  {
    if e.kind == PUT then [PutOp(e.key, e.data)]
    else if e.kind == DELETE then [RemoveOp(e.key, e.data.timestamp)]
    else []
  }

  function Mutations(log: seq<WalEntry>): seq<Op>
  {
    if log == [] then [] else Mutations(log[..|log| - 1]) + Mutation(log[|log| - 1])
  }

  /** What the log can carry: keys without NUL bytes, and no put of an entry already marked deleted. */
  predicate Loggable(op: Op)
  {
    match op
    case PutOp(k, e) => NulFree(k) && !e.deleted
    case RemoveOp(k, _) => NulFree(k)
    case FlushOp(_, _) => true
  }

  ghost predicate LoggableLog(log: seq<WalEntry>)
  {
    forall e :: e in log ==> NulFree(e.key) && (e.kind == PUT ==> !e.data.deleted)
  }

  /** The type bytes in the log: 1 for a put, 2 for a remove, 4 for a checkpoint; the engine numbers every record 0. */
  lemma LoggedTypes(active: Table, frozen: Option<Table>, op: Op)
    ensures forall e :: e in Logs(active, frozen, op) ==>
      e.sequence == 0 && Serialize(e)[0] == if op.PutOp? then 1 else if op.RemoveOp? then 2 else 4
  {
    hide Proceeds;
    forall e | e in Logs(active, frozen, op)
      ensures Serialize(e)[0] == e.kind
    {
      PayloadLayout(e, 0);
    }
  }

  /** Every put that the memtable accepts is logged in a record that replay accepts. */
  lemma AcceptedIsSmall(k: Key, e: Entry)
    requires Accepts(k, e)
    ensures Small(WalEntry(PUT, k, e, 0))
  {
    SmallIff(WalEntry(PUT, k, e, 0));
  }

  lemma LogsAreLoggable(active: Table, frozen: Option<Table>, op: Op)
    requires Loggable(op)
    ensures LoggableLog(Logs(active, frozen, op))
  {
    hide Proceeds, NulFree;
    EmptyKeyIsNulFree();
  }

  lemma MutationsOfLogs(log: seq<WalEntry>, active: Table, frozen: Option<Table>, op: Op)
    ensures Mutations(log + Logs(active, frozen, op)) == Mutations(log) + (if op.FlushOp? then [] else [op])
  {
    hide Proceeds;
    var es := Logs(active, frozen, op);
    if es == [] {
      assert log + es == log && Mutations(log) + [] == Mutations(log);
    } else {
      assert (log + es)[..|log + es| - 1] == log && (log + es)[|log + es| - 1] == es[0];
    }
  }

  lemma AppliedLast(ops: seq<Op>, op: Op)
    ensures InMemory(ops + [op]) == Applied(InMemory(ops), op)
    ensures Plain(ops + [op]) == PlainStep(Plain(ops), op)
  {
    assert (ops + [op])[..|ops|] == ops;
  }

  lemma {:induction false} ParsedConcat(a: seq<WalEntry>, b: seq<WalEntry>, now: i64)
    ensures Parsed(a + b, now) == Parsed(a, now) + Parsed(b, now)
    decreases a
  {
    hide ParsedEntry, Parsed;
    if a == [] {
      assert a + b == b;
      ParsedNothing(now);
      assert [] + Parsed(b, now) == Parsed(b, now);
    } else {
      var rest, first := a[1..], [ParsedEntry(a[0], now)];
      ParsedConcat(rest, b, now);
      ParsedCons(a, now);
      ParsedCons(a + b, now);
      assert (a + b)[0] == a[0] && (a + b)[1..] == rest + b;
      Associate(first, Parsed(rest, now), Parsed(b, now));
    }
  }

  lemma ParsedNothing(now: i64)
    ensures Parsed([], now) == []
  {
  }

  lemma ParsedCons(es: seq<WalEntry>, now: i64)
    requires es != []
    ensures Parsed(es, now) == [ParsedEntry(es[0], now)] + Parsed(es[1..], now)
  {
    hide ParsedEntry;
  }

  lemma EmptyKeyIsNulFree()
    ensures NulFree(Key([], []))
  {
  }

  /** One entry, replayed or applied. */
  lemma RedoOne(m: Table, log: seq<WalEntry>, now: i64)
    requires log != [] && SameContents(m, InMemory(Mutations(log[..|log| - 1])))
    requires var e := log[|log| - 1]; NulFree(e.key) && (e.kind == PUT ==> !e.data.deleted)
    ensures SameContents(Redo(m, ParsedEntry(log[|log| - 1], now), now), InMemory(Mutations(log)))
  {
    hide NulFree, InMemory, Mutations, Redo, Applied, SameContents, ParsedEntry;
    var before, e := log[..|log| - 1], log[|log| - 1];
    var ops := Mutations(before);
    assert Mutations(log) == ops + Mutation(e) by { LastMutation(log); }
    assert ParsedEntry(e, now) == Logged(e, now) by { ParsedIsLoggedEntry(e, now); }
    RedoIsApplied(m, InMemory(ops), e, now);
    if e.kind == PUT {
      AppliedLast(ops, PutOp(e.key, e.data));
    } else if e.kind == DELETE {
      AppliedLast(ops, RemoveOp(e.key, e.data.timestamp));
    } else {
      assert ops + [] == ops;
    }
  }

  lemma LastMutation(log: seq<WalEntry>)
    requires log != []
    ensures Mutations(log) == Mutations(log[..|log| - 1]) + Mutation(log[|log| - 1])
  {
    hide Mutation;
  }

  lemma ParsedIsLoggedEntry(e: WalEntry, now: i64)
    requires NulFree(e.key)
    ensures ParsedEntry(e, now) == Logged(e, now)
  {
    hide Serialize, Deserialize, NulFree;
    EntryRoundTrip(e, now);
  }

  lemma RedoIsApplied(m: Table, n: Table, e: WalEntry, now: i64)
    requires SameContents(m, n) && (e.kind == PUT ==> !e.data.deleted)
    ensures SameContents(Redo(m, Logged(e, now), now),
      if e.kind == PUT then Applied(n, PutOp(e.key, e.data))
      else if e.kind == DELETE then Applied(n, RemoveOp(e.key, e.data.timestamp))
      else n)
  {
    assert Accepts(e.key, Logged(e, now).data) == Accepts(e.key, e.data);
  }

  /**
   * Replaying a log rebuilds the table that its operations would have built in one memtable, puts the memtable rejected
   * included, apart from versions and timestamps.
   */
  lemma {:induction false} RecoveryIsFold(log: seq<WalEntry>, now: i64)
    requires LoggableLog(log)
    ensures SameContents(Recovered(map[], Parsed(log, now), now), InMemory(Mutations(log)))
    decreases |log|
  {
    hide Parsed, ParsedEntry, SameContents, NulFree, Redo, Mutations, InMemory;
    if log == [] {
      ParsedNothing(now);
      NothingLogged();
    } else {
      var before, e := log[..|log| - 1], log[|log| - 1];
      assert e in log && forall x :: x in before ==> x in log;
      RecoveryIsFold(before, now);
      assert log == before + [e];
      ParsedConcat(before, [e], now);
      assert Parsed([e], now) == [ParsedEntry(e, now)] by { ParsedSingle(e, now); }
      var es := Parsed(log, now);
      assert es[|es| - 1] == ParsedEntry(e, now) && es[..|es| - 1] == Parsed(before, now);
      RedoOne(Recovered(map[], Parsed(before, now), now), log, now);
    }
  }

  lemma ParsedSingle(e: WalEntry, now: i64)
    ensures Parsed([e], now) == [ParsedEntry(e, now)]
  {
    hide ParsedEntry;
    assert [e][1..] == [];
  }

  lemma NothingLogged()
    ensures SameContents(map[], InMemory(Mutations([])))
  {
  }

  /** The live part of the unflushed table is the plain map. */
  lemma {:induction false} InMemoryIsPlain(ops: seq<Op>, k: Key)
    ensures Live(InMemory(ops), k) <==> k in Plain(ops)
    ensures k in Plain(ops) ==> InMemory(ops)[k] == Plain(ops)[k]
    decreases ops
  {
    hide Accepts;
    if ops != [] { InMemoryIsPlain(ops[..|ops| - 1], k); }
  }

  /** Replaying a whole log succeeds exactly when no record is over the limit. */
  lemma {:induction false} RecoverySucceeds(log: seq<WalEntry>, now: i64)
    requires FitsLength(log)
    ensures Replay(Log(log), 0, now).Ok? <==> AllSmall(log)
    ensures AllSmall(log) ==> Replay(Log(log), 0, now) == Ok(Parsed(log, now))
  {
    hide Replay, Log, Serialize, Parsed;
    WholeLogReplays(log, 0, now);
    FromZero(Parsed(log, now));
  }

  lemma {:induction false} LogConcat(a: seq<WalEntry>, b: seq<WalEntry>)
    ensures Log(a + b) == Log(a) + Log(b)
    decreases a
  {
    hide Record, Log;
    if a == [] {
      assert a + b == b;
      EmptyLog();
      assert [] + Log(b) == Log(b);
    } else {
      var rest := a[1..];
      LogConcat(rest, b);
      LogCons(a);
      LogCons(a + b);
      assert (a + b)[0] == a[0] && (a + b)[1..] == rest + b;
      Associate(Record(a[0]), Log(rest), Log(b));
    }
  }

  lemma EmptyLog()
    ensures Log([]) == []
  {
  }

  lemma LogCons(es: seq<WalEntry>)
    requires es != []
    ensures Log(es) == Record(es[0]) + Log(es[1..])
  {
    hide Record;
  }
}
