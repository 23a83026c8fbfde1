/** The layered state of the LSM engine (src/storage/lsm_tree.cpp) as values, and what all its runs keep. */
module Layers {
  import opened Bytes
  import opened Results
  import opened Keys
  import opened Ranges
  import opened MemTable

  /** `memtable_`, `immutable_memtable_` and the contents of `sstables_`, oldest first. */
  datatype Store = Store(active: Table, frozen: Option<Table>, tables: seq<Table>)

  function Reversed(tables: seq<Table>): (r: seq<Table>)
    ensures |r| == |tables|
  {
    if tables == [] then [] else [tables[|tables| - 1]] + Reversed(tables[..|tables| - 1])
  }

  /** The layers below the active memtable, newest first. */
  function Older(s: Store): seq<Table>
  {
    (if s.frozen.Some? then [s.frozen.value] else []) + Reversed(s.tables)
  }

  function Stack(s: Store): seq<Table>
  {
    [s.active] + Older(s)
  }

  /** How `get` searches: the newest layer in which the key is live; a tombstone does not stop the search. */
  function Lookup(layers: seq<Table>, k: Key): Result<Entry, Status>
  {
    if layers == [] then Err(NotFound)
    else if Live(layers[0], k) then Ok(layers[0][k])
    else Lookup(layers[1..], k)
  }

  function Get(s: Store, k: Key): Result<Entry, Status>
  {
    Lookup(Stack(s), k)
  }

  // ---------------------------------------------------------------------------
  // Steps.

  /** There is something to flush, and a leftover immutable memtable can be written first. */
  predicate Proceeds(active: Table, frozen: Option<Table>, firstOpens: bool)
  {
    active.Keys != {} && (frozen.Some? ==> frozen.value.Keys != {} && firstOpens)
  }

  /** `flush_memtable`; the flags say whether the first and the second SSTable file can be opened. */
  function Flush(s: Store, firstOpens: bool, secondOpens: bool): Store
  {
    if !Proceeds(s.active, s.frozen, firstOpens) then s else
      var tables := s.tables + (if s.frozen.Some? then [s.frozen.value] else []);
      if secondOpens then Store(map[], None, tables + [s.active]) else Store(map[], Some(s.active), tables)
  }

  /** The maps that the flush writes to files. */
  function Flushed(active: Table, frozen: Option<Table>, firstOpens: bool, secondOpens: bool): seq<Table>
  {
    if !Proceeds(active, frozen, firstOpens) then [] else
      (if frozen.Some? then [frozen.value] else []) + (if secondOpens then [active] else [])
  }

  datatype Op =
    | PutOp(key: Key, entry: Entry)
    | RemoveOp(key: Key, now: i64)
    | FlushOp(firstOpens: bool, secondOpens: bool)

  function Step(s: Store, op: Op): Store
  {
    match op
    case PutOp(k, e) => if Accepts(k, e) then s.(active := s.active[k := e]) else s
    case RemoveOp(k, now) => s.(active := Removed(s.active, k, now))
    case FlushOp(first, second) => Flush(s, first, second)
  }

  function Run(s: Store, ops: seq<Op>): Store
  {
    if ops == [] then s else Step(Run(s, ops[..|ops| - 1]), ops[|ops| - 1])
  }

  lemma RunStep(s: Store, ops: seq<Op>, n: nat)
    requires n < |ops|
    ensures Run(s, ops[..n + 1]) == Step(Run(s, ops[..n]), ops[n])
  {
    hide Step;
    assert ops[..n + 1][..n] == ops[..n];
  }

  lemma RunOfNothing(s: Store)
    ensures Run(s, []) == s
  {
  }

  const EMPTY: Store := Store(map[], None, [])

  // ---------------------------------------------------------------------------
  // The plain map the engine stands for.

  function PlainStep(m: Table, op: Op): Table
  {
    match op
    case PutOp(k, e) => if !Accepts(k, e) then m else if e.deleted then m - {k} else m[k := e]
    case RemoveOp(k, _) => m - {k}
    case FlushOp(_, _) => m
  }

  function Plain(ops: seq<Op>): Table
  {
    if ops == [] then map[] else PlainStep(Plain(ops[..|ops| - 1]), ops[|ops| - 1])
  }

  function PlainGet(ops: seq<Op>, k: Key): Result<Entry, Status>
  {
    if k in Plain(ops) then Ok(Plain(ops)[k]) else Err(NotFound)
  }

  /** What the newest layer that mentions a key says about it. */
  function Newest(layers: seq<Table>, k: Key): Result<Entry, Status>
  {
    if layers == [] then Err(NotFound)
    else if k in layers[0] then Found(layers[0], k)
    else Newest(layers[1..], k)
  }

  /** A tombstone of the key lies on top of an older live entry. */
  predicate Shadowed(layers: seq<Table>, k: Key)
  {
    Newest(layers, k).Err? && exists i :: 0 <= i < |layers| && Live(layers[i], k)
  }

  // ---------------------------------------------------------------------------
  // Flushing changes no answer.

  lemma ReversedAppend(tables: seq<Table>, t: Table)
    ensures Reversed(tables + [t]) == [t] + Reversed(tables)
  {
    assert (tables + [t])[..|tables|] == tables;
  }

  /** Apart from empty layers, a flush leaves the stack of layers as it was. */
  lemma FlushStack(s: Store, firstOpens: bool, secondOpens: bool)
    ensures var t := Flush(s, firstOpens, secondOpens);
      t == s || Stack(t) == [map[]] + Stack(s)
  {
    var t := Flush(s, firstOpens, secondOpens);
    if t != s {
      if s.frozen.Some? { ReversedAppend(s.tables, s.frozen.value); }
      var tables := s.tables + (if s.frozen.Some? then [s.frozen.value] else []);
      assert s.tables + [] == s.tables;
      assert Reversed(tables) == Older(s);
      ReversedAppend(tables, s.active);
    }
  }

  /** From any state, and whether either file fails to open: `flush_memtable` changes no answer of `get`. */
  lemma FlushIsInvisible(s: Store, firstOpens: bool, secondOpens: bool, k: Key)
    ensures Get(Flush(s, firstOpens, secondOpens), k) == Get(s, k)
    ensures Newest(Stack(Flush(s, firstOpens, secondOpens)), k) == Newest(Stack(s), k)
    ensures Shadowed(Stack(Flush(s, firstOpens, secondOpens)), k) == Shadowed(Stack(s), k)
  {
    hide Flush, Stack;
    var t := Flush(s, firstOpens, secondOpens);
    FlushStack(s, firstOpens, secondOpens);
    if t != s {
      assert Stack(t)[1..] == Stack(s);
      LookupVersusNewest(Stack(t), k);
      LookupVersusNewest(Stack(s), k);
    }
  }

  // ---------------------------------------------------------------------------
  // Refinement of the plain map.

  /** In every run from an empty engine, the newest mention of each key says what the plain map says. */
  lemma {:induction false} NewestIsPlain(ops: seq<Op>, k: Key)
    ensures Newest(Stack(Run(EMPTY, ops)), k) == PlainGet(ops, k)
    decreases ops
  {
    hide Accepts, Stack;
    if ops == [] {
      EmptyStack(k);
    } else {
      var before, op := ops[..|ops| - 1], ops[|ops| - 1];
      var s := Run(EMPTY, before);
      NewestIsPlain(before, k);
      match op
      case FlushOp(first, second) => FlushIsInvisible(s, first, second, k);
      case _ => NewestAfterWrite(s, Step(s, op), k);
    }
  }

  lemma EmptyStack(k: Key)
    ensures Stack(EMPTY) == [map[]]
    ensures Newest(Stack(EMPTY), k) == Err(NotFound)
  {
    assert Stack(EMPTY)[1..] == [];
  }

  lemma NewestAfterWrite(s: Store, t: Store, k: Key)
    requires t == s.(active := t.active)
    ensures Newest(Stack(t), k) == if k in t.active then Found(t.active, k) else Newest(Older(s), k)
    ensures Newest(Stack(s), k) == if k in s.active then Found(s.active, k) else Newest(Older(s), k)
  {
    assert Stack(t)[1..] == Older(s) && Stack(s)[1..] == Older(s);
  }

  lemma {:induction false} LookupVersusNewest(layers: seq<Table>, k: Key)
    ensures Newest(layers, k).Ok? ==> Lookup(layers, k) == Newest(layers, k)
    ensures Newest(layers, k).Err? ==> Newest(layers, k) == Err(NotFound)
    ensures Lookup(layers, k).Err? ==> Lookup(layers, k) == Err(NotFound)
    ensures Lookup(layers, k).Ok? <==> exists i :: 0 <= i < |layers| && Live(layers[i], k)
    decreases layers
  {
    if layers != [] {
      var rest := layers[1..];
      LookupVersusNewest(rest, k);
      if Live(layers[0], k) {
        assert exists i :: 0 <= i < |layers| && Live(layers[i], k);
      } else {
        if i :| 0 <= i < |rest| && Live(rest[i], k) { assert Live(layers[i + 1], k); }
        if i :| 0 <= i < |layers| && Live(layers[i], k) { assert Live(rest[i - 1], k); }
      }
    }
  }

  /**
   * After any run of puts, removes and flushes, whatever fails, `get` answers as the plain map does exactly when no
   * tombstone of the key lies on top of an older live entry.
   */
  lemma GetRefinesPlainMap(ops: seq<Op>, k: Key)
    ensures Get(Run(EMPTY, ops), k) == PlainGet(ops, k) <==> !Shadowed(Stack(Run(EMPTY, ops)), k)
  {
    hide Stack, Run, Plain;
    NewestIsPlain(ops, k);
    LookupVersusNewest(Stack(Run(EMPTY, ops)), k);
  }

  /** After any run a put is read back exactly when its sizes are within the bounds; otherwise it changes nothing. */
  lemma PutReadsBack(ops: seq<Op>, k: Key, e: Entry)
    requires !e.deleted
    ensures var s, t := Run(EMPTY, ops), Run(EMPTY, ops + [PutOp(k, e)]);
      if |k.primary| + |k.secondary| <= 255 && |e.value| <= 4096 then Get(t, k) == Ok(e) else t == s
  {
    hide Older;
    assert (ops + [PutOp(k, e)])[..|ops|] == ops;
    AcceptsIff(k, e);
  }

  /** The operation takes the key away: a remove, or an accepted put of an entry that is already marked deleted. */
  predicate Deletes(op: Op, k: Key)
  {
    match op
    case PutOp(key, e) => key == k && Accepts(key, e) && e.deleted
    case RemoveOp(key, _) => key == k
    case FlushOp(_, _) => false
  }

  ghost predicate NoTombstone(layers: seq<Table>, k: Key)
  {
    forall i :: 0 <= i < |layers| && k in layers[i] ==> !layers[i][k].deleted
  }

  lemma {:induction false} NeverDeletedHasNoTombstone(ops: seq<Op>, k: Key)
    requires forall op :: op in ops ==> !Deletes(op, k)
    ensures NoTombstone(Stack(Run(EMPTY, ops)), k)
    decreases ops
  {
    hide Accepts, Flush, Reversed, Older;
    EmptyStack(k);
    if ops != [] {
      var before, op := ops[..|ops| - 1], ops[|ops| - 1];
      var s := Run(EMPTY, before);
      assert op in ops && forall x :: x in before ==> x in ops;
      NeverDeletedHasNoTombstone(before, k);
      var t := Step(s, op);
      if op.FlushOp? {
        FlushStack(s, op.firstOpens, op.secondOpens);
        if t != s { EmptyLayerOnTop(Stack(s), k); }
      } else {
        assert Stack(t) == [t.active] + Stack(s)[1..] by { OlderIgnoresActive(s, t); }
        assert Stack(s)[0] == s.active;
      }
    }
  }

  lemma EmptyLayerOnTop(layers: seq<Table>, k: Key)
    requires NoTombstone(layers, k)
    ensures NoTombstone([map[]] + layers, k)
  {
  }

  /** For a key that is never taken away, `get` returns the last accepted put over any run of puts and flushes. */
  lemma NeverDeletedReadsLastPut(ops: seq<Op>, k: Key)
    requires forall op :: op in ops ==> !Deletes(op, k)
    ensures Get(Run(EMPTY, ops), k) == PlainGet(ops, k)
  {
    hide Stack, Run, Plain, Deletes;
    var layers := Stack(Run(EMPTY, ops));
    NeverDeletedHasNoTombstone(ops, k);
    LookupVersusNewest(layers, k);
    MentionedIsNewest(layers, k);
    GetRefinesPlainMap(ops, k);
  }

  lemma {:induction false} MentionedIsNewest(layers: seq<Table>, k: Key)
    requires NoTombstone(layers, k)
    ensures Newest(layers, k).Ok? <==> exists i :: 0 <= i < |layers| && Live(layers[i], k)
    decreases layers
  {
    if layers != [] {
      var rest := layers[1..];
      assert forall i :: 0 <= i < |rest| ==> rest[i] == layers[i + 1];
      MentionedIsNewest(rest, k);
      if k in layers[0] {
        assert Live(layers[0], k);
      } else {
        if i :| 0 <= i < |rest| && Live(rest[i], k) { assert Live(layers[i + 1], k); }
        if i :| 0 <= i < |layers| && Live(layers[i], k) { assert Live(rest[i - 1], k); }
      }
    }
  }

  /** The order `get` searches in. */
  lemma GetInOrder(s: Store, k: Key)
    ensures Get(s, k)
      == if Live(s.active, k) then Ok(s.active[k])
         else if s.frozen.Some? && Live(s.frozen.value, k) then Ok(s.frozen.value[k])
         else Lookup(Reversed(s.tables), k)
    ensures Lookup(Reversed(s.tables), k).Err? ==> Lookup(Reversed(s.tables), k) == Err(NotFound)
  {
    hide Reversed;
    assert Stack(s)[1..] == Older(s);
    if s.frozen.Some? {
      assert Older(s)[1..] == Reversed(s.tables) && Older(s)[0] == s.frozen.value;
      assert Lookup(Older(s), k)
          == if Live(s.frozen.value, k) then Ok(s.frozen.value[k]) else Lookup(Reversed(s.tables), k);
    } else {
      assert Older(s) == Reversed(s.tables);
    }
    LookupVersusNewest(Reversed(s.tables), k);
  }

  /** A remove takes effect exactly when no older layer still holds the key live. */
  lemma RemoveTakesEffect(s: Store, k: Key, now: i64)
    ensures Get(Step(s, RemoveOp(k, now)), k) == Lookup(Older(s), k)
    ensures Get(Step(s, RemoveOp(k, now)), k) == Err(NotFound)
       <==> forall i :: 0 <= i < |Older(s)| ==> !Live(Older(s)[i], k)
  {
    hide Older;
    var t := Step(s, RemoveOp(k, now));
    assert Older(t) == Older(s) by { OlderIgnoresActive(s, t); }
    assert Stack(t)[1..] == Older(s);
    LookupVersusNewest(Older(s), k);
  }

  lemma OlderIgnoresActive(s: Store, t: Store)
    requires t == s.(active := t.active)
    ensures Older(t) == Older(s)
  {
  }

  /** The failing case, end to end: put, flush, remove, and the removed value is read again. */
  lemma RemovedValueComesBack(k: Key, e: Entry, now: i64)
    requires Accepts(k, e) && !e.deleted
    ensures var ops := [PutOp(k, e), FlushOp(true, true), RemoveOp(k, now)];
      PlainGet(ops, k) == Err(NotFound) && Get(Run(EMPTY, ops), k) == Ok(e)
  {
    hide Accepts, Run, Plain, Get;
    var ops := [PutOp(k, e), FlushOp(true, true), RemoveOp(k, now)];
    assert ops[..0] == [] && ops[..3] == ops;
    RunOfNothing(EMPTY);
    RunStep(EMPTY, ops, 0);
    RunStep(EMPTY, ops, 1);
    RunStep(EMPTY, ops, 2);
    var flushed := map[k := e];
    assert k in flushed.Keys;
    assert Run(EMPTY, ops[..1]) == Store(flushed, None, []);
    assert Run(EMPTY, ops[..2]) == Store(map[], None, [flushed]);
    RemoveTakesEffect(Run(EMPTY, ops[..2]), k, now);
    assert Older(Run(EMPTY, ops[..2])) == [flushed] by { assert [flushed][..0] == []; }
    assert Live(flushed, k);
    RemovedFromPlain(ops, k);
  }

  lemma RemovedFromPlain(ops: seq<Op>, k: Key)
    requires ops != [] && ops[|ops| - 1].RemoveOp? && ops[|ops| - 1].key == k
    ensures PlainGet(ops, k) == Err(NotFound)
  {
  }

  // ---------------------------------------------------------------------------
  // When a tombstone shadows a live entry, from the operations alone.

  /** Whether the active memtable holds anything, and whether a frozen one is left over. */
  datatype Progress = Progress(pending: bool, leftover: bool)

  predicate Moves(p: Progress, op: Op)
  {
    op.FlushOp? && p.pending && (p.leftover ==> op.firstOpens)
  }

  function ProgressOf(ops: seq<Op>): Progress
  {
    if ops == [] then Progress(false, false) else
      var p, op := ProgressOf(ops[..|ops| - 1]), ops[|ops| - 1];
      if op.FlushOp? then (if Moves(p, op) then Progress(false, !op.secondOpens) else p)
      else p.(pending := p.pending || op.RemoveOp? || Accepts(op.key, op.entry))
  }

  /** The flush at position `f` moves the memtable down. */
  predicate FlushesAt(ops: seq<Op>, f: nat)
    requires f < |ops|
  {
    Moves(ProgressOf(ops[..f]), ops[f])
  }

  lemma {:induction false} ProgressIsState(ops: seq<Op>)
    ensures var s, p := Run(EMPTY, ops), ProgressOf(ops);
      && (s.active.Keys != {} <==> p.pending)
      && (s.frozen.Some? <==> p.leftover)
      && (s.frozen.Some? ==> s.frozen.value.Keys != {})
    decreases ops
  {
    hide Accepts;
    if ops != [] {
      var before, op := ops[..|ops| - 1], ops[|ops| - 1];
      ProgressIsState(before);
      var s, t := Run(EMPTY, before), Run(EMPTY, ops);
      if op.PutOp? && Accepts(op.key, op.entry) { assert op.key in t.active.Keys; }
      if op.RemoveOp? { assert op.key in t.active.Keys; }
    }
  }

  ghost predicate LiveIn(layers: seq<Table>, k: Key)
  {
    exists i :: 0 <= i < |layers| && Live(layers[i], k)
  }

  ghost predicate FlushedLive(ops: seq<Op>, k: Key)
  {
    exists f :: 0 <= f < |ops| && FlushesAt(ops, f) && k in Plain(ops[..f])
  }

  lemma FlushedLiveLast(ops: seq<Op>, k: Key)
    requires ops != []
    ensures var before, last := ops[..|ops| - 1], |ops| - 1;
      FlushedLive(ops, k) <==> FlushedLive(before, k) || (FlushesAt(ops, last) && k in Plain(before))
  {
    hide Plain, FlushesAt;
    var before, last := ops[..|ops| - 1], |ops| - 1;
    forall f | 0 <= f < last
      ensures FlushesAt(ops, f) <==> FlushesAt(before, f)
      ensures ops[..f] == before[..f]
    {
      SameFlush(ops, f);
    }
    assert ops[..last] == before;
  }

  lemma SameFlush(ops: seq<Op>, f: nat)
    requires f < |ops| - 1
    ensures ops[..f] == ops[..|ops| - 1][..f]
    ensures FlushesAt(ops, f) <==> FlushesAt(ops[..|ops| - 1], f)
  {
    hide ProgressOf;
    assert ops[..f] == ops[..|ops| - 1][..f];
  }

  /** An older layer holds a key live exactly when some flush moved the memtable down while the key was present. */
  lemma {:induction false} OlderIsFlushed(ops: seq<Op>, k: Key)
    ensures LiveIn(Older(Run(EMPTY, ops)), k) <==> FlushedLive(ops, k)
    decreases ops
  {
    hide Older, Plain, FlushedLive, Step, LiveIn;
    if ops == [] {
      NothingFlushed(k);
    } else {
      var before, op := ops[..|ops| - 1], ops[|ops| - 1];
      var s := Run(EMPTY, before);
      OlderIsFlushed(before, k);
      FlushedLiveLast(ops, k);
      ProgressIsState(before);
      if op.FlushOp? {
        OlderAfterFlush(s, op.firstOpens, op.secondOpens, k);
        PlainIsLive(before, k);
      } else {
        OlderIgnoresActive(s, Step(s, op)) by { WriteKeepsLayers(s, op); }
      }
    }
  }

  lemma NothingFlushed(k: Key)
    ensures !LiveIn(Older(EMPTY), k) && !FlushedLive([], k)
  {
  }

  lemma WriteKeepsLayers(s: Store, op: Op)
    requires !op.FlushOp?
    ensures Step(s, op) == s.(active := Step(s, op).active)
  {
  }

  /** A present key is live in the memtable or further down. */
  lemma PlainIsLive(ops: seq<Op>, k: Key)
    ensures var s := Run(EMPTY, ops);
      && (k in Plain(ops) ==> Live(s.active, k) || LiveIn(Older(s), k))
      && (Live(s.active, k) ==> k in Plain(ops))
  {
    hide Older, Plain, Run;
    var s := Run(EMPTY, ops);
    NewestIsPlain(ops, k);
    NewestAfterWrite(s, s, k);
    LookupVersusNewest(Older(s), k);
  }

  lemma OlderAfterFlush(s: Store, firstOpens: bool, secondOpens: bool, k: Key)
    ensures var t := Step(s, FlushOp(firstOpens, secondOpens));
      LiveIn(Older(t), k) <==>
        LiveIn(Older(s), k) || (Proceeds(s.active, s.frozen, firstOpens) && Live(s.active, k))
  {
    hide Older, Flush;
    var t := Flush(s, firstOpens, secondOpens);
    FlushStack(s, firstOpens, secondOpens);
    FlushEmpties(s, firstOpens, secondOpens);
    if Proceeds(s.active, s.frozen, firstOpens) {
      assert Stack(t)[1..] == Older(t) && Stack(t)[1..] == Stack(s);
      var layers := Stack(s);
      assert layers[0] == s.active && forall i :: 0 <= i < |Older(s)| ==> layers[i + 1] == Older(s)[i];
    }
  }

  lemma FlushEmpties(s: Store, firstOpens: bool, secondOpens: bool)
    ensures var t := Flush(s, firstOpens, secondOpens);
      if Proceeds(s.active, s.frozen, firstOpens) then t != s && t.active == map[] else t == s
  {
  }

  /**
   * A tombstone shadows a live entry exactly when the key is gone from the plain map although some flush moved the
   * memtable down while it was there: a put, a flush and a later delete.
   */
  lemma ShadowedIff(ops: seq<Op>, k: Key)
    ensures Shadowed(Stack(Run(EMPTY, ops)), k) <==> k !in Plain(ops) && FlushedLive(ops, k)
  {
    hide Older, Plain, Run, FlushedLive;
    var s := Run(EMPTY, ops);
    NewestIsPlain(ops, k);
    OlderIsFlushed(ops, k);
    PlainIsLive(ops, k);
    var layers := Stack(s);
    assert layers[0] == s.active && forall i :: 0 <= i < |Older(s)| ==> layers[i + 1] == Older(s)[i];
  }

  // ---------------------------------------------------------------------------
  // Compaction as it is written: the two oldest tables are taken out, and the merge that follows fails.

  function Compacted(s: Store): Store
  {
    if |s.tables| < 2 then s else s.(tables := s.tables[2..])
  }

  /**
   * `get` keeps its answer exactly when a layer that stays holds the key live or neither of the two oldest tables does.
   */
  lemma CompactionSurvivedIff(s: Store, k: Key)
    ensures Get(Compacted(s), k) == Get(s, k) <==>
      || |s.tables| < 2
      || LiveIn(Stack(Compacted(s)), k)
      || (!Live(s.tables[0], k) && !Live(s.tables[1], k))
  {
    hide Stack;
    if |s.tables| >= 2 {
      var kept := Stack(Compacted(s));
      OldestLast(s);
      LookupOfTwo(kept, s.tables[1], s.tables[0], k);
      LookupVersusNewest(kept, k);
    }
  }

  lemma OldestLast(s: Store)
    requires |s.tables| >= 2
    ensures Stack(s) == Stack(Compacted(s)) + [s.tables[1], s.tables[0]]
  {
    ReversedOldest(s.tables);
  }

  lemma {:induction false} ReversedOldest(tables: seq<Table>)
    requires |tables| >= 2
    ensures Reversed(tables) == Reversed(tables[2..]) + [tables[1], tables[0]]
    decreases |tables|
  {
    var front, last := tables[..|tables| - 1], tables[|tables| - 1];
    if |tables| == 2 {
      assert front == [tables[0]] && front[..0] == [];
      assert Reversed(front) == [tables[0]];
      assert tables[2..] == [];
    } else {
      ReversedOldest(front);
      assert tables[2..][..|tables[2..]| - 1] == front[2..];
      assert Reversed(tables[2..]) == [last] + Reversed(front[2..]);
    }
  }

  lemma {:induction false} LookupOfTwo(layers: seq<Table>, a: Table, b: Table, k: Key)
    ensures Lookup(layers + [a, b], k) ==
      if Lookup(layers, k).Ok? then Lookup(layers, k)
      else if Live(a, k) then Ok(a[k])
      else if Live(b, k) then Ok(b[k])
      else Err(NotFound)
    decreases |layers|
  {
    var all := layers + [a, b];
    if layers == [] {
      assert all[1..] == [b] && [b][1..] == [];
    } else {
      LookupOfTwo(layers[1..], a, b, k);
      assert all[0] == layers[0] && all[1..] == layers[1..] + [a, b];
    }
  }

  /** Two flushed keys and one compaction: both are gone. */
  lemma CompactionLoses(j: Key, k: Key, e: Entry, f: Entry)
    requires j != k && Accepts(j, e) && Accepts(k, f) && !e.deleted && !f.deleted
    ensures var s := Run(EMPTY, [PutOp(j, e), FlushOp(true, true), PutOp(k, f), FlushOp(true, true)]);
      && Get(s, j) == Ok(e) && Get(s, k) == Ok(f)
      && Get(Compacted(s), j) == Err(NotFound) && Get(Compacted(s), k) == Err(NotFound)
  {
    hide Accepts, Run;
    var ops := [PutOp(j, e), FlushOp(true, true), PutOp(k, f), FlushOp(true, true)];
    assert ops[..0] == [] && ops[..4] == ops;
    RunOfNothing(EMPTY);
    RunStep(EMPTY, ops, 0);
    RunStep(EMPTY, ops, 1);
    RunStep(EMPTY, ops, 2);
    RunStep(EMPTY, ops, 3);
    var a, b := map[j := e], map[k := f];
    assert j in a.Keys && k in b.Keys;
    assert Run(EMPTY, ops[..1]) == Store(a, None, []);
    assert Run(EMPTY, ops[..2]) == Store(map[], None, [a]);
    assert Run(EMPTY, ops[..3]) == Store(b, None, [a]);
    var s := Run(EMPTY, ops);
    assert s == Store(map[], None, [a, b]);
    assert Compacted(s) == EMPTY;
    TwoTables(a, b);
    assert Live(b, k) && Live(a, j) && !Live(b, j);
    LookupOfTwo([map[]], b, a, j);
    LookupOfTwo([map[]], b, a, k);
    EmptyStack(j);
    var bare: seq<Table> := [map[]];
    assert Lookup(bare, j) == Err(NotFound) && Lookup(bare, k) == Err(NotFound) by { assert bare[1..] == []; }
  }

  lemma TwoTables(a: Table, b: Table)
    ensures Stack(Store(map[], None, [a, b])) == [map[]] + [b, a]
  {
    assert [a, b][..1] == [a] && [a][..0] == [];
    assert Reversed([a]) == [a];
  }
}
