/** Runs of the engine over restarts and crashes (`LSMTreeEngine::open`), on the bytes of its log and table files. */
module Restarts {
  import opened Bytes
  import opened Collections
  import opened Results
  import opened Keys
  import opened Ranges
  import opened MemTable
  import opened Layers
  import opened Disk
  import opened Recovery
  import S = SsTable
  import opened Wal

  // ---------------------------------------------------------------------------
  // Runs on maps.

  /**
   * An engine operation, a compaction, or the end of the process: the first `kept` bytes of the log survive, all if it
   * has no more, and a new engine opens the directory.
   */
  datatype Event = Do(op: Op) | Compact | Restart(kept: nat, now: i64)

  /** The stack of maps, the log as entries and what a crash left behind them, and the maps whose files are on disk. */
  datatype Durable = Durable(store: Store, log: seq<WalEntry>, tail: Str, files: seq<Table>)

  const NEW: Durable := Durable(EMPTY, [], [], [])

  function LogBytes(d: Durable): Str
  {
    Log(d.log) + d.tail
  }

  /** Entries appended behind a torn record stay part of the tail. */
  function Append(d: Durable, es: seq<WalEntry>): Durable
  {
    if d.tail == [] then d.(log := d.log + es) else d.(tail := d.tail + Log(es))
  }

  function FlushedBy(active: Table, frozen: Option<Table>, op: Op): seq<Table>
  {
    if op.FlushOp? then Flushed(active, frozen, op.firstOpens, op.secondOpens) else []
  }

  /** What the first `kept` bytes of the log hold: whole records, and a piece of one. */
  function Cut(d: Durable, kept: nat): Durable
  {
    if kept >= |Log(d.log)| then d.(tail := Take(d.tail, kept - |Log(d.log)|)) else
      CutPoint(d.log, kept);
      var k := Complete(d.log, kept);
      d.(log := d.log[..k], tail := Record(d.log[k])[..kept - |Log(d.log[..k])|])
  }

  function Done(d: Durable, op: Op): Durable
  {
    Append(
      d.(store := Step(d.store, op), files := d.files + FlushedBy(d.store.active, d.store.frozen, op)),
      Logs(d.store.active, d.store.frozen, op))
  }

  /** Nothing, if the engine cannot be opened. */
  ghost function Next(d: Durable, e: Event): Option<Durable>
  {
    match e
    case Do(op) => Some(Done(d, op))
    case Compact => Some(d.(store := Compacted(d.store)))
    case Restart(kept, now) =>
      var c := Cut(d, kept);
      var rest := Replay(c.tail, 0, now);
      if !AllSmall(c.log) || rest.Err? then None
      else Some(c.(store := Store(Recovered(map[], Parsed(c.log, now) + rest.value, now), None, c.files)))
  }

  ghost function Lives(events: seq<Event>): Option<Durable>
  {
    if events == [] then Some(NEW) else
      var before := Lives(events[..|events| - 1]);
      if before.None? then None else Next(before.value, events[|events| - 1])
  }

  lemma CutBytes(d: Durable, kept: nat)
    ensures LogBytes(Cut(d, kept)) == Take(LogBytes(d), kept)
    ensures Cut(d, kept).log <= d.log && Cut(d, kept).store == d.store && Cut(d, kept).files == d.files
    ensures kept >= |LogBytes(d)| ==> Cut(d, kept) == d
  {
    hide Log, Record, Complete;
    if kept < |Log(d.log)| { CutPoint(d.log, kept); }
  }

  /** A piece of a record is shorter than the record, and shorter than a header if replay is to accept it. */
  lemma CutOpens(d: Durable, kept: nat, now: i64)
    requires d.tail == [] && FitsLength(d.log)
    ensures var c := Cut(d, kept);
      Next(d, Restart(kept, now)).Some? <==> AllSmall(c.log) && |c.tail| < 8
  {
    hide Log, Record, Complete, Replay, Recovered, Parsed, AllSmall, Serialize;
    if kept < |Log(d.log)| {
      CutPoint(d.log, kept);
      var k := Complete(d.log, kept);
      assert d.log[k] in d.log;
      ReplayCutRecord(d.log[k], kept - |Log(d.log[..k])|, 0, now);
    } else {
      ShortTail([], now);
    }
  }

  lemma ShortTail(tail: Str, now: i64)
    requires |tail| < 8
    ensures Replay(tail, 0, now) == Ok([])
  {
  }

  // ---------------------------------------------------------------------------
  // The same runs on the bytes of the directory.

  /** `open` of a new engine: replay the log into the memtable, then load the table files. */
  function Reopen(log: Str, files: seq<Str>, now: i64): Results.Result<Image, LogError>
  {
    var replayed := Replay(log, 0, now);
    if replayed.Err? then Err(replayed.error)
    else Ok(Image(Recovered(map[], replayed.value, now), None, Loaded(files)))
  }

  /** The engine in memory, the log file, and the table files in the order of their names. */
  datatype Node = Node(image: Image, log: Str, files: seq<Str>)

  const NEW_NODE: Node := Node(NO_DATA, [], [])

  function FilesFrom(im: Image, op: Op): seq<Str>
  {
    FilesOf(FlushedBy(im.active, im.frozen, op))
  }

  function NodeDone(n: Node, op: Op): Node
  {
    var logged := Log(Logs(n.image.active, n.image.frozen, op));
    Node(ImageStep(n.image, op), n.log + logged, n.files + FilesFrom(n.image, op))
  }

  function NodeNext(n: Node, e: Event): Option<Node>
  {
    match e
    case Do(op) => Some(NodeDone(n, op))
    case Compact => Some(n.(image := ImageCompact(n.image)))
    case Restart(kept, now) =>
      var log := Take(n.log, kept);
      var reopened := Reopen(log, n.files, now);
      if reopened.Err? then None else Some(Node(reopened.value, log, n.files))
  }

  function NodeRun(events: seq<Event>): Option<Node>
  {
    if events == [] then Some(NEW_NODE) else
      var before := NodeRun(events[..|events| - 1]);
      if before.None? then None else NodeNext(before.value, events[|events| - 1])
  }

  /** Same memtables; log and files hold the entries and maps; each table in memory is as written or as reloaded. */
  ghost predicate Tracks(n: Node, d: Durable)
  {
    && n.image.active == d.store.active && n.image.frozen == d.store.frozen
    && n.log == LogBytes(d) && n.files == FilesOf(d.files)
    && TracksTables(n.image.disk, d.store.tables)
  }

  ghost predicate TracksTables(disk: seq<DiskTable>, tables: seq<Table>)
  {
    && |disk| == |tables|
    && forall i :: 0 <= i < |tables| ==> disk[i] == Written(tables[i]) || disk[i] == Reloaded(tables[i])
  }

  lemma MoreTables(disk: seq<DiskTable>, tables: seq<Table>, grown: seq<DiskTable>, more: seq<Table>)
    requires TracksTables(disk, tables) && |grown| == |disk| + |more|
    requires forall i :: 0 <= i < |disk| ==> grown[i] == disk[i]
    requires forall i :: 0 <= i < |more| ==> grown[|disk| + i] == Written(more[i])
    ensures TracksTables(grown, tables + more)
  {
    hide Written, Reloaded;
    var all := tables + more;
    forall i | 0 <= i < |all|
      ensures grown[i] == Written(all[i]) || grown[i] == Reloaded(all[i])
    {
      if i >= |disk| { assert grown[|disk| + (i - |disk|)] == Written(more[i - |disk|]); }
    }
  }

  lemma FilesConcat(a: seq<Table>, b: seq<Table>)
    ensures FilesOf(a + b) == FilesOf(a) + FilesOf(b)
  {
    hide S.FileOf, S.Entries;
  }

  lemma FlushAppends(s: Store, op: Op)
    ensures Step(s, op).tables == s.tables + FlushedBy(s.active, s.frozen, op)
  {
  }

  lemma DiskAppends(im: Image, op: Op)
    ensures var disk, more := ImageStep(im, op).disk, FlushedBy(im.active, im.frozen, op);
      && |disk| == |im.disk| + |more|
      && (forall i :: 0 <= i < |im.disk| ==> disk[i] == im.disk[i])
      && forall i :: 0 <= i < |more| ==> disk[|im.disk| + i] == Written(more[i])
  {
    hide Written;
  }

  lemma DoKeepsMemtables(im: Image, s: Store, op: Op)
    requires im.active == s.active && im.frozen == s.frozen
    ensures ImageStep(im, op).active == Step(s, op).active && ImageStep(im, op).frozen == Step(s, op).frozen
  {
  }

  lemma AppendBytes(d: Durable, es: seq<WalEntry>)
    ensures LogBytes(Append(d, es)) == LogBytes(d) + Log(es)
    ensures Append(d, es).store == d.store && Append(d, es).files == d.files
  {
    hide Log;
    if d.tail == [] {
      LogConcat(d.log, es);
      assert (Log(d.log) + Log(es)) + [] == (Log(d.log) + []) + Log(es);
    } else {
      Associate(Log(d.log), d.tail, Log(es));
    }
  }

  lemma DoTracks(n: Node, d: Durable, op: Op)
    requires Tracks(n, d)
    ensures Tracks(NodeDone(n, op), Done(d, op))
  {
    hide Written, LogBytes, Log, Logs, FilesOf, ImageStep, Step, FlushedBy, TracksTables, Append;
    var more := FlushedBy(d.store.active, d.store.frozen, op);
    var stepped := d.(store := Step(d.store, op), files := d.files + more);
    AppendBytes(stepped, Logs(d.store.active, d.store.frozen, op));
    SameBytes(stepped, d);
    DoKeepsMemtables(n.image, d.store, op);
    FilesConcat(d.files, more);
    DoTracksTables(n.image, d.store, op);
  }

  lemma DoTracksTables(im: Image, s: Store, op: Op)
    requires im.active == s.active && im.frozen == s.frozen && TracksTables(im.disk, s.tables)
    ensures TracksTables(ImageStep(im, op).disk, Step(s, op).tables)
  {
    hide Written, ImageStep, Step, FlushedBy, TracksTables;
    FlushAppends(s, op);
    DiskAppends(im, op);
    MoreTables(im.disk, s.tables, ImageStep(im, op).disk, FlushedBy(s.active, s.frozen, op));
  }

  lemma SameBytes(a: Durable, b: Durable)
    requires a.log == b.log && a.tail == b.tail
    ensures LogBytes(a) == LogBytes(b)
  {
  }

  lemma CompactTracks(n: Node, d: Durable)
    requires Tracks(n, d)
    ensures Tracks(NodeNext(n, Compact).value, Next(d, Compact).value)
  {
    hide Written, Reloaded, Log, FilesOf;
  }

  /**
   * Opening on the bytes succeeds exactly when no whole record is over 1 MiB and replay accepts what is left behind
   * them, and then does what the run of maps says.
   */
  lemma RestartTracks(n: Node, d: Durable, kept: nat, now: i64)
    requires Tracks(n, d) && FitsLength(d.log) && AllFit(d.files)
    ensures NodeNext(n, Restart(kept, now)).Some? <==> Next(d, Restart(kept, now)).Some?
    ensures Next(d, Restart(kept, now)).Some? ==>
      Tracks(NodeNext(n, Restart(kept, now)).value, Next(d, Restart(kept, now)).value)
  {
    hide Written, Log, Replay, Parsed, Recovered, FitsLength, AllSmall, AllFit, FilesOf, Loaded, Cut, Take,
      TracksTables;
    var c := Cut(d, kept);
    CutBytes(d, kept);
    assert FitsLength(c.log) by { PrefixFits(c.log, d.log); }
    ReplayLogThen(c.log, c.tail, 0, now);
    FromZero(Parsed(c.log, now));
    ReloadTracks(d.files);
  }

  lemma PrefixFits(a: seq<WalEntry>, b: seq<WalEntry>)
    requires a <= b
    ensures FitsLength(b) ==> FitsLength(a)
    ensures AllSmall(b) ==> AllSmall(a)
    ensures LoggableLog(b) ==> LoggableLog(a)
  {
    hide Serialize, NulFree;
    assert forall e :: e in a ==> e in b;
  }

  lemma ReloadTracks(tables: seq<Table>)
    requires AllFit(tables)
    ensures TracksTables(Loaded(FilesOf(tables)), tables)
  {
    hide Written, Reloaded, Loaded, FilesOf, AllFit;
    LoadedFiles(tables);
  }

  /** In every state of the run that was reached, records and tables fit the fields of the formats. */
  ghost predicate Fitting(events: seq<Event>)
  {
    && (Lives(events).Some? ==> FitsLength(Lives(events).value.log) && AllFit(Lives(events).value.files))
    && (events != [] ==> Fitting(events[..|events| - 1]))
  }

  /** Every run on bytes follows the run on maps, and stops where that one does. */
  lemma {:induction false} NodeFollows(events: seq<Event>)
    requires Fitting(events)
    ensures NodeRun(events).Some? <==> Lives(events).Some?
    ensures Lives(events).Some? ==> Tracks(NodeRun(events).value, Lives(events).value)
    decreases |events|
  {
    hide Next, NodeNext, Tracks, FitsLength, AllFit;
    if events == [] {
      NewTracks();
    } else {
      var before, last := events[..|events| - 1], events[|events| - 1];
      NodeFollows(before);
      if Lives(before).Some? { NextTracks(NodeRun(before).value, Lives(before).value, last); }
    }
  }

  lemma NewTracks()
    ensures Tracks(NEW_NODE, NEW)
  {
  }

  lemma NextTracks(n: Node, d: Durable, e: Event)
    requires Tracks(n, d) && FitsLength(d.log) && AllFit(d.files)
    ensures NodeNext(n, e).Some? <==> Next(d, e).Some?
    ensures Next(d, e).Some? ==> Tracks(NodeNext(n, e).value, Next(d, e).value)
  {
    hide Tracks, FitsLength, AllFit, Reopen, Cut, Replay, Append, Step, Logs, Recovered, Parsed;
    match e
    case Do(op) => DoTracks(n, d, op);
    case Compact => CompactTracks(n, d);
    case Restart(kept, now) => RestartTracks(n, d, kept, now);
  }

  /** The tables in memory are among those on disk. */
  lemma {:induction false} TablesAreFiles(events: seq<Event>)
    requires Lives(events).Some?
    ensures forall t :: t in Lives(events).value.store.tables ==> t in Lives(events).value.files
    decreases |events|
  {
    hide Append, Step, Cut, Replay, Recovered, Parsed, Logs, FlushedBy, AllSmall;
    if events != [] {
      var before, last := events[..|events| - 1], events[|events| - 1];
      TablesAreFiles(before);
      var d := Lives(before).value;
      match last
      case Do(op) =>
        var more := FlushedBy(d.store.active, d.store.frozen, op);
        FlushAppends(d.store, op);
        AppendBytes(d.(store := Step(d.store, op), files := d.files + more), Logs(d.store.active, d.store.frozen, op));
      case Compact =>
      case Restart(kept, now) =>
    }
  }

  /** With colon-free primary keys the engine on bytes is the engine on maps, restarts and crashes and all. */
  lemma NodeRefines(events: seq<Event>)
    requires Fitting(events) && Lives(events).Some? && ColonFreeTables(Lives(events).value.files)
    ensures NodeRun(events).Some?
    ensures Represents(NodeRun(events).value.image, Lives(events).value.store)
  {
    hide Lives, NodeRun, Written, Reloaded, FitsLength, ColonFree, S.Fits, S.Entries;
    NodeFollows(events);
    TablesAreFiles(events);
    var d := Lives(events).value;
    forall i | 0 <= i < |d.store.tables|
      ensures Reloaded(d.store.tables[i]) == Written(d.store.tables[i])
    {
      assert d.store.tables[i] in d.files;
      var j :| 0 <= j < |d.files| && d.files[j] == d.store.tables[i];
      ReloadedIsWritten(d.files[j]);
    }
  }

  // ---------------------------------------------------------------------------
  // Reads after a restart.

  lemma LastNode(events: seq<Event>, e: Event)
    ensures NodeRun(events + [e]) == if NodeRun(events).None? then None else NodeNext(NodeRun(events).value, e)
  {
    hide NodeNext;
    assert (events + [e])[..|events|] == events;
  }

  lemma CleanReload(data: Table, k: Key)
    requires S.Fits(S.Entries(data)) && forall x :: x in data ==> ColonFree(x)
    ensures S.AfterReload(data, k).Err? <==> !Live(data, k)
  {
    hide S.Fits, S.Entries, S.FileOf, S.LoadedIndex, S.ReadFrom, ColonFree;
    S.ReadAgreesAfterLoad(data, k);
  }

  lemma ReloadedDisk(tables: seq<Table>, k: Key)
    requires AllFit(tables)
    ensures var disk := Loaded(FilesOf(tables));
      && (ReadDisk(disk, k) == Err(NotFound) <==> forall i :: 0 <= i < |tables| ==> S.AfterReload(tables[i], k).Err?)
      && (ColonFreeTables(tables) ==>
           (ReadDisk(disk, k) == Err(NotFound) <==> forall i :: 0 <= i < |tables| ==> !Live(tables[i], k)))
  {
    hide FilesOf, Loaded, ReadDisk, ReadTable, S.AfterReload, Reloaded, S.Fits, S.Entries, ColonFree;
    LoadedFiles(tables);
    var disk := Loaded(FilesOf(tables));
    ReadDiskFails(disk, k);
    forall i | 0 <= i < |tables|
      ensures ReadTable(disk[i], k) == S.AfterReload(tables[i], k)
      ensures ColonFreeTables(tables) ==> (S.AfterReload(tables[i], k).Err? <==> !Live(tables[i], k))
    {
      ReloadedReads(tables[i], k);
      if ColonFreeTables(tables) { CleanReload(tables[i], k); }
    }
  }

  /** What a new engine answers when it opened on this log and these files. */
  ghost predicate AnswersFrom(im: Image, log: seq<WalEntry>, files: seq<Table>, k: Key)
  {
    var plain := Plain(Mutations(log));
    if k in plain then
      && ImageGet(im, k).Ok?
      && ImageGet(im, k).value.value == plain[k].value
      && !ImageGet(im, k).value.deleted
    else
      && ImageGet(im, k) == ReadDisk(Loaded(FilesOf(files)), k)
      && (ImageGet(im, k) == Err(NotFound) <==> forall i :: 0 <= i < |files| ==> S.AfterReload(files[i], k).Err?)
      && (ColonFreeTables(files) ==>
           (ImageGet(im, k) == Err(NotFound) <==> forall i :: 0 <= i < |files| ==> !Live(files[i], k)))
  }

  /**
   * After any run with restarts, crashes and compactions, and one more restart that leaves no more than a torn header:
   * the engine opens exactly when no surviving record is over 1 MiB. A key that the surviving records leave present
   * reads its last surviving value, even if a table has a later one. Any other key reads what the reloaded tables say:
   * NOT_FOUND exactly when none of them answers; with colon-free primary keys that is, when none holds the key live.
   */
  lemma RestartedReads(events: seq<Event>, kept: nat, k: Key, now: i64)
    requires Fitting(events) && Lives(events).Some? && LoggableLog(Lives(events).value.log)
    requires |Cut(Lives(events).value, kept).tail| < 8
    ensures var c, n := Cut(Lives(events).value, kept), NodeRun(events + [Restart(kept, now)]);
      && (n.Some? <==> AllSmall(c.log))
      && (n.Some? ==> AnswersFrom(n.value.image, c.log, c.files, k))
  {
    hide Lives, NodeRun, NodeNext, AllSmall, FitsLength, AllFit, LoggableLog, AnswersFrom, Tracks, Cut, Replay,
      Recovered, Parsed;
    var d := Lives(events).value;
    var c := Cut(d, kept);
    NodeFollows(events);
    LastNode(events, Restart(kept, now));
    RestartTracks(NodeRun(events).value, d, kept, now);
    ShortTail(c.tail, now);
    CutBytes(d, kept);
    PrefixFits(c.log, d.log);
    if AllSmall(c.log) { ReopenedReads(NodeRun(events).value, d, kept, k, now); }
  }

  lemma ReopenedReads(n: Node, d: Durable, kept: nat, k: Key, now: i64)
    requires Tracks(n, d) && FitsLength(d.log) && AllFit(d.files) && LoggableLog(Cut(d, kept).log)
    requires |Cut(d, kept).tail| < 8 && AllSmall(Cut(d, kept).log)
    ensures var t, c := NodeNext(n, Restart(kept, now)), Cut(d, kept);
      t.Some? && AnswersFrom(t.value.image, c.log, c.files, k)
  {
    hide FitsLength, AllSmall, AllFit, LoggableLog, InMemory, Replay, Recovered, Parsed, Log, FilesOf, Loaded,
      TracksTables, Cut, Mutations, Take, AnswersFrom, SameContents;
    var c := Cut(d, kept);
    CutBytes(d, kept);
    assert FitsLength(c.log) by { PrefixFits(c.log, d.log); }
    ReplayLogThen(c.log, c.tail, 0, now);
    FromZero(Parsed(c.log, now));
    ShortTail(c.tail, now);
    assert Parsed(c.log, now) + [] == Parsed(c.log, now);
    RecoveryIsFold(c.log, now);
    Answers(NodeNext(n, Restart(kept, now)).value.image, c.log, c.files, k);
  }

  lemma Answers(im: Image, log: seq<WalEntry>, files: seq<Table>, k: Key)
    requires SameContents(im.active, InMemory(Mutations(log))) && im.frozen.None?
    requires im.disk == Loaded(FilesOf(files)) && AllFit(files)
    ensures AnswersFrom(im, log, files, k)
  {
    hide AllFit, InMemory, FilesOf, Loaded, ReadDisk, S.AfterReload, ColonFreeTables, Plain, Mutations;
    InMemoryIsPlain(Mutations(log), k);
    ReloadedDisk(files, k);
  }

  /** Cut inside a payload, the log is reported and the engine does not open. */
  lemma CutInsidePayload(n: Node, d: Durable, kept: nat, now: i64)
    requires Tracks(n, d) && FitsLength(d.log) && AllSmall(d.log) && d.tail == [] && |Cut(d, kept).tail| >= 8
    ensures Reopen(Take(n.log, kept), n.files, now) == Err(Incomplete)
    ensures NodeNext(n, Restart(kept, now)).None?
  {
    hide Log, Record, Complete, Replay, Recovered, Parsed, Serialize, Loaded, FilesOf, TracksTables;
    CutBytes(d, kept);
    CutPoint(d.log, kept);
    var k := Complete(d.log, kept);
    var c := Cut(d, kept);
    assert d.log[k] in d.log;
    assert FitsLength(c.log) && AllSmall(c.log) by { PrefixFits(c.log, d.log); }
    ReplayCutRecord(d.log[k], |c.tail|, 0, now);
    ReplayLogThen(c.log, c.tail, 0, now);
  }

  // ---------------------------------------------------------------------------
  // Runs that lose nothing.

  function OpsOf(events: seq<Event>): seq<Op>
  {
    if events == [] then [] else
      var last := events[|events| - 1];
      OpsOf(events[..|events| - 1]) + (if last.Do? then [last.op] else [])
  }

  ghost predicate AllLoggable(events: seq<Event>)
  {
    forall i :: 0 <= i < |events| && events[i].Do? ==> Loggable(events[i].op)
  }

  /** Every restart finds the whole log. */
  ghost predicate Lossless(events: seq<Event>)
  {
    events == [] ||
    var before, last := events[..|events| - 1], events[|events| - 1];
    && Lossless(before)
    && (last.Restart? && Lives(before).Some? ==> last.kept >= |LogBytes(Lives(before).value)|)
  }

  /** Then nothing torn is left, and the log stands for all operations of the run. */
  lemma {:induction false} LosslessLog(events: seq<Event>)
    requires Lossless(events) && Lives(events).Some?
    ensures Lives(events).value.tail == []
    ensures Plain(Mutations(Lives(events).value.log)) == Plain(OpsOf(events))
    ensures InMemory(Mutations(Lives(events).value.log)) == InMemory(OpsOf(events))
    decreases |events|
  {
    hide Step, Replay, Recovered, Parsed, Logs, FlushedBy, LogBytes, Cut, AllSmall, Plain, InMemory, Mutations,
      Compacted;
    if events != [] {
      var before, last := events[..|events| - 1], events[|events| - 1];
      LosslessLog(before);
      var d, ops := Lives(before).value, OpsOf(before);
      match last
      case Do(op) =>
        var history := Mutations(d.log);
        MutationsOfLogs(d.log, d.store.active, d.store.frozen, op);
        AppliedLast(ops, op);
        AppliedLast(history, op);
        assert op.FlushOp? ==> Applied(InMemory(ops), op) == InMemory(ops) && PlainStep(Plain(ops), op) == Plain(ops);
        assert history + [] == history;
      case Compact => assert ops + [] == ops;
      case Restart(kept, now) =>
        CutBytes(d, kept);
        assert ops + [] == ops;
    } else {
      NothingDone();
    }
  }

  lemma NothingDone()
    ensures Mutations(NEW.log) == OpsOf([])
  {
  }

  lemma {:induction false} LogIsLoggable(events: seq<Event>)
    requires AllLoggable(events) && Lives(events).Some?
    ensures LoggableLog(Lives(events).value.log)
    decreases |events|
  {
    hide Step, Replay, Recovered, Parsed, Logs, FlushedBy, Cut, AllSmall, Compacted, Loggable, NulFree;
    if events != [] {
      var before, last := events[..|events| - 1], events[|events| - 1];
      LogIsLoggable(before);
      var d := Lives(before).value;
      match last
      case Do(op) => LogsAreLoggable(d.store.active, d.store.frozen, op);
      case Compact =>
      case Restart(kept, now) =>
        CutBytes(d, kept);
        PrefixFits(Cut(d, kept).log, d.log);
    }
  }

  /**
   * When nothing of the log was lost, a restart brings every key of the plain map back with its last accepted value,
   * whatever was flushed, removed before or compacted away.
   */
  lemma LosslessReads(events: seq<Event>, kept: nat, k: Key, now: i64)
    requires Lossless(events + [Restart(kept, now)]) && AllLoggable(events)
    requires Fitting(events) && Lives(events).Some?
    ensures var d, n, plain := Lives(events).value, NodeRun(events + [Restart(kept, now)]), Plain(OpsOf(events));
      && (n.Some? <==> AllSmall(d.log))
      && (n.Some? && k in plain ==>
           ImageGet(n.value.image, k).Ok? && ImageGet(n.value.image, k).value.value == plain[k].value)
      && (n.Some? && k !in plain ==>
           (ImageGet(n.value.image, k) == Err(NotFound)
            <==> forall i :: 0 <= i < |d.files| ==> S.AfterReload(d.files[i], k).Err?))
  {
    hide Lives, NodeRun, AllSmall, LoggableLog, Cut, Plain, OpsOf, Mutations, ImageGet, S.AfterReload,
      ColonFreeTables, AllLoggable, Fitting, LogBytes;
    var all := events + [Restart(kept, now)];
    assert all[..|all| - 1] == events;
    LosslessLog(events);
    LogIsLoggable(events);
    CutBytes(Lives(events).value, kept);
    RestartedReads(events, kept, k, now);
  }

  // ---------------------------------------------------------------------------
  // Reads between restarts.

  /** Equal up to version and timestamp. */
  predicate SameAnswer(a: Results.Result<Entry, Status>, b: Results.Result<Entry, Status>)
  {
    a.Ok? == b.Ok? && (a.Ok? ==> a.value.value == b.value.value)
  }

  ghost predicate Mentions(layers: seq<Table>, k: Key)
  {
    exists i :: 0 <= i < |layers| && k in layers[i]
  }

  lemma {:induction false} UnmentionedIsNotFound(layers: seq<Table>, k: Key)
    requires !Mentions(layers, k)
    ensures Newest(layers, k) == Err(NotFound)
    decreases |layers|
  {
    if layers != [] {
      assert forall i :: 0 <= i < |layers[1..]| ==> layers[1..][i] == layers[i + 1];
      UnmentionedIsNotFound(layers[1..], k);
    }
  }

  lemma MentionsConcat(a: seq<Table>, b: seq<Table>, k: Key)
    ensures Mentions(a + b, k) <==> Mentions(a, k) || Mentions(b, k)
  {
    if Mentions(a, k) {
      var i :| 0 <= i < |a| && k in a[i];
      assert k in (a + b)[i];
    }
    if Mentions(b, k) {
      var i :| 0 <= i < |b| && k in b[i];
      assert k in (a + b)[|a| + i];
    }
  }

  lemma StackMentions(s: Store, k: Key)
    ensures Mentions(Stack(s), k) <==> k in s.active || Mentions(Older(s), k)
    ensures s.frozen.None? ==> Older(s) == Reversed(s.tables)
    ensures Mentions(Reversed(s.tables), k) ==> Mentions(Older(s), k)
  {
    hide Reversed, Mentions;
    MentionsConcat([s.active], Older(s), k);
    MentionsConcat(if s.frozen.Some? then [s.frozen.value] else [], Reversed(s.tables), k);
    assert Mentions([s.active], k) <==> k in s.active by { MentionsOne(s.active, k); }
  }

  lemma MentionsOne(m: Table, k: Key)
    ensures Mentions([m], k) <==> k in m
  {
    assert [m][0] == m;
  }

  /** No compaction, and nothing logged behind a torn record. */
  ghost predicate Orderly(events: seq<Event>)
  {
    events == [] ||
    var before, last := events[..|events| - 1], events[|events| - 1];
    && Orderly(before)
    && !last.Compact?
    && (last.Do? && Lives(before).Some? ==>
         var d := Lives(before).value;
         d.tail == [] || Logs(d.store.active, d.store.frozen, last.op) == [])
  }

  /** What the memtables and tables say of a key that a table of all surviving operations mentions. */
  ghost predicate Reflects(s: Store, m: Table, k: Key)
  {
    k in m ==> SameAnswer(Newest(Stack(s), k), Found(m, k))
  }

  /**
   * In orderly runs, whatever was flushed and however often the engine was restarted, with or without loss: the newest
   * mention of each key that the surviving operations mention says what one memtable with all of them would say.
   */
  lemma {:induction false} NewestOverLives(events: seq<Event>, k: Key)
    requires Orderly(events) && AllLoggable(events) && Fitting(events) && Lives(events).Some?
    ensures |Lives(events).value.tail| < 8
    ensures Reflects(Lives(events).value.store, InMemory(Mutations(Lives(events).value.log)), k)
    decreases |events|
  {
    hide Parsed, Recovered, Logs, Loggable, InMemory, Mutations, Stack, Newest, Step, Found, FlushedBy, Cut, Replay,
      AllSmall, Reflects, FitsLength, AllFit;
    if events == [] {
      NothingReflected(k);
    } else {
      var before, last := events[..|events| - 1], events[|events| - 1];
      NewestOverLives(before, k);
      var d := Lives(before).value;
      match last
      case Do(op) =>
        AppendNothing(d);
        MutationsOfLogs(d.log, d.store.active, d.store.frozen, op);
        AppliedLast(Mutations(d.log), op);
        DoReflects(d.store, op, InMemory(Mutations(d.log)), k);
        NothingLoggedKeeps(d, op, k);
      case Restart(kept, now) =>
        LogIsLoggable(before);
        RestartReflects(d, kept, k, now);
    }
  }

  lemma NothingReflected(k: Key)
    ensures Reflects(NEW.store, InMemory(Mutations(NEW.log)), k)
  {
  }

  lemma AppendNothing(d: Durable)
    ensures Append(d, []) == d
  {
    assert d.log + [] == d.log && d.tail + [] == d.tail;
  }

  /** An operation that logs nothing is a flush. */
  lemma NothingLoggedKeeps(d: Durable, op: Op, k: Key)
    ensures Logs(d.store.active, d.store.frozen, op) == [] ==> op.FlushOp?
    ensures op.FlushOp? ==> Applied(InMemory(Mutations(d.log)), op) == InMemory(Mutations(d.log))
    ensures op.FlushOp? ==> Mutations(d.log) + [] == Mutations(d.log)
  {
    hide Proceeds;
  }

  lemma DoReflects(s: Store, op: Op, m: Table, k: Key)
    requires Reflects(s, m, k)
    ensures Reflects(Step(s, op), Applied(m, op), k)
  {
    hide Stack, Older, Newest, Flush, Accepts;
    var t := Step(s, op);
    if op.FlushOp? {
      FlushIsInvisible(s, op.firstOpens, op.secondOpens, k);
    } else {
      NewestAfterWrite(s, t, k);
    }
  }

  lemma RestartReflects(d: Durable, kept: nat, k: Key, now: i64)
    requires LoggableLog(d.log) && FitsLength(d.log) && |d.tail| < 8 && Next(d, Restart(kept, now)).Some?
    ensures var t := Next(d, Restart(kept, now)).value;
      |t.tail| < 8 && Reflects(t.store, InMemory(Mutations(t.log)), k)
  {
    hide Parsed, Recovered, InMemory, Mutations, Stack, Newest, Replay, AllSmall, LoggableLog, Log, Record, Complete,
      Older, Serialize;
    var c, t := Cut(d, kept), Next(d, Restart(kept, now)).value;
    CutBytes(d, kept);
    PrefixFits(c.log, d.log);
    if kept < |Log(d.log)| {
      CutPoint(d.log, kept);
      var j := Complete(d.log, kept);
      assert d.log[j] in d.log;
      ReplayCutRecord(d.log[j], |c.tail|, 0, now);
    }
    ShortTail(c.tail, now);
    assert Parsed(c.log, now) + [] == Parsed(c.log, now);
    RecoveryIsFold(c.log, now);
    NewestAfterWrite(t.store, t.store, k);
  }

  lemma LosslessOrderly(events: seq<Event>)
    requires Lossless(events) && forall i :: 0 <= i < |events| ==> !events[i].Compact?
    ensures Orderly(events)
    decreases |events|
  {
    hide Next, Logs, LogBytes;
    if events != [] {
      var before := events[..|events| - 1];
      LosslessOrderly(before);
      if Lives(before).Some? { LosslessLog(before); }
    }
  }

  /** Without loss no layer mentions a key that no operation mentioned. */
  lemma {:induction false} MentionedOverLives(events: seq<Event>, k: Key)
    requires Lossless(events) && AllLoggable(events) && Lives(events).Some?
    requires Mentions(Stack(Lives(events).value.store), k)
    ensures k in InMemory(Mutations(Lives(events).value.log))
    decreases |events|
  {
    hide Parsed, Recovered, Logs, Loggable, InMemory, Mutations, Stack, Step, FlushedBy, Cut, Replay, AllSmall,
      Mentions;
    NothingStacked(k);
    if events != [] {
      var before, last := events[..|events| - 1], events[|events| - 1];
      LosslessLog(before);
      var d, t := Lives(before).value, Lives(events).value;
      match last
      case Do(op) =>
        MutationsOfLogs(d.log, d.store.active, d.store.frozen, op);
        AppliedLast(Mutations(d.log), op);
        NothingLoggedKeeps(d, op, k);
        DoMentions(d.store, op, InMemory(Mutations(d.log)), k);
        if Mentions(Stack(d.store), k) { MentionedOverLives(before, k); }
      case Compact =>
        CompactMentions(d.store, k);
        MentionedOverLives(before, k);
      case Restart(kept, now) =>
        RestartMentions(events, k);
    }
  }

  lemma NothingStacked(k: Key)
    ensures !Mentions(Stack(NEW.store), k)
  {
    EmptyStack(k);
  }

  lemma DoMentions(s: Store, op: Op, m: Table, k: Key)
    requires Mentions(Stack(Step(s, op)), k)
    ensures Mentions(Stack(s), k) || k in Applied(m, op)
    ensures k in m ==> k in Applied(m, op)
  {
    hide Stack, Mentions, Older, Flush, Accepts;
    var t := Step(s, op);
    if op.FlushOp? {
      FlushStack(s, op.firstOpens, op.secondOpens);
      MentionsConcat([map[]], Stack(s), k);
      MentionsOne(map[], k);
    } else {
      StackMentions(s, k);
      StackMentions(t, k);
      OlderIgnoresActive(s, t);
    }
  }

  lemma CompactMentions(s: Store, k: Key)
    requires Mentions(Stack(Compacted(s)), k)
    ensures Mentions(Stack(s), k)
  {
    hide Stack, Mentions;
    if |s.tables| >= 2 {
      OldestLast(s);
      MentionsConcat(Stack(Compacted(s)), [s.tables[1], s.tables[0]], k);
    }
  }

  /** The maps on disk mention only what the operations mentioned. */
  lemma {:induction false} FilesMention(events: seq<Event>, k: Key)
    requires Lossless(events) && AllLoggable(events) && Lives(events).Some?
    requires Mentions(Lives(events).value.files, k)
    ensures k in InMemory(Mutations(Lives(events).value.log))
    decreases |events|, 0
  {
    hide Parsed, Recovered, Logs, Loggable, InMemory, Mutations, Stack, Step, FlushedBy, Cut, Replay, AllSmall,
      Mentions;
    if events == [] {
      NoFiles(k);
    } else {
      var before, last := events[..|events| - 1], events[|events| - 1];
      LosslessLog(before);
      var d := Lives(before).value;
      match last
      case Do(op) =>
        MutationsOfLogs(d.log, d.store.active, d.store.frozen, op);
        AppliedLast(Mutations(d.log), op);
        NothingLoggedKeeps(d, op, k);
        var more := FlushedBy(d.store.active, d.store.frozen, op);
        MentionsConcat(d.files, more, k);
        AppliedKeeps(InMemory(Mutations(d.log)), op, k);
        if Mentions(d.files, k) {
          FilesMention(before, k);
        } else {
          FlushedMentions(d.store, op, k);
          MentionedOverLives(before, k);
        }
      case Compact => FilesMention(before, k);
      case Restart(kept, now) =>
        CutBytes(d, kept);
        FilesMention(before, k);
    }
  }

  lemma NoFiles(k: Key)
    ensures !Mentions(NEW.files, k)
  {
  }

  lemma AppliedKeeps(m: Table, op: Op, k: Key)
    ensures k in m ==> k in Applied(m, op)
  {
  }

  lemma FlushedMentions(s: Store, op: Op, k: Key)
    requires Mentions(FlushedBy(s.active, s.frozen, op), k)
    ensures Mentions(Stack(s), k)
  {
    hide Proceeds, Reversed;
    assert Stack(s)[0] == s.active;
    if s.frozen.Some? { assert Stack(s)[1] == s.frozen.value; }
  }

  lemma RestartMentions(events: seq<Event>, k: Key)
    requires events != [] && events[|events| - 1].Restart?
    requires Lossless(events) && AllLoggable(events) && Lives(events).Some?
    requires Mentions(Stack(Lives(events).value.store), k)
    ensures k in InMemory(Mutations(Lives(events).value.log))
    decreases |events|, 1
  {
    hide Parsed, Recovered, InMemory, Mutations, Stack, Cut, Replay, AllSmall, Mentions, LoggableLog, Older, Reversed,
      LogBytes;
    var before, last := events[..|events| - 1], events[|events| - 1];
    LosslessLog(before);
    LogIsLoggable(before);
    var d, t := Lives(before).value, Lives(events).value;
    CutBytes(d, last.kept);
    ShortTail(d.tail, last.now);
    assert Parsed(d.log, last.now) + [] == Parsed(d.log, last.now);
    RecoveryIsFold(d.log, last.now);
    StackMentions(t.store, k);
    if k !in t.store.active {
      ReversedMentions(t.store.tables, k);
      FilesMention(before, k);
    }
  }

  lemma {:induction false} ReversedMentions(tables: seq<Table>, k: Key)
    requires Mentions(Reversed(tables), k)
    ensures Mentions(tables, k)
    decreases |tables|
  {
    if tables != [] {
      var n := |tables| - 1;
      MentionsConcat([tables[n]], Reversed(tables[..n]), k);
      MentionsOne(tables[n], k);
      if k in tables[n] {
        assert Mentions(tables, k);
      } else {
        ReversedMentions(tables[..n], k);
        var i :| 0 <= i < n && k in tables[..n][i];
        assert k in tables[i];
      }
    }
  }

  /**
   * Reads in runs with restarts that lose nothing and without compactions: a key of the plain map reads its last
   * accepted value, and `get` answers as the plain map does exactly when no tombstone of the key lies on top of an
   * older live entry.
   */
  lemma ReadsOverLives(events: seq<Event>, k: Key)
    requires Lossless(events) && AllLoggable(events) && Fitting(events) && Lives(events).Some?
    requires forall i :: 0 <= i < |events| ==> !events[i].Compact?
    ensures var s, ops := Lives(events).value.store, OpsOf(events);
      && (k in Plain(ops) ==> SameAnswer(Get(s, k), PlainGet(ops, k)))
      && (SameAnswer(Get(s, k), PlainGet(ops, k)) <==> !Shadowed(Stack(s), k))
  {
    hide Stack, Lives, Plain, InMemory, OpsOf, Newest, Lookup, Lossless, Orderly, AllLoggable, Mutations, Mentions,
      Fitting;
    var s := Lives(events).value.store;
    LosslessOrderly(events);
    LosslessLog(events);
    NewestOverLives(events, k);
    InMemoryIsPlain(OpsOf(events), k);
    LookupVersusNewest(Stack(s), k);
    if k !in InMemory(OpsOf(events)) {
      if Mentions(Stack(s), k) { MentionedOverLives(events, k); }
      UnmentionedIsNotFound(Stack(s), k);
    }
  }

  // ---------------------------------------------------------------------------
  // Records that spoil the log.

  lemma {:induction false} PutIsLogged(events: seq<Event>, i: nat)
    requires Lossless(events) && Lives(events).Some?
    requires i < |events| && events[i].Do? && events[i].op.PutOp?
    ensures WalEntry(PUT, events[i].op.key, events[i].op.entry, 0) in Lives(events).value.log
    decreases |events|
  {
    hide Step, Recovered, Parsed, Proceeds, Replay, Cut, AllSmall, FlushedBy, LogBytes;
    var before, last := events[..|events| - 1], events[|events| - 1];
    LosslessLog(before);
    if i < |events| - 1 { PutIsLogged(before, i); }
    if last.Restart? { CutBytes(Lives(before).value, last.kept); }
  }

  /**
   * A put of a value over 1 MiB is rejected by the memtable, but only after the log took it: as long as the log is kept
   * the engine never opens again.
   */
  lemma RejectedPutPoisonsLog(events: seq<Event>, i: nat, kept: nat, now: i64)
    requires Lossless(events + [Restart(kept, now)]) && Fitting(events) && Lives(events).Some?
    requires i < |events| && events[i].Do? && events[i].op.PutOp? && |events[i].op.entry.value| > MAX_RECORD
    ensures !Accepts(events[i].op.key, events[i].op.entry)
    ensures NodeRun(events + [Restart(kept, now)]).None?
  {
    hide Lives, NodeRun, LittleEndian, AllFit, Tracks, NodeNext, Replay, Recovered, Parsed, LogBytes, Cut, FitsLength;
    var e := WalEntry(PUT, events[i].op.key, events[i].op.entry, 0);
    var all, d := events + [Restart(kept, now)], Lives(events).value;
    assert all[..|all| - 1] == events;
    PutIsLogged(events, i);
    assert |Serialize(e)| > MAX_RECORD;
    assert !Small(e);
    NodeFollows(events);
    LastNode(events, Restart(kept, now));
    CutBytes(d, kept);
    RestartTracks(NodeRun(events).value, d, kept, now);
  }

  // ---------------------------------------------------------------------------
  // Crashes.

  /**
   * A crash can hide a value that is safe in a table: put, flush, put again, flush, and the log cut behind its first
   * record. The new engine reads the first value although the second is in a table file.
   */
  lemma CrashHidesFlushed(k: Key, e: Entry, f: Entry, now: i64)
    requires Accepts(k, e) && Accepts(k, f) && !e.deleted && !f.deleted && e.value != f.value && NulFree(k)
    requires S.Fits(S.Entries(map[k := e])) && S.Fits(S.Entries(map[k := f]))
    ensures var events := [Do(PutOp(k, e)), Do(FlushOp(true, true)), Do(PutOp(k, f)), Do(FlushOp(true, true))];
      var n := NodeRun(events + [Restart(|Record(WalEntry(PUT, k, e, 0))|, now)]);
      && Lives(events).Some? && Lives(events).value.files == [map[k := e], map[k := f]]
      && n.Some? && ImageGet(n.value.image, k).Ok? && ImageGet(n.value.image, k).value.value == e.value
  {
    hide Lives, NodeRun, Accepts, NulFree, S.Fits, S.Entries, ImageGet, Record, Serialize, Fitting, AllSmall,
      FitsLength, Cut, Plain, Mutations, LoggableLog;
    var events := [Do(PutOp(k, e)), Do(FlushOp(true, true)), Do(PutOp(k, f)), Do(FlushOp(true, true))];
    var first := WalEntry(PUT, k, e, 0);
    TwoFlushes(k, e, f);
    var d := Lives(events).value;
    FirstRecordKept(d, first, |Record(first)|);
    RestartedReads(events, |Record(first)|, k, now);
    OnePut(first);
  }

  lemma OnePut(e: WalEntry)
    requires e.kind == PUT && Accepts(e.key, e.data) && !e.data.deleted
    ensures Plain(Mutations([e])) == map[e.key := e.data]
  {
    assert [e][..0] == [];
    assert Mutations([e]) == [PutOp(e.key, e.data)];
    assert [PutOp(e.key, e.data)][..0] == [];
  }

  lemma FirstRecordKept(d: Durable, first: WalEntry, kept: nat)
    requires d.tail == [] && |d.log| > 1 && d.log[0] == first && kept == |Record(first)|
    ensures Cut(d, kept).log == [first] && Cut(d, kept).tail == []
  {
    hide Record;
    LogCons(d.log);
    LogCons(d.log[1..]);
    RecordNotEmpty(d.log[1]);
    assert Complete(d.log[1..], 0) == 0;
    assert Complete(d.log, kept) == 1 + Complete(d.log[1..], 0);
    assert d.log[..1] == [first];
    LogCons([first]);
    EmptyLog();
  }

  lemma RecordNotEmpty(e: WalEntry)
    ensures |Record(e)| > 0
  {
  }

  lemma TwoFlushes(k: Key, e: Entry, f: Entry)
    requires Accepts(k, e) && Accepts(k, f) && !e.deleted && !f.deleted && NulFree(k)
    requires S.Fits(S.Entries(map[k := e])) && S.Fits(S.Entries(map[k := f]))
    ensures var events := [Do(PutOp(k, e)), Do(FlushOp(true, true)), Do(PutOp(k, f)), Do(FlushOp(true, true))];
      && Fitting(events) && Lives(events).Some?
      && var d := Lives(events).value;
      && d.files == [map[k := e], map[k := f]] && d.tail == [] && |d.log| > 1 && d.log[0] == WalEntry(PUT, k, e, 0)
      && LoggableLog(d.log) && AllSmall([d.log[0]])
  {
    hide Lives, Fitting, Next, S.Fits, S.Entries, Accepts, FitsLength, AllFit, AllSmall, LoggableLog, Small, NulFree;
    var events := [Do(PutOp(k, e)), Do(FlushOp(true, true)), Do(PutOp(k, f)), Do(FlushOp(true, true))];
    var a, b := map[k := e], map[k := f];
    var p, q := WalEntry(PUT, k, e, 0), WalEntry(PUT, k, f, 0);
    var check := WalEntry(CHECKPOINT, Key([], []), DEFAULT_ENTRY, 0);
    var d1 := Durable(Store(a, None, []), [p], [], []);
    var d2 := Durable(Store(map[], None, [a]), [p, check], [], [a]);
    var d3 := Durable(Store(b, None, [a]), [p, check, q], [], [a]);
    var d4 := Durable(Store(map[], None, [a, b]), [p, check, q, check], [], [a, b]);
    assert events[..0] == [] && events[..4] == events;
    NewRun();
    SmallRecords(k, e, f);
    PutNext(NEW, k, e, d1);
    StateFits(d1);
    RunFits(events, 0, d1);
    FlushNext(d1, k, e, d2);
    StateFits(d2);
    RunFits(events, 1, d2);
    PutNext(d2, k, f, d3);
    StateFits(d3);
    RunFits(events, 2, d3);
    FlushNext(d3, k, f, d4);
    StateFits(d4);
    RunFits(events, 3, d4);
    LoggableRecords(p, check, q);
  }

  lemma LoggableRecords(p: WalEntry, check: WalEntry, q: WalEntry)
    requires NulFree(p.key) && NulFree(check.key) && NulFree(q.key) && Small(p)
    requires !p.data.deleted && !check.data.deleted && !q.data.deleted
    ensures LoggableLog([p, check, q, check]) && AllSmall([p])
  {
    hide NulFree, Small;
  }

  lemma StateFits(d: Durable)
    requires forall x :: x in d.log ==> Small(x)
    requires forall t :: t in d.files ==> S.Fits(S.Entries(t))
    ensures FitsLength(d.log) && AllFit(d.files)
  {
    hide Serialize, S.Fits, S.Entries;
  }

  lemma NewRun()
    ensures Lives([]) == Some(NEW) && Fitting([])
  {
  }

  lemma PutNext(d: Durable, k: Key, e: Entry, t: Durable)
    requires Accepts(k, e) && d.tail == [] == t.tail
    requires t.log == d.log + [WalEntry(PUT, k, e, 0)] && t.files == d.files
    requires t.store.active == d.store.active[k := e] && t.store.frozen == d.store.frozen
    requires t.store.tables == d.store.tables
    ensures Next(d, Do(PutOp(k, e))) == Some(t)
  {
    hide Accepts;
    assert d.files + [] == d.files;
  }

  lemma FlushNext(d: Durable, k: Key, e: Entry, t: Durable)
    requires d.store.active == map[k := e] && d.store.frozen.None? && d.tail == [] == t.tail
    requires t.log == d.log + [WalEntry(CHECKPOINT, Key([], []), DEFAULT_ENTRY, 0)]
    requires t.files == d.files + [map[k := e]]
    requires t.store.active == map[] && t.store.frozen.None? && t.store.tables == d.store.tables + [map[k := e]]
    ensures Next(d, Do(FlushOp(true, true))) == Some(t)
  {
    assert k in d.store.active.Keys;
    assert d.store.tables + [] == d.store.tables && [] + [map[k := e]] == [map[k := e]];
  }

  lemma RunFits(events: seq<Event>, i: nat, d: Durable)
    requires i < |events| && Fitting(events[..i]) && Lives(events[..i]).Some?
    requires Next(Lives(events[..i]).value, events[i]) == Some(d) && FitsLength(d.log) && AllFit(d.files)
    ensures Fitting(events[..i + 1]) && Lives(events[..i + 1]) == Some(d)
  {
    hide Next, FitsLength, AllFit;
    assert events[..i + 1][..i] == events[..i];
  }

  lemma SmallRecords(k: Key, e: Entry, f: Entry)
    requires Accepts(k, e) && Accepts(k, f)
    ensures Small(WalEntry(PUT, k, e, 0)) && Small(WalEntry(PUT, k, f, 0))
    ensures Small(WalEntry(CHECKPOINT, Key([], []), DEFAULT_ENTRY, 0)) && NulFree(Key([], []))
  {
    hide LittleEndian;
  }

  /**
   * A log that goes on behind two or three bytes of a torn header: if the first record behind them is of the usual
   * size, its length is misread as far too long, and as long as the log is kept the engine never opens again, whatever
   * follows.
   */
  lemma TornLogStopsEngine(d: Durable, lost: WalEntry, t: nat, es: seq<WalEntry>, kept: nat, now: i64)
    requires t == 2 || t == 3
    requires es != [] && |Serialize(lost)| < TWO_32 && 16 < |Serialize(es[0])| < Power256(4 - t)
    requires d.tail == TornTail(lost, t, es) && kept >= |LogBytes(d)|
    ensures Next(d, Restart(kept, now)).None?
  {
    hide Serialize, TornTail, MisreadLength, Replay, LogBytes, Cut, Recovered, Parsed;
    CutBytes(d, kept);
    TornLengthTooLong(lost, t, es[0]);
    TornHeader(lost, t, es, 0, now);
  }

  /** Such a log comes from a crash inside a header, a restart that succeeds, and one more put. */
  lemma TornHeaderThenPut(d: Durable, kept: nat, k: Key, e: Entry, now: i64)
    requires d.tail == [] && FitsLength(d.log) && AllSmall(Cut(d, kept).log) && |Cut(d, kept).tail| in {2, 3}
    requires var put := WalEntry(PUT, k, e, 0);
      16 < |Serialize(put)| < Power256(4 - |Cut(d, kept).tail|)
    ensures var r := Next(d, Restart(kept, now));
      && r.Some?
      && var w := Next(r.value, Do(PutOp(k, e))).value;
      && forall again: nat, later: i64 :: again >= |LogBytes(w)| ==> Next(w, Restart(again, later)).None?
  {
    hide Serialize, Replay, Recovered, Parsed, Log, Complete, AllSmall, Step, FlushedBy, Crc.Crc, Crc.ToBytes;
    var c, t, put := Cut(d, kept), |Cut(d, kept).tail|, WalEntry(PUT, k, e, 0);
    CutOpens(d, kept, now);
    CutBytes(d, kept);
    CutPoint(d.log, kept);
    var j := Complete(d.log, kept);
    assert kept < |Log(d.log)|;
    var lost := d.log[j];
    assert lost in d.log;
    assert c.tail == Header(lost)[..t] by { assert Record(lost)[..t] == Header(lost)[..t]; }
    var w := Next(Next(d, Restart(kept, now)).value, Do(PutOp(k, e))).value;
    assert w.tail == TornTail(lost, t, [put]);
    forall again: nat, later: i64 | again >= |LogBytes(w)|
      ensures Next(w, Restart(again, later)).None?
    {
      TornLogStopsEngine(w, lost, t, [put], again, later);
    }
  }
}
