/** The engine's layers with their tables as files and loaded indexes (src/storage/lsm_tree.cpp). */
module Disk {
  import opened Bytes
  import opened Collections
  import opened Results
  import opened Keys
  import opened Ranges
  import opened MemTable
  import opened Layers
  import opened MergedScan
  import S = SsTable

  /** One of `sstables_`: the bytes of its file and the index in memory. */
  datatype DiskTable = DiskTable(file: Str, index: seq<S.IndexEntry>)

  /** The engine in memory; `disk` is oldest first. */
  datatype Image = Image(active: Table, frozen: Option<Table>, disk: seq<DiskTable>)

  const NO_DATA: Image := Image(map[], None, [])

  /** A table as `write` leaves it. */
  function Written(data: Table): DiskTable
  {
    DiskTable(S.FileOf(S.Entries(data)), S.IndexFrom(S.Entries(data), S.HEADER_SIZE))
  }

  /** The same table after its index was loaded back from the file. */
  function Reloaded(data: Table): DiskTable
  {
    DiskTable(S.FileOf(S.Entries(data)), S.Reparsed(S.IndexFrom(S.Entries(data), S.HEADER_SIZE)))
  }

  /** `load_sstables`: files whose index cannot be loaded are passed over. */
  function Loaded(files: seq<Str>): seq<DiskTable>
  {
    if files == [] then [] else
      var file := files[|files| - 1];
      var index := S.LoadedIndex(file);
      Loaded(files[..|files| - 1]) + (if index.Ok? then [DiskTable(file, index.value)] else [])
  }

  // ---------------------------------------------------------------------------
  // Reading.

  function ReadTable(t: DiskTable, k: Key): Result<Entry, Status>
  {
    S.ReadResult(Some(t.file), t.index, k)
  }

  /** `get_from_sstables`: the newest table that answers, whatever errors the others report. */
  function ReadDisk(disk: seq<DiskTable>, k: Key): Result<Entry, Status>
  {
    if disk == [] then Err(NotFound) else
      var answer := ReadTable(disk[|disk| - 1], k);
      if answer.Ok? then answer else ReadDisk(disk[..|disk| - 1], k)
  }

  function ImageGet(im: Image, k: Key): Result<Entry, Status>
  {
    if Live(im.active, k) then Ok(im.active[k])
    else if im.frozen.Some? && Live(im.frozen.value, k) then Ok(im.frozen.value[k])
    else ReadDisk(im.disk, k)
  }

  /** Results in order, the first one of a key counting. */
  function FirstWins(results: seq<(Key, Entry)>): Table
  {
    if results == [] then map[] else FirstWins(results[1..])[results[0].0 := results[0].1]
  }

  /** A table whose scan fails contributes nothing. */
  function ScanTable(t: DiskTable, q: RangeQuery): seq<(Key, Entry)>
  {
    var scanned := S.ScanResult(Some(t.file), t.index, q);
    if scanned.Ok? then scanned.value else []
  }

  function MergeDisk(disk: seq<DiskTable>, q: RangeQuery): Table
  {
    if disk == [] then map[] else MergeDisk(disk[..|disk| - 1], q) + FirstWins(ScanTable(disk[|disk| - 1], q))
  }

  function ImageMerge(im: Image, q: RangeQuery): Table
  {
    MergeDisk(im.disk, q)
      + (if im.frozen.Some? then FirstWins(Scan(im.frozen.value, q)) else map[])
      + FirstWins(Scan(im.active, q))
  }

  function ImageScan(im: Image, q: RangeQuery): seq<(Key, Entry)>
  {
    FirstEntries(ImageMerge(im, q), ImageMerge(im, q).Keys, q.limit)
  }

  /** No layer's loop runs off its end. */
  ghost predicate ScanEnds(im: Image, q: RangeQuery)
  {
    && WalkEnds(im.active, q)
    && (im.frozen.Some? ==> WalkEnds(im.frozen.value, q))
    && forall i :: 0 <= i < |im.disk| ==> S.IndexWalkEnds(im.disk[i].index, q)
  }

  // ---------------------------------------------------------------------------
  // Steps.

  function ImageFlush(im: Image, firstOpens: bool, secondOpens: bool): Image
  {
    if !Proceeds(im.active, im.frozen, firstOpens) then im else
      var disk := im.disk + (if im.frozen.Some? then [Written(im.frozen.value)] else []);
      if secondOpens then Image(map[], None, disk + [Written(im.active)]) else Image(map[], Some(im.active), disk)
  }

  /** What `flush_memtable` reports. */
  function FlushStatus(im: Image, firstOpens: bool, secondOpens: bool): Result<(), Status>
  {
    if im.active.Keys == {} then Ok(())
    else if im.frozen.Some? && im.frozen.value.Keys == {} then Err(InvalidArgument)
    else if (im.frozen.Some? && !firstOpens) || !secondOpens then Err(StorageError)
    else Ok(())
  }

  /** A flush reports success exactly when there was nothing to flush, or nothing is left unflushed. */
  lemma FlushReports(im: Image, firstOpens: bool, secondOpens: bool)
    ensures FlushStatus(im, firstOpens, secondOpens).Ok? <==>
      var t := ImageFlush(im, firstOpens, secondOpens);
      im.active.Keys == {} || (t.active.Keys == {} && t.frozen.None?)
  {
  }

  function ImageStep(im: Image, op: Op): Image
  {
    match op
    case PutOp(k, e) => if Accepts(k, e) then im.(active := im.active[k := e]) else im
    case RemoveOp(k, now) => im.(active := Removed(im.active, k, now))
    case FlushOp(first, second) => ImageFlush(im, first, second)
  }

  /** `compact_sstables` as it is written: the two oldest tables are taken out of memory; their files stay. */
  function ImageCompact(im: Image): Image
  {
    if |im.disk| < 2 then im else im.(disk := im.disk[2..])
  }

  // ---------------------------------------------------------------------------
  // The image stands for a stack of maps.

  ghost predicate AllFit(tables: seq<Table>)
  {
    forall i :: 0 <= i < |tables| ==> S.Fits(S.Entries(tables[i]))
  }

  ghost predicate Represents(im: Image, s: Store)
  {
    && im.active == s.active && im.frozen == s.frozen
    && |im.disk| == |s.tables|
    && forall i :: 0 <= i < |s.tables| ==> im.disk[i] == Written(s.tables[i])
  }

  lemma StepRefines(im: Image, s: Store, op: Op)
    requires Represents(im, s)
    ensures Represents(ImageStep(im, op), Step(s, op))
  {
    hide Written;
  }

  lemma CompactRefines(im: Image, s: Store)
    requires Represents(im, s)
    ensures Represents(ImageCompact(im), Compacted(s))
  {
    hide Written;
  }

  /** A table that was written reads as its map. */
  lemma WrittenReads(data: Table, k: Key)
    requires S.Fits(S.Entries(data))
    ensures ReadTable(Written(data), k) == if Live(data, k) then Ok(data[k]) else Err(NotFound)
  {
    hide S.Fits, S.Entries, S.FileOf, S.IndexFrom, S.ReadFrom, S.LoadedIndex;
    var t := Written(data);
    S.ReadAgrees(t.file, t.index, data, k);
    S.LoadAfterWrite(S.Entries(data));
  }

  lemma {:induction false} DiskReads(disk: seq<DiskTable>, tables: seq<Table>, k: Key)
    requires AllFit(tables) && |disk| == |tables|
    requires forall i :: 0 <= i < |tables| ==> disk[i] == Written(tables[i])
    ensures ReadDisk(disk, k) == Lookup(Reversed(tables), k)
    decreases |disk|
  {
    hide Written, ReadTable, S.Fits, S.Entries;
    if disk != [] {
      var n := |disk| - 1;
      WrittenReads(tables[n], k);
      DiskReads(disk[..n], tables[..n], k);
      assert Reversed(tables)[1..] == Reversed(tables[..n]);
    }
  }

  /** The engine on files answers as the engine on maps. */
  lemma GetRefines(im: Image, s: Store, k: Key)
    requires Represents(im, s) && AllFit(s.tables)
    ensures ImageGet(im, k) == Layers.Get(s, k)
  {
    hide Written, ReadDisk, AllFit, Reversed;
    DiskReads(im.disk, s.tables, k);
    GetInOrder(s, k);
  }

  lemma {:induction false} FirstWinsAppend(results: seq<(Key, Entry)>, r: (Key, Entry))
    ensures var first := FirstWins(results);
      FirstWins(results + [r]) == if r.0 in first then first else first[r.0 := r.1]
    decreases |results|
  {
    if results == [] {
      assert results + [r] == [r] && [r][1..] == [];
    } else {
      FirstWinsAppend(results[1..], r);
      assert (results + [r])[1..] == results[1..] + [r];
    }
  }

  lemma {:induction false} FirstWinsOfPairs(m: Table, keys: seq<Key>)
    requires forall k :: k in keys ==> k in m
    ensures FirstWins(Pairs(m, keys)) == map k | k in m && k in keys :: m[k]
    decreases |keys|
  {
    if keys != [] {
      FirstWinsOfPairs(m, keys[1..]);
      assert Pairs(m, keys)[1..] == Pairs(m, keys[1..]);
    }
  }

  lemma ScanCollects(m: Table, q: RangeQuery)
    ensures FirstWins(Scan(m, q)) == Collected(m, q)
  {
    hide Visited, Filter;
    FilterMembers(m, Visited(m, q));
    FirstWinsOfPairs(m, Filter(m, Visited(m, q)));
  }

  lemma WrittenScans(data: Table, q: RangeQuery)
    requires S.Fits(S.Entries(data)) && S.IndexWalkEnds(Written(data).index, q)
    ensures FirstWins(ScanTable(Written(data), q)) == Collected(data, q)
  {
    hide S.Fits, S.Entries, S.FileOf, S.IndexFrom, S.ScanFrom, S.LoadedIndex, S.IndexWalkEnds, Collected, FirstWins,
      WalkEnds;
    var t := Written(data);
    S.ScanAgrees(t.file, t.index, data, q);
    S.LoadAfterWrite(S.Entries(data));
    ScanCollects(data, q);
  }

  lemma {:induction false} DiskScans(disk: seq<DiskTable>, tables: seq<Table>, q: RangeQuery)
    requires AllFit(tables) && |disk| == |tables|
    requires forall i :: 0 <= i < |tables| ==> disk[i] == Written(tables[i]) && S.IndexWalkEnds(disk[i].index, q)
    ensures MergeDisk(disk, q) == Merge(Reversed(tables), q)
    decreases |disk|
  {
    hide Written, ScanTable, S.Fits, S.Entries, S.IndexWalkEnds, Collected, FirstWins, Merge, MergeDisk, Reversed;
    if disk == [] {
      NothingToMerge(q);
    } else {
      var n := |disk| - 1;
      WrittenScans(tables[n], q);
      DiskScans(disk[..n], tables[..n], q);
      LastTable(disk, tables, q);
    }
  }

  lemma NothingToMerge(q: RangeQuery)
    ensures MergeDisk([], q) == Merge(Reversed([]), q)
  {
  }

  lemma LastTable(disk: seq<DiskTable>, tables: seq<Table>, q: RangeQuery)
    requires disk != [] && |disk| == |tables|
    ensures var n := |disk| - 1;
      && MergeDisk(disk, q) == MergeDisk(disk[..n], q) + FirstWins(ScanTable(disk[n], q))
      && Merge(Reversed(tables), q) == Merge(Reversed(tables[..n]), q) + Collected(tables[n], q)
  {
    hide ScanTable, FirstWins, Collected;
    assert Reversed(tables)[1..] == Reversed(tables[..|tables| - 1]);
  }

  /** No layer's scan returns a tombstone. */
  lemma MergedIsLive(im: Image, q: RangeQuery)
    ensures forall k :: k in ImageMerge(im, q) ==> !ImageMerge(im, q)[k].deleted
  {
    hide Scan, FirstWins, MergeDisk;
    ScanIsLive(im.active, q);
    if im.frozen.Some? { ScanIsLive(im.frozen.value, q); }
    MergedDiskIsLive(im.disk, q);
  }

  ghost predicate AllLive(m: Table)
  {
    forall k :: k in m ==> !m[k].deleted
  }

  lemma ScanIsLive(m: Table, q: RangeQuery)
    ensures AllLive(FirstWins(Scan(m, q)))
  {
    hide Visited, Filter, FirstWins, Scan;
    ScanCollects(m, q);
    FilterMembers(m, Visited(m, q));
  }

  lemma {:induction false} MergedDiskIsLive(disk: seq<DiskTable>, q: RangeQuery)
    ensures AllLive(MergeDisk(disk, q))
    decreases |disk|
  {
    hide ScanTable, FirstWins;
    if disk != [] {
      MergedDiskIsLive(disk[..|disk| - 1], q);
      TableScanIsLive(disk[|disk| - 1], q);
    }
  }

  lemma TableScanIsLive(t: DiskTable, q: RangeQuery)
    ensures AllLive(FirstWins(ScanTable(t, q)))
  {
    hide S.LoadedIndex, S.ScanSlice, S.IndexVisited, S.IndexWalkEnds, FirstWins;
    var loaded := S.LoadedIndex(t.file);
    var index := if t.index == [] && loaded.Ok? then loaded.value else t.index;
    SliceIsLive(t.file, S.IndexVisited(index, q));
    FirstWinsIsLive([]);
    var results := ScanTable(t, q);
    FirstWinsIsLive(results);
  }

  lemma {:induction false} SliceIsLive(file: Str, slice: seq<S.IndexEntry>)
    ensures S.ScanSlice(file, slice).Ok? ==>
      forall i :: 0 <= i < |S.ScanSlice(file, slice).value| ==> !S.ScanSlice(file, slice).value[i].1.deleted
    decreases |slice|
  {
    hide S.RecordAt;
    if slice != [] { SliceIsLive(file, slice[1..]); }
  }

  lemma {:induction false} FirstWinsIsLive(results: seq<(Key, Entry)>)
    requires forall i :: 0 <= i < |results| ==> !results[i].1.deleted
    ensures AllLive(FirstWins(results))
    decreases |results|
  {
    if results != [] { FirstWinsIsLive(results[1..]); }
  }

  lemma ScanRefines(im: Image, s: Store, q: RangeQuery)
    requires Represents(im, s) && AllFit(s.tables) && ScanEnds(im, q)
    ensures ImageScan(im, q) == ScanLayers(Stack(s), q)
  {
    hide Written, AllFit, Reversed, Collected, FirstWins, MergeDisk, Scan, WalkEnds, S.IndexWalkEnds, FirstEntries;
    DiskScans(im.disk, s.tables, q);
    ScanCollects(s.active, q);
    var below := Merge(Reversed(s.tables), q);
    assert Stack(s)[1..] == Older(s);
    if s.frozen.Some? {
      ScanCollects(s.frozen.value, q);
      assert Older(s)[1..] == Reversed(s.tables);
      assert Merge(Older(s), q) == below + Collected(s.frozen.value, q);
    } else {
      assert Older(s) == Reversed(s.tables);
      assert below + map[] == below;
    }
    assert ImageMerge(im, q) == Merge(Stack(s), q);
  }

  // ---------------------------------------------------------------------------
  // Loading the files again.

  function FilesOf(tables: seq<Table>): (files: seq<Str>)
    ensures |files| == |tables|
    ensures forall i :: 0 <= i < |tables| ==> files[i] == S.FileOf(S.Entries(tables[i]))
  {
    seq(|tables|, i requires 0 <= i < |tables| => S.FileOf(S.Entries(tables[i])))
  }

  lemma {:induction false} LoadedFiles(tables: seq<Table>)
    requires AllFit(tables)
    ensures |Loaded(FilesOf(tables))| == |tables|
    ensures forall i :: 0 <= i < |tables| ==> Loaded(FilesOf(tables))[i] == Reloaded(tables[i])
    decreases |tables|
  {
    hide S.Fits, S.Entries, S.FileOf, S.IndexFrom, S.LoadedIndex, S.Reparsed;
    if tables != [] {
      var n := |tables| - 1;
      LoadedFiles(tables[..n]);
      assert FilesOf(tables)[..n] == FilesOf(tables[..n]);
      S.LoadAfterWrite(S.Entries(tables[n]));
    }
  }

  ghost predicate ColonFreeTables(tables: seq<Table>)
  {
    forall i, k :: 0 <= i < |tables| && k in tables[i] ==> ColonFree(k)
  }

  /** A reloaded table is the written one exactly when no primary key in it has a colon. */
  lemma ReloadedIsWritten(data: Table)
    requires S.Fits(S.Entries(data))
    ensures Reloaded(data) == Written(data) <==> forall k :: k in data ==> ColonFree(k)
  {
    hide S.Fits, S.Entries, S.FileOf, S.IndexFrom, S.LoadedIndex, S.Reparsed, ColonFree;
    S.LoadAfterWrite(S.Entries(data));
    S.IndexRoundTrip(S.Entries(data));
    S.EntryKeys(data);
  }

  lemma ReloadedReads(data: Table, k: Key)
    requires S.Fits(S.Entries(data))
    ensures ReadTable(Reloaded(data), k) == S.AfterReload(data, k)
  {
    hide S.Fits, S.Entries, S.FileOf, S.IndexFrom, S.ReadFrom, S.LoadedIndex;
    S.LoadAfterWrite(S.Entries(data));
  }

  /** Nothing is found on disk exactly when no table answers. */
  lemma {:induction false} ReadDiskFails(disk: seq<DiskTable>, k: Key)
    ensures ReadDisk(disk, k).Err? ==> ReadDisk(disk, k) == Err(NotFound)
    ensures ReadDisk(disk, k).Err? <==> forall i :: 0 <= i < |disk| ==> ReadTable(disk[i], k).Err?
    decreases |disk|
  {
    hide ReadTable;
    if disk != [] { ReadDiskFails(disk[..|disk| - 1], k); }
  }
}
