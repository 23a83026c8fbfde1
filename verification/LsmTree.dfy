/** The LSM engine (src/storage/lsm_tree.cpp): its methods on the real layers, proved against their image. */
module LsmTree {
  import opened Bytes
  import opened Collections
  import opened Results
  import opened Keys
  import opened Ranges
  import M = MemTable
  import opened Layers
  import opened MergedScan
  import D = Disk
  import Recovery
  import Restarts
  import S = SsTable
  import W = Wal

  type Error = Status

  datatype OpenError = LogClosed | BadLog(error: W.LogError)

  class LsmTreeEngine {
    var memtable: M.MemTable
    var immutableMemtable: M.MemTable?
    /** Oldest first. */
    var sstables: seq<S.SsTable>
    const wal: W.Wal
    var isOpen: bool
    const overhead: nat

    /** The table files in the data directory, in the order of their names. */
    var directory: seq<Str>

    /** File and index of each SSTable. */
    ghost var disk: seq<D.DiskTable>

    ghost function Objects(): set<object?>
      reads this
    {
      {this, memtable, wal, wal.crc32c, wal.crc32c.table}
      + (if immutableMemtable != null then {immutableMemtable} else {})
      + (set t | t in sstables :: t as object?)
    }

    ghost predicate Valid()
      reads this, Objects(), sstables
    {
      && memtable.Valid()
      && (immutableMemtable != null ==> immutableMemtable.Valid() && immutableMemtable != memtable)
      && wal.Valid() && (isOpen ==> wal.isOpen)
      && |disk| == |sstables|
      && forall i :: 0 <= i < |sstables| ==> Shows(sstables[i], disk[i])
    }

    ghost function View(): D.Image
      reads this, Objects()
    {
      D.Image(memtable.data, if immutableMemtable != null then Some(immutableMemtable.data) else None, disk)
    }

    constructor (existingLog: Str, existingFiles: seq<Str>, overhead: nat)
      ensures Valid() && View() == D.NO_DATA && !isOpen && fresh(Objects())
      ensures wal.file == existingLog && directory == existingFiles
    {
      hide M.Usage, W.Crc.Engine.Valid;
      memtable := new M.MemTable(overhead);
      immutableMemtable := null;
      sstables := [];
      wal := new W.Wal(existingLog);
      isOpen := false;
      this.overhead := overhead;
      directory := existingFiles;
      disk := [];
    }

    /** `logOpens` is whether the log file can be opened. */
    method Open(logOpens: bool, now: i64) returns (r: Result<(), OpenError>)
      requires Valid()
      modifies this`isOpen, this`sstables, this`disk, memtable, wal`isOpen, wal.crc32c, wal.crc32c.table
      ensures Valid()
      ensures old(isOpen) ==> r == Ok(()) && isOpen && View() == old(View())
      ensures !old(isOpen) && !wal.isOpen ==> r == Err(LogClosed) && !isOpen && View() == old(View())
      ensures !old(isOpen) && wal.isOpen ==>
        var replayed := W.Replay(wal.file, 0, now);
        && isOpen == replayed.Ok?
        && r == (if replayed.Ok? then Ok(()) else Err(BadLog(replayed.error)))
        && View() == (if replayed.Err? then old(View()) else
             old(View()).(active := Recovery.Recovered(old(View()).active, replayed.value, now),
                          disk := old(View()).disk + D.Loaded(directory)))
      ensures !old(isOpen) ==> wal.isOpen == (old(wal.isOpen) || logOpens)
      ensures !old(isOpen) && wal.isOpen && old(View()) == D.NO_DATA ==>
        var reopened := Restarts.Reopen(wal.file, directory, now);
        if reopened.Ok? then isOpen && View() == reopened.value else r == Err(BadLog(reopened.error))
    {
      hide W.Replay, D.Loaded, Recovery.Recovered, M.Usage, W.Crc.Engine.Valid;
      if isOpen { return Ok(()); }
      var logResult := wal.Open(logOpens);
      if logResult.Err? { return Err(LogClosed); }
      var recovered := RecoverFromWal(now);
      if recovered.Err? { return Err(BadLog(recovered.error)); }
      LoadSsTables();
      assert [] + D.Loaded(directory) == D.Loaded(directory);
      isOpen := true;
      return Ok(());
    }

    /** The final flush is tried; its outcome does not matter. */
    method Close(firstOpens: bool, secondOpens: bool)
      requires Valid()
      modifies this`memtable, this`immutableMemtable, this`sstables, this`disk, this`directory, this`isOpen
      modifies wal`file, wal`sequenceNumber, wal`isOpen, wal.crc32c, wal.crc32c.table
      ensures Valid() && !isOpen && (old(isOpen) ==> !wal.isOpen)
      ensures !old(isOpen) ==> View() == old(View()) && directory == old(directory) && wal.file == old(wal.file)
      ensures old(isOpen) ==>
        var op := FlushOp(firstOpens, secondOpens);
        && View() == D.ImageStep(old(View()), op)
        && directory == old(directory) + Restarts.FilesFrom(old(View()), op)
        && wal.file == old(wal.file) + LoggedBytes(old(View()), op)
    {
      hide M.Usage, W.Crc.Engine.Valid, D.Written, D.ImageStep, LoggedBytes, Restarts.FilesFrom;
      if isOpen {
        var _ := FlushMemtable(firstOpens, secondOpens);
        wal.Close();
        isOpen := false;
      }
    }

    /** Replay the log into the memtable. */
    method RecoverFromWal(now: i64) returns (r: Result<(), W.LogError>)
      requires Valid() && wal.isOpen
      modifies memtable, wal.crc32c, wal.crc32c.table
      ensures Valid()
      ensures var replayed := W.Replay(wal.file, 0, now);
        && (replayed.Err? ==> r == Err(replayed.error) && View() == old(View()))
        && (replayed.Ok? ==>
              && r == Ok(())
              && View() == old(View()).(active := Recovery.Recovered(old(View()).active, replayed.value, now)))
    {
      hide W.Replay, M.Usage, W.Crc.Engine.Valid;
      var replayed := wal.ReplayFrom(0, now);
      if replayed.Err? { return Err(replayed.error); }
      var es := replayed.value;
      var i := 0;
      while i < |es|
        invariant 0 <= i <= |es|
        invariant Valid()
        invariant memtable.data == Recovery.Recovered(old(memtable.data), es[..i], now)
      {
        assert es[..i + 1][..i] == es[..i];
        if es[i].kind == W.PUT {
          var _ := memtable.Put(es[i].key, es[i].data);
        } else if es[i].kind == W.DELETE {
          memtable.Remove(es[i].key, now);
        }
        i := i + 1;
      }
      assert es[..i] == es;
      return Ok(());
    }

    /** Each file whose index can be loaded becomes a table. */
    method LoadSsTables()
      requires Valid()
      modifies this`sstables, this`disk
      ensures Valid()
      ensures View() == old(View()).(disk := old(View()).disk + D.Loaded(directory))
    {
      hide M.Usage, W.Crc.Engine.Valid, S.LoadedIndex;
      ghost var before := disk;
      NothingLoaded();
      assert before + [] == before;
      for i := 0 to |directory|
        invariant Valid() && memtable == old(memtable) && immutableMemtable == old(immutableMemtable)
        invariant disk == before + D.Loaded(directory[..i])
        invariant forall t :: t in sstables ==> t in old(sstables) || fresh(t)
      {
        assert directory[..i + 1][..i] == directory[..i];
        var table, result := LoadTable(directory[i]);
        ghost var index := S.LoadedIndex(directory[i]);
        assert D.Loaded(directory[..i + 1])
            == D.Loaded(directory[..i]) + (if index.Ok? then [D.DiskTable(directory[i], index.value)] else []);
        if result.Ok? {
          assert before + (D.Loaded(directory[..i]) + [D.DiskTable(directory[i], index.value)])
              == disk + [D.DiskTable(directory[i], index.value)];
          sstables := sstables + [table];
          disk := disk + [D.DiskTable(directory[i], index.value)];
        } else {
          assert D.Loaded(directory[..i]) + [] == D.Loaded(directory[..i]);
        }
      }
      assert directory[..|directory|] == directory;
    }

    method GetFromSsTables(key: Key) returns (r: Result<Entry, Error>)
      requires Valid()
      modifies set t | t in sstables
      ensures Valid() && View() == old(View())
      ensures r == D.ReadDisk(View().disk, key)
    {
      hide D.ReadTable, D.ReadDisk, S.LoadedIndex, M.Usage, W.Crc.Engine.Valid;
      var n := |sstables|;
      assert disk[..n] == disk;
      while n > 0
        invariant 0 <= n <= |sstables|
        invariant Valid() && View() == old(View())
        invariant D.ReadDisk(disk, key) == D.ReadDisk(disk[..n], key)
      {
        n := n - 1;
        ReadLast(disk[..n + 1], key);
        assert disk[..n + 1][..n] == disk[..n];
        var result := ReadTable(sstables[n], disk[n], key);
        if result.Ok? { return result; }
      }
      NothingOnDisk(key);
      return Err(NotFound);
    }

    method Get(key: Key) returns (r: Result<Entry, Error>)
      requires Valid()
      modifies set t | t in sstables
      ensures Valid() && View() == old(View())
      ensures r == if isOpen then D.ImageGet(View(), key) else Err(StorageError)
    {
      hide D.ReadDisk, Shows, M.Usage, W.Crc.Engine.Valid;
      if !isOpen { return Err(StorageError); }
      D.ReadDiskFails(disk, key);
      var result := memtable.Get(key);
      if result.Ok? { return result; }
      if immutableMemtable != null {
        result := immutableMemtable.Get(key);
        if result.Ok? { return result; }
      }
      result := GetFromSsTables(key);
      if result.Ok? { return result; }
      return Err(NotFound);
    }

    method Put(key: Key, entry: Entry) returns (r: Result<(), Error>)
      requires Valid()
      modifies memtable, wal`file, wal`sequenceNumber, wal.crc32c, wal.crc32c.table
      ensures Valid()
      ensures !isOpen ==> r == Err(StorageError) && View() == old(View()) && wal.file == old(wal.file)
      ensures isOpen ==> r == if M.Accepts(key, entry) then Ok(()) else Err(InvalidArgument)
      ensures isOpen ==> View() == D.ImageStep(old(View()), PutOp(key, entry))
      ensures isOpen ==> wal.file == old(wal.file) + LoggedBytes(old(View()), PutOp(key, entry))
    {
      hide Shows, M.Usage, W.Crc.Engine.Valid, W.Record;
      if !isOpen { return Err(StorageError); }
      var walEntry := W.WalEntry(W.PUT, key, entry, 0);
      LogOfOne(walEntry);
      var logged := wal.Append(walEntry);
      r := memtable.Put(key, entry);
    }

    method Remove(key: Key, now: i64) returns (r: Result<(), Error>)
      requires Valid()
      modifies memtable, wal`file, wal`sequenceNumber, wal.crc32c, wal.crc32c.table
      ensures Valid()
      ensures !isOpen ==> r == Err(StorageError) && View() == old(View()) && wal.file == old(wal.file)
      ensures isOpen ==> r == Ok(()) && View() == D.ImageStep(old(View()), RemoveOp(key, now))
      ensures isOpen ==> wal.file == old(wal.file) + LoggedBytes(old(View()), RemoveOp(key, now))
    {
      hide Shows, M.Usage, W.Crc.Engine.Valid, W.Record;
      if !isOpen { return Err(StorageError); }
      var walEntry := W.WalEntry(W.DELETE, key, M.Tombstone(now), 0);
      LogOfOne(walEntry);
      var logged := wal.Append(walEntry);
      memtable.Remove(key, now);
      return Ok(());
    }

    /** Writes the immutable memtable to a new SSTable and pushes that; `flush_memtable` does this in two places. */
    method WriteImmutable(opens: bool) returns (r: Result<(), Error>)
      requires Valid() && immutableMemtable != null
      modifies this`sstables, this`disk, this`directory
      ensures Valid()
      ensures var data := immutableMemtable.data;
        && r == (if data.Keys == {} then Err(InvalidArgument) else if opens then Ok(()) else Err(StorageError))
        && disk == old(disk) + (if r.Ok? then [D.Written(data)] else [])
        && directory == old(directory) + (if r.Ok? then D.FilesOf([data]) else [])
    {
      hide M.Usage, W.Crc.Engine.Valid, S.FileOf, S.IndexFrom, S.Entries;
      var table;
      table, r := WriteTable(immutableMemtable.data, opens);
      if r.Ok? {
        ghost var written := D.Written(immutableMemtable.data);
        assert D.FilesOf([immutableMemtable.data]) == [table.file.value];
        sstables := sstables + [table];
        disk := disk + [written];
        directory := directory + [table.file.value];
      }
    }

    /** An immutable memtable that an earlier flush could not write comes first. */
    method FlushLeftover(opens: bool) returns (r: Result<(), Error>)
      requires Valid()
      modifies this`sstables, this`disk, this`directory
      ensures Valid()
      ensures var leftover := old(View()).frozen;
        if leftover.None? then r == Ok(()) && disk == old(disk) && directory == old(directory)
        else
          && r == (
            if leftover.value.Keys == {} then Err(InvalidArgument) else if opens then Ok(()) else Err(StorageError))
          && disk == old(disk) + (if r.Ok? then [D.Written(leftover.value)] else [])
          && directory == old(directory) + (if r.Ok? then D.FilesOf([leftover.value]) else [])
    {
      hide Shows, M.Usage, W.Crc.Engine.Valid, D.Written, D.FilesOf;
      r := Ok(());
      if immutableMemtable != null {
        r := WriteImmutable(opens);
      }
    }

    /** The memtable becomes the immutable one and a new one takes its place. */
    method Freeze()
      requires Valid()
      modifies this`memtable, this`immutableMemtable
      ensures Valid()
      ensures immutableMemtable == old(memtable)
      ensures View() == D.Image(map[], Some(old(memtable.data)), disk)
    {
      hide Shows, M.Usage, W.Crc.Engine.Valid;
      immutableMemtable := memtable;
      memtable := new M.MemTable(overhead);
    }

    method Checkpoint()
      requires Valid() && wal.isOpen
      modifies wal`file, wal`sequenceNumber, wal.crc32c, wal.crc32c.table
      ensures Valid()
      ensures wal.file == old(wal.file) + W.Log([W.WalEntry(W.CHECKPOINT, Key([], []), Recovery.DEFAULT_ENTRY, 0)])
    {
      hide Shows, M.Usage, W.Crc.Engine.Valid, W.Record;
      var checkpoint := W.WalEntry(W.CHECKPOINT, Key([], []), Recovery.DEFAULT_ENTRY, 0);
      LogOfOne(checkpoint);
      var logged := wal.Append(checkpoint);
    }

    /** The second half of `flush_memtable`. */
    method FlushActive(opens: bool) returns (r: Result<(), Error>)
      requires Valid() && wal.isOpen && memtable.data.Keys != {}
      modifies this`memtable, this`immutableMemtable, this`sstables, this`disk, this`directory
      modifies wal`file, wal`sequenceNumber, wal.crc32c, wal.crc32c.table
      ensures Valid()
      ensures r == if opens then Ok(()) else Err(StorageError)
      ensures var m := old(memtable.data);
        && View() == (
          if opens then D.Image(map[], None, old(disk) + [D.Written(m)]) else D.Image(map[], Some(m), old(disk)))
        && directory == old(directory) + (if opens then D.FilesOf([m]) else [])
      ensures wal.file == old(wal.file)
        + (if opens then W.Log([W.WalEntry(W.CHECKPOINT, Key([], []), Recovery.DEFAULT_ENTRY, 0)]) else [])
    {
      hide Shows, M.Usage, W.Crc.Engine.Valid, W.Log, D.Written, D.FilesOf;
      Freeze();
      r := WriteImmutable(opens);
      if r.Ok? {
        immutableMemtable := null;
        Checkpoint();
      } else {
        assert disk == old(disk) && directory == old(directory);
      }
    }

    /** The flags say whether the first and the second SSTable file can be opened for writing. */
    method FlushMemtable(firstOpens: bool, secondOpens: bool) returns (r: Result<(), Error>)
      requires Valid() && wal.isOpen
      modifies this`memtable, this`immutableMemtable, this`sstables, this`disk, this`directory
      modifies wal`file, wal`sequenceNumber, wal.crc32c, wal.crc32c.table
      ensures Valid()
      ensures r == D.FlushStatus(old(View()), firstOpens, secondOpens)
      ensures View() == D.ImageStep(old(View()), FlushOp(firstOpens, secondOpens))
      ensures directory == old(directory) + Restarts.FilesFrom(old(View()), FlushOp(firstOpens, secondOpens))
      ensures wal.file == old(wal.file) + LoggedBytes(old(View()), FlushOp(firstOpens, secondOpens))
    {
      hide Shows, M.Usage, W.Crc.Engine.Valid, W.Log, D.Written, D.FilesOf, D.ImageStep, D.FlushStatus,
        Restarts.FilesFrom, LoggedBytes;
      ghost var im := View();
      FlushStops(im, firstOpens, secondOpens);
      if memtable.data.Keys == {} { return Ok(()); }
      r := FlushLeftover(firstOpens);
      if r.Err? { return r; }
      FlushGoesOn(im, firstOpens, secondOpens);
      ghost var first, second :=
        if im.frozen.Some? then D.FilesOf([im.frozen.value]) else [],
        if secondOpens then D.FilesOf([im.active]) else [];
      assert directory == old(directory) + first;
      Associate(old(directory), first, second);
      r := FlushActive(secondOpens);
    }

    /**
     * The two oldest tables are taken out first; the merge of their data is not written, so that an empty table is to
     * be written in their place, and that is always refused.
     */
    method CompactSsTables(opens: bool) returns (r: Result<(), Error>)
      requires Valid()
      modifies this`sstables, this`disk
      ensures Valid() && View() == D.ImageCompact(old(View()))
      ensures r == if |old(sstables)| < 2 then Ok(()) else Err(InvalidArgument)
    {
      hide M.Usage, W.Crc.Engine.Valid, S.LoadedIndex, D.Written;
      if |sstables| < 2 { return Ok(()); }
      sstables := sstables[2..];
      disk := disk[2..];
      var mergedData: Table := map[];
      var table;
      table, r := WriteTable(mergedData, opens);
    }

    /** One round of the background thread. */
    method BackgroundWork(maxSsTables: nat, firstOpens: bool, secondOpens: bool)
      requires Valid() && wal.isOpen
      modifies this`memtable, this`immutableMemtable, this`sstables, this`disk, this`directory
      modifies wal`file, wal`sequenceNumber, wal.crc32c, wal.crc32c.table
      ensures Valid()
      ensures var before := old(View());
        var flushed := if M.Usage(before.active, old(memtable.overhead)) >= M.MEMTABLE_SIZE_LIMIT
          then D.ImageStep(before, FlushOp(firstOpens, secondOpens)) else before;
        View() == if |flushed.disk| > maxSsTables then D.ImageCompact(flushed) else flushed
    {
      hide Shows, M.Usage, W.Crc.Engine.Valid, D.ImageStep, LoggedBytes, Restarts.FilesFrom, D.FlushStatus;
      var full := memtable.ShouldFlush();
      if full {
        var _ := FlushMemtable(firstOpens, secondOpens);
      }
      if |sstables| > maxSsTables {
        var _ := CompactSsTables(true);
      }
    }

    method RangeScan(q: RangeQuery) returns (r: Result<seq<(Key, Entry)>, Error>)
      requires Valid() && (isOpen ==> D.ScanEnds(View(), q))
      modifies set t | t in sstables
      ensures Valid() && View() == old(View())
      ensures r == if isOpen then Ok(D.ImageScan(View(), q)) else Err(StorageError)
    {
      hide Shows, M.Usage, W.Crc.Engine.Valid, Scan, D.FirstWins, D.MergeDisk, D.ImageScan, D.ImageMerge, WalkEnds,
        S.IndexWalkEnds;
      if !isOpen { return Err(StorageError); }
      var merged: Table := map[];
      var results := memtable.RangeScan(q);
      merged := AddMissing(merged, results);
      if immutableMemtable != null {
        results := immutableMemtable.RangeScan(q);
        merged := AddMissing(merged, results);
      }
      merged := AddSsTables(merged, q);
      MergeInOrder(View(), q);
      var final := FirstNotDeleted(merged, View(), q);
      return Ok(final);
    }

    /** The loop over the SSTables, newest first. */
    method AddSsTables(merged: Table, q: RangeQuery) returns (m: Table)
      requires Valid()
      modifies set t | t in sstables
      ensures Valid() && View() == old(View())
      ensures m == D.MergeDisk(View().disk, q) + merged
    {
      hide S.LoadedIndex, M.Usage, W.Crc.Engine.Valid, D.MergeDisk, D.FirstWins, D.ScanTable;
      m := merged;
      var n := |sstables|;
      assert disk[..n] == disk;
      while n > 0
        invariant 0 <= n <= |sstables|
        invariant Valid() && View() == old(View())
        invariant D.MergeDisk(disk, q) + merged == D.MergeDisk(disk[..n], q) + m
      {
        n := n - 1;
        MergeLast(disk[..n + 1], q);
        assert disk[..n + 1][..n] == disk[..n];
        var scanned := ScanTable(sstables[n], disk[n], q);
        MapsAssociate(D.MergeDisk(disk[..n], q), D.FirstWins(scanned), m);
        m := AddMissing(m, scanned);
      }
      NothingMerged(q);
      assert map[] + m == m;
    }
  }

  function LoggedBytes(im: D.Image, op: Op): Str
  {
    W.Log(Recovery.Logs(im.active, im.frozen, op))
  }

  /** The object has these bytes and this index in memory; an empty index is loaded anew, and stays empty. */
  ghost predicate Shows(t: S.SsTable, d: D.DiskTable)
    reads t
  {
    && t.file == Some(d.file) && t.index == d.index
    && (d.index == [] ==> S.LoadedIndex(d.file) == Ok([]))
  }

  method WriteTable(data: Table, opens: bool) returns (t: S.SsTable, r: Result<(), Error>)
    ensures fresh(t)
    ensures r == if data.Keys == {} then Err(InvalidArgument) else if opens then Ok(()) else Err(StorageError)
    ensures r.Ok? ==> Shows(t, D.Written(data))
  {
    hide S.Entries, S.FileOf, S.IndexFrom, S.LoadedIndex;
    t := new S.SsTable(None);
    r := t.Write(data, opens);
    if r.Ok? { assert |t.index| == |S.Entries(data)| == |data.Keys|; }
  }

  method LoadTable(file: Str) returns (t: S.SsTable, r: Result<(), Status>)
    ensures fresh(t)
    ensures r.Ok? <==> S.LoadedIndex(file).Ok?
    ensures r.Ok? ==> Shows(t, D.DiskTable(file, S.LoadedIndex(file).value))
  {
    hide S.LoadedIndex;
    t := new S.SsTable(Some(file));
    r := t.LoadIndex();
  }

  method ReadTable(t: S.SsTable, ghost d: D.DiskTable, key: Key) returns (r: Result<Entry, Error>)
    requires Shows(t, d)
    modifies t`index, t`size
    ensures Shows(t, d) && t.index == old(t.index)
    ensures r == D.ReadTable(d, key)
  {
    hide S.ReadFrom, S.LoadedIndex;
    r := t.Read(key);
  }

  /** A scan that fails counts as empty. */
  method ScanTable(t: S.SsTable, ghost d: D.DiskTable, q: RangeQuery) returns (r: seq<(Key, Entry)>)
    requires Shows(t, d)
    modifies t`index, t`size
    ensures Shows(t, d) && t.index == old(t.index)
    ensures r == D.ScanTable(d, q)
  {
    hide S.ScanFrom, S.LoadedIndex;
    var scanned := t.RangeScan(q);
    r := if scanned.Ok? then scanned.value else [];
  }

  lemma ReadLast(disk: seq<D.DiskTable>, k: Key)
    requires disk != []
    ensures var n := |disk| - 1;
      D.ReadDisk(disk, k) == if D.ReadTable(disk[n], k).Ok? then D.ReadTable(disk[n], k) else D.ReadDisk(disk[..n], k)
  {
    hide D.ReadTable;
  }

  lemma NothingOnDisk(k: Key)
    ensures D.ReadDisk([], k) == Err(NotFound)
  {
  }

  lemma NothingLoaded()
    ensures D.Loaded([]) == []
  {
  }

  lemma MergeLast(disk: seq<D.DiskTable>, q: RangeQuery)
    requires disk != []
    ensures var n := |disk| - 1;
      D.MergeDisk(disk, q) == D.MergeDisk(disk[..n], q) + D.FirstWins(D.ScanTable(disk[n], q))
  {
    hide D.ScanTable;
  }

  lemma MapsAssociate(a: Table, b: Table, c: Table)
    ensures (a + b) + c == a + (b + c)
  {
  }

  /** Filling gaps from the newest layer down merges all layers. */
  lemma MergeInOrder(im: D.Image, q: RangeQuery)
    ensures var top := D.FirstWins(Scan(im.active, q)) + map[];
      D.ImageMerge(im, q)
      == D.MergeDisk(im.disk, q) + (if im.frozen.Some? then D.FirstWins(Scan(im.frozen.value, q)) + top else top)
  {
    hide D.FirstWins, D.MergeDisk, Scan;
    var disk, top := D.MergeDisk(im.disk, q), D.FirstWins(Scan(im.active, q));
    assert top + map[] == top;
    assert disk + map[] == disk;
    if im.frozen.Some? { MapsAssociate(disk, D.FirstWins(Scan(im.frozen.value, q)), top); }
  }

  lemma NothingMerged(q: RangeQuery)
    ensures D.MergeDisk([], q) == map[]
  {
  }

  lemma LogOfOne(e: W.WalEntry)
    ensures W.Log([e]) == W.Record(e)
  {
    hide W.Record;
    assert [e][1..] == [];
    assert W.Record(e) + [] == W.Record(e);
  }

  lemma NothingLogged()
    ensures W.Log([]) == []
  {
  }

  predicate Stops(im: D.Image, firstOpens: bool)
  {
    im.active.Keys == {} || (im.frozen.Some? && (im.frozen.value.Keys == {} || !firstOpens))
  }

  /** A flush without work, or that cannot write the leftover table, changes nothing. */
  lemma FlushStops(im: D.Image, firstOpens: bool, secondOpens: bool)
    ensures Stops(im, firstOpens) ==>
      var op := FlushOp(firstOpens, secondOpens);
      && D.ImageStep(im, op) == im && Restarts.FilesFrom(im, op) == [] && LoggedBytes(im, op) == []
      && D.FlushStatus(im, firstOpens, secondOpens) == (
           if im.active.Keys == {} then Ok(())
           else if im.frozen.value.Keys == {} then Err(InvalidArgument)
           else Err(StorageError))
  {
    hide W.Log;
    NothingLogged();
    assert D.FilesOf([]) == [];
  }

  /** Otherwise the leftover table goes to disk and then, if its file opens, the memtable. */
  lemma FlushGoesOn(im: D.Image, firstOpens: bool, secondOpens: bool)
    requires !Stops(im, firstOpens)
    ensures var op := FlushOp(firstOpens, secondOpens);
      var disk := im.disk + (if im.frozen.Some? then [D.Written(im.frozen.value)] else []);
      && D.ImageStep(im, op) == (
           if secondOpens then D.Image(map[], None, disk + [D.Written(im.active)])
           else D.Image(map[], Some(im.active), disk))
      && Restarts.FilesFrom(im, op) ==
           (if im.frozen.Some? then D.FilesOf([im.frozen.value]) else []) +
           (if secondOpens then D.FilesOf([im.active]) else [])
      && LoggedBytes(im, op) ==
           (if secondOpens then W.Log([W.WalEntry(W.CHECKPOINT, Key([], []), Recovery.DEFAULT_ENTRY, 0)]) else [])
      && D.FlushStatus(im, firstOpens, secondOpens) == (if secondOpens then Ok(()) else Err(StorageError))
  {
    hide D.FilesOf, D.Written, W.Log;
    NothingLogged();
    var first, second := if im.frozen.Some? then [im.frozen.value] else [], if secondOpens then [im.active] else [];
    Restarts.FilesConcat(first, second);
    assert D.FilesOf([]) == [];
  }

  /** Inserting a layer's results where the key is not there yet. */
  method AddMissing(merged: Table, results: seq<(Key, Entry)>) returns (m: Table)
    ensures m == D.FirstWins(results) + merged
  {
    hide D.FirstWins;
    m := merged;
    NoResults();
    for i := 0 to |results|
      invariant m == D.FirstWins(results[..i]) + merged
    {
      D.FirstWinsAppend(results[..i], results[i]);
      assert results[..i + 1] == results[..i] + [results[i]];
      if results[i].0 !in m {
        m := m[results[i].0 := results[i].1];
      }
    }
    assert results[..|results|] == results;
  }

  lemma NoResults()
    ensures D.FirstWins([]) == map[]
  {
  }

  /** The last loop: entries not deleted, in key order, up to the limit. */
  method FirstNotDeleted(merged: Table, ghost im: D.Image, q: RangeQuery) returns (r: seq<(Key, Entry)>)
    requires merged == D.ImageMerge(im, q)
    ensures r == D.ImageScan(im, q)
  {
    hide SortedKeys, D.ImageMerge, D.ImageScan, Less, Take, Pairs;
    D.MergedIsLive(im, q);
    var keys := SortedKeys(merged.Keys);
    KeysAreMerged(im, q);
    r := [];
    M.NothingFiltered(merged);
    var count := 0;
    var i := 0;
    while i < |keys| && count < q.limit
      invariant 0 <= i <= |keys| && count == i <= q.limit
      invariant r == Pairs(merged, keys[..i])
    {
      assert keys[i] in keys;
      M.PairsAppend(merged, keys[..i], keys[i]);
      assert keys[..i + 1] == keys[..i] + [keys[i]];
      if !merged[keys[i]].deleted {
        r := r + [(keys[i], merged[keys[i]])];
        count := count + 1;
      }
      i := i + 1;
    }
    TakenKeys(keys, i, q.limit);
  }

  lemma KeysAreMerged(im: D.Image, q: RangeQuery)
    ensures var merged := D.ImageMerge(im, q);
      var keys := SortedKeys(merged.Keys);
      && (forall k :: k in keys ==> k in merged)
      && (forall k :: k in Take(keys, q.limit) ==> k in merged)
      && D.ImageScan(im, q) == Pairs(merged, Take(keys, q.limit))
  {
    hide SortedKeys, D.ImageMerge;
    var keys := SortedKeys(D.ImageMerge(im, q).Keys);
    forall k | k in keys
      ensures k in D.ImageMerge(im, q)
    {
      assert k in Elements(keys);
    }
  }

  lemma TakenKeys(keys: seq<Key>, i: nat, limit: nat)
    requires i <= |keys| && i <= limit && (i == |keys| || i == limit)
    ensures keys[..i] == Take(keys, limit)
  {
  }
}
