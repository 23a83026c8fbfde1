/** The in-memory table (src/storage/memtable.cpp). */
module MemTable {
  import opened Bytes
  import opened Collections
  import opened Results
  import opened Keys
  import opened Ranges

  const MEMTABLE_SIZE_LIMIT: nat := 64 * 1024 * 1024

  // ---------------------------------------------------------------------------
  // The operations on the ordered map.

  predicate Accepts(k: Key, e: Entry)
  {
    |k.ToString()| <= MAX_KEY_SIZE && |e.value| <= MAX_VALUE_SIZE
  }

  /** Keys of at most 255 bytes without the separator, and values of at most 4096. */
  lemma AcceptsIff(k: Key, e: Entry)
    ensures Accepts(k, e) <==> |k.primary| + |k.secondary| <= 255 && |e.value| <= 4096
  {
  }

  function Tombstone(now: i64): Entry
  {
    Entry([], 0, now, true)
  }

  /** An existing entry keeps its value and is marked; a missing one is inserted as a bare marker. */
  function Removed(m: Table, k: Key, now: i64): Table
  {
    m[k := if k in m then m[k].(deleted := true, timestamp := now) else Tombstone(now)]
  }

  /** A removed key is marked with the time; its value and version stay, or are empty and 0 for a new entry. */
  lemma RemovedIs(m: Table, k: Key, now: i64)
    ensures var t := Removed(m, k, now);
      && t.Keys == m.Keys + {k} && (forall x :: x in m && x != k ==> t[x] == m[x])
      && t[k].deleted && t[k].timestamp == now
      && t[k].value == (if k in m then m[k].value else []) && t[k].version == (if k in m then m[k].version else 0)
  {
  }

  function Found(m: Table, k: Key): Result<Entry, Status>
  {
    if Live(m, k) then Ok(m[k]) else Err(NotFound)
  }

  // ---------------------------------------------------------------------------
  // Memory accounting.

  /** What one entry is charged; `overhead` stands for `sizeof(DataEntry)`. */
  function Cost(k: Key, e: Entry, overhead: nat): nat
  {
    |k.ToString()| + |e.value| + overhead
  }

  /** Both parts of the key and the separator, the value, and the record around it. */
  lemma CostIs(k: Key, e: Entry, overhead: nat)
    ensures Cost(k, e, overhead) == |k.primary| + 1 + |k.secondary| + |e.value| + overhead
  {
  }

  function Usage(m: Table, overhead: nat): nat
    decreases |m|
  {
    if m.Keys == {} then 0 else
      var k := Least(m.Keys);
      assert (m - {k}).Keys == m.Keys - {k};
      Cost(k, m[k], overhead) + Usage(m - {k}, overhead)
  }

  lemma WithoutSize(m: Table, k: Key)
    requires k in m
    ensures (m - {k}).Keys == m.Keys - {k}
    ensures |m - {k}| == |m| - 1
  {
    assert (m - {k}).Keys == m.Keys - {k};
    assert |(m - {k}).Keys| == |m.Keys| - 1;
  }

  /** The charge can be counted off starting from any key. */
  lemma {:induction false} UsageWithout(m: Table, k: Key, overhead: nat)
    requires k in m
    ensures Usage(m, overhead) == Cost(k, m[k], overhead) + Usage(m - {k}, overhead)
    decreases |m|
  {
    hide Cost, IsLeast, Least, Usage;
    var least := Least(m.Keys);
    UsageUnfold(m, overhead);
    if k != least {
      var a, b := m - {least}, m - {k};
      WithoutSize(m, least);
      WithoutSize(m, k);
      UsageWithout(a, k, overhead);
      UsageWithout(b, least, overhead);
      assert a - {k} == b - {least};
    }
  }

  lemma UsageUnfold(m: Table, overhead: nat)
    requires m.Keys != {}
    ensures Least(m.Keys) in m
    ensures Usage(m, overhead)
         == Cost(Least(m.Keys), m[Least(m.Keys)], overhead) + Usage(m - {Least(m.Keys)}, overhead)
  {
    hide Cost;
  }

  lemma UsageAfterUpdate(m: Table, k: Key, e: Entry, overhead: nat)
    ensures Usage(m[k := e], overhead)
         == Usage(m, overhead) + Cost(k, e, overhead) - (if k in m then Cost(k, m[k], overhead) else 0)
    ensures k in m ==> Usage(m, overhead) >= Cost(k, m[k], overhead)
  {
    hide Cost, Usage;
    var n := m[k := e];
    UsageWithout(n, k, overhead);
    assert n - {k} == m - {k};
    if k in m {
      UsageWithout(m, k, overhead);
    } else {
      assert m - {k} == m;
    }
  }

  // ---------------------------------------------------------------------------
  // The code.

  class MemTable {
    var data: Table
    var memoryUsage: nat
    const overhead: nat

    ghost predicate Valid()
      reads this
    {
      memoryUsage == Usage(data, overhead)
    }

    constructor (overhead: nat)
      ensures Valid() && data == map[] && this.overhead == overhead
    {
      data, memoryUsage := map[], 0;
      this.overhead := overhead;
    }

    method Get(key: Key) returns (r: Result<Entry, Status>)
      ensures r == Found(data, key)
    {
      if key !in data { return Err(NotFound); }
      if data[key].deleted { return Err(NotFound); }
      return Ok(data[key]);
    }

    method Put(key: Key, entry: Entry) returns (r: Result<(), Status>)
      requires Valid()
      modifies this
      ensures Valid()
      ensures r == if Accepts(key, entry) then Ok(()) else Err(InvalidArgument)
      ensures data == if Accepts(key, entry) then old(data)[key := entry] else old(data)
    {
      if |key.ToString()| > MAX_KEY_SIZE { return Err(InvalidArgument); }
      if |entry.value| > MAX_VALUE_SIZE { return Err(InvalidArgument); }
      hide Usage;
      UsageAfterUpdate(data, key, entry, overhead);
      var newSize := |key.ToString()| + |entry.value| + overhead;
      var oldSize := 0;
      if key in data {
        oldSize := |key.ToString()| + |data[key].value| + overhead;
      }
      data := data[key := entry];
      memoryUsage := memoryUsage + newSize;
      memoryUsage := memoryUsage - oldSize;
      return Ok(());
    }

    method Remove(key: Key, now: i64)
      requires Valid()
      modifies this
      ensures Valid()
      ensures data == Removed(old(data), key, now)
    {
      hide Usage;
      UsageAfterUpdate(data, key, Removed(data, key, now)[key], overhead);
      if key !in data {
        data := data[key := Tombstone(now)];
        memoryUsage := memoryUsage + |key.ToString()| + overhead;
        return;
      }
      data := data[key := data[key].(deleted := true, timestamp := now)];
    }

    /** With the start behind the end the loop never meets the end and goes on to the limit. */
    method RangeScan(q: RangeQuery) returns (results: seq<(Key, Entry)>)
      requires WalkEnds(data, q)
      ensures results == Scan(data, q)
    {
      hide SortedKeys, StartIndex, UpperBound, Less, Pairs, Filter, Visited;
      var keys := SortedKeys(data.Keys);
      var start, end := StartIndex(keys, q), UpperBound(keys, q.end);
      ghost var visited := Visited(data, q);
      VisitedInTable(data, q);
      NothingFiltered(data);
      results := [];
      var it := start;
      var count := 0;
      ghost var kept: seq<Key> := [];
      while it != end && count < q.limit
        invariant start <= it && count == it - start <= q.limit && count <= |visited|
        invariant start <= end ==> it <= end
        invariant kept == Filter(data, visited[..count])
        invariant forall k :: k in kept ==> k in data
        invariant results == Pairs(data, kept)
        decreases q.limit - count
      {
        VisitedAt(data, q, count);
        var k := keys[it];
        assert visited[..count + 1] == visited[..count] + [k];
        FilterAppend(data, visited[..count], k);
        if !data[k].deleted {
          PairsAppend(data, kept, k);
          results := results + [(k, data[k])];
          kept := kept + [k];
        }
        it := it + 1;
        count := count + 1;
      }
      VisitedEnd(data, q, count);
      assert visited[..count] == visited;
    }

    method ShouldFlush() returns (b: bool)
      requires Valid()
      ensures b <==> Usage(data, overhead) >= 64 * 1024 * 1024
    {
      return memoryUsage >= MEMTABLE_SIZE_LIMIT;
    }

    method Clear()
      modifies this
      ensures Valid() && data == map[]
    {
      data := map[];
      memoryUsage := 0;
    }
  }

  lemma PairsAppend(m: Table, keys: seq<Key>, k: Key)
    requires k in m && forall x :: x in keys ==> x in m
    ensures Pairs(m, keys + [k]) == Pairs(m, keys) + [(k, m[k])]
  {
  }

  lemma NothingFiltered(m: Table)
    ensures Filter(m, []) == [] && Pairs(m, []) == []
  {
  }

  lemma VisitedAt(m: Table, q: RangeQuery, i: nat)
    requires WalkEnds(m, q) && i < q.limit
    requires Forward(m, q) ==> StartIndex(SortedKeys(m.Keys), q) + i < UpperBound(SortedKeys(m.Keys), q.end)
    ensures StartIndex(SortedKeys(m.Keys), q) + i < |m| && i < |Visited(m, q)|
    ensures Visited(m, q)[i] == SortedKeys(m.Keys)[StartIndex(SortedKeys(m.Keys), q) + i]
  {
    hide SortedKeys, StartIndex, UpperBound;
  }

  lemma VisitedEnd(m: Table, q: RangeQuery, n: nat)
    requires WalkEnds(m, q) && n <= q.limit
    requires var keys := SortedKeys(m.Keys);
      n == q.limit || (Forward(m, q) && StartIndex(keys, q) + n == UpperBound(keys, q.end))
    ensures n <= |Visited(m, q)| ==> n == |Visited(m, q)|
  {
    hide SortedKeys, StartIndex, UpperBound;
  }

  lemma VisitedInTable(m: Table, q: RangeQuery)
    ensures forall k :: k in Visited(m, q) ==> k in m
  {
    hide SortedKeys, StartIndex, UpperBound;
    assert forall k :: k in SortedKeys(m.Keys) ==> k in Elements(SortedKeys(m.Keys));
  }

  lemma FilterAppend(m: Table, keys: seq<Key>, k: Key)
    requires k in m
    ensures Filter(m, keys + [k]) == Filter(m, keys) + (if m[k].deleted then [] else [k])
  {
    FilterConcat(m, keys, [k]);
    assert Filter(m, [k]) == if m[k].deleted then [] else [k];
  }
}
