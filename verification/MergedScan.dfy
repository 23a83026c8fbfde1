/** `LSMTreeEngine::range_scan`: merging the limited scans of all layers (src/storage/lsm_tree.cpp). */
module MergedScan {
  import opened Bytes
  import opened Collections
  import opened Results
  import opened Keys
  import opened Ranges
  import opened MemTable
  import opened Layers

  /** The entries one layer's scan contributes. */
  function Collected(m: Table, q: RangeQuery): Table
  {
    map k | k in m && k in Filter(m, Visited(m, q)) :: m[k]
  }

  /** `merged_results`: an entry of a newer layer is never replaced by one of an older layer. */
  function Merge(layers: seq<Table>, q: RangeQuery): Table
  {
    if layers == [] then map[] else Merge(layers[1..], q) + Collected(layers[0], q)
  }

  function FirstEntries(m: Table, s: set<Key>, n: nat): seq<(Key, Entry)>
    requires s <= m.Keys
  {
    var keys := Take(SortedKeys(s), n);
    assert forall k :: k in keys ==> k in m by {
      forall k | k in keys ensures k in m { TakeIsSubset(s, n, k); }
    }
    Pairs(m, keys)
  }

  /** What `range_scan` returns. */
  function ScanLayers(layers: seq<Table>, q: RangeQuery): seq<(Key, Entry)>
  {
    FirstEntries(Merge(layers, q), Merge(layers, q).Keys, q.limit)
  }

  /** All the entries `get` can return. */
  function Visible(layers: seq<Table>): Table
  {
    if layers == [] then map[] else
      Visible(layers[1..]) + (map k | k in layers[0] && !layers[0][k].deleted :: layers[0][k])
  }

  lemma {:induction false} VisibleIsLookup(layers: seq<Table>, k: Key)
    ensures k in Visible(layers) <==> Lookup(layers, k).Ok?
    ensures k in Visible(layers) ==> Lookup(layers, k) == Ok(Visible(layers)[k])
    decreases layers
  {
    if layers != [] { VisibleIsLookup(layers[1..], k); }
  }

  /** Every layer is walked forward, as it is whenever start is not after end. */
  ghost predicate AllForward(layers: seq<Table>, q: RangeQuery)
  {
    forall i :: 0 <= i < |layers| ==> Forward(layers[i], q)
  }

  lemma OrderedIsForward(layers: seq<Table>, q: RangeQuery)
    requires !Less(q.end, q.start)
    ensures AllForward(layers, q)
  {
    hide Less, Forward;
    forall i | 0 <= i < |layers|
      ensures Forward(layers[i], q)
    {
      ForwardIff(layers[i], q);
    }
  }

  lemma CollectedKey(m: Table, q: RangeQuery, k: Key)
    ensures k in Collected(m, q) ==> Live(m, k) && k in Visited(m, q)
    ensures k in Collected(m, q) && Forward(m, q) ==> InRange(k, q)
  {
    hide InRange, SortedKeys, Filter, Visited, Forward;
    FilterMembers(m, Visited(m, q));
    if Forward(m, q) && k in Visited(m, q) {
      ForwardVisits(m, q);
      TakeIsSubset(KeysInRange(m.Keys, q), q.limit, k);
    }
  }

  lemma {:induction false} MergedIsVisible(layers: seq<Table>, q: RangeQuery, k: Key)
    requires AllForward(layers, q) && k in Merge(layers, q)
    ensures k in KeysInRange(Visible(layers).Keys, q)
    decreases layers
  {
    hide InRange, Collected, Visited, Forward;
    CollectedKey(layers[0], q, k);
    if k !in Collected(layers[0], q) { MergedIsVisible(layers[1..], q, k); }
  }

  /** A layer that meets its limit contributes all its live entries that are among the first of the whole. */
  lemma LayerContributes(m: Table, all: set<Key>, q: RangeQuery, k: Key)
    requires Forward(m, q) && LimitSuffices(m, q) && KeysInRange(LiveKeys(m), q) <= all
    requires Live(m, k) && k in Take(SortedKeys(all), q.limit) && InRange(k, q)
    ensures k in Collected(m, q)
  {
    hide InRange, SortedKeys, Filter, LimitSuffices, Pairs, Visited, Forward;
    var live := KeysInRange(LiveKeys(m), q);
    FirstOfSubset(live, all, k, q.limit);
    ScanIsFirstLive(m, q);
    FilterMembers(m, Visited(m, q));
    assert forall x :: x in Take(SortedKeys(live), q.limit) ==> x in m by {
      forall x | x in Take(SortedKeys(live), q.limit) ensures x in m { TakeIsSubset(live, q.limit, x); }
    }
    PairsInjective(m, Filter(m, Visited(m, q)), Take(SortedKeys(live), q.limit));
  }

  /** If every layer contributes a key wherever it is live, the merge shows the newest live entry. */
  lemma {:induction false} MergeShowsNewest(layers: seq<Table>, q: RangeQuery, k: Key)
    requires forall i :: 0 <= i < |layers| && Live(layers[i], k) ==> k in Collected(layers[i], q)
    requires k in Visible(layers)
    ensures k in Merge(layers, q) && Merge(layers, q)[k] == Visible(layers)[k]
    decreases layers
  {
    hide Collected;
    CollectedEntry(layers[0], q, k);
    if !Live(layers[0], k) {
      assert forall i :: 0 <= i < |layers[1..]| ==> layers[1..][i] == layers[i + 1];
      MergeShowsNewest(layers[1..], q, k);
    } else {
      assert k in Collected(layers[0], q);
    }
  }

  lemma CollectedEntry(m: Table, q: RangeQuery, k: Key)
    ensures k in Collected(m, q) ==> Live(m, k) && Collected(m, q)[k] == m[k]
  {
    hide Visited, Filter;
    FilterMembers(m, Visited(m, q));
  }

  lemma {:induction false} LayerIsVisible(layers: seq<Table>, i: nat, q: RangeQuery)
    requires i < |layers|
    ensures KeysInRange(LiveKeys(layers[i]), q) <= KeysInRange(Visible(layers).Keys, q)
    decreases i
  {
    hide InRange;
    if i > 0 { LayerIsVisible(layers[1..], i - 1, q); }
  }

  /**
   * When the limit suffices in every layer, `range_scan` returns exactly the first `limit` entries in range, in key
   * order, of the newest-live-wins union of all layers.
   */
  lemma {:induction false} RangeScanIsFirstVisible(layers: seq<Table>, q: RangeQuery)
    requires AllForward(layers, q)
    requires forall i :: 0 <= i < |layers| ==> LimitSuffices(layers[i], q)
    ensures ScanLayers(layers, q) == FirstEntries(Visible(layers), KeysInRange(Visible(layers).Keys, q), q.limit)
  {
    hide InRange, SortedKeys, Merge, Visible, LimitSuffices, Collected, Pairs, Forward;
    var merged, visible := Merge(layers, q), Visible(layers);
    var all := KeysInRange(visible.Keys, q);
    var first := Take(SortedKeys(all), q.limit);
    forall k | k in merged
      ensures k in all
    {
      MergedIsVisible(layers, q, k);
    }
    forall k | k in first
      ensures k in merged && merged[k] == visible[k]
    {
      TakeIsSubset(all, q.limit, k);
      forall i | 0 <= i < |layers| && Live(layers[i], k)
        ensures k in Collected(layers[i], q)
      {
        LayerIsVisible(layers, i, q);
        LayerContributes(layers[i], all, q, k);
      }
      MergeShowsNewest(layers, q, k);
    }
    FirstKeptIsFirst(merged.Keys, all, q.limit);
    SamePairs(merged, visible, first);
  }

  /** The layer's scan gets to `k`: fewer than `limit` keys, live or deleted, stand before it in the layer's range. */
  ghost predicate Reaches(m: Table, q: RangeQuery, k: Key)
  {
    Live(m, k) && InRange(k, q) && |Below(KeysInRange(m.Keys, q), k)| < q.limit
  }

  /** The entry of the newest layer whose scan gets to `k`. */
  ghost function Contribution(layers: seq<Table>, q: RangeQuery, k: Key): Result<Entry, Status>
  {
    if layers == [] then Err(NotFound)
    else if Reaches(layers[0], q, k) then Ok(layers[0][k])
    else Contribution(layers[1..], q, k)
  }

  lemma ReachedIsCollected(m: Table, q: RangeQuery, k: Key)
    requires Forward(m, q)
    ensures k in Collected(m, q) <==> Reaches(m, q, k)
    ensures k in Collected(m, q) ==> Collected(m, q)[k] == m[k]
  {
    hide InRange, SortedKeys, Filter, Visited, Forward;
    ForwardVisits(m, q);
    FilterMembers(m, Visited(m, q));
    CollectedKey(m, q, k);
    if k in KeysInRange(m.Keys, q) { FirstByRank(KeysInRange(m.Keys, q), k, q.limit); }
  }

  lemma {:induction false} MergeIsContribution(layers: seq<Table>, q: RangeQuery, k: Key)
    requires AllForward(layers, q)
    ensures k in Merge(layers, q) <==> Contribution(layers, q, k).Ok?
    ensures k in Merge(layers, q) ==> Contribution(layers, q, k) == Ok(Merge(layers, q)[k])
    decreases layers
  {
    hide Collected, Reaches, Forward;
    if layers != [] {
      ReachedIsCollected(layers[0], q, k);
      MergeIsContribution(layers[1..], q, k);
    }
  }

  lemma PairsEqual(a: Table, b: Table, s: seq<Key>, t: seq<Key>)
    requires forall k :: k in s ==> k in a
    requires forall k :: k in t ==> k in b
    ensures Pairs(a, s) == Pairs(b, t) <==> s == t && forall k :: k in s ==> a[k] == b[k]
  {
    if Pairs(a, s) == Pairs(b, t) {
      assert |s| == |Pairs(a, s)| && |t| == |Pairs(b, t)|;
      forall i | 0 <= i < |s|
        ensures s[i] == t[i] && a[s[i]] == b[s[i]]
      {
        assert Pairs(a, s)[i] == Pairs(b, t)[i];
      }
      assert s == t;
    }
  }

  /**
   * Exactly when the scan is right: for each of the first `limit` keys that `get` can see in the range, the newest
   * layer that gets to the key within its own limit must hold the entry that `get` returns.
   */
  lemma {:induction false} RangeScanExactIff(layers: seq<Table>, q: RangeQuery)
    requires AllForward(layers, q)
    ensures var all := KeysInRange(Visible(layers).Keys, q);
      ScanLayers(layers, q) == FirstEntries(Visible(layers), all, q.limit) <==>
        forall k :: k in Take(SortedKeys(all), q.limit) ==> Contribution(layers, q, k) == Lookup(layers, k)
  {
    hide InRange, SortedKeys, Merge, Visible, Contribution, Pairs, Lookup, Forward;
    var merged, visible := Merge(layers, q), Visible(layers);
    var all := KeysInRange(visible.Keys, q);
    var first, found := Take(SortedKeys(all), q.limit), Take(SortedKeys(merged.Keys), q.limit);
    forall k
      ensures k in merged ==> k in all
      ensures k in first ==> k in visible
      ensures k in found ==> k in merged
      ensures k in first ==>
        (Contribution(layers, q, k) == Lookup(layers, k) <==> k in merged && merged[k] == visible[k])
    {
      MergeIsContribution(layers, q, k);
      VisibleIsLookup(layers, k);
      if k in merged { MergedIsVisible(layers, q, k); }
      if k in first { TakeIsSubset(all, q.limit, k); }
      if k in found { TakeIsSubset(merged.Keys, q.limit, k); }
    }
    PairsEqual(merged, visible, found, first);
    if forall k :: k in first ==> k in merged { FirstKeptIsFirst(merged.Keys, all, q.limit); }
  }

  lemma SamePairs(a: Table, b: Table, keys: seq<Key>)
    requires forall k :: k in keys ==> k in a && k in b && a[k] == b[k]
    ensures Pairs(a, keys) == Pairs(b, keys)
  {
  }

  /** Each entry it then returns is the one `get` returns for its key. */
  lemma {:induction false} RangeScanAgreesWithGet(layers: seq<Table>, q: RangeQuery, i: nat)
    requires AllForward(layers, q)
    requires forall j :: 0 <= j < |layers| ==> LimitSuffices(layers[j], q)
    requires i < |ScanLayers(layers, q)|
    ensures Lookup(layers, ScanLayers(layers, q)[i].0) == Ok(ScanLayers(layers, q)[i].1)
    ensures InRange(ScanLayers(layers, q)[i].0, q)
  {
    hide InRange, SortedKeys, Visible, LimitSuffices, ScanLayers, Lookup, AllForward;
    RangeScanIsFirstVisible(layers, q);
    var visible := Visible(layers);
    var all := KeysInRange(visible.Keys, q);
    var k := ScanLayers(layers, q)[i].0;
    assert k == Take(SortedKeys(all), q.limit)[i];
    TakeIsSubset(all, q.limit, k);
    VisibleIsLookup(layers, k);
  }

  /** Layers without tombstones always meet their limit. */
  lemma {:induction false} NoTombstonesSuffices(m: Table, q: RangeQuery)
    requires forall k :: k in m ==> !m[k].deleted
    ensures LimitSuffices(m, q)
  {
    hide InRange, SortedKeys;
    forall k | k in Take(SortedKeys(KeysInRange(m.Keys, q)), q.limit)
      ensures Live(m, k)
    {
      TakeIsSubset(KeysInRange(m.Keys, q), q.limit, k);
    }
  }

  /** In a run that takes no key away the scan is the first `limit` entries in range of the plain map. */
  lemma ScanWithoutDeletes(ops: seq<Op>, q: RangeQuery)
    requires forall op, k :: op in ops ==> !Deletes(op, k)
    requires AllForward(Stack(Run(EMPTY, ops)), q)
    ensures ScanLayers(Stack(Run(EMPTY, ops)), q)
         == FirstEntries(Plain(ops), KeysInRange(Plain(ops).Keys, q), q.limit)
  {
    hide InRange, Stack, Run, Plain, Deletes, ScanLayers, Visible, LimitSuffices, Lookup, Forward;
    var layers := Stack(Run(EMPTY, ops));
    forall i | 0 <= i < |layers|
      ensures LimitSuffices(layers[i], q)
    {
      forall k | k in layers[i]
        ensures !layers[i][k].deleted
      {
        NeverDeletedHasNoTombstone(ops, k);
      }
      NoTombstonesSuffices(layers[i], q);
    }
    forall k
      ensures k in Visible(layers) <==> k in Plain(ops)
      ensures k in Visible(layers) ==> Visible(layers)[k] == Plain(ops)[k]
    {
      VisibleIsLookup(layers, k);
      NeverDeletedReadsLastPut(ops, k);
    }
    assert Visible(layers) == Plain(ops);
    RangeScanIsFirstVisible(layers, q);
  }

  // ---------------------------------------------------------------------------
  // A stale scan.

  /**
   * With a tombstone using up the limit the scan can return a stale entry: after put b, flush, put b again and remove
   * a, the newer layer spends its limit of one on the tombstone of `a`, and the older layer's value of `b` is returned
   * although `get` answers with the newer one.
   */
  lemma StaleRangeScan(a: Key, b: Key, recent: Entry, stale: Entry, now: i64)
    requires Less(a, b) && !recent.deleted && !stale.deleted && recent != stale
    requires Accepts(b, recent) && Accepts(b, stale)
    ensures var layers := Stack(Run(EMPTY, [PutOp(b, stale), FlushOp(true, true), PutOp(b, recent), RemoveOp(a, now)]));
      && ScanLayers(layers, RangeQuery(a, b, 1, true, true)) == [(b, stale)]
      && Lookup(layers, b) == Ok(recent)
  {
    hide Less, ScanLayers, Run, Stack, Accepts;
    LessIsTotalOrder(a, b);
    var upper, lower := map[a := Tombstone(now), b := recent], map[b := stale];
    StaleRun(a, b, recent, stale, now);
    StaleMerge(a, b, upper, stale);
    assert Live(upper, b);
  }

  lemma StaleRun(a: Key, b: Key, recent: Entry, stale: Entry, now: i64)
    requires a != b && Accepts(b, recent) && Accepts(b, stale)
    ensures Stack(Run(EMPTY, [PutOp(b, stale), FlushOp(true, true), PutOp(b, recent), RemoveOp(a, now)]))
         == [map[a := Tombstone(now), b := recent], map[b := stale]]
  {
    hide Run, Accepts;
    var ops := [PutOp(b, stale), FlushOp(true, true), PutOp(b, recent), RemoveOp(a, now)];
    RunOfNothing(EMPTY);
    assert ops[..0] == [] && ops[..4] == ops;
    RunStep(EMPTY, ops, 0);
    RunStep(EMPTY, ops, 1);
    RunStep(EMPTY, ops, 2);
    RunStep(EMPTY, ops, 3);
    var lower := map[b := stale];
    assert b in lower.Keys;
    assert Run(EMPTY, ops[..1]) == Store(lower, None, []);
    assert Run(EMPTY, ops[..2]) == Store(map[], None, [lower]);
    assert Run(EMPTY, ops[..3]) == Store(map[b := recent], None, [lower]);
    assert Run(EMPTY, ops[..4]) == Store(map[a := Tombstone(now), b := recent], None, [lower]);
    assert Reversed([lower]) == [lower] by { assert [lower][..0] == []; }
  }

  lemma StaleMerge(a: Key, b: Key, upper: Table, stale: Entry)
    requires Less(a, b) && a != b && upper.Keys == {a, b} && upper[a].deleted && !stale.deleted
    ensures ScanLayers([upper, map[b := stale]], RangeQuery(a, b, 1, true, true)) == [(b, stale)]
  {
    hide Less, SortedKeys, Pairs, Collected;
    var q, lower := RangeQuery(a, b, 1, true, true), map[b := stale];
    DeadUsesLimit(a, b, upper);
    OneCollected(a, b, stale);
    assert [upper, lower][1..] == [lower] && [lower][1..] == [];
    assert Merge([lower], q) == map[] + lower;
    assert Merge([upper, lower], q) == lower;
    SortedSingle(b);
    SinglePair(b, stale);
  }

  lemma DeadUsesLimit(a: Key, b: Key, upper: Table)
    requires Less(a, b) && a != b && upper.Keys == {a, b} && upper[a].deleted
    ensures Collected(upper, RangeQuery(a, b, 1, true, true)) == map[]
  {
    hide Less, SortedKeys, Visited, Forward;
    var q := RangeQuery(a, b, 1, true, true);
    LessIsTotalOrder(a, b);
    LessIsTotalOrder(b, b);
    assert KeysInRange(upper.Keys, q) == {a, b};
    SortedPair(a, b);
    ForwardIff(upper, q);
    ForwardVisits(upper, q);
    assert Visited(upper, q) == [a];
    FilterMembers(upper, [a]);
  }

  lemma OneCollected(a: Key, b: Key, e: Entry)
    requires Less(a, b) && a != b && !e.deleted
    ensures Collected(map[b := e], RangeQuery(a, b, 1, true, true)) == map[b := e]
  {
    hide Less, SortedKeys, Visited, Forward;
    var q, m := RangeQuery(a, b, 1, true, true), map[b := e];
    LessIsTotalOrder(a, b);
    LessIsTotalOrder(b, b);
    assert KeysInRange(m.Keys, q) == {b};
    SortedSingle(b);
    ForwardIff(m, q);
    ForwardVisits(m, q);
    assert Visited(m, q) == [b];
    FilterMembers(m, [b]);
  }

  lemma SinglePair(b: Key, e: Entry)
    ensures Pairs(map[b := e], [b]) == [(b, e)]
  {
  }
}
