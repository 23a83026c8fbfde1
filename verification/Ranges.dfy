/** Range scans over one ordered layer: what both `MemTable::range_scan` and `SSTable::range_scan` return. */
module Ranges {
  import opened Collections
  import opened Keys

  type Table = map<Key, Entry>

  /** The range both scans walk: `upper_bound` is used for the end whatever `inclusive_end` says. */
  predicate InRange(k: Key, q: RangeQuery)
  {
    && (Less(q.start, k) || (k == q.start && q.inclusiveStart))
    && !Less(q.end, k)
  }

  function KeysInRange(s: set<Key>, q: RangeQuery): set<Key>
  {
    set k | k in s && InRange(k, q)
  }

  predicate Live(m: Table, k: Key)
  {
    k in m && !m[k].deleted
  }

  function LiveKeys(m: Table): set<Key>
  {
    set k | k in m && !m[k].deleted
  }

  function Filter(m: Table, keys: seq<Key>): seq<Key>
  {
    if keys == [] then [] else (if Live(m, keys[0]) then [keys[0]] else []) + Filter(m, keys[1..])
  }

  function Pairs(m: Table, keys: seq<Key>): (s: seq<(Key, Entry)>)
    requires forall k :: k in keys ==> k in m
    ensures |s| == |keys|
    ensures forall i :: 0 <= i < |s| ==> s[i] == (keys[i], m[keys[i]])
  {
    if keys == [] then [] else [(keys[0], m[keys[0]])] + Pairs(m, keys[1..])
  }

  /** The keys a layer's scan visits, tombstones included: from the start on, up to the end or the limit. */
  function Visited(m: Table, q: RangeQuery): seq<Key>
  {
    var keys := SortedKeys(m.Keys);
    Take(keys[StartIndex(keys, q)..if Forward(m, q) then UpperBound(keys, q.end) else |keys|], q.limit)
  }

  /** The start is not behind the end; otherwise the loop never meets the end. */
  predicate Forward(m: Table, q: RangeQuery)
  {
    StartIndex(SortedKeys(m.Keys), q) <= UpperBound(SortedKeys(m.Keys), q.end)
  }

  /** The loop stops before it runs off the layer. */
  predicate WalkEnds(m: Table, q: RangeQuery)
  {
    Forward(m, q) || StartIndex(SortedKeys(m.Keys), q) + q.limit <= |m|
  }

  lemma FilterMembers(m: Table, keys: seq<Key>)
    ensures forall k :: k in Filter(m, keys) <==> k in keys && Live(m, k)
  {
  }

  /** What a layer's scan returns: the live ones among the keys it visits. */
  function Scan(m: Table, q: RangeQuery): seq<(Key, Entry)>
  {
    FilterMembers(m, Visited(m, q));
    Pairs(m, Filter(m, Visited(m, q)))
  }

  /** What a limited scan is for: the first `limit` live entries in range. */
  function FirstLive(m: Table, q: RangeQuery): seq<(Key, Entry)>
  {
    var keys := Take(SortedKeys(KeysInRange(LiveKeys(m), q)), q.limit);
    assert forall k :: k in keys ==> k in Elements(SortedKeys(KeysInRange(LiveKeys(m), q)));
    Pairs(m, keys)
  }

  /** No tombstone uses up the limit, or nothing live lies beyond it. */
  predicate LimitSuffices(m: Table, q: RangeQuery)
  {
    var all := SortedKeys(KeysInRange(m.Keys, q));
    || (forall k :: k in Take(all, q.limit) ==> Live(m, k))
    || (forall k :: k in all && k !in Take(all, q.limit) ==> !Live(m, k))
  }

  lemma {:induction false} FilterConcat(m: Table, a: seq<Key>, b: seq<Key>)
    ensures Filter(m, a + b) == Filter(m, a) + Filter(m, b)
  {
    hide Filter, Live;
    if a == [] {
      assert a + b == b;
      FilterNothing(m);
      assert [] + Filter(m, b) == Filter(m, b);
    } else {
      var rest := a[1..];
      FilterConcat(m, rest, b);
      FilterCons(m, a);
      FilterCons(m, a + b);
      assert (a + b)[0] == a[0] && (a + b)[1..] == rest + b;
      Associate(if Live(m, a[0]) then [a[0]] else [], Filter(m, rest), Filter(m, b));
    }
  }

  lemma FilterNothing(m: Table)
    ensures Filter(m, []) == []
  {
  }

  lemma FilterCons(m: Table, keys: seq<Key>)
    requires keys != []
    ensures Filter(m, keys) == (if Live(m, keys[0]) then [keys[0]] else []) + Filter(m, keys[1..])
  {
    hide Live;
  }

  lemma {:induction false} FilterLength(m: Table, keys: seq<Key>)
    ensures |Filter(m, keys)| <= |keys|
    ensures |Filter(m, keys)| == |keys| <==> forall k :: k in keys ==> Live(m, k)
    ensures Filter(m, keys) == [] <==> forall k :: k in keys ==> !Live(m, k)
  {
    if keys != [] {
      FilterLength(m, keys[1..]);
      assert forall k :: k in keys <==> k == keys[0] || k in keys[1..];
    }
  }

  lemma FilterTake(m: Table, keys: seq<Key>, n: nat)
    ensures Filter(m, Take(keys, n)) == Take(Filter(m, keys), n)
      <==> (forall k :: k in Take(keys, n) ==> Live(m, k)) || (forall k :: k in keys[|Take(keys, n)|..] ==> !Live(m, k))
  {
    hide Filter, Live;
    var t := Take(keys, n);
    var rest := keys[|t|..];
    assert keys == t + rest;
    FilterConcat(m, t, rest);
    FilterLength(m, t);
    FilterLength(m, rest);
    FilterLength(m, keys);
  }

  /** In the forward case the visited keys are the first `limit` of the range. */
  lemma ForwardVisits(m: Table, q: RangeQuery)
    requires Forward(m, q)
    ensures Visited(m, q) == Take(SortedKeys(KeysInRange(m.Keys, q)), q.limit)
  {
    hide SortedKeys, StartIndex, UpperBound, KeysInRange;
    SliceIsRange(m.Keys, q);
  }

  /** A backward walk visits `limit` keys, all past the end of the range. */
  lemma BackwardVisits(m: Table, q: RangeQuery)
    requires WalkEnds(m, q) && !Forward(m, q)
    ensures |Visited(m, q)| == q.limit
    ensures forall k :: k in Visited(m, q) ==> k in m && Less(q.end, k)
  {
    hide SortedKeys, StartIndex, UpperBound, Less;
    var keys := SortedKeys(m.Keys);
    var lo := StartIndex(keys, q);
    forall k | k in Visited(m, q)
      ensures k in m && Less(q.end, k)
    {
      var i :| 0 <= i < |Visited(m, q)| && Visited(m, q)[i] == k;
      assert k == keys[lo + i];
      assert k in Elements(keys);
      BeforeEnd(keys, q, lo + i);
    }
  }

  /**
   * A scan is forward when start is not after end, and with start after end exactly when no key lies strictly between
   * them and the start is not itself a key that an exclusive start steps over.
   */
  lemma ForwardIff(m: Table, q: RangeQuery)
    ensures Forward(m, q) <==>
      || !Less(q.end, q.start)
      || ((forall k :: k in m ==> !(Less(q.end, k) && Less(k, q.start))) && (q.start in m ==> q.inclusiveStart))
  {
    hide SortedKeys, StartIndex, UpperBound, Less;
    var keys := SortedKeys(m.Keys);
    var lo, hi := StartIndex(keys, q), UpperBound(keys, q.end);
    if !Less(q.end, q.start) {
      StartBeforeEnd(keys, q);
    } else {
      forall k | k in m
        ensures lo <= hi ==> !(Less(q.end, k) && Less(k, q.start)) && (k == q.start ==> q.inclusiveStart)
      {
        assert k in Elements(keys);
        var i :| 0 <= i < |keys| && keys[i] == k;
        BeforeStart(keys, q, i);
        BeforeEnd(keys, q, i);
        LessIsTotalOrder(k, q.start);
      }
      if hi < lo {
        var k := keys[hi];
        assert k in Elements(keys);
        BeforeStart(keys, q, hi);
        BeforeEnd(keys, q, hi);
        LessIsTotalOrder(k, q.start);
      }
    }
  }

  lemma {:induction false} FilterSorted(m: Table, keys: seq<Key>)
    requires Sorted(keys)
    ensures Sorted(Filter(m, keys))
  {
    if keys != [] {
      FilterSorted(m, keys[1..]);
      FilterMembers(m, keys[1..]);
      var rest := Filter(m, keys[1..]);
      forall i | 0 <= i < |rest|
        ensures Less(keys[0], rest[i])
      {
        assert rest[i] in keys[1..];
      }
    }
  }

  lemma FilteredRange(m: Table, q: RangeQuery)
    ensures Filter(m, SortedKeys(KeysInRange(m.Keys, q))) == SortedKeys(KeysInRange(LiveKeys(m), q))
  {
    hide Less, SortedKeys, Filter;
    var all := SortedKeys(KeysInRange(m.Keys, q));
    var live := SortedKeys(KeysInRange(LiveKeys(m), q));
    FilterSorted(m, all);
    FilterMembers(m, all);
    forall k
      ensures k in Elements(Filter(m, all)) <==> k in Elements(live)
    {
      assert k in all <==> k in Elements(all);
    }
    SortedUnique(Filter(m, all), live);
  }

  lemma PairsInjective(m: Table, a: seq<Key>, b: seq<Key>)
    requires forall k :: k in a ==> k in m
    requires forall k :: k in b ==> k in m
    ensures Pairs(m, a) == Pairs(m, b) <==> a == b
  {
    if Pairs(m, a) == Pairs(m, b) {
      forall i | 0 <= i < |a|
        ensures a[i] == b[i]
      {
        assert Pairs(m, a)[i] == Pairs(m, b)[i];
      }
      assert a == b;
    }
  }

  lemma SuffixMembers(keys: seq<Key>, n: nat, k: Key)
    requires Sorted(keys)
    ensures k in keys[|Take(keys, n)|..] <==> k in keys && k !in Take(keys, n)
  {
    hide Less;
    var t := Take(keys, n);
    if k in keys[|t|..] {
      var i :| |t| <= i < |keys| && keys[i] == k;
      forall j | 0 <= j < |t|
        ensures t[j] != k
      {
        LessIsTotalOrder(keys[j], keys[i]);
      }
    }
  }

  /**
   * A layer's scan returns the first `limit` live entries of its range exactly when no tombstone used up the limit or
   * nothing live is left beyond it: the scan counts the tombstones it skips.
   */
  lemma ScanIsFirstLive(m: Table, q: RangeQuery)
    requires Forward(m, q)
    ensures Scan(m, q) == FirstLive(m, q) <==> LimitSuffices(m, q)
  {
    hide Less, SortedKeys, Filter, Pairs, InRange, Visited;
    ForwardVisits(m, q);
    var all := SortedKeys(KeysInRange(m.Keys, q));
    var live := SortedKeys(KeysInRange(LiveKeys(m), q));
    var t := Take(all, q.limit);
    FilteredRange(m, q);
    FilterTake(m, all, q.limit);
    FilterMembers(m, t);
    forall k
      ensures k in all[|t|..] <==> k in all && k !in t
    {
      SuffixMembers(all, q.limit, k);
    }
    assert forall k :: k in Take(live, q.limit) ==> k in Elements(live);
    PairsInjective(m, Filter(m, t), Take(live, q.limit));
  }

  /** From the start, if that is included, to the end, which always is. */
  predicate Between(k: Key, q: RangeQuery)
  {
    && (Less(q.start, k) || (k == q.start && q.inclusiveStart))
    && (Less(k, q.end) || k == q.end)
  }

  /**
   * What a forward scan returns, entry by entry: the live entries of the range with fewer than `limit` keys of the
   * range, tombstones included, before them; each with what the layer holds, and in ascending order.
   */
  lemma ScanReturnsIff(m: Table, q: RangeQuery, k: Key, e: Entry)
    requires Forward(m, q)
    ensures (k, e) in Scan(m, q) <==>
      && k in m && e == m[k] && !e.deleted && Between(k, q)
      && |set x | x in m && Between(x, q) && Less(x, k)| < q.limit
    ensures forall i, j :: 0 <= i < j < |Scan(m, q)| ==> Less(Scan(m, q)[i].0, Scan(m, q)[j].0)
  {
    hide Less, SortedKeys, Filter, Visited, Forward;
    ForwardVisits(m, q);
    FilterMembers(m, Visited(m, q));
    var range := KeysInRange(m.Keys, q);
    TakeSorted(range, q.limit);
    FilterSorted(m, Visited(m, q));
    var kept := Filter(m, Visited(m, q));
    if k in kept { TakeIsSubset(range, q.limit, k); }
    forall x
      ensures InRange(x, q) <==> Between(x, q)
    {
      LessIsTotalOrder(x, q.end);
    }
    if k in range {
      FirstByRank(range, k, q.limit);
      assert Below(range, k) == set x | x in m && Between(x, q) && Less(x, k);
    }
    InPairs(m, kept, k, e);
  }

  lemma InPairs(m: Table, keys: seq<Key>, k: Key, e: Entry)
    requires forall x :: x in keys ==> x in m
    ensures (k, e) in Pairs(m, keys) <==> k in keys && e == m[k]
  {
    if k in keys {
      var i :| 0 <= i < |keys| && keys[i] == k;
      assert Pairs(m, keys)[i] == (k, m[k]);
    }
  }

  // ---------------------------------------------------------------------------
  // Bounds: the range as a slice of the ordered keys.

  /** `lower_bound`: how many leading keys are less than `k`. */
  function LowerBound(keys: seq<Key>, k: Key): (i: nat)
    ensures i <= |keys|
    ensures forall j :: 0 <= j < i ==> Less(keys[j], k)
    ensures i < |keys| ==> !Less(keys[i], k)
  {
    if keys == [] || !Less(keys[0], k) then 0 else 1 + LowerBound(keys[1..], k)
  }

  /** `upper_bound`: how many leading keys are not greater than `k`. */
  function UpperBound(keys: seq<Key>, k: Key): (i: nat)
    ensures i <= |keys|
    ensures forall j :: 0 <= j < i ==> !Less(k, keys[j])
    ensures i < |keys| ==> Less(k, keys[i])
  {
    if keys == [] || Less(k, keys[0]) then 0 else 1 + UpperBound(keys[1..], k)
  }

  /** Where a scan starts: past `start_key` itself when the start is exclusive. */
  function StartIndex(keys: seq<Key>, q: RangeQuery): (i: nat)
    ensures i <= |keys|
  {
    var lo := LowerBound(keys, q.start);
    if !q.inclusiveStart && lo < |keys| && keys[lo] == q.start then lo + 1 else lo
  }

  lemma BeforeStart(keys: seq<Key>, q: RangeQuery, i: nat)
    requires Sorted(keys) && i < |keys|
    ensures i < StartIndex(keys, q) <==> !(Less(q.start, keys[i]) || (keys[i] == q.start && q.inclusiveStart))
  {
    hide Less;
    var lo := LowerBound(keys, q.start);
    LessIsTotalOrder(keys[i], q.start);
    if lo < i {
      LessIsTotalOrder(keys[lo], q.start);
      if Less(q.start, keys[lo]) { LessTransitive(q.start, keys[lo], keys[i]); }
    }
  }

  lemma BeforeEnd(keys: seq<Key>, q: RangeQuery, i: nat)
    requires Sorted(keys) && i < |keys|
    ensures i < UpperBound(keys, q.end) <==> !Less(q.end, keys[i])
  {
    hide Less, UpperBound;
    var hi := UpperBound(keys, q.end);
    if hi < i { LessTransitive(q.end, keys[hi], keys[i]); }
  }

  lemma StartBeforeEnd(keys: seq<Key>, q: RangeQuery)
    requires Sorted(keys) && !Less(q.end, q.start)
    ensures StartIndex(keys, q) <= UpperBound(keys, q.end)
  {
    hide Less, StartIndex;
    var s := StartIndex(keys, q);
    if s > 0 {
      var k := keys[s - 1];
      BeforeStart(keys, q, s - 1);
      BeforeEnd(keys, q, s - 1);
      LessIsTotalOrder(k, q.start);
      LessIsTotalOrder(q.end, q.start);
      LessIsTotalOrder(q.end, k);
      if Less(q.end, k) && Less(k, q.start) { LessTransitive(q.end, k, q.start); }
    }
  }

  /** With the start not behind the end, the slice between the two bounds is the range. */
  lemma {:induction false} SliceIsRange(s: set<Key>, q: RangeQuery)
    requires StartIndex(SortedKeys(s), q) <= UpperBound(SortedKeys(s), q.end)
    ensures var keys := SortedKeys(s);
      keys[StartIndex(keys, q)..UpperBound(keys, q.end)] == SortedKeys(KeysInRange(s, q))
  {
    hide Less, SortedKeys, StartIndex, UpperBound;
    var keys := SortedKeys(s);
    var lo, hi := StartIndex(keys, q), UpperBound(keys, q.end);
    var slice := keys[lo..hi];
    forall k
      ensures k in Elements(slice) <==> k in KeysInRange(s, q)
    {
      SliceMember(s, q, k);
    }
    assert Sorted(slice);
    SortedUnique(slice, SortedKeys(KeysInRange(s, q)));
  }

  lemma SliceMember(s: set<Key>, q: RangeQuery, k: Key)
    requires StartIndex(SortedKeys(s), q) <= UpperBound(SortedKeys(s), q.end)
    ensures var keys := SortedKeys(s);
      k in keys[StartIndex(keys, q)..UpperBound(keys, q.end)] <==> k in KeysInRange(s, q)
  {
    hide Less, SortedKeys, StartIndex, UpperBound;
    var keys := SortedKeys(s);
    var lo, hi := StartIndex(keys, q), UpperBound(keys, q.end);
    if k in keys[lo..hi] {
      var i :| lo <= i < hi && keys[i] == k;
      assert k in Elements(keys);
      BeforeStart(keys, q, i);
      BeforeEnd(keys, q, i);
    }
    if k in KeysInRange(s, q) {
      assert k in Elements(keys);
      var i :| 0 <= i < |keys| && keys[i] == k;
      BeforeStart(keys, q, i);
      BeforeEnd(keys, q, i);
      assert keys[lo..hi][i - lo] == k;
    }
  }
}
