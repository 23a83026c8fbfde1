/** Keys, entries and range queries of include/cache/common/types.h, and ordered sets of keys. */
module Keys {
  import opened Bytes
  import opened Collections

  const COLON: byte := 0x3A
  const MAX_KEY_SIZE: nat := 256
  const MAX_VALUE_SIZE: nat := 4 * 1024

  /** `timestamp` counts milliseconds. */
  datatype Entry = Entry(value: Str, version: u64, timestamp: i64, deleted: bool)

  datatype RangeQuery = RangeQuery(start: Key, end: Key, limit: nat, inclusiveStart: bool, inclusiveEnd: bool)

  datatype Key = Key(primary: Str, secondary: Str) {
    function ToString(): Str
    {
      primary + [COLON] + secondary
    }
  }

  /** How `load_index` splits a stored key again: at the first colon. */
  function ParseKey(s: Str): Key
  {
    var i := IndexOf(s, COLON);
    if i < |s| then Key(s[..i], s[i + 1..]) else Key(s, [])
  }

  predicate ColonFree(k: Key)
  {
    COLON !in k.primary
  }

  /** A stored key is read back as itself exactly when its primary part has no colon. */
  lemma ParseKeyRoundTrip(k: Key)
    ensures ParseKey(k.ToString()) == k <==> ColonFree(k)
    ensures ColonFree(ParseKey(k.ToString()))
  {
    var s := k.ToString();
    if ColonFree(k) {
      IndexOfFirst(k.primary, COLON, k.secondary);
    } else {
      assert s[|k.primary|] == COLON;
    }
  }

  predicate Less(a: Key, b: Key)
  {
    if a.primary != b.primary then LexLess(a.primary, b.primary) else LexLess(a.secondary, b.secondary)
  }

  /** By the primary part as strings of numbers below 256, then by the secondary part. */
  lemma LessIff(a: Key, b: Key)
    ensures Less(a, b) <==>
      || ProperPrefix(a.primary, b.primary)
      || SmallerAtFirstDifference(a.primary, b.primary)
      || (a.primary == b.primary &&
          (ProperPrefix(a.secondary, b.secondary) || SmallerAtFirstDifference(a.secondary, b.secondary)))
  {
    hide ProperPrefix, SmallerAtFirstDifference, LexLess;
    LexLessIff(a.primary, b.primary);
    LexLessIff(a.secondary, b.secondary);
    LexTrichotomy(a.primary, b.primary);
  }

  /** `operator<` is a strict total order that agrees with `operator==`. */
  lemma LessIsTotalOrder(a: Key, b: Key)
    ensures Less(a, b) || a == b || Less(b, a)
    ensures !(Less(a, b) && Less(b, a))
    ensures !Less(a, a)
  {
    LexTrichotomy(a.primary, b.primary);
    LexTrichotomy(a.secondary, b.secondary);
    LexTrichotomy(a.secondary, a.secondary);
  }

  lemma LessTransitive(a: Key, b: Key, c: Key)
    requires Less(a, b) && Less(b, c)
    ensures Less(a, c)
  {
    LexTrichotomy(a.primary, b.primary);
    if a.primary != b.primary && b.primary != c.primary {
      LexTransitive(a.primary, b.primary, c.primary);
    } else if a.primary == b.primary == c.primary {
      LexTransitive(a.secondary, b.secondary, c.secondary);
    }
  }

  // ---------------------------------------------------------------------------
  // Ordered sets: the iteration order of `std::map`.

  predicate IsLeast(k: Key, s: set<Key>)
  {
    k in s && forall x :: x in s && x != k ==> Less(k, x)
  }

  lemma LeastExists(s: set<Key>)
    requires s != {}
    ensures exists k :: IsLeast(k, s)
  {
    var x :| x in s;
    var rest := s - {x};
    if rest == {} {
      assert s == {x};
      assert IsLeast(x, s);
    } else {
      LeastExists(rest);
      var y :| IsLeast(y, rest);
      LessIsTotalOrder(x, y);
      if Less(x, y) {
        forall z | z in s && z != x
          ensures Less(x, z)
        {
          if z != y { LessTransitive(x, y, z); }
        }
        assert IsLeast(x, s);
      } else {
        assert IsLeast(y, s);
      }
    }
  }

  lemma LeastUnique(a: Key, b: Key, s: set<Key>)
    requires IsLeast(a, s) && IsLeast(b, s)
    ensures a == b
  {
    LessIsTotalOrder(a, b);
  }

  function Least(s: set<Key>): (k: Key)
    requires s != {}
    ensures IsLeast(k, s)
  {
    LeastExists(s);
    assert forall a, b | IsLeast(a, s) && IsLeast(b, s) :: a == b by {
      forall a, b | IsLeast(a, s) && IsLeast(b, s) ensures a == b { LeastUnique(a, b, s); }
    }
    var k :| IsLeast(k, s);
    k
  }

  ghost predicate Sorted(keys: seq<Key>)
  {
    forall i, j :: 0 <= i < j < |keys| ==> Less(keys[i], keys[j])
  }

  lemma ConsSorted(k: Key, rest: seq<Key>, s: set<Key>)
    requires IsLeast(k, s) && Sorted(rest) && Elements(rest) == s - {k}
    ensures Sorted([k] + rest) && Elements([k] + rest) == s
  {
    forall x
      ensures x in Elements([k] + rest) <==> x in s
    {
      assert x in [k] + rest <==> x == k || x in rest;
      assert x in rest <==> x in Elements(rest);
    }
    forall i | 0 <= i < |rest|
      ensures Less(k, rest[i])
    {
      assert rest[i] in Elements(rest);
    }
  }

  /** The keys of a `std::map` in the order it is walked. */
  function SortedKeys(s: set<Key>): (keys: seq<Key>)
    ensures Sorted(keys)
    ensures Elements(keys) == s
    ensures |keys| == |s|
    decreases s
  {
    if s == {} then [] else
      var k := Least(s);
      var rest := SortedKeys(s - {k});
      ConsSorted(k, rest, s);
      [k] + rest
  }

  lemma SortedHeadIsLeast(a: seq<Key>)
    requires Sorted(a) && a != []
    ensures IsLeast(a[0], Elements(a))
  {
    forall x | x in Elements(a) && x != a[0]
      ensures Less(a[0], x)
    {
      var i :| 0 <= i < |a| && a[i] == x;
    }
  }

  lemma SortedTailSet(a: seq<Key>)
    requires Sorted(a) && a != []
    ensures Elements(a[1..]) == Elements(a) - {a[0]}
    ensures Sorted(a[1..])
  {
    forall x
      ensures x in Elements(a[1..]) <==> x in Elements(a) - {a[0]}
    {
      SortedTail(a, x);
    }
  }

  lemma EmptySetOf<T>(s: seq<T>)
    ensures Elements(s) == {} <==> s == []
  {
    if s != [] { assert s[0] in Elements(s); }
  }

  lemma {:induction false} SortedUnique(a: seq<Key>, b: seq<Key>)
    requires Sorted(a) && Sorted(b) && Elements(a) == Elements(b)
    ensures a == b
  {
    EmptySetOf(a);
    EmptySetOf(b);
    if a != [] && b != [] {
      SortedHeadIsLeast(a);
      SortedHeadIsLeast(b);
      LeastUnique(a[0], b[0], Elements(a));
      SortedTailSet(a);
      SortedTailSet(b);
      SortedUnique(a[1..], b[1..]);
      assert a == [a[0]] + a[1..] && b == [b[0]] + b[1..];
    }
  }

  lemma SortedTail(a: seq<Key>, x: Key)
    requires Sorted(a) && a != []
    ensures x in a[1..] <==> x in Elements(a) && x != a[0]
  {
    if x in a[1..] {
      var i :| 0 < i < |a| && a[i] == x;
      LessIsTotalOrder(a[0], x);
    }
  }

  // ---------------------------------------------------------------------------
  // The first `n` keys of an ordered set, by rank.

  function Below(s: set<Key>, k: Key): set<Key>
  {
    set x | x in s && Less(x, k)
  }

  function Take<T>(s: seq<T>, n: nat): seq<T>
  {
    if n < |s| then s[..n] else s
  }

  lemma SmallerIsEarlier(keys: seq<Key>, i: nat, x: Key)
    requires Sorted(keys) && i < |keys|
    ensures x in keys[..i] <==> x in keys && Less(x, keys[i])
  {
    if x in keys && Less(x, keys[i]) {
      var j :| 0 <= j < |keys| && keys[j] == x;
      LessIsTotalOrder(x, keys[i]);
      assert keys[..i][j] == x;
    }
  }

  lemma BelowIsPrefix(s: set<Key>, i: nat)
    requires i < |s|
    ensures Below(s, SortedKeys(s)[i]) == Elements(SortedKeys(s)[..i])
    ensures |Below(s, SortedKeys(s)[i])| == i
  {
    var keys := SortedKeys(s);
    forall x
      ensures x in Below(s, keys[i]) <==> x in Elements(keys[..i])
    {
      SmallerIsEarlier(keys, i, x);
      assert x in keys <==> x in Elements(keys);
    }
    SortedPrefix(keys, i);
    SortedIsSetSize(keys[..i]);
  }

  lemma SortedPrefix(keys: seq<Key>, n: nat)
    requires Sorted(keys) && n <= |keys|
    ensures Sorted(keys[..n])
  {
  }

  lemma {:induction false} SortedIsSetSize(keys: seq<Key>)
    requires Sorted(keys)
    ensures |Elements(keys)| == |keys|
  {
    if keys != [] {
      SortedIsSetSize(keys[1..]);
      SortedTailSet(keys);
      assert keys[0] in Elements(keys);
    }
  }

  /** A key is among the first `n` of an ordered set iff fewer than `n` of its keys are smaller. */
  lemma FirstByRank(s: set<Key>, k: Key, n: nat)
    requires k in s
    ensures k in Take(SortedKeys(s), n) <==> |Below(s, k)| < n
  {
    hide SortedKeys, Below, Less;
    var keys := SortedKeys(s);
    assert k in Elements(keys);
    var i :| 0 <= i < |keys| && keys[i] == k;
    BelowIsPrefix(s, i);
    var t := Take(keys, n);
    if i < n {
      assert t[i] == k;
    } else if k in t {
      var j :| 0 <= j < |t| && t[j] == k;
      LessIsTotalOrder(k, k);
    }
  }

  /** Being among the first `n` survives the loss of other keys. */
  lemma FirstOfSubset(a: set<Key>, b: set<Key>, k: Key, n: nat)
    requires a <= b && k in a && k in Take(SortedKeys(b), n)
    ensures k in Take(SortedKeys(a), n)
  {
    FirstByRank(b, k, n);
    FirstByRank(a, k, n);
    SubsetSize(Below(a, k), Below(b, k));
  }

  lemma FirstOfKept(a: set<Key>, b: set<Key>, k: Key, n: nat)
    requires a <= b && Elements(Take(SortedKeys(b), n)) <= a
    requires k in a && |Below(a, k)| < n
    ensures |Below(b, k)| < n
  {
    if |Below(b, k)| >= n {
      SubsetSize(Below(b, k), b);
      FirstAllBelow(b, k, n);
      SubsetSize(Elements(Take(SortedKeys(b), n)), Below(a, k));
    }
  }

  lemma TakeIsSubset(s: set<Key>, n: nat, k: Key)
    requires k in Take(SortedKeys(s), n)
    ensures k in s
  {
    assert k in Elements(SortedKeys(s));
  }

  lemma TakeSorted(s: set<Key>, n: nat)
    ensures Sorted(Take(SortedKeys(s), n))
  {
  }

  /** A subset that keeps the first `n` keys has the same first `n` keys. */
  lemma {:induction false} FirstKeptIsFirst(a: set<Key>, b: set<Key>, n: nat)
    requires a <= b && Elements(Take(SortedKeys(b), n)) <= a
    ensures Take(SortedKeys(a), n) == Take(SortedKeys(b), n)
  {
    var x, y := Take(SortedKeys(a), n), Take(SortedKeys(b), n);
    forall k
      ensures k in Elements(x) <==> k in Elements(y)
    {
      if k in y {
        assert k in Elements(y);
        FirstOfSubset(a, b, k, n);
      }
      if k in x {
        TakeIsSubset(a, n, k);
        FirstByRank(a, k, n);
        FirstOfKept(a, b, k, n);
        FirstByRank(b, k, n);
      }
    }
    TakeSorted(a, n);
    TakeSorted(b, n);
    SortedUnique(x, y);
  }

  lemma FirstAllBelow(s: set<Key>, k: Key, n: nat)
    requires k in s && |Below(s, k)| >= n && |s| >= n
    ensures |Elements(Take(SortedKeys(s), n))| == n
    ensures Elements(Take(SortedKeys(s), n)) <= Below(s, k)
  {
    var keys := SortedKeys(s);
    assert k in Elements(keys);
    var i :| 0 <= i < |keys| && keys[i] == k;
    BelowIsPrefix(s, i);
    SortedPrefix(keys, n);
    SortedIsSetSize(keys[..n]);
    forall x | x in Elements(keys[..n])
      ensures x in Below(s, k)
    {
      var j :| 0 <= j < n && keys[j] == x;
      assert x in Elements(keys);
    }
  }

  lemma SortedPair(a: Key, b: Key)
    requires Less(a, b)
    ensures SortedKeys({a, b}) == [a, b]
  {
    hide Less, SortedKeys;
    assert Elements([a, b]) == {a, b};
    SortedUnique(SortedKeys({a, b}), [a, b]);
  }

  lemma SortedSingle(b: Key)
    ensures SortedKeys({b}) == [b]
  {
    hide Less, SortedKeys;
    assert Elements([b]) == {b};
    SortedUnique(SortedKeys({b}), [b]);
  }
}
