/** The median clock offset and the Berkeley vote on it (src/time/time_sync.cpp). */
module MedianOffset {
  import opened Bytes
  import opened Collections
  import opened Results
  import opened Partitions
  import opened Quorum

  /** Milliseconds; the sum of two offsets fits a signed 64-bit integer. */
  type ClockOffset = n: int | -0x4000_0000_0000_0000 <= n < 0x4000_0000_0000_0000

  predicate Ascending(s: seq<ClockOffset>)
  {
    forall i, j :: 0 <= i < j < |s| ==> s[i] <= s[j]
  }

  function Insert(x: ClockOffset, s: seq<ClockOffset>): (r: seq<ClockOffset>)
    ensures multiset(r) == multiset(s) + multiset{x}
    decreases |s|
  {
    if s == [] || x <= s[0] then
      assert multiset([x] + s) == multiset(s) + multiset{x};
      [x] + s
    else
      assert s == [s[0]] + s[1..];
      [s[0]] + Insert(x, s[1..])
  }

  lemma {:induction false} InsertAtLeast(x: ClockOffset, s: seq<ClockOffset>, low: ClockOffset)
    requires low <= x && forall i :: 0 <= i < |s| ==> low <= s[i]
    ensures forall i :: 0 <= i < |Insert(x, s)| ==> low <= Insert(x, s)[i]
    decreases |s|
  {
    if s != [] && s[0] < x { InsertAtLeast(x, s[1..], low); }
  }

  lemma {:induction false} InsertAscending(x: ClockOffset, s: seq<ClockOffset>)
    requires Ascending(s)
    ensures Ascending(Insert(x, s))
    decreases |s|
  {
    if s != [] && s[0] < x {
      InsertAscending(x, s[1..]);
      InsertAtLeast(x, s[1..], s[0]);
    }
  }

  function SortedCopy(s: seq<ClockOffset>): (r: seq<ClockOffset>)
    ensures Ascending(r) && multiset(r) == multiset(s) && |r| == |s|
  {
    if s == [] then []
    else
      assert s == [s[0]] + s[1..];
      var r := Insert(s[0], SortedCopy(s[1..]));
      InsertAscending(s[0], SortedCopy(s[1..]));
      assert |r| == |multiset(r)| && |s| == |multiset(s)|;
      r
  }

  /** Half of the sum; the fraction is dropped, also below zero. */
  function Midpoint(a: ClockOffset, b: ClockOffset): (m: ClockOffset)
    ensures a <= b ==> a <= m <= b
    ensures -1 <= 2 * m - (a + b) <= 1
  {
    var sum := a + b;
    if sum >= 0 then sum / 2 else -((-sum) / 2)
  }

  function CalculateMedianOffset(offsets: seq<ClockOffset>): ClockOffset
  {
    if offsets == [] then 0
    else
      var sorted, middle := SortedCopy(offsets), |offsets| / 2;
      if |offsets| % 2 == 0 then Midpoint(sorted[middle - 1], sorted[middle]) else sorted[middle]
  }

  // ---------------------------------------------------------------------------
  // The order of the samples is irrelevant.

  lemma {:induction false} AscendingUnique(a: seq<ClockOffset>, b: seq<ClockOffset>)
    requires Ascending(a) && Ascending(b) && multiset(a) == multiset(b)
    ensures a == b
    decreases |a|
  {
    hide Ascending;
    assert |a| == |multiset(a)| == |multiset(b)| == |b|;
    if a != [] {
      SmallestFirst(a, b[0]);
      SmallestFirst(b, a[0]);
      var x := a[0];
      assert x == b[0];
      WithoutFirst(a);
      WithoutFirst(b);
      AscendingUnique(a[1..], b[1..]);
    }
  }

  lemma SmallestFirst(s: seq<ClockOffset>, x: ClockOffset)
    requires Ascending(s) && s != []
    ensures s[0] in multiset(s)
    ensures x in multiset(s) ==> s[0] <= x
  {
    if x in multiset(s) { assert x in s; }
  }

  lemma WithoutFirst(s: seq<ClockOffset>)
    requires s != []
    ensures Ascending(s) ==> Ascending(s[1..])
    ensures multiset(s[1..]) == multiset(s) - multiset{s[0]}
    ensures s == [s[0]] + s[1..]
  {
    assert s == [s[0]] + s[1..];
  }

  lemma {:induction false} MedianIgnoresOrder(a: seq<ClockOffset>, b: seq<ClockOffset>)
    requires multiset(a) == multiset(b)
    ensures CalculateMedianOffset(a) == CalculateMedianOffset(b)
  {
    assert |a| == |multiset(a)| == |b|;
    AscendingUnique(SortedCopy(a), SortedCopy(b));
  }

  // ---------------------------------------------------------------------------
  // Offsets seen from the other side.

  const LOWEST: ClockOffset := -0x4000_0000_0000_0000

  /** The offsets as the other nodes see them. */
  function Negated(s: seq<ClockOffset>): (r: seq<ClockOffset>)
    requires LOWEST !in s
    ensures |r| == |s|
  {
    if s == [] then [] else [-s[0]] + Negated(s[1..])
  }

  lemma {:induction false} NegatedAt(s: seq<ClockOffset>, i: nat)
    requires LOWEST !in s && i < |s|
    ensures Negated(s)[i] as int == -(s[i] as int)
  {
    if i > 0 { NegatedAt(s[1..], i - 1); }
  }

  function Reversed(s: seq<ClockOffset>): (r: seq<ClockOffset>)
    ensures |r| == |s| && multiset(r) == multiset(s) && forall i :: 0 <= i < |s| ==> r[i] == s[|s| - 1 - i]
  {
    if s == [] then []
    else
      assert s == [s[0]] + s[1..];
      Reversed(s[1..]) + [s[0]]
  }

  lemma {:induction false} NegatedCount(s: seq<ClockOffset>, x: ClockOffset, y: ClockOffset)
    requires LOWEST !in s && y as int == -(x as int)
    ensures multiset(Negated(s))[x] == multiset(s)[y]
    decreases |s|
  {
    hide Negated;
    if s == [] {
      NegatedNone();
    } else {
      NegatedCount(s[1..], x, y);
      var first := NegatedFirst(s);
      CountFirst(first, Negated(s[1..]), x);
      CountFirst(s[0], s[1..], y);
    }
  }

  lemma NegatedNone()
    ensures Negated([]) == []
  {
  }

  lemma NegatedFirst(s: seq<ClockOffset>) returns (first: ClockOffset)
    requires LOWEST !in s && s != []
    ensures first as int == -(s[0] as int) && Negated(s) == [first] + Negated(s[1..])
    ensures s == [s[0]] + s[1..]
  {
    first := Negated(s)[0];
  }

  lemma CountFirst(first: ClockOffset, rest: seq<ClockOffset>, x: ClockOffset)
    ensures multiset([first] + rest)[x] == multiset(rest)[x] + if first == x then 1 else 0
  {
  }

  lemma NegatedSorted(s: seq<ClockOffset>)
    requires LOWEST !in s
    ensures LOWEST !in SortedCopy(s)
    ensures SortedCopy(Negated(s)) == Reversed(Negated(SortedCopy(s)))
  {
    hide Negated, Reversed, SortedCopy;
    var sorted := SortedCopy(s);
    assert LOWEST !in multiset(s) && LOWEST !in multiset(sorted);
    forall x: ClockOffset
      ensures multiset(Negated(s))[x] == multiset(Negated(sorted))[x]
    {
      if x == LOWEST {
        forall i | 0 <= i < |s|
          ensures Negated(s)[i] != x && Negated(sorted)[i] != x
        {
          NegatedAt(s, i);
          NegatedAt(sorted, i);
        }
      } else {
        NegatedCount(s, x, -x);
        NegatedCount(sorted, x, -x);
      }
    }
    assert multiset(Negated(s)) == multiset(Negated(sorted));
    forall i | 0 <= i < |s|
      ensures Negated(sorted)[i] as int == -(sorted[i] as int)
    {
      NegatedAt(sorted, i);
    }
    AscendingUnique(SortedCopy(Negated(s)), Reversed(Negated(sorted)));
  }

  lemma MidpointNegated(a: ClockOffset, b: ClockOffset, c: ClockOffset, d: ClockOffset)
    requires c as int == -(b as int) && d as int == -(a as int)
    ensures Midpoint(c, d) as int == -(Midpoint(a, b) as int)
  {
  }

  /** Truncation toward zero favours no side: the median of the negated offsets is the negated median. */
  lemma MedianOfNegated(offsets: seq<ClockOffset>)
    requires LOWEST !in offsets
    ensures CalculateMedianOffset(Negated(offsets)) as int == -(CalculateMedianOffset(offsets) as int)
  {
    hide Negated, Reversed, SortedCopy, Midpoint;
    NegatedSorted(offsets);
    if offsets != [] {
      var sorted, n := SortedCopy(offsets), |offsets|;
      var flipped := SortedCopy(Negated(offsets));
      var middle := n / 2;
      NegatedAt(sorted, n - 1 - middle);
      assert flipped[middle] as int == -(sorted[n - 1 - middle] as int);
      if n % 2 == 0 {
        NegatedAt(sorted, middle);
        assert flipped[middle - 1] as int == -(sorted[middle] as int);
        MidpointNegated(sorted[middle - 1], sorted[middle], flipped[middle - 1], flipped[middle]);
      }
    }
  }

  // ---------------------------------------------------------------------------
  // The result is a median, and a majority of samples holds it.

  function Count(p: ClockOffset -> bool, s: seq<ClockOffset>): (n: nat)
    ensures n <= |s|
  {
    if s == [] then 0 else (if p(s[0]) then 1 else 0) + Count(p, s[1..])
  }

  function Below(m: ClockOffset): (p: ClockOffset -> bool)
  {
    x => x < m
  }

  function Above(m: ClockOffset): (p: ClockOffset -> bool)
  {
    x => x > m
  }

  function Within(lo: ClockOffset, hi: ClockOffset): (p: ClockOffset -> bool)
  {
    x => lo <= x <= hi
  }

  lemma {:induction false} CountInsert(p: ClockOffset -> bool, x: ClockOffset, s: seq<ClockOffset>)
    ensures Count(p, Insert(x, s)) == Count(p, s) + if p(x) then 1 else 0
    decreases |s|
  {
    if s == [] || x <= s[0] {
      assert ([x] + s)[1..] == s;
    } else {
      CountInsert(p, x, s[1..]);
      assert Insert(x, s)[1..] == Insert(x, s[1..]);
    }
  }

  lemma {:induction false} CountSorted(p: ClockOffset -> bool, s: seq<ClockOffset>)
    ensures Count(p, SortedCopy(s)) == Count(p, s)
    decreases |s|
  {
    if s != [] {
      CountSorted(p, s[1..]);
      CountInsert(p, s[0], SortedCopy(s[1..]));
    }
  }

  lemma {:induction false} CountOutside(p: ClockOffset -> bool, s: seq<ClockOffset>, from: nat, to: nat)
    requires from <= to <= |s|
    requires forall i :: 0 <= i < |s| && p(s[i]) ==> from <= i < to
    ensures Count(p, s) <= to - from
    decreases |s|
  {
    if s != [] {
      assert forall i :: 0 <= i < |s[1..]| ==> s[1..][i] == s[i + 1];
      CountOutside(p, s[1..], if from == 0 then 0 else from - 1, if to == 0 then 0 else to - 1);
    }
  }

  lemma {:induction false} CountImplies(p: ClockOffset -> bool, q: ClockOffset -> bool, s: seq<ClockOffset>)
    requires forall x :: p(x) ==> q(x)
    ensures Count(p, s) <= Count(q, s)
    decreases |s|
  {
    if s != [] { CountImplies(p, q, s[1..]); }
  }

  /** At most half of the samples lie below the result and at most half above it. */
  lemma {:induction false} MedianHalves(offsets: seq<ClockOffset>)
    requires offsets != []
    ensures var m := CalculateMedianOffset(offsets);
      2 * Count(Below(m), offsets) <= |offsets| && 2 * Count(Above(m), offsets) <= |offsets|
  {
    hide SortedCopy, Count, Midpoint;
    var m := CalculateMedianOffset(offsets);
    var sorted, middle, n := SortedCopy(offsets), |offsets| / 2, |offsets|;
    var below, above := Below(m), Above(m);
    assert sorted[middle] >= m && sorted[n - 1 - middle] <= m;
    CountOutside(below, sorted, 0, middle);
    CountOutside(above, sorted, n - middle, n);
    CountSorted(below, offsets);
    CountSorted(above, offsets);
  }

  /** An interval that holds a strict majority of the samples holds the result, averaged or not. */
  lemma {:induction false} MajorityHoldsMedian(offsets: seq<ClockOffset>, lo: ClockOffset, hi: ClockOffset)
    requires 2 * Count(Within(lo, hi), offsets) > |offsets|
    ensures lo <= CalculateMedianOffset(offsets) <= hi
  {
    var m := CalculateMedianOffset(offsets);
    MedianHalves(offsets);
    if m < lo { CountImplies(Within(lo, hi), Above(m), offsets); }
    if hi < m { CountImplies(Within(lo, hi), Below(m), offsets); }
  }

  /** Half of the samples do not suffice. */
  lemma HalfIsNotEnough()
    ensures var offsets: seq<ClockOffset> := [0, 10];
      2 * Count(Within(0, 0), offsets) == |offsets| && CalculateMedianOffset(offsets) == 5
  {
    var offsets: seq<ClockOffset> := [0, 10];
    assert Insert(10, []) == [10];
    assert SortedCopy(offsets[1..]) == [10] by { assert offsets[1..][1..] == []; }
    assert SortedCopy(offsets) == [0, 10];
    var p := Within(0, 0);
    assert Count(p, offsets) == 1 by {
      assert Count(p, offsets[1..]) == 0 by { assert Count(p, offsets[1..][1..]) == 0; }
    }
  }

  // ---------------------------------------------------------------------------
  // The vote over the known nodes.

  datatype ClockOffsetInfo = ClockOffsetInfo(offset: ClockOffset, confidence: real)

  datatype SampleError = TooFewSamples | NoConfidentSamples

  ghost function Confident(infos: map<NodeId, ClockOffsetInfo>): set<NodeId>
  {
    set id | id in infos && infos[id].confidence > 0.5
  }

  function OffsetsOf(infos: map<NodeId, ClockOffsetInfo>, ids: seq<NodeId>): (s: seq<ClockOffset>)
    requires forall id :: id in ids ==> id in infos
    ensures |s| == |ids|
  {
    seq(|ids|, i requires 0 <= i < |ids| => infos[ids[i]].offset)
  }

  lemma {:induction false} ListingsAgree(
      infos: map<NodeId, ClockOffsetInfo>, a: seq<NodeId>, b: seq<NodeId>, ids: set<NodeId>)
    requires Lists(a, ids) && Lists(b, ids) && forall id :: id in ids ==> id in infos
    ensures multiset(OffsetsOf(infos, a)) == multiset(OffsetsOf(infos, b))
    decreases |a|
  {
    ListsSize(a, ids);
    ListsSize(b, ids);
    if a != [] {
      var k := |a| - 1;
      var x := a[k];
      assert x in b;
      var i :| 0 <= i < |b| && b[i] == x;
      WithoutIndex(a, ids, k);
      WithoutIndex(b, ids, i);
      ListingsAgree(infos, a[..k] + a[k + 1..], b[..i] + b[i + 1..], ids - {x});
      OffsetsWithout(infos, a, k);
      OffsetsWithout(infos, b, i);
    }
  }

  lemma WithoutIndex(list: seq<NodeId>, ids: set<NodeId>, i: nat)
    requires Lists(list, ids) && i < |list|
    ensures Lists(list[..i] + list[i + 1..], ids - {list[i]})
  {
    var rest := list[..i] + list[i + 1..];
    assert forall j :: 0 <= j < |rest| ==> rest[j] == if j < i then list[j] else list[j + 1];
    forall x
      ensures x in rest <==> x in ids - {list[i]}
    {
      if x in ids && x != list[i] {
        var j :| 0 <= j < |list| && list[j] == x;
        assert rest[if j < i then j else j - 1] == x;
      }
    }
  }

  lemma OffsetsWithout(infos: map<NodeId, ClockOffsetInfo>, list: seq<NodeId>, i: nat)
    requires i < |list| && forall id :: id in list ==> id in infos
    ensures forall id :: id in list[..i] + list[i + 1..] ==> id in infos
    ensures multiset(OffsetsOf(infos, list)) ==
      multiset(OffsetsOf(infos, list[..i] + list[i + 1..])) + multiset{infos[list[i]].offset}
  {
    var whole, rest := OffsetsOf(infos, list), OffsetsOf(infos, list[..i] + list[i + 1..]);
    assert rest == whole[..i] + whole[i + 1..];
    assert whole == whole[..i] + [whole[i]] + whole[i + 1..];
  }

  /** The confident offsets, collected in an order the source does not fix; their median does not depend on it. */
  method BerkeleyAlgorithm(infos: map<NodeId, ClockOffsetInfo>, minSamples: nat)
    returns (r: Result<ClockOffset, SampleError>)
    ensures r == Err(TooFewSamples) <==> |infos| < minSamples
    ensures r == Err(NoConfidentSamples) <==>
      |infos| >= minSamples && forall id :: id in infos ==> infos[id].confidence <= 0.5
    ensures r.Ok? ==>
      forall ids :: Lists(ids, Confident(infos)) ==> r.value == CalculateMedianOffset(OffsetsOf(infos, ids))
  {
    if |infos| < minSamples { return Err(TooFewSamples); }
    var offsets: seq<ClockOffset>, rest := [], infos.Keys;
    ghost var ids: seq<NodeId> := [];
    ghost var confident := Confident(infos);
    while rest != {}
      invariant rest <= infos.Keys
      invariant Lists(ids, confident - rest)
      invariant (forall id :: id in ids ==> id in infos) && offsets == OffsetsOf(infos, ids)
    {
      var id :| id in rest;
      if infos[id].confidence > 0.5 {
        ListsAppend(ids, confident - rest, id);
        assert confident - (rest - {id}) == confident - rest + {id};
        ids := ids + [id];
        offsets := offsets + [infos[id].offset];
      } else {
        assert confident - (rest - {id}) == confident - rest;
      }
      rest := rest - {id};
    }
    assert confident - {} == confident;
    if offsets == [] {
      assert forall x :: x in confident ==> x in ids;
      return Err(NoConfidentSamples);
    }
    assert ids[0] in confident;
    forall other | Lists(other, confident)
      ensures CalculateMedianOffset(offsets) == CalculateMedianOffset(OffsetsOf(infos, other))
    {
      ListingsAgree(infos, ids, other, confident);
      MedianIgnoresOrder(offsets, OffsetsOf(infos, other));
    }
    r := Ok(CalculateMedianOffset(offsets));
  }
}
