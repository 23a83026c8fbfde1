/** Sequences without duplicates, the sets they list, and sizes of sets. */
module Collections {

  function Elements<T>(s: seq<T>): set<T>
  {
    set x | x in s
  }

  lemma Associate<T>(a: seq<T>, b: seq<T>, c: seq<T>)
    ensures (a + b) + c == a + (b + c)
  {
  }

  ghost predicate NoDuplicates<T(!new)>(s: seq<T>)
  {
    forall i, j :: 0 <= i < j < |s| ==> s[i] != s[j]
  }

  /** `list` has each member of `s` once and nothing else. */
  ghost predicate Lists<T(!new)>(list: seq<T>, s: set<T>)
  {
    NoDuplicates(list) && forall x :: x in list <==> x in s
  }

  lemma ListsOne<T(!new)>(x: T)
    ensures Lists([x], {x})
  {
  }

  lemma ListsMember<T(!new)>(list: seq<T>, s: set<T>, i: nat)
    requires Lists(list, s) && i < |list|
    ensures list[i] in s
  {
  }

  lemma ListsAppend<T(!new)>(list: seq<T>, s: set<T>, x: T)
    requires Lists(list, s) && x !in s
    ensures Lists(list + [x], s + {x})
  {
    assert forall i :: 0 <= i < |list| ==> list[i] in list;
    assert forall y :: y in list + [x] <==> y in list || y == x;
  }

  lemma {:induction false} ListsSize<T(!new)>(list: seq<T>, s: set<T>)
    requires Lists(list, s)
    ensures |list| == |s|
  {
    if list == [] {
      assert s == {};
    } else {
      var last := list[|list| - 1];
      var front := list[..|list| - 1];
      assert list == front + [last];
      ListsSize(front, s - {last});
    }
  }

  lemma SubsetSize<T>(a: set<T>, b: set<T>)
    requires a <= b
    ensures |a| <= |b|
  {
    assert b == a + (b - a);
  }

  lemma SameSize<T>(a: set<T>, b: set<T>)
    requires a <= b && |a| == |b|
    ensures a == b
  {
    assert b == a + (b - a);
  }

  lemma DisjointSize<T>(a: set<T>, b: set<T>, all: set<T>)
    requires a <= all && b <= all && a !! b
    ensures |a| + |b| <= |all|
  {
    assert |a + b| == |a| + |b|;
    SubsetSize(a + b, all);
  }

  lemma {:induction false} TakeSubset<T>(all: set<T>, k: nat) returns (part: set<T>)
    requires k <= |all|
    ensures part <= all && |part| == k
  {
    if k == 0 {
      part := {};
    } else {
      var x :| x in all;
      var rest := TakeSubset(all - {x}, k - 1);
      part := rest + {x};
    }
  }
}
