/** Connectivity matrix and network partitions (src/cluster/split_brain_detector.cpp). */
module Partitions {
  import opened Bytes
  import opened Collections

  type NodeId = Str

  type Matrix = seq<seq<bool>>

  predicate Square(m: Matrix, n: nat)
  {
    |m| == n && forall i :: 0 <= i < n ==> |m[i]| == n
  }

  predicate Symmetric(m: Matrix, n: nat)
    requires Square(m, n)
  {
    forall i, j :: 0 <= i < n && 0 <= j < n ==> m[i][j] == m[j][i]
  }

  /** A node is connected to itself; the checker is asked once for each pair, with the smaller index first. */
  predicate Linked(nodes: seq<NodeId>, checker: (NodeId, NodeId) -> bool, a: nat, b: nat)
    requires a < |nodes| && b < |nodes|
  {
    if a == b then true else if a < b then checker(nodes[a], nodes[b]) else checker(nodes[b], nodes[a])
  }

  method CalculateConnectivityMatrix(nodes: seq<NodeId>, checker: (NodeId, NodeId) -> bool) returns (m: Matrix)
    ensures Square(m, |nodes|)
    ensures forall a :: 0 <= a < |nodes| ==> m[a][a]
    ensures forall a, b :: 0 <= a < b < |nodes| ==> m[a][b] == m[b][a] == checker(nodes[a], nodes[b])
    ensures Symmetric(m, |nodes|)
  {
    var n := |nodes|;
    m := seq(n, _ => seq(n, _ => false));
    var i := 0;
    while i < n
      invariant 0 <= i <= n && Square(m, n)
      invariant forall a, b :: 0 <= a < n && 0 <= b < n && (a < i || b < i) ==> m[a][b] == Linked(nodes, checker, a, b)
    {
      m := m[i := m[i][i := true]];
      var j := i + 1;
      while j < n
        invariant i < j <= n && Square(m, n)
        invariant forall a, b :: 0 <= a < n && 0 <= b < n && (a < i || b < i) ==>
          m[a][b] == Linked(nodes, checker, a, b)
        invariant forall b :: 0 <= b < j ==> m[i][b] == Linked(nodes, checker, i, b)
        invariant forall a :: 0 <= a < j ==> m[a][i] == Linked(nodes, checker, a, i)
      {
        var connected := checker(nodes[i], nodes[j]);
        m := m[i := m[i][j := connected]];
        m := m[j := m[j][i := connected]];
        j := j + 1;
      }
      i := i + 1;
    }
    assert forall a, b :: 0 <= a < n && 0 <= b < n ==> m[a][b] == Linked(nodes, checker, a, b);
    assert forall a, b :: 0 <= a < n && 0 <= b < n ==> Linked(nodes, checker, a, b) == Linked(nodes, checker, b, a);
  }

  // ---------------------------------------------------------------------------
  // Paths.

  ghost predicate IsPath(m: Matrix, n: nat, p: seq<nat>)
    requires Square(m, n)
  {
    && p != []
    && (forall i :: 0 <= i < |p| ==> p[i] < n)
    && (forall i :: 0 < i < |p| ==> m[p[i - 1]][p[i]])
  }

  /** Some path leads from `a` to `b`. */
  ghost predicate Connected(m: Matrix, n: nat, a: nat, b: nat)
    requires Square(m, n)
  {
    exists p: seq<nat> :: IsPath(m, n, p) && p[0] == a && p[|p| - 1] == b
  }

  lemma ConnectedToSelf(m: Matrix, n: nat, a: nat)
    requires Square(m, n) && a < n
    ensures Connected(m, n, a, a)
  {
    assert IsPath(m, n, [a]);
  }

  lemma ConnectedStep(m: Matrix, n: nat, a: nat, b: nat, c: nat)
    requires Square(m, n) && Connected(m, n, a, b) && b < n && c < n && m[b][c]
    ensures Connected(m, n, a, c)
  {
    var p: seq<nat> :| IsPath(m, n, p) && p[0] == a && p[|p| - 1] == b;
    assert IsPath(m, n, p + [c]);
    assert (p + [c])[|p|] == c;
  }

  lemma {:induction false} ConnectedReverse(m: Matrix, n: nat, p: seq<nat>)
    requires Square(m, n) && Symmetric(m, n) && IsPath(m, n, p)
    ensures Connected(m, n, p[|p| - 1], p[0])
    decreases p
  {
    if |p| == 1 {
      ConnectedToSelf(m, n, p[0]);
    } else {
      var q := p[1..];
      assert forall i :: 0 < i < |q| ==> q[i] == p[i + 1] && q[i - 1] == p[i];
      ConnectedReverse(m, n, q);
      ConnectedStep(m, n, p[|p| - 1], q[0], p[0]);
    }
  }

  lemma ConnectedTrans(m: Matrix, n: nat, a: nat, b: nat, c: nat)
    requires Square(m, n) && Connected(m, n, a, b) && Connected(m, n, b, c)
    ensures Connected(m, n, a, c)
  {
    var p: seq<nat> :| IsPath(m, n, p) && p[0] == a && p[|p| - 1] == b;
    var q: seq<nat> :| IsPath(m, n, q) && q[0] == b && q[|q| - 1] == c;
    var r := p + q[1..];
    assert IsPath(m, n, r);
    assert r[0] == a && r[|r| - 1] == c;
  }

  // ---------------------------------------------------------------------------
  // Partitions as lists of indices.

  ghost predicate InSome(parts: seq<seq<nat>>, x: nat)
  {
    exists p :: 0 <= p < |parts| && x in parts[p]
  }

  /** No index occurs twice, within a part or across parts. */
  ghost predicate Disjoint(parts: seq<seq<nat>>)
  {
    && (forall p :: 0 <= p < |parts| ==> NoDuplicates(parts[p]))
    && (forall p, q, x :: 0 <= p < q < |parts| && x in parts[p] ==> x !in parts[q])
  }

  /** Each part is reachable from its first index. */
  ghost predicate Rooted(m: Matrix, n: nat, parts: seq<seq<nat>>)
    requires Square(m, n)
  {
    forall p :: 0 <= p < |parts| ==>
      && parts[p] != []
      && forall x :: x in parts[p] ==> x < n && Connected(m, n, parts[p][0], x)
  }

  /** Links lead out of a part only into earlier parts. */
  ghost predicate Closed(m: Matrix, n: nat, parts: seq<seq<nat>>)
    requires Square(m, n)
  {
    forall p, x, y :: 0 <= p < |parts| && x in parts[p] && x < n && 0 <= y < n && m[x][y] ==> InSome(parts[..p + 1], y)
  }

  ghost predicate Names(nodes: seq<NodeId>, partitions: seq<seq<NodeId>>, parts: seq<seq<nat>>)
  {
    && |partitions| == |parts|
    && forall p :: 0 <= p < |parts| ==> NamesOne(nodes, partitions[p], parts[p])
  }

  ghost predicate NamesOne(nodes: seq<NodeId>, names: seq<NodeId>, part: seq<nat>)
  {
    |names| == |part| && forall k :: 0 <= k < |part| ==> part[k] < |nodes| && names[k] == nodes[part[k]]
  }

  /** What the queue search has collected: the nodes taken from the queue, then the queue. */
  ghost predicate Frontier(m: Matrix, n: nat, parts: seq<seq<nat>>, root: nat, reached: seq<nat>, visited: seq<bool>)
    requires Square(m, n) && |visited| == n
  {
    && reached != [] && reached[0] == root
    && NoDuplicates(reached)
    && (forall x :: x in reached ==> x < n && Connected(m, n, root, x) && !InSome(parts, x))
    && (forall x :: 0 <= x < n ==> (visited[x] <==> InSome(parts, x) || x in reached))
  }

  lemma Reach(
      m: Matrix, n: nat, parts: seq<seq<nat>>, root: nat, reached: seq<nat>, visited: seq<bool>, from: nat, j: nat)
    requires Square(m, n) && |visited| == n && Frontier(m, n, parts, root, reached, visited)
    requires from in reached && from < n && j < n && m[from][j] && !visited[j]
    ensures Frontier(m, n, parts, root, reached + [j], visited[j := true])
  {
    ConnectedStep(m, n, root, from, j);
    assert forall i :: 0 <= i < |reached| ==> reached[i] in reached;
    assert forall x :: x in reached + [j] <==> x in reached || x == j;
  }

  lemma StartFrontier(m: Matrix, n: nat, parts: seq<seq<nat>>, root: nat, visited: seq<bool>)
    requires Square(m, n) && |visited| == n && root < n && !visited[root]
    requires forall x :: 0 <= x < n ==> (visited[x] <==> InSome(parts, x))
    ensures Frontier(m, n, parts, root, [root], visited[root := true])
  {
    ConnectedToSelf(m, n, root);
  }

  ghost function Indices(n: nat): (s: set<nat>)
    ensures forall x: nat :: x in s <==> x < n
  {
    if n == 0 then {} else Indices(n - 1) + {n - 1}
  }

  /** The search from one root: everything reachable over unvisited nodes, in queue order. */
  method CollectPartition(nodes: seq<NodeId>, m: Matrix, root: nat, visited0: seq<bool>, ghost parts: seq<seq<nat>>)
    returns (partition: seq<NodeId>, visited: seq<bool>, ghost part: seq<nat>)
    requires var n := |nodes|; Square(m, n) && |visited0| == n && root < n && !visited0[root]
    requires forall x :: 0 <= x < |nodes| ==> (visited0[x] <==> InSome(parts, x))
    ensures |visited| == |nodes| && Frontier(m, |nodes|, parts, root, part, visited)
    ensures NamesOne(nodes, partition, part)
    ensures forall x, y :: x in part && x < |nodes| && 0 <= y < |nodes| && m[x][y] ==> visited[y]
  {
    hide Connected, InSome, Frontier;
    var n := |nodes|;
    partition, part := [], [];
    var queue: seq<nat> := [root];
    visited := visited0[root := true];
    StartFrontier(m, n, parts, root, visited0);
    assert part + queue == [root];
    while queue != []
      invariant |visited| == n && Frontier(m, n, parts, root, part + queue, visited)
      invariant NamesOne(nodes, partition, part)
      invariant forall x, y :: x in part && x < n && 0 <= y < n && m[x][y] ==> visited[y]
      decreases Indices(n) - Elements(part)
    {
      var current := queue[0];
      ghost var before := part;
      FrontierHead(m, n, parts, root, part, queue, visited);
      assert part + queue == (part + [current]) + queue[1..];
      queue := queue[1..];
      partition := partition + [nodes[current]];
      part := part + [current];
      var j := 0;
      while j < n
        invariant 0 <= j <= n
        invariant |visited| == n && Frontier(m, n, parts, root, part + queue, visited)
        invariant forall x, y :: x in before && x < n && 0 <= y < n && m[x][y] ==> visited[y]
        invariant forall y :: 0 <= y < j && m[current][y] ==> visited[y]
      {
        if !visited[j] && m[current][j] {
          assert current in part + queue;
          Reach(m, n, parts, root, part + queue, visited, current, j);
          assert (part + queue) + [j] == part + (queue + [j]);
          queue := queue + [j];
          visited := visited[j := true];
        }
        j := j + 1;
      }
      assert forall x :: x in part <==> x in before || x == current;
      assert Elements(part) == Elements(before) + {current};
    }
    assert part + [] == part;
  }

  lemma FrontierHead(
      m: Matrix, n: nat, parts: seq<seq<nat>>, root: nat, part: seq<nat>, queue: seq<nat>, visited: seq<bool>)
    requires Square(m, n) && |visited| == n && Frontier(m, n, parts, root, part + queue, visited) && queue != []
    ensures queue[0] < n && queue[0] !in part
  {
    var all := part + queue;
    assert all[|part|] == queue[0] && queue[0] in all;
    assert forall i :: 0 <= i < |part| ==> all[i] == part[i];
  }

  /** The partitions name the index lists `parts`; every index is in exactly one, and `Rooted` and `Closed` hold. */
  ghost predicate AreParts(nodes: seq<NodeId>, m: Matrix, partitions: seq<seq<NodeId>>, parts: seq<seq<nat>>)
    requires Square(m, |nodes|)
  {
    && Names(nodes, partitions, parts)
    && Disjoint(parts) && Rooted(m, |nodes|, parts) && Closed(m, |nodes|, parts)
    && forall x: nat :: x < |nodes| <==> InSome(parts, x)
  }

  ghost predicate Partitioned(nodes: seq<NodeId>, m: Matrix, partitions: seq<seq<NodeId>>)
    requires Square(m, |nodes|)
  {
    exists parts: seq<seq<nat>> :: AreParts(nodes, m, partitions, parts)
  }

  method FindNetworkPartitions(nodes: seq<NodeId>, m: Matrix)
    returns (partitions: seq<seq<NodeId>>, ghost parts: seq<seq<nat>>)
    requires Square(m, |nodes|)
    ensures AreParts(nodes, m, partitions, parts)
    ensures Partitioned(nodes, m, partitions)
  {
    hide Connected, InSome, Frontier, Disjoint, Rooted, Closed, NamesOne;
    var n := |nodes|;
    partitions, parts := [], [];
    var visited := seq(n, _ => false);
    NoParts(m, n);
    var i := 0;
    while i < n
      invariant 0 <= i <= n && |visited| == n
      invariant Names(nodes, partitions, parts)
      invariant Disjoint(parts) && Rooted(m, n, parts) && Closed(m, n, parts)
      invariant forall x :: 0 <= x < n ==> (visited[x] <==> InSome(parts, x))
      invariant forall x :: 0 <= x < i ==> visited[x]
    {
      if !visited[i] {
        var partition, now;
        ghost var part;
        partition, now, part := CollectPartition(nodes, m, i, visited, parts);
        AddPart(m, n, parts, i, part, visited, now);
        partitions := partitions + [partition];
        parts := parts + [part];
        visited := now;
      }
      i := i + 1;
    }
    PartsInRange(m, n, parts);
  }

  lemma NoParts(m: Matrix, n: nat)
    requires Square(m, n)
    ensures Disjoint([]) && Rooted(m, n, []) && Closed(m, n, [])
    ensures forall x: nat :: !InSome([], x)
  {
  }

  lemma PartsInRange(m: Matrix, n: nat, parts: seq<seq<nat>>)
    requires Square(m, n) && Rooted(m, n, parts)
    ensures forall x: nat :: InSome(parts, x) ==> x < n
  {
  }

  lemma InSomeAppend(parts: seq<seq<nat>>, part: seq<nat>, x: nat)
    ensures InSome(parts + [part], x) <==> InSome(parts, x) || x in part
  {
    var all := parts + [part];
    if InSome(parts, x) {
      var p :| 0 <= p < |parts| && x in parts[p];
      assert all[p] == parts[p];
    }
    if x in part { assert all[|parts|] == part; }
  }

  lemma AddPart(
      m: Matrix, n: nat, parts: seq<seq<nat>>, root: nat, part: seq<nat>, before: seq<bool>, visited: seq<bool>)
    requires Square(m, n) && |before| == n && |visited| == n
    requires Disjoint(parts) && Rooted(m, n, parts) && Closed(m, n, parts)
    requires forall x :: 0 <= x < n ==> (before[x] <==> InSome(parts, x))
    requires Frontier(m, n, parts, root, part, visited)
    requires forall x, y :: x in part && x < n && 0 <= y < n && m[x][y] ==> visited[y]
    ensures Disjoint(parts + [part]) && Rooted(m, n, parts + [part]) && Closed(m, n, parts + [part])
    ensures forall x :: 0 <= x < n ==> (visited[x] <==> InSome(parts + [part], x))
    ensures forall x :: 0 <= x < n && before[x] ==> visited[x]
    ensures root < n && visited[root]
  {
    hide Connected;
    var all := parts + [part];
    assert part[0] in part;
    forall x: nat
      ensures InSome(all, x) <==> InSome(parts, x) || x in part
    {
      InSomeAppend(parts, part, x);
    }
    forall p, q, x: nat | 0 <= p < q < |all| && x in all[p]
      ensures x !in all[q]
    {
      assert all[p] == parts[p];
      assert InSome(parts, x);
    }
    forall p, x, y: nat | 0 <= p < |all| && x in all[p] && x < n && 0 <= y < n && m[x][y]
      ensures InSome(all[..p + 1], y)
    {
      if p < |parts| {
        assert all[..p + 1] == parts[..p + 1] && all[p] == parts[p];
      } else {
        assert all[..p + 1] == all;
      }
    }
  }

  // ---------------------------------------------------------------------------
  // On a symmetric matrix the parts are exactly the connected components.

  lemma {:induction false} PathStaysEarlier(m: Matrix, n: nat, parts: seq<seq<nat>>, path: seq<nat>, p: nat)
    requires Square(m, n) && Closed(m, n, parts) && IsPath(m, n, path)
    requires p < |parts| && path[0] in parts[p]
    ensures InSome(parts[..p + 1], path[|path| - 1])
    decreases path
  {
    if |path| == 1 {
      assert parts[..p + 1][p] == parts[p];
    } else {
      var q :| 0 <= q < |parts[..p + 1]| && path[1] in parts[..p + 1][q];
      var rest := path[1..];
      assert forall i :: 0 < i < |rest| ==> rest[i] == path[i + 1] && rest[i - 1] == path[i];
      PathStaysEarlier(m, n, parts, rest, q);
      var last := rest[|rest| - 1];
      var r :| 0 <= r < |parts[..q + 1]| && last in parts[..q + 1][r];
      assert parts[..p + 1][r] == parts[r];
    }
  }

  lemma ConnectedIsEarlier(m: Matrix, n: nat, parts: seq<seq<nat>>, a: nat, b: nat, p: nat, q: nat)
    requires Square(m, n) && Closed(m, n, parts) && Disjoint(parts) && Connected(m, n, a, b)
    requires p < |parts| && q < |parts| && a in parts[p] && b in parts[q]
    ensures q <= p
  {
    var path: seq<nat> :| IsPath(m, n, path) && path[0] == a && path[|path| - 1] == b;
    PathStaysEarlier(m, n, parts, path, p);
    var r :| 0 <= r < |parts[..p + 1]| && b in parts[..p + 1][r];
    assert r == q;
  }

  /** Two indices are in the same part exactly when a path joins them. */
  lemma PartsAreComponents(m: Matrix, n: nat, parts: seq<seq<nat>>, a: nat, b: nat, p: nat, q: nat)
    requires Square(m, n) && Symmetric(m, n)
    requires Disjoint(parts) && Rooted(m, n, parts) && Closed(m, n, parts)
    requires p < |parts| && q < |parts| && a in parts[p] && b in parts[q]
    ensures p == q <==> Connected(m, n, a, b)
  {
    hide Closed, Connected;
    if p == q {
      var root := parts[p][0];
      ConnectedBack(m, n, root, a);
      ConnectedTrans(m, n, a, root, b);
    }
    if Connected(m, n, a, b) {
      ConnectedIsEarlier(m, n, parts, a, b, p, q);
      ConnectedBack(m, n, a, b);
      ConnectedIsEarlier(m, n, parts, b, a, q, p);
    }
  }

  /** For distinct nodes and a symmetric matrix: two nodes are in one partition exactly when a path joins them. */
  lemma PartitionsAreComponents(nodes: seq<NodeId>, m: Matrix, partitions: seq<seq<NodeId>>, a: nat, b: nat)
    requires Square(m, |nodes|) && Symmetric(m, |nodes|) && Partitioned(nodes, m, partitions) && NoDuplicates(nodes)
    requires a < |nodes| && b < |nodes|
    ensures (exists p :: 0 <= p < |partitions| && nodes[a] in partitions[p] && nodes[b] in partitions[p]) <==>
      Connected(m, |nodes|, a, b)
  {
    hide Connected, Disjoint, Rooted, Closed;
    var parts: seq<seq<nat>> :| AreParts(nodes, m, partitions, parts);
    assert InSome(parts, a) && InSome(parts, b);
    var p :| 0 <= p < |parts| && a in parts[p];
    var q :| 0 <= q < |parts| && b in parts[q];
    PartsAreComponents(m, |nodes|, parts, a, b, p, q);
    forall r: nat | r < |parts|
      ensures nodes[a] in partitions[r] <==> a in parts[r]
      ensures nodes[b] in partitions[r] <==> b in parts[r]
    {
      assert NamesOne(nodes, partitions[r], parts[r]);
      NamedIsMember(nodes, partitions[r], parts[r], a);
      NamedIsMember(nodes, partitions[r], parts[r], b);
    }
    forall r: nat | r < |partitions| && nodes[a] in partitions[r] && nodes[b] in partitions[r]
      ensures p == q
    {
      OnlyPart(parts, a, p, r);
      OnlyPart(parts, b, q, r);
    }
  }

  lemma NamedIsMember(nodes: seq<NodeId>, names: seq<NodeId>, part: seq<nat>, x: nat)
    requires NamesOne(nodes, names, part) && NoDuplicates(nodes) && x < |nodes|
    ensures nodes[x] in names <==> x in part
  {
    if nodes[x] in names {
      var k :| 0 <= k < |names| && names[k] == nodes[x];
      assert part[k] == x;
    }
    if x in part {
      var k :| 0 <= k < |part| && part[k] == x;
      assert names[k] == nodes[x];
    }
  }

  lemma OnlyPart(parts: seq<seq<nat>>, x: nat, p: nat, q: nat)
    requires Disjoint(parts) && p < |parts| && q < |parts| && x in parts[p] && x in parts[q]
    ensures p == q
  {
  }

  lemma ConnectedBack(m: Matrix, n: nat, a: nat, b: nat)
    requires Square(m, n) && Symmetric(m, n) && Connected(m, n, a, b)
    ensures Connected(m, n, b, a)
  {
    var p: seq<nat> :| IsPath(m, n, p) && p[0] == a && p[|p| - 1] == b;
    ConnectedReverse(m, n, p);
  }
}
