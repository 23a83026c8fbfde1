/** The wait-for graph and its depth-first search (src/transaction/transaction_manager.cpp). */
module WaitGraph {
  import opened Collections

  type Tx = nat

  /** `wait_graph_`: for each waiting transaction the transactions it waits for. */
  type Graph = map<Tx, set<Tx>>

  function Succ(g: Graph, u: Tx): set<Tx>
  {
    if u in g then g[u] else {}
  }

  ghost predicate IsPath(g: Graph, p: seq<Tx>)
  {
    p != [] && forall i :: 0 < i < |p| ==> p[i] in Succ(g, p[i - 1])
  }

  function Last(p: seq<Tx>): Tx
    requires p != []
  {
    p[|p| - 1]
  }

  ghost predicate IsCycle(g: Graph, c: seq<Tx>)
  {
    IsPath(g, c) && c[0] in Succ(g, Last(c))
  }

  /** A path whose last node has an edge back onto it. */
  ghost predicate IsLasso(g: Graph, p: seq<Tx>)
  {
    IsPath(g, p) && exists k :: 0 <= k < |p| && p[k] in Succ(g, Last(p))
  }

  ghost predicate CycleReachable(g: Graph, start: Tx)
  {
    exists p :: IsLasso(g, p) && p[0] == start
  }

  ghost predicate Acyclic(g: Graph)
  {
    forall c :: !IsCycle(g, c)
  }

  // ---------------------------------------------------------------------------
  // The search.

  /** Every node's successors stand before it: the order in which the search finishes nodes. */
  ghost predicate Finished(g: Graph, done: seq<Tx>)
  {
    forall i :: 0 <= i < |done| ==> Succ(g, done[i]) <= Elements(done[..i])
  }

  /** What holds between calls of the recursive search. */
  ghost predicate SearchState(g: Graph, visited: set<Tx>, recStack: set<Tx>, path: seq<Tx>, done: seq<Tx>)
  {
    && NoDuplicates(path)
    && (path != [] ==> IsPath(g, path))
    && recStack == Elements(path)
    && visited == recStack + Elements(done)
    && recStack !! Elements(done)
    && Finished(g, done)
  }

  ghost function Nodes(g: Graph): set<Tx>
  {
    g.Keys + set u, v | u in g && v in g[u] :: v
  }

  /** Entering a node: `visited`, `rec_stack` and `path` each gain it. */
  lemma EnterNode(g: Graph, visited: set<Tx>, recStack: set<Tx>, path: seq<Tx>, done: seq<Tx>, node: Tx)
    requires SearchState(g, visited, recStack, path, done) && node !in visited
    requires path != [] ==> node in Succ(g, Last(path))
    ensures SearchState(g, visited + {node}, recStack + {node}, path + [node], done)
  {
    assert Elements(path + [node]) == Elements(path) + {node};
    assert forall i :: 0 <= i < |path| ==> path[i] in Elements(path);
  }

  /** Leaving a node all of whose successors are finished. */
  lemma LeaveNode(g: Graph, visited: set<Tx>, recStack: set<Tx>, path: seq<Tx>, done: seq<Tx>, node: Tx)
    requires SearchState(g, visited, recStack + {node}, path + [node], done) && node !in recStack
    requires Succ(g, node) <= Elements(done)
    requires recStack == Elements(path)
    ensures SearchState(g, visited, recStack, path, done + [node])
  {
    var d := done + [node];
    assert Elements(d) == Elements(done) + {node};
    forall i | 0 <= i < |d|
      ensures Succ(g, d[i]) <= Elements(d[..i])
    {
      assert d[..i] == done[..i];
      assert done[..|done|] == done;
    }
    assert forall i :: 0 <= i < |path| ==> (path + [node])[i] == path[i];
  }

  lemma BackEdge(g: Graph, visited: set<Tx>, recStack: set<Tx>, path: seq<Tx>, done: seq<Tx>, neighbor: Tx)
    requires SearchState(g, visited, recStack, path, done) && path != []
    requires neighbor in recStack && neighbor in Succ(g, Last(path))
    ensures NoDuplicates(path) && IsLasso(g, path)
  {
    assert neighbor in path;
  }

  lemma StackIsPath(g: Graph, visited: set<Tx>, recStack: set<Tx>, path: seq<Tx>, done: seq<Tx>)
    requires SearchState(g, visited, recStack, path, done)
    ensures recStack == Elements(path) && visited == recStack + Elements(done)
  {
  }

  /** The recursive closure `dfs`; the captured locals are passed in and handed back. */
  method Dfs(g: Graph, node: Tx, visited0: set<Tx>, recStack0: set<Tx>, path0: seq<Tx>, ghost done0: seq<Tx>)
    returns (found: bool, visited: set<Tx>, recStack: set<Tx>, path: seq<Tx>, ghost done: seq<Tx>)
    requires SearchState(g, visited0, recStack0, path0, done0)
    requires node !in visited0 && (path0 != [] ==> node in Succ(g, Last(path0)))
    requires node in Nodes(g) || path0 == []
    ensures visited0 + {node} <= visited
    ensures found ==> path0 + [node] <= path && NoDuplicates(path) && IsLasso(g, path)
    ensures !found ==> path == path0 && recStack == recStack0
    ensures !found ==> SearchState(g, visited, recStack, path, done) && done0 <= done && node in Elements(done)
    decreases Nodes(g) - visited0, node !in Nodes(g)
  {
    hide SearchState, NoDuplicates, IsLasso, IsPath;
    visited, recStack, path := visited0 + {node}, recStack0 + {node}, path0 + [node];
    done := done0;
    EnterNode(g, visited0, recStack0, path0, done0, node);
    StackIsPath(g, visited0, recStack0, path0, done0);
    ghost var pushed := path;
    var rest := Succ(g, node);
    while rest != {}
      invariant rest <= Succ(g, node)
      invariant visited0 + {node} <= visited
      invariant path == pushed && recStack == recStack0 + {node}
      invariant SearchState(g, visited, recStack, path, done) && done0 <= done
      invariant Succ(g, node) - rest <= Elements(done)
      decreases rest
    {
      var neighbor :| neighbor in rest;
      StackIsPath(g, visited, recStack, path, done);
      if neighbor in recStack {
        BackEdge(g, visited, recStack, path, done, neighbor);
        found := true;
        return;
      }
      if neighbor !in visited {
        SuccessorIsNode(g, node, neighbor);
        ghost var before := done;
        found, visited, recStack, path, done := Dfs(g, neighbor, visited, recStack, path, done);
        if found { return; }
        PrefixElements(before, done);
      }
      rest := rest - {neighbor};
    }
    LeaveNode(g, visited, recStack0, path0, done, node);
    done := done + [node];
    recStack, path := recStack - {node}, path[..|path| - 1];
    found := false;
  }

  lemma PrefixElements(a: seq<Tx>, b: seq<Tx>)
    requires a <= b
    ensures Elements(a) <= Elements(b)
  {
  }

  lemma SuccessorIsNode(g: Graph, u: Tx, v: Tx)
    requires v in Succ(g, u)
    ensures v in Nodes(g)
  {
  }

  /** `find_cycle_in_wait_graph` */
  method FindCycle(g: Graph, start: Tx) returns (cycle: seq<Tx>)
    ensures cycle == [] <==> !CycleReachable(g, start)
    ensures cycle != [] ==> cycle[0] == start && NoDuplicates(cycle) && IsLasso(g, cycle)
  {
    var found, visited, recStack, path;
    ghost var done;
    found, visited, recStack, path, done := Dfs(g, start, {}, {}, [], []);
    if found { return path; }
    forall p | IsLasso(g, p) && p[0] == start
      ensures false
    {
      FinishedHasNoLasso(g, done, p);
    }
    return [];
  }

  // ---------------------------------------------------------------------------
  // Completeness: nothing reachable from a finished node closes a cycle.

  lemma {:induction false} PathsDescend(g: Graph, done: seq<Tx>, p: seq<Tx>, i: nat, j: nat)
    requires Finished(g, done) && IsPath(g, p) && i < |done| && p[0] == done[i]
    requires 0 < j < |p|
    ensures p[j] in Elements(done[..i])
    decreases j
  {
    assert p[1] in Succ(g, done[i]);
    if j > 1 {
      var i' :| 0 <= i' < i && done[i'] == p[1];
      PathsDescend(g, done, p[1..], i', j - 1);
      assert done[..i'] <= done[..i];
    }
  }

  lemma FirstIndex(s: seq<Tx>, x: Tx) returns (i: nat)
    requires x in s
    ensures i < |s| && s[i] == x && x !in s[..i]
  {
    i := 0;
    while s[i] != x
      invariant i < |s| && x !in s[..i] && x in s[i..]
      decreases |s| - i
    {
      assert s[..i + 1] == s[..i] + [s[i]];
      i := i + 1;
    }
  }

  lemma FinishedHasNoLasso(g: Graph, done: seq<Tx>, p: seq<Tx>)
    requires Finished(g, done) && p != [] && p[0] in done
    ensures !IsLasso(g, p)
  {
    if IsLasso(g, p) {
      var k :| 0 <= k < |p| && p[k] in Succ(g, Last(p));
      var c := p[k..] + [p[k]];
      assert IsPath(g, c);
      assert p[k] in done by {
        if k > 0 {
          var i := FirstIndex(done, p[0]);
          PathsDescend(g, done, p, i, k);
        }
      }
      var i := FirstIndex(done, p[k]);
      PathsDescend(g, done, c, i, |c| - 1);
    }
  }

  // ---------------------------------------------------------------------------
  // Keeping the graph acyclic.

  ghost predicate Subgraph(h: Graph, g: Graph)
  {
    forall u: Tx :: Succ(h, u) <= Succ(g, u)
  }

  lemma SubgraphAcyclic(h: Graph, g: Graph)
    requires Acyclic(g) && Subgraph(h, g)
    ensures Acyclic(h)
  {
    forall c
      ensures !IsCycle(h, c)
    {
      if IsCycle(h, c) { assert IsCycle(g, c); }
    }
  }

  function WithEdge(g: Graph, u: Tx, v: Tx): Graph
  {
    g[u := Succ(g, u) + {v}]
  }

  lemma Rotate(g: Graph, c: seq<Tx>, i: nat)
    requires IsCycle(g, c) && i < |c|
    ensures IsCycle(g, c[i..] + c[..i])
  {
    var r := c[i..] + c[..i];
    forall j | 0 < j < |r|
      ensures r[j] in Succ(g, r[j - 1])
    {
      if j < |c| - i {
        assert r[j] == c[i + j] && r[j - 1] == c[i + j - 1];
      } else if j > |c| - i {
        assert r[j] == c[j - (|c| - i)] && r[j - 1] == c[j - 1 - (|c| - i)];
      } else {
        assert r[j] == c[0] && r[j - 1] == Last(c);
      }
    }
    if i > 0 {
      assert Last(r) == c[i - 1] && r[0] == c[i];
    } else {
      assert r == c;
    }
  }

  /** A cycle that a new edge closes passes through the edge's source. */
  lemma NewCycleThroughSource(g: Graph, u: Tx, v: Tx, c: seq<Tx>)
    requires Acyclic(g) && IsCycle(WithEdge(g, u, v), c)
    ensures u in c
  {
    if u !in c {
      forall i | 0 <= i < |c|
        ensures Succ(WithEdge(g, u, v), c[i]) == Succ(g, c[i])
      {
        assert c[i] in c;
      }
      assert IsCycle(g, c);
    }
  }

  lemma CycleThroughIsReachable(g: Graph, c: seq<Tx>, u: Tx)
    requires IsCycle(g, c) && u in c
    ensures CycleReachable(g, u)
  {
    var i :| 0 <= i < |c| && c[i] == u;
    Rotate(g, c, i);
    var r := c[i..] + c[..i];
    assert r[0] == u && IsLasso(g, r);
  }

  /** An edge after which the search from its source finds nothing keeps the whole graph acyclic. */
  lemma CheckedEdgeKeepsAcyclic(g: Graph, u: Tx, v: Tx)
    requires Acyclic(g) && !CycleReachable(WithEdge(g, u, v), u)
    ensures Acyclic(WithEdge(g, u, v))
  {
    var h := WithEdge(g, u, v);
    forall c
      ensures !IsCycle(h, c)
    {
      if IsCycle(h, c) {
        NewCycleThroughSource(g, u, v, c);
        CycleThroughIsReachable(h, c, u);
      }
    }
  }

  /** The path the search finds after one edge was added to an acyclic graph is a cycle through the edge's source. */
  lemma FoundPathIsCycle(g: Graph, u: Tx, v: Tx, p: seq<Tx>)
    requires Acyclic(g)
    requires IsLasso(WithEdge(g, u, v), p) && NoDuplicates(p) && p[0] == u
    ensures IsCycle(WithEdge(g, u, v), p)
  {
    var h := WithEdge(g, u, v);
    var k :| 0 <= k < |p| && p[k] in Succ(h, Last(p));
    var c := p[k..];
    assert IsCycle(h, c);
    NewCycleThroughSource(g, u, v, c);
    var j :| 0 <= j < |c| && c[j] == u;
    assert p[k + j] == p[0];
  }
}
