/** Quorum arithmetic and the split-brain detector (src/cluster/split_brain_detector.cpp). */
module Quorum {
  import opened Bytes
  import opened Collections
  import opened Partitions

  datatype QuorumStrategy = Majority | StaticQuorum | DynamicQuorum | WitnessBased

  datatype QuorumDecision = QuorumDecision(hasQuorum: bool, activeNodes: seq<NodeId>, isolatedNodes: seq<NodeId>)

  datatype NodeStatus = NodeStatus(isAlive: bool, isIsolated: bool, lastHeartbeat: int, missedHeartbeats: nat)

  type Nodes = map<NodeId, NodeStatus>

  // ---------------------------------------------------------------------------
  // How many nodes a side needs, and whether two sides can both have them.

  function CalculateRequiredQuorumSize(totalNodes: nat, strategy: QuorumStrategy): nat
  {
    match strategy
    case Majority => totalNodes / 2 + 1
    case StaticQuorum => Max(1, totalNodes / 3)
    case DynamicQuorum => Max(1, (totalNodes + 1) / 2)
    case WitnessBased => Max(1, totalNodes / 2)
  }

  function Max(a: nat, b: nat): nat
  {
    if a < b then b else a
  }

  /** Two sides of `all` without a common node, each with `need` nodes. */
  ghost predicate CanSplit<T(!new)>(all: set<T>, need: nat)
  {
    exists a: set<T>, b: set<T> :: a <= all && b <= all && a !! b && |a| >= need && |b| >= need
  }

  lemma CanSplitIff<T(!new)>(all: set<T>, need: nat)
    ensures CanSplit(all, need) <==> 2 * need <= |all|
  {
    if CanSplit(all, need) {
      var a: set<T>, b: set<T> :| a <= all && b <= all && a !! b && |a| >= need && |b| >= need;
      DisjointSize(a, b, all);
    }
    if 2 * need <= |all| {
      var a := TakeSubset(all, need);
      assert |all - a| == |all| - need;
      var b := TakeSubset(all - a, need);
      assert a !! b;
    }
  }

  /** MAJORITY alone excludes two surviving sides at every size; the dynamic size does so for odd memberships only. */
  lemma SplitStrategies<T(!new)>(all: set<T>, strategy: QuorumStrategy)
    ensures CanSplit(all, CalculateRequiredQuorumSize(|all|, strategy)) <==>
      |all| >= 2 && !strategy.Majority? && !(strategy.DynamicQuorum? && |all| % 2 == 1)
  {
    CanSplitIff(all, CalculateRequiredQuorumSize(|all|, strategy));
  }

  ghost predicate CanSplitInThree<T(!new)>(all: set<T>, need: nat)
  {
    exists a: set<T>, b: set<T>, c: set<T> ::
      && a <= all && b <= all && c <= all && a !! b && a !! c && b !! c
      && |a| >= need && |b| >= need && |c| >= need
  }

  lemma CanSplitInThreeIff<T(!new)>(all: set<T>, need: nat)
    ensures CanSplitInThree(all, need) <==> 3 * need <= |all|
  {
    hide CanSplitInThree;
    if CanSplitInThree(all, need) { ThreeSidesNeed(all, need); }
    if 3 * need <= |all| { ThreeSides(all, need); }
  }

  lemma ThreeSidesNeed<T(!new)>(all: set<T>, need: nat)
    requires CanSplitInThree(all, need)
    ensures 3 * need <= |all|
  {
    var a: set<T>, b: set<T>, c: set<T> :|
      && a <= all && b <= all && c <= all && a !! b && a !! c && b !! c
      && |a| >= need && |b| >= need && |c| >= need;
    assert |a + b| == |a| + |b|;
    DisjointSize(a + b, c, all);
  }

  lemma ThreeSides<T(!new)>(all: set<T>, need: nat)
    requires 3 * need <= |all|
    ensures CanSplitInThree(all, need)
  {
    var a := TakeSubset(all, need);
    var rest := all - a;
    assert |rest| == |all| - need;
    CanSplitIff(rest, need);
    var b: set<T>, c: set<T> :| b <= rest && c <= rest && b !! c && |b| >= need && |c| >= need;
    assert a !! b && a !! c && b <= all && c <= all;
  }

  /** However a membership is cut in two, one side has the size. */
  ghost predicate OneSideHas<T(!new)>(all: set<T>, need: nat)
  {
    forall a :: a <= all ==> |a| >= need || |all - a| >= need
  }

  lemma OneSideHasIff<T(!new)>(all: set<T>, need: nat)
    ensures OneSideHas(all, need) <==> need <= (|all| + 1) / 2
  {
    var half := TakeSubset(all, |all| / 2);
    assert |all - half| == |all| - |half|;
    forall a | a <= all
      ensures |all - a| == |all| - |a|
    {
      assert all - a + a == all;
    }
  }

  /**
   * What the four sizes are for. MAJORITY is the smallest size that two sides never both have; the dynamic size the
   * largest that one side always has; the static size the largest that three sides can all have, and the witness size
   * the largest that two can, each at least 1.
   */
  lemma SizesAreExact<T(!new)>(all: set<T>, strategy: QuorumStrategy)
    requires all != {}
    ensures var need := CalculateRequiredQuorumSize(|all|, strategy);
      && need >= 1
      && match strategy
         case Majority => !CanSplit(all, need) && CanSplit(all, need - 1)
         case StaticQuorum => (need == 1 || CanSplitInThree(all, need)) && !CanSplitInThree(all, need + 1)
         case DynamicQuorum => OneSideHas(all, need) && !OneSideHas(all, need + 1)
         case WitnessBased => (need == 1 || CanSplit(all, need)) && !CanSplit(all, need + 1)
  {
    hide CanSplit, CanSplitInThree, OneSideHas;
    var need := CalculateRequiredQuorumSize(|all|, strategy);
    CanSplitIff(all, need);
    CanSplitIff(all, need + 1);
    if need > 0 { CanSplitIff(all, need - 1); }
    CanSplitInThreeIff(all, need);
    CanSplitInThreeIff(all, need + 1);
    OneSideHasIff(all, need);
    OneSideHasIff(all, need + 1);
  }

  lemma IndicesSize(n: nat)
    ensures |Indices(n)| == n
  {
    if n > 0 { assert n - 1 !in Indices(n - 1); }
  }

  /** Of the partitions found, at most one has the majority size. */
  lemma OneMajorityPart(n: nat, parts: seq<seq<nat>>, p: nat, q: nat)
    requires Disjoint(parts)
    requires forall x: nat :: InSome(parts, x) ==> x < n
    requires p < |parts| && q < |parts|
    requires |parts[p]| >= CalculateRequiredQuorumSize(n, Majority)
    requires |parts[q]| >= CalculateRequiredQuorumSize(n, Majority)
    ensures p == q
  {
    if p != q {
      forall r | r == p || r == q
        ensures |Elements(parts[r])| == |parts[r]| && Elements(parts[r]) <= Indices(n)
      {
        ListsSize(parts[r], Elements(parts[r]));
        assert forall x :: x in parts[r] ==> InSome(parts, x);
      }
      var first, second := if p < q then p else q, if p < q then q else p;
      assert forall x :: x in parts[first] ==> x !in parts[second];
      DisjointSize(Elements(parts[p]), Elements(parts[q]), Indices(n));
      IndicesSize(n);
    }
  }

  /** The whole computation on one membership: at most one of the returned partitions can go on. */
  method SurvivingPartitions(nodes: seq<NodeId>, checker: (NodeId, NodeId) -> bool)
    returns (partitions: seq<seq<NodeId>>)
    ensures forall p, q ::
      (0 <= p < |partitions| && 0 <= q < |partitions| &&
       2 * |partitions[p]| > |nodes| && 2 * |partitions[q]| > |nodes|) ==> p == q
  {
    var m := CalculateConnectivityMatrix(nodes, checker);
    ghost var parts;
    partitions, parts := FindNetworkPartitions(nodes, m);
    hide Disjoint, Rooted, Closed, InSome, Partitioned;
    forall p, q |
      0 <= p < |partitions| && 0 <= q < |partitions| &&
      2 * |partitions[p]| > |nodes| && 2 * |partitions[q]| > |nodes|
      ensures p == q
    {
      assert NamesOne(nodes, partitions[p], parts[p]) && NamesOne(nodes, partitions[q], parts[q]);
      OneMajorityPart(|nodes|, parts, p, q);
    }
  }

  // ---------------------------------------------------------------------------
  // Decisions.

  ghost function ActiveSet(nodes: Nodes): set<NodeId>
  {
    set id | id in nodes && nodes[id].isAlive && !nodes[id].isIsolated
  }

  ghost predicate IsDecision(d: QuorumDecision, nodes: Nodes, isolated: set<NodeId>)
  {
    Lists(d.activeNodes, ActiveSet(nodes)) && Lists(d.isolatedNodes, isolated)
  }

  ghost predicate HasMajority(nodes: Nodes)
  {
    2 * |ActiveSet(nodes)| > |nodes|
  }

  /** The four strategies: the dynamic one asks no more than the static one. */
  ghost predicate HasQuorum(config: Config, nodes: Nodes)
  {
    match config.strategy
    case Majority => HasMajority(nodes)
    case StaticQuorum => |ActiveSet(nodes)| >= config.minQuorumSize
    case DynamicQuorum => |ActiveSet(nodes)| >= config.minQuorumSize
    case WitnessBased =>
      |ActiveSet(nodes)| >= config.minQuorumSize && exists w :: w in config.witnessNodes && w in ActiveSet(nodes)
  }

  /** Only the majority decision names the nodes it cuts off. */
  ghost function CutOff(config: Config, nodes: Nodes): set<NodeId>
  {
    if config.strategy.Majority? then nodes.Keys - ActiveSet(nodes) else {}
  }

  /** Two views of one membership that agree on no active node never both have the majority. */
  lemma OneMajorityView(left: Nodes, right: Nodes)
    requires left.Keys == right.Keys && ActiveSet(left) !! ActiveSet(right)
    ensures !(HasMajority(left) && HasMajority(right))
  {
    DisjointSize(ActiveSet(left), ActiveSet(right), left.Keys);
    assert |left| == |left.Keys| && |right| == |right.Keys|;
  }

  ghost predicate ViewsCanSplit(config: Config, ids: set<NodeId>)
  {
    exists left: Nodes, right: Nodes ::
      && left.Keys == ids && right.Keys == ids && ActiveSet(left) !! ActiveSet(right)
      && HasQuorum(config, left) && HasQuorum(config, right)
  }

  ghost function ViewOf(ids: set<NodeId>, active: set<NodeId>): Nodes
    requires active <= ids
    ensures ViewOf(ids, active).Keys == ids && ActiveSet(ViewOf(ids, active)) == active
  {
    map id | id in ids :: NodeStatus(id in active, false, 0, 0)
  }

  ghost predicate TwoWitnesses(config: Config, ids: set<NodeId>)
  {
    exists v, w :: v in config.witnessNodes && w in config.witnessNodes && v != w && v in ids && w in ids
  }

  /**
   * Two disjoint sides of a membership can both go on: never under MAJORITY; under the static and dynamic strategies
   * exactly when the membership holds the minimum twice; with witnesses exactly when it also holds two of those.
   */
  lemma QuorumSplitsIff(config: Config, ids: set<NodeId>)
    ensures ViewsCanSplit(config, ids) <==>
      match config.strategy
      case Majority => false
      case StaticQuorum => 2 * config.minQuorumSize <= |ids|
      case DynamicQuorum => 2 * config.minQuorumSize <= |ids|
      case WitnessBased => TwoWitnesses(config, ids) && 2 * Max(1, config.minQuorumSize) <= |ids|
  {
    hide ViewsCanSplit, TwoWitnesses;
    if ViewsCanSplit(config, ids) { SplitNeeds(config, ids); }
    if config.strategy.WitnessBased? && TwoWitnesses(config, ids) && 2 * Max(1, config.minQuorumSize) <= |ids| {
      WitnessedSides(config, ids);
    }
    if (config.strategy.StaticQuorum? || config.strategy.DynamicQuorum?) && 2 * config.minQuorumSize <= |ids| {
      CanSplitIff(ids, config.minQuorumSize);
      var a: set<NodeId>, b: set<NodeId> :|
        a <= ids && b <= ids && a !! b && |a| >= config.minQuorumSize && |b| >= config.minQuorumSize;
      BothGoOn(config, ids, a, b);
    }
  }

  lemma SplitNeeds(config: Config, ids: set<NodeId>)
    requires ViewsCanSplit(config, ids)
    ensures !config.strategy.Majority? && 2 * config.minQuorumSize <= |ids|
    ensures config.strategy.WitnessBased? ==> TwoWitnesses(config, ids) && 2 <= |ids|
  {
    hide HasMajority, TwoWitnesses, ActiveSet;
    var left: Nodes, right: Nodes :|
      && left.Keys == ids && right.Keys == ids && ActiveSet(left) !! ActiveSet(right)
      && HasQuorum(config, left) && HasQuorum(config, right);
    OneMajorityView(left, right);
    ActiveAreNodes(left);
    ActiveAreNodes(right);
    DisjointSize(ActiveSet(left), ActiveSet(right), ids);
    if config.strategy.WitnessBased? { TwoSidesTwoWitnesses(config, ids, left, right); }
  }

  lemma ActiveAreNodes(nodes: Nodes)
    ensures ActiveSet(nodes) <= nodes.Keys
  {
  }

  lemma WitnessedSides(config: Config, ids: set<NodeId>)
    requires config.strategy.WitnessBased? && TwoWitnesses(config, ids) && 2 * Max(1, config.minQuorumSize) <= |ids|
    ensures ViewsCanSplit(config, ids)
  {
    var v, w :| v in config.witnessNodes && w in config.witnessNodes && v != w && v in ids && w in ids;
    var need, rest := Max(1, config.minQuorumSize), ids - {v, w};
    assert |rest| == |ids| - 2;
    var a := TakeSubset(rest, need - 1);
    assert |rest - a| == |rest| - (need - 1);
    var b := TakeSubset(rest - a, need - 1);
    assert |a + {v}| == need && |b + {w}| == need;
    BothGoOn(config, ids, a + {v}, b + {w});
  }

  lemma TwoSidesTwoWitnesses(config: Config, ids: set<NodeId>, left: Nodes, right: Nodes)
    requires config.strategy.WitnessBased? && HasQuorum(config, left) && HasQuorum(config, right)
    requires left.Keys == ids && right.Keys == ids && ActiveSet(left) !! ActiveSet(right)
    ensures TwoWitnesses(config, ids)
    ensures |ActiveSet(left)| >= 1 && |ActiveSet(right)| >= 1
  {
    var v :| v in config.witnessNodes && v in ActiveSet(left);
    var w :| w in config.witnessNodes && w in ActiveSet(right);
    assert v != w && v in ids && w in ids;
    SubsetSize({v}, ActiveSet(left));
    SubsetSize({w}, ActiveSet(right));
  }

  lemma BothGoOn(config: Config, ids: set<NodeId>, a: set<NodeId>, b: set<NodeId>)
    requires a <= ids && b <= ids && a !! b && !config.strategy.Majority?
    requires |a| >= config.minQuorumSize && |b| >= config.minQuorumSize
    requires config.strategy.WitnessBased? ==>
      (exists v :: v in config.witnessNodes && v in a) && (exists w :: w in config.witnessNodes && w in b)
    ensures ViewsCanSplit(config, ids)
  {
    var left, right := ViewOf(ids, a), ViewOf(ids, b);
    assert HasQuorum(config, left) && HasQuorum(config, right);
  }

  // ---------------------------------------------------------------------------
  // Validation of a decision.

  ghost predicate Validates(d: QuorumDecision, size: nat)
  {
    |d.activeNodes| + |d.isolatedNodes| == size && NoDuplicates(d.activeNodes + d.isolatedNodes)
  }

  method ValidateQuorumDecision(d: QuorumDecision, allNodes: seq<NodeId>) returns (valid: bool)
    ensures valid <==> Validates(d, |allNodes|)
  {
    if |d.activeNodes| + |d.isolatedNodes| != |allNodes| { return false; }
    var both := d.activeNodes + d.isolatedNodes;
    var accounted: set<NodeId> := {};
    for i := 0 to |d.activeNodes|
      invariant accounted == set k | 0 <= k < i :: both[k]
      invariant forall j, k :: 0 <= j < k < i ==> both[j] != both[k]
    {
      assert both[i] == d.activeNodes[i];
      if d.activeNodes[i] in accounted { return false; }
      accounted := accounted + {d.activeNodes[i]};
    }
    for i := 0 to |d.isolatedNodes|
      invariant accounted == set k | 0 <= k < |d.activeNodes| + i :: both[k]
      invariant forall j, k :: 0 <= j < k < |d.activeNodes| + i ==> both[j] != both[k]
    {
      assert both[|d.activeNodes| + i] == d.isolatedNodes[i];
      if d.isolatedNodes[i] in accounted { return false; }
      accounted := accounted + {d.isolatedNodes[i]};
    }
    return true;
  }

  /** About nodes of the membership, validation says what it should: every node is on exactly one side. */
  lemma ValidationMeans(d: QuorumDecision, allNodes: seq<NodeId>)
    requires NoDuplicates(allNodes)
    requires forall x :: x in d.activeNodes + d.isolatedNodes ==> x in allNodes
    ensures Validates(d, |allNodes|) <==> Splitting(d, allNodes)
  {
    hide NoDuplicates;
    var both := d.activeNodes + d.isolatedNodes;
    ListsSize(allNodes, Elements(allNodes));
    if Validates(d, |allNodes|) {
      Halves(d);
      ListsSize(both, Elements(both));
      SameSize(Elements(both), Elements(allNodes));
      assert forall x :: x in allNodes ==> x in Elements(both);
    }
    if Splitting(d, allNodes) {
      Whole(d);
      assert Elements(both) == Elements(allNodes);
      ListsSize(both, Elements(both));
    }
  }

  ghost predicate Splitting(d: QuorumDecision, allNodes: seq<NodeId>)
  {
    && NoDuplicates(d.activeNodes) && NoDuplicates(d.isolatedNodes)
    && (forall x :: x in d.activeNodes ==> x !in d.isolatedNodes)
    && (forall x :: x in allNodes ==> x in d.activeNodes || x in d.isolatedNodes)
  }

  lemma Whole(d: QuorumDecision)
    requires NoDuplicates(d.activeNodes) && NoDuplicates(d.isolatedNodes)
    requires forall x :: x in d.activeNodes ==> x !in d.isolatedNodes
    ensures NoDuplicates(d.activeNodes + d.isolatedNodes)
  {
    var both, k := d.activeNodes + d.isolatedNodes, |d.activeNodes|;
    forall i, j | 0 <= i < j < |both|
      ensures both[i] != both[j]
    {
      assert both[i] == if i < k then d.activeNodes[i] else d.isolatedNodes[i - k];
      assert both[j] == if j < k then d.activeNodes[j] else d.isolatedNodes[j - k];
      if i < k <= j { assert both[i] in d.activeNodes && both[j] in d.isolatedNodes; }
    }
  }

  lemma Halves(d: QuorumDecision)
    requires NoDuplicates(d.activeNodes + d.isolatedNodes)
    ensures NoDuplicates(d.activeNodes) && NoDuplicates(d.isolatedNodes)
    ensures forall x :: x in d.activeNodes ==> x !in d.isolatedNodes
  {
    var both, k := d.activeNodes + d.isolatedNodes, |d.activeNodes|;
    assert forall i :: 0 <= i < k ==> both[i] == d.activeNodes[i];
    assert forall i :: 0 <= i < |d.isolatedNodes| ==> both[k + i] == d.isolatedNodes[i];
  }

  /** Without that, validation says nothing about the membership: strangers pass. */
  lemma StrangersValidate()
    ensures exists d: QuorumDecision, allNodes: seq<NodeId> ::
      && Validates(d, |allNodes|) && d.hasQuorum && NoDuplicates(allNodes)
      && forall x :: x in allNodes ==> x !in d.activeNodes && x !in d.isolatedNodes
  {
    var d, allNodes := QuorumDecision(true, [[1]], []), [[2]];
    assert Validates(d, |allNodes|);
  }

  /** Every majority decision validates; the other strategies validate only while no node is down or isolated. */
  lemma DecisionsValidate(config: Config, nodes: Nodes, d: QuorumDecision)
    requires IsDecision(d, nodes, CutOff(config, nodes))
    ensures Validates(d, |nodes|) <==> config.strategy.Majority? || ActiveSet(nodes) == nodes.Keys
  {
    hide ActiveSet, NoDuplicates;
    var active, cut := ActiveSet(nodes), CutOff(config, nodes);
    ActiveAreNodes(nodes);
    ListsSize(d.activeNodes, active);
    ListsSize(d.isolatedNodes, cut);
    Whole(d);
    assert |nodes| == |nodes.Keys|;
    assert |nodes.Keys - active| == |nodes.Keys| - |active|;
    if |active| == |nodes.Keys| { SameSize(active, nodes.Keys); }
  }

  // ---------------------------------------------------------------------------
  // The detector.

  datatype Config = Config(
    strategy: QuorumStrategy,
    minQuorumSize: nat,
    witnessNodes: seq<NodeId>,
    heartbeatTimeout: nat,
    maxMissedHeartbeats: nat)

  predicate Recent(config: Config, nodes: Nodes, now: int, id: NodeId)
  {
    id in nodes && now - nodes[id].lastHeartbeat < 2 * config.heartbeatTimeout
  }

  predicate AreNodesConnected(config: Config, nodes: Nodes, now: int, a: NodeId, b: NodeId)
  {
    Recent(config, nodes, now, a) && Recent(config, nodes, now, b)
  }

  /** All live nodes heard from lately form one component; a live node not heard from lately is one by itself. */
  ghost function ComponentOf(config: Config, nodes: Nodes, now: int, id: NodeId): set<NodeId>
  {
    if Recent(config, nodes, now, id) then
      set x | x in nodes && nodes[x].isAlive && Recent(config, nodes, now, x)
    else
      {id}
  }

  ghost predicate Visited(visited: set<NodeId>, components: seq<seq<NodeId>>)
  {
    forall x :: x in visited <==> exists c :: 0 <= c < |components| && x in components[c]
  }

  /** Non-empty, pairwise disjoint, and each exactly the component of any of its live nodes. */
  ghost predicate AreComponents(config: Config, nodes: Nodes, now: int, components: seq<seq<NodeId>>)
  {
    && (forall c :: 0 <= c < |components| ==> components[c] != [])
    && (forall c, x :: 0 <= c < |components| && x in components[c] ==>
      x in nodes && nodes[x].isAlive && Lists(components[c], ComponentOf(config, nodes, now, x)))
    && (forall c, d, x :: 0 <= c < d < |components| && x in components[c] ==> x !in components[d])
  }

  lemma AddComponent(
      config: Config, nodes: Nodes, now: int, components: seq<seq<NodeId>>, visited: set<NodeId>,
      component: seq<NodeId>, root: NodeId)
    requires AreComponents(config, nodes, now, components) && Visited(visited, components)
    requires root in nodes && nodes[root].isAlive && root !in visited
    requires Lists(component, ComponentOf(config, nodes, now, root))
    ensures AreComponents(config, nodes, now, components + [component])
    ensures Visited(visited + ComponentOf(config, nodes, now, root), components + [component])
  {
    var own, all := ComponentOf(config, nodes, now, root), components + [component];
    assert root in own && root in component;
    forall x | x in own
      ensures x !in visited && ComponentOf(config, nodes, now, x) == own
    {
      SharedComponent(config, nodes, now, components, visited, root, x);
    }
    assert forall c :: 0 <= c < |components| ==> all[c] == components[c];
    assert all[|components|] == component;
    forall x
      ensures x in visited + own <==> exists c :: 0 <= c < |all| && x in all[c]
    {
      if x in own { assert x in all[|components|]; }
      if x in visited {
        var c :| 0 <= c < |components| && x in components[c];
        assert x in all[c];
      }
    }
  }

  lemma SharedComponent(
      config: Config, nodes: Nodes, now: int, components: seq<seq<NodeId>>, visited: set<NodeId>, root: NodeId,
      x: NodeId)
    requires AreComponents(config, nodes, now, components) && Visited(visited, components)
    requires root in nodes && nodes[root].isAlive && x in ComponentOf(config, nodes, now, root)
    ensures ComponentOf(config, nodes, now, x) == ComponentOf(config, nodes, now, root)
    ensures x in visited ==> root in visited
  {
    assert root in ComponentOf(config, nodes, now, x);
  }

  lemma ComponentLinks(config: Config, nodes: Nodes, now: int, root: NodeId)
    requires root in nodes && nodes[root].isAlive
    ensures var own := ComponentOf(config, nodes, now, root);
      && root in own
      && (forall x :: x in own && x != root ==>
        x in nodes && nodes[x].isAlive && AreNodesConnected(config, nodes, now, root, x))
      && (forall x, y :: x in own && y in nodes && nodes[y].isAlive && AreNodesConnected(config, nodes, now, x, y) ==>
        y in own)
  {
  }

  lemma NoComponents(config: Config, nodes: Nodes, now: int)
    ensures AreComponents(config, nodes, now, []) && Visited({}, [])
  {
  }

  lemma RootComponent(
      config: Config, nodes: Nodes, now: int, components: seq<seq<NodeId>>, visited: set<NodeId>, root: NodeId)
    requires AreComponents(config, nodes, now, components) && Visited(visited, components)
    requires root in nodes && nodes[root].isAlive && root !in visited
    ensures visited !! ComponentOf(config, nodes, now, root) && root in ComponentOf(config, nodes, now, root)
  {
    forall x | x in ComponentOf(config, nodes, now, root)
      ensures x !in visited
    {
      SharedComponent(config, nodes, now, components, visited, root, x);
    }
  }

  /** Two live nodes are in different components. */
  ghost predicate Splits(config: Config, nodes: Nodes, now: int)
  {
    exists a, b ::
      && a in nodes && nodes[a].isAlive && b in nodes && nodes[b].isAlive
      && a != b && !AreNodesConnected(config, nodes, now, a, b)
  }

  /** Two live nodes, and one live node not heard from for twice the heartbeat time-out. */
  lemma SplitsIff(config: Config, nodes: Nodes, now: int)
    ensures Splits(config, nodes, now) <==>
      exists a, b ::
        && a in nodes && nodes[a].isAlive && b in nodes && nodes[b].isAlive && a != b
        && now - nodes[a].lastHeartbeat >= 2 * config.heartbeatTimeout
  {
  }

  ghost predicate CoversLive(nodes: Nodes, components: seq<seq<NodeId>>)
  {
    forall x :: x in nodes && nodes[x].isAlive ==> exists c :: 0 <= c < |components| && x in components[c]
  }

  function PairedWith<T>(a: T, rest: seq<T>): (pairs: seq<(T, T)>)
    ensures |pairs| == |rest| && forall k :: 0 <= k < |rest| ==> pairs[k] == (a, rest[k])
  {
    seq(|rest|, k requires 0 <= k < |rest| => (a, rest[k]))
  }

  /** Each member with every later one. */
  function AllPairs<T>(s: seq<T>): seq<(T, T)>
  {
    if s == [] then [] else PairedWith(s[0], s[1..]) + AllPairs(s[1..])
  }

  ghost predicate InOrder<T>(s: seq<T>, a: T, b: T)
  {
    exists i, j :: 0 <= i < j < |s| && s[i] == a && s[j] == b
  }

  /** The pairs are those of an earlier and a later member, one for each choice of two places. */
  lemma {:induction false} AllPairsIff<T>(s: seq<T>, a: T, b: T)
    ensures (a, b) in AllPairs(s) <==> InOrder(s, a, b)
    ensures 2 * |AllPairs(s)| == |s| * (|s| - 1)
  {
    hide InOrder, PairedWith;
    if s == [] {
      assert !InOrder(s, a, b) by { InOrderCons(s, a, b); }
    } else {
      var rest := s[1..];
      AllPairsIff(rest, a, b);
      InOrderCons(s, a, b);
      PairedMember(s[0], rest, a, b);
      Triangle(|rest|);
    }
  }

  lemma Triangle(n: nat)
    ensures (n + 1) * n == 2 * n + n * (n - 1)
  {
  }

  lemma PairedMember<T>(x: T, rest: seq<T>, a: T, b: T)
    ensures (a, b) in PairedWith(x, rest) <==> a == x && b in rest
  {
    if a == x && b in rest {
      var k :| 0 <= k < |rest| && rest[k] == b;
      assert PairedWith(x, rest)[k] == (a, b);
    }
  }

  lemma InOrderCons<T>(s: seq<T>, a: T, b: T)
    ensures InOrder(s, a, b) <==> s != [] && ((a == s[0] && b in s[1..]) || InOrder(s[1..], a, b))
  {
    if s != [] {
      var rest := s[1..];
      assert forall i :: 0 <= i < |rest| ==> rest[i] == s[i + 1];
      if InOrder(s, a, b) {
        var i, j :| 0 <= i < j < |s| && s[i] == a && s[j] == b;
        assert rest[j - 1] == b;
        if i > 0 { assert rest[i - 1] == a; }
      }
      if a == s[0] && b in rest {
        var j :| 0 <= j < |rest| && rest[j] == b;
        assert s[j + 1] == b;
      }
      if InOrder(rest, a, b) {
        var i, j :| 0 <= i < j < |rest| && rest[i] == a && rest[j] == b;
        assert s[i + 1] == a && s[j + 1] == b;
      }
    }
  }

  lemma PairsOfRest<T>(s: seq<T>, i: nat)
    requires i < |s|
    ensures AllPairs(s[i..]) == PairedWith(s[i], s[i + 1..]) + AllPairs(s[i + 1..])
  {
    assert s[i..][1..] == s[i + 1..];
  }

  lemma AnyPairs<T>(s: seq<T>)
    ensures AllPairs(s) == [] <==> |s| <= 1
  {
    if |s| == 1 { assert s[1..] == []; }
  }

  /** The two nested loops over the components. */
  method PairsOf(components: seq<seq<NodeId>>) returns (pairs: seq<(seq<NodeId>, seq<NodeId>)>)
    ensures pairs == AllPairs(components)
  {
    hide AllPairs, PairedWith;
    pairs := [];
    ghost var all := AllPairs(components);
    assert components[0..] == components && pairs + all == all;
    for i := 0 to |components|
      invariant pairs + AllPairs(components[i..]) == all
    {
      PairsOfRest(components, i);
      var more := PairsWith(components, i);
      assert pairs + (more + AllPairs(components[i + 1..])) == (pairs + more) + AllPairs(components[i + 1..]);
      pairs := pairs + more;
    }
    AnyPairs(components[|components|..]);
    assert pairs + [] == pairs;
  }

  method PairsWith(components: seq<seq<NodeId>>, i: nat) returns (pairs: seq<(seq<NodeId>, seq<NodeId>)>)
    requires i < |components|
    ensures pairs == PairedWith(components[i], components[i + 1..])
  {
    pairs := [];
    for j := i + 1 to |components|
      invariant |pairs| == j - i - 1
      invariant forall k :: 0 <= k < |pairs| ==> pairs[k] == (components[i], components[i + 1 + k])
    {
      pairs := pairs + [(components[i], components[j])];
    }
  }

  lemma ManyComponentsIffSplit(config: Config, nodes: Nodes, now: int, components: seq<seq<NodeId>>)
    requires AreComponents(config, nodes, now, components)
    requires CoversLive(nodes, components)
    ensures |components| > 1 <==> Splits(config, nodes, now)
  {
    if |components| > 1 {
      var a, b := components[0][0], components[1][0];
      assert a in components[0] && b in components[1];
      assert b !in components[0];
      assert Lists(components[0], ComponentOf(config, nodes, now, a));
      assert b !in ComponentOf(config, nodes, now, a);
      assert a in nodes && nodes[a].isAlive && b in nodes && nodes[b].isAlive
        && a != b && !AreNodesConnected(config, nodes, now, a, b);
    }
    if Splits(config, nodes, now) {
      var a, b :|
        && a in nodes && nodes[a].isAlive && b in nodes && nodes[b].isAlive
        && a != b && !AreNodesConnected(config, nodes, now, a, b);
      var c :| 0 <= c < |components| && a in components[c];
      var d :| 0 <= d < |components| && b in components[d];
      assert Lists(components[c], ComponentOf(config, nodes, now, a));
      assert b !in ComponentOf(config, nodes, now, a);
      assert c != d;
    }
  }

  function Swept(config: Config, s: NodeStatus, now: int): NodeStatus
  {
    if !s.isIsolated && now - s.lastHeartbeat > config.heartbeatTimeout then
      var missed := s.missedHeartbeats + 1;
      s.(missedHeartbeats := missed, isAlive := s.isAlive && missed < config.maxMissedHeartbeats)
    else
      s
  }

  ghost function SweptNodes(config: Config, nodes: Nodes, now: int): Nodes
  {
    map id | id in nodes :: Swept(config, nodes[id], now)
  }

  ghost function Isolated(nodes: Nodes, ids: set<NodeId>): Nodes
  {
    map id | id in nodes :: if id in ids then nodes[id].(isIsolated := true) else nodes[id]
  }

  lemma IsolatedNone(nodes: Nodes)
    ensures Isolated(nodes, {}) == nodes
  {
  }

  /** Cutting off the minority never costs the majority its quorum: the decision taken next is the same. */
  lemma IsolationKeepsQuorum(config: Config, nodes: Nodes)
    ensures var after := Isolated(nodes, CutOff(config, nodes));
      && after.Keys == nodes.Keys && ActiveSet(after) == ActiveSet(nodes)
      && (HasQuorum(config, after) <==> HasQuorum(config, nodes))
      && CutOff(config, after) == CutOff(config, nodes)
  {
    var after := Isolated(nodes, CutOff(config, nodes));
    assert after.Keys == nodes.Keys;
    assert |after| == |after.Keys| && |nodes| == |nodes.Keys|;
    assert ActiveSet(after) == ActiveSet(nodes);
  }

  datatype SplitBrainStatus = Healthy | Confirmed

  /** `recorded`: some partition is on record. */
  datatype Detector = Detector(nodes: Nodes, isolatedNodes: set<NodeId>, recorded: bool, status: SplitBrainStatus)

  /** One round of the detection loop. */
  ghost function Round(config: Config, d: Detector, now: int): Detector
  {
    var swept := SweptNodes(config, d.nodes, now);
    var recorded := d.recorded || Splits(config, swept, now);
    if !recorded then d.(nodes := swept)
    else if !HasQuorum(config, swept) then Detector(swept, d.isolatedNodes, true, Confirmed)
    else
      var cutOff := CutOff(config, swept);
      Detector(Isolated(swept, cutOff), d.isolatedNodes + cutOff, true, d.status)
  }

  /** A node as `add_node` registers it: never heard from, at the clock's origin. */
  const NEW_NODE: NodeStatus := NodeStatus(false, false, 0, 0)

  function Added(d: Detector, id: NodeId): Detector
  {
    d.(nodes := d.nodes[id := NEW_NODE])
  }

  function Heard(d: Detector, from: NodeId, at: int): Detector
  {
    if from !in d.nodes then d
    else d.(nodes := d.nodes[from := d.nodes[from].(isAlive := true, lastHeartbeat := at, missedHeartbeats := 0)])
  }

  /**
   * Two detectors watching one membership from two sides, both under MAJORITY, both having seen a partition: if after
   * the heartbeat sweep no node counts as active on both sides, then at least one of them confirms the split.
   */
  method TwoSides(left: DefaultSplitBrainDetector, right: DefaultSplitBrainDetector, leftNow: int, rightNow: int)
    requires left != right && left.config.strategy.Majority? && right.config.strategy.Majority?
    requires left.nodes.Keys == right.nodes.Keys
    requires ActiveSet(SweptNodes(left.config, left.nodes, leftNow)) !!
      ActiveSet(SweptNodes(right.config, right.nodes, rightNow))
    modifies left`nodes, left`isolatedNodes, left`detectedPartitions, left`status
    modifies right`nodes, right`isolatedNodes, right`detectedPartitions, right`status
    ensures left.detectedPartitions != [] && right.detectedPartitions != [] ==>
      left.status == Confirmed || right.status == Confirmed
    ensures left.nodes.Keys == right.nodes.Keys && ActiveSet(left.nodes) !! ActiveSet(right.nodes)
  {
    ghost var l := SweptNodes(left.config, left.nodes, leftNow);
    ghost var r := SweptNodes(right.config, right.nodes, rightNow);
    assert l.Keys == r.Keys;
    OneMajorityView(l, r);
    IsolationKeepsQuorum(left.config, l);
    IsolationKeepsQuorum(right.config, r);
    left.DetectionRound(leftNow);
    right.DetectionRound(rightNow);
  }

  class DefaultSplitBrainDetector {
    var config: Config
    var nodes: Nodes
    /** `isolated_nodes_`: the nodes isolated through `IsolateNode`. */
    var isolatedNodes: set<NodeId>
    var detectedPartitions: seq<(seq<NodeId>, seq<NodeId>)>
    var status: SplitBrainStatus

    constructor (config: Config)
      ensures this.config == config && nodes == map[] && isolatedNodes == {}
      ensures detectedPartitions == [] && status == Healthy
    {
      this.config := config;
      nodes, isolatedNodes, detectedPartitions, status := map[], {}, [], Healthy;
    }

    ghost function View(): Detector
      reads this
    {
      Detector(nodes, isolatedNodes, detectedPartitions != [], status)
    }

    method AddNode(id: NodeId)
      modifies this`nodes
      ensures View() == Added(old(View()), id)
    {
      nodes := nodes[id := NodeStatus(false, false, 0, 0)];
    }

    method ProcessHeartbeat(from: NodeId, at: int)
      modifies this`nodes
      ensures View() == Heard(old(View()), from, at)
    {
      if from in nodes {
        nodes := nodes[from := nodes[from].(lastHeartbeat := at, isAlive := true, missedHeartbeats := 0)];
      }
    }

    /** The map is walked in an order the source does not fix. */
    method SplitActive() returns (alive: seq<NodeId>, dead: seq<NodeId>)
      ensures Lists(alive, ActiveSet(nodes)) && Lists(dead, nodes.Keys - ActiveSet(nodes))
    {
      alive, dead := [], [];
      var rest := nodes.Keys;
      while rest != {}
        invariant rest <= nodes.Keys
        invariant Lists(alive, ActiveSet(nodes) - rest) && Lists(dead, nodes.Keys - ActiveSet(nodes) - rest)
      {
        var id :| id in rest;
        ghost var active := ActiveSet(nodes);
        if nodes[id].isAlive && !nodes[id].isIsolated {
          ListsAppend(alive, active - rest, id);
          assert active - (rest - {id}) == active - rest + {id};
          assert nodes.Keys - active - (rest - {id}) == nodes.Keys - active - rest;
          alive := alive + [id];
        } else {
          ListsAppend(dead, nodes.Keys - active - rest, id);
          assert nodes.Keys - active - (rest - {id}) == nodes.Keys - active - rest + {id};
          assert active - (rest - {id}) == active - rest;
          dead := dead + [id];
        }
        rest := rest - {id};
      }
      assert ActiveSet(nodes) - {} == ActiveSet(nodes);
      assert nodes.Keys - ActiveSet(nodes) - {} == nodes.Keys - ActiveSet(nodes);
    }

    method MajorityQuorum() returns (d: QuorumDecision)
      ensures IsDecision(d, nodes, nodes.Keys - ActiveSet(nodes))
      ensures d.hasQuorum <==> HasMajority(nodes)
    {
      var alive, dead := SplitActive();
      ListsSize(alive, ActiveSet(nodes));
      var required := |nodes| / 2 + 1;
      d := QuorumDecision(|alive| >= required, alive, dead);
    }

    method CalculateQuorum() returns (d: QuorumDecision)
      ensures IsDecision(d, nodes, CutOff(config, nodes))
      ensures d.hasQuorum <==> HasQuorum(config, nodes)
    {
      if config.strategy.Majority? {
        d := MajorityQuorum();
        return;
      }
      var alive, _ := SplitActive();
      ListsSize(alive, ActiveSet(nodes));
      match config.strategy {
        case StaticQuorum =>
          d := QuorumDecision(|alive| >= config.minQuorumSize, alive, []);
        case DynamicQuorum =>
          var dynamicSize := Max(config.minQuorumSize, (|alive| + 1) / 2);
          d := QuorumDecision(|alive| >= dynamicSize, alive, []);
        case WitnessBased =>
          var aliveWitnesses := AliveWitnesses(alive);
          assert aliveWitnesses != [] ==> aliveWitnesses[0] in aliveWitnesses;
          d := QuorumDecision(aliveWitnesses != [] && |alive| >= config.minQuorumSize, alive, []);
      }
    }

    method AliveWitnesses(alive: seq<NodeId>) returns (witnesses: seq<NodeId>)
      ensures forall w :: w in witnesses <==> w in alive && w in config.witnessNodes
    {
      witnesses := [];
      for i := 0 to |alive|
        invariant forall w :: w in witnesses <==> w in alive[..i] && w in config.witnessNodes
      {
        assert alive[..i + 1] == alive[..i] + [alive[i]];
        if alive[i] in config.witnessNodes { witnesses := witnesses + [alive[i]]; }
      }
      assert alive[..|alive|] == alive;
    }

    /** One queue search from `root`. */
    method CollectComponent(root: NodeId, visited0: set<NodeId>, now: int)
      returns (component: seq<NodeId>, visited: set<NodeId>)
      requires root in nodes && nodes[root].isAlive && root !in visited0
      requires visited0 !! ComponentOf(config, nodes, now, root)
      ensures Lists(component, ComponentOf(config, nodes, now, root))
      ensures visited == visited0 + ComponentOf(config, nodes, now, root)
    {
      hide Lists, ComponentOf;
      ghost var own := ComponentOf(config, nodes, now, root);
      ComponentLinks(config, nodes, now, root);
      ListsOne(root);
      component := [];
      var queue := [root];
      visited := visited0 + {root};
      assert component + queue == [root] && visited - visited0 == {root};
      while queue != []
        invariant Lists(component + queue, visited - visited0)
        invariant visited0 + {root} <= visited <= visited0 + own
        invariant if component == [] then queue == [root] else component[0] == root && own <= visited
        decreases own - visited, |queue|
      {
        var current := queue[0];
        ghost var before := visited;
        assert component + queue == component + [current] + queue[1..];
        ListsMember(component + queue, visited - visited0, |component|);
        assert current in own;
        queue := queue[1..];
        component := component + [current];
        ghost var popped := queue;
        var rest := nodes.Keys;
        while rest != {}
          invariant rest <= nodes.Keys
          invariant before <= visited <= visited0 + own
          invariant Lists(component + queue, visited - visited0)
          invariant visited == before ==> queue == popped
          invariant forall x :: x in own && current == root && x !in rest ==> x in visited
        {
          var other :| other in rest;
          if other !in visited && nodes[other].isAlive && AreNodesConnected(config, nodes, now, current, other) {
            ListsAppend(component + queue, visited - visited0, other);
            assert component + queue + [other] == component + (queue + [other]);
            assert visited + {other} - visited0 == visited - visited0 + {other};
            queue := queue + [other];
            visited := visited + {other};
          }
          rest := rest - {other};
        }
      }
      assert component + [] == component;
      assert visited - visited0 == own;
    }

    method FindConnectedComponents(now: int) returns (components: seq<seq<NodeId>>)
      ensures AreComponents(config, nodes, now, components)
      ensures CoversLive(nodes, components)
    {
      hide AreComponents, ComponentOf, Lists;
      components := [];
      var visited: set<NodeId> := {};
      var rest := nodes.Keys;
      NoComponents(config, nodes, now);
      while rest != {}
        invariant rest <= nodes.Keys
        invariant AreComponents(config, nodes, now, components) && Visited(visited, components)
        invariant forall x :: x in nodes && nodes[x].isAlive && x !in rest ==> x in visited
      {
        var id :| id in rest;
        if id !in visited && nodes[id].isAlive {
          RootComponent(config, nodes, now, components, visited, id);
          var component, seen := CollectComponent(id, visited, now);
          AddComponent(config, nodes, now, components, visited, component, id);
          visited := seen;
          components := components + [component];
        }
        rest := rest - {id};
      }
    }

    /** `detection_loop`'s heartbeat sweep. */
    method SweepHeartbeats(now: int)
      modifies this`nodes
      ensures nodes == SweptNodes(config, old(nodes), now)
    {
      var config, before := config, nodes;
      var after, rest := before, before.Keys;
      while rest != {}
        invariant rest <= before.Keys && after.Keys == before.Keys
        invariant forall id :: id in before ==>
          after[id] == if id in rest then before[id] else Swept(config, before[id], now)
      {
        var id :| id in rest;
        var node := after[id];
        if !node.isIsolated {
          var sinceHeartbeat := now - node.lastHeartbeat;
          if sinceHeartbeat > config.heartbeatTimeout {
            node := node.(missedHeartbeats := node.missedHeartbeats + 1);
            if node.missedHeartbeats >= config.maxMissedHeartbeats { node := node.(isAlive := false); }
          }
        }
        after := after[id := node];
        rest := rest - {id};
      }
      nodes := after;
    }

    /** Every pair of components found is recorded, in order; records are never taken back here. */
    method DetectNetworkPartitions(now: int)
      modifies this`nodes, this`detectedPartitions
      ensures nodes == SweptNodes(config, old(nodes), now)
      ensures exists components: seq<seq<NodeId>> ::
        && AreComponents(config, nodes, now, components) && CoversLive(nodes, components)
        && detectedPartitions == old(detectedPartitions) + AllPairs(components)
      ensures old(detectedPartitions) < detectedPartitions <==> Splits(config, nodes, now)
    {
      hide AreComponents, CoversLive, Splits, AllPairs;
      SweepHeartbeats(now);
      var components := FindConnectedComponents(now);
      ManyComponentsIffSplit(config, nodes, now, components);
      AnyPairs(components);
      var pairs := PairsOf(components);
      detectedPartitions := detectedPartitions + pairs;
    }

    method IsolateNode(id: NodeId)
      modifies this`nodes, this`isolatedNodes
      ensures nodes == Isolated(old(nodes), {id})
      ensures isolatedNodes == old(isolatedNodes) + ({id} * old(nodes).Keys)
    {
      if id in nodes {
        nodes := nodes[id := nodes[id].(isIsolated := true)];
        isolatedNodes := isolatedNodes + {id};
      }
    }

    method IsolateNodes(list: seq<NodeId>, ghost ids: set<NodeId>)
      requires Lists(list, ids)
      modifies this`nodes, this`isolatedNodes
      ensures nodes == Isolated(old(nodes), ids)
      ensures isolatedNodes == old(isolatedNodes) + (ids * old(nodes).Keys)
    {
      hide NoDuplicates;
      IsolatedNone(nodes);
      for i := 0 to |list|
        invariant nodes == Isolated(old(nodes), Elements(list[..i]))
        invariant isolatedNodes == old(isolatedNodes) + (Elements(list[..i]) * old(nodes).Keys)
      {
        IsolateNode(list[i]);
        assert Elements(list[..i + 1]) == Elements(list[..i]) + {list[i]};
      }
      assert list[..|list|] == list && Elements(list) == ids;
    }

    /** One round of the detection loop. */
    method DetectionRound(now: int)
      modifies this`nodes, this`isolatedNodes, this`detectedPartitions, this`status
      ensures View() == Round(config, old(View()), now)
      ensures old(detectedPartitions) <= detectedPartitions
      ensures old(detectedPartitions) < detectedPartitions <==> Splits(config, SweptNodes(config, old(nodes), now), now)
    {
      hide HasQuorum, Splits, Isolated, Lists;
      DetectNetworkPartitions(now);
      ghost var swept := nodes;
      if detectedPartitions != [] {
        var d := CalculateQuorum();
        if !d.hasQuorum {
          status := Confirmed;
        } else {
          IsolateNodes(d.isolatedNodes, CutOff(config, swept));
        }
      }
    }
  }
}
