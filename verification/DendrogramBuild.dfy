/** The merge loop over a mutable distance matrix, and the cut of a finished tree. */
module DendrogramBuild {
  import opened LatencyMatrices
  import opened Linkages
  import opened Dendrograms

  // ----- the working matrix

  /** (i, j) is an active pair that comes first among the closest active pairs. */
  ghost predicate FirstClosest(dist: array2<real>, active: array<bool>, i: nat, j: nat)
    requires dist.Length0 == dist.Length1 == active.Length
    reads dist, active
  {
    && i < j < active.Length && active[i] && active[j]
    && forall a, b | 0 <= a < b < active.Length && active[a] && active[b] ::
         dist[i, j] < dist[a, b] || (dist[i, j] == dist[a, b] && (i < a || (i == a && j <= b)))
  }

  /** The double scan for the closest pair of active clusters. */
  method FindClosest(dist: array2<real>, active: array<bool>) returns (minDist: real, bestI: nat, bestJ: nat)
    requires dist.Length0 == dist.Length1 == active.Length
    requires forall a, b | 0 <= a < b < active.Length && active[a] && active[b] :: dist[a, b] < DBL_MAX
    requires exists a, b :: 0 <= a < b < active.Length && active[a] && active[b]
    ensures FirstClosest(dist, active, bestI, bestJ)
    ensures bestI < bestJ < active.Length && active[bestI] && active[bestJ] && minDist == dist[bestI, bestJ]
    ensures forall a, b | 0 <= a < b < active.Length && active[a] && active[b] :: minDist <= dist[a, b]
    ensures forall a, b | 0 <= a < b < active.Length && active[a] && active[b] && dist[a, b] == minDist ::
      bestI < a || (bestI == a && bestJ <= b)
  {
    var n := active.Length;
    minDist, bestI, bestJ := DBL_MAX, 0, 0;
    for i := 0 to n
      invariant minDist <= DBL_MAX
      invariant minDist < DBL_MAX ==>
        bestI < i && bestI < bestJ < n && active[bestI] && active[bestJ] && minDist == dist[bestI, bestJ]
      invariant forall a, b | 0 <= a < i && a < b < n && active[a] && active[b] ::
        minDist < dist[a, b] || (minDist == dist[a, b] && (bestI < a || (bestI == a && bestJ <= b)))
    {
      if !active[i] { continue; }
      for j := i + 1 to n
        invariant minDist <= DBL_MAX
        invariant minDist < DBL_MAX ==>
          bestI <= i && bestI < bestJ < n && active[bestI] && active[bestJ] && minDist == dist[bestI, bestJ]
        invariant minDist < DBL_MAX && bestI == i ==> bestJ < j
        invariant forall a, b | 0 <= a < b < n && (a < i || (a == i && b < j)) && active[a] && active[b] ::
          minDist < dist[a, b] || (minDist == dist[a, b] && (bestI < a || (bestI == a && bestJ <= b)))
      {
        if !active[j] { continue; }
        var d := dist[i, j];
        if d < minDist {
          minDist, bestI, bestJ := d, i, j;
        }
      }
    }
  }

  /** Row and column i take the distances of the cluster merged from slots i and j. */
  method MergeRows(dist: array2<real>, active: array<bool>, link: LinkageType, i: nat, j: nat, si: nat, sj: nat)
    requires dist.Length0 == dist.Length1 == active.Length
    requires i < j < active.Length && si + sj > 0
    modifies dist
    ensures forall a, b | 0 <= a < active.Length && 0 <= b < active.Length ::
      dist[a, b] == if a == i && b != i && b != j && active[b]
                         then Update(link, si, sj, old(dist[i, b]), old(dist[j, b]))
                    else if b == i && a != i && a != j && active[a]
                         then Update(link, si, sj, old(dist[i, a]), old(dist[j, a]))
                    else old(dist[a, b])
  {
    for k := 0 to active.Length
      invariant forall a, b | 0 <= a < active.Length && 0 <= b < active.Length ::
        dist[a, b] == if a == i && b < k && b != i && b != j && active[b]
                           then Update(link, si, sj, old(dist[i, b]), old(dist[j, b]))
                      else if b == i && a < k && a != i && a != j && active[a]
                           then Update(link, si, sj, old(dist[i, a]), old(dist[j, a]))
                      else old(dist[a, b])
    {
      if !active[k] || k == i || k == j { continue; }
      var newDist := Update(link, si, sj, dist[i, k], dist[j, k]);
      dist[i, k] := newDist;
      dist[k, i] := newDist;
    }
  }

  // ----- the loop's bookkeeping

  /** Slots and roots correspond: slot i is active iff it holds a root, whose first member is i. */
  ghost predicate SlotsHoldRoots(nodes: seq<ClusterNode>, active: seq<bool>, index: seq<nat>) {
    && |active| == |index|
    && (forall i | 0 <= i < |active| && active[i] :: IsRoot(nodes, |nodes|, index[i]) && nodes[index[i]].Slot() == i)
    && forall a: nat | IsRoot(nodes, |nodes|, a) ::
         nodes[a].Slot() < |active| && active[nodes[a].Slot()] && index[nodes[a].Slot()] == a
  }

  /** Every cached entry of two active slots is the set-level distance of their clusters. */
  ghost predicate CacheAgrees(nodes: seq<ClusterNode>, d: Table, link: LinkageType,
                              dist: array2<real>, active: seq<bool>, index: seq<nat>)
    requires dist.Length0 == dist.Length1 == |active| == |index|
    reads dist
  {
    forall i, j | 0 <= i < |active| && 0 <= j < |active| && i != j && active[i] && active[j] ::
      dist[i, j] == Gap(nodes, d, link, index[i], index[j]) && dist[i, j] < DBL_MAX
  }

  /** The pair found in the matrix is a closest pair of roots. */
  lemma ScanFindsClosest(nodes: seq<ClusterNode>, d: Table, link: LinkageType,
                         dist: array2<real>, active: array<bool>, index: seq<nat>, i: nat, j: nat)
    requires dist.Length0 == dist.Length1 == active.Length == |index|
    requires SlotsHoldRoots(nodes, active[..], index) && CacheAgrees(nodes, d, link, dist, active[..], index)
    requires FirstClosest(dist, active, i, j)
    ensures Closest(nodes, d, link, |nodes|, index[i], index[j])
    ensures dist[i, j] == Gap(nodes, d, link, index[i], index[j])
  {
    var m, act := |nodes|, active[..];
    assert act[i] && act[j];
    forall a, b | IsRoot(nodes, m, a) && IsRoot(nodes, m, b) && nodes[a].Slot() < nodes[b].Slot()
      ensures var best, gap := Gap(nodes, d, link, index[i], index[j]), Gap(nodes, d, link, a, b);
        best < gap || (best == gap && (i < nodes[a].Slot() || (i == nodes[a].Slot() && j <= nodes[b].Slot())))
    {
      var p, q := nodes[a].Slot(), nodes[b].Slot();
      assert act[p] && act[q] && index[p] == a && index[q] == b;
      assert active[p] && active[q];
    }
  }

  lemma TwoActive(nodes: seq<ClusterNode>, n: nat, d: Table, link: LinkageType, active: seq<bool>, index: seq<nat>)
    requires Greedy(nodes, n, d, link) && |nodes| < 2 * n - 1 && SlotsHoldRoots(nodes, active, index)
    ensures exists a, b :: 0 <= a < b < |active| && active[a] && active[b]
  {
    var m := |nodes|;
    RootCount(nodes, n, d, link, m);
    var a :| a in Roots(nodes, m);
    assert |Roots(nodes, m) - {a}| >= 1;
    var b :| b in Roots(nodes, m) - {a};
    RootsHaveOwnSlots(nodes, n, d, link, m, a, b);
    var p, q := nodes[a].Slot(), nodes[b].Slot();
    assert active[p] && active[q];
    assert p < q || q < p;
  }

  function Merged(nodes: seq<ClusterNode>, l: nat, r: nat, dist: real): ClusterNode
    requires l < |nodes| && r < |nodes|
  {
    ClusterNode(|nodes|, l, r, dist, nodes[l].members + nodes[r].members)
  }

  lemma HasLeaves(nodes: seq<ClusterNode>, n: nat, d: Table, link: LinkageType)
    requires Greedy(nodes, n, d, link)
    ensures n <= |nodes|
  {
  }

  lemma MergeKeepsSlots(nodes: seq<ClusterNode>, n: nat, d: Table, link: LinkageType,
                        active: seq<bool>, index: seq<nat>, i: nat, j: nat, nodes': seq<ClusterNode>)
    requires Greedy(nodes, n, d, link) && SlotsHoldRoots(nodes, active, index)
    requires i < j < |active| && active[i] && active[j]
    requires Closest(nodes, d, link, |nodes|, index[i], index[j])
    requires nodes' == nodes + [Merged(nodes, index[i], index[j], Gap(nodes, d, link, index[i], index[j]))]
    ensures Greedy(nodes', n, d, link)
    ensures SlotsHoldRoots(nodes', active[j := false], index[i := |nodes|])
  {
    hide Closest, Greedy, Gap;
    HasLeaves(nodes, n, d, link);
    var m, l, r := |nodes|, index[i], index[j];
    GreedyStep(nodes, n, d, link, l, r);
    RootsStep(nodes', n, d, link, m);
    forall a
      ensures IsRoot(nodes, m, a) <==> IsRoot(nodes', m, a)
    {
      assert nodes'[..m] == nodes[..m];
      IsRootLocal(nodes, nodes', m, a);
    }
    MembersInRange(nodes, n, d, link, l);
    assert nodes'[m].Slot() == i;
    assert nodes'[m].leftChild == l && nodes'[m].rightChild == r;
    forall a: nat
      ensures IsRoot(nodes', m + 1, a) <==> a == m || (IsRoot(nodes, m, a) && a != l && a != r)
    {
      assert a in Roots(nodes', m + 1) <==> a in Roots(nodes', m) - {l, r} + {m};
    }
  }

  /** After the rows are merged the cache agrees with the new tree. */
  method MergeCache(ghost nodes: seq<ClusterNode>, ghost n: nat, ghost d: Table, link: LinkageType, dist: array2<real>,
                    active: array<bool>, ghost index: seq<nat>,
                    i: nat, j: nat, si: nat, sj: nat, ghost nodes': seq<ClusterNode>)
    requires dist.Length0 == dist.Length1 == active.Length == |index|
    requires Symmetric(d) && Greedy(nodes, n, d, link) && SlotsHoldRoots(nodes, active[..], index)
    requires i < j < active.Length && active[i] && active[j]
    requires active[..][i] && active[..][j] && si == |nodes[index[i]].members| && sj == |nodes[index[j]].members|
    requires CacheAgrees(nodes, d, link, dist, active[..], index)
    requires nodes' == nodes + [Merged(nodes, index[i], index[j], Gap(nodes, d, link, index[i], index[j]))]
    modifies dist
    ensures CacheAgrees(nodes', d, link, dist, active[..][j := false], index[i := |nodes|])
  {
    ghost var m: nat := |nodes|;
    ghost var act: seq<bool>, index': seq<nat> := active[..][j := false], index[i := m];
    ghost var A, B := nodes[index[i]].members, nodes[index[j]].members;
    MembersInRange(nodes, n, d, link, index[i]);
    MembersInRange(nodes, n, d, link, index[j]);
    MergeRows(dist, active, link, i, j, si, sj);
    forall k | 0 <= k < |act| && act[k] && k != i
      ensures dist[i, k] == dist[k, i] == Gap(nodes', d, link, |nodes|, index[k])
        == Gap(nodes', d, link, index[k], |nodes|)
      ensures dist[i, k] < DBL_MAX
    {
      var C := nodes[index[k]].members;
      MembersInRange(nodes, n, d, link, index[k]);
      UpdateIsExact(link, d, A, B, C);
      LinkDistSymmetric(link, d, A + B, C);
      UpdateKeepsUpperBound(link, |A|, |B|, old(dist[i, k]), old(dist[j, k]), DBL_MAX);
    }
    forall a, b | 0 <= a < |act| && 0 <= b < |act| && a != b && act[a] && act[b]
      ensures dist[a, b] == Gap(nodes', d, link, index'[a], index'[b]) && dist[a, b] < DBL_MAX
    {
      if a != i && b != i {
        assert index'[a] == index[a] && index'[b] == index[b];
        assert old(dist[a, b]) == Gap(nodes, d, link, index[a], index[b]);
      }
    }
  }

  method InitialMatrix(latencies: LatencyMatrix) returns (dist: array2<real>)
    requires latencies.Valid()
    ensures fresh(dist) && dist.Length0 == dist.Length1 == latencies.numNodes
    ensures forall i, j | 0 <= i < latencies.numNodes && 0 <= j < latencies.numNodes && i != j ::
      dist[i, j] == At(latencies.Table(), i, j)
  {
    var n := latencies.numNodes;
    dist := new real[n, n];
    for i := 0 to n
      invariant forall a, b | 0 <= a < i && 0 <= b < n && a != b :: dist[a, b] == At(latencies.Table(), a, b)
    {
      for j := 0 to n
        invariant forall a, b | 0 <= a < n && 0 <= b < n && a != b && (a < i || (a == i && b < j)) ::
          dist[a, b] == At(latencies.Table(), a, b)
      {
        dist[i, j] := if i == j then INFINITE else latencies.Distance(i, j);
      }
    }
  }

  /** Before the first merge every leaf is a root in its own slot and the cache is the input. */
  lemma LeavesStart(nodes: seq<ClusterNode>, n: nat, d: Table, link: LinkageType,
                    dist: array2<real>, active: seq<bool>, index: seq<nat>)
    requires dist.Length0 == dist.Length1 == |active| == |index| == n == |nodes|
    requires Symmetric(d) && forall i, j | 0 <= i < j < n :: At(d, i, j) < DBL_MAX
    requires forall i | 0 <= i < n :: nodes[i] == Leaf(i) && active[i] && index[i] == i
    requires forall i, j | 0 <= i < n && 0 <= j < n && i != j :: dist[i, j] == At(d, i, j)
    ensures Greedy(nodes, n, d, link) && SlotsHoldRoots(nodes, active, index)
    ensures CacheAgrees(nodes, d, link, dist, active, index)
  {
    forall i: nat, j: nat | i < n && j < n && i != j
      ensures Gap(nodes, d, link, i, j) == At(d, i, j) == At(d, j, i)
    {
      assert nodes[i] == Leaf(i) && nodes[j] == Leaf(j);
    }
  }

  // ----- cutting a tree

  /** The clusters of the subtree at node i when merges above threshold t are undone. */
  function Cut(nodes: seq<ClusterNode>, i: nat, t: real): seq<seq<nat>> {
    if i >= |nodes| then []
    else
      var node := nodes[i];
      if 0 <= node.leftChild < i && 0 <= node.rightChild < i && node.mergeDistance > t
      then Cut(nodes, node.leftChild, t) + Cut(nodes, node.rightChild, t)
      else [node.members]
  }

  function Flatten(lists: seq<seq<nat>>): seq<nat> {
    if lists == [] then [] else lists[0] + Flatten(lists[1..])
  }

  lemma {:induction false} FlattenAppend(a: seq<seq<nat>>, b: seq<seq<nat>>)
    ensures Flatten(a + b) == Flatten(a) + Flatten(b)
  {
    if a == [] {
      assert a + b == b;
    } else {
      assert (a + b)[1..] == a[1..] + b;
      FlattenAppend(a[1..], b);
    }
  }

  /** A cut splits a cluster's member list into consecutive pieces, in order; the first piece has its
      first member. */
  lemma {:induction false} CutKeepsOrder(nodes: seq<ClusterNode>, n: nat, d: Table, link: LinkageType, i: nat, t: real)
    requires Greedy(nodes, n, d, link) && i < |nodes|
    ensures Flatten(Cut(nodes, i, t)) == nodes[i].members
    ensures Cut(nodes, i, t) != [] && Cut(nodes, i, t)[0] != [] && Cut(nodes, i, t)[0][0] == nodes[i].members[0]
  {
    MembersInRange(nodes, n, d, link, i);
    if i >= n && nodes[i].mergeDistance > t {
      assert MergesClosest(nodes, d, link, i);
      var l, r := nodes[i].leftChild, nodes[i].rightChild;
      CutKeepsOrder(nodes, n, d, link, l, t);
      CutKeepsOrder(nodes, n, d, link, r, t);
      MembersInRange(nodes, n, d, link, l);
      FlattenAppend(Cut(nodes, l, t), Cut(nodes, r, t));
    } else {
      assert Cut(nodes, i, t) == [nodes[i].members];
      assert [nodes[i].members][1..] == [];
    }
  }

  class Dendrogram {
    var nodes: seq<ClusterNode>
    var numLeaves: nat

    constructor ()
      ensures nodes == [] && numLeaves == 0
    {
      nodes, numLeaves := [], 0;
    }

    function RootIndex(): nat
      reads this
    {
      if nodes == [] then 0 else |nodes| - 1
    }

    /** Children come before their parents, which is what keeps the traversal finite. */
    ghost predicate Valid()
      reads this
    {
      forall i | 0 <= i < |nodes| ::
        nodes[i].leftChild < i && nodes[i].rightChild < i
        && (nodes[i].leftChild < 0 <==> nodes[i].rightChild < 0)
    }

    static method Build(latencies: LatencyMatrix, link: LinkageType) returns (result: Dendrogram)
      requires latencies.Valid()
      requires forall i, j | 0 <= i < j < latencies.numNodes :: At(latencies.Table(), i, j) < DBL_MAX
      ensures fresh(result) && result.Valid() && result.numLeaves == latencies.numNodes
      ensures latencies.numNodes == 0 ==> result.nodes == []
      ensures latencies.numNodes > 0 ==> IsDendrogram(result.nodes, latencies.numNodes, latencies.Table(), link)
    {
      result := new Dendrogram();
      var n := latencies.numNodes;
      ghost var d := latencies.Table();
      if n == 0 {
        return;
      }
      result.numLeaves := n;
      for i := 0 to n
        invariant |result.nodes| == i && result.numLeaves == n
        invariant forall k | 0 <= k < i :: result.nodes[k] == Leaf(k)
      {
        result.nodes := result.nodes + [ClusterNode(i, -1, -1, 0.0, [i])];
      }
      if n == 1 {
        return;
      }
      var dist := InitialMatrix(latencies);
      var active := new bool[n](_ => true);
      var index := new nat[n](i => i);
      LeavesStart(result.nodes, n, d, link, dist, active[..], index[..]);
      for merge := 0 to n - 1
        invariant |result.nodes| == n + merge && result.numLeaves == n
        invariant Greedy(result.nodes, n, d, link)
        invariant SlotsHoldRoots(result.nodes, active[..], index[..])
        invariant CacheAgrees(result.nodes, d, link, dist, active[..], index[..])
      {
        result.MergeOnce(n, d, link, dist, active, index);
      }
      forall i: nat | i < |result.nodes|
        ensures result.nodes[i].leftChild < i && result.nodes[i].rightChild < i
          && (result.nodes[i].leftChild < 0 <==> result.nodes[i].rightChild < 0)
      {
        ChildrenPrecede(result.nodes, n, d, link, i);
      }
    }

    /** One round of the merge loop: the closest pair becomes a new node, the matrix takes the new
        cluster's distances in slot bestI, and slot bestJ is retired. */
    method MergeOnce(n: nat, ghost d: Table, link: LinkageType, dist: array2<real>, active: array<bool>,
                     index: array<nat>)
      requires dist.Length0 == dist.Length1 == active.Length == index.Length == n
      requires Symmetric(d) && Greedy(nodes, n, d, link) && |nodes| < 2 * n - 1
      requires SlotsHoldRoots(nodes, active[..], index[..]) && CacheAgrees(nodes, d, link, dist, active[..], index[..])
      modifies this`nodes, dist, active, index
      ensures |nodes| == old(|nodes|) + 1 && nodes[..old(|nodes|)] == old(nodes) && Greedy(nodes, n, d, link)
      ensures SlotsHoldRoots(nodes, active[..], index[..]) && CacheAgrees(nodes, d, link, dist, active[..], index[..])
    {
      hide Greedy, Closest, Gap, FirstClosest;
      ghost var act, idx: seq<nat> := active[..], index[..];
      ghost var m: nat := |nodes|;
      TwoActive(nodes, n, d, link, act, idx);
      assert forall a | 0 <= a < n :: act[a] == active[a];
      var minDist, bestI, bestJ := FindClosest(dist, active);
      ScanFindsClosest(nodes, d, link, dist, active, idx, bestI, bestJ);
      var l, r := index[bestI], index[bestJ];
      var internal := Merged(nodes, l, r, minDist);
      MergeKeepsSlots(nodes, n, d, link, act, idx, bestI, bestJ, nodes + [internal]);
      MembersInRange(nodes, n, d, link, l);
      MergeCache(nodes, n, d, link, dist, active, idx, bestI, bestJ,
                 |nodes[l].members|, |nodes[r].members|, nodes + [internal]);
      active[bestJ] := false;
      index[bestI] := |nodes|;
      nodes := nodes + [internal];
      assert active[..] == act[bestJ := false] && index[..] == idx[bestI := m];
    }

    /** Clusters at a threshold, in traversal order. */
    method CutAtThreshold(threshold: real) returns (clusters: seq<seq<nat>>)
      requires Valid()
      ensures clusters == if nodes == [] then [] else Cut(nodes, |nodes| - 1, threshold)
    {
      if nodes == [] {
        return [];
      }
      clusters := CollectCluster(RootIndex(), threshold, []);
    }

    /** Appends the clusters under a node to those found so far. */
    method CollectCluster(nodeIdx: nat, threshold: real, found: seq<seq<nat>>) returns (clusters: seq<seq<nat>>)
      requires Valid() && nodeIdx < |nodes|
      ensures clusters == found + Cut(nodes, nodeIdx, threshold)
      decreases nodeIdx
    {
      var node := nodes[nodeIdx];
      if node.IsLeaf() {
        clusters := found + [node.members];
      } else if node.mergeDistance > threshold {
        clusters := CollectCluster(node.leftChild, threshold, found);
        clusters := CollectCluster(node.rightChild, threshold, clusters);
      } else {
        clusters := found + [node.members];
      }
    }

    method MaxDistance() returns (r: real)
      ensures r == RootDistance(nodes)
    {
      if nodes == [] {
        return 0.0;
      }
      r := nodes[RootIndex()].mergeDistance;
    }
  }

  /** The distance of the last merge. */
  function RootDistance(nodes: seq<ClusterNode>): real {
    if nodes == [] then 0.0 else nodes[|nodes| - 1].mergeDistance
  }
}
