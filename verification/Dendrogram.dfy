/** Agglomerative clustering: the merge tree, what the greedy merge loop may build, and the loop itself. */
module Dendrograms {
  import opened Common
  import opened LatencyMatrices
  import opened Linkages

  /** The largest finite double, with which the scan for the closest pair starts. */
  const DBL_MAX: real := 179769313486231570814527423731704356798070567525844996598917476803157260780028538760589558632766878171540458953514382464234321326889464182768467546703537516986049910576551282076245490090389328944075868508455133942304583236903222948165808559332123347764797926204144723168738177180919299881250404026184124858368.0

  /** Fills the diagonal of the working matrix; the merge loop never reads it. */
  const INFINITE: real := DBL_MAX + 1.0

  datatype ClusterNode =
    ClusterNode(id: nat, leftChild: int, rightChild: int, mergeDistance: real, members: seq<nat>)
  {
    predicate IsLeaf() { leftChild < 0 && rightChild < 0 }

    /** The row of the working matrix a cluster lives in: that of its first member. */
    function Slot(): nat { if members == [] then 0 else members[0] }
  }

  function Leaf(i: nat): ClusterNode {
    ClusterNode(i, -1, -1, 0.0, [i])
  }

  // ----- which trees the greedy loop builds

  /** Among the first m nodes, a is nobody's child. */
  ghost predicate IsRoot(nodes: seq<ClusterNode>, m: nat, a: int) {
    0 <= a < m <= |nodes| && forall k | 0 <= k < m :: nodes[k].leftChild != a && nodes[k].rightChild != a
  }

  ghost function Roots(nodes: seq<ClusterNode>, m: nat): set<nat> {
    set a: nat | a < m && IsRoot(nodes, m, a)
  }

  /** The set-level distance of two nodes. */
  ghost function Gap(nodes: seq<ClusterNode>, d: Table, link: LinkageType, a: int, b: int): real {
    if 0 <= a < |nodes| && 0 <= b < |nodes| then LinkDist(link, d, nodes[a].members, nodes[b].members) else 0.0
  }

  /** (l, r) is a closest pair of roots; ties go to the lowest slots, read in row order. */
  ghost predicate Closest(nodes: seq<ClusterNode>, d: Table, link: LinkageType, m: nat, l: int, r: int) {
    && IsRoot(nodes, m, l) && IsRoot(nodes, m, r) && nodes[l].Slot() < nodes[r].Slot()
    && forall a, b | IsRoot(nodes, m, a) && IsRoot(nodes, m, b) && nodes[a].Slot() < nodes[b].Slot() ::
         var best, gap := Gap(nodes, d, link, l, r), Gap(nodes, d, link, a, b);
         best < gap
         || (best == gap && (nodes[l].Slot() < nodes[a].Slot()
                             || (nodes[l].Slot() == nodes[a].Slot() && nodes[r].Slot() <= nodes[b].Slot())))
  }

  /** Node i merges the closest pair of the roots before it. */
  ghost predicate MergesClosest(nodes: seq<ClusterNode>, d: Table, link: LinkageType, i: nat) {
    && i < |nodes|
    && var l, r := nodes[i].leftChild, nodes[i].rightChild;
       && Closest(nodes, d, link, i, l, r)
       && nodes[i] == ClusterNode(i, l, r, Gap(nodes, d, link, l, r), nodes[l].members + nodes[r].members)
  }

  /** A list of nodes that starts with n leaves and then only merges closest pairs. */
  ghost predicate Greedy(nodes: seq<ClusterNode>, n: nat, d: Table, link: LinkageType) {
    && n <= |nodes|
    && (forall i | 0 <= i < n :: nodes[i] == Leaf(i))
    && forall i: nat | n <= i < |nodes| :: MergesClosest(nodes, d, link, i)
  }

  /** The whole dendrogram of n nodes. */
  ghost predicate IsDendrogram(nodes: seq<ClusterNode>, n: nat, d: Table, link: LinkageType) {
    n > 0 && |nodes| == 2 * n - 1 && Greedy(nodes, n, d, link)
  }

  // ----- shape

  lemma ChildrenPrecede(nodes: seq<ClusterNode>, n: nat, d: Table, link: LinkageType, i: nat)
    requires Greedy(nodes, n, d, link) && i < |nodes|
    ensures nodes[i].id == i && nodes[i].leftChild < i && nodes[i].rightChild < i
    ensures nodes[i].IsLeaf() <==> i < n
    ensures i >= n ==> 0 <= nodes[i].leftChild && 0 <= nodes[i].rightChild && nodes[i].leftChild != nodes[i].rightChild
  {
    if i >= n {
      assert MergesClosest(nodes, d, link, i);
    }
  }

  lemma {:induction false} MembersInRange(nodes: seq<ClusterNode>, n: nat, d: Table, link: LinkageType, i: nat)
    requires Greedy(nodes, n, d, link) && i < |nodes|
    ensures nodes[i].members != [] && forall x | x in nodes[i].members :: x < n
    ensures nodes[i].Slot() in nodes[i].members
  {
    if i >= n {
      assert MergesClosest(nodes, d, link, i);
      MembersInRange(nodes, n, d, link, nodes[i].leftChild);
      MembersInRange(nodes, n, d, link, nodes[i].rightChild);
    }
  }

  /** A merge replaces two roots by one. */
  lemma RootsStep(nodes: seq<ClusterNode>, n: nat, d: Table, link: LinkageType, m: nat)
    requires Greedy(nodes, n, d, link) && n <= m < |nodes|
    ensures var l, r := nodes[m].leftChild, nodes[m].rightChild;
      0 <= l < m && 0 <= r < m && l != r && l in Roots(nodes, m) && r in Roots(nodes, m)
      && Roots(nodes, m + 1) == Roots(nodes, m) - {l, r} + {m}
  {
    assert MergesClosest(nodes, d, link, m);
    forall k: nat | k <= m
      ensures nodes[k].leftChild != m && nodes[k].rightChild != m
    {
      ChildrenPrecede(nodes, n, d, link, k);
    }
    var l, r := nodes[m].leftChild, nodes[m].rightChild;
    forall a: nat
      ensures a in Roots(nodes, m + 1) <==> a in Roots(nodes, m) - {l, r} + {m}
    {
      if a < m && IsRoot(nodes, m + 1, a) {
        assert nodes[m].leftChild != a && nodes[m].rightChild != a;
        assert IsRoot(nodes, m, a);
      }
    }
  }

  ghost predicate Apart(A: seq<nat>, B: seq<nat>) {
    forall x | x in A :: x !in B
  }

  /** Leaf x belongs to some root among the first m nodes. */
  ghost predicate Covered(nodes: seq<ClusterNode>, m: nat, x: nat) {
    exists a :: a in Roots(nodes, m) && x in nodes[a].members
  }

  ghost predicate RootsApart(nodes: seq<ClusterNode>, m: nat) {
    forall a, b | a in Roots(nodes, m) && b in Roots(nodes, m) && a != b :: Apart(nodes[a].members, nodes[b].members)
  }

  ghost predicate RootsCover(nodes: seq<ClusterNode>, m: nat, n: nat) {
    forall x: nat | x < n :: Covered(nodes, m, x)
  }

  /** At every stage of the merge loop the roots partition the leaves. */
  lemma {:induction false} RootsPartition(nodes: seq<ClusterNode>, n: nat, d: Table, link: LinkageType, m: nat)
    requires Greedy(nodes, n, d, link) && n <= m <= |nodes|
    ensures RootsCover(nodes, m, n) && RootsApart(nodes, m)
  {
    if m == n {
      RootsOfLeaves(nodes, n, d, link);
    } else {
      RootsPartition(nodes, n, d, link, m - 1);
      MergeKeepsCover(nodes, n, d, link, m - 1);
      MergeKeepsApart(nodes, n, d, link, m - 1);
    }
  }

  /** Each merge leaves one root fewer. */
  lemma {:induction false} RootCount(nodes: seq<ClusterNode>, n: nat, d: Table, link: LinkageType, m: nat)
    requires Greedy(nodes, n, d, link) && n <= m <= |nodes|
    ensures |Roots(nodes, m)| == 2 * n - m
  {
    if m == n {
      RootsOfLeaves(nodes, n, d, link);
    } else {
      RootCount(nodes, n, d, link, m - 1);
      RootsStep(nodes, n, d, link, m - 1);
      OneRootFewer(Roots(nodes, m - 1), nodes[m - 1].leftChild, nodes[m - 1].rightChild, m - 1);
    }
  }

  lemma OneRootFewer(before: set<nat>, l: nat, r: nat, m: nat)
    requires l in before && r in before && l != r && m !in before
    ensures |before - {l, r} + {m}| == |before| - 1
  {
    assert before - {l, r} == before - {l} - {r};
  }

  lemma RootsOfLeaves(nodes: seq<ClusterNode>, n: nat, d: Table, link: LinkageType)
    requires Greedy(nodes, n, d, link)
    ensures RootsCover(nodes, n, n) && RootsApart(nodes, n)
    ensures |Roots(nodes, n)| == n
  {
    assert Roots(nodes, n) == Below(n);
    forall x: nat | x < n
      ensures Covered(nodes, n, x)
    {
      assert x in Roots(nodes, n) && nodes[x] == Leaf(x);
    }
  }

  lemma MergeKeepsCover(nodes: seq<ClusterNode>, n: nat, d: Table, link: LinkageType, p: nat)
    requires Greedy(nodes, n, d, link) && n <= p < |nodes| && RootsCover(nodes, p, n)
    ensures RootsCover(nodes, p + 1, n)
  {
    RootsStep(nodes, n, d, link, p);
    assert MergesClosest(nodes, d, link, p);
    var l, r, m := nodes[p].leftChild, nodes[p].rightChild, p + 1;
    forall x: nat | x < n
      ensures Covered(nodes, m, x)
    {
      assert Covered(nodes, p, x);
      var a :| a in Roots(nodes, p) && x in nodes[a].members;
      if a == l || a == r {
        assert p in Roots(nodes, p + 1) && x in nodes[p].members;
      } else {
        assert a in Roots(nodes, p + 1);
      }
    }
  }

  lemma MergeKeepsApart(nodes: seq<ClusterNode>, n: nat, d: Table, link: LinkageType, p: nat)
    requires Greedy(nodes, n, d, link) && n <= p < |nodes| && RootsApart(nodes, p)
    ensures RootsApart(nodes, p + 1)
  {
    RootsStep(nodes, n, d, link, p);
    assert MergesClosest(nodes, d, link, p);
    var l, r := nodes[p].leftChild, nodes[p].rightChild;
    forall a, b | a in Roots(nodes, p + 1) && b in Roots(nodes, p + 1) && a != b
      ensures Apart(nodes[a].members, nodes[b].members)
    {
      var c := if a == p then b else a;
      if a == p || b == p {
        assert Apart(nodes[l].members, nodes[c].members) && Apart(nodes[r].members, nodes[c].members);
      }
    }
  }

  /** x is the least of these members. */
  ghost predicate IsLeast(x: nat, members: seq<nat>) {
    x in members && forall y | y in members :: x <= y
  }

  /** A cluster's slot is its least member. */
  lemma {:induction false} SlotIsLeast(nodes: seq<ClusterNode>, n: nat, d: Table, link: LinkageType, i: nat)
    requires Greedy(nodes, n, d, link) && i < |nodes|
    ensures IsLeast(nodes[i].Slot(), nodes[i].members)
  {
    MembersInRange(nodes, n, d, link, i);
    if i >= n {
      assert MergesClosest(nodes, d, link, i);
      var l, r := nodes[i].leftChild, nodes[i].rightChild;
      MembersInRange(nodes, n, d, link, l);
      SlotIsLeast(nodes, n, d, link, l);
      SlotIsLeast(nodes, n, d, link, r);
    }
  }

  /** Which pair is merged: no other two clusters are closer, and of several closest pairs it is the one
      whose first cluster has the least member, and then whose second cluster has; the first cluster,
      the one with the lesser least member, is the left child. */
  lemma TiesGoToLowest(nodes: seq<ClusterNode>, n: nat, d: Table, link: LinkageType, i: nat,
                       a: nat, b: nat, x: nat, y: nat) returns (p: nat, q: nat)
    requires Greedy(nodes, n, d, link) && n <= i < |nodes|
    requires IsRoot(nodes, i, a) && IsRoot(nodes, i, b)
    requires IsLeast(x, nodes[a].members) && IsLeast(y, nodes[b].members) && x < y
    ensures var l, r := nodes[i].leftChild, nodes[i].rightChild;
      && 0 <= l < i && 0 <= r < i && IsLeast(p, nodes[l].members) && IsLeast(q, nodes[r].members) && p < q
      && nodes[i].mergeDistance == LinkDist(link, d, nodes[l].members, nodes[r].members)
      && nodes[i].mergeDistance <= LinkDist(link, d, nodes[a].members, nodes[b].members)
      && (nodes[i].mergeDistance == LinkDist(link, d, nodes[a].members, nodes[b].members) ==>
            p < x || (p == x && q <= y))
  {
    assert MergesClosest(nodes, d, link, i);
    var l, r := nodes[i].leftChild, nodes[i].rightChild;
    SlotIsLeast(nodes, n, d, link, a);
    SlotIsLeast(nodes, n, d, link, b);
    SlotIsLeast(nodes, n, d, link, l);
    SlotIsLeast(nodes, n, d, link, r);
    p, q := nodes[l].Slot(), nodes[r].Slot();
    assert nodes[a].Slot() == x && nodes[b].Slot() == y;
  }

  /** Distinct roots sit in distinct slots. */
  lemma RootsHaveOwnSlots(nodes: seq<ClusterNode>, n: nat, d: Table, link: LinkageType, m: nat, a: nat, b: nat)
    requires Greedy(nodes, n, d, link) && n <= m <= |nodes|
    requires IsRoot(nodes, m, a) && IsRoot(nodes, m, b)
    ensures nodes[a].Slot() == nodes[b].Slot() ==> a == b
  {
    RootsPartition(nodes, n, d, link, m);
    MembersInRange(nodes, n, d, link, a);
    MembersInRange(nodes, n, d, link, b);
    assert a in Roots(nodes, m) && b in Roots(nodes, m);
  }

  /** s lists exactly the numbers below n, in some order. */
  ghost predicate ListsBelow(s: seq<nat>, n: nat) {
    forall x: nat :: x in s <==> x < n
  }

  lemma LastIsRoot(nodes: seq<ClusterNode>, n: nat, d: Table, link: LinkageType)
    requires IsDendrogram(nodes, n, d, link)
    ensures Roots(nodes, |nodes|) == {|nodes| - 1}
  {
    var m := |nodes|;
    RootCount(nodes, n, d, link, m);
    forall k: nat | k < m
      ensures nodes[k].leftChild != m - 1 && nodes[k].rightChild != m - 1
    {
      ChildrenPrecede(nodes, n, d, link, k);
    }
    assert m - 1 in Roots(nodes, m);
    assert |Roots(nodes, m) - {m - 1}| == 0;
  }

  /** The last node is the only root and contains every leaf. */
  lemma RootContainsAll(nodes: seq<ClusterNode>, n: nat, d: Table, link: LinkageType)
    requires IsDendrogram(nodes, n, d, link)
    ensures ListsBelow(nodes[|nodes| - 1].members, n)
  {
    LastIsRoot(nodes, n, d, link);
    RootsPartition(nodes, n, d, link, |nodes|);
    MembersInRange(nodes, n, d, link, |nodes| - 1);
    var all := nodes[|nodes| - 1].members;
    forall x: nat | x < n
      ensures x in all
    {
      assert Covered(nodes, |nodes|, x);
    }
  }

  /** The two halves of a merge share no member. */
  lemma HalvesApart(nodes: seq<ClusterNode>, n: nat, d: Table, link: LinkageType, i: nat)
    requires Greedy(nodes, n, d, link) && n <= i < |nodes|
    ensures var l, r := nodes[i].leftChild, nodes[i].rightChild;
      0 <= l < i && 0 <= r < i && Apart(nodes[l].members, nodes[r].members)
  {
    RootsStep(nodes, n, d, link, i);
    RootsPartition(nodes, n, d, link, i);
  }

  // ----- the tree is determined by the distances

  lemma IsRootLocal(nodes: seq<ClusterNode>, nodes': seq<ClusterNode>, m: nat, a: int)
    requires m <= |nodes| && m <= |nodes'| && nodes[..m] == nodes'[..m]
    ensures IsRoot(nodes, m, a) <==> IsRoot(nodes', m, a)
  {
    assert forall k | 0 <= k < m :: nodes[k] == nodes[..m][k] == nodes'[..m][k] == nodes'[k];
  }

  lemma ClosestLocal(nodes: seq<ClusterNode>, nodes': seq<ClusterNode>, d: Table, link: LinkageType, m: nat, l: int,
                     r: int)
    requires m <= |nodes| && m <= |nodes'| && nodes[..m] == nodes'[..m]
    requires Closest(nodes, d, link, m, l, r)
    ensures Closest(nodes', d, link, m, l, r)
  {
    assert forall k | 0 <= k < m :: nodes[k] == nodes[..m][k] == nodes'[..m][k] == nodes'[k];
    forall a
      ensures IsRoot(nodes, m, a) <==> IsRoot(nodes', m, a)
    {
      IsRootLocal(nodes, nodes', m, a);
    }
  }

  lemma ClosestUnique(nodes: seq<ClusterNode>, n: nat, d: Table, link: LinkageType, m: nat, l: int, r: int, l': int,
                      r': int)
    requires Greedy(nodes, n, d, link) && n <= m <= |nodes|
    requires Closest(nodes, d, link, m, l, r) && Closest(nodes, d, link, m, l', r')
    ensures l == l' && r == r'
  {
    RootsHaveOwnSlots(nodes, n, d, link, m, l, l');
    RootsHaveOwnSlots(nodes, n, d, link, m, r, r');
  }

  /** Two greedy builds over the same distances agree node by node: clustering the same matrix a
      second time gives the same dendrogram. */
  lemma {:induction false} GreedyIsDeterministic(nodes: seq<ClusterNode>, nodes': seq<ClusterNode>,
                                                 n: nat, d: Table, link: LinkageType, m: nat)
    requires Greedy(nodes, n, d, link) && Greedy(nodes', n, d, link)
    requires n <= m && m <= |nodes| && m <= |nodes'|
    ensures nodes[..m] == nodes'[..m]
  {
    if m == n {
      assert forall i | 0 <= i < n :: nodes[i] == Leaf(i) == nodes'[i];
    } else {
      var p := m - 1;
      GreedyIsDeterministic(nodes, nodes', n, d, link, p);
      assert MergesClosest(nodes, d, link, p) && MergesClosest(nodes', d, link, p);
      var l, r := nodes[p].leftChild, nodes[p].rightChild;
      ClosestLocal(nodes', nodes, d, link, p, nodes'[p].leftChild, nodes'[p].rightChild);
      ClosestUnique(nodes, n, d, link, p, l, r, nodes'[p].leftChild, nodes'[p].rightChild);
      assert nodes[l] == nodes[..p][l] == nodes'[..p][l] == nodes'[l];
      assert nodes[r] == nodes[..p][r] == nodes'[..p][r] == nodes'[r];
      assert nodes[..m] == nodes[..p] + [nodes[p]];
      assert nodes'[..m] == nodes'[..p] + [nodes'[p]];
    }
  }

  lemma DendrogramIsUnique(nodes: seq<ClusterNode>, nodes': seq<ClusterNode>, n: nat, d: Table, link: LinkageType)
    requires IsDendrogram(nodes, n, d, link) && IsDendrogram(nodes', n, d, link)
    ensures nodes == nodes'
  {
    GreedyIsDeterministic(nodes, nodes', n, d, link, |nodes|);
    assert nodes == nodes[..|nodes|] && nodes' == nodes'[..|nodes|];
  }

  /** Appending the merge of a closest pair keeps the list greedy. */
  lemma GreedyStep(nodes: seq<ClusterNode>, n: nat, d: Table, link: LinkageType, l: nat, r: nat)
    requires Greedy(nodes, n, d, link) && Closest(nodes, d, link, |nodes|, l, r)
    ensures Greedy(nodes + [ClusterNode(|nodes|, l, r, Gap(nodes, d, link, l, r), nodes[l].members + nodes[r].members)],
                   n, d, link)
  {
    var node := ClusterNode(|nodes|, l, r, Gap(nodes, d, link, l, r), nodes[l].members + nodes[r].members);
    var nodes' := nodes + [node];
    forall i: nat | n <= i < |nodes'|
      ensures MergesClosest(nodes', d, link, i)
    {
      assert nodes[..i] == nodes'[..i];
      if i < |nodes| {
        assert MergesClosest(nodes, d, link, i);
        ClosestLocal(nodes, nodes', d, link, i, nodes[i].leftChild, nodes[i].rightChild);
      } else {
        ClosestLocal(nodes, nodes', d, link, i, l, r);
      }
    }
  }
}
