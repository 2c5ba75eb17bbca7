/** What the clustering guarantees, proved of every tree the greedy loop can build. */
module DendrogramTheorems {
  import opened LatencyMatrices
  import opened Linkages
  import opened Dendrograms
  import opened DendrogramBuild

  // ----- merge distances never decrease

  lemma GapSymmetric(nodes: seq<ClusterNode>, d: Table, link: LinkageType, a: int, b: int)
    requires Symmetric(d)
    ensures Gap(nodes, d, link, a, b) == Gap(nodes, d, link, b, a)
  {
    if 0 <= a < |nodes| && 0 <= b < |nodes| {
      LinkDistSymmetric(link, d, nodes[a].members, nodes[b].members);
    }
  }

  /** No two roots are closer than the pair that is merged, in whichever order they are named. */
  lemma MergedPairIsClosest(nodes: seq<ClusterNode>, n: nat, d: Table, link: LinkageType, m: nat, a: nat, b: nat)
    requires Symmetric(d) && Greedy(nodes, n, d, link) && n <= m < |nodes|
    requires IsRoot(nodes, m, a) && IsRoot(nodes, m, b) && a != b
    ensures nodes[m].mergeDistance <= Gap(nodes, d, link, a, b)
  {
    assert MergesClosest(nodes, d, link, m);
    GapSymmetric(nodes, d, link, a, b);
    RootsHaveOwnSlots(nodes, n, d, link, m, a, b);
  }

  lemma NextMergeNotCloser(nodes: seq<ClusterNode>, n: nat, d: Table, link: LinkageType, i: nat)
    requires Symmetric(d) && Greedy(nodes, n, d, link) && n <= i < |nodes| - 1
    ensures nodes[i].mergeDistance <= nodes[i + 1].mergeDistance
  {
    assert MergesClosest(nodes, d, link, i) && MergesClosest(nodes, d, link, i + 1);
    RootsStep(nodes, n, d, link, i);
    RootsStep(nodes, n, d, link, i + 1);
    var a, b := nodes[i + 1].leftChild, nodes[i + 1].rightChild;
    assert a in Roots(nodes, i + 1) && b in Roots(nodes, i + 1);
    if a == i {
      MergedNotCloser(nodes, n, d, link, i, b);
    } else if b == i {
      MergedNotCloser(nodes, n, d, link, i, a);
      GapSymmetric(nodes, d, link, a, b);
    } else {
      MergedPairIsClosest(nodes, n, d, link, i, a, b);
    }
  }

  lemma MergedNotCloser(nodes: seq<ClusterNode>, n: nat, d: Table, link: LinkageType, i: nat, c: nat)
    requires Symmetric(d) && Greedy(nodes, n, d, link) && n <= i < |nodes|
    requires IsRoot(nodes, i, c) && c != nodes[i].leftChild && c != nodes[i].rightChild
    ensures nodes[i].mergeDistance <= Gap(nodes, d, link, i, c)
  {
    assert MergesClosest(nodes, d, link, i);
    var l, r := nodes[i].leftChild, nodes[i].rightChild;
    MergedPairIsClosest(nodes, n, d, link, i, l, c);
    MergedPairIsClosest(nodes, n, d, link, i, r, c);
    MembersInRange(nodes, n, d, link, l);
    MembersInRange(nodes, n, d, link, r);
    MembersInRange(nodes, n, d, link, c);
    var A, B := nodes[l].members, nodes[r].members;
    UpdateIsExact(link, d, A, B, nodes[c].members);
    UpdateKeepsLowerBound(link, |A|, |B|, Gap(nodes, d, link, l, c), Gap(nodes, d, link, r, c), nodes[i].mergeDistance);
  }

  /** Merge distances never decrease, for all three linkages: no inversions. */
  lemma {:induction false} MergeDistancesAscend(nodes: seq<ClusterNode>, n: nat, d: Table, link: LinkageType, i: nat,
                                                j: nat)
    requires Symmetric(d) && Greedy(nodes, n, d, link) && n <= i <= j < |nodes|
    ensures nodes[i].mergeDistance <= nodes[j].mergeDistance
    decreases j - i
  {
    if i < j {
      NextMergeNotCloser(nodes, n, d, link, i);
      MergeDistancesAscend(nodes, n, d, link, i + 1, j);
    }
  }

  /** The distance of the last merge is the largest of all merge distances (of leaves too, whose
      distance is zero, unless it is negative). */
  lemma RootDistanceIsLargest(nodes: seq<ClusterNode>, n: nat, d: Table, link: LinkageType)
    requires Symmetric(d) && IsDendrogram(nodes, n, d, link)
    ensures forall i | n <= i < |nodes| :: nodes[i].mergeDistance <= RootDistance(nodes)
    ensures exists i :: 0 <= i < |nodes| && nodes[i].mergeDistance == RootDistance(nodes)
    ensures (forall i | 0 <= i < |nodes| :: nodes[i].mergeDistance <= RootDistance(nodes))
      <==> RootDistance(nodes) >= 0.0
  {
    var last := |nodes| - 1;
    assert nodes[last].mergeDistance == RootDistance(nodes);
    assert nodes[0] == Leaf(0);
    forall i: nat | n <= i < |nodes|
      ensures nodes[i].mergeDistance <= RootDistance(nodes)
    {
      MergeDistancesAscend(nodes, n, d, link, i, last);
    }
  }

  // ----- a cut is a partition

  /** x and y are in one cluster. */
  ghost predicate Together(clusters: seq<seq<nat>>, x: nat, y: nat) {
    exists k :: 0 <= k < |clusters| && x in clusters[k] && y in clusters[k]
  }

  ghost predicate Distinct(s: seq<nat>) {
    forall i, j | 0 <= i < j < |s| :: s[i] != s[j]
  }

  /** The clusters are non-empty, free of repeats, pairwise disjoint and cover exactly s. */
  ghost predicate Partitions(clusters: seq<seq<nat>>, s: seq<nat>) {
    && (forall k | 0 <= k < |clusters| :: clusters[k] != [] && Distinct(clusters[k]))
    && (forall k, x | 0 <= k < |clusters| && x in clusters[k] :: x in s)
    && (forall j, k | 0 <= j < |clusters| && 0 <= k < |clusters| && j != k :: Apart(clusters[j], clusters[k]))
    && forall x | x in s :: Together(clusters, x, x)
  }

  lemma {:induction false} MembersDistinct(nodes: seq<ClusterNode>, n: nat, d: Table, link: LinkageType, i: nat)
    requires Greedy(nodes, n, d, link) && i < |nodes|
    ensures Distinct(nodes[i].members)
  {
    if i >= n {
      assert MergesClosest(nodes, d, link, i);
      HalvesApart(nodes, n, d, link, i);
      var l, r := nodes[i].leftChild, nodes[i].rightChild;
      MembersDistinct(nodes, n, d, link, l);
      MembersDistinct(nodes, n, d, link, r);
      DistinctAppend(nodes[l].members, nodes[r].members);
    }
  }

  lemma DistinctAppend(A: seq<nat>, B: seq<nat>)
    requires Distinct(A) && Distinct(B) && Apart(A, B)
    ensures Distinct(A + B)
  {
    forall i, j | 0 <= i < j < |A + B|
      ensures (A + B)[i] != (A + B)[j]
    {
      if i < |A| <= j {
        assert A[i] in A && B[j - |A|] in B;
      }
    }
  }

  lemma PartitionsAppend(cs: seq<seq<nat>>, cs': seq<seq<nat>>, s: seq<nat>, s': seq<nat>)
    requires Partitions(cs, s) && Partitions(cs', s') && Apart(s, s')
    ensures Partitions(cs + cs', s + s')
  {
    var all := cs + cs';
    forall j, k | 0 <= j < |all| && 0 <= k < |all| && j != k
      ensures Apart(all[j], all[k])
    {
      if j < |cs| <= k {
        assert forall x | x in all[j] :: x in s;
        assert forall x | x in all[k] :: x in s';
      } else if k < |cs| <= j {
        assert forall x | x in all[k] :: x in s;
        assert forall x | x in all[j] :: x in s';
      }
    }
    forall x | x in s + s'
      ensures Together(cs + cs', x, x)
    {
      TogetherAppend(cs, cs', x, x);
    }
  }

  lemma TogetherAppend(cs: seq<seq<nat>>, cs': seq<seq<nat>>, x: nat, y: nat)
    ensures Together(cs + cs', x, y) <==> Together(cs, x, y) || Together(cs', x, y)
  {
    if Together(cs, x, y) {
      var k :| 0 <= k < |cs| && x in cs[k] && y in cs[k];
      assert (cs + cs')[k] == cs[k];
    }
    if Together(cs', x, y) {
      var k :| 0 <= k < |cs'| && x in cs'[k] && y in cs'[k];
      assert (cs + cs')[|cs| + k] == cs'[k];
    }
  }

  lemma {:induction false} CutPartitions(nodes: seq<ClusterNode>, n: nat, d: Table, link: LinkageType, i: nat, t: real)
    requires Greedy(nodes, n, d, link) && i < |nodes|
    ensures Partitions(Cut(nodes, i, t), nodes[i].members)
  {
    MembersDistinct(nodes, n, d, link, i);
    MembersInRange(nodes, n, d, link, i);
    if i >= n && nodes[i].mergeDistance > t {
      assert MergesClosest(nodes, d, link, i);
      HalvesApart(nodes, n, d, link, i);
      var l, r := nodes[i].leftChild, nodes[i].rightChild;
      CutPartitions(nodes, n, d, link, l, t);
      CutPartitions(nodes, n, d, link, r, t);
      PartitionsAppend(Cut(nodes, l, t), Cut(nodes, r, t), nodes[l].members, nodes[r].members);
    } else {
      ChildrenPrecede(nodes, n, d, link, i);
      var members := nodes[i].members;
      var clusters := Cut(nodes, i, t);
      assert clusters == [members];
      forall x | x in members
        ensures Together(clusters, x, x)
      {
        assert x in clusters[0];
      }
    }
  }

  /** Every cut of a finished tree partitions the n nodes. */
  lemma CutIsPartition(nodes: seq<ClusterNode>, n: nat, d: Table, link: LinkageType, t: real, all: seq<nat>)
    requires IsDendrogram(nodes, n, d, link) && ListsBelow(all, n)
    ensures Partitions(Cut(nodes, |nodes| - 1, t), all)
  {
    CutPartitions(nodes, n, d, link, |nodes| - 1, t);
    RootContainsAll(nodes, n, d, link);
    var members := nodes[|nodes| - 1].members;
    assert forall x | x in all :: x in members;
    assert forall x | x in members :: x in all;
  }

  // ----- a cut joins x and y iff the tree merged them by then

  /** The distance at which x and y were first merged: that of their lowest common ancestor below i. */
  ghost function MergedAt(nodes: seq<ClusterNode>, i: nat, x: nat, y: nat): real {
    if i >= |nodes| then 0.0
    else
      var l, r := nodes[i].leftChild, nodes[i].rightChild;
      if 0 <= l < i && x in nodes[l].members && y in nodes[l].members then MergedAt(nodes, l, x, y)
      else if 0 <= r < i && x in nodes[r].members && y in nodes[r].members then MergedAt(nodes, r, x, y)
      else nodes[i].mergeDistance
  }

  lemma {:induction false} MergedAtBelow(nodes: seq<ClusterNode>, n: nat, d: Table, link: LinkageType, i: nat, x: nat,
                                         y: nat)
    requires Symmetric(d) && Greedy(nodes, n, d, link) && i < |nodes|
    requires x in nodes[i].members && y in nodes[i].members && x != y
    ensures i >= n && MergedAt(nodes, i, x, y) <= nodes[i].mergeDistance
  {
    if i >= n {
      assert MergesClosest(nodes, d, link, i);
      var l, r := nodes[i].leftChild, nodes[i].rightChild;
      if x in nodes[l].members && y in nodes[l].members {
        MergedAtBelow(nodes, n, d, link, l, x, y);
        MergeDistancesAscend(nodes, n, d, link, l, i);
      } else if x in nodes[r].members && y in nodes[r].members {
        MergedAtBelow(nodes, n, d, link, r, x, y);
        MergeDistancesAscend(nodes, n, d, link, r, i);
      }
    }
  }

  /** A cut at t joins x and y exactly when their common ancestor was merged at distance <= t. */
  lemma {:induction false} CutJoins(nodes: seq<ClusterNode>, n: nat, d: Table, link: LinkageType,
                                    i: nat, t: real, x: nat, y: nat)
    requires Symmetric(d) && Greedy(nodes, n, d, link) && i < |nodes|
    requires x in nodes[i].members && y in nodes[i].members && x != y
    ensures Together(Cut(nodes, i, t), x, y) <==> MergedAt(nodes, i, x, y) <= t
  {
    MergedAtBelow(nodes, n, d, link, i, x, y);
    assert MergesClosest(nodes, d, link, i);
    var l, r := nodes[i].leftChild, nodes[i].rightChild;
    if nodes[i].mergeDistance <= t {
      assert x in Cut(nodes, i, t)[0] && y in Cut(nodes, i, t)[0];
    } else {
      TogetherAppend(Cut(nodes, l, t), Cut(nodes, r, t), x, y);
      CutPartitions(nodes, n, d, link, l, t);
      CutPartitions(nodes, n, d, link, r, t);
      HalvesApart(nodes, n, d, link, i);
      if x in nodes[l].members && y in nodes[l].members {
        CutJoins(nodes, n, d, link, l, t, x, y);
      } else if x in nodes[r].members && y in nodes[r].members {
        CutJoins(nodes, n, d, link, r, t, x, y);
      }
    }
  }

  /** The node at which x and y come together: one child contains x and the other y, and a cut keeps
      them together exactly when that merge is within its threshold. */
  lemma {:induction false} JoinedAt(nodes: seq<ClusterNode>, n: nat, d: Table, link: LinkageType, i: nat, x: nat,
                                    y: nat) returns (a: nat)
    requires Symmetric(d) && Greedy(nodes, n, d, link) && i < |nodes|
    requires x in nodes[i].members && y in nodes[i].members && x != y
    ensures n <= a <= i && MergedAt(nodes, i, x, y) == nodes[a].mergeDistance
    ensures var l, r := nodes[a].leftChild, nodes[a].rightChild;
      && 0 <= l < a && 0 <= r < a
      && ((x in nodes[l].members && y in nodes[r].members) || (y in nodes[l].members && x in nodes[r].members))
    ensures forall t: real :: Together(Cut(nodes, i, t), x, y) <==> nodes[a].mergeDistance <= t
  {
    MergedAtBelow(nodes, n, d, link, i, x, y);
    assert MergesClosest(nodes, d, link, i);
    var l, r := nodes[i].leftChild, nodes[i].rightChild;
    if x in nodes[l].members && y in nodes[l].members {
      a := JoinedAt(nodes, n, d, link, l, x, y);
    } else if x in nodes[r].members && y in nodes[r].members {
      a := JoinedAt(nodes, n, d, link, r, x, y);
    } else {
      a := i;
    }
    forall t: real
      ensures Together(Cut(nodes, i, t), x, y) <==> nodes[a].mergeDistance <= t
    {
      CutJoins(nodes, n, d, link, i, t, x, y);
    }
  }

  /** A looser cut only joins: each cluster at t lies inside one cluster at t' >= t. */
  lemma CutsNest(nodes: seq<ClusterNode>, n: nat, d: Table, link: LinkageType, t: real, t': real, x: nat, y: nat)
    requires Symmetric(d) && IsDendrogram(nodes, n, d, link) && t <= t' && x < n && y < n
    requires Together(Cut(nodes, |nodes| - 1, t), x, y)
    ensures Together(Cut(nodes, |nodes| - 1, t'), x, y)
  {
    var root := |nodes| - 1;
    RootContainsAll(nodes, n, d, link);
    CutPartitions(nodes, n, d, link, root, t');
    if x != y {
      CutJoins(nodes, n, d, link, root, t, x, y);
      CutJoins(nodes, n, d, link, root, t', x, y);
    }
  }

  // ----- SINGLE linkage: cuts are the connected components of the threshold graph

  /** A walk among the n nodes all of whose hops are at most t. */
  ghost predicate Walk(d: Table, n: nat, t: real, p: seq<nat>) {
    && p != [] && (forall k | 0 <= k < |p| :: p[k] < n)
    && forall k | 0 <= k < |p| - 1 :: At(d, p[k], p[k + 1]) <= t
  }

  ghost predicate Linked(d: Table, n: nat, t: real, x: nat, y: nat) {
    exists p :: Walk(d, n, t, p) && p[0] == x && p[|p| - 1] == y
  }

  lemma LinkedTransitive(d: Table, n: nat, t: real, x: nat, y: nat, z: nat)
    requires Linked(d, n, t, x, y) && Linked(d, n, t, y, z)
    ensures Linked(d, n, t, x, z)
  {
    var p :| Walk(d, n, t, p) && p[0] == x && p[|p| - 1] == y;
    var q :| Walk(d, n, t, q) && q[0] == y && q[|q| - 1] == z;
    var w := p + q[1..];
    forall k | 0 <= k < |w| - 1
      ensures At(d, w[k], w[k + 1]) <= t
    {
      if k >= |p| - 1 {
        var j := k - (|p| - 1);
        assert w[k] == q[j] && w[k + 1] == q[j + 1];
      }
    }
    assert Walk(d, n, t, w) && w[|w| - 1] == z;
  }

  lemma LinkedHop(d: Table, n: nat, t: real, x: nat, y: nat)
    requires x < n && y < n && (x == y || At(d, x, y) <= t)
    ensures Linked(d, n, t, x, y)
  {
    var p := if x == y then [x] else [x, y];
    assert Walk(d, n, t, p);
  }

  /** Members of a node that the tree merged within t are linked by hops no longer than t. */
  lemma {:induction false} MembersLinked(nodes: seq<ClusterNode>, n: nat, d: Table, i: nat, t: real, x: nat, y: nat)
    requires Symmetric(d) && Greedy(nodes, n, d, SINGLE) && i < |nodes|
    requires x in nodes[i].members && y in nodes[i].members
    requires x != y ==> MergedAt(nodes, i, x, y) <= t
    ensures Linked(d, n, t, x, y)
  {
    MembersInRange(nodes, n, d, SINGLE, i);
    if x == y {
      LinkedHop(d, n, t, x, y);
    } else {
      MergedAtBelow(nodes, n, d, SINGLE, i, x, y);
      assert MergesClosest(nodes, d, SINGLE, i);
      var l, r := nodes[i].leftChild, nodes[i].rightChild;
      if x in nodes[l].members && y in nodes[l].members {
        MembersLinked(nodes, n, d, l, t, x, y);
      } else if x in nodes[r].members && y in nodes[r].members {
        MembersLinked(nodes, n, d, r, t, x, y);
      } else {
        var p, q := if x in nodes[l].members then l else r, if x in nodes[l].members then r else l;
        GapSymmetric(nodes, d, SINGLE, l, r);
        MembersInRange(nodes, n, d, SINGLE, p);
        MembersInRange(nodes, n, d, SINGLE, q);
        var a, b := LinkDistAttained(SINGLE, d, nodes[p].members, nodes[q].members);
        HalfMergedWithin(nodes, n, d, SINGLE, i, p, x, a);
        HalfMergedWithin(nodes, n, d, SINGLE, i, q, b, y);
        MembersLinked(nodes, n, d, p, t, x, a);
        MembersLinked(nodes, n, d, q, t, b, y);
        LinkedHop(d, n, t, a, b);
        LinkedTransitive(d, n, t, x, a, b);
        LinkedTransitive(d, n, t, x, b, y);
      }
    }
  }

  lemma HalfMergedWithin(nodes: seq<ClusterNode>, n: nat, d: Table, link: LinkageType, i: nat, h: nat, x: nat, y: nat)
    requires Symmetric(d) && Greedy(nodes, n, d, link) && n <= i < |nodes|
    requires h < |nodes| && (h == nodes[i].leftChild || h == nodes[i].rightChild)
    requires x in nodes[h].members && y in nodes[h].members
    ensures x != y ==> MergedAt(nodes, h, x, y) <= nodes[i].mergeDistance
  {
    ChildrenPrecede(nodes, n, d, link, i);
    if x != y {
      MergedAtBelow(nodes, n, d, link, h, x, y);
      MergeDistancesAscend(nodes, n, d, link, h, i);
    }
  }

  /** SINGLE merges a pair no later than its own distance, COMPLETE no earlier. */
  lemma {:induction false} MergedAtVersusDistance(nodes: seq<ClusterNode>, n: nat, d: Table, link: LinkageType,
                                                  i: nat, x: nat, y: nat)
    requires Symmetric(d) && Greedy(nodes, n, d, link) && i < |nodes| && link != AVERAGE
    requires x in nodes[i].members && y in nodes[i].members && x != y
    ensures if link == SINGLE then MergedAt(nodes, i, x, y) <= At(d, x, y) else At(d, x, y) <= MergedAt(nodes, i, x, y)
  {
    MergedAtBelow(nodes, n, d, link, i, x, y);
    assert MergesClosest(nodes, d, link, i);
    var l, r := nodes[i].leftChild, nodes[i].rightChild;
    if x in nodes[l].members && y in nodes[l].members {
      MergedAtVersusDistance(nodes, n, d, link, l, x, y);
    } else if x in nodes[r].members && y in nodes[r].members {
      MergedAtVersusDistance(nodes, n, d, link, r, x, y);
    } else {
      MembersInRange(nodes, n, d, link, l);
      MembersInRange(nodes, n, d, link, r);
      var _, _ := LinkDistAttained(link, d, nodes[l].members, nodes[r].members);
      assert At(d, x, y) == At(d, y, x);
    }
  }

  lemma TogetherTransitive(clusters: seq<seq<nat>>, s: seq<nat>, x: nat, y: nat, z: nat)
    requires Partitions(clusters, s) && Together(clusters, x, y) && Together(clusters, y, z)
    ensures Together(clusters, x, z)
  {
    var j :| 0 <= j < |clusters| && x in clusters[j] && y in clusters[j];
    var k :| 0 <= k < |clusters| && y in clusters[k] && z in clusters[k];
    assert j != k ==> Apart(clusters[j], clusters[k]);
  }

  lemma {:induction false} WalkStaysTogether(nodes: seq<ClusterNode>, n: nat, d: Table, t: real, p: seq<nat>)
    requires Symmetric(d) && IsDendrogram(nodes, n, d, SINGLE) && Walk(d, n, t, p)
    ensures Together(Cut(nodes, |nodes| - 1, t), p[0], p[|p| - 1])
  {
    var root, last := |nodes| - 1, |p| - 1;
    RootContainsAll(nodes, n, d, SINGLE);
    CutPartitions(nodes, n, d, SINGLE, root, t);
    if last > 0 {
      var q := p[..last];
      assert forall k | 0 <= k < |q| :: q[k] == p[k];
      WalkStaysTogether(nodes, n, d, t, q);
      var x, y := p[last - 1], p[last];
      assert At(d, p[last - 1], p[last - 1 + 1]) <= t;
      if x != y {
        MergedAtVersusDistance(nodes, n, d, SINGLE, root, x, y);
        CutJoins(nodes, n, d, SINGLE, root, t, x, y);
      }
      TogetherTransitive(Cut(nodes, root, t), nodes[root].members, p[0], x, y);
    }
  }

  /** With SINGLE linkage the clusters at t are exactly the connected components of the graph whose
      edges are the pairs at distance <= t; so the tree's merge distance of a pair is the least,
      over all walks, of the longest hop. */
  lemma SingleCutIsComponents(nodes: seq<ClusterNode>, n: nat, d: Table, t: real, x: nat, y: nat)
    requires Symmetric(d) && IsDendrogram(nodes, n, d, SINGLE) && x < n && y < n
    ensures Together(Cut(nodes, |nodes| - 1, t), x, y) <==> Linked(d, n, t, x, y)
    ensures x != y ==> (MergedAt(nodes, |nodes| - 1, x, y) <= t <==> Linked(d, n, t, x, y))
  {
    var root := |nodes| - 1;
    RootContainsAll(nodes, n, d, SINGLE);
    if x != y {
      CutJoins(nodes, n, d, SINGLE, root, t, x, y);
    }
    if Together(Cut(nodes, root, t), x, y) {
      MembersLinked(nodes, n, d, root, t, x, y);
    }
    if Linked(d, n, t, x, y) {
      var p :| Walk(d, n, t, p) && p[0] == x && p[|p| - 1] == y;
      WalkStaysTogether(nodes, n, d, t, p);
    }
  }

  // ----- COMPLETE linkage: clusters have bounded diameter

  /** With COMPLETE linkage a node's merge distance is the diameter of its members. */
  lemma {:induction false} CompleteMergeIsDiameter(nodes: seq<ClusterNode>, n: nat, d: Table, i: nat) returns (a: nat,
                                                   b: nat)
    requires Symmetric(d) && Greedy(nodes, n, d, COMPLETE) && n <= i < |nodes|
    ensures a in nodes[i].members && b in nodes[i].members && a != b && At(d, a, b) == nodes[i].mergeDistance
    ensures forall x, y | x in nodes[i].members && y in nodes[i].members && x != y ::
      At(d, x, y) <= nodes[i].mergeDistance
  {
    assert MergesClosest(nodes, d, COMPLETE, i);
    var l, r := nodes[i].leftChild, nodes[i].rightChild;
    MembersInRange(nodes, n, d, COMPLETE, l);
    MembersInRange(nodes, n, d, COMPLETE, r);
    HalvesApart(nodes, n, d, COMPLETE, i);
    a, b := LinkDistAttained(COMPLETE, d, nodes[l].members, nodes[r].members);
    forall x, y | x in nodes[i].members && y in nodes[i].members && x != y
      ensures At(d, x, y) <= nodes[i].mergeDistance
    {
      MergedAtVersusDistance(nodes, n, d, COMPLETE, i, x, y);
      MergedAtBelow(nodes, n, d, COMPLETE, i, x, y);
    }
  }

  /** With COMPLETE linkage no cluster of a cut at t has two members farther apart than t. */
  lemma CompleteCutBoundsDiameter(nodes: seq<ClusterNode>, n: nat, d: Table, t: real, x: nat, y: nat)
    requires Symmetric(d) && IsDendrogram(nodes, n, d, COMPLETE) && x < n && y < n && x != y
    requires Together(Cut(nodes, |nodes| - 1, t), x, y)
    ensures At(d, x, y) <= t
  {
    RootContainsAll(nodes, n, d, COMPLETE);
    CutJoins(nodes, n, d, COMPLETE, |nodes| - 1, t, x, y);
    MergedAtVersusDistance(nodes, n, d, COMPLETE, |nodes| - 1, x, y);
  }

  // ----- an ultrametric is recovered exactly, whatever the linkage

  ghost predicate Ultrametric(d: Table, n: nat) {
    && Symmetric(d)
    && forall x: nat, y: nat, z: nat | x < n && y < n && z < n && x != y && y != z && x != z ::
         At(d, x, z) <= Max(At(d, x, y), At(d, y, z))
  }

  ghost predicate AllEqual(d: Table, A: seq<nat>, B: seq<nat>, v: real) {
    forall x, y | x in A && y in B :: At(d, x, y) == v
  }

  /** All distances between two different roots are the same. */
  ghost predicate RootsUniform(nodes: seq<ClusterNode>, d: Table, link: LinkageType, m: nat) {
    forall a, b | a in Roots(nodes, m) && b in Roots(nodes, m) && a != b ::
      AllEqual(d, nodes[a].members, nodes[b].members, Gap(nodes, d, link, a, b))
  }

  lemma MergedUniform(nodes: seq<ClusterNode>, n: nat, d: Table, link: LinkageType, m: nat, c: nat)
    requires Greedy(nodes, n, d, link) && n <= m < |nodes| && Ultrametric(d, n) && RootsUniform(nodes, d, link, m)
    requires c in Roots(nodes, m) && c != nodes[m].leftChild && c != nodes[m].rightChild
    ensures AllEqual(d, nodes[m].members, nodes[c].members, Gap(nodes, d, link, m, c))
  {
    assert MergesClosest(nodes, d, link, m);
    RootsStep(nodes, n, d, link, m);
    RootsPartition(nodes, n, d, link, m);
    var l, r := nodes[m].leftChild, nodes[m].rightChild;
    MembersInRange(nodes, n, d, link, l);
    MembersInRange(nodes, n, d, link, r);
    MembersInRange(nodes, n, d, link, c);
    MergedPairIsClosest(nodes, n, d, link, m, l, c);
    MergedPairIsClosest(nodes, n, d, link, m, r, c);
    var x, y, z := nodes[l].Slot(), nodes[r].Slot(), nodes[c].Slot();
    var v := Gap(nodes, d, link, l, c);
    assert At(d, x, z) == v && At(d, y, z) == Gap(nodes, d, link, r, c);
    assert At(d, y, x) == At(d, x, y) == nodes[m].mergeDistance;
    assert Apart(nodes[l].members, nodes[c].members) && Apart(nodes[r].members, nodes[c].members);
    assert At(d, x, z) <= Max(At(d, x, y), At(d, y, z));
    assert At(d, y, z) <= Max(At(d, y, x), At(d, x, z));
    assert AllEqual(d, nodes[m].members, nodes[c].members, v);
    ConstantLinkDist(link, d, nodes[m].members, nodes[c].members, v);
  }

  lemma {:induction false} RootsStayUniform(nodes: seq<ClusterNode>, n: nat, d: Table, link: LinkageType, m: nat)
    requires Greedy(nodes, n, d, link) && n <= m <= |nodes| && Ultrametric(d, n)
    ensures RootsUniform(nodes, d, link, m)
  {
    if m == n {
      forall a, b | a in Roots(nodes, n) && b in Roots(nodes, n)
        ensures AllEqual(d, nodes[a].members, nodes[b].members, Gap(nodes, d, link, a, b))
      {
        assert nodes[a] == Leaf(a) && nodes[b] == Leaf(b);
        ConstantLinkDist(link, d, [a], [b], At(d, a, b));
      }
    } else {
      var p := m - 1;
      RootsStayUniform(nodes, n, d, link, p);
      RootsStep(nodes, n, d, link, p);
      forall a, b | a in Roots(nodes, m) && b in Roots(nodes, m) && a != b
        ensures AllEqual(d, nodes[a].members, nodes[b].members, Gap(nodes, d, link, a, b))
      {
        if a == p {
          MergedUniform(nodes, n, d, link, p, b);
        } else if b == p {
          MergedUniform(nodes, n, d, link, p, a);
          GapSymmetric(nodes, d, link, a, b);
          AllEqualSymmetric(d, nodes[b].members, nodes[a].members, Gap(nodes, d, link, a, b));
        }
      }
    }
  }

  lemma AllEqualSymmetric(d: Table, A: seq<nat>, B: seq<nat>, v: real)
    requires Symmetric(d) && AllEqual(d, A, B, v)
    ensures AllEqual(d, B, A, v)
  {
    forall x, y | x in B && y in A
      ensures At(d, x, y) == v
    {
      assert At(d, x, y) == At(d, y, x);
    }
  }

  lemma {:induction false} UltrametricMergedAt(nodes: seq<ClusterNode>, n: nat, d: Table, link: LinkageType,
                                               i: nat, x: nat, y: nat)
    requires Greedy(nodes, n, d, link) && Ultrametric(d, n) && i < |nodes|
    requires x in nodes[i].members && y in nodes[i].members && x != y
    ensures MergedAt(nodes, i, x, y) == At(d, x, y)
  {
    MergedAtBelow(nodes, n, d, link, i, x, y);
    assert MergesClosest(nodes, d, link, i);
    var l, r := nodes[i].leftChild, nodes[i].rightChild;
    if x in nodes[l].members && y in nodes[l].members {
      UltrametricMergedAt(nodes, n, d, link, l, x, y);
    } else if x in nodes[r].members && y in nodes[r].members {
      UltrametricMergedAt(nodes, n, d, link, r, x, y);
    } else {
      RootsStayUniform(nodes, n, d, link, i);
      RootsStep(nodes, n, d, link, i);
      assert AllEqual(d, nodes[l].members, nodes[r].members, nodes[i].mergeDistance);
      assert At(d, x, y) == At(d, y, x);
    }
  }

  /** On an ultrametric the dendrogram of every linkage reproduces the input: two nodes are merged
      at exactly their distance, and the clusters at t are the pairs at distance <= t. */
  lemma UltrametricIsRecovered(nodes: seq<ClusterNode>, n: nat, d: Table, link: LinkageType, t: real, x: nat, y: nat)
    requires IsDendrogram(nodes, n, d, link) && Ultrametric(d, n) && x < n && y < n && x != y
    ensures MergedAt(nodes, |nodes| - 1, x, y) == At(d, x, y)
    ensures Together(Cut(nodes, |nodes| - 1, t), x, y) <==> At(d, x, y) <= t
  {
    RootContainsAll(nodes, n, d, link);
    UltrametricMergedAt(nodes, n, d, link, |nodes| - 1, x, y);
    CutJoins(nodes, n, d, link, |nodes| - 1, t, x, y);
  }
}
