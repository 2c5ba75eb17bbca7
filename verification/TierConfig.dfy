/** Tier thresholds, and the clusters they cut out of a dendrogram. */
module TierConfigs {
  import opened Common
  import opened LatencyMatrices
  import opened Linkages
  import opened Dendrograms
  import opened DendrogramBuild
  import opened DendrogramTheorems

  datatype TierConfig = TierConfig(thresholds: seq<nat>, linkage: LinkageType, minClusterSize: nat)

  /** The cut height of a tier; one tier above the last threshold takes all remaining merges. */
  function ThresholdAt(config: TierConfig, nodes: seq<ClusterNode>, tier: nat): real {
    if tier < |config.thresholds| then config.thresholds[tier] as real else RootDistance(nodes) + 1.0
  }

  function CutAt(config: TierConfig, nodes: seq<ClusterNode>, tier: nat): seq<seq<nat>> {
    if nodes == [] then [] else Cut(nodes, |nodes| - 1, ThresholdAt(config, nodes, tier))
  }

  ghost predicate Ascending(s: seq<nat>) {
    forall i, j | 0 <= i < j < |s| :: s[i] <= s[j]
  }

  /** The tree that the builder works from. */
  ghost predicate Clustered(config: TierConfig, nodes: seq<ClusterNode>, n: nat, d: Table) {
    Symmetric(d) && IsDendrogram(nodes, n, d, config.linkage)
  }

  // ----- the group of a node at a tier

  /** All nodes that the cut of a tier puts together with x. */
  ghost function Group(config: TierConfig, nodes: seq<ClusterNode>, n: nat, tier: nat, x: nat): set<nat> {
    set y | y in Below(n) && Together(CutAt(config, nodes, tier), x, y)
  }

  lemma CutAtPartitions(config: TierConfig, nodes: seq<ClusterNode>, n: nat, d: Table, tier: nat)
    requires Clustered(config, nodes, n, d)
    ensures Partitions(CutAt(config, nodes, tier), nodes[|nodes| - 1].members)
    ensures ListsBelow(nodes[|nodes| - 1].members, n)
  {
    CutPartitions(nodes, n, d, config.linkage, |nodes| - 1, ThresholdAt(config, nodes, tier));
    RootContainsAll(nodes, n, d, config.linkage);
  }

  /** A group contains its node and is the group of each of its members. */
  lemma GroupIsClass(config: TierConfig, nodes: seq<ClusterNode>, n: nat, d: Table, tier: nat, x: nat)
    requires Clustered(config, nodes, n, d) && x < n
    ensures x in Group(config, nodes, n, tier, x)
    ensures forall y | y in Group(config, nodes, n, tier, x) ::
      y < n && Group(config, nodes, n, tier, y) == Group(config, nodes, n, tier, x)
  {
    CutAtPartitions(config, nodes, n, d, tier);
    var cs, all := CutAt(config, nodes, tier), nodes[|nodes| - 1].members;
    assert x in all;
    forall y | y in Group(config, nodes, n, tier, x)
      ensures Group(config, nodes, n, tier, y) == Group(config, nodes, n, tier, x)
    {
      assert Together(cs, x, y) && Together(cs, y, x);
      forall z
        ensures Together(cs, x, z) <==> Together(cs, y, z)
      {
        if Together(cs, x, z) { TogetherTransitive(cs, all, y, x, z); }
        if Together(cs, y, z) { TogetherTransitive(cs, all, x, y, z); }
      }
    }
  }

  /** The topmost cut joins everything. */
  lemma TopCut(config: TierConfig, nodes: seq<ClusterNode>, n: nat, d: Table, tier: nat, x: nat, y: nat)
    requires Clustered(config, nodes, n, d) && tier >= |config.thresholds| && x < n && y < n
    ensures Together(CutAt(config, nodes, tier), x, y)
  {
    RootContainsAll(nodes, n, d, config.linkage);
    var cs := CutAt(config, nodes, tier);
    assert cs == [nodes[|nodes| - 1].members];
    assert x in cs[0] && y in cs[0];
  }

  /** Below the last threshold a tier joins two nodes exactly when the tree merges them within that
      tier's threshold. */
  lemma GroupIffMerged(config: TierConfig, nodes: seq<ClusterNode>, n: nat, d: Table, tier: nat, x: nat, y: nat)
    requires Clustered(config, nodes, n, d) && tier < |config.thresholds| && x < n && y < n && x != y
    ensures y in Group(config, nodes, n, tier, x)
      <==> MergedAt(nodes, |nodes| - 1, x, y) <= config.thresholds[tier] as real
  {
    RootContainsAll(nodes, n, d, config.linkage);
    CutJoins(nodes, n, d, config.linkage, |nodes| - 1, config.thresholds[tier] as real, x, y);
  }

  /** With ascending thresholds groups only grow from tier to tier. */
  lemma GroupsGrow(config: TierConfig, nodes: seq<ClusterNode>, n: nat, d: Table, tier: nat, tier': nat, x: nat)
    requires Clustered(config, nodes, n, d) && Ascending(config.thresholds) && tier <= tier' && x < n
    ensures Group(config, nodes, n, tier, x) <= Group(config, nodes, n, tier', x)
  {
    forall y | y in Group(config, nodes, n, tier, x)
      ensures y in Group(config, nodes, n, tier', x)
    {
      if tier' < |config.thresholds| {
        CutsNest(nodes, n, d, config.linkage,
                 ThresholdAt(config, nodes, tier), ThresholdAt(config, nodes, tier'), x, y);
      } else {
        TopCut(config, nodes, n, d, tier', x, y);
      }
    }
  }

  function Members(cluster: seq<nat>): set<nat> {
    set x | x in cluster
  }

  /** s is the member set of one of the clusters. */
  predicate Formed(clusters: seq<seq<nat>>, s: set<nat>) {
    exists k :: 0 <= k < |clusters| && Members(clusters[k]) == s
  }

  lemma {:induction false} DistinctSize(s: seq<nat>)
    requires Distinct(s)
    ensures |Members(s)| == |s|
  {
    if s != [] {
      var t := s[..|s| - 1];
      DistinctSize(t);
      assert s == t + [s[|s| - 1]];
      assert Members(s) == Members(t) + {s[|s| - 1]};
      assert s[|s| - 1] !in t;
    }
  }

  /** The clusters of a cut are the groups of its members. */
  lemma ClusterIsGroup(config: TierConfig, nodes: seq<ClusterNode>, n: nat, d: Table, tier: nat, k: nat, x: nat)
    requires Clustered(config, nodes, n, d) && k < |CutAt(config, nodes, tier)| && x in CutAt(config, nodes, tier)[k]
    ensures x < n && Members(CutAt(config, nodes, tier)[k]) == Group(config, nodes, n, tier, x)
  {
    CutAtPartitions(config, nodes, n, d, tier);
    var cs, all := CutAt(config, nodes, tier), nodes[|nodes| - 1].members;
    assert x in all;
    forall y
      ensures y in Members(cs[k]) <==> y in Group(config, nodes, n, tier, x)
    {
      if y in cs[k] {
        assert y in all;
        assert Together(cs, x, y);
      }
      if y in Group(config, nodes, n, tier, x) {
        var j :| 0 <= j < |cs| && x in cs[j] && y in cs[j];
        assert j != k ==> Apart(cs[j], cs[k]);
      }
    }
  }

  lemma FormedIffGroup(config: TierConfig, nodes: seq<ClusterNode>, n: nat, d: Table, tier: nat, s: set<nat>)
    requires Clustered(config, nodes, n, d)
    ensures Formed(CutAt(config, nodes, tier), s) <==> exists x: nat :: x < n && s == Group(config, nodes, n, tier, x)
  {
    CutAtPartitions(config, nodes, n, d, tier);
    var cs, all := CutAt(config, nodes, tier), nodes[|nodes| - 1].members;
    if Formed(cs, s) {
      var k :| 0 <= k < |cs| && Members(cs[k]) == s;
      ClusterIsGroup(config, nodes, n, d, tier, k, cs[k][0]);
    }
    if x: nat :| x < n && s == Group(config, nodes, n, tier, x) {
      assert x in all;
      assert Together(cs, x, x);
      var k :| 0 <= k < |cs| && x in cs[k];
      ClusterIsGroup(config, nodes, n, d, tier, k, x);
    }
  }
}
