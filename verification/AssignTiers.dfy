/** Tier and cluster id of every physical node. */
module AssignTiers {
  import opened LatencyMatrices
  import opened Linkages
  import opened Dendrograms
  import opened DendrogramBuild
  import opened DendrogramTheorems
  import opened TierConfigs

  datatype TierAssignment = TierAssignment(nodeId: nat, tier: nat, clusterId: nat)

  /** The cut of a tier puts x together with some other node. */
  ghost predicate Grouped(config: TierConfig, nodes: seq<ClusterNode>, tier: nat, x: nat) {
    exists y :: y != x && Together(CutAt(config, nodes, tier), x, y)
  }

  /** tier is the first one below `limit` that groups x, or the number of thresholds if none does. */
  ghost predicate FirstGrouped(config: TierConfig, nodes: seq<ClusterNode>, limit: nat, x: nat, tier: nat) {
    && (tier < limit ==> Grouped(config, nodes, tier, x))
    && (tier >= limit ==> tier == |config.thresholds|)
    && forall t: nat | t < tier && t < limit :: !Grouped(config, nodes, t, x)
  }

  /** The assignment of x after the tiers below `limit`: cluster id is the index of its cluster in
      the cut of its tier, or x itself while no tier has grouped it. */
  ghost predicate Raw(config: TierConfig, nodes: seq<ClusterNode>, limit: nat, x: nat, a: TierAssignment) {
    && a.nodeId == x && FirstGrouped(config, nodes, limit, x, a.tier)
    && if a.tier < limit
       then a.clusterId < |CutAt(config, nodes, a.tier)| && x in CutAt(config, nodes, a.tier)[a.clusterId]
       else a.clusterId == x
  }

  lemma GroupedIffLarge(config: TierConfig, nodes: seq<ClusterNode>, n: nat, d: Table, tier: nat, k: nat, x: nat)
    requires Clustered(config, nodes, n, d) && k < |CutAt(config, nodes, tier)| && x in CutAt(config, nodes, tier)[k]
    ensures Grouped(config, nodes, tier, x) <==> |CutAt(config, nodes, tier)[k]| > 1
  {
    CutAtPartitions(config, nodes, n, d, tier);
    var cs := CutAt(config, nodes, tier);
    if y :| y != x && Together(cs, x, y) {
      var j :| 0 <= j < |cs| && x in cs[j] && y in cs[j];
      assert j != k ==> Apart(cs[j], cs[k]);
    }
    if |cs[k]| > 1 {
      var y := if cs[k][0] == x then cs[k][1] else cs[k][0];
      assert y != x && Together(cs, x, y);
    }
  }

  /** A walk that leaves x has a hop from x to some other node. */
  lemma {:induction false} LeavingHop(d: Table, n: nat, t: real, p: seq<nat>) returns (y: nat)
    requires Walk(d, n, t, p) && p[|p| - 1] != p[0]
    ensures y < n && y != p[0] && At(d, p[0], y) <= t
  {
    var q := p[1..];
    assert At(d, p[0], p[0 + 1]) <= t;
    if p[1] != p[0] {
      y := p[1];
    } else {
      assert forall k | 0 <= k < |q| :: q[k] == p[k + 1];
      y := LeavingHop(d, n, t, q);
    }
  }

  /** With SINGLE linkage a tier groups a node exactly when its nearest neighbour is within the
      threshold, so its tier is the first threshold that reaches its nearest neighbour. */
  lemma SingleGroupsNearest(config: TierConfig, nodes: seq<ClusterNode>, n: nat, d: Table, tier: nat, x: nat)
    requires Clustered(config, nodes, n, d) && config.linkage == SINGLE && tier < |config.thresholds| && x < n
    ensures Grouped(config, nodes, tier, x)
      <==> exists y: nat :: y < n && y != x && At(d, x, y) <= config.thresholds[tier] as real
  {
    var t := config.thresholds[tier] as real;
    CutAtPartitions(config, nodes, n, d, tier);
    if y :| y != x && Together(CutAt(config, nodes, tier), x, y) {
      assert y in nodes[|nodes| - 1].members;
      SingleCutIsComponents(nodes, n, d, t, x, y);
      var p :| Walk(d, n, t, p) && p[0] == x && p[|p| - 1] == y;
      var z := LeavingHop(d, n, t, p);
    }
    if y: nat :| y < n && y != x && At(d, x, y) <= t {
      LinkedHop(d, n, t, x, y);
      SingleCutIsComponents(nodes, n, d, t, x, y);
      assert Together(CutAt(config, nodes, tier), x, y);
    }
  }

  /** What the tier of a node is: the first whose cut puts it together with another node, and the number
      of thresholds if none does. */
  lemma TierIs(config: TierConfig, nodes: seq<ClusterNode>, n: nat, d: Table, x: nat, t: nat)
    requires Clustered(config, nodes, n, d) && x < n && FirstGrouped(config, nodes, |config.thresholds|, x, t)
    ensures t <= |config.thresholds|
    ensures t < |config.thresholds| ==> Group(config, nodes, n, t, x) != {x}
    ensures forall s: nat | s < t :: Group(config, nodes, n, s, x) == {x}
  {
    forall s: nat | s <= t
      ensures Grouped(config, nodes, s, x) <==> Group(config, nodes, n, s, x) != {x}
    {
      GroupedIff(config, nodes, n, d, s, x);
    }
  }

  lemma GroupedIff(config: TierConfig, nodes: seq<ClusterNode>, n: nat, d: Table, s: nat, x: nat)
    requires Clustered(config, nodes, n, d) && x < n
    ensures Grouped(config, nodes, s, x) <==> Group(config, nodes, n, s, x) != {x}
  {
    GroupIsClass(config, nodes, n, d, s, x);
    CutAtPartitions(config, nodes, n, d, s);
    if y :| y != x && Together(CutAt(config, nodes, s), x, y) {
      assert y in nodes[|nodes| - 1].members;
      assert y in Group(config, nodes, n, s, x);
    }
    if Group(config, nodes, n, s, x) != {x} {
      var y :| y in Group(config, nodes, n, s, x) && y != x;
    }
  }

  /** With SINGLE linkage: the first threshold that reaches the node's nearest neighbour. */
  lemma SingleTierIs(config: TierConfig, nodes: seq<ClusterNode>, n: nat, d: Table, x: nat, t: nat)
    requires Clustered(config, nodes, n, d) && config.linkage == SINGLE && x < n
    requires FirstGrouped(config, nodes, |config.thresholds|, x, t)
    ensures t < |config.thresholds| ==>
      exists y: nat :: y < n && y != x && At(d, x, y) <= config.thresholds[t] as real
    ensures t <= |config.thresholds|
    ensures forall s: nat, y: nat | s < t && y < n && y != x :: At(d, x, y) > config.thresholds[s] as real
  {
    hide Clustered, Grouped, Together;
    if t < |config.thresholds| {
      SingleGroupsNearest(config, nodes, n, d, t, x);
    }
    forall s: nat, y: nat | s < t && y < n && y != x
      ensures At(d, x, y) > config.thresholds[s] as real
    {
      SingleGroupsNearest(config, nodes, n, d, s, x);
    }
  }

  /** The first pass: tightest tier first, a node keeps the first tier that groups it. */
  method FirstPass(config: TierConfig, dendrogram: Dendrogram, n: nat,
                   ghost d: Table) returns (assignments: seq<TierAssignment>)
    requires dendrogram.Valid() && Clustered(config, dendrogram.nodes, n, d)
    ensures |assignments| == n
    ensures forall x | 0 <= x < n :: Raw(config, dendrogram.nodes, |config.thresholds|, x, assignments[x])
  {
    var maxTier := |config.thresholds|;
    assignments := seq(n, (i: nat) => TierAssignment(i, maxTier, i));
    for tier := 0 to |config.thresholds|
      invariant |assignments| == n
      invariant forall x | 0 <= x < n :: Raw(config, dendrogram.nodes, tier, x, assignments[x])
    {
      assignments := AssignTier(config, dendrogram, n, d, tier, assignments);
    }
  }

  /** An assignment lowered to a tighter tier; one that is tight already stays. */
  function Lowered(a: TierAssignment, tier: nat, clusterId: nat): TierAssignment {
    if tier < a.tier then a.(tier := tier, clusterId := clusterId) else a
  }

  method LowerCluster(cluster: seq<nat>, tier: nat, clusterId: nat, before: seq<TierAssignment>)
    returns (assignments: seq<TierAssignment>)
    requires forall x | x in cluster :: x < |before|
    ensures |assignments| == |before|
    ensures forall x | 0 <= x < |before| ::
      assignments[x] == if x in cluster then Lowered(before[x], tier, clusterId) else before[x]
  {
    assignments := before;
    for p := 0 to |cluster|
      invariant |assignments| == |before|
      invariant forall x | 0 <= x < |before| ::
        assignments[x] == if x in cluster[..p] then Lowered(before[x], tier, clusterId) else before[x]
    {
      var nodeId := cluster[p];
      assert nodeId in cluster;
      if tier < assignments[nodeId].tier {
        assignments := assignments[nodeId := assignments[nodeId].(tier := tier, clusterId := clusterId)];
      }
      assert cluster[..p + 1] == cluster[..p] + [nodeId];
    }
    assert cluster[..|cluster|] == cluster;
  }

  /** What one cut does to the assignment of a node in its cluster k. */
  function Stepped(clusters: seq<seq<nat>>, k: nat, tier: nat, a: TierAssignment): TierAssignment
    requires k < |clusters|
  {
    if |clusters[k]| > 1 then Lowered(a, tier, k) else a
  }

  lemma StepKeepsRaw(config: TierConfig, nodes: seq<ClusterNode>, n: nat, d: Table, tier: nat, k: nat, x: nat,
                     a: TierAssignment)
    requires Clustered(config, nodes, n, d) && tier < |config.thresholds|
    requires k < |CutAt(config, nodes, tier)| && x in CutAt(config, nodes, tier)[k]
    requires Raw(config, nodes, tier, x, a)
    ensures Raw(config, nodes, tier + 1, x, Stepped(CutAt(config, nodes, tier), k, tier, a))
  {
    GroupedIffLarge(config, nodes, n, d, tier, k, x);
  }

  /** The scan over the clusters of one cut. */
  method LowerClusters(clusters: seq<seq<nat>>, tier: nat,
                       before: seq<TierAssignment>) returns (assignments: seq<TierAssignment>)
    requires forall k, x | 0 <= k < |clusters| && x in clusters[k] :: x < |before|
    requires forall j, k | 0 <= j < |clusters| && 0 <= k < |clusters| && j != k :: Apart(clusters[j], clusters[k])
    ensures |assignments| == |before|
    ensures forall k, x | 0 <= k < |clusters| && x in clusters[k] ::
      assignments[x] == Stepped(clusters, k, tier, before[x])
  {
    assignments := before;
    var clusterId := 0;
    while clusterId < |clusters|
      invariant clusterId <= |clusters| && |assignments| == |before|
      invariant forall k, x | 0 <= k < |clusters| && x in clusters[k] ::
        assignments[x] == if k < clusterId then Stepped(clusters, k, tier, before[x]) else before[x]
    {
      var cluster := clusters[clusterId];
      assert forall k | 0 <= k < |clusters| && k != clusterId :: Apart(clusters[k], cluster);
      if |cluster| > 1 {
        assignments := LowerCluster(cluster, tier, clusterId, assignments);
      }
      clusterId := clusterId + 1;
    }
  }

  method AssignTier(config: TierConfig, dendrogram: Dendrogram, n: nat, ghost d: Table, tier: nat,
                    before: seq<TierAssignment>)
    returns (assignments: seq<TierAssignment>)
    requires dendrogram.Valid() && Clustered(config, dendrogram.nodes, n, d) && tier < |config.thresholds|
    requires |before| == n
    requires forall x | 0 <= x < n :: Raw(config, dendrogram.nodes, tier, x, before[x])
    ensures |assignments| == n
    ensures forall x | 0 <= x < n :: Raw(config, dendrogram.nodes, tier + 1, x, assignments[x])
  {
    hide Raw;
    ghost var nodes := dendrogram.nodes;
    var clusters := dendrogram.CutAtThreshold(config.thresholds[tier] as real);
    CutAtPartitions(config, nodes, n, d, tier);
    assert forall k, x | 0 <= k < |clusters| && x in clusters[k] :: x in nodes[|nodes| - 1].members && x < n;
    assignments := LowerClusters(clusters, tier, before);
    forall x: nat | x < n
      ensures Raw(config, nodes, tier + 1, x, assignments[x])
    {
      assert x in nodes[|nodes| - 1].members && Together(clusters, x, x);
      var k :| 0 <= k < |clusters| && x in clusters[k];
      StepKeepsRaw(config, nodes, n, d, tier, k, x, before[x]);
    }
  }

  // ----- numbering the clusters of each tier

  type Remap = map<nat, nat>

  function RemapOf(remaps: map<nat, Remap>, tier: nat): Remap {
    if tier in remaps then remaps[tier] else map[]
  }

  /** A renumbering is one-to-one onto 0, 1, 2, ... */
  ghost predicate Compact(m: Remap) {
    && (forall a, b | a in m && b in m && a != b :: m[a] != m[b])
    && forall a | a in m :: m[a] < |m|
  }

  /** Every number given out so far is in use by one of the first i nodes. */
  ghost predicate InUse(out: seq<TierAssignment>, remaps: map<nat, Remap>, i: nat) {
    forall t, v: nat :: v < |RemapOf(remaps, t)| ==> UsedBefore(out, i, t, v)
  }

  ghost predicate Numbering(raw: seq<TierAssignment>, out: seq<TierAssignment>, remaps: map<nat, Remap>, i: nat)
    requires i <= |raw| == |out|
  {
    (forall t :: Compact(RemapOf(remaps, t))) && InUse(out, remaps, i) && Renumbered(raw, out, remaps, i)
  }

  /** The first i nodes carry the new number of their cluster. */
  ghost predicate Renumbered(raw: seq<TierAssignment>, out: seq<TierAssignment>, remaps: map<nat, Remap>, i: nat)
    requires i <= |raw| == |out|
  {
    forall x | 0 <= x < i ::
      raw[x].clusterId in RemapOf(remaps, raw[x].tier)
      && out[x] == raw[x].(clusterId := RemapOf(remaps, raw[x].tier)[raw[x].clusterId])
  }

  /** One of the first i nodes has this tier and cluster id. */
  ghost predicate UsedBefore(out: seq<TierAssignment>, i: nat, tier: nat, clusterId: nat) {
    exists y :: 0 <= y < i && y < |out| && out[y].tier == tier && out[y].clusterId == clusterId
  }

  /** Numbers are given out in order of first appearance: every smaller number of the tier is in
      use by an earlier node. */
  ghost predicate FirstAppearanceOrder(out: seq<TierAssignment>, i: nat) {
    forall x, v: nat | 0 <= x < i && x < |out| && v < out[x].clusterId :: UsedBefore(out, x, out[x].tier, v)
  }

  /** The second pass renumbers the clusters of each tier from zero, in place. */
  method Normalize(raw: seq<TierAssignment>) returns (out: seq<TierAssignment>)
    ensures |out| == |raw| && forall x | 0 <= x < |raw| :: out[x] == raw[x].(clusterId := out[x].clusterId)
    ensures forall x, y | 0 <= x < |raw| && 0 <= y < |raw| && raw[x].tier == raw[y].tier ::
      out[x].clusterId == out[y].clusterId <==> raw[x].clusterId == raw[y].clusterId
    ensures FirstAppearanceOrder(out, |out|)
  {
    out := raw;
    var tierClusterMap: map<nat, Remap> := map[];
    for i := 0 to |raw|
      invariant |out| == |raw| && forall x | i <= x < |raw| :: out[x] == raw[x]
      invariant Numbering(raw, out, tierClusterMap, i) && FirstAppearanceOrder(out, i)
    {
      var ta := out[i];
      var remap := RemapOf(tierClusterMap, ta.tier);
      ghost var was, wasOut := tierClusterMap, out;
      if ta.clusterId !in remap {
        remap := remap[ta.clusterId := |remap|];
      }
      tierClusterMap := tierClusterMap[ta.tier := remap];
      out := out[i := ta.(clusterId := remap[ta.clusterId])];
      NumberingStep(raw, wasOut, was, i, out, tierClusterMap);
    }
  }

  lemma UsedBeforeGrows(out: seq<TierAssignment>, out': seq<TierAssignment>, i: nat, j: nat, tier: nat, v: nat)
    requires UsedBefore(out, i, tier, v) && i <= j && |out| == |out'|
    requires forall x | 0 <= x < i && x < |out| :: out'[x] == out[x]
    ensures UsedBefore(out', j, tier, v)
  {
    var y :| 0 <= y < i && y < |out| && out[y].tier == tier && out[y].clusterId == v;
    assert out'[y] == out[y];
  }

  lemma NumberingStep(raw: seq<TierAssignment>, out: seq<TierAssignment>, remaps: map<nat, Remap>, i: nat,
                      out': seq<TierAssignment>, remaps': map<nat, Remap>)
    requires i < |raw| == |out| && Numbering(raw, out, remaps, i) && FirstAppearanceOrder(out, i) && out[i] == raw[i]
    requires var old' := RemapOf(remaps, raw[i].tier); var c := raw[i].clusterId;
      var remap := if c in old' then old' else old'[c := |old'|];
      remaps' == remaps[raw[i].tier := remap] && out' == out[i := raw[i].(clusterId := remap[c])]
    ensures Numbering(raw, out', remaps', i + 1) && FirstAppearanceOrder(out', i + 1)
  {
    hide FirstAppearanceOrder;
    var t0, c := raw[i].tier, raw[i].clusterId;
    var was, now := RemapOf(remaps, t0), RemapOf(remaps', t0);
    assert forall t :: t != t0 ==> RemapOf(remaps', t) == RemapOf(remaps, t);
    CompactGrows(was, c);
    assert forall a | a in was :: a in now && now[a] == was[a];
    RenumberedStep(raw, out, remaps, i, out', remaps');
    hide Renumbered;
    InUseStep(out, remaps, i, out', remaps', t0);
    OrderStep(out, out', i, was);
  }

  lemma RenumberedStep(raw: seq<TierAssignment>, out: seq<TierAssignment>, remaps: map<nat, Remap>, i: nat,
                       out': seq<TierAssignment>, remaps': map<nat, Remap>)
    requires i < |raw| == |out| == |out'| && Renumbered(raw, out, remaps, i) && forall x | 0 <= x < i ::
      out'[x] == out[x]
    requires forall t, a | a in RemapOf(remaps, t) ::
      a in RemapOf(remaps', t) && RemapOf(remaps', t)[a] == RemapOf(remaps, t)[a]
    requires var now, c := RemapOf(remaps', raw[i].tier), raw[i].clusterId;
      c in now && out'[i] == raw[i].(clusterId := now[c])
    ensures Renumbered(raw, out', remaps', i + 1)
  {
  }

  lemma InUseStep(out: seq<TierAssignment>, remaps: map<nat, Remap>, i: nat,
                  out': seq<TierAssignment>, remaps': map<nat, Remap>, t0: nat)
    requires i < |out| == |out'| && InUse(out, remaps, i) && forall x | 0 <= x < i :: out'[x] == out[x]
    requires forall t :: t != t0 ==> RemapOf(remaps', t) == RemapOf(remaps, t)
    requires out'[i].tier == t0 && |RemapOf(remaps', t0)| <= |RemapOf(remaps, t0)| + 1
    requires |RemapOf(remaps', t0)| == |RemapOf(remaps, t0)| || out'[i].clusterId == |RemapOf(remaps, t0)|
    ensures InUse(out', remaps', i + 1)
  {
    var j := i + 1;
    forall t, v: nat
      ensures v < |RemapOf(remaps', t)| ==> UsedBefore(out', j, t, v)
    {
      if v < |RemapOf(remaps, t)| {
        UsedBeforeGrows(out, out', i, j, t, v);
      } else if v < |RemapOf(remaps', t)| {
        assert out'[i].tier == t && out'[i].clusterId == v;
      }
    }
  }

  lemma CompactGrows(m: Remap, c: nat)
    requires Compact(m)
    ensures Compact(if c in m then m else m[c := |m|])
  {
  }

  lemma OrderStep(out: seq<TierAssignment>, out': seq<TierAssignment>, i: nat, was: Remap)
    requires i < |out| == |out'| && FirstAppearanceOrder(out, i) && forall x | 0 <= x < i :: out'[x] == out[x]
    requires out'[i].clusterId <= |was| && forall v: nat :: v < |was| ==> UsedBefore(out, i, out'[i].tier, v)
    ensures FirstAppearanceOrder(out', i + 1)
  {
    forall x, v: nat | 0 <= x < i + 1 && v < out'[x].clusterId
      ensures UsedBefore(out', x, out'[x].tier, v)
    {
      UsedBeforeGrows(out, out', x, x, out'[x].tier, v);
    }
  }

  /** Tier and cluster of every node. A node's tier is the first whose cut groups it with another;
      two nodes of one tier share a cluster id exactly when that tier's cut joins them; and ids
      count from zero within each tier in order of first appearance. */
  method AssignTiers(config: TierConfig, dendrogram: Dendrogram, n: nat,
                     ghost d: Table) returns (assignments: seq<TierAssignment>)
    requires dendrogram.Valid() && Clustered(config, dendrogram.nodes, n, d)
    ensures |assignments| == n && forall x | 0 <= x < n :: assignments[x].nodeId == x
    ensures forall x | 0 <= x < n ::
      FirstGrouped(config, dendrogram.nodes, |config.thresholds|, x, assignments[x].tier)
    ensures forall x, y | 0 <= x < n && 0 <= y < n && x != y && assignments[x].tier == assignments[y].tier ::
      assignments[x].clusterId == assignments[y].clusterId
      <==> assignments[x].tier < |config.thresholds|
           && Together(CutAt(config, dendrogram.nodes, assignments[x].tier), x, y)
    ensures FirstAppearanceOrder(assignments, n)
  {
    var raw := FirstPass(config, dendrogram, n, d);
    assignments := Normalize(raw);
    ghost var nodes := dendrogram.nodes;
    forall x: nat, y: nat | x < n && y < n && x != y && raw[x].tier == raw[y].tier
      ensures raw[x].clusterId == raw[y].clusterId
        <==> raw[x].tier < |config.thresholds| && Together(CutAt(config, nodes, raw[x].tier), x, y)
    {
      SameClusterId(config, nodes, n, d, x, y, raw[x], raw[y]);
    }
  }

  /** Two assignments agree on which nodes of one tier share a cluster id. */
  ghost predicate SamePartition(out: seq<TierAssignment>, out': seq<TierAssignment>) {
    && |out| == |out'| && (forall x | 0 <= x < |out| :: out[x].tier == out'[x].tier)
    && forall x, y | 0 <= x < |out| && 0 <= y < |out| && out[x].tier == out[y].tier ::
         out[x].clusterId == out[y].clusterId <==> out'[x].clusterId == out'[y].clusterId
  }

  /** Numbering in order of first appearance leaves no choice: the ids are determined by the tiers
      and by which nodes share one. */
  lemma IdsDetermined(out: seq<TierAssignment>, out': seq<TierAssignment>, x: nat)
    requires SamePartition(out, out') && x < |out|
    requires FirstAppearanceOrder(out, |out|) && FirstAppearanceOrder(out', |out|)
    ensures out[x].clusterId == out'[x].clusterId
  {
    IdNotSmaller(out, out', x);
    IdNotSmaller(out', out, x);
  }

  /** If the id in out were smaller, out' would have given it to an earlier node, which then shares
      its id with x in one assignment only. */
  lemma {:induction false} IdNotSmaller(out: seq<TierAssignment>, out': seq<TierAssignment>, x: nat)
    requires SamePartition(out, out') && x < |out|
    requires FirstAppearanceOrder(out, |out|) && FirstAppearanceOrder(out', |out|)
    ensures out'[x].clusterId <= out[x].clusterId
    decreases x
  {
    var v := out[x].clusterId;
    if v < out'[x].clusterId {
      assert UsedBefore(out', x, out'[x].tier, v);
      var y: nat :| y < x && y < |out'| && out'[y].tier == out'[x].tier && out'[y].clusterId == v;
      IdNotSmaller(out, out', y);
      IdNotSmaller(out', out, y);
    }
  }

  lemma SameClusterId(config: TierConfig, nodes: seq<ClusterNode>, n: nat, d: Table,
                      x: nat, y: nat, a: TierAssignment, b: TierAssignment)
    requires Clustered(config, nodes, n, d) && x != y && a.tier == b.tier
    requires Raw(config, nodes, |config.thresholds|, x, a) && Raw(config, nodes, |config.thresholds|, y, b)
    ensures a.clusterId == b.clusterId <==> a.tier < |config.thresholds| && Together(CutAt(config, nodes, a.tier), x, y)
  {
    CutAtPartitions(config, nodes, n, d, a.tier);
    var cs := CutAt(config, nodes, a.tier);
    if a.tier < |config.thresholds| && Together(cs, x, y) {
      var k :| 0 <= k < |cs| && x in cs[k] && y in cs[k];
      assert a.clusterId != k ==> Apart(cs[k], cs[a.clusterId]);
      assert b.clusterId != k ==> Apart(cs[k], cs[b.clusterId]);
    }
  }
}
