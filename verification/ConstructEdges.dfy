/** Construction of the edges: membership is derived a second time, then physical nodes are
    attached to the lowest switches and switches to switches one tier up. */
module ConstructEdges {
  import opened Common
  import opened LatencyMatrices
  import opened Dendrograms
  import opened DendrogramBuild
  import opened TierConfigs
  import opened HiddenNodes
  import opened Edges

  // ----- membership, derived again

  /** The table holds the member set of each listed switch under its position. */
  ghost predicate Recovered(members: map<nat, set<nat>>, switches: seq<Switch>) {
    && (forall i: nat :: i in members <==> i < |switches|)
    && forall i: nat | i < |switches| :: members[i] == switches[i].members
  }

  lemma {:induction false} SwitchesPrefix(config: TierConfig, nodes: seq<ClusterNode>, tiers: nat, tiers': nat)
    requires tiers <= tiers'
    ensures Switches(config, nodes, tiers) <= Switches(config, nodes, tiers')
    decreases tiers' - tiers
  {
    if tiers < tiers' {
      SwitchesPrefix(config, nodes, tiers, tiers' - 1);
    }
  }

  lemma {:induction false} SwitchesInPrefix(config: TierConfig, nodes: seq<ClusterNode>, tier: nat, k: nat, k': nat)
    requires k <= k' <= |CutAt(config, nodes, tier)|
    ensures SwitchesIn(config, nodes, tier, k) <= SwitchesIn(config, nodes, tier, k')
    decreases k' - k
  {
    if k < k' {
      SwitchesInPrefix(config, nodes, tier, k, k' - 1);
    }
  }

  lemma PartialPrefix(config: TierConfig, nodes: seq<ClusterNode>, tier: nat, k: nat)
    requires tier <= |config.thresholds| && k <= |CutAt(config, nodes, tier)|
    ensures Switches(config, nodes, tier) + SwitchesIn(config, nodes, tier, k) <= AllSwitches(config, nodes)
  {
    SwitchesInPrefix(config, nodes, tier, k, |CutAt(config, nodes, tier)|);
    SwitchesPrefix(config, nodes, tier + 1, |config.thresholds| + 1);
  }

  /** Clustering the latencies anew and scanning the tiers again gives every hidden node exactly
      the member set it was created from; the bound on hvIdx never drops one. */
  method RebuildMembers(config: TierConfig, latencies: LatencyMatrix, hidden: seq<HiddenNode>,
                        ghost nodes: seq<ClusterNode>)
    returns (members: map<nat, set<nat>>)
    requires latencies.Valid() && Clustered(config, nodes, latencies.numNodes, latencies.Table())
    requires forall i, j | 0 <= i < j < latencies.numNodes :: At(latencies.Table(), i, j) < DBL_MAX
    requires Describes(hidden, AllSwitches(config, nodes))
    ensures Recovered(members, AllSwitches(config, nodes))
  {
    ghost var n, d := latencies.numNodes, latencies.Table();
    var dendrogram := Dendrogram.Build(latencies, config.linkage);
    DendrogramIsUnique(nodes, dendrogram.nodes, n, d, config.linkage);
    members := map[];
    var hvIdx, tier := 0, 0;
    while tier <= |config.thresholds| && hvIdx < |hidden|
      invariant dendrogram.Valid() && dendrogram.nodes == nodes
      invariant tier <= |config.thresholds| + 1 && hvIdx == |Switches(config, nodes, tier)|
      invariant Recovered(members, Switches(config, nodes, tier))
      decreases |config.thresholds| + 1 - tier
    {
      members, hvIdx := RebuildTier(config, dendrogram, tier, hidden, members, hvIdx, n, d);
      tier := tier + 1;
    }
    SwitchesPrefix(config, nodes, tier, |config.thresholds| + 1);
    assert Switches(config, nodes, tier) == AllSwitches(config, nodes);
  }

  method RebuildTier(config: TierConfig, dendrogram: Dendrogram, tier: nat, hidden: seq<HiddenNode>,
                     before: map<nat, set<nat>>, beforeIdx: nat, ghost n: nat, ghost d: Table)
    returns (members: map<nat, set<nat>>, hvIdx: nat)
    requires dendrogram.Valid() && Clustered(config, dendrogram.nodes, n, d) && tier <= |config.thresholds|
    requires Describes(hidden, AllSwitches(config, dendrogram.nodes))
    requires beforeIdx == |Switches(config, dendrogram.nodes, tier)|
    requires Recovered(before, Switches(config, dendrogram.nodes, tier))
    ensures hvIdx == |Switches(config, dendrogram.nodes, tier + 1)|
    ensures Recovered(members, Switches(config, dendrogram.nodes, tier + 1))
  {
    hide Clustered, CutAt, Formed, Recovered;
    ghost var nodes, known := dendrogram.nodes, Switches(config, dendrogram.nodes, tier);
    members, hvIdx := before, beforeIdx;
    var clusters := CutTier(config, dendrogram, tier);
    CutAtPartitions(config, nodes, n, d, tier);
    assert known + SwitchesIn(config, nodes, tier, 0) == known;
    for k := 0 to |clusters|
      invariant hvIdx == |known + SwitchesIn(config, nodes, tier, k)|
      invariant Recovered(members, known + SwitchesIn(config, nodes, tier, k))
    {
      var cluster := clusters[k];
      ghost var here := known + SwitchesIn(config, nodes, tier, k);
      var isNew := false;
      if |cluster| >= config.minClusterSize {
        isNew := IsNewCluster(config, dendrogram, tier, cluster, n, d);
      }
      ghost var s := Switch(Members(cluster), tier + 1);
      assert known + SwitchesIn(config, nodes, tier, k + 1) == if isNew then here + [s] else here;
      if isNew {
        PartialPrefix(config, nodes, tier, k + 1);
        if hvIdx < |hidden| {
          RecoveredAppend(members, here, s);
          members := members[hidden[hvIdx].hvId := Members(cluster)];
          hvIdx := hvIdx + 1;
        }
      }
    }
  }

  lemma RecoveredAppend(members: map<nat, set<nat>>, switches: seq<Switch>, s: Switch)
    requires Recovered(members, switches)
    ensures Recovered(members[|switches| := s.members], switches + [s])
  {
  }

  // ----- physical nodes

  method TotalToOthers(latencies: LatencyMatrix, members: set<nat>, p: nat) returns (total: nat, count: nat)
    requires latencies.Valid() && p < latencies.numNodes
    ensures total == SumOthers(latencies.Table(), members, p, latencies.numNodes)
    ensures count == CountOthers(members, p, latencies.numNodes)
  {
    total, count := 0, 0;
    for otherId := 0 to latencies.numNodes
      invariant total == SumOthers(latencies.Table(), members, p, otherId)
      invariant count == CountOthers(members, p, otherId)
    {
      if otherId in members && otherId != p {
        total := total + Truncate(latencies.Distance(p, otherId));
        count := count + 1;
      }
    }
  }

  method AverageToOthers(latencies: LatencyMatrix, members: set<nat>, p: nat) returns (avgLatency: nat)
    requires latencies.Valid() && p < latencies.numNodes
    ensures avgLatency == AccessLatency(latencies.Table(), members, p, latencies.numNodes)
  {
    var count: nat;
    avgLatency, count := TotalToOthers(latencies, members, p);
    if count > 0 {
      avgLatency := avgLatency / count;
      avgLatency := avgLatency / 2;
    } else {
      NoOthers(latencies.Table(), members, p, latencies.numNodes);
    }
  }

  lemma {:induction false} NoOthers(d: Table, members: set<nat>, p: nat, m: nat)
    requires CountOthers(members, p, m) == 0
    ensures SumOthers(d, members, p, m) == 0
  {
    if m > 0 {
      NoOthers(d, members, p, m - 1);
    }
  }

  ghost predicate IsLowestTier(switches: seq<Switch>, tier: nat) {
    switches != [] && switches[0].tier == tier
  }

  method AttachPhysicalNodes(latencies: LatencyMatrix, hidden: seq<HiddenNode>, members: map<nat, set<nat>>,
                             lowestTier: nat, ghost switches: seq<Switch>) returns (edges: seq<Edge>)
    requires latencies.Valid() && Describes(hidden, switches) && Recovered(members, switches)
    requires IsLowestTier(switches, lowestTier)
    ensures edges == AccessEdges(switches, latencies.Table(), latencies.numNodes, latencies.numNodes)
  {
    edges := [];
    for p := 0 to latencies.numNodes
      invariant edges == AccessEdges(switches, latencies.Table(), latencies.numNodes, p)
    {
      var hvId := 0;
      while hvId < |hidden| && !(hidden[hvId].tier == lowestTier && p in members[hvId])
        invariant hvId <= |hidden|
        invariant HomeFrom(switches, p, hvId) == Home(switches, p)
      {
        assert !IsHome(switches, p, hvId);
        hvId := hvId + 1;
      }
      if hvId < |hidden| {
        assert IsHome(switches, p, hvId);
        var avgLatency := AverageToOthers(latencies, members[hvId], p);
        edges := edges + [Edge(p, hvId, false, true, avgLatency)];
      }
    }
  }

  // ----- switches

  /** Every edge leads to a hidden node, and from a hidden node to one with a higher id. */
  ghost predicate Upward(size: nat, edges: seq<Edge>) {
    forall i | 0 <= i < |edges| :: edges[i].dstIsHidden && edges[i].dstId < size
      && (edges[i].srcIsHidden ==> edges[i].srcId < edges[i].dstId)
  }

  method FindEdge(edges: seq<Edge>, srcIsHidden: bool, srcId: nat) returns (r: Option<Edge>)
    ensures r == Lookup(edges, srcIsHidden, srcId)
    ensures r.Some? ==> r.value in edges && r.value.srcIsHidden == srcIsHidden && r.value.srcId == srcId
  {
    for i := 0 to |edges|
      invariant Lookup(edges, srcIsHidden, srcId) == LookupFrom(edges, srcIsHidden, srcId, i)
    {
      var e := edges[i];
      if e.srcIsHidden == srcIsHidden && e.dstIsHidden && e.srcId == srcId {
        return Some(e);
      }
    }
    return None;
  }

  /** The walk from a sample node up to the lower switch. Hidden ids rise along it, so it ends;
      and what it has added up when it arrives is the weight of the path. */
  method TracePath(edges: seq<Edge>, ghost size: nat, sampleNode: nat, lowerId: nat) returns (path: nat)
    requires Upward(size, edges)
    ensures path == PathTo(size, edges, sampleNode, lowerId)
  {
    path := 0;
    var first := FindEdge(edges, false, sampleNode);
    if first.Some? {
      path := path + first.value.latencyNs;
      var currentHv := first.value.dstId;
      while currentHv != lowerId
        invariant currentHv < size
        invariant path + Trace(size, edges, currentHv, lowerId) == PathTo(size, edges, sampleNode, lowerId)
        decreases size - currentHv
      {
        var next := FindEdge(edges, true, currentHv);
        if next.None? {
          break;
        }
        path := path + next.value.latencyNs;
        currentHv := next.value.dstId;
      }
    }
  }

  method CrossTotals(latencies: LatencyMatrix, lower: set<nat>, sibling: set<nat>) returns (total: real, count: nat)
    requires latencies.Valid()
    ensures total == CrossSum(latencies.Table(), lower, sibling, latencies.numNodes, latencies.numNodes)
    ensures count == CrossCount(lower, sibling, latencies.numNodes, latencies.numNodes)
  {
    var n := latencies.numNodes;
    ghost var d := latencies.Table();
    total, count := 0.0, 0;
    for a := 0 to n
      invariant total == CrossSum(d, lower, sibling, n, a) && count == CrossCount(lower, sibling, n, a)
    {
      if a in lower {
        ghost var total0, count0 := total, count;
        for b := 0 to n
          invariant total == total0 + RowSum(d, a, sibling, b) && count == count0 + RowCount(sibling, b)
        {
          if b in sibling {
            total := total + latencies.Distance(a, b);
            count := count + 1;
          }
        }
      }
    }
  }

  lemma LeastInRange(members: set<nat>, n: nat)
    requires members != {} && members <= Below(n)
    ensures Least(members, n) < n
  {
    var x :| x in members;
    assert x in Below(n);
  }

  method Lowest(members: set<nat>, n: nat) returns (least: nat)
    requires members != {} && members <= Below(n)
    ensures least == Least(members, n)
  {
    LeastInRange(members, n);
    least := 0;
    while least !in members
      invariant least <= Least(members, n)
      decreases n - least
    {
      least := least + 1;
    }
  }

  /** Latency of the edge from a switch to its parent. */
  method LatencyToParent(latencies: LatencyMatrix, ghost switches: seq<Switch>, edges: seq<Edge>,
                         members: map<nat, set<nat>>, g: nat, h: nat)
    returns (latency: nat)
    requires latencies.Valid() && Recovered(members, switches) && Tiered(switches, latencies.numNodes)
    requires g < |switches| && h < |switches| && Upward(|switches|, edges)
    ensures latency == InterTierLatency(switches, latencies.Table(), latencies.numNodes, edges, g, h)
  {
    var lower := members[g];
    var sibling := members[h] - lower;
    latency := 0;
    if sibling != {} {
      var total, count := CrossTotals(latencies, lower, sibling);
      if count > 0 {
        var sampleNode := Lowest(lower, latencies.numNodes);
        var path := TracePath(edges, |switches|, sampleNode, g);
        var half := (total / count as real - 2.0 * path as real) / 2.0;
        latency := Truncate(if half > 0.0 then half else 0.0);
      }
    } else {
      NoPairs(lower, sibling, latencies.numNodes, latencies.numNodes);
    }
  }

  lemma {:induction false} NoPairs(A: set<nat>, B: set<nat>, n: nat, m: nat)
    requires B == {}
    ensures CrossCount(A, B, n, m) == 0
  {
    NoRow(B, n);
    if m > 0 {
      NoPairs(A, B, n, m - 1);
    }
  }

  lemma {:induction false} NoRow(B: set<nat>, m: nat)
    requires B == {}
    ensures RowCount(B, m) == 0
  {
    if m > 0 {
      NoRow(B, m - 1);
    }
  }

  // ----- tier by tier

  /** Positions below k of the switches of a tier. */
  ghost function IndicesAt(switches: seq<Switch>, tier: nat, k: nat): seq<nat>
    requires k <= |switches|
  {
    if k == 0 then []
    else IndicesAt(switches, tier, k - 1) + if switches[k - 1].tier == tier then [k - 1] else []
  }

  /** How many of the first k switches are below a tier. */
  ghost function CountBelow(switches: seq<Switch>, tier: nat, k: nat): (c: nat)
    requires k <= |switches|
    ensures c <= k
  {
    if k == 0 then 0 else CountBelow(switches, tier, k - 1) + if switches[k - 1].tier < tier then 1 else 0
  }

  lemma {:induction false} AllBelow(switches: seq<Switch>, tier: nat, k: nat)
    requires k <= |switches| && forall i | 0 <= i < k :: switches[i].tier < tier
    ensures CountBelow(switches, tier, k) == k
  {
    if k > 0 {
      AllBelow(switches, tier, k - 1);
    }
  }

  lemma {:induction false} NoneBelow(switches: seq<Switch>, tier: nat, k: nat)
    requires k <= |switches| && forall i | 0 <= i < k :: switches[i].tier >= tier
    ensures CountBelow(switches, tier, k) == 0
  {
    if k > 0 {
      NoneBelow(switches, tier, k - 1);
    }
  }

  /** The switches of a tier are consecutive. */
  lemma {:induction false} TierIsConsecutive(switches: seq<Switch>, n: nat, tier: nat, k: nat)
    requires Tiered(switches, n) && k <= |switches|
    ensures CountBelow(switches, tier + 1, k) == CountBelow(switches, tier, k) + |IndicesAt(switches, tier, k)|
    ensures forall j | 0 <= j < |IndicesAt(switches, tier, k)| ::
      IndicesAt(switches, tier, k)[j] == CountBelow(switches, tier, k) + j && IndicesAt(switches, tier, k)[j] < k
      && switches[IndicesAt(switches, tier, k)[j]].tier == tier
  {
    if k > 0 {
      TierIsConsecutive(switches, n, tier, k - 1);
      if switches[k - 1].tier == tier {
        AllBelow(switches, tier + 1, k - 1);
      } else if switches[k - 1].tier < tier {
        AllBelow(switches, tier, k - 1);
        AllBelow(switches, tier + 1, k - 1);
      }
    }
  }

  lemma {:induction false} IndicesComplete(switches: seq<Switch>, tier: nat, k: nat, i: nat)
    requires i < k <= |switches| && switches[i].tier == tier
    ensures i in IndicesAt(switches, tier, k)
  {
    if i < k - 1 {
      IndicesComplete(switches, tier, k - 1, i);
    }
  }

  ghost predicate Grouping(byTier: map<nat, seq<nat>>, switches: seq<Switch>, k: nat)
    requires k <= |switches|
  {
    forall t: nat ::
      if t in byTier then byTier[t] == IndicesAt(switches, t, k) && byTier[t] != [] else IndicesAt(switches, t, k) == []
  }

  lemma GroupingStep(byTier: map<nat, seq<nat>>, switches: seq<Switch>, i: nat)
    requires i < |switches| && Grouping(byTier, switches, i)
    ensures var t := switches[i].tier;
      Grouping(byTier[t := (if t in byTier then byTier[t] else []) + [i]], switches, i + 1)
  {
    assert forall t: nat | t != switches[i].tier :: IndicesAt(switches, t, i + 1) == IndicesAt(switches, t, i) + [];
  }

  method GroupByTier(hidden: seq<HiddenNode>, ghost switches: seq<Switch>) returns (byTier: map<nat, seq<nat>>)
    requires Describes(hidden, switches)
    ensures Grouping(byTier, switches, |switches|)
  {
    byTier := map[];
    for i := 0 to |hidden|
      invariant Grouping(byTier, switches, i)
    {
      hide Grouping, IndicesAt;
      var t := hidden[i].tier;
      GroupingStep(byTier, switches, i);
      byTier := byTier[t := (if t in byTier then byTier[t] else []) + [i]];
    }
  }

  /** Lowest and highest tier among the hidden nodes. */
  method TierRange(hidden: seq<HiddenNode>, ghost switches: seq<Switch>, ghost n: nat) returns (lowestTier: nat,
                   maxTier: nat)
    requires hidden != [] && Describes(hidden, switches) && Tiered(switches, n)
    ensures lowestTier == switches[0].tier <= maxTier == switches[|switches| - 1].tier
  {
    lowestTier, maxTier := hidden[0].tier, 0;
    for i := 0 to |hidden|
      invariant lowestTier == switches[0].tier
      invariant maxTier == if i == 0 then 0 else switches[i - 1].tier
    {
      if hidden[i].tier < lowestTier {
        lowestTier := hidden[i].tier;
      }
      if hidden[i].tier > maxTier {
        maxTier := hidden[i].tier;
      }
    }
  }

  /** The first switch of the next tier that contains all members of g. */
  method FindParent(members: map<nat, set<nat>>, uppers: seq<nat>, g: nat, ghost switches: seq<Switch>, ghost n: nat)
    returns (parent: Option<nat>)
    requires Recovered(members, switches) && Tiered(switches, n) && g < |switches|
    requires uppers == IndicesAt(switches, switches[g].tier + 1, |switches|)
    ensures parent == ParentOf(switches, g)
  {
    TierIsConsecutive(switches, n, switches[g].tier + 1, |switches|);
    for j := 0 to |uppers|
      invariant forall i | 0 <= i < j :: !IsParent(switches, g, uppers[i])
    {
      var h := uppers[j];
      if members[g] <= members[h] {
        assert IsParent(switches, g, h);
        forall k | 0 <= k < |switches| && IsParent(switches, g, k)
          ensures h <= k
        {
          IndicesComplete(switches, switches[g].tier + 1, |switches|, k);
        }
        return Some(h);
      }
    }
    forall k | 0 <= k < |switches|
      ensures !IsParent(switches, g, k)
    {
      if IsParent(switches, g, k) {
        IndicesComplete(switches, switches[g].tier + 1, |switches|, k);
      }
    }
    return None;
  }

  lemma {:induction false} AccessUpward(switches: seq<Switch>, d: Table, n: nat, p: nat)
    ensures Upward(|switches|, AccessEdges(switches, d, n, p))
    ensures forall i | 0 <= i < |AccessEdges(switches, d, n, p)| :: !AccessEdges(switches, d, n, p)[i].srcIsHidden
  {
    if p > 0 {
      AccessUpward(switches, d, n, p - 1);
    }
  }

  lemma {:induction false} WireUpward(switches: seq<Switch>, d: Table, n: nat, g: nat)
    requires Tiered(switches, n)
    ensures Upward(|switches|, Wire(switches, d, n, g))
  {
    if g == 0 {
      AccessUpward(switches, d, n, n);
    } else {
      WireUpward(switches, d, n, g - 1);
    }
  }

  lemma {:induction false} WireSkips(switches: seq<Switch>, d: Table, n: nat, a: nat, b: nat)
    requires a <= b && forall g | a <= g < b :: ParentOf(switches, g) == None
    ensures Wire(switches, d, n, b) == Wire(switches, d, n, a)
    decreases b - a
  {
    if a < b {
      WireSkips(switches, d, n, a, b - 1);
    }
  }

  /** A tier with nothing above it, or with nothing in it, adds no edges. */
  lemma TierSkipped(switches: seq<Switch>, d: Table, n: nat, tier: nat)
    requires Tiered(switches, n)
    requires IndicesAt(switches, tier, |switches|) == [] || IndicesAt(switches, tier + 1, |switches|) == []
    ensures Wire(switches, d, n, CountBelow(switches, tier + 1, |switches|))
      == Wire(switches, d, n, CountBelow(switches, tier, |switches|))
  {
    var k := |switches|;
    TierIsConsecutive(switches, n, tier, k);
    var a, b := CountBelow(switches, tier, k), CountBelow(switches, tier + 1, k);
    forall g | a <= g < b
      ensures ParentOf(switches, g) == None
    {
      assert IndicesAt(switches, tier, k)[g - a] == g;
      if h :| 0 <= h < k && IsParent(switches, g, h) {
        IndicesComplete(switches, tier + 1, k, h);
      }
    }
    WireSkips(switches, d, n, a, b);
  }

  lemma TopSkipped(switches: seq<Switch>, d: Table, n: nat)
    requires Tiered(switches, n) && switches != []
    ensures var top := switches[|switches| - 1].tier;
      Wire(switches, d, n, |switches|) == Wire(switches, d, n, CountBelow(switches, top, |switches|))
  {
    var k := |switches|;
    var top := switches[k - 1].tier;
    TierIsConsecutive(switches, n, top, k);
    AllBelow(switches, top + 1, k);
    TierIsConsecutive(switches, n, top + 1, k);
    assert CountBelow(switches, top + 1, k) == k;
    TierSkipped(switches, d, n, top);
  }

  /** One switch is connected to its parent, if it has one. */
  method AttachSwitch(latencies: LatencyMatrix, members: map<nat, set<nat>>, uppers: seq<nat>, g: nat,
                      before: seq<Edge>, ghost switches: seq<Switch>) returns (edges: seq<Edge>)
    requires latencies.Valid() && Recovered(members, switches) && Tiered(switches, latencies.numNodes)
    requires g < |switches| && uppers == IndicesAt(switches, switches[g].tier + 1, |switches|)
    requires before == Wire(switches, latencies.Table(), latencies.numNodes, g)
    ensures edges == Wire(switches, latencies.Table(), latencies.numNodes, g + 1)
  {
    ghost var d, n := latencies.Table(), latencies.numNodes;
    edges := before;
    WireUpward(switches, d, n, g);
    var parent := FindParent(members, uppers, g, switches, n);
    if parent.Some? {
      var latency := LatencyToParent(latencies, switches, edges, members, g, parent.value);
      edges := edges + [Edge(g, parent.value, true, true, latency)];
    }
  }

  /** One tier's switches are connected to their parents. */
  method AttachTier(latencies: LatencyMatrix, members: map<nat, set<nat>>, lowers: seq<nat>, uppers: seq<nat>,
                    tier: nat,
                    before: seq<Edge>, ghost switches: seq<Switch>) returns (edges: seq<Edge>)
    requires latencies.Valid() && Recovered(members, switches) && Tiered(switches, latencies.numNodes)
    requires lowers == IndicesAt(switches, tier, |switches|) && uppers == IndicesAt(switches, tier + 1, |switches|)
    requires before == Wire(switches, latencies.Table(), latencies.numNodes, CountBelow(switches, tier, |switches|))
    ensures edges == Wire(switches, latencies.Table(), latencies.numNodes, CountBelow(switches, tier + 1, |switches|))
  {
    hide Recovered, Tiered, Wire;
    ghost var d, n, first := latencies.Table(), latencies.numNodes, CountBelow(switches, tier, |switches|);
    TierIsConsecutive(switches, n, tier, |switches|);
    edges := before;
    for j := 0 to |lowers|
      invariant edges == Wire(switches, d, n, first + j)
    {
      edges := AttachSwitch(latencies, members, uppers, lowers[j], edges, switches);
    }
  }

  /** The tiers are connected one after another. */
  method ConnectTiers(latencies: LatencyMatrix, members: map<nat, set<nat>>, byTier: map<nat, seq<nat>>,
                      lowestTier: nat, maxTier: nat, before: seq<Edge>, ghost switches: seq<Switch>)
    returns (edges: seq<Edge>)
    requires latencies.Valid() && Recovered(members, switches) && Tiered(switches, latencies.numNodes)
    requires switches != [] && Grouping(byTier, switches, |switches|)
    requires lowestTier == switches[0].tier <= maxTier == switches[|switches| - 1].tier
    requires before == Wire(switches, latencies.Table(), latencies.numNodes, 0)
    ensures edges == Wire(switches, latencies.Table(), latencies.numNodes, |switches|)
  {
    hide Recovered, Tiered, Wire;
    ghost var n, d := latencies.numNodes, latencies.Table();
    edges := before;
    NoneBelowFirst(switches, n);
    for tier := lowestTier to maxTier
      invariant edges == Wire(switches, d, n, CountBelow(switches, tier, |switches|))
    {
      if tier !in byTier || tier + 1 !in byTier {
        TierSkipped(switches, d, n, tier);
        continue;
      }
      edges := AttachTier(latencies, members, byTier[tier], byTier[tier + 1], tier, edges, switches);
    }
    TopSkipped(switches, d, n);
  }

  /** All edges of the topology of these latencies. */
  method ConstructEdges(config: TierConfig, hidden: seq<HiddenNode>, latencies: LatencyMatrix,
                        ghost nodes: seq<ClusterNode>)
    returns (edges: seq<Edge>)
    requires latencies.Valid() && Clustered(config, nodes, latencies.numNodes, latencies.Table())
    requires forall i, j | 0 <= i < j < latencies.numNodes :: At(latencies.Table(), i, j) < DBL_MAX
    requires Describes(hidden, AllSwitches(config, nodes))
    ensures edges == Wire(AllSwitches(config, nodes), latencies.Table(), latencies.numNodes,
                  |AllSwitches(config, nodes)|)
  {
    ghost var switches, n, d := AllSwitches(config, nodes), latencies.numNodes, latencies.Table();
    SwitchesAreTiered(config, nodes, n, d);
    assert |hidden| == |switches|;
    hide Clustered, CutAt, Recovered, Tiered, Wire, Describes, AllSwitches;
    WireOfNone(switches, d, n);
    if hidden == [] {
      NoAccess(d, n, n);
      return [];
    }
    var byTier := GroupByTier(hidden, switches);
    var lowestTier, maxTier := TierRange(hidden, switches, n);
    var members := RebuildMembers(config, latencies, hidden, nodes);
    edges := AttachPhysicalNodes(latencies, hidden, members, lowestTier, switches);
    edges := ConnectTiers(latencies, members, byTier, lowestTier, maxTier, edges, switches);
  }

  lemma NoneBelowFirst(switches: seq<Switch>, n: nat)
    requires Tiered(switches, n) && switches != []
    ensures CountBelow(switches, switches[0].tier, |switches|) == 0
  {
    NoneBelow(switches, switches[0].tier, |switches|);
  }

  lemma WireOfNone(switches: seq<Switch>, d: Table, n: nat)
    ensures Wire(switches, d, n, 0) == AccessEdges(switches, d, n, n)
  {
  }

  lemma SwitchesAreTiered(config: TierConfig, nodes: seq<ClusterNode>, n: nat, d: Table)
    requires Clustered(config, nodes, n, d)
    ensures Tiered(AllSwitches(config, nodes), n)
  {
    hide Clustered, CutAt, FormsAt, Switches;
    SwitchesInOrder(config, nodes, n, d, |config.thresholds| + 1);
    forall i: nat | i < |AllSwitches(config, nodes)|
      ensures AllSwitches(config, nodes)[i].members != {} && AllSwitches(config, nodes)[i].members <= Below(n)
    {
      ListedSwitch(config, nodes, n, d, i);
    }
  }

  lemma {:induction false} NoAccess(d: Table, n: nat, p: nat)
    ensures AccessEdges([], d, n, p) == []
  {
    if p > 0 {
      NoAccess(d, n, p - 1);
    }
  }
}
