/** Inference of hidden nodes (switches): one for each cluster that first forms at a tier. */
module HiddenNodes {
  import opened Common
  import opened LatencyMatrices
  import opened Linkages
  import opened Dendrograms
  import opened DendrogramBuild
  import opened DendrogramTheorems
  import opened TierConfigs

  datatype HiddenNodeType = TIER0_SWITCH | TOR_SWITCH | SPINE_SWITCH | UNKNOWN_BOTTLENECK

  datatype HiddenNode = HiddenNode(hvId: nat, kind: HiddenNodeType, tier: nat, confidence: real)

  function InferHiddenType(tier: nat): HiddenNodeType {
    match tier
    case 0 => TIER0_SWITCH
    case 1 => TOR_SWITCH
    case 2 => SPINE_SWITCH
    case _ => UNKNOWN_BOTTLENECK
  }

  /** What a hidden node stands for. Its tier is one above that of the cut; physical nodes are tier 0. */
  datatype Switch = Switch(members: set<nat>, tier: nat)

  /** The cluster has enough members and was not already one cluster at the tier below. */
  ghost predicate BecomesSwitch(config: TierConfig, nodes: seq<ClusterNode>, tier: nat, cluster: seq<nat>) {
    |cluster| >= config.minClusterSize
    && (tier == 0 || !Formed(CutAt(config, nodes, tier - 1), Members(cluster)))
  }

  /** Switches for the first k clusters of a tier. */
  ghost function SwitchesIn(config: TierConfig, nodes: seq<ClusterNode>, tier: nat, k: nat): seq<Switch>
    requires k <= |CutAt(config, nodes, tier)|
  {
    if k == 0 then []
    else
      var cluster := CutAt(config, nodes, tier)[k - 1];
      SwitchesIn(config, nodes, tier, k - 1)
      + if BecomesSwitch(config, nodes, tier, cluster) then [Switch(Members(cluster), tier + 1)] else []
  }

  /** Switches of the first few tiers, in order of creation. */
  ghost function Switches(config: TierConfig, nodes: seq<ClusterNode>, tiers: nat): seq<Switch> {
    if tiers == 0 then []
    else Switches(config, nodes, tiers - 1)
         + SwitchesIn(config, nodes, tiers - 1, |CutAt(config, nodes, tiers - 1)|)
  }

  ghost function AllSwitches(config: TierConfig, nodes: seq<ClusterNode>): seq<Switch> {
    Switches(config, nodes, |config.thresholds| + 1)
  }

  /** The hidden nodes describe the switches, in order; a hidden node's id is its position. */
  ghost predicate Describes(hidden: seq<HiddenNode>, switches: seq<Switch>) {
    && |hidden| == |switches|
    && forall i | 0 <= i < |hidden| ::
         && hidden[i].hvId == i && hidden[i].tier == switches[i].tier && switches[i].tier > 0
         && hidden[i].kind == InferHiddenType(switches[i].tier - 1)
         && hidden[i].confidence == Min(0.95, 0.5 + 0.1 * |switches[i].members| as real)
  }

  /** Kind and confidence of a hidden node, by the tier and size of its switch. */
  lemma KindAndConfidence(hidden: seq<HiddenNode>, switches: seq<Switch>, i: nat)
    requires Describes(hidden, switches) && i < |hidden|
    ensures hidden[i].tier >= 1
    ensures hidden[i].kind == TIER0_SWITCH <==> hidden[i].tier == 1
    ensures hidden[i].kind == TOR_SWITCH <==> hidden[i].tier == 2
    ensures hidden[i].kind == SPINE_SWITCH <==> hidden[i].tier == 3
    ensures |switches[i].members| <= 4 ==> hidden[i].confidence * 10.0 == (5 + |switches[i].members|) as real
    ensures |switches[i].members| > 4 ==> hidden[i].confidence == 0.95
  {
    var size := |switches[i].members|;
    assert size > 4 ==> size as real >= 5.0;
    assert size <= 4 ==> size as real <= 4.0;
  }

  /** The search for a cluster among those of the previous tier: sizes first, then member sets. */
  method WasFormed(cluster: seq<nat>, prevClusters: seq<seq<nat>>) returns (found: bool)
    requires Distinct(cluster) && forall k | 0 <= k < |prevClusters| :: Distinct(prevClusters[k])
    ensures found == Formed(prevClusters, Members(cluster))
  {
    found := false;
    DistinctSize(cluster);
    for k := 0 to |prevClusters|
      invariant forall j | 0 <= j < k :: Members(prevClusters[j]) != Members(cluster)
    {
      DistinctSize(prevClusters[k]);
      if |prevClusters[k]| == |cluster| {
        var currSet, prevSet := Members(cluster), Members(prevClusters[k]);
        if currSet == prevSet {
          return true;
        }
      }
    }
  }

  /** Whether a cluster of a tier is new there, as both scans decide it. */
  method IsNewCluster(config: TierConfig, dendrogram: Dendrogram, tier: nat, cluster: seq<nat>, ghost n: nat,
                      ghost d: Table)
    returns (isNew: bool)
    requires dendrogram.Valid() && Clustered(config, dendrogram.nodes, n, d)
    requires tier <= |config.thresholds| && Distinct(cluster)
    ensures isNew == (tier == 0 || !Formed(CutAt(config, dendrogram.nodes, tier - 1), Members(cluster)))
  {
    hide Clustered, Cut, Formed;
    if tier == 0 {
      return true;
    }
    var prevClusters := dendrogram.CutAtThreshold(config.thresholds[tier - 1] as real);
    CutAtPartitions(config, dendrogram.nodes, n, d, tier - 1);
    var found := WasFormed(cluster, prevClusters);
    return !found;
  }

  method CutTier(config: TierConfig, dendrogram: Dendrogram, tier: nat) returns (clusters: seq<seq<nat>>)
    requires dendrogram.Valid()
    ensures clusters == CutAt(config, dendrogram.nodes, tier)
  {
    var threshold: real;
    if tier < |config.thresholds| {
      threshold := config.thresholds[tier] as real;
    } else {
      var top := dendrogram.MaxDistance();
      threshold := top + 1.0;
    }
    clusters := dendrogram.CutAtThreshold(threshold);
  }

  lemma DescribesAppend(hidden: seq<HiddenNode>, switches: seq<Switch>, node: HiddenNode, s: Switch)
    requires Describes(hidden, switches) && s.tier > 0
    requires node == HiddenNode(|hidden|, InferHiddenType(s.tier - 1),
                             s.tier, Min(0.95, 0.5 + 0.1 * |s.members| as real))
    ensures Describes(hidden + [node], switches + [s])
  {
  }

  method InferHiddenNodes(config: TierConfig, dendrogram: Dendrogram, ghost n: nat, ghost d: Table)
    returns (hiddenNodes: seq<HiddenNode>)
    requires dendrogram.Valid() && Clustered(config, dendrogram.nodes, n, d)
    ensures Describes(hiddenNodes, AllSwitches(config, dendrogram.nodes))
  {
    hiddenNodes := [];
    for tier := 0 to |config.thresholds| + 1
      invariant Describes(hiddenNodes, Switches(config, dendrogram.nodes, tier))
    {
      hiddenNodes := InferTier(config, dendrogram, tier, hiddenNodes, n, d);
    }
  }

  /** Hidden nodes of one tier, appended to those of the tiers below. */
  method InferTier(config: TierConfig, dendrogram: Dendrogram, tier: nat, below: seq<HiddenNode>, ghost n: nat,
                   ghost d: Table)
    returns (hiddenNodes: seq<HiddenNode>)
    requires dendrogram.Valid() && Clustered(config, dendrogram.nodes, n, d) && tier <= |config.thresholds|
    requires Describes(below, Switches(config, dendrogram.nodes, tier))
    ensures Describes(hiddenNodes, Switches(config, dendrogram.nodes, tier + 1))
  {
    hide Clustered, CutAt, Formed, Describes;
    ghost var nodes, before := dendrogram.nodes, Switches(config, dendrogram.nodes, tier);
    hiddenNodes := below;
    var hvId := |below|;
    var clusters := CutTier(config, dendrogram, tier);
    CutAtPartitions(config, nodes, n, d, tier);
    assert before + SwitchesIn(config, nodes, tier, 0) == before;
    for k := 0 to |clusters|
      invariant hvId == |hiddenNodes|
      invariant Describes(hiddenNodes, before + SwitchesIn(config, nodes, tier, k))
    {
      var cluster := clusters[k];
      ghost var known := before + SwitchesIn(config, nodes, tier, k);
      var isNew := false;
      if |cluster| >= config.minClusterSize {
        isNew := IsNewCluster(config, dendrogram, tier, cluster, n, d);
        if isNew {
          DistinctSize(cluster);
          var node := HiddenNode(hvId, InferHiddenType(tier), tier + 1, Min(0.95, 0.5 + 0.1 * |cluster| as real));
          DescribesAppend(hiddenNodes, known, node, Switch(Members(cluster), tier + 1));
          hiddenNodes := hiddenNodes + [node];
          hvId := hvId + 1;
        }
      }
      assert before + SwitchesIn(config, nodes, tier, k + 1)
          == if isNew then known + [Switch(Members(cluster), tier + 1)] else known;
    }
  }

  // ----- which clusters become switches

  /** A switch of the list, and nothing else, is a large enough group that is new at its tier. */
  lemma {:induction false} SwitchesInSound(config: TierConfig, nodes: seq<ClusterNode>, tier: nat, k: nat)
    requires k <= |CutAt(config, nodes, tier)|
    ensures forall s | s in SwitchesIn(config, nodes, tier, k) ::
      exists j :: 0 <= j < k && BecomesSwitch(config, nodes, tier, CutAt(config, nodes, tier)[j])
        && s == Switch(Members(CutAt(config, nodes, tier)[j]), tier + 1)
    ensures forall j | 0 <= j < k && BecomesSwitch(config, nodes, tier, CutAt(config, nodes, tier)[j]) ::
      Switch(Members(CutAt(config, nodes, tier)[j]), tier + 1) in SwitchesIn(config, nodes, tier, k)
  {
    if k > 0 {
      SwitchesInSound(config, nodes, tier, k - 1);
    }
  }

  /** s is a group of at least the minimum size that exists at a tier but not at the one before. */
  ghost predicate FormsAt(config: TierConfig, nodes: seq<ClusterNode>, tier: nat, s: set<nat>) {
    && Formed(CutAt(config, nodes, tier), s) && |s| >= config.minClusterSize
    && (tier == 0 || !Formed(CutAt(config, nodes, tier - 1), s))
  }

  lemma SwitchesInIff(config: TierConfig, nodes: seq<ClusterNode>, n: nat, d: Table, tier: nat, s: Switch)
    requires Clustered(config, nodes, n, d)
    ensures s in SwitchesIn(config, nodes, tier, |CutAt(config, nodes, tier)|)
      <==> s.tier == tier + 1 && FormsAt(config, nodes, tier, s.members)
  {
    var cs := CutAt(config, nodes, tier);
    CutAtPartitions(config, nodes, n, d, tier);
    SwitchesInSound(config, nodes, tier, |cs|);
    forall j | 0 <= j < |cs|
      ensures |Members(cs[j])| == |cs[j]|
    {
      DistinctSize(cs[j]);
    }
  }

  lemma {:induction false} SwitchesIff(config: TierConfig, nodes: seq<ClusterNode>, n: nat, d: Table, tiers: nat,
                                       s: Switch)
    requires Clustered(config, nodes, n, d)
    ensures s in Switches(config, nodes, tiers)
      <==> 0 < s.tier <= tiers && FormsAt(config, nodes, s.tier - 1, s.members)
  {
    hide Clustered, FormsAt, CutAt, SwitchesIn;
    if tiers > 0 {
      SwitchesIff(config, nodes, n, d, tiers - 1, s);
      SwitchesInIff(config, nodes, n, d, tiers - 1, s);
    }
  }

  /** The switches of the first tiers, by their clusters: large enough, a cluster of their tier's cut, and
      none of the cut before. */
  lemma SwitchesAre(config: TierConfig, nodes: seq<ClusterNode>, n: nat, d: Table, tiers: nat, s: Switch)
    requires Clustered(config, nodes, n, d)
    ensures s in Switches(config, nodes, tiers) <==>
      && 1 <= s.tier <= tiers && |s.members| >= config.minClusterSize
      && (exists c :: c in CutAt(config, nodes, s.tier - 1) && Members(c) == s.members)
      && (s.tier > 1 ==> forall c | c in CutAt(config, nodes, s.tier - 2) :: Members(c) != s.members)
  {
    hide Clustered, CutAt, Switches;
    SwitchesIff(config, nodes, n, d, tiers, s);
    if s.tier >= 1 {
      FormedMeans(CutAt(config, nodes, s.tier - 1), s.members);
      if s.tier > 1 {
        FormedMeans(CutAt(config, nodes, s.tier - 2), s.members);
      }
    }
  }

  lemma FormedMeans(clusters: seq<seq<nat>>, s: set<nat>)
    ensures Formed(clusters, s) <==> exists c :: c in clusters && Members(c) == s
  {
    if Formed(clusters, s) {
      var k :| 0 <= k < |clusters| && Members(clusters[k]) == s;
      assert clusters[k] in clusters;
    }
  }

  // ----- order and uniqueness

  /** Switches of one tier come in the order of their clusters in the cut. */
  lemma {:induction false} SwitchesInFollowCut(config: TierConfig, nodes: seq<ClusterNode>, tier: nat, k: nat,
                                               i: nat, j: nat) returns (a: nat, b: nat)
    requires k <= |CutAt(config, nodes, tier)| && i < j < |SwitchesIn(config, nodes, tier, k)|
    ensures a < b < k
    ensures SwitchesIn(config, nodes, tier, k)[i] == Switch(Members(CutAt(config, nodes, tier)[a]), tier + 1)
    ensures SwitchesIn(config, nodes, tier, k)[j] == Switch(Members(CutAt(config, nodes, tier)[b]), tier + 1)
  {
    hide CutAt, BecomesSwitch;
    var before := SwitchesIn(config, nodes, tier, k - 1);
    if j < |before| {
      a, b := SwitchesInFollowCut(config, nodes, tier, k - 1, i, j);
    } else {
      SwitchesInSound(config, nodes, tier, k - 1);
      assert before[i] in before;
      a :| 0 <= a < k - 1 && before[i] == Switch(Members(CutAt(config, nodes, tier)[a]), tier + 1);
      b := k - 1;
    }
  }

  lemma {:induction false} SwitchesFollowCut(config: TierConfig, nodes: seq<ClusterNode>, n: nat, d: Table, tiers: nat,
                                             i: nat, j: nat) returns (a: nat, b: nat)
    requires Clustered(config, nodes, n, d) && i < j < |Switches(config, nodes, tiers)|
    requires Switches(config, nodes, tiers)[i].tier == Switches(config, nodes, tiers)[j].tier
    ensures var s := Switches(config, nodes, tiers);
      && 1 <= s[i].tier <= tiers && a < b < |CutAt(config, nodes, s[i].tier - 1)|
      && s[i].members == Members(CutAt(config, nodes, s[i].tier - 1)[a])
      && s[j].members == Members(CutAt(config, nodes, s[i].tier - 1)[b])
  {
    hide Clustered, CutAt, SwitchesIn, FormsAt;
    var before := Switches(config, nodes, tiers - 1);
    var here := SwitchesIn(config, nodes, tiers - 1, |CutAt(config, nodes, tiers - 1)|);
    if j < |before| {
      a, b := SwitchesFollowCut(config, nodes, n, d, tiers - 1, i, j);
    } else {
      assert here[j - |before|] in here;
      SwitchesInIff(config, nodes, n, d, tiers - 1, here[j - |before|]);
      if i < |before| {
        assert before[i] in before;
        SwitchesIff(config, nodes, n, d, tiers - 1, before[i]);
      } else {
        a, b := SwitchesInFollowCut(config, nodes, tiers - 1, |CutAt(config, nodes, tiers - 1)|,
                                    i - |before|, j - |before|);
      }
    }
  }

  lemma {:induction false} SwitchesInDistinct(config: TierConfig, nodes: seq<ClusterNode>, n: nat, d: Table, tier: nat,
                                              k: nat)
    requires Clustered(config, nodes, n, d) && k <= |CutAt(config, nodes, tier)|
    ensures forall i, j | 0 <= i < j < |SwitchesIn(config, nodes, tier, k)| ::
      SwitchesIn(config, nodes, tier, k)[i] != SwitchesIn(config, nodes, tier, k)[j]
  {
    hide Clustered, CutAt, BecomesSwitch;
    if k > 0 {
      SwitchesInDistinct(config, nodes, n, d, tier, k - 1);
      SwitchesInSound(config, nodes, tier, k - 1);
      CutAtPartitions(config, nodes, n, d, tier);
      var cs := CutAt(config, nodes, tier);
      var c := cs[k - 1];
      forall j | 0 <= j < k - 1
        ensures Members(cs[j]) != Members(c)
      {
        assert Apart(cs[k - 1], cs[j]);
        assert c[0] in c && c[0] in Members(c);
      }
      var before := SwitchesIn(config, nodes, tier, k - 1);
      forall s | s in before
        ensures s != Switch(Members(c), tier + 1)
      {
        var j :| 0 <= j < k - 1 && s == Switch(Members(cs[j]), tier + 1);
      }
      assert forall i | 0 <= i < |before| :: before[i] in before;
    }
  }

  /** Tiers ascend along the list, and no switch is listed twice. */
  ghost predicate InOrder(switches: seq<Switch>) {
    forall i, j | 0 <= i < j < |switches| :: switches[i].tier <= switches[j].tier && switches[i] != switches[j]
  }

  lemma {:induction false} SwitchesInOrder(config: TierConfig, nodes: seq<ClusterNode>, n: nat, d: Table, tiers: nat)
    requires Clustered(config, nodes, n, d)
    ensures InOrder(Switches(config, nodes, tiers))
  {
    if tiers > 0 {
      var before, k := Switches(config, nodes, tiers - 1), |CutAt(config, nodes, tiers - 1)|;
      var here := SwitchesIn(config, nodes, tiers - 1, k);
      SwitchesInOrder(config, nodes, n, d, tiers - 1);
      SwitchesInDistinct(config, nodes, n, d, tiers - 1, k);
      forall s | s in before
        ensures s.tier < tiers
      {
        SwitchesIff(config, nodes, n, d, tiers - 1, s);
      }
      forall s | s in here
        ensures s.tier == tiers
      {
        SwitchesInIff(config, nodes, n, d, tiers - 1, s);
      }
      forall i, j | 0 <= i < j < |before + here|
        ensures (before + here)[i].tier <= (before + here)[j].tier && (before + here)[i] != (before + here)[j]
      {
        assert i < |before| ==> before[i] in before;
        assert j < |before| ==> before[j] in before;
        assert j >= |before| ==> here[j - |before|] in here;
        assert i >= |before| ==> here[i - |before|] in here;
      }
    }
  }

  // ----- with ascending thresholds: first tier only, exactly once, nested

  /** A group that exists at two tiers exists at every tier between them. */
  lemma FormedBetween(config: TierConfig, nodes: seq<ClusterNode>, n: nat, d: Table, a: nat, m: nat, b: nat,
                      s: set<nat>)
    requires Clustered(config, nodes, n, d) && Ascending(config.thresholds) && a <= m <= b
    requires Formed(CutAt(config, nodes, a), s) && Formed(CutAt(config, nodes, b), s)
    ensures Formed(CutAt(config, nodes, m), s)
  {
    FormedIffGroup(config, nodes, n, d, a, s);
    FormedIffGroup(config, nodes, n, d, m, s);
    FormedIffGroup(config, nodes, n, d, b, s);
    var x: nat :| x < n && s == Group(config, nodes, n, a, x);
    var y: nat :| y < n && s == Group(config, nodes, n, b, y);
    GroupIsClass(config, nodes, n, d, a, x);
    GroupIsClass(config, nodes, n, d, b, y);
    GroupsGrow(config, nodes, n, d, a, m, x);
    GroupsGrow(config, nodes, n, d, m, b, x);
    assert s == Group(config, nodes, n, m, x);
  }

  /** s is formed at this tier and at none before it. */
  ghost predicate FirstFormed(config: TierConfig, nodes: seq<ClusterNode>, first: nat, s: set<nat>) {
    Formed(CutAt(config, nodes, first), s) && forall t: nat | t < first :: !Formed(CutAt(config, nodes, t), s)
  }

  lemma {:induction false} FirstTier(config: TierConfig, nodes: seq<ClusterNode>, tier: nat,
                                     s: set<nat>) returns (first: nat)
    requires Formed(CutAt(config, nodes, tier), s)
    ensures first <= tier && FirstFormed(config, nodes, first, s)
  {
    if t: nat :| t < tier && Formed(CutAt(config, nodes, t), s) {
      first := FirstTier(config, nodes, t, s);
    } else {
      first := tier;
    }
  }

  /** With ascending thresholds, comparing with the previous tier alone finds the first tier. */
  lemma FormsAtFirstTierOnly(config: TierConfig, nodes: seq<ClusterNode>, n: nat, d: Table, tier: nat, s: set<nat>)
    requires Clustered(config, nodes, n, d) && Ascending(config.thresholds) && |s| >= config.minClusterSize
    ensures FormsAt(config, nodes, tier, s) <==> FirstFormed(config, nodes, tier, s)
  {
    hide Clustered, CutAt, Formed;
    if FormsAt(config, nodes, tier, s) {
      forall t: nat | t < tier
        ensures !Formed(CutAt(config, nodes, t), s)
      {
        if Formed(CutAt(config, nodes, t), s) {
          FormedBetween(config, nodes, n, d, t, tier - 1, tier, s);
        }
      }
    }
  }

  /** Each group of at least the minimum size that any tier forms becomes a switch exactly once, at
      the first tier that forms it, although new groups are told apart only from the tier below. */
  lemma FirstTierOnly(config: TierConfig, nodes: seq<ClusterNode>, n: nat, d: Table, tier: nat, s: set<nat>)
    returns (i: nat)
    requires Clustered(config, nodes, n, d) && Ascending(config.thresholds)
    requires tier <= |config.thresholds| && Formed(CutAt(config, nodes, tier), s) && |s| >= config.minClusterSize
    ensures i < |AllSwitches(config, nodes)| && AllSwitches(config, nodes)[i].members == s
    ensures 0 < AllSwitches(config, nodes)[i].tier
    ensures FirstFormed(config, nodes, AllSwitches(config, nodes)[i].tier - 1, s)
    ensures forall j | 0 <= j < |AllSwitches(config, nodes)| && AllSwitches(config, nodes)[j].members == s :: j == i
  {
    hide Clustered, CutAt, Formed, FormsAt;
    var all, k := AllSwitches(config, nodes), |config.thresholds| + 1;
    var first := FirstTier(config, nodes, tier, s);
    FormsAtFirstTierOnly(config, nodes, n, d, first, s);
    SwitchesIff(config, nodes, n, d, k, Switch(s, first + 1));
    assert Switch(s, first + 1) in all;
    i :| 0 <= i < |all| && all[i] == Switch(s, first + 1);
    SwitchesInOrder(config, nodes, n, d, k);
    forall j | 0 <= j < |all| && all[j].members == s
      ensures j == i
    {
      assert all[j] in all;
      SwitchesIff(config, nodes, n, d, k, all[j]);
      FormsAtFirstTierOnly(config, nodes, n, d, all[j].tier - 1, s);
      assert all[j] == all[i];
    }
  }

  // ----- whatever the order of the thresholds

  /** A list of switches ordered by tier in which sets of one tier are disjoint and no set is
      repeated at the next tier. */
  ghost predicate Layered(switches: seq<Switch>, n: nat) {
    && (forall i | 0 <= i < |switches| ::
          switches[i].members != {} && switches[i].members <= Below(n) && switches[i].tier > 0)
    && (forall i, j | 0 <= i < j < |switches| :: switches[i].tier <= switches[j].tier)
    && (forall i, j | 0 <= i < |switches| && 0 <= j < |switches| && i != j && switches[i].tier == switches[j].tier ::
          switches[i].members !! switches[j].members)
    && (forall i, j | 0 <= i < |switches| && 0 <= j < |switches| && switches[j].tier == switches[i].tier + 1 ::
          switches[i].members != switches[j].members)
  }

  /** Two groups of one tier that share a node are the same. */
  lemma SameTierShares(config: TierConfig, nodes: seq<ClusterNode>, n: nat, d: Table, t: nat, s: set<nat>, s': set<nat>,
                       x: nat)
    requires Clustered(config, nodes, n, d)
    requires Formed(CutAt(config, nodes, t), s) && Formed(CutAt(config, nodes, t), s') && x in s && x in s'
    ensures s == s'
  {
    FormedIffGroup(config, nodes, n, d, t, s);
    FormedIffGroup(config, nodes, n, d, t, s');
    hide Clustered, CutAt, Formed, Group;
    var y: nat :| y < n && s == Group(config, nodes, n, t, y);
    var z: nat :| z < n && s' == Group(config, nodes, n, t, z);
    GroupIsClass(config, nodes, n, d, t, y);
    GroupIsClass(config, nodes, n, d, t, z);
  }

  lemma ListedApart(config: TierConfig, nodes: seq<ClusterNode>, n: nat, d: Table, i: nat, j: nat)
    requires Clustered(config, nodes, n, d)
    requires i < |AllSwitches(config, nodes)| && j < |AllSwitches(config, nodes)| && i != j
    ensures var s, s' := AllSwitches(config, nodes)[i], AllSwitches(config, nodes)[j];
      && (s.tier == s'.tier ==> s.members !! s'.members)
      && (s'.tier == s.tier + 1 ==> s.members != s'.members)
  {
    hide Clustered, CutAt, Formed;
    var all := AllSwitches(config, nodes);
    ListedSwitch(config, nodes, n, d, i);
    ListedSwitch(config, nodes, n, d, j);
    SwitchesInOrder(config, nodes, n, d, |config.thresholds| + 1);
    assert if i < j then all[i] != all[j] else all[j] != all[i];
    if x :| all[i].tier == all[j].tier && x in all[i].members && x in all[j].members {
      SameTierShares(config, nodes, n, d, all[i].tier - 1, all[i].members, all[j].members, x);
    }
  }

  /** The switches are layered for every configuration, in whatever order its thresholds stand. */
  lemma SwitchesAreLayered(config: TierConfig, nodes: seq<ClusterNode>, n: nat, d: Table)
    requires Clustered(config, nodes, n, d)
    ensures Layered(AllSwitches(config, nodes), n)
  {
    hide Clustered, CutAt, FormsAt, Switches;
    var all := AllSwitches(config, nodes);
    SwitchesInOrder(config, nodes, n, d, |config.thresholds| + 1);
    forall i: nat | i < |all|
      ensures all[i].members != {} && all[i].members <= Below(n) && all[i].tier > 0
    {
      ListedSwitch(config, nodes, n, d, i);
    }
    forall i: nat, j: nat | i < |all| && j < |all| && i != j
      ensures all[i].tier == all[j].tier ==> all[i].members !! all[j].members
      ensures all[j].tier == all[i].tier + 1 ==> all[i].members != all[j].members
    {
      ListedApart(config, nodes, n, d, i, j);
    }
  }

  // ----- with ascending thresholds: nested or disjoint

  /** A list of switches ordered by tier in which sets of one tier are disjoint, and a set of a
      lower tier lies strictly inside, or apart from, each set of a higher tier. */
  ghost predicate Laminar(switches: seq<Switch>, n: nat) {
    && (forall i | 0 <= i < |switches| ::
          switches[i].members != {} && switches[i].members <= Below(n) && switches[i].tier > 0)
    && (forall i, j | 0 <= i < j < |switches| :: switches[i].tier <= switches[j].tier)
    && (forall i, j | 0 <= i < |switches| && 0 <= j < |switches| && i != j && switches[i].tier == switches[j].tier ::
          switches[i].members !! switches[j].members)
    && (forall i, j | 0 <= i < |switches| && 0 <= j < |switches| && switches[i].tier < switches[j].tier ::
          switches[i].members < switches[j].members || switches[i].members !! switches[j].members)
  }

  /** Two switches at tiers t <= t' that share a node are nested; at the same tier they are one. */
  lemma SharedNodeNests(config: TierConfig, nodes: seq<ClusterNode>, n: nat, d: Table, s: Switch, s': Switch, x: nat)
    requires Clustered(config, nodes, n, d) && Ascending(config.thresholds)
    requires 0 < s.tier <= s'.tier && FormsAt(config, nodes, s.tier - 1, s.members)
    requires FormsAt(config, nodes, s'.tier - 1, s'.members)
    requires x in s.members && x in s'.members
    ensures if s.tier == s'.tier then s.members == s'.members else s.members < s'.members
  {
    hide Clustered, CutAt, Formed, Group;
    var a, b := s.tier - 1, s'.tier - 1;
    FormedIffGroup(config, nodes, n, d, a, s.members);
    FormedIffGroup(config, nodes, n, d, b, s'.members);
    var y: nat :| y < n && s.members == Group(config, nodes, n, a, y);
    var z: nat :| z < n && s'.members == Group(config, nodes, n, b, z);
    GroupIsClass(config, nodes, n, d, a, y);
    GroupIsClass(config, nodes, n, d, b, z);
    GroupsGrow(config, nodes, n, d, a, b, x);
    if a < b && s.members == s'.members {
      FormedBetween(config, nodes, n, d, a, b - 1, b, s.members);
    }
  }

  lemma ListedSwitch(config: TierConfig, nodes: seq<ClusterNode>, n: nat, d: Table, i: nat)
    requires Clustered(config, nodes, n, d) && i < |AllSwitches(config, nodes)|
    ensures var s := AllSwitches(config, nodes)[i];
      0 < s.tier <= |config.thresholds| + 1 && FormsAt(config, nodes, s.tier - 1, s.members)
      && s.members != {} && s.members <= Below(n)
  {
    hide Clustered, CutAt, Formed, Group, Switches;
    var s := AllSwitches(config, nodes)[i];
    assert s in AllSwitches(config, nodes);
    SwitchesIff(config, nodes, n, d, |config.thresholds| + 1, s);
    FormedIffGroup(config, nodes, n, d, s.tier - 1, s.members);
    var x: nat :| x < n && s.members == Group(config, nodes, n, s.tier - 1, x);
    GroupIsClass(config, nodes, n, d, s.tier - 1, x);
  }

  lemma ListedSwitchesNest(config: TierConfig, nodes: seq<ClusterNode>, n: nat, d: Table, i: nat, j: nat)
    requires Clustered(config, nodes, n, d) && Ascending(config.thresholds)
    requires i < |AllSwitches(config, nodes)| && j < |AllSwitches(config, nodes)| && i != j
    requires AllSwitches(config, nodes)[i].tier <= AllSwitches(config, nodes)[j].tier
    ensures var s, s' := AllSwitches(config, nodes)[i], AllSwitches(config, nodes)[j];
      s.members !! s'.members || (s.tier < s'.tier && s.members < s'.members)
  {
    hide Clustered, CutAt, FormsAt;
    var all := AllSwitches(config, nodes);
    ListedSwitch(config, nodes, n, d, i);
    ListedSwitch(config, nodes, n, d, j);
    SwitchesInOrder(config, nodes, n, d, |config.thresholds| + 1);
    assert if i < j then all[i] != all[j] else all[j] != all[i];
    if x :| x in all[i].members && x in all[j].members {
      SharedNodeNests(config, nodes, n, d, all[i], all[j], x);
    }
  }

  /** The member sets of the switches form a laminar family. */
  lemma SwitchesAreLaminar(config: TierConfig, nodes: seq<ClusterNode>, n: nat, d: Table)
    requires Clustered(config, nodes, n, d) && Ascending(config.thresholds)
    ensures Laminar(AllSwitches(config, nodes), n)
  {
    var all := AllSwitches(config, nodes);
    SwitchesInOrder(config, nodes, n, d, |config.thresholds| + 1);
    forall i: nat | i < |all|
      ensures all[i].members != {} && all[i].members <= Below(n) && all[i].tier > 0
    {
      ListedSwitch(config, nodes, n, d, i);
    }
    forall i: nat, j: nat | i < |all| && j < |all| && i != j && all[i].tier <= all[j].tier
      ensures all[i].members !! all[j].members || (all[i].tier < all[j].tier && all[i].members < all[j].members)
    {
      ListedSwitchesNest(config, nodes, n, d, i, j);
    }
  }

  /** When there are at least the minimum number of nodes, exactly one switch holds them all. */
  lemma OneSwitchHoldsAll(config: TierConfig, nodes: seq<ClusterNode>, n: nat, d: Table) returns (i: nat)
    requires Clustered(config, nodes, n, d) && Ascending(config.thresholds) && n >= config.minClusterSize
    ensures i < |AllSwitches(config, nodes)| && AllSwitches(config, nodes)[i].members == Below(n)
    ensures forall j | 0 <= j < |AllSwitches(config, nodes)| && AllSwitches(config, nodes)[j].members == Below(n) ::
      j == i
  {
    var top := |config.thresholds|;
    forall y | y in Below(n)
      ensures y in Group(config, nodes, n, top, 0)
    {
      TopCut(config, nodes, n, d, top, 0, y);
    }
    assert Group(config, nodes, n, top, 0) == Below(n);
    FormedIffGroup(config, nodes, n, d, top, Below(n));
    i := FirstTierOnly(config, nodes, n, d, top, Below(n));
  }
}
