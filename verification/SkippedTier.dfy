/** A network whose inferred graph is not connected: a tier at which no cluster grows has no switch,
    and edges join a tier only to the next. */
module SkippedTier {
  import opened LatencyMatrices
  import opened Linkages
  import opened Dendrograms
  import opened DendrogramTheorems
  import opened TierConfigs
  import opened HiddenNodes
  import opened ForestTheorems
  import opened RoundTrip
  import opened Connectivity
  import opened TopologyBuilder

  /** The middle threshold lies between the two distances of the network, like the first. */
  function Config(link: LinkageType): TierConfig { TierConfig([5, 7, 20], link, 2) }

  lemma GroupAt(link: LinkageType, nodes: seq<ClusterNode>, tier: nat, x: nat, y: nat)
    requires Clustered(Config(link), nodes, 4, TWO_PAIRS) && tier < 3 && x < 4 && y < 4
    ensures y in Group(Config(link), nodes, 4, tier, x) <==> x / 2 == y / 2 || tier == 2
  {
    TwoPairsDistances();
    if x == y {
      GroupIsClass(Config(link), nodes, 4, TWO_PAIRS, tier, x);
    } else {
      UltrametricIsRecovered(nodes, 4, TWO_PAIRS, link, ThresholdAt(Config(link), nodes, tier), x, y);
    }
  }

  /** No cluster forms at the second tier. */
  lemma NothingForms(link: LinkageType, nodes: seq<ClusterNode>, s: set<nat>)
    requires Clustered(Config(link), nodes, 4, TWO_PAIRS)
    ensures !FormsAt(Config(link), nodes, 1, s)
  {
    var config := Config(link);
    FormedIffGroup(config, nodes, 4, TWO_PAIRS, 0, s);
    FormedIffGroup(config, nodes, 4, TWO_PAIRS, 1, s);
    if x: nat :| x < 4 && s == Group(config, nodes, 4, 1, x) {
      forall y
        ensures y in Group(config, nodes, 4, 1, x) <==> y in Group(config, nodes, 4, 0, x)
      {
        if y < 4 {
          GroupAt(link, nodes, 0, x, y);
          GroupAt(link, nodes, 1, x, y);
        }
      }
      assert s == Group(config, nodes, 4, 0, x);
    }
  }

  /** The cluster of node 0 forms at the first and at the third tier. */
  lemma GroupForms(link: LinkageType, nodes: seq<ClusterNode>, tier: nat)
    requires Clustered(Config(link), nodes, 4, TWO_PAIRS) && (tier == 0 || tier == 2)
    ensures FormsAt(Config(link), nodes, tier, Group(Config(link), nodes, 4, tier, 0))
  {
    var config, s := Config(link), Group(Config(link), nodes, 4, tier, 0);
    FormedIffGroup(config, nodes, 4, TWO_PAIRS, tier, s);
    GroupAt(link, nodes, tier, 0, 0);
    GroupAt(link, nodes, tier, 0, 1);
    assert |s - {0} - {1}| + 2 == |s|;
    if tier == 2 {
      GroupAt(link, nodes, 1, 0, 2);
      GroupAt(link, nodes, 2, 0, 2);
      NotAGroupBelow(config, nodes, 4, TWO_PAIRS, 1, 0, 2, s);
    }
  }

  lemma SwitchesSkipTier(link: LinkageType, nodes: seq<ClusterNode>)
    requires Clustered(Config(link), nodes, 4, TWO_PAIRS)
    ensures var all := AllSwitches(Config(link), nodes);
      !Connected(AllEdges(all, TWO_PAIRS, 4), |all|, 4)
  {
    var config := Config(link);
    var all := AllSwitches(config, nodes);
    GroupForms(link, nodes, 0);
    GroupForms(link, nodes, 2);
    var g := SwitchOfForming(config, nodes, 4, TWO_PAIRS, 0, 0);
    var h := SwitchOfForming(config, nodes, 4, TWO_PAIRS, 2, 0);
    forall k: nat | k < |all|
      ensures all[k].tier != 2
    {
      ListedSwitch(config, nodes, 4, TWO_PAIRS, k);
      NothingForms(link, nodes, all[k].members);
    }
    SwitchesAreLayered(config, nodes, 4, TWO_PAIRS);
    SkippedTierDisconnects(all, TWO_PAIRS, 4, g, h);
  }

  lemma TwoPairsTable(matrix: LatencyMatrix)
    requires matrix.Valid() && matrix.numNodes == 4
    requires forall i, j | 0 <= i < 4 && 0 <= j < 4 :: matrix.data[i][j].avgNs == At(TWO_PAIRS, i, j)
    ensures matrix.Table() == TWO_PAIRS
  {
    TwoPairsDistances();
    forall i: nat, j: nat | i < 4 && j < 4
      ensures matrix.Table()[i][j] == TWO_PAIRS[i][j]
    {
      assert At(TWO_PAIRS, i, j) == At(TWO_PAIRS, j, i);
    }
    assert forall i | 0 <= i < 4 :: matrix.Table()[i] == TWO_PAIRS[i];
  }

  /** Whatever the linkage, the graph built from this network is not connected. */
  method BuildDisconnected(link: LinkageType) returns (graph: TopologyGraph)
    ensures !Connected(graph.edges, |graph.hiddenNodes|, 4)
  {
    var matrix := new LatencyMatrix(4);
    matrix.Fill(TWO_PAIRS);
    TwoPairsTable(matrix);
    TwoPairsDistances();
    ghost var nodes;
    graph, nodes := Build(Config(link), matrix);
    SwitchesSkipTier(link, nodes);
  }
}
