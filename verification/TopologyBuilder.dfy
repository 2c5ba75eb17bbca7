/** From latencies to a topology graph: cluster, assign tiers, infer switches, connect. */
module TopologyBuilder {
  import opened Common
  import opened LatencyMatrices
  import opened Dendrograms
  import opened DendrogramBuild
  import opened TierConfigs
  import opened AssignTiers
  import opened HiddenNodes
  import opened Edges
  import opened ConstructEdges
  import opened ForestTheorems
  import opened RoundTrip
  import opened Connectivity
  import opened Numbers
  import DendrogramTheorems
  import LatencyCsv

  datatype PhysicalNode = PhysicalNode(nodeId: nat, tier: nat, clusterId: nat)

  function AssignmentsOf(physical: seq<PhysicalNode>): seq<TierAssignment> {
    seq(|physical|, i requires 0 <= i < |physical| =>
      TierAssignment(physical[i].nodeId, physical[i].tier, physical[i].clusterId))
  }

  class TopologyGraph {
    var physicalNodes: seq<PhysicalNode>
    var hiddenNodes: seq<HiddenNode>
    var edges: seq<Edge>

    constructor ()
      ensures physicalNodes == [] && hiddenNodes == [] && edges == []
    {
      physicalNodes, hiddenNodes, edges := [], [], [];
    }

    method AddPhysicalNode(node: PhysicalNode)
      modifies this`physicalNodes
      ensures physicalNodes == old(physicalNodes) + [node]
    {
      physicalNodes := physicalNodes + [node];
    }

    method AddHiddenNode(node: HiddenNode)
      modifies this`hiddenNodes
      ensures hiddenNodes == old(hiddenNodes) + [node]
    {
      hiddenNodes := hiddenNodes + [node];
    }

    method AddEdge(edge: Edge)
      modifies this`edges
      ensures edges == old(edges) + [edge]
    {
      edges := edges + [edge];
    }

    /** Each physical node carries the first tier that groups it; within a tier, cluster ids tell
        apart exactly the groups of that tier's cut, numbered from zero by first appearance. */
    ghost predicate TiersMatch(config: TierConfig, nodes: seq<ClusterNode>, n: nat)
      reads this
    {
      && |physicalNodes| == n
      && (forall x | 0 <= x < n :: physicalNodes[x].nodeId == x
           && FirstGrouped(config, nodes, |config.thresholds|, x, physicalNodes[x].tier))
      && (forall x, y | 0 <= x < n && 0 <= y < n && x != y && physicalNodes[x].tier == physicalNodes[y].tier ::
           physicalNodes[x].clusterId == physicalNodes[y].clusterId
           <==> physicalNodes[x].tier < |config.thresholds|
                && DendrogramTheorems.Together(CutAt(config, nodes, physicalNodes[x].tier), x, y))
      && FirstAppearanceOrder(AssignmentsOf(physicalNodes), n)
    }

    /** The whole graph that belongs to a dendrogram of the distances d. */
    ghost predicate Inferred(config: TierConfig, nodes: seq<ClusterNode>, n: nat, d: Table)
      reads this
    {
      && Clustered(config, nodes, n, d)
      && TiersMatch(config, nodes, n)
      && Describes(hiddenNodes, AllSwitches(config, nodes))
      && edges == Wire(AllSwitches(config, nodes), d, n, |AllSwitches(config, nodes)|)
    }
  }

  method Build(config: TierConfig, latencies: LatencyMatrix) returns (graph: TopologyGraph,
               ghost nodes: seq<ClusterNode>)
    requires latencies.Valid()
    requires forall i, j | 0 <= i < j < latencies.numNodes :: At(latencies.Table(), i, j) < DBL_MAX
    ensures fresh(graph)
    ensures latencies.numNodes == 0 ==> graph.physicalNodes == [] && graph.hiddenNodes == [] && graph.edges == []
    ensures latencies.numNodes > 0 ==> graph.Inferred(config, nodes, latencies.numNodes, latencies.Table())
  {
    graph := new TopologyGraph();
    nodes := [];
    var n := latencies.numNodes;
    if n == 0 {
      return;
    }
    ghost var d := latencies.Table();
    var dendrogram := Dendrogram.Build(latencies, config.linkage);
    nodes := dendrogram.nodes;
    var assignments := AssignTiers.AssignTiers(config, dendrogram, n, d);
    var hidden := InferHiddenNodes(config, dendrogram, n, d);
    var edges := ConstructEdges.ConstructEdges(config, hidden, latencies, nodes);
    Fill(graph, assignments, hidden, edges);
    assert AssignmentsOf(graph.physicalNodes) == assignments;
  }

  /** Copies the parts into the graph. */
  method Fill(graph: TopologyGraph, assignments: seq<TierAssignment>, hidden: seq<HiddenNode>, edges: seq<Edge>)
    requires graph.physicalNodes == [] && graph.hiddenNodes == [] && graph.edges == []
    modifies graph
    ensures |graph.physicalNodes| == |assignments|
    ensures forall i | 0 <= i < |assignments| ::
      graph.physicalNodes[i] == PhysicalNode(assignments[i].nodeId, assignments[i].tier, assignments[i].clusterId)
    ensures graph.hiddenNodes == hidden && graph.edges == edges
  {
    for i := 0 to |assignments|
      invariant graph.hiddenNodes == [] && graph.edges == [] && |graph.physicalNodes| == i
      invariant forall k | 0 <= k < i ::
        graph.physicalNodes[k] == PhysicalNode(assignments[k].nodeId, assignments[k].tier, assignments[k].clusterId)
    {
      var ta := assignments[i];
      graph.AddPhysicalNode(PhysicalNode(ta.nodeId, ta.tier, ta.clusterId));
    }
    ghost var physical := graph.physicalNodes;
    for i := 0 to |hidden|
      invariant graph.hiddenNodes == hidden[..i] && graph.edges == [] && graph.physicalNodes == physical
    {
      graph.AddHiddenNode(hidden[i]);
    }
    for i := 0 to |edges|
      invariant graph.hiddenNodes == hidden && graph.edges == edges[..i] && graph.physicalNodes == physical
    {
      graph.AddEdge(edges[i]);
    }
  }

  /** Averaging the two directions first makes no difference to what is inferred. */
  method BuildSymmetrized(config: TierConfig, latencies: LatencyMatrix) returns (graph: TopologyGraph,
                          ghost nodes: seq<ClusterNode>)
    requires latencies.Valid()
    requires forall i, j | 0 <= i < j < latencies.numNodes :: At(latencies.Table(), i, j) < DBL_MAX
    modifies latencies
    ensures latencies.Valid() && fresh(graph)
    ensures latencies.numNodes > 0 ==> graph.Inferred(config, nodes, latencies.numNodes, old(latencies.Table()))
  {
    latencies.Symmetrize();
    graph, nodes := Build(config, latencies);
  }

  /** The two-way averages of a square table. */
  function TwoWay(rows: Table): (d: Table)
    ensures |d| == |rows| && forall i | 0 <= i < |rows| :: |d[i]| == |rows|
    ensures forall i, j | 0 <= i < |rows| && 0 <= j < |rows| :: d[i][j] - At(rows, i, j) == At(rows, j, i) - d[i][j]
  {
    seq(|rows|, (i: nat) => seq(|rows|, (j: nat) => (At(rows, i, j) + At(rows, j, i)) / 2.0))
  }

  lemma LoadedDistances(matrix: LatencyMatrix, rows: Table)
    requires LatencyCsv.HoldsRows(matrix, rows)
    ensures matrix.Table() == TwoWay(rows)
  {
    forall i: nat, j: nat | i < |rows| && j < |rows|
      ensures matrix.Table()[i][j] == TwoWay(rows)[i][j]
    {
      assert matrix.data[i][j].avgNs == rows[i][j] && matrix.data[j][i].avgNs == rows[j][i];
    }
    assert forall i | 0 <= i < |rows| :: matrix.Table()[i] == TwoWay(rows)[i];
  }

  /** Loads a matrix from CSV text, averages the two directions and infers the graph; or says why the
      text is refused. */
  method BuildFromCsv(config: TierConfig, text: string, stod: string -> Option<real>)
    returns (r: Result<TopologyGraph>, ghost nodes: seq<ClusterNode>)
    requires var parsed := LatencyCsv.ParseCsv(text, stod);
      parsed.Ok? ==> forall i, j | 0 <= i < j < |parsed.value| :: At(TwoWay(parsed.value), i, j) < DBL_MAX
    ensures var parsed := LatencyCsv.ParseCsv(text, stod);
      match r
      case Err(message) => parsed == Err(message)
      case Ok(graph) =>
        parsed.Ok? && fresh(graph)
        && graph.Inferred(config, nodes, |parsed.value|, TwoWay(parsed.value))
  {
    hide LatencyCsv.ParseCsv;
    nodes := [];
    var loaded := LatencyCsv.FromCsv(text, stod);
    if loaded.Err? {
      return Err(loaded.message), nodes;
    }
    var latencies := loaded.value;
    LoadedDistances(latencies, LatencyCsv.ParseCsv(text, stod).value);
    ParsedNotEmpty(text, stod);
    var graph: TopologyGraph;
    graph, nodes := BuildSymmetrized(config, latencies);
    return Ok(graph), nodes;
  }

  lemma ParsedNotEmpty(text: string, stod: string -> Option<real>)
    ensures LatencyCsv.ParseCsv(text, stod).Ok? ==> LatencyCsv.ParseCsv(text, stod).value != []
  {
    hide LatencyCsv.ParseLines;
  }

  /** From the controller's stored results through its file to the graph: what is inferred is the
      graph of the measured latencies, each as the nearest double. */
  method InferFromResults(config: TierConfig, n: nat, results: seq<LatencyCsv.LatencyResult>,
                          stod: string -> Option<real>)
    returns (graph: TopologyGraph, ghost nodes: seq<ClusterNode>)
    requires n > 0 && ConvertsIntegers(stod)
    ensures fresh(graph) && graph.Inferred(config, nodes, n, LatencyCsv.MeasuredTable(n, results))
  {
    var text := LatencyCsv.WriteCsv(n, results);
    ghost var rows := LatencyCsv.MeasuredTable(n, results);
    LatencyCsv.CsvRoundTrip(LatencyCsv.LatestTable(n, results), stod);
    MeasuredTwoWay(n, results);
    hide LatencyCsv.ParseCsv, LatencyCsv.CsvText, LatencyCsv.MeasuredTable,
         LatencyCsv.LatestTable, TwoWay, ConvertsIntegers;
    var r;
    r, nodes := BuildFromCsv(config, text, stod);
    graph := r.value;
  }

  lemma MeasuredTwoWay(n: nat, results: seq<LatencyCsv.LatencyResult>)
    ensures var rows := LatencyCsv.MeasuredTable(n, results);
      |rows| == n && TwoWay(rows) == rows && forall i, j | 0 <= i < j < n :: At(rows, i, j) < DBL_MAX
  {
    var rows := LatencyCsv.MeasuredTable(n, results);
    LatencyCsv.MeasuredSymmetric(n, results);
    forall i: nat, j: nat | i < n && j < n
      ensures At(rows, i, j) < DBL_MAX
    {
      LatencyCsv.MeasuredBound(n, results, i, j);
    }
    hide LatencyCsv.MeasuredTable, LatencyCsv.Latest, ToDouble;
    forall i: nat | i < n
      ensures TwoWay(rows)[i] == rows[i]
    {
    }
  }

  /** Two graphs inferred from the same distances are the same. */
  lemma InferenceIsDeterministic(config: TierConfig, n: nat, d: Table,
                                 a: TopologyGraph, nodesA: seq<ClusterNode>, b: TopologyGraph, nodesB: seq<ClusterNode>)
    requires a.Inferred(config, nodesA, n, d) && b.Inferred(config, nodesB, n, d)
    ensures nodesA == nodesB
    ensures a.physicalNodes == b.physicalNodes && a.hiddenNodes == b.hiddenNodes && a.edges == b.edges
  {
    DendrogramIsUnique(nodesA, nodesB, n, d, config.linkage);
    SameNodes(config, nodesA, n, a, b);
  }

  lemma SameNodes(config: TierConfig, nodes: seq<ClusterNode>, n: nat, a: TopologyGraph, b: TopologyGraph)
    requires a.TiersMatch(config, nodes, n) && b.TiersMatch(config, nodes, n)
    ensures a.physicalNodes == b.physicalNodes
  {
    var out, out' := AssignmentsOf(a.physicalNodes), AssignmentsOf(b.physicalNodes);
    forall x: nat | x < n
      ensures a.physicalNodes[x].tier == b.physicalNodes[x].tier
    {
      FirstGroupedUnique(config, nodes, x, a.physicalNodes[x].tier, b.physicalNodes[x].tier);
    }
    hide FirstGrouped, FirstAppearanceOrder;
    assert SamePartition(out, out');
    forall x: nat | x < n
      ensures a.physicalNodes[x] == b.physicalNodes[x]
    {
      IdsDetermined(out, out', x);
    }
  }

  lemma FirstGroupedUnique(config: TierConfig, nodes: seq<ClusterNode>, x: nat, t: nat, t': nat)
    requires FirstGrouped(config, nodes, |config.thresholds|, x, t)
    requires FirstGrouped(config, nodes, |config.thresholds|, x, t')
    ensures t == t'
  {
  }

  /** The edges of an inferred graph form a forest that rises through the tiers, whatever the
      latencies, the linkage and the thresholds. */
  lemma InferredGraphIsForest(config: TierConfig, nodes: seq<ClusterNode>, n: nat, d: Table, graph: TopologyGraph,
                              c: seq<Vertex>)
    requires graph.Inferred(config, nodes, n, d)
    ensures OneEdgeEach(graph.edges) && Rising(AllSwitches(config, nodes), graph.edges) && !Cycle(graph.edges, c)
  {
    hide Clustered, Layered, Wire;
    SwitchesAreLayered(config, nodes, n, d);
    EdgesFormForest(AllSwitches(config, nodes), d, n, c);
  }

  /** An inferred graph is connected if and only if every node is in a lowest switch and every switch
      but the last lies inside one of the next tier (without switches: if there is at most one node). */
  lemma InferredGraphConnectedIff(config: TierConfig, nodes: seq<ClusterNode>, n: nat, d: Table, graph: TopologyGraph)
    requires graph.Inferred(config, nodes, n, d)
    ensures Connected(graph.edges, |graph.hiddenNodes|, n)
      <==> if graph.hiddenNodes == [] then n <= 1 else Complete(AllSwitches(config, nodes), n)
  {
    hide Clustered, Layered, Wire, Connected;
    SwitchesAreLayered(config, nodes, n, d);
    ConnectedIff(AllSwitches(config, nodes), d, n);
  }

  /** On hierarchical latencies the paths of an inferred graph add up to what was measured. */
  lemma InferredGraphGivesBackLatencies(config: TierConfig, nodes: seq<ClusterNode>, n: nat, d: Table, levels: seq<nat>,
                                        graph: TopologyGraph, x: nat, y: nat) returns (h: nat)
    requires graph.Inferred(config, nodes, n, d) && Hierarchical(config, d, n, levels) && x < n && y < n && x != y
    ensures h < |graph.hiddenNodes| && LowestCommon(AllSwitches(config, nodes), x, y, h)
    ensures var size := |graph.hiddenNodes|;
      PathReaches(size, graph.edges, x, h) && PathReaches(size, graph.edges, y, h)
      && (PathTo(size, graph.edges, x, h) + PathTo(size, graph.edges, y, h)) as real == At(d, x, y)
  {
    hide Clustered, Hierarchical, Wire, PathTo, PathReaches;
    h := TreeGivesBackLatencies(config, nodes, n, d, levels, x, y);
  }
}
