# Topology discovery: a verified model

The repository measures the latency between every pair of agents of a cluster and infers from the
measurements which switches must lie between them. This project models both halves in Dafny and
proves what they promise.

**Topology inference.** `LatencyMatrix` and `Linkage` hold the distances and the three linkage rules.
`Dendrogram` says which trees the greedy merge loop may build; `DendrogramBuild` is the loop itself,
over a mutable matrix, an active mask and a slot table, proved to build such a tree; and
`DendrogramTheorems` proves what every such tree guarantees. `TierConfig`, `AssignTiers` and
`HiddenNodes` cut the tree tier by tier, number the clusters and infer switches. `Edges` states the
edge list; `ConstructEdges` is the code that re-derives membership and lays the edges.
`ForestTheorems` proves the shape of the result, `EdgeWeights` what each edge weighs, `Connectivity` when it hangs together (`SkippedTier`
is a network where it does not), `RoundTrip` that path lengths give back the measured latencies on a
hierarchical network, and `TopologyBuilder` puts the pipeline together, from a CSV text to the graph.

**Measurement protocol.** `Protocol` is a step system: the controller writes numbered commands into
inboxes, two agents exchange sequence numbers through mailboxes, and any write may fail and any wait
may time out. `Freshness`, `Transfers` and `Lockstep` prove safety over all runs; `CrossTalk` shows from
which states a test can be disturbed by an older one, and that these are all. `SharedMemory`, `AgentProcess` and `ControllerProcess` are the loops that
agents and controller really run, with the other parties taking steps in between; each is proved to
take only steps of the step system, so the theorems about all runs are theorems about the loops.
`Measurements` covers the statistics and the window clamping, `Rendezvous` the phases before the
first test, `LatencyCsv`, `Numbers` and `Doubles` the file between the two halves, and `Base64` the metadata
codec, which `Base64Standard` compares with RFC 4648.

## What the proofs found

- The inferred graph is a forest for every configuration, also one whose thresholds do not ascend. It
  is connected if and only if every node is in a switch of the *lowest* tier and every switch but the
  last lies inside one exactly one tier up; with ascending thresholds: if and only if there is one
  switch of the top tier and every tier in between covers every node. A tier at which no cluster grows
  is enough to cut the graph apart (`SkippedTier.BuildDisconnected`).
- Results are fresh in every run, but a test can be disturbed by an older one. When the controller is
  about to issue a test, every run gives the next test samples of its own only, if and only if every
  agent is *quiet* (`CrossTalk.NextTestIsOwnIff`): it polls, reports, waits where the next test's first
  signal cannot wake it, or holds a command that makes it write nothing. From every other state a run
  leads to a completed result of the next test whose sample is an old message of the agent that was not
  quiet, even if that agent is the test's own responder. A completed test leaves every agent quiet, so
  a controller that goes on only after complete results never issues a test that can be disturbed; the
  code goes on after failed ones too.
- A completed test has the requested number of samples if and only if warm-up plus iterations stay
  below 2^32; the reported average is exact if and only if the sum of samples stays below 2^64, and
  is at least the minimum if and only if the wrapped sum is at least as many times the minimum as there
  are samples; and slot writes stay clear of the inbox if and only if window times message size stays
  below 2^64.
- Slots are written over the places where their receiver prepares its own messages: always over the
  start of its buffer, and over its acknowledgement word if and only if the window leaves fewer than 64
  bytes to the inbox. In an undisturbed test this harms nothing but the report of an older test, because
  the receiver prepares no other message while slots are being written (`Lockstep.SlotsMeetNoMessage`).
- A message size of zero escapes the controller's window clamping: the agent then uses four
  megabytes, of which 63 slots fit and the default 64 do not. A window of zero escapes it as well.
- A latency survives the way through the CSV file unchanged if and only if it has at most 53
  significant bits; otherwise the nearest double arrives.
- The header says that unmeasured pairs are written as -1 (src/controller/controller.hpp:203); the
  code writes 0 (src/controller/controller.cpp:588-589), and the model follows the code.
- Cluster ids within a tier count from 0, which relies on C++17's order of evaluation in
  src/topology/topology_builder.cpp:107.

## Model

| member | source | states |
|---|---|---|
| LatencyMatrices.LatencyMatrix.constructor | src/topology/latency_matrix.cpp:11-14 | a new matrix is square and all zero |
| LatencyMatrices.LatencyMatrix.Distance | src/topology/latency_matrix.cpp:118-121 | the distance lies half-way between the entries of the two directions, so it is the same in both |
| LatencyMatrices.LatencyMatrix.Symmetrize | src/topology/latency_matrix.cpp:90-98 | no pairwise distance changes; every off-diagonal entry becomes its distance, nothing else is touched |
| LatencyMatrices.SymmetricEntriesAreDistances | src/topology/latency_matrix.cpp:118-121 | an entry is its own distance exactly when the two directions agree |
| LatencyMatrices.LatencyMatrix.Fill | src/topology/latency_matrix.cpp:79-85 | every entry takes its number as average, minimum and maximum |
| Linkages.UpdateIsExact | src/topology/dendrogram.cpp:97-121 | the update from two cached distances is the minimum, maximum or mean over all cross pairs of the merged set |
| Linkages.LinkDistSymmetric | src/topology/dendrogram.cpp:123-125 | set distance is symmetric, as the mirrored write assumes |
| Linkages.LinkDistAttained | src/topology/dendrogram.cpp:102-109 | minimum and maximum are attained by a pair and bound all pairs |
| Linkages.AverageAdds | src/topology/dendrogram.cpp:110-121 | AVERAGE: the distance times the number of cross pairs is additive over a union of members |
| Linkages.LinkDistOfLeaves | src/topology/dendrogram.cpp:39-49 | between two single nodes every linkage takes their distance |
| Linkages.UpdateKeepsLowerBound | src/topology/dendrogram.cpp:101-121 | the updated distance is never below what bounds both old ones (no inversions) |
| Linkages.UpdateKeepsUpperBound | src/topology/dendrogram.cpp:101-121 | nor above what bounds both from above, so the sentinel of the scan stays out of reach |
| DendrogramBuild.FindClosest | src/topology/dendrogram.cpp:60-75 | no active pair is closer than the one found; of equally close pairs it has the smallest row, and in it the smallest column |
| DendrogramBuild.MergeRows | src/topology/dendrogram.cpp:93-126 | exactly the merged slot's row and column change, for active slots only |
| DendrogramBuild.MergeCache | src/topology/dendrogram.cpp:93-130 | after the update every entry of two active slots is again the set distance of their clusters in the new tree |
| DendrogramBuild.ScanFindsClosest | src/topology/dendrogram.cpp:60-82 | the pair found in the cache is a closest pair of clusters by the original distances |
| DendrogramBuild.MergeKeepsSlots | src/topology/dendrogram.cpp:128-130 | retiring one slot and reusing the other keeps slots and current clusters in one-to-one correspondence |
| DendrogramBuild.Dendrogram.MergeOnce | src/topology/dendrogram.cpp:59-131 | one round appends one node and keeps tree, slot table and cache in agreement |
| DendrogramBuild.Dendrogram.Build | src/topology/dendrogram.cpp:10-134 | the result is the greedy dendrogram of the matrix: 2n - 1 nodes, each merge that of a closest pair |
| DendrogramBuild.Dendrogram.CutAtThreshold | src/topology/dendrogram.cpp:136-165 | the clusters are those of the recursive cut at the root, in traversal order, and the traversal ends |
| DendrogramBuild.CutKeepsOrder | src/topology/dendrogram.cpp:145-161 | the clusters of a cut are consecutive pieces of the member list, in its order |
| Dendrograms.ChildrenPrecede | src/topology/dendrogram.cpp:24-32 | children come before parents, and exactly the first n nodes are leaves |
| Dendrograms.RootsPartition | src/topology/dendrogram.cpp:51-131 | after every merge the current clusters are disjoint and cover all leaves |
| Dendrograms.RootCount | src/topology/dendrogram.cpp:59-131 | each merge leaves one cluster fewer, so a pair is always left to merge |
| Dendrograms.RootContainsAll | src/topology/dendrogram.cpp:59-134 | the last node contains exactly all leaves |
| Dendrograms.HalvesApart | src/topology/dendrogram.cpp:84-89 | the member lists joined by a merge are disjoint |
| Dendrograms.DendrogramIsUnique | src/topology/dendrogram.cpp:58-75 | distances and linkage determine the tree node by node |
| Dendrograms.SlotIsLeast | src/topology/dendrogram.cpp:84-91 | the slot a cluster lives in is its least member, which stands first in its member list |
| Dendrograms.TiesGoToLowest | src/topology/dendrogram.cpp:60-82 | no two current clusters are closer than the pair merged; among equally close pairs the least members decide, first of the one cluster, then of the other; the left child has the lesser |
| DendrogramTheorems.MergeDistancesAscend | src/topology/dendrogram.cpp:58-131 | merge distances never decrease, for all three linkages |
| DendrogramTheorems.RootDistanceIsLargest | src/topology/dendrogram.cpp:167-172 | the root's merge distance is the largest of all merges, and of all nodes exactly when it is not negative |
| DendrogramTheorems.CutIsPartition | src/topology/dendrogram.cpp:136-165 | every cut is a partition of the leaves |
| DendrogramTheorems.CutJoins | src/topology/dendrogram.cpp:145-161 | a cut puts two nodes together exactly when the tree merges them within the threshold |
| DendrogramTheorems.JoinedAt | src/topology/dendrogram.cpp:145-161 | one merge brings two nodes together, one from each child, and a cut keeps them together exactly when that merge is within its threshold |
| DendrogramTheorems.CutsNest | src/topology/dendrogram.cpp:136-165 | a cut at a smaller threshold refines one at a larger |
| DendrogramTheorems.SingleCutIsComponents | src/topology/dendrogram.cpp:58-131 | SINGLE: clusters at t are the connected components under hops of at most t; merge distance is the minimax path distance |
| DendrogramTheorems.CompleteMergeIsDiameter | src/topology/dendrogram.cpp:77-126 | COMPLETE: merge distance is the diameter of the members, attained and bounding |
| DendrogramTheorems.CompleteCutBoundsDiameter | src/topology/dendrogram.cpp:145-161 | COMPLETE: a cluster of a cut at t has diameter at most t |
| DendrogramTheorems.UltrametricIsRecovered | src/topology/dendrogram.cpp:58-131 | on an ultrametric every linkage merges each pair at exactly its distance |
| TierConfigs.GroupIsClass | src/topology/topology_builder.cpp:82-83 | being in one cluster of a tier's cut is an equivalence |
| TierConfigs.GroupsGrow | src/topology/topology_builder.cpp:127-136 | with ascending thresholds groups only grow from tier to tier |
| TierConfigs.TopCut | src/topology/topology_builder.cpp:131-134 | the cut above the last threshold joins everything |
| TierConfigs.GroupIffMerged | src/topology/topology_builder.cpp:82-83 | below the last threshold a tier groups two nodes exactly when the tree merges them within its threshold |
| TierConfigs.FormedIffGroup | src/topology/topology_builder.cpp:136-141 | the clusters of a tier's cut are exactly the groups of its members |
| AssignTiers.GroupedIffLarge | src/topology/topology_builder.cpp:88 | a cluster has more than one node exactly when it groups its members with others |
| AssignTiers.SingleGroupsNearest | src/topology/topology_builder.cpp:79-92 | SINGLE: a tier groups a node exactly when its nearest neighbour is within the threshold |
| AssignTiers.TierIs | src/topology/topology_builder.cpp:67-100 | the tier of a node is the first whose cut puts it together with another node, and one past the last if none does |
| AssignTiers.SingleTierIs | src/topology/topology_builder.cpp:67-100 | SINGLE: it is the first threshold that reaches the nearest neighbour |
| AssignTiers.LowerClusters | src/topology/topology_builder.cpp:85-99 | one scan lowers exactly the members of clusters of two or more, each to its own cluster's index |
| AssignTiers.FirstPass | src/topology/topology_builder.cpp:67-100 | every node ends with the first tier that groups it and its cluster's index there |
| AssignTiers.Normalize | src/topology/topology_builder.cpp:102-110 | renumbering keeps equal ids equal and different ones different within a tier, and gives numbers from 0 in order of first appearance |
| AssignTiers.SameClusterId | src/topology/topology_builder.cpp:92-98 | two nodes of one tier have one raw id exactly when that tier's cut joins them |
| AssignTiers.IdsDetermined | src/topology/topology_builder.cpp:102-110 | numbering by first appearance leaves no choice: tiers and shared ids determine the ids |
| AssignTiers.AssignTiers | src/topology/topology_builder.cpp:63-113 | first grouping tier; shared ids exactly for joined nodes; ids dense from 0 |
| HiddenNodes.WasFormed | src/topology/topology_builder.cpp:154-166 | the size-then-set search finds a cluster exactly when the previous tier has that member set |
| HiddenNodes.InferTier | src/topology/topology_builder.cpp:136-182 | appends the new clusters of one tier, ids continuing by position |
| HiddenNodes.InferHiddenNodes | src/topology/topology_builder.cpp:115-186 | hidden nodes describe the list of switches, ids equal positions |
| HiddenNodes.KindAndConfidence | src/topology/topology_builder.cpp:171-177 | the kind by tier, and the confidence by size: half plus a tenth for each member, at most 0.95 |
| HiddenNodes.SwitchesIff | src/topology/topology_builder.cpp:127-183 | a switch is listed exactly when its set is a cluster of its tier, is large enough and was no cluster one tier below |
| HiddenNodes.SwitchesAre | src/topology/topology_builder.cpp:127-183 | a switch is listed exactly when it has the minimum size, is a cluster of its tier and is none of the tier before |
| HiddenNodes.SwitchesFollowCut | src/topology/topology_builder.cpp:136-182 | switches of one tier stand in the order of their clusters in the cut |
| HiddenNodes.SwitchesInOrder | src/topology/topology_builder.cpp:127-183 | tiers ascend along the list and no switch is listed twice |
| HiddenNodes.FormedBetween | src/topology/topology_builder.cpp:150-167 | a cluster of two tiers is a cluster of every tier between |
| HiddenNodes.FormsAtFirstTierOnly | src/topology/topology_builder.cpp:150-167 | comparing with the previous tier alone finds exactly the first tier of a cluster |
| HiddenNodes.SwitchesAreLayered | src/topology/topology_builder.cpp:127-183 | for thresholds in any order: disjoint within a tier, and never the same set at the next tier |
| HiddenNodes.FirstTierOnly | src/topology/topology_builder.cpp:127-183 | each large enough cluster of any tier becomes a switch exactly once, at its first tier |
| HiddenNodes.SwitchesAreLaminar | src/topology/topology_builder.cpp:127-183 | with ascending thresholds member sets are nested or disjoint |
| HiddenNodes.OneSwitchHoldsAll | src/topology/topology_builder.cpp:127-183 | exactly one switch holds all nodes when there are at least the minimum number |
| ConstructEdges.RebuildMembers | src/topology/topology_builder.cpp:211-262 | the second clustering and scan give every hidden node exactly the set it was created from; the index bound drops none |
| ConstructEdges.AttachPhysicalNodes | src/topology/topology_builder.cpp:264-289 | one edge per physical node that a lowest switch contains, to the first such, in the order of the nodes |
| ConstructEdges.FindParent | src/topology/topology_builder.cpp:309-323 | the scan of the next tier finds the first switch that contains all members, if there is one |
| ConstructEdges.CrossTotals | src/topology/topology_builder.cpp:335-343 | sum and number of all cross pairs between two sets |
| ConstructEdges.TracePath | src/topology/topology_builder.cpp:350-379 | the walk ends, because ids rise along it, with the length of the path from the sample node |
| ConstructEdges.LatencyToParent | src/topology/topology_builder.cpp:324-388 | the latency of the edge from a switch to its parent, as the switches, the distances and the edges so far determine it; zero without siblings |
| ConstructEdges.GroupByTier | src/topology/topology_builder.cpp:199-203 | each tier's positions in order, and no empty tier |
| ConstructEdges.TierRange | src/topology/topology_builder.cpp:205-209 | lowest and highest tier are those of the first and last switch |
| ConstructEdges.ConnectTiers | src/topology/topology_builder.cpp:299-397 | going through the tiers, skipping gaps, lays for every switch the edge to its parent, each from the edges before it |
| ConstructEdges.ConstructEdges | src/topology/topology_builder.cpp:188-400 | the edge list is the one that the switches and distances determine |
| ForestTheorems.PhysicalEdge | src/topology/topology_builder.cpp:264-289 | a physical node has an edge exactly when a lowest switch contains it, and then to that only one |
| ForestTheorems.SwitchEdge | src/topology/topology_builder.cpp:299-394 | a switch has an edge exactly when a switch one tier up contains it: the only one, later in the list and strictly larger |
| ForestTheorems.EdgesFormForest | src/topology/topology_builder.cpp:264-397 | at most one edge leaves a vertex, edges climb tiers, and there is no cycle |
| EdgeWeights.TruncateIsWholePart | src/topology/topology_builder.cpp:275 | conversion to whole nanoseconds takes the whole part |
| EdgeWeights.OneMoreOther | src/topology/topology_builder.cpp:271-280 | each fellow member adds its truncated distance to the total and one to the count |
| EdgeWeights.CountIsSize | src/topology/topology_builder.cpp:271-280 | the count is the number of fellow members |
| EdgeWeights.PhysicalEdgeWeight | src/topology/topology_builder.cpp:270-286 | for every matrix: the edge of a physical node weighs the whole part of half the average of the truncated distances to its fellow members; zero without any |
| EdgeWeights.CrossAddsLeft | src/topology/topology_builder.cpp:335-343 | sum and number of cross pairs are additive in the lower set |
| EdgeWeights.CrossAddsRight | src/topology/topology_builder.cpp:335-343 | and in the set of siblings |
| EdgeWeights.CrossOfOne | src/topology/topology_builder.cpp:335-343 | of a single pair they are its distance and one |
| EdgeWeights.CrossCountIsProduct | src/topology/topology_builder.cpp:335-343 | the number of cross pairs is the product of the sizes |
| EdgeWeights.HalfExcessIs | src/topology/topology_builder.cpp:382-388 | the whole part of half of what the average exceeds twice the path by; zero if it does not exceed it |
| EdgeWeights.SwitchEdgeWeight | src/topology/topology_builder.cpp:324-394 | for every matrix: that is what the edge of a switch weighs, with the average over all pairs of a member and a sibling and the path of its lowest member in the finished topology |
| EdgeWeights.PathIsWalk | src/topology/topology_builder.cpp:350-379 | a path is a walk over edges, up to the switch or to where no edge leads on, and weighs what they weigh together |
| EdgeWeights.EdgesInOrder | src/topology/topology_builder.cpp:264-397 | edges of physical nodes come first, then those of switches, each by rising ids |
| Connectivity.PathReachesIff | src/topology/topology_builder.cpp:350-379 | the walk from a node to a switch that contains it arrives exactly when a lowest switch contains it and it rises through every tier between |
| Connectivity.PathReachesIffCovered | src/topology/topology_builder.cpp:350-379 | among nested switches: exactly when every tier up to the switch has one that contains the node |
| Connectivity.ConnectedIff | src/topology/topology_builder.cpp:264-397 | the graph is connected exactly when every node is in a lowest switch and every switch but the last has a parent; without switches, exactly for at most one node |
| Connectivity.ConnectedIffCovered | src/topology/topology_builder.cpp:264-397 | among nested switches: exactly when the top tier has one switch and every tier covers every node |
| Connectivity.SkippedTierDisconnects | src/topology/topology_builder.cpp:299-303 | a switch below an empty tier is cut off from those above |
| SkippedTier.BuildDisconnected | src/topology/topology_builder.cpp:18-55 | a network of four nodes whose built graph is not connected, for every linkage |
| ForestTheorems.PathSettled | src/topology/topology_builder.cpp:350-379 | for every configuration: the path an edge's latency is computed from is the path of the finished topology |
| RoundTrip.GroupIsLevelClass | src/topology/topology_builder.cpp:136-141 | on a hierarchical matrix tier t's clusters are the nodes within level t |
| RoundTrip.AccessWeight | src/topology/topology_builder.cpp:270-284 | a physical node hangs off its lowest group's switch by half the first level |
| RoundTrip.LevelWeight | src/topology/topology_builder.cpp:324-392 | an edge between two levels weighs half their difference |
| RoundTrip.PathWeight | src/topology/topology_builder.cpp:350-379 | the path from a node up to its level-t switch weighs half of level t |
| RoundTrip.TreeGivesBackLatencies | src/topology/topology_builder.cpp:264-397 | the two paths to the lowest common switch add up to the measured distance, for all three linkages |
| TopologyBuilder.Build | src/topology/topology_builder.cpp:18-55 | physical nodes (with dense cluster ids in order of first appearance), hidden nodes and edges are those of one dendrogram of the distances; an empty matrix gives an empty graph |
| TopologyBuilder.BuildSymmetrized | src/topology/topology_builder.cpp:59-60 | symmetrizing first infers the graph of the distances before |
| TopologyBuilder.BuildFromCsv | src/topology/topology_builder.cpp:57-61 | the graph of the two-way averages of the parsed numbers, or the error that the text deserves |
| TopologyBuilder.InferFromResults | src/topology/topology_builder.cpp:57-61 | from the controller's stored results through its file: the graph of the measured latencies, each as the nearest double |
| TopologyBuilder.InferredGraphIsForest | src/topology/topology_builder.cpp:18-55 | the built graph's edges form a rising forest, for every matrix, linkage and thresholds |
| TopologyBuilder.InferredGraphConnectedIff | src/topology/topology_builder.cpp:18-55 | the built graph is connected exactly when its switches are complete |
| TopologyBuilder.InferredGraphGivesBackLatencies | src/topology/topology_builder.cpp:18-55 | on hierarchical latencies the walks from both nodes arrive at their lowest common switch and add up to what was measured |
| TopologyBuilder.InferenceIsDeterministic | src/topology/topology_builder.cpp:18-55 | equal distances give equal physical nodes (tiers and cluster ids), switches and edges |
| Freshness.StepConsistent | src/agent/agent.cpp:452-520 | every step keeps commands, results and outcomes in agreement |
| Freshness.ResultsAreFresh | src/controller/controller.cpp:444-496 | a collected result is the outcome of exactly the command waited for, with one sample per counted round when complete |
| Freshness.NoOlderResult | src/controller/controller.cpp:444-496 | no later step replaces a result by an older one, nor changes an outcome |
| Freshness.ExecutedOnce | src/agent/agent.cpp:463-500 | each agent executes strictly rising sequence numbers, none beyond the last issued |
| Freshness.SampleCountIff | src/agent/agent.cpp:528 | the sample count is the iterations asked for exactly when the 32-bit sum does not wrap |
| Lockstep.QuietNextIsOwn | src/agent/agent.cpp:522-822 | issued with every agent quiet, the next test is never disturbed: whatever is collected of it in any run consists of its own samples |
| Lockstep.SlotsMeetNoMessage | src/agent/agent.cpp:717-766 | while slots are written to an agent in such a test, it prepares no signal, answer or result of this test in the buffer they hit |
| Lockstep.StepInStep | src/agent/agent.cpp:522-822 | every step keeps each test that was issued while all agents were quiet in lockstep, whatever failed before |
| Lockstep.RoundsInLockstep | src/agent/agent.cpp:564-648 | in such a test the responder's answered rounds are the initiator's completed ones or one more; signals seen never exceed signals sent |
| Lockstep.NextMailIsOwn | src/agent/agent.cpp:584-597 | in such a test what ends a wait of it in round i is the partner's message i + 1 of this very test |
| Lockstep.SamplesAreOwn | src/agent/agent.cpp:568-604 | every collected sample of every such test of the run spans one signal and its own reply |
| Lockstep.WindowHasOneOwner | src/agent/agent.cpp:717-766 | in such a test a visible signal means all slot writes up to its window are done, and no write of the next window precedes the answer |
| Lockstep.CompleteMeansQuiet | src/controller/controller.cpp:456-463 | when the latest result slot shows the latest such test complete (or refused for its size), every agent is quiet |
| Lockstep.CleanAsLongAsComplete | src/controller/controller_main.cpp:484-495 | in every run, a test is undisturbed from the start if complete results of all earlier tests were collected |
| Transfers.CompleteTransfersAll | src/agent/agent.cpp:717-783 | in every reachable state, every test its initiator completed wrote a full window of slots in every round |
| Transfers.CollectedTransferAll | src/agent/agent.cpp:717-783 | so did every test collected as complete |
| Transfers.SlotsInBufferIff | src/agent/agent.cpp:666-674 | whenever an agent is sending, all its slots lie below the inbox if and only if the checked size did not wrap |
| Transfers.ExecutedWereIssued | src/agent/agent.cpp:463-500 | each agent executes strictly rising numbers, all of tests issued to it |
| CrossTalk.StaleReplyIsRecorded | src/agent/agent.cpp:544-597 | a run after a timed-out test in which a completed result holds a reply from the wrong agent and test |
| CrossTalk.NextTestIsOwnIff | src/agent/agent.cpp:544-597 | when a test is about to be issued: the next test is undisturbed in every run if and only if every agent is quiet |
| CrossTalk.NotQuietIsDisturbed | src/agent/agent.cpp:544-597 | from every idle state with an agent that is not quiet a run leads to a completed test of that agent by its old partner whose sample is its old message |
| CrossTalk.StaleReply | src/agent/agent.cpp:544-597 | from every idle state in which an agent owes a message of an older test, a run leads to a completed test of its partner with any third agent whose sample is that message |
| CrossTalk.GoesIdle | src/agent/agent.cpp:522-822 | whatever an agent is doing, a run of its own failed writes, reads and timeouts brings it back to polling, and touches nobody else |
| AgentProcess.AgentLoop.PollAndExecuteCommand | src/agent/agent.cpp:452-520 | executes exactly the commands with a new number, once, and an initiator ends with that command's outcome decided |
| AgentProcess.AgentLoop.WaitForRendezvous | src/agent/agent.cpp:187-228 | commands are taken up from the first poll that brings the controller's signal, and for no other reason |
| AgentProcess.AgentLoop.ExecutePingPong | src/agent/agent.cpp:522-654 | the two loops take only steps of the protocol and end in the result they report, or idle; a failure has the code of its place and no samples |
| AgentProcess.AgentLoop.ExecuteBandwidth | src/agent/agent.cpp:656-822 | likewise for windows of slot writes; error 10 exactly when the checked product exceeds the buffer |
| AgentProcess.AgentLoop.SendWindow | src/agent/agent.cpp:721-746 | all slots are written before the signal; a failure stops with its code |
| AgentProcess.AgentLoop.AwaitMailbox | src/agent/agent.cpp:585-597 | succeeds exactly when a newer number is there at the end of the wait |
| AgentProcess.AgentLoop.AwaitReply | src/agent/agent.cpp:583-605 | an answer adds one sample unless warming up; a timeout ends the test with its code |
| AgentProcess.AgentLoop.Respond | src/agent/agent.cpp:622-651 | answers round after round until done or timed out, and is idle afterwards |
| AgentProcess.AgentLoop.ReportResult | src/agent/agent.cpp:824-852 | when the write succeeds the slot holds this result |
| ControllerProcess.ControllerLoop.IssueTest | src/controller/controller.cpp:218-305 | refused tests get no number; others get the next one, the responder's command going first; on success both inboxes hold their commands |
| ControllerProcess.ControllerLoop.WaitForAllAgents | src/controller/controller.cpp:100-126 | succeeds exactly when some poll finds all agents registered; metadata is loaded only of agents seen registered, and never lost |
| ControllerProcess.ControllerLoop.WaitForResults | src/controller/controller.cpp:444-496 | on success every slot still holds a final result of the latest test, although slots are read one by one |
| ControllerProcess.ControllerLoop.StoreTestResult | src/controller/controller.cpp:554-567 | appends the pair, average, least and greatest sample and whether the test completed |
| ControllerProcess.StoredAverageBetweenIff | src/controller/controller.cpp:554-567 | a stored average never exceeds the stored maximum, and reaches the stored minimum if and only if the wrapped sum is large enough |
| ControllerProcess.ControllerLoop.RunLatencyTest | src/controller/controller_main.cpp:481-495 | an accepted test is issued, no other; exactly a collected result is stored, as that of a test of this pair decided by its initiator; giving up means the slot was not filled at the last poll |
| ControllerProcess.ControllerLoop.RunLatencyTests | src/controller/controller_main.cpp:472-500 | exactly the accepted pairs are issued, in order; every collected result is stored, each as that of its own pair, in order and without repeats |
| ControllerProcess.PairTestsExact | src/controller/controller_main.cpp:473-474 | the double loop meets exactly the accepted pairs i < j, each once, in row order |
| ControllerProcess.ControllerLoop.MeasureLatencies | src/controller/controller_main.cpp:472-507 | exactly the accepted pairs i < j are tested, in order, as ping-pong tests with the given size, iterations and warm-up; the cells of a pair hold the average of its completed test, and zero if none completed |
| Measurements.Summarize | src/agent/agent.cpp:611-618 | minimum and maximum are samples and bound all; the average is over the 64-bit sum |
| Measurements.SumAdds | src/agent/agent.cpp:615-616 | the sum is nothing for no samples, the sample for one, and additive |
| Measurements.AverageIsQuotient | src/agent/agent.cpp:615-617 | the average is the whole part of the sum, in 64 bits, over the number of samples |
| Measurements.AverageBetweenIff | src/agent/agent.cpp:611-618 | the average never exceeds the maximum, and reaches the minimum if and only if the wrapped sum is at least minimum times count |
| Measurements.AverageBelowMinimum | src/agent/agent.cpp:615-617 | two samples below 2^64 whose reported average lies below both |
| Measurements.AverageExactIff | src/agent/agent.cpp:615-617 | the average of the samples is exact if and only if their sum did not wrap |
| Measurements.SlotWritesStayInBufferIff | src/agent/agent.cpp:666-674 | behind the capacity check slot writes stay below the inbox if and only if the product does not wrap |
| Measurements.SlotsMissAckIff | src/agent/agent.cpp:684-728 | slots miss their receiver's acknowledgement word if and only if they leave 64 bytes to the inbox; the start of its buffer is always hit |
| Measurements.ClampWindow | src/controller/controller_main.cpp:619-632 | the window is kept exactly when its checked product fits, and otherwise is the largest number of messages that does |
| Measurements.ClampedTestFitsIff | src/controller/controller_main.cpp:619-632 | a test with the clamped window passes the agent's check always, if window and size are positive; the exact condition when one is zero |
| Measurements.DefaultSizeFitsIff | src/agent/agent.cpp:663-668 | with message size zero the check passes if and only if there are at most 63 slots |
| Rendezvous.LastMessages | src/common/nixl_wrapper.cpp:426-450 | exactly the senders with messages, each with its last one |
| Rendezvous.MarkDone | src/controller/controller.cpp:171-186 | flags exactly the announcing agents, once, and the counter stays the number of flags |
| Rendezvous.WaitForPeerDiscovery | src/controller/controller.cpp:154-202 | succeeds if and only if every agent's last message of some poll is its announcement |
| Rendezvous.PollOnce | src/controller/controller.cpp:162-186 | one poll flags exactly the agents whose last message in the batch is the announcement, and counts them |
| Rendezvous.PollIsGather | src/controller/controller.cpp:162-186 | one poll of the loop and one gathering of the step system set the same flags and count |
| Rendezvous.LoopOpensGateIff | src/controller/controller.cpp:154-202 | fed with the messages that waited at each gathering of a run, the loop succeeds if and only if the gate may open |
| Rendezvous.NoCommandBeforeAllConnected | src/controller/controller_main.cpp:434-452 | in every run no command precedes everyone reaching every peer, and no announcement is lost to the collapse |
| Rendezvous.DiscoverConnectsIff | src/agent/agent.cpp:230-309 | discovery connects an agent exactly when each other slot is populated and its metadata loads |
| Rendezvous.AllAnnouncedOpensGate | src/agent/agent_main.cpp:57-79 | once all have announced, one gathering opens the gate |
| LatencyCsv.FillMatrix | src/controller/controller.cpp:588-600 | every cell is the last successful measurement of its pair in either direction, or 0 |
| LatencyCsv.ToInt64Exact | src/controller/controller.cpp:596 | below 2^63 a latency is written as it is, from there on less 2^64 |
| LatencyCsv.LatestExact | src/controller/controller.cpp:594-600 | the cells of a pair hold its last successful measurement |
| LatencyCsv.UnmeasuredIsZero | src/controller/controller.cpp:588-589 | and zero if there is none |
| LatencyCsv.LatestSymmetric | src/controller/controller.cpp:594-600 | the matrix is symmetric |
| LatencyCsv.LatestIsStored | src/controller/controller.cpp:594-600 | a cell that is not zero is one of the stored averages |
| LatencyCsv.WriteCsv | src/controller/controller.cpp:585-610 | two comment lines, then the rows of the latest measurements |
| LatencyCsv.ReadRow | src/topology/latency_matrix.cpp:34-57 | cells are split, trimmed and converted, or the first bad one is refused |
| LatencyCsv.SplitExact | src/topology/latency_matrix.cpp:26-38 | splitting at a separator, for every text: nothing follows a separator at the very end |
| LatencyCsv.TrimExact | src/topology/latency_matrix.cpp:40-48 | trimming removes exactly the spaces and tabs at both ends |
| LatencyCsv.SkippedExact | src/topology/latency_matrix.cpp:27-33 | a line is skipped exactly when it is blank or its first other character is a number sign |
| LatencyCsv.RowReadIff | src/topology/latency_matrix.cpp:38-57 | a row is read if and only if every trimmed cell is a number, and is the row of these |
| LatencyCsv.FirstBadCellDecides | src/topology/latency_matrix.cpp:43-56 | otherwise the first cell that is not decides the error |
| LatencyCsv.ParseOneLine | src/topology/latency_matrix.cpp:26-62 | what one line contributes |
| LatencyCsv.ParseLinesAppend | src/topology/latency_matrix.cpp:26-62 | lines contribute their rows in order, up to the first error |
| LatencyCsv.FromCsv | src/topology/latency_matrix.cpp:16-88 | a matrix holding exactly the parsed numbers, or the error that the text deserves |
| LatencyCsv.CsvRoundTrip | src/topology/latency_matrix.cpp:16-88 | parsing a written table of at least one row gives the doubles nearest to its numbers |
| LatencyCsv.CsvExactIff | src/topology/latency_matrix.cpp:50-52 | those are the numbers themselves if and only if each has at most 53 significant bits |
| Numbers.ToDoubleExactIff | src/topology/latency_matrix.cpp:51 | an integer is read as itself exactly when 53 significant bits hold it, as those below 2^53 do |
| Numbers.IntegerOfDecimal | src/topology/latency_matrix.cpp:51 | reading the decimal text of an integer gives it back |
| Numbers.DigitsAreDecimal | src/topology/latency_matrix.cpp:51 | one more digit makes ten times as much and adds its value |
| Doubles.RepresentableIff | src/topology/latency_matrix.cpp:51 | a double holds exactly the integers with at most 53 significant bits |
| Doubles.NearestIsDouble | src/topology/latency_matrix.cpp:51 | what an integer is read as is a double |
| Doubles.NearestIsNearest | src/topology/latency_matrix.cpp:51 | and none is nearer; of two equally near ones it is the even multiple |
| LatencyCsv.EmptyTableRefused | src/topology/latency_matrix.cpp:64-66 | a table without rows is written but refused when read |
| LatencyCsv.WriteThenRead | src/topology/latency_matrix.cpp:16-88 | the loaded matrix has as entries and as distances the doubles nearest to the controller's latencies |
| LatencyCsv.MeasuredIsLatest | src/topology/topology_builder.cpp:57-61 | a measured latency of up to 53 bits is, unchanged, the distance the topology is inferred from |
| Base64.ShiftIn8 | src/common/nixl_wrapper.cpp:27-28 | shifting in a byte under 32-bit wrap-around leaves the low bits that matter |
| Base64.Encode | src/common/nixl_wrapper.cpp:21-46 | the output is the padded URL-safe encoding of section 5 of RFC 4648, four characters for each three bytes begun |
| Base64.TableInverts | src/common/nixl_wrapper.cpp:18-68 | the decoding table inverts the alphabet and no letter is the padding sign |
| Base64.Decode | src/common/nixl_wrapper.cpp:48-81 | the bytes are those the six-bit values before the padding spell, other characters skipped |
| Base64.DecodeInvertsEncode | src/common/nixl_wrapper.cpp:21-81 | any decoding of any encoding of a byte string is that string |
| Base64.RoundTrip | src/common/nixl_wrapper.cpp:21-81 | the two loops undo each other on every input |
| Base64Standard.LetterIsStandard | src/common/nixl_wrapper.cpp:18-19 | the alphabet is that of section 5 of RFC 4648 |
| Base64Standard.ValueIsStandard | src/common/nixl_wrapper.cpp:49-59 | the decoding table gives each of its characters its value, and no other a value |
| Base64Standard.GroupIsBigEndian | src/common/nixl_wrapper.cpp:27-33 | three bytes and four groups of six bits are one number, first on top |
| Base64Standard.EncodingIsStandard | src/common/nixl_wrapper.cpp:21-46 | each character of an encoding is that of its group, or padding to a multiple of four |
| Base64Standard.BytesAreBigEndian | src/common/nixl_wrapper.cpp:69-77 | four values and three bytes are one number, first on top |
| Base64Standard.ValuesOfOneMore | src/common/nixl_wrapper.cpp:67-71 | each character of the alphabet gives its value, and others none |
| Base64Standard.EndIsPadding | src/common/nixl_wrapper.cpp:66 | only what precedes the first padding sign counts |

## Left out

- Rounding of `double` arithmetic: distances and averages are exact reals (that a number read from text becomes the nearest double is modelled).
- The infinity on the working matrix's diagonal: a real above the sentinel stands in; the loop never reads it.
- Distances at or above the largest finite double, for which the closest-pair scan finds nothing: the clustering requires them below it.
- Negative distances: converting one to an unsigned integer is undefined in the original; the model takes zero.
- 32-bit and 64-bit widths of node ids, cluster ids and edge latencies, which are unbounded here; widths are modelled in the protocol, the statistics, the window check and the codec.
- Switch labels, edge kinds, bandwidth figures of edges, the floating-point statistics of bandwidth tests, `calculate_confidence` (never called) and the stored copy of the matrix in the graph.
- Row-major storage of the matrix (rows are nested), out-of-range exceptions of `at`, and the text positions in the error messages of `from_csv`.
- Conversion of text to numbers by the C++ library: a parameter of the reader, asked to give the nearest double for the text of an integer of up to 64 bits; other texts convert as it likes.
- Tables of no rows in `WriteThenRead` and `InferFromResults`: the reader refuses them (`EmptyTableRefused`).
- Memory ordering: each remote write is one atomic step, and so is a successful poll together with the read that follows it; payload bytes of messages are not modelled.
- Wall-clock time: a wait may time out at any moment or last for any number of steps of the others; progress of a test is therefore not claimed.
- ControllerProcess.ControllerLoop.RunLatencyTests: skipping pairs of agents that are not registered, and the shutdown flag of the loops; every agent has registered before this phase begins.
- The SHUTDOWN command, the `running` status and the repetition of phases by the latency and bandwidth sweeps and their CSV files; the bandwidth tests themselves are modelled.
- Registration, metadata exchange and buffer offsets of the NIXL and UCX libraries, byte order of the wire formats: slots are indexed by agent.
- AgentProcess.AgentLoop.AwaitReply: the statistics travel as the list of samples; the controller side averages them, with the same arithmetic.
- Peer discovery and announcement by the agents are steps of a step system rather than methods; the waiting loops of agents and controller are modelled as loops.
- The test harness, process and container handling, JSON configuration, and DOT, JSON and image output.
