/** Edges of the inferred topology: which nodes they join, and with what latency. */
module Edges {
  import opened Common
  import opened LatencyMatrices
  import opened HiddenNodes

  datatype Edge = Edge(srcId: nat, dstId: nat, srcIsHidden: bool, dstIsHidden: bool, latencyNs: nat)

  /** Conversion of a non-negative latency to whole nanoseconds. */
  function Truncate(x: real): nat {
    if x < 0.0 then 0 else x.Floor
  }

  // ----- looking edges up, and walking them upward

  /** The first edge from a source to a hidden node, at or after position i. */
  function LookupFrom(edges: seq<Edge>, srcIsHidden: bool, srcId: nat, i: nat): (r: Option<Edge>)
    requires i <= |edges|
    decreases |edges| - i
  {
    if i == |edges| then None
    else if edges[i].srcIsHidden == srcIsHidden && edges[i].dstIsHidden && edges[i].srcId == srcId then Some(edges[i])
    else LookupFrom(edges, srcIsHidden, srcId, i + 1)
  }

  function Lookup(edges: seq<Edge>, srcIsHidden: bool, srcId: nat): Option<Edge> {
    LookupFrom(edges, srcIsHidden, srcId, 0)
  }

  /** Total latency from hidden node hv up to the target, or up to where the walk stops. */
  function Trace(size: nat, edges: seq<Edge>, hv: nat, target: nat): nat
    decreases size - hv
  {
    if hv == target then 0
    else
      match Lookup(edges, true, hv)
      case None => 0
      case Some(e) => if hv < e.dstId < size then e.latencyNs + Trace(size, edges, e.dstId, target) else 0
  }

  /** The walk upward from hidden node hv arrives at the target. */
  ghost predicate Reaches(size: nat, edges: seq<Edge>, hv: nat, target: nat)
    decreases size - hv
  {
    hv == target
    || match Lookup(edges, true, hv)
       case None => false
       case Some(e) => hv < e.dstId < size && Reaches(size, edges, e.dstId, target)
  }

  /** Total latency from physical node p up to hidden node h. */
  function PathTo(size: nat, edges: seq<Edge>, p: nat, h: nat): nat {
    match Lookup(edges, false, p)
    case None => 0
    case Some(e) => e.latencyNs + Trace(size, edges, e.dstId, h)
  }

  ghost predicate PathReaches(size: nat, edges: seq<Edge>, p: nat, h: nat) {
    match Lookup(edges, false, p)
    case None => false
    case Some(e) => Reaches(size, edges, e.dstId, h)
  }

  // ----- edges of physical nodes

  /** h is the first of the lowest switches, and contains p. */
  ghost predicate IsHome(switches: seq<Switch>, p: nat, h: nat) {
    h < |switches| && switches[h].tier == switches[0].tier && p in switches[h].members
  }

  ghost function HomeFrom(switches: seq<Switch>, p: nat, h: nat): (r: Option<nat>)
    requires h <= |switches|
    ensures r.Some? ==> h <= r.value && IsHome(switches, p, r.value)
    ensures forall k | h <= k < |switches| && IsHome(switches, p, k) :: r.Some? && r.value <= k
    decreases |switches| - h
  {
    if h == |switches| then None
    else if IsHome(switches, p, h) then Some(h)
    else HomeFrom(switches, p, h + 1)
  }

  ghost function Home(switches: seq<Switch>, p: nat): Option<nat> {
    HomeFrom(switches, p, 0)
  }

  /** Truncated distances from p to the other members with an id below m, added up. */
  ghost function SumOthers(d: Table, members: set<nat>, p: nat, m: nat): nat {
    if m == 0 then 0
    else SumOthers(d, members, p, m - 1) + if m - 1 in members && m - 1 != p then Truncate(At(d, p, m - 1)) else 0
  }

  ghost function CountOthers(members: set<nat>, p: nat, m: nat): nat {
    if m == 0 then 0 else CountOthers(members, p, m - 1) + if m - 1 in members && m - 1 != p then 1 else 0
  }

  /** Half the average distance from p to its fellow members, in whole nanoseconds. */
  ghost function AccessLatency(d: Table, members: set<nat>, p: nat, n: nat): nat {
    var count := CountOthers(members, p, n);
    if count == 0 then 0 else SumOthers(d, members, p, n) / count / 2
  }

  ghost function AccessEdge(switches: seq<Switch>, d: Table, n: nat, p: nat, h: nat): Edge
    requires h < |switches|
  {
    Edge(p, h, false, true, AccessLatency(d, switches[h].members, p, n))
  }

  /** Edges of the first p physical nodes. */
  ghost function AccessEdges(switches: seq<Switch>, d: Table, n: nat, p: nat): seq<Edge> {
    if p == 0 then []
    else
      AccessEdges(switches, d, n, p - 1)
      + match Home(switches, p - 1)
        case None => []
        case Some(h) => [AccessEdge(switches, d, n, p - 1, h)]
  }

  // ----- edges between switches

  ghost predicate IsParent(switches: seq<Switch>, g: nat, h: nat) {
    g < |switches| && h < |switches|
    && switches[h].tier == switches[g].tier + 1 && switches[g].members <= switches[h].members
  }

  ghost function ParentFrom(switches: seq<Switch>, g: nat, h: nat): (r: Option<nat>)
    requires h <= |switches|
    ensures r.Some? ==> h <= r.value && IsParent(switches, g, r.value)
    ensures forall k | h <= k < |switches| && IsParent(switches, g, k) :: r.Some? && r.value <= k
    decreases |switches| - h
  {
    if h == |switches| then None
    else if IsParent(switches, g, h) then Some(h)
    else ParentFrom(switches, g, h + 1)
  }

  /** The first switch one tier up whose members include all of g's. */
  ghost function ParentOf(switches: seq<Switch>, g: nat): Option<nat> {
    ParentFrom(switches, g, 0)
  }

  ghost function RowSum(d: Table, a: nat, B: set<nat>, m: nat): real {
    if m == 0 then 0.0 else RowSum(d, a, B, m - 1) + if m - 1 in B then At(d, a, m - 1) else 0.0
  }

  /** Distances of all pairs from A x B, added up over the ids of A below m. */
  ghost function CrossSum(d: Table, A: set<nat>, B: set<nat>, n: nat, m: nat): real {
    if m == 0 then 0.0 else CrossSum(d, A, B, n, m - 1) + if m - 1 in A then RowSum(d, m - 1, B, n) else 0.0
  }

  ghost function RowCount(B: set<nat>, m: nat): nat {
    if m == 0 then 0 else RowCount(B, m - 1) + if m - 1 in B then 1 else 0
  }

  ghost function CrossCount(A: set<nat>, B: set<nat>, n: nat, m: nat): nat {
    if m == 0 then 0 else CrossCount(A, B, n, m - 1) + if m - 1 in A then RowCount(B, n) else 0
  }

  /** The least member below n, or n. */
  ghost function Least(A: set<nat>, n: nat): (r: nat)
    ensures r <= n && (r < n ==> r in A) && forall x: nat | x < r :: x !in A
  {
    if n == 0 then 0
    else if Least(A, n - 1) < n - 1 then Least(A, n - 1)
    else if n - 1 in A then n - 1 else n
  }

  /** Half of what the average distance to the sibling nodes exceeds twice the path below by. */
  ghost function HalfExcess(total: real, count: nat, path: nat): nat
    requires count > 0
  {
    var half := (total / count as real - 2.0 * path as real) / 2.0;
    Truncate(if half > 0.0 then half else 0.0)
  }

  ghost function InterTierLatency(switches: seq<Switch>, d: Table, n: nat, edges: seq<Edge>, g: nat, h: nat): nat
    requires g < |switches| && h < |switches|
  {
    var lower, sibling := switches[g].members, switches[h].members - switches[g].members;
    var count := CrossCount(lower, sibling, n, n);
    if count == 0 then 0
    else HalfExcess(CrossSum(d, lower, sibling, n, n), count, PathTo(|switches|, edges, Least(lower, n), g))
  }

  /** The edges once the first g switches have been connected to their parents; the latency of
      each depends on the edges laid before it. */
  ghost function Wire(switches: seq<Switch>, d: Table, n: nat, g: nat): seq<Edge> {
    if g == 0 then AccessEdges(switches, d, n, n)
    else
      var edges := Wire(switches, d, n, g - 1);
      match ParentOf(switches, g - 1)
      case None => edges
      case Some(h) =>
        if g <= |switches| then edges + [Edge(g - 1, h, true, true, InterTierLatency(switches, d, n, edges, g - 1, h))]
        else edges
  }

  /** What the edge construction relies on: member ids are in range and tiers ascend. */
  ghost predicate Tiered(switches: seq<Switch>, n: nat) {
    && (forall i | 0 <= i < |switches| :: switches[i].members != {} && switches[i].members <= Below(n))
    && forall i, j | 0 <= i < j < |switches| :: switches[i].tier <= switches[j].tier
  }
}
