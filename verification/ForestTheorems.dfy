/** The inferred edges form a forest that rises from physical nodes through the tiers. */
module ForestTheorems {
  import opened Common
  import opened LatencyMatrices
  import opened HiddenNodes
  import opened Edges

  // ----- lookups in the finished edge list

  lemma {:induction false} LookupAppendFrom(edges: seq<Edge>, e: Edge, srcIsHidden: bool, srcId: nat, i: nat)
    requires i <= |edges|
    ensures LookupFrom(edges + [e], srcIsHidden, srcId, i)
      == match LookupFrom(edges, srcIsHidden, srcId, i)
         case Some(f) => Some(f)
         case None => if e.srcIsHidden == srcIsHidden && e.dstIsHidden && e.srcId == srcId then Some(e) else None
    decreases |edges| - i
  {
    if i < |edges| {
      assert (edges + [e])[i] == edges[i];
      LookupAppendFrom(edges, e, srcIsHidden, srcId, i + 1);
    } else {
      assert (edges + [e])[i] == e;
      assert LookupFrom(edges + [e], srcIsHidden, srcId, i + 1) == None;
    }
  }

  lemma LookupAppend(edges: seq<Edge>, e: Edge, srcIsHidden: bool, srcId: nat)
    ensures Lookup(edges + [e], srcIsHidden, srcId)
      == match Lookup(edges, srcIsHidden, srcId)
         case Some(f) => Some(f)
         case None => if e.srcIsHidden == srcIsHidden && e.dstIsHidden && e.srcId == srcId then Some(e) else None
  {
    LookupAppendFrom(edges, e, srcIsHidden, srcId, 0);
  }

  lemma {:induction false} AccessLookup(switches: seq<Switch>, d: Table, n: nat, q: nat, srcIsHidden: bool, p: nat)
    ensures Lookup(AccessEdges(switches, d, n, q), srcIsHidden, p)
      == if !srcIsHidden && p < q && Home(switches, p).Some?
         then Some(AccessEdge(switches, d, n, p, Home(switches, p).value)) else None
  {
    if q > 0 {
      AccessLookup(switches, d, n, q - 1, srcIsHidden, p);
      match Home(switches, q - 1)
      case None =>
        assert AccessEdges(switches, d, n, q) == AccessEdges(switches, d, n, q - 1);
      case Some(h) =>
        LookupAppend(AccessEdges(switches, d, n, q - 1), AccessEdge(switches, d, n, q - 1, h), srcIsHidden, p);
    }
  }

  ghost function ParentEdge(switches: seq<Switch>, d: Table, n: nat, g: nat, h: nat): Edge
    requires g < |switches| && h < |switches|
  {
    Edge(g, h, true, true, InterTierLatency(switches, d, n, Wire(switches, d, n, g), g, h))
  }

  /** What the edge list holds for a source, once the first k switches are connected. */
  lemma {:induction false} WireLookup(switches: seq<Switch>, d: Table, n: nat, k: nat, srcIsHidden: bool, s: nat)
    requires k <= |switches|
    ensures Lookup(Wire(switches, d, n, k), srcIsHidden, s)
      == if !srcIsHidden then Lookup(AccessEdges(switches, d, n, n), false, s)
         else if s < k && ParentOf(switches, s).Some?
              then Some(ParentEdge(switches, d, n, s, ParentOf(switches, s).value))
         else None
  {
    if k == 0 {
      AccessLookup(switches, d, n, n, srcIsHidden, s);
    } else {
      WireLookup(switches, d, n, k - 1, srcIsHidden, s);
      match ParentOf(switches, k - 1)
      case None =>
      case Some(h) =>
        LookupAppend(Wire(switches, d, n, k - 1), ParentEdge(switches, d, n, k - 1, h), srcIsHidden, s);
    }
  }

  ghost function AllEdges(switches: seq<Switch>, d: Table, n: nat): seq<Edge> {
    Wire(switches, d, n, |switches|)
  }

  /** A physical node has an edge exactly when a lowest switch contains it, and then to that switch. */
  lemma PhysicalEdge(switches: seq<Switch>, d: Table, n: nat, p: nat)
    requires Layered(switches, n) && p < n
    ensures match Lookup(AllEdges(switches, d, n), false, p)
      case None => forall h: nat :: !IsHome(switches, p, h)
      case Some(e) => forall h: nat :: IsHome(switches, p, h) <==> h == e.dstId
  {
    WireLookup(switches, d, n, |switches|, false, p);
    AccessLookup(switches, d, n, n, false, p);
  }

  /** A switch has an edge exactly when a switch one tier up contains it, and then to that switch,
      which is the only such one and is strictly larger. */
  lemma SwitchEdge(switches: seq<Switch>, d: Table, n: nat, g: nat)
    requires Layered(switches, n) && g < |switches|
    ensures match Lookup(AllEdges(switches, d, n), true, g)
      case None => forall h: nat :: !IsParent(switches, g, h)
      case Some(e) =>
        && g < e.dstId < |switches| && switches[g].members < switches[e.dstId].members
        && forall h: nat :: IsParent(switches, g, h) <==> h == e.dstId
  {
    WireLookup(switches, d, n, |switches|, true, g);
    ParentUnique(switches, n, g);
  }

  lemma LowerTierFirst(switches: seq<Switch>, n: nat, g: nat, h: nat)
    requires Layered(switches, n) && g < |switches| && h < |switches| && switches[g].tier < switches[h].tier
    ensures g < h
  {
  }

  lemma ParentUnique(switches: seq<Switch>, n: nat, g: nat)
    requires Layered(switches, n) && g < |switches|
    ensures forall h: nat, h': nat | IsParent(switches, g, h) && IsParent(switches, g, h') :: h == h'
    ensures forall h: nat | IsParent(switches, g, h) :: g < h && switches[g].members < switches[h].members
  {
    var x :| x in switches[g].members;
    forall h: nat | IsParent(switches, g, h)
      ensures g < h && x in switches[h].members
    {
      LowerTierFirst(switches, n, g, h);
    }
  }

  // ----- no two edges leave one vertex, and edges rise

  ghost predicate OneEdgeEach(edges: seq<Edge>) {
    forall i, j | 0 <= i < j < |edges| ::
      !(edges[i].srcIsHidden == edges[j].srcIsHidden && edges[i].srcId == edges[j].srcId)
  }

  lemma {:induction false} AccessOneEach(switches: seq<Switch>, d: Table, n: nat, p: nat)
    ensures OneEdgeEach(AccessEdges(switches, d, n, p))
    ensures forall e | e in AccessEdges(switches, d, n, p) ::
      !e.srcIsHidden && e.dstIsHidden && e.srcId < p && IsHome(switches, e.srcId, e.dstId)
  {
    hide IsHome, AccessLatency;
    if p > 0 {
      AccessOneEach(switches, d, n, p - 1);
      var before := AccessEdges(switches, d, n, p - 1);
      assert forall i | 0 <= i < |before| :: before[i] in before;
    }
  }

  lemma {:induction false} WireOneEach(switches: seq<Switch>, d: Table, n: nat, k: nat)
    requires k <= |switches|
    ensures OneEdgeEach(Wire(switches, d, n, k))
    ensures forall e | e in Wire(switches, d, n, k) ::
      && e.dstIsHidden
      && if e.srcIsHidden then e.srcId < k && IsParent(switches, e.srcId, e.dstId)
         else IsHome(switches, e.srcId, e.dstId)
  {
    hide IsParent, IsHome, InterTierLatency;
    if k == 0 {
      AccessOneEach(switches, d, n, n);
    } else {
      WireOneEach(switches, d, n, k - 1);
      var before := Wire(switches, d, n, k - 1);
      assert forall i | 0 <= i < |before| :: before[i] in before;
    }
  }

  datatype Vertex = Physical(id: nat) | Hidden(id: nat)

  function Source(e: Edge): Vertex { if e.srcIsHidden then Hidden(e.srcId) else Physical(e.srcId) }
  function Target(e: Edge): Vertex { if e.dstIsHidden then Hidden(e.dstId) else Physical(e.dstId) }

  ghost function Height(switches: seq<Switch>, v: Vertex): nat {
    match v
    case Physical(_) => 0
    case Hidden(h) => if h < |switches| then switches[h].tier else 0
  }

  ghost predicate Adjacent(edges: seq<Edge>, u: Vertex, v: Vertex) {
    exists e :: e in edges && ((Source(e) == u && Target(e) == v) || (Source(e) == v && Target(e) == u))
  }

  /** A closed walk through at least three different vertices. */
  ghost predicate Cycle(edges: seq<Edge>, c: seq<Vertex>) {
    && |c| >= 3
    && (forall i, j | 0 <= i < j < |c| :: c[i] != c[j])
    && (forall i | 0 <= i < |c| - 1 :: Adjacent(edges, c[i], c[i + 1]))
    && Adjacent(edges, c[|c| - 1], c[0])
  }

  ghost predicate Rising(switches: seq<Switch>, edges: seq<Edge>) {
    forall e | e in edges :: Height(switches, Source(e)) < Height(switches, Target(e))
  }

  lemma {:induction false} LowestVertex(switches: seq<Switch>, c: seq<Vertex>, k: nat) returns (i: nat)
    requires 0 < k <= |c|
    ensures i < k && forall j | 0 <= j < k :: Height(switches, c[i]) <= Height(switches, c[j])
  {
    if k == 1 {
      i := 0;
    } else {
      i := LowestVertex(switches, c, k - 1);
      if Height(switches, c[k - 1]) < Height(switches, c[i]) {
        i := k - 1;
      }
    }
  }

  lemma UpwardNeighbour(switches: seq<Switch>, edges: seq<Edge>, u: Vertex, v: Vertex) returns (e: Edge)
    requires Rising(switches, edges) && Adjacent(edges, u, v) && Height(switches, u) <= Height(switches, v)
    ensures e in edges && Source(e) == u && Target(e) == v
  {
    e :| e in edges && ((Source(e) == u && Target(e) == v) || (Source(e) == v && Target(e) == u));
  }

  /** Rising edges, one per vertex, close no cycle: at its lowest vertex two edges would leave. */
  lemma NoCycle(switches: seq<Switch>, edges: seq<Edge>, c: seq<Vertex>)
    requires OneEdgeEach(edges) && Rising(switches, edges)
    ensures !Cycle(edges, c)
  {
    if Cycle(edges, c) {
      var i := LowestVertex(switches, c, |c|);
      var before, after := if i == 0 then |c| - 1 else i - 1, if i == |c| - 1 then 0 else i + 1;
      assert Adjacent(edges, c[before], c[i]) by {
        if i > 0 { assert Adjacent(edges, c[i - 1], c[i - 1 + 1]); }
      }
      assert Adjacent(edges, c[i], c[after]);
      AdjacentSymmetric(edges, c[before], c[i]);
      var e := UpwardNeighbour(switches, edges, c[i], c[before]);
      var f := UpwardNeighbour(switches, edges, c[i], c[after]);
      OnlyEdgeFrom(edges, e, f);
    }
  }

  lemma OnlyEdgeFrom(edges: seq<Edge>, e: Edge, f: Edge)
    requires OneEdgeEach(edges) && e in edges && f in edges && Source(e) == Source(f)
    ensures e == f
  {
    var j :| 0 <= j < |edges| && edges[j] == e;
    var k :| 0 <= k < |edges| && edges[k] == f;
    assert j <= k || k <= j;
  }

  lemma AdjacentSymmetric(edges: seq<Edge>, u: Vertex, v: Vertex)
    requires Adjacent(edges, u, v)
    ensures Adjacent(edges, v, u)
  {
    var e :| e in edges && ((Source(e) == u && Target(e) == v) || (Source(e) == v && Target(e) == u));
    assert e in edges;
  }

  /** The inferred topology is a forest: at most one edge leaves a vertex, every edge climbs to a
      higher tier, and there is no cycle. */
  lemma EdgesFormForest(switches: seq<Switch>, d: Table, n: nat, c: seq<Vertex>)
    requires Layered(switches, n)
    ensures OneEdgeEach(AllEdges(switches, d, n)) && Rising(switches, AllEdges(switches, d, n))
    ensures !Cycle(AllEdges(switches, d, n), c)
  {
    WireOneEach(switches, d, n, |switches|);
    NoCycle(switches, AllEdges(switches, d, n), c);
  }

  // ----- the walk that the latency of an edge is computed from

  /** A walk from a switch that holds x, toward a switch g that holds x too, stays below g until it
      arrives, so edges laid after g was reached make no difference to it. */
  lemma {:induction false} TraceSettled(switches: seq<Switch>, d: Table, n: nat, hv: nat, g: nat, x: nat)
    requires Layered(switches, n) && hv < |switches| && g < |switches|
    requires x in switches[hv].members && x in switches[g].members && switches[hv].tier <= switches[g].tier
    ensures var size, now, end := |switches|, Wire(switches, d, n, g), AllEdges(switches, d, n);
      Trace(size, now, hv, g) == Trace(size, end, hv, g) && Reaches(size, now, hv, g) == Reaches(size, end, hv, g)
    decreases |switches| - hv
  {
    if hv != g {
      assert hv < g;
      WireLookup(switches, d, n, g, true, hv);
      WireLookup(switches, d, n, |switches|, true, hv);
      if ParentOf(switches, hv).Some? {
        var h := ParentOf(switches, hv).value;
        ParentUnique(switches, n, hv);
        TraceSettled(switches, d, n, h, g, x);
      }
    }
  }

  /** The path that the latency of g's edge is computed from is the path of the finished topology. */
  lemma PathSettled(switches: seq<Switch>, d: Table, n: nat, x: nat, g: nat)
    requires Layered(switches, n) && g < |switches| && x in switches[g].members && x < n
    ensures var size, now, end := |switches|, Wire(switches, d, n, g), AllEdges(switches, d, n);
      PathTo(size, now, x, g) == PathTo(size, end, x, g) && PathReaches(size, now, x, g) == PathReaches(size, end, x, g)
  {
    WireLookup(switches, d, n, g, false, x);
    WireLookup(switches, d, n, |switches|, false, x);
    AccessLookup(switches, d, n, n, false, x);
    if Home(switches, x).Some? {
      TraceSettled(switches, d, n, Home(switches, x).value, g, x);
    }
  }
}
