/** When the walks of the inferred forest arrive, and when the inferred graph hangs together. */
module Connectivity {
  import opened Common
  import opened LatencyMatrices
  import opened HiddenNodes
  import opened Edges
  import opened ForestTheorems

  // ----- when a walk arrives

  /** Switch g is one of tier t that contains x. */
  ghost predicate Holds(switches: seq<Switch>, g: nat, t: nat, x: nat) {
    g < |switches| && switches[g].tier == t && x in switches[g].members
  }

  /** Some switch of tier t contains x. */
  ghost predicate Covers(switches: seq<Switch>, t: nat, x: nat) {
    exists g: nat :: Holds(switches, g, t, x)
  }

  /** The switch of x at tier t lies inside one at tier t + 1. */
  ghost predicate Rises(switches: seq<Switch>, t: nat, x: nat) {
    exists g: nat, h: nat :: Holds(switches, g, t, x) && IsParent(switches, g, h)
  }

  /** Some switch of the next tier contains all members of g. */
  ghost predicate HasParent(switches: seq<Switch>, g: nat) {
    exists h: nat :: IsParent(switches, g, h)
  }

  ghost predicate RisesThrough(switches: seq<Switch>, from: nat, to: nat, x: nat) {
    forall t: nat | from <= t < to :: Rises(switches, t, x)
  }

  lemma HoldsUnique(switches: seq<Switch>, n: nat, g: nat, h: nat, t: nat, x: nat)
    requires Layered(switches, n) && Holds(switches, g, t, x) && Holds(switches, h, t, x)
    ensures g == h
  {
  }

  lemma RisesIffParent(switches: seq<Switch>, n: nat, g: nat, t: nat, x: nat)
    requires Layered(switches, n) && Holds(switches, g, t, x)
    ensures Rises(switches, t, x) <==> HasParent(switches, g)
  {
    if Rises(switches, t, x) {
      var g': nat, h: nat :| Holds(switches, g', t, x) && IsParent(switches, g', h);
      HoldsUnique(switches, n, g, g', t, x);
    }
  }

  /** From one switch that holds x to another, the walk arrives exactly when x rises through every
      tier in between. */
  lemma {:induction false} ReachesIff(switches: seq<Switch>, d: Table, n: nat, hv: nat, g: nat, x: nat)
    requires Layered(switches, n) && hv < |switches| && g < |switches|
    requires x in switches[hv].members && x in switches[g].members && switches[hv].tier <= switches[g].tier
    ensures Reaches(|switches|, AllEdges(switches, d, n), hv, g)
      <==> RisesThrough(switches, switches[hv].tier, switches[g].tier, x)
    decreases |switches| - hv
  {
    var t := switches[hv].tier;
    if hv != g {
      SwitchEdge(switches, d, n, hv);
      RisesIffParent(switches, n, hv, t, x);
      var edge := Lookup(AllEdges(switches, d, n), true, hv);
      if edge.Some? {
        assert IsParent(switches, hv, edge.value.dstId);
        ReachesIff(switches, d, n, edge.value.dstId, g, x);
      } else {
        assert !Rises(switches, t, x) && t < switches[g].tier;
      }
    }
  }

  /** The walk from a physical node up to a switch that contains it arrives if and only if a lowest
      switch contains the node and it rises through every tier up to the switch. */
  lemma PathReachesIff(switches: seq<Switch>, d: Table, n: nat, x: nat, g: nat)
    requires Layered(switches, n) && x < n && g < |switches| && x in switches[g].members
    ensures PathReaches(|switches|, AllEdges(switches, d, n), x, g)
      <==> Covers(switches, switches[0].tier, x) && RisesThrough(switches, switches[0].tier, switches[g].tier, x)
  {
    PhysicalEdge(switches, d, n, x);
    var edge := Lookup(AllEdges(switches, d, n), false, x);
    if edge.Some? {
      var h := edge.value.dstId;
      assert IsHome(switches, x, h) && Holds(switches, h, switches[0].tier, x);
      ReachesIff(switches, d, n, h, g, x);
    } else {
      NoStep(switches, Physical(x));
    }
  }

  /** Among nested switches a node rises exactly when both tiers cover it. */
  lemma RisesIffCovered(switches: seq<Switch>, n: nat, t: nat, x: nat)
    requires Laminar(switches, n)
    ensures Rises(switches, t, x) <==> Covers(switches, t, x) && Covers(switches, t + 1, x)
  {
    if Rises(switches, t, x) {
      var g: nat, h: nat :| Holds(switches, g, t, x) && IsParent(switches, g, h);
      assert Holds(switches, h, t + 1, x);
    }
    if Covers(switches, t, x) && Covers(switches, t + 1, x) {
      var g: nat :| Holds(switches, g, t, x);
      var h: nat :| Holds(switches, h, t + 1, x);
      assert switches[g].tier < switches[h].tier;
      assert IsParent(switches, g, h);
    }
  }

  lemma LaminarIsLayered(switches: seq<Switch>, n: nat)
    requires Laminar(switches, n)
    ensures Layered(switches, n)
  {
    forall i, j | 0 <= i < |switches| && 0 <= j < |switches| && switches[j].tier == switches[i].tier + 1
      ensures switches[i].members != switches[j].members
    {
      var x :| x in switches[i].members;
    }
  }

  /** With nested switches the walk arrives if and only if every tier from the lowest to that of the
      switch has a switch that contains the node: a skipped tier cuts it off. */
  lemma PathReachesIffCovered(switches: seq<Switch>, d: Table, n: nat, x: nat, g: nat)
    requires Laminar(switches, n) && x < n && g < |switches| && x in switches[g].members
    ensures PathReaches(|switches|, AllEdges(switches, d, n), x, g)
      <==> forall t: nat | switches[0].tier <= t <= switches[g].tier :: Covers(switches, t, x)
  {
    LaminarIsLayered(switches, n);
    PathReachesIff(switches, d, n, x, g);
    var low, high := switches[0].tier, switches[g].tier;
    assert Holds(switches, g, high, x);
    forall t: nat | low <= t < high
      ensures Rises(switches, t, x) <==> Covers(switches, t, x) && Covers(switches, t + 1, x)
    {
      RisesIffCovered(switches, n, t, x);
    }
    if Covers(switches, low, x) && RisesThrough(switches, low, high, x) {
      forall t: nat | low <= t <= high
        ensures Covers(switches, t, x)
      {
        if t < high {
          assert Rises(switches, t, x);
        }
      }
    }
    if forall t: nat | low <= t <= high :: Covers(switches, t, x) {
      forall t: nat | low <= t < high
        ensures Rises(switches, t, x)
      {
        assert Covers(switches, t, x) && Covers(switches, t + 1, x);
      }
    }
  }

  // ----- when the graph is connected

  ghost predicate IsVertex(v: Vertex, size: nat, n: nat) {
    match v
    case Physical(x) => x < n
    case Hidden(h) => h < size
  }

  ghost predicate IsWalk(edges: seq<Edge>, p: seq<Vertex>) {
    p != [] && forall i | 0 <= i < |p| - 1 :: Adjacent(edges, p[i], p[i + 1])
  }

  ghost predicate Joined(edges: seq<Edge>, u: Vertex, v: Vertex) {
    exists p :: IsWalk(edges, p) && p[0] == u && p[|p| - 1] == v
  }

  /** Every two vertices are joined by a walk along edges, in either direction. */
  ghost predicate Connected(edges: seq<Edge>, size: nat, n: nat) {
    forall u, v | IsVertex(u, size, n) && IsVertex(v, size, n) :: Joined(edges, u, v)
  }

  lemma WalkTail(edges: seq<Edge>, p: seq<Vertex>)
    requires IsWalk(edges, p) && |p| > 1
    ensures Adjacent(edges, p[0], p[1]) && IsWalk(edges, p[1..])
  {
    assert Adjacent(edges, p[0], p[0 + 1]);
    forall i | 0 <= i < |p[1..]| - 1
      ensures Adjacent(edges, p[1..][i], p[1..][i + 1])
    {
      assert Adjacent(edges, p[i + 1], p[i + 1 + 1]);
    }
  }

  lemma JoinedStep(edges: seq<Edge>, u: Vertex, v: Vertex, w: Vertex)
    requires Adjacent(edges, u, v) && Joined(edges, v, w)
    ensures Joined(edges, u, w)
  {
    var p :| IsWalk(edges, p) && p[0] == v && p[|p| - 1] == w;
    var q := [u] + p;
    forall i | 0 <= i < |q| - 1
      ensures Adjacent(edges, q[i], q[i + 1])
    {
      if i > 0 {
        assert Adjacent(edges, p[i - 1], p[i - 1 + 1]);
      }
    }
    assert IsWalk(edges, q) && q[|q| - 1] == w;
  }

  lemma JoinedSelf(edges: seq<Edge>, v: Vertex)
    ensures Joined(edges, v, v)
  {
    assert IsWalk(edges, [v]);
  }

  lemma {:induction false} JoinedBack(edges: seq<Edge>, p: seq<Vertex>, w: Vertex)
    requires IsWalk(edges, p) && Joined(edges, p[0], w)
    ensures Joined(edges, p[|p| - 1], w)
    decreases |p|
  {
    if |p| > 1 {
      WalkTail(edges, p);
      AdjacentSymmetric(edges, p[0], p[1]);
      JoinedStep(edges, p[1], p[0], w);
      JoinedBack(edges, p[1..], w);
    }
  }

  /** Two vertices joined with a common one are joined. */
  lemma JoinedVia(edges: seq<Edge>, u: Vertex, v: Vertex, r: Vertex)
    requires Joined(edges, u, r) && Joined(edges, v, r)
    ensures Joined(edges, u, v)
  {
    var p :| IsWalk(edges, p) && p[0] == v && p[|p| - 1] == r;
    JoinedSelf(edges, v);
    JoinedBack(edges, p, v);
    var q :| IsWalk(edges, q) && q[0] == u && q[|q| - 1] == r;
    JoinedAlong(edges, q, v);
  }

  lemma {:induction false} JoinedAlong(edges: seq<Edge>, p: seq<Vertex>, w: Vertex)
    requires IsWalk(edges, p) && Joined(edges, p[|p| - 1], w)
    ensures Joined(edges, p[0], w)
    decreases |p|
  {
    if |p| > 1 {
      WalkTail(edges, p);
      JoinedAlong(edges, p[1..], w);
      JoinedStep(edges, p[0], p[1], w);
    }
  }

  /** Where the edge that leaves a vertex leads. */
  ghost function Next(switches: seq<Switch>, v: Vertex): Option<Vertex> {
    match v
    case Physical(x) => (match Home(switches, x) case None => None case Some(h) => Some(Hidden(h)))
    case Hidden(g) => (match ParentOf(switches, g) case None => None case Some(h) => Some(Hidden(h)))
  }

  ghost function Depth(switches: seq<Switch>, v: Vertex): nat {
    match v
    case Physical(_) => |switches| + 1
    case Hidden(g) => if g < |switches| then |switches| - g else 0
  }

  /** The end of the walk upward. */
  ghost function RootOf(switches: seq<Switch>, v: Vertex): Vertex
    decreases Depth(switches, v)
  {
    match Next(switches, v)
    case None => v
    case Some(w) => if Depth(switches, w) < Depth(switches, v) then RootOf(switches, w) else v
  }

  /** The edges are exactly the steps upward. */
  lemma EdgeIsStep(switches: seq<Switch>, d: Table, n: nat, e: Edge)
    requires Layered(switches, n) && e in AllEdges(switches, d, n)
    ensures Next(switches, Source(e)) == Some(Target(e))
  {
    WireOneEach(switches, d, n, |switches|);
    if e.srcIsHidden {
      ParentUnique(switches, n, e.srcId);
    } else {
      assert IsHome(switches, e.srcId, e.dstId);
    }
  }

  lemma {:induction false} LookupListed(edges: seq<Edge>, srcIsHidden: bool, srcId: nat, i: nat)
    requires i <= |edges|
    ensures match LookupFrom(edges, srcIsHidden, srcId, i)
      case None => true
      case Some(e) => e in edges && e.srcIsHidden == srcIsHidden && e.dstIsHidden && e.srcId == srcId
    decreases |edges| - i
  {
    if i < |edges| {
      LookupListed(edges, srcIsHidden, srcId, i + 1);
    }
  }

  lemma StepIsEdge(switches: seq<Switch>, d: Table, n: nat, v: Vertex)
    requires Layered(switches, n) && IsVertex(v, |switches|, n) && Next(switches, v).Some?
    ensures var w := Next(switches, v).value;
      && IsVertex(w, |switches|, n) && Depth(switches, w) < Depth(switches, v)
      && Adjacent(AllEdges(switches, d, n), v, w)
  {
    var edges := AllEdges(switches, d, n);
    match v
    case Physical(x) =>
      PhysicalEdge(switches, d, n, x);
      LookupListed(edges, false, x, 0);
    case Hidden(g) =>
      SwitchEdge(switches, d, n, g);
      LookupListed(edges, true, g, 0);
  }

  lemma {:induction false} JoinedWithRoot(switches: seq<Switch>, d: Table, n: nat, v: Vertex)
    requires Layered(switches, n) && IsVertex(v, |switches|, n)
    ensures Joined(AllEdges(switches, d, n), v, RootOf(switches, v)) && IsVertex(RootOf(switches, v), |switches|, n)
    ensures Next(switches, RootOf(switches, v)) == None
    decreases Depth(switches, v)
  {
    if Next(switches, v) == None {
      JoinedSelf(AllEdges(switches, d, n), v);
    } else {
      var w := Next(switches, v).value;
      StepIsEdge(switches, d, n, v);
      JoinedWithRoot(switches, d, n, w);
      JoinedStep(AllEdges(switches, d, n), v, w, RootOf(switches, w));
    }
  }

  lemma StepKeepsRoot(switches: seq<Switch>, d: Table, n: nat, e: Edge)
    requires Layered(switches, n) && e in AllEdges(switches, d, n)
    ensures RootOf(switches, Source(e)) == RootOf(switches, Target(e))
  {
    EdgeIsStep(switches, d, n, e);
    WireOneEach(switches, d, n, |switches|);
    if e.srcIsHidden {
      ParentUnique(switches, n, e.srcId);
    }
    assert Depth(switches, Target(e)) < Depth(switches, Source(e));
  }

  lemma {:induction false} WalkKeepsRoot(switches: seq<Switch>, d: Table, n: nat, p: seq<Vertex>)
    requires Layered(switches, n) && IsWalk(AllEdges(switches, d, n), p)
    ensures RootOf(switches, p[0]) == RootOf(switches, p[|p| - 1])
    decreases |p|
  {
    if |p| > 1 {
      var edges := AllEdges(switches, d, n);
      WalkTail(edges, p);
      var e :| e in edges && ((Source(e) == p[0] && Target(e) == p[1]) || (Source(e) == p[1] && Target(e) == p[0]));
      StepKeepsRoot(switches, d, n, e);
      WalkKeepsRoot(switches, d, n, p[1..]);
    }
  }

  /** Two vertices are joined exactly when their walks upward end at the same vertex. */
  lemma JoinedIffSameRoot(switches: seq<Switch>, d: Table, n: nat, u: Vertex, v: Vertex)
    requires Layered(switches, n) && IsVertex(u, |switches|, n) && IsVertex(v, |switches|, n)
    ensures Joined(AllEdges(switches, d, n), u, v) <==> RootOf(switches, u) == RootOf(switches, v)
  {
    var edges := AllEdges(switches, d, n);
    if Joined(edges, u, v) {
      var p :| IsWalk(edges, p) && p[0] == u && p[|p| - 1] == v;
      WalkKeepsRoot(switches, d, n, p);
    }
    if RootOf(switches, u) == RootOf(switches, v) {
      JoinedWithRoot(switches, d, n, u);
      JoinedWithRoot(switches, d, n, v);
      JoinedVia(edges, u, v, RootOf(switches, u));
    }
  }

  /** Every physical node is in a lowest switch, and every switch but the last lies inside one of the
      next tier. */
  ghost predicate Complete(switches: seq<Switch>, n: nat)
    requires switches != []
  {
    && (forall x: nat | x < n :: Covers(switches, switches[0].tier, x))
    && forall g: nat | g < |switches| - 1 :: HasParent(switches, g)
  }

  /** Which vertices no edge leaves. */
  lemma NoStep(switches: seq<Switch>, v: Vertex)
    requires switches != []
    ensures Next(switches, v) == None <==>
      match v
      case Physical(x) => !Covers(switches, switches[0].tier, x)
      case Hidden(g) => !HasParent(switches, g)
  {
    match v
    case Physical(x) =>
      forall h: nat
        ensures IsHome(switches, x, h) <==> Holds(switches, h, switches[0].tier, x)
      {
      }
      if Home(switches, x).Some? {
        assert Holds(switches, Home(switches, x).value, switches[0].tier, x);
      }
    case Hidden(g) =>
      if ParentOf(switches, g).Some? {
        assert IsParent(switches, g, ParentOf(switches, g).value);
      }
  }

  lemma LastHasNoParent(switches: seq<Switch>, n: nat)
    requires Layered(switches, n) && switches != []
    ensures Next(switches, Hidden(|switches| - 1)) == None
  {
  }

  /** All walks upward end at the same vertex. */
  ghost predicate OneRoot(switches: seq<Switch>, n: nat) {
    forall u, v | IsVertex(u, |switches|, n) && IsVertex(v, |switches|, n) :: RootOf(switches, u) == RootOf(switches, v)
  }

  lemma ConnectedIffOneRoot(switches: seq<Switch>, d: Table, n: nat)
    requires Layered(switches, n)
    ensures Connected(AllEdges(switches, d, n), |switches|, n) <==> OneRoot(switches, n)
  {
    hide Layered, AllEdges, Joined, RootOf, IsVertex;
    forall u, v | IsVertex(u, |switches|, n) && IsVertex(v, |switches|, n)
      ensures Joined(AllEdges(switches, d, n), u, v) <==> RootOf(switches, u) == RootOf(switches, v)
    {
      JoinedIffSameRoot(switches, d, n, u, v);
    }
  }

  /** The graph is connected if and only if the switches are complete; without switches, if and only
      if there is at most one node. */
  lemma ConnectedIff(switches: seq<Switch>, d: Table, n: nat)
    requires Layered(switches, n)
    ensures Connected(AllEdges(switches, d, n), |switches|, n)
      <==> if switches == [] then n <= 1 else Complete(switches, n)
  {
    ConnectedIffOneRoot(switches, d, n);
    hide Layered, Connected;
    if switches == [] {
      NoSwitchesRoots(n);
    } else if Complete(switches, n) {
      CompleteHasOneRoot(switches, d, n);
    } else {
      IncompleteHasTwoRoots(switches, d, n);
    }
  }

  lemma NoSwitchesRoots(n: nat)
    ensures OneRoot([], n) <==> n <= 1
  {
    if n > 1 {
      assert IsVertex(Physical(0), 0, n) && IsVertex(Physical(1), 0, n);
      assert RootOf([], Physical(0)) == Physical(0) && RootOf([], Physical(1)) == Physical(1);
    }
  }

  lemma CompleteHasOneRoot(switches: seq<Switch>, d: Table, n: nat)
    requires Layered(switches, n) && switches != [] && Complete(switches, n)
    ensures forall v | IsVertex(v, |switches|, n) :: RootOf(switches, v) == Hidden(|switches| - 1)
  {
    forall v | IsVertex(v, |switches|, n)
      ensures RootOf(switches, v) == Hidden(|switches| - 1)
    {
      JoinedWithRoot(switches, d, n, v);
      NoStep(switches, RootOf(switches, v));
    }
  }

  lemma IncompleteHasTwoRoots(switches: seq<Switch>, d: Table, n: nat)
    requires Layered(switches, n) && switches != [] && !Complete(switches, n)
    ensures exists u, v ::
      IsVertex(u, |switches|, n) && IsVertex(v, |switches|, n) && RootOf(switches, u) != RootOf(switches, v)
  {
    var last := Hidden(|switches| - 1);
    LastHasNoParent(switches, n);
    var u: Vertex;
    if x: nat :| x < n && !Covers(switches, switches[0].tier, x) {
      u := Physical(x);
    } else {
      var g: nat :| g < |switches| - 1 && !HasParent(switches, g);
      u := Hidden(g);
    }
    NoStep(switches, u);
    assert Next(switches, u) == None;
    assert RootOf(switches, u) == u && RootOf(switches, last) == last && u != last;
    assert IsVertex(u, |switches|, n) && IsVertex(last, |switches|, n);
  }

  /** A switch below an empty tier is cut off from every switch above it. */
  lemma SkippedTierDisconnects(switches: seq<Switch>, d: Table, n: nat, g: nat, h: nat)
    requires Layered(switches, n) && g < |switches| && h < |switches| && switches[g].tier + 1 < switches[h].tier
    requires forall k | 0 <= k < |switches| :: switches[k].tier != switches[g].tier + 1
    ensures !Connected(AllEdges(switches, d, n), |switches|, n)
  {
    ConnectedIff(switches, d, n);
    assert !HasParent(switches, g);
    assert g < h;
  }

  /** Among nested switches: connected if and only if there is one switch of the top tier and every
      tier from the lowest to the top covers every node. */
  lemma ConnectedIffCovered(switches: seq<Switch>, d: Table, n: nat)
    requires Laminar(switches, n) && switches != []
    ensures var low, high := switches[0].tier, switches[|switches| - 1].tier;
      Connected(AllEdges(switches, d, n), |switches|, n)
      <==> (forall g: nat | g < |switches| - 1 :: switches[g].tier < high)
           && forall x: nat, t: nat | x < n && low <= t <= high :: Covers(switches, t, x)
  {
    LaminarIsLayered(switches, n);
    ConnectedIff(switches, d, n);
    if Complete(switches, n) {
      CompleteCovers(switches, n);
    }
    var low, high := switches[0].tier, switches[|switches| - 1].tier;
    if (forall g: nat | g < |switches| - 1 :: switches[g].tier < high)
       && forall x: nat, t: nat | x < n && low <= t <= high :: Covers(switches, t, x) {
      CoveredIsComplete(switches, n);
    }
  }

  lemma CoveredIsComplete(switches: seq<Switch>, n: nat)
    requires Laminar(switches, n) && switches != []
    requires forall g: nat | g < |switches| - 1 :: switches[g].tier < switches[|switches| - 1].tier
    requires forall x: nat, t: nat | x < n && switches[0].tier <= t <= switches[|switches| - 1].tier ::
      Covers(switches, t, x)
    ensures Complete(switches, n)
  {
    forall g: nat | g < |switches| - 1
      ensures HasParent(switches, g)
    {
      var t := switches[g].tier;
      var x :| x in switches[g].members;
      assert x in Below(n);
      assert Covers(switches, t + 1, x) && Holds(switches, g, t, x);
      RisesIffCovered(switches, n, t, x);
      LaminarIsLayered(switches, n);
      RisesIffParent(switches, n, g, t, x);
    }
  }

  lemma CompleteCovers(switches: seq<Switch>, n: nat)
    requires Layered(switches, n) && switches != [] && Complete(switches, n)
    ensures forall g: nat | g < |switches| - 1 :: switches[g].tier < switches[|switches| - 1].tier
    ensures forall x: nat, t: nat | x < n && switches[0].tier <= t <= switches[|switches| - 1].tier ::
      Covers(switches, t, x)
  {
    forall g: nat | g < |switches| - 1
      ensures switches[g].tier < switches[|switches| - 1].tier
    {
      assert HasParent(switches, g);
    }
    forall x: nat, t: nat | x < n && switches[0].tier <= t <= switches[|switches| - 1].tier
      ensures Covers(switches, t, x)
    {
      CompleteCoversTier(switches, n, x, t);
    }
  }

  lemma {:induction false} CompleteCoversTier(switches: seq<Switch>, n: nat, x: nat, t: nat)
    requires Layered(switches, n) && switches != [] && Complete(switches, n)
    requires x < n && switches[0].tier <= t <= switches[|switches| - 1].tier
    ensures Covers(switches, t, x)
    decreases t
  {
    if t > switches[0].tier {
      CompleteCoversTier(switches, n, x, t - 1);
      var g: nat :| Holds(switches, g, t - 1, x);
      assert HasParent(switches, g);
      var h: nat :| IsParent(switches, g, h);
      assert Holds(switches, h, t, x);
    }
  }
}
