/** What an edge of the inferred topology weighs, for every matrix: the laws that determine the sums and
    counts the weights are averages of, and each weight as the whole number that its average leaves. */
module EdgeWeights {
  import opened Common
  import opened LatencyMatrices
  import opened HiddenNodes
  import opened Edges
  import opened ForestTheorems

  // ----- conversion to whole nanoseconds

  /** Truncation of a latency that is not negative is its whole part. */
  lemma TruncateIsWholePart(x: real)
    ensures x >= 0.0 ==> Truncate(x) as real <= x < (Truncate(x) + 1) as real
    ensures x < 0.0 ==> Truncate(x) == 0
  {
  }

  /** The quotient of two whole numbers, as the only one with these multiples around the dividend. */
  lemma QuotientAround(total: nat, count: nat)
    requires count > 0
    ensures var q := total / count; count * q <= total < count * q + count
  {
    assert total == count * (total / count) + total % count;
  }

  lemma HalfOfQuotient(total: nat, count: nat)
    requires count > 0
    ensures var k := total / count / 2; 2 * (count * k) <= total < 2 * (count * k) + 2 * count
  {
    var q := total / count;
    var k := q / 2;
    QuotientAround(total, count);
    assert q == 2 * k || q == 2 * k + 1;
    assert count * (2 * k) == 2 * (count * k) && count * (2 * k + 1) == 2 * (count * k) + count;
  }

  // ----- the sum over fellow members

  lemma {:induction false} SumOthersFrame(d: Table, A: set<nat>, B: set<nat>, p: nat, m: nat)
    requires forall x: nat | x < m && x != p :: x in A <==> x in B
    ensures SumOthers(d, A, p, m) == SumOthers(d, B, p, m) && CountOthers(A, p, m) == CountOthers(B, p, m)
  {
    if m > 0 {
      SumOthersFrame(d, A, B, p, m - 1);
    }
  }

  /** One more fellow member adds its truncated distance, and one to the count; a node is no fellow of
      its own, and without fellows both are zero. */
  lemma {:induction false} OneMoreOther(d: Table, members: set<nat>, p: nat, n: nat, y: nat)
    requires y < n && y !in members && y != p
    ensures SumOthers(d, members + {y}, p, n) == SumOthers(d, members, p, n) + Truncate(At(d, p, y))
    ensures CountOthers(members + {y}, p, n) == CountOthers(members, p, n) + 1
  {
    if y < n - 1 {
      OneMoreOther(d, members, p, n - 1, y);
    } else {
      SumOthersFrame(d, members + {y}, members, p, n - 1);
    }
  }

  lemma {:induction false} NoOther(d: Table, members: set<nat>, p: nat, n: nat)
    requires members <= {p}
    ensures SumOthers(d, members, p, n) == 0 && CountOthers(members, p, n) == 0
  {
    if n > 0 {
      NoOther(d, members, p, n - 1);
    }
  }

  /** The count is the number of fellow members. */
  lemma {:induction false} CountIsSize(d: Table, members: set<nat>, p: nat, n: nat)
    requires members <= Below(n)
    ensures CountOthers(members, p, n) == |members - {p}|
    decreases |members|
  {
    var others := members - {p};
    if others == {} {
      NoOther(d, members, p, n);
    } else {
      var y :| y in others;
      assert y in Below(n);
      CountIsSize(d, members - {y}, p, n);
      OneMoreOther(d, members - {y}, p, n, y);
      assert members - {y} + {y} == members;
      assert members - {y} - {p} == others - {y};
    }
  }

  /** The edge of a physical node weighs half the average of the truncated distances to the other
      members of its switch, in whole nanoseconds; nothing if there are no others. */
  lemma PhysicalEdgeWeight(switches: seq<Switch>, d: Table, n: nat, p: nat)
    requires Layered(switches, n) && p < n
    ensures match Lookup(AllEdges(switches, d, n), false, p)
      case None => true
      case Some(e) =>
        && e.dstId < |switches|
        && var others := switches[e.dstId].members - {p};
           var total := SumOthers(d, others, p, n);
           if others == {} then e.latencyNs == 0
           else 2 * (|others| * e.latencyNs) <= total < 2 * (|others| * e.latencyNs) + 2 * |others|
  {
    WireLookup(switches, d, n, |switches|, false, p);
    AccessLookup(switches, d, n, n, false, p);
    if Home(switches, p).Some? {
      var members := switches[Home(switches, p).value].members;
      SumOthersFrame(d, members, members - {p}, p, n);
      CountIsSize(d, members, p, n);
      if members - {p} != {} {
        HalfOfQuotient(SumOthers(d, members, p, n), |members - {p}|);
      }
    }
  }

  // ----- the sum over cross pairs

  lemma {:induction false} RowAdds(d: Table, a: nat, B: set<nat>, B': set<nat>, m: nat)
    requires B !! B'
    ensures RowSum(d, a, B + B', m) == RowSum(d, a, B, m) + RowSum(d, a, B', m)
    ensures RowCount(B + B', m) == RowCount(B, m) + RowCount(B', m)
  {
    if m > 0 {
      RowAdds(d, a, B, B', m - 1);
    }
  }

  /** Sum and number of the cross pairs of two sets are additive in both of them ... */
  lemma {:induction false} CrossAddsLeft(d: Table, A: set<nat>, A': set<nat>, B: set<nat>, n: nat, m: nat)
    requires A !! A'
    ensures CrossSum(d, A + A', B, n, m) == CrossSum(d, A, B, n, m) + CrossSum(d, A', B, n, m)
    ensures CrossCount(A + A', B, n, m) == CrossCount(A, B, n, m) + CrossCount(A', B, n, m)
  {
    if m > 0 {
      CrossAddsLeft(d, A, A', B, n, m - 1);
    }
  }

  lemma {:induction false} CrossAddsRight(d: Table, A: set<nat>, B: set<nat>, B': set<nat>, n: nat, m: nat)
    requires B !! B'
    ensures CrossSum(d, A, B + B', n, m) == CrossSum(d, A, B, n, m) + CrossSum(d, A, B', n, m)
    ensures CrossCount(A, B + B', n, m) == CrossCount(A, B, n, m) + CrossCount(A, B', n, m)
  {
    if m > 0 {
      CrossAddsRight(d, A, B, B', n, m - 1);
      RowAdds(d, m - 1, B, B', n);
    }
  }

  lemma {:induction false} RowOfOne(d: Table, a: nat, b: nat, m: nat)
    ensures RowSum(d, a, {b}, m) == if b < m then At(d, a, b) else 0.0
    ensures RowCount({b}, m) == if b < m then 1 else 0
  {
    if m > 0 {
      RowOfOne(d, a, b, m - 1);
    }
  }

  /** ... and of one pair they are its distance and one. */
  lemma {:induction false} CrossOfOne(d: Table, a: nat, b: nat, n: nat, m: nat)
    requires b < n
    ensures CrossSum(d, {a}, {b}, n, m) == if a < m then At(d, a, b) else 0.0
    ensures CrossCount({a}, {b}, n, m) == if a < m then 1 else 0
  {
    if m > 0 {
      CrossOfOne(d, a, b, n, m - 1);
      RowOfOne(d, m - 1, b, n);
    }
  }

  lemma {:induction false} RowOfNone(d: Table, a: nat, m: nat)
    ensures RowSum(d, a, {}, m) == 0.0 && RowCount({}, m) == 0
  {
    if m > 0 {
      RowOfNone(d, a, m - 1);
    }
  }

  lemma {:induction false} RowCountIsSize(d: Table, B: set<nat>, n: nat)
    requires B <= Below(n)
    ensures RowCount(B, n) == |B|
    decreases |B|
  {
    if B == {} {
      RowOfNone(d, 0, n);
    } else {
      var b :| b in B;
      assert b in Below(n);
      RowCountIsSize(d, B - {b}, n);
      RowAdds(d, 0, B - {b}, {b}, n);
      RowOfOne(d, 0, b, n);
      assert B - {b} + {b} == B;
    }
  }

  lemma {:induction false} CrossOfNone(d: Table, B: set<nat>, n: nat, m: nat)
    ensures CrossSum(d, {}, B, n, m) == 0.0 && CrossCount({}, B, n, m) == 0
  {
    if m > 0 {
      CrossOfNone(d, B, n, m - 1);
    }
  }

  lemma {:induction false} CountOfRow(a: nat, B: set<nat>, n: nat, m: nat)
    ensures CrossCount({a}, B, n, m) == if a < m then RowCount(B, n) else 0
  {
    if m > 0 {
      CountOfRow(a, B, n, m - 1);
    }
  }

  /** The number of cross pairs is the product of the sizes. */
  lemma {:induction false} CrossCountIsProduct(d: Table, A: set<nat>, B: set<nat>, n: nat)
    requires A <= Below(n) && B <= Below(n)
    ensures CrossCount(A, B, n, n) == |A| * |B|
    decreases |A|
  {
    hide CrossSum, CrossCount, RowSum, RowCount;
    if A == {} {
      CrossOfNone(d, B, n, n);
    } else {
      var a :| a in A;
      assert a in Below(n);
      CrossCountIsProduct(d, A - {a}, B, n);
      CrossAddsLeft(d, A - {a}, {a}, B, n, n);
      CountOfRow(a, B, n, n);
      RowCountIsSize(d, B, n);
      assert A - {a} + {a} == A;
      var k := |A - {a}|;
      assert |A| == k + 1;
      assert (k + 1) * |B| == k * |B| + |B|;
    }
  }

  // ----- the excess over the path below

  /** Half of what an average exceeds twice a path by, in whole nanoseconds; never below zero. */
  lemma HalfExcessIs(total: real, count: nat, path: nat)
    requires count > 0
    ensures var k, average := HalfExcess(total, count, path), total / count as real;
      if average <= 2.0 * path as real then k == 0
      else 2.0 * (path + k) as real <= average < 2.0 * (path + k + 1) as real
  {
    var half := (total / count as real - 2.0 * path as real) / 2.0;
    TruncateIsWholePart(if half > 0.0 then half else 0.0);
  }

  /** x is the lowest id of a set. */
  ghost predicate IsLowest(x: nat, members: set<nat>) {
    x in members && forall y | y in members :: x <= y
  }

  /** The edge from a switch to its parent. Let the cross pairs be those of its own members with the
      parent's other members, and the path that of its lowest member up to it in the finished topology.
      Then the edge weighs half of what the average cross distance exceeds twice the path by, in whole
      nanoseconds, and zero if it does not. */
  lemma SwitchEdgeWeight(switches: seq<Switch>, d: Table, n: nat, g: nat, x: nat)
    requires Layered(switches, n) && g < |switches| && IsLowest(x, switches[g].members)
    ensures match Lookup(AllEdges(switches, d, n), true, g)
      case None => true
      case Some(e) =>
        && e.dstId < |switches|
        && var lower, sibling := switches[g].members, switches[e.dstId].members - switches[g].members;
           var total, path := CrossSum(d, lower, sibling, n, n), PathTo(|switches|, AllEdges(switches, d, n), x, g);
           && lower != {} && sibling != {}
           && var average := total / (|lower| * |sibling|) as real;
              if average <= 2.0 * path as real then e.latencyNs == 0
              else 2.0 * (path + e.latencyNs) as real <= average < 2.0 * (path + e.latencyNs + 1) as real
  {
    hide CrossSum, CrossCount, HalfExcess, PathTo, Layered, Lookup, IsParent, ParentOf, InterTierLatency, Wire;
    SwitchEdge(switches, d, n, g);
    WireLookup(switches, d, n, |switches|, true, g);
    if ParentOf(switches, g).Some? {
      var h := ParentOf(switches, g).value;
      var lower, sibling := switches[g].members, switches[h].members - switches[g].members;
      ParentWeight(switches, d, n, g, h, x);
      MembersBelow(switches, n, g, h);
      CrossCountIsProduct(d, lower, sibling, n);
      SomePairs(lower, sibling);
      HalfExcessIs(CrossSum(d, lower, sibling, n, n), |lower| * |sibling|,
                   PathTo(|switches|, AllEdges(switches, d, n), x, g));
    }
  }

  lemma SomePairs(A: set<nat>, B: set<nat>)
    requires A != {} && B != {}
    ensures |A| * |B| > 0
  {
  }

  lemma MembersBelow(switches: seq<Switch>, n: nat, g: nat, h: nat)
    requires Layered(switches, n) && g < |switches| && h < |switches|
    ensures switches[g].members <= Below(n) && switches[h].members <= Below(n)
  {
  }

  lemma ParentWeight(switches: seq<Switch>, d: Table, n: nat, g: nat, h: nat, x: nat)
    requires Layered(switches, n) && g < |switches| && h < |switches| && IsLowest(x, switches[g].members)
    ensures var lower, sibling := switches[g].members, switches[h].members - switches[g].members;
      InterTierLatency(switches, d, n, Wire(switches, d, n, g), g, h) ==
        if CrossCount(lower, sibling, n, n) == 0 then 0
        else HalfExcess(CrossSum(d, lower, sibling, n, n), CrossCount(lower, sibling, n, n),
                        PathTo(|switches|, AllEdges(switches, d, n), x, g))
  {
    MembersBelow(switches, n, g, h);
    assert x in Below(n);
    assert Least(switches[g].members, n) == x;
    PathSettled(switches, d, n, x, g);
  }

  // ----- what a path weighs

  /** e leads on from where the k-th step of a walk ended. */
  ghost predicate Follows(e: Edge, f: Edge) {
    e.dstIsHidden && f.srcIsHidden && f.srcId == e.dstId
  }

  /** sums are the running totals of the latencies of a walk's edges. */
  ghost predicate RunningTotals(es: seq<Edge>, sums: seq<nat>) {
    |sums| == |es| + 1 && sums[0] == 0 && forall k | 0 <= k < |es| :: sums[k + 1] == sums[k] + es[k].latencyNs
  }

  ghost predicate IsEdgeWalk(edges: seq<Edge>, es: seq<Edge>) {
    (forall e | e in es :: e in edges) && forall k | 0 <= k < |es| - 1 :: Follows(es[k], es[k + 1])
  }

  lemma {:induction false} LookupIsEdge(edges: seq<Edge>, srcIsHidden: bool, srcId: nat, i: nat)
    requires i <= |edges|
    ensures match LookupFrom(edges, srcIsHidden, srcId, i)
      case Some(e) => e in edges && e.srcIsHidden == srcIsHidden && e.dstIsHidden && e.srcId == srcId
      case None => forall k | i <= k < |edges| ::
        !(edges[k].srcIsHidden == srcIsHidden && edges[k].dstIsHidden && edges[k].srcId == srcId)
    decreases |edges| - i
  {
    if i < |edges| {
      LookupIsEdge(edges, srcIsHidden, srcId, i + 1);
    }
  }

  /** No edge leads on from hidden node z to a higher one. */
  ghost predicate EndsAt(size: nat, edges: seq<Edge>, z: nat) {
    match Lookup(edges, true, z)
    case None => true
    case Some(e) => !(z < e.dstId < size)
  }

  /** The upward walk from hidden node hv, edge by edge, and what it adds up to: up to the target, or to
      where no edge leads on. */
  lemma {:induction false} TraceIsWalk(size: nat, edges: seq<Edge>, hv: nat, target: nat)
    returns (es: seq<Edge>, sums: seq<nat>, z: nat)
    ensures IsEdgeWalk(edges, es) && RunningTotals(es, sums) && Trace(size, edges, hv, target) == sums[|es|]
    ensures if es == [] then hv == z
            else hv != target && es[0].srcIsHidden && es[0].srcId == hv && es[|es| - 1].dstIsHidden
                 && es[|es| - 1].dstId == z
    ensures forall k | 0 <= k < |es| - 1 :: es[k].dstId != target
    ensures if Reaches(size, edges, hv, target) then z == target else z != target && EndsAt(size, edges, z)
    decreases size - hv
  {
    LookupIsEdge(edges, true, hv, 0);
    if hv == target || EndsAt(size, edges, hv) {
      es, sums, z := [], [0], hv;
    } else {
      var e := Lookup(edges, true, hv).value;
      var rest, later;
      rest, later, z := TraceIsWalk(size, edges, e.dstId, target);
      es := [e] + rest;
      sums := TotalsAfter(e, rest, later);
    }
  }

  /** Running totals with one more edge in front. */
  lemma TotalsAfter(e: Edge, rest: seq<Edge>, later: seq<nat>) returns (sums: seq<nat>)
    requires RunningTotals(rest, later)
    ensures RunningTotals([e] + rest, sums) && sums[|rest| + 1] == e.latencyNs + later[|rest|]
  {
    var shifted := seq(|later|, k requires 0 <= k < |later| => e.latencyNs + later[k]);
    sums := [0] + shifted;
    forall k | 0 <= k <= |rest|
      ensures sums[k + 1] == sums[k] + ([e] + rest)[k].latencyNs
    {
      if k > 0 {
        assert ([e] + rest)[k] == rest[k - 1] && sums[k] == shifted[k - 1] && sums[k + 1] == shifted[k];
        assert later[k - 1 + 1] == later[k - 1] + rest[k - 1].latencyNs;
      }
    }
  }

  /** A path is a walk over edges of the topology that starts at the node and climbs to the switch, or, if
      it does not arrive, to where no edge leads on; it weighs what the edges along it weigh together. */
  lemma PathIsWalk(size: nat, edges: seq<Edge>, p: nat, h: nat) returns (es: seq<Edge>, sums: seq<nat>)
    ensures IsEdgeWalk(edges, es) && RunningTotals(es, sums) && PathTo(size, edges, p, h) == sums[|es|]
    ensures if es == [] then forall e | e in edges :: !(!e.srcIsHidden && e.dstIsHidden && e.srcId == p)
            else !es[0].srcIsHidden && es[0].srcId == p && es[|es| - 1].dstIsHidden
    ensures forall k | 0 <= k < |es| - 1 :: es[k].dstId != h
    ensures PathReaches(size, edges, p, h) ==> es != [] && es[|es| - 1].dstId == h
    ensures !PathReaches(size, edges, p, h) && es != [] ==>
      es[|es| - 1].dstId != h && EndsAt(size, edges, es[|es| - 1].dstId)
  {
    LookupIsEdge(edges, false, p, 0);
    match Lookup(edges, false, p)
    case None =>
      es, sums := [], [0];
    case Some(e) =>
      var rest, later, z := TraceIsWalk(size, edges, e.dstId, h);
      es := [e] + rest;
      sums := TotalsAfter(e, rest, later);
  }

  // ----- the order of the list

  /** Edges of physical nodes come first, then those of switches; each sort by rising ids. */
  ghost predicate SourcesRise(edges: seq<Edge>) {
    forall i, j | 0 <= i < j < |edges| ::
      if edges[i].srcIsHidden == edges[j].srcIsHidden then edges[i].srcId < edges[j].srcId else edges[j].srcIsHidden
  }

  lemma {:induction false} AccessRises(switches: seq<Switch>, d: Table, n: nat, p: nat)
    ensures SourcesRise(AccessEdges(switches, d, n, p))
  {
    hide IsHome, AccessLatency;
    if p > 0 {
      AccessRises(switches, d, n, p - 1);
      AccessOneEach(switches, d, n, p - 1);
      var before := AccessEdges(switches, d, n, p - 1);
      assert forall i | 0 <= i < |before| :: before[i] in before;
    }
  }

  lemma {:induction false} EdgesInOrder(switches: seq<Switch>, d: Table, n: nat, k: nat)
    requires k <= |switches|
    ensures SourcesRise(Wire(switches, d, n, k))
  {
    hide IsParent, IsHome, InterTierLatency;
    if k == 0 {
      AccessRises(switches, d, n, n);
    } else {
      EdgesInOrder(switches, d, n, k - 1);
      WireOneEach(switches, d, n, k - 1);
      var before := Wire(switches, d, n, k - 1);
      assert forall i | 0 <= i < |before| :: before[i] in before;
    }
  }
}
