/** On a strictly hierarchical matrix the inferred tree gives back every measured latency. */
module RoundTrip {
  import opened Common
  import opened LatencyMatrices
  import opened Linkages
  import opened Dendrograms
  import opened DendrogramTheorems
  import opened TierConfigs
  import opened HiddenNodes
  import opened Edges
  import opened ForestTheorems

  /** One even latency per tier, each within its tier's band; every distance is one of them, they
      nest, and every node sees each of them (so every cluster grows from tier to tier). */
  ghost predicate Hierarchical(config: TierConfig, d: Table, n: nat, levels: seq<nat>) {
    && Ultrametric(d, n) && Ascending(config.thresholds) && config.minClusterSize <= 2
    && 0 < |levels| <= |config.thresholds| + 1
    && (forall t | 0 <= t < |levels| :: levels[t] % 2 == 0)
    && (forall s, t | 0 <= s < t < |levels| :: levels[s] < levels[t])
    && (forall t | 0 <= t < |levels| && t < |config.thresholds| :: levels[t] <= config.thresholds[t])
    && (forall t | 0 < t < |levels| :: config.thresholds[t - 1] < levels[t])
    && (forall x: nat, y: nat | x < n && y < n && x != y :: HasLevel(d, levels, x, y))
    && forall x: nat, t: nat | x < n && t < |levels| :: SeesLevel(d, n, levels, t, x)
  }

  ghost predicate AtLevel(d: Table, levels: seq<nat>, t: nat, x: nat, y: nat) {
    t < |levels| && At(d, x, y) == levels[t] as real
  }

  ghost predicate HasLevel(d: Table, levels: seq<nat>, x: nat, y: nat) {
    exists t: nat :: AtLevel(d, levels, t, x, y)
  }

  ghost predicate SeesLevel(d: Table, n: nat, levels: seq<nat>, t: nat, x: nat) {
    exists y: nat :: y < n && y != x && AtLevel(d, levels, t, x, y)
  }

  /** The tree was built from a hierarchical matrix. */
  ghost predicate Setting(config: TierConfig, nodes: seq<ClusterNode>, n: nat, d: Table, levels: seq<nat>) {
    Clustered(config, nodes, n, d) && Hierarchical(config, d, n, levels)
  }

  /** Two pairs of nodes, at distance 2 within and 10 across. */
  const TWO_PAIRS: Table := [[0.0, 2.0, 10.0, 10.0], [2.0, 0.0, 10.0, 10.0],
                             [10.0, 10.0, 0.0, 2.0], [10.0, 10.0, 2.0, 0.0]]

  lemma TwoPairsDistances()
    ensures forall x: nat, y: nat | x < 4 && y < 4 ::
      At(TWO_PAIRS, x, y) == if x == y then 0.0 else if x / 2 == y / 2 then 2.0 else 10.0
    ensures Ultrametric(TWO_PAIRS, 4)
  {
    forall x: nat, y: nat | x < 4 && y < 4
      ensures At(TWO_PAIRS, x, y) == if x == y then 0.0 else if x / 2 == y / 2 then 2.0 else 10.0
    {
    }
  }

  /** Hierarchical matrices exist. */
  lemma TwoPairsAreHierarchical(link: LinkageType)
    ensures Hierarchical(TierConfig([5], link, 2), TWO_PAIRS, 4, [2, 10])
  {
    TwoPairsDistances();
    var d, levels := TWO_PAIRS, [2, 10];
    assert 2 as real == 2.0 && 10 as real == 10.0;
    forall x: nat, y: nat | x < 4 && y < 4 && x != y
      ensures HasLevel(d, levels, x, y)
    {
      assert AtLevel(d, levels, if x / 2 == y / 2 then 0 else 1, x, y);
    }
    forall x: nat, t: nat | x < 4 && t < 2
      ensures SeesLevel(d, 4, levels, t, x)
    {
      var y := if t == 0 then (if x % 2 == 0 then x + 1 else x - 1) else (x + 2) % 4;
      assert AtLevel(d, levels, t, x, y);
    }
  }

  // ----- the levels

  lemma LevelsEvenAscending(config: TierConfig, d: Table, n: nat, levels: seq<nat>, s: nat, t: nat)
    requires Hierarchical(config, d, n, levels) && s <= t < |levels|
    ensures levels[s] <= levels[t] && levels[s] % 2 == 0 && levels[t] % 2 == 0
  {
  }

  lemma LevelBetween(levels: seq<nat>, s: nat, t: nat)
    requires s < |levels| && t + 1 < |levels| && levels[t] < levels[s] <= levels[t + 1]
    requires forall i, j | 0 <= i < j < |levels| :: levels[i] < levels[j]
    ensures s == t + 1
  {
  }

  lemma HalvesAdd(a: nat, b: nat, c: nat)
    requires a <= b <= c && a % 2 == 0 && b % 2 == 0 && c % 2 == 0
    ensures (b - a) / 2 + (c - b) / 2 == (c - a) / 2
  {
  }

  // ----- the groups are the level classes

  lemma GroupIsLevelClass(config: TierConfig, nodes: seq<ClusterNode>, n: nat, d: Table, levels: seq<nat>, t: nat,
                          x: nat, y: nat)
    requires Setting(config, nodes, n, d, levels) && t < |levels| && x < n && y < n
    ensures y in Group(config, nodes, n, t, x) <==> y == x || At(d, x, y) <= levels[t] as real
  {
    hide Hierarchical, Ultrametric;
    GroupIsClass(config, nodes, n, d, t, x);
    if x != y {
      ThresholdIsLevel(config, d, n, levels, t, x, y);
      if t < |config.thresholds| {
        CutIsThreshold(config, nodes, n, d, levels, t, x, y);
      } else {
        TopCut(config, nodes, n, d, t, x, y);
      }
    }
  }

  lemma LevelOf(config: TierConfig, d: Table, n: nat, levels: seq<nat>, x: nat, y: nat) returns (s: nat)
    requires Hierarchical(config, d, n, levels) && x < n && y < n && x != y
    ensures s < |levels| && At(d, x, y) == levels[s] as real
  {
    hide Ultrametric, Ascending, SeesLevel;
    assert HasLevel(d, levels, x, y);
    s :| AtLevel(d, levels, s, x, y);
  }

  /** No level lies between a tier's own and its threshold. */
  lemma LevelOrder(config: TierConfig, d: Table, n: nat, levels: seq<nat>, s: nat, t: nat)
    requires Hierarchical(config, d, n, levels) && s < |levels| && t < |levels|
    ensures t < |config.thresholds| ==> (levels[s] <= config.thresholds[t] <==> levels[s] <= levels[t])
    ensures t >= |config.thresholds| ==> levels[s] <= levels[t]
  {
    hide Ultrametric, Ascending, SeesLevel, HasLevel;
    if s > t {
      assert levels[t + 1] <= levels[s];
    }
  }

  lemma ThresholdIsLevel(config: TierConfig, d: Table, n: nat, levels: seq<nat>, t: nat, x: nat, y: nat)
    requires Hierarchical(config, d, n, levels) && t < |levels| && x < n && y < n && x != y
    ensures t < |config.thresholds| ==>
      (At(d, x, y) <= config.thresholds[t] as real <==> At(d, x, y) <= levels[t] as real)
    ensures t >= |config.thresholds| ==> At(d, x, y) <= levels[t] as real
  {
    hide Hierarchical, At;
    var s := LevelOf(config, d, n, levels, x, y);
    LevelOrder(config, d, n, levels, s, t);
  }

  lemma CutIsThreshold(config: TierConfig, nodes: seq<ClusterNode>, n: nat, d: Table, levels: seq<nat>, t: nat,
                       x: nat, y: nat)
    requires Setting(config, nodes, n, d, levels) && t < |config.thresholds| && x < n && y < n && x != y
    ensures Together(CutAt(config, nodes, t), x, y) <==> At(d, x, y) <= config.thresholds[t] as real
  {
    UltrametricIsRecovered(nodes, n, d, config.linkage, config.thresholds[t] as real, x, y);
  }

  /** Inside a lowest group all distances are the first level. */
  lemma LowestGroupDistance(config: TierConfig, nodes: seq<ClusterNode>, n: nat, d: Table, levels: seq<nat>, x: nat,
                            y: nat)
    requires Setting(config, nodes, n, d, levels) && x < n && y in Group(config, nodes, n, 0, x) && x != y
    ensures At(d, x, y) == levels[0] as real
  {
    GroupIsLevelClass(config, nodes, n, d, levels, 0, x, y);
    assert HasLevel(d, levels, x, y);
    var s: nat :| AtLevel(d, levels, s, x, y);
    LevelsEvenAscending(config, d, n, levels, 0, s);
  }

  /** From a group to the rest of the next larger one all distances are the next level. */
  lemma SiblingDistance(config: TierConfig, nodes: seq<ClusterNode>, n: nat, d: Table, levels: seq<nat>, t: nat, x: nat,
                        a: nat, b: nat)
    requires Setting(config, nodes, n, d, levels) && t + 1 < |levels| && x < n
    requires a in Group(config, nodes, n, t, x) && b in Group(config, nodes, n, t + 1, x)
    requires b !in Group(config, nodes, n, t, x)
    ensures a < n && b < n && At(d, a, b) == levels[t + 1] as real
  {
    GroupsGrow(config, nodes, n, d, t, t + 1, x);
    GroupIsClass(config, nodes, n, d, t, x);
    GroupIsClass(config, nodes, n, d, t + 1, x);
    assert b in Group(config, nodes, n, t + 1, a) && b !in Group(config, nodes, n, t, a);
    GroupIsLevelClass(config, nodes, n, d, levels, t, a, b);
    GroupIsLevelClass(config, nodes, n, d, levels, t + 1, a, b);
    assert HasLevel(d, levels, a, b);
    var s: nat :| AtLevel(d, levels, s, a, b);
    LevelBetween(levels, s, t);
  }

  // ----- each level class has its switch

  lemma GroupHasTwo(config: TierConfig, nodes: seq<ClusterNode>, n: nat, d: Table, levels: seq<nat>, t: nat, x: nat)
    returns (y: nat)
    requires Setting(config, nodes, n, d, levels) && t < |levels| && x < n
    ensures y < n && y != x && At(d, x, y) == levels[t] as real && y in Group(config, nodes, n, t, x)
    ensures |Group(config, nodes, n, t, x)| >= 2
    ensures t > 0 ==> y !in Group(config, nodes, n, t - 1, x)
  {
    hide IsDendrogram, Group, Ultrametric, CutAt;
    assert SeesLevel(d, n, levels, t, x);
    y :| y < n && y != x && AtLevel(d, levels, t, x, y);
    GroupIsClass(config, nodes, n, d, t, x);
    GroupIsLevelClass(config, nodes, n, d, levels, t, x, y);
    var s := Group(config, nodes, n, t, x);
    HoldsTwo(s, x, y);
    if t > 0 {
      assert levels[t - 1] < levels[t];
      GroupIsLevelClass(config, nodes, n, d, levels, t - 1, x, y);
    }
  }

  lemma HoldsTwo(s: set<nat>, x: nat, y: nat)
    requires x in s && y in s && x != y
    ensures |s| >= 2
  {
    assert |s - {x} - {y}| + 2 == |s|;
  }

  lemma GroupFormsAt(config: TierConfig, nodes: seq<ClusterNode>, n: nat, d: Table, levels: seq<nat>, t: nat, x: nat)
    requires Setting(config, nodes, n, d, levels) && t < |levels| && x < n
    ensures FormsAt(config, nodes, t, Group(config, nodes, n, t, x))
  {
    hide IsDendrogram, Group, CutAt, Formed;
    var s := Group(config, nodes, n, t, x);
    FormedIffGroup(config, nodes, n, d, t, s);
    GroupIsClass(config, nodes, n, d, t, x);
    var y := GroupHasTwo(config, nodes, n, d, levels, t, x);
    if t > 0 {
      NotAGroupBelow(config, nodes, n, d, t - 1, x, y, s);
    }
  }

  lemma NotAGroupBelow(config: TierConfig, nodes: seq<ClusterNode>, n: nat, d: Table, t: nat, x: nat, y: nat,
                       s: set<nat>)
    requires Clustered(config, nodes, n, d) && x < n && x in s && y in s && y !in Group(config, nodes, n, t, x)
    ensures !Formed(CutAt(config, nodes, t), s)
  {
    FormedIffGroup(config, nodes, n, d, t, s);
    forall z: nat | z < n
      ensures s != Group(config, nodes, n, t, z)
    {
      GroupIsClass(config, nodes, n, d, t, z);
    }
  }

  /** The switch of x's group at level t. */
  ghost predicate IsSwitchOf(config: TierConfig, nodes: seq<ClusterNode>, n: nat, t: nat, x: nat, i: nat) {
    i < |AllSwitches(config, nodes)| && AllSwitches(config, nodes)[i] == Switch(Group(config, nodes, n, t, x), t + 1)
  }

  lemma SwitchOf(config: TierConfig, nodes: seq<ClusterNode>, n: nat, d: Table, levels: seq<nat>, t: nat,
                 x: nat) returns (i: nat)
    requires Setting(config, nodes, n, d, levels) && t < |levels| && x < n
    ensures IsSwitchOf(config, nodes, n, t, x, i) && x in AllSwitches(config, nodes)[i].members
  {
    GroupFormsAt(config, nodes, n, d, levels, t, x);
    i := SwitchOfForming(config, nodes, n, d, t, x);
  }

  lemma SwitchOfForming(config: TierConfig, nodes: seq<ClusterNode>, n: nat, d: Table, t: nat, x: nat) returns (i: nat)
    requires Clustered(config, nodes, n, d) && t <= |config.thresholds| && x < n
    requires FormsAt(config, nodes, t, Group(config, nodes, n, t, x))
    ensures IsSwitchOf(config, nodes, n, t, x, i) && x in AllSwitches(config, nodes)[i].members
  {
    hide Clustered, CutAt, FormsAt, Group, Switches;
    var s := Switch(Group(config, nodes, n, t, x), t + 1);
    GroupIsClass(config, nodes, n, d, t, x);
    SwitchesIff(config, nodes, n, d, |config.thresholds| + 1, s);
    assert s in AllSwitches(config, nodes);
    i :| 0 <= i < |AllSwitches(config, nodes)| && AllSwitches(config, nodes)[i] == s;
  }

  // ----- latencies of the edges

  lemma {:induction false} EqualOthers(d: Table, members: set<nat>, p: nat, m: nat, v: nat)
    requires forall y | y in members && y != p :: At(d, p, y) == v as real
    ensures SumOthers(d, members, p, m) == v * CountOthers(members, p, m)
  {
    if m > 0 {
      EqualOthers(d, members, p, m - 1, v);
      assert (v as real).Floor == v;
    }
  }

  lemma {:induction false} SomeOther(members: set<nat>, p: nat, m: nat, y: nat)
    requires y in members && y != p && y < m
    ensures CountOthers(members, p, m) > 0
  {
    if y < m - 1 {
      SomeOther(members, p, m - 1, y);
    }
  }

  lemma QuotientBack(v: nat, c: nat)
    requires c > 0
    ensures v * c / c == v
  {
    var q, r := v * c / c, v * c % c;
    assert (v - q) * c == r;
    if v != q {
      assert v - q >= 1 || v - q <= -1;
      SmallFactor(v - q, c);
    }
  }

  lemma SmallFactor(k: int, c: int)
    requires k != 0 && c > 0
    ensures k * c >= c || k * c <= -c
  {
  }

  /** x hangs off the switch of its lowest group, by half the first level. */
  lemma AccessWeight(config: TierConfig, nodes: seq<ClusterNode>, n: nat, d: Table, levels: seq<nat>, x: nat, i: nat)
    requires Setting(config, nodes, n, d, levels) && x < n && IsSwitchOf(config, nodes, n, 0, x, i)
    ensures Home(AllSwitches(config, nodes), x) == Some(i)
    ensures AccessLatency(d, AllSwitches(config, nodes)[i].members, x, n) == levels[0] / 2
  {
    var all := AllSwitches(config, nodes);
    SwitchesAreLayered(config, nodes, n, d);
    GroupIsClass(config, nodes, n, d, 0, x);
    assert all[0].tier <= all[i].tier;
    assert IsHome(all, x, i);
    var members := all[i].members;
    forall y | y in members && y != x
      ensures At(d, x, y) == levels[0] as real
    {
      LowestGroupDistance(config, nodes, n, d, levels, x, y);
    }
    EqualOthers(d, members, x, n, levels[0]);
    var y := GroupHasTwo(config, nodes, n, d, levels, 0, x);
    SomeOther(members, x, n, y);
    QuotientBack(levels[0], CountOthers(members, x, n));
  }

  lemma {:induction false} TimesSum(v: real, a: nat, b: nat)
    ensures Times(v, a + b) == Times(v, a) + Times(v, b) && Times(v, 0) == 0.0 && Times(v, 1) == v
  {
    if a > 0 {
      TimesSum(v, a - 1, b);
      assert a + b - 1 == a - 1 + b;
    }
  }

  lemma {:induction false} EqualRow(d: Table, a: nat, B: set<nat>, m: nat, v: real)
    requires forall b | b in B :: At(d, a, b) == v
    ensures RowSum(d, a, B, m) == Times(v, RowCount(B, m))
  {
    hide Times;
    TimesSum(v, 0, 0);
    if m > 0 {
      EqualRow(d, a, B, m - 1, v);
      TimesSum(v, RowCount(B, m - 1), 1);
    }
  }

  lemma {:induction false} EqualCross(d: Table, A: set<nat>, B: set<nat>, n: nat, m: nat, v: real)
    requires forall a, b | a in A && b in B :: At(d, a, b) == v
    ensures CrossSum(d, A, B, n, m) == Times(v, CrossCount(A, B, n, m))
  {
    hide Times;
    TimesSum(v, 0, 0);
    if m > 0 {
      EqualCross(d, A, B, n, m - 1, v);
      if m - 1 in A {
        EqualRow(d, m - 1, B, n, v);
        TimesSum(v, CrossCount(A, B, n, m - 1), RowCount(B, n));
      }
    }
  }

  lemma {:induction false} SomeRow(B: set<nat>, m: nat, b: nat)
    requires b in B && b < m
    ensures RowCount(B, m) > 0
  {
    if b < m - 1 {
      SomeRow(B, m - 1, b);
    }
  }

  lemma {:induction false} SomePair(A: set<nat>, B: set<nat>, n: nat, m: nat, a: nat, b: nat)
    requires a in A && a < m && b in B && b < n
    ensures CrossCount(A, B, n, m) > 0
  {
    SomeRow(B, n, b);
    if a < m - 1 {
      SomePair(A, B, n, m - 1, a, b);
    }
  }

  lemma ExactHalf(total: real, count: nat, high: nat, low: nat)
    requires count > 0 && total == high as real * count as real && low <= high && low % 2 == 0 && high % 2 == 0
    ensures HalfExcess(total, count, low / 2) == (high - low) / 2
  {
    DivideBack(high as real, count as real);
    var k := (high - low) / 2;
    assert high - low == 2 * k;
    assert (total / count as real - 2.0 * (low / 2) as real) / 2.0 == k as real;
  }

  /** The parent of a group's switch is that of the next larger group. */
  lemma ParentIsNextLevel(config: TierConfig, nodes: seq<ClusterNode>, n: nat, d: Table, levels: seq<nat>,
                          t: nat, x: nat, g: nat, h: nat)
    requires Setting(config, nodes, n, d, levels) && t + 1 < |levels| && x < n
    requires IsSwitchOf(config, nodes, n, t, x, g) && IsSwitchOf(config, nodes, n, t + 1, x, h)
    ensures ParentOf(AllSwitches(config, nodes), g) == Some(h) && g < h
  {
    SwitchesAreLayered(config, nodes, n, d);
    GroupsGrow(config, nodes, n, d, t, t + 1, x);
    assert IsParent(AllSwitches(config, nodes), g, h);
    ParentUnique(AllSwitches(config, nodes), n, g);
  }

  /** Between a group and its siblings every pair is at the next level, and there is such a pair. */
  lemma SiblingTotals(config: TierConfig, nodes: seq<ClusterNode>, n: nat, d: Table, levels: seq<nat>, t: nat, x: nat)
    requires Setting(config, nodes, n, d, levels) && t + 1 < |levels| && x < n
    ensures var lower := Group(config, nodes, n, t, x);
      var sibling := Group(config, nodes, n, t + 1, x) - lower;
      CrossCount(lower, sibling, n, n) > 0
      && CrossSum(d, lower, sibling, n, n) == Times(levels[t + 1] as real, CrossCount(lower, sibling, n, n))
  {
    hide Hierarchical, IsDendrogram, Group;
    var lower := Group(config, nodes, n, t, x);
    var sibling := Group(config, nodes, n, t + 1, x) - lower;
    SiblingPair(config, nodes, n, d, levels, t, x);
    forall a, b | a in lower && b in sibling
      ensures At(d, a, b) == levels[t + 1] as real
    {
      SiblingDistance(config, nodes, n, d, levels, t, x, a, b);
    }
    EqualCross(d, lower, sibling, n, n, levels[t + 1] as real);
  }

  lemma SiblingPair(config: TierConfig, nodes: seq<ClusterNode>, n: nat, d: Table, levels: seq<nat>, t: nat, x: nat)
    requires Setting(config, nodes, n, d, levels) && t + 1 < |levels| && x < n
    ensures CrossCount(Group(config, nodes, n, t, x),
                       Group(config, nodes, n, t + 1, x) - Group(config, nodes, n, t, x), n, n) > 0
  {
    hide Hierarchical, IsDendrogram, Group;
    var lower := Group(config, nodes, n, t, x);
    GroupIsClass(config, nodes, n, d, t, x);
    var y := GroupHasTwo(config, nodes, n, d, levels, t + 1, x);
    SomePair(lower, Group(config, nodes, n, t + 1, x) - lower, n, n, x, y);
  }

  /** An edge between levels weighs half their difference. */
  lemma LevelWeight(config: TierConfig, nodes: seq<ClusterNode>, n: nat, d: Table, levels: seq<nat>,
                    t: nat, x: nat, g: nat, h: nat)
    requires Setting(config, nodes, n, d, levels) && t + 1 < |levels| && x < n
    requires IsSwitchOf(config, nodes, n, t, x, g) && IsSwitchOf(config, nodes, n, t + 1, x, h)
    ensures ParentEdge(AllSwitches(config, nodes), d, n, g, h).latencyNs == (levels[t + 1] - levels[t]) / 2
    decreases t, 2, 0
  {
    hide Hierarchical, IsDendrogram, Group, ParentEdge, PathTo, Wire, CrossSum, CrossCount, AllSwitches;
    var all := AllSwitches(config, nodes);
    var lower := Group(config, nodes, n, t, x);
    SiblingTotals(config, nodes, n, d, levels, t, x);
    var path := PathBelow(config, nodes, n, d, levels, t, x, g);
    LevelsEvenAscending(config, d, n, levels, t, t + 1);
    ParentEdgeWeight(all, d, n, g, h, levels[t + 1], levels[t]);
  }

  lemma ParentEdgeWeight(switches: seq<Switch>, d: Table, n: nat, g: nat, h: nat, high: nat, low: nat)
    requires g < |switches| && h < |switches| && low <= high && low % 2 == 0 && high % 2 == 0
    requires var lower, sibling := switches[g].members, switches[h].members - switches[g].members;
      && CrossCount(lower, sibling, n, n) > 0
      && CrossSum(d, lower, sibling, n, n) == Times(high as real, CrossCount(lower, sibling, n, n))
    requires PathTo(|switches|, Wire(switches, d, n, g), Least(switches[g].members, n), g) == low / 2
    ensures ParentEdge(switches, d, n, g, h).latencyNs == (high - low) / 2
  {
    var lower, sibling := switches[g].members, switches[h].members - switches[g].members;
    TimesIsProduct(high as real, CrossCount(lower, sibling, n, n));
    ExactHalf(CrossSum(d, lower, sibling, n, n), CrossCount(lower, sibling, n, n), high, low);
  }

  /** The sample path below a switch, as it is traced when the switch's edge is laid. */
  lemma PathBelow(config: TierConfig, nodes: seq<ClusterNode>, n: nat, d: Table, levels: seq<nat>, t: nat, x: nat,
                  g: nat)
    returns (path: nat)
    requires Setting(config, nodes, n, d, levels) && t < |levels| && x < n && IsSwitchOf(config, nodes, n, t, x, g)
    ensures path == levels[t] / 2
    ensures path == PathTo(|AllSwitches(config, nodes)|, Wire(AllSwitches(config, nodes), d, n, g),
                           Least(Group(config, nodes, n, t, x), n), g)
    decreases t, 1, 1
  {
    var all, lower := AllSwitches(config, nodes), Group(config, nodes, n, t, x);
    SwitchesAreLayered(config, nodes, n, d);
    GroupIsClass(config, nodes, n, d, t, x);
    var p := Least(lower, n);
    assert p in lower && p < n;
    assert IsSwitchOf(config, nodes, n, t, p, g);
    PathWeight(config, nodes, n, d, levels, t, p, g);
    PathSettled(all, d, n, p, g);
    path := levels[t] / 2;
  }

  /** From x up to the switch of its level-t group the path weighs half of level t. */
  lemma PathWeight(config: TierConfig, nodes: seq<ClusterNode>, n: nat, d: Table, levels: seq<nat>, t: nat, x: nat,
                   g: nat)
    requires Setting(config, nodes, n, d, levels) && t < |levels| && x < n && IsSwitchOf(config, nodes, n, t, x, g)
    ensures var all, edges := AllSwitches(config, nodes), AllEdges(AllSwitches(config, nodes), d, n);
      PathTo(|all|, edges, x, g) == levels[t] / 2 && PathReaches(|all|, edges, x, g)
    decreases t, 1, 0
  {
    var all := AllSwitches(config, nodes);
    var i := SwitchOf(config, nodes, n, d, levels, 0, x);
    AccessWeight(config, nodes, n, d, levels, x, i);
    WireLookup(all, d, n, |all|, false, x);
    AccessLookup(all, d, n, n, false, x);
    ClimbWeight(config, nodes, n, d, levels, 0, t, x, i, g);
    LevelsEvenAscending(config, d, n, levels, 0, t);
  }

  lemma ClimbWeight(config: TierConfig, nodes: seq<ClusterNode>, n: nat, d: Table, levels: seq<nat>,
                    s: nat, t: nat, x: nat, i: nat, g: nat)
    requires Setting(config, nodes, n, d, levels) && s <= t < |levels| && x < n
    requires IsSwitchOf(config, nodes, n, s, x, i) && IsSwitchOf(config, nodes, n, t, x, g)
    ensures var all, edges := AllSwitches(config, nodes), AllEdges(AllSwitches(config, nodes), d, n);
      Trace(|all|, edges, i, g) == (levels[t] - levels[s]) / 2 && Reaches(|all|, edges, i, g)
    decreases t, 0, t - s
  {
    hide Hierarchical, IsDendrogram, Group, AllSwitches, AllEdges;
    if s == t {
      SwitchOfUnique(config, nodes, n, d, s, x, i, g);
      assert (levels[t] - levels[s]) / 2 == 0;
    } else {
      var h := ClimbOneLevel(config, nodes, n, d, levels, s, t, x, i, g);
      ClimbWeight(config, nodes, n, d, levels, s + 1, t, x, h, g);
      LevelsEvenAscending(config, d, n, levels, s, s + 1);
      LevelsEvenAscending(config, d, n, levels, s + 1, t);
      HalvesAdd(levels[s], levels[s + 1], levels[t]);
    }
  }

  lemma ClimbOneLevel(config: TierConfig, nodes: seq<ClusterNode>, n: nat, d: Table, levels: seq<nat>,
                      s: nat, t: nat, x: nat, i: nat, g: nat) returns (h: nat)
    requires Setting(config, nodes, n, d, levels) && s < t < |levels| && x < n
    requires IsSwitchOf(config, nodes, n, s, x, i) && IsSwitchOf(config, nodes, n, t, x, g)
    ensures IsSwitchOf(config, nodes, n, s + 1, x, h)
    ensures var all, edges := AllSwitches(config, nodes), AllEdges(AllSwitches(config, nodes), d, n);
      && Trace(|all|, edges, i, g) == (levels[s + 1] - levels[s]) / 2 + Trace(|all|, edges, h, g)
      && Reaches(|all|, edges, i, g) == Reaches(|all|, edges, h, g)
    decreases s, 4, 0
  {
    hide Setting, IsSwitchOf, Trace, Reaches, Lookup, AllEdges, AllSwitches;
    h := SwitchOf(config, nodes, n, d, levels, s + 1, x);
    LevelEdge(config, nodes, n, d, levels, s, x, i, h);
    SwitchesDiffer(config, nodes, n, s, t, x, i, h, g);
    TraceOneEdge(|AllSwitches(config, nodes)|, AllEdges(AllSwitches(config, nodes), d, n), i, h, g,
                 (levels[s + 1] - levels[s]) / 2);
  }

  lemma SwitchesDiffer(config: TierConfig, nodes: seq<ClusterNode>, n: nat, s: nat, t: nat, x: nat,
                       i: nat, h: nat, g: nat)
    requires IsSwitchOf(config, nodes, n, s, x, i) && IsSwitchOf(config, nodes, n, s + 1, x, h)
    requires IsSwitchOf(config, nodes, n, t, x, g) && s < t
    ensures i != g && h < |AllSwitches(config, nodes)|
  {
    hide AllSwitches;
  }

  /** The walk follows the edge of a switch that is not its goal. */
  lemma TraceOneEdge(size: nat, edges: seq<Edge>, i: nat, h: nat, g: nat, weight: nat)
    requires i < h < size && i != g && Lookup(edges, true, i) == Some(Edge(i, h, true, true, weight))
    ensures Trace(size, edges, i, g) == weight + Trace(size, edges, h, g)
    ensures Reaches(size, edges, i, g) == Reaches(size, edges, h, g)
  {
  }

  /** The edge that leaves a group's switch. */
  lemma LevelEdge(config: TierConfig, nodes: seq<ClusterNode>, n: nat, d: Table, levels: seq<nat>, t: nat, x: nat,
                  g: nat, h: nat)
    requires Setting(config, nodes, n, d, levels) && t + 1 < |levels| && x < n
    requires IsSwitchOf(config, nodes, n, t, x, g) && IsSwitchOf(config, nodes, n, t + 1, x, h)
    ensures g < h
    ensures Lookup(AllEdges(AllSwitches(config, nodes), d, n), true, g)
      == Some(Edge(g, h, true, true, (levels[t + 1] - levels[t]) / 2))
    decreases t, 3, 0
  {
    ParentIsNextLevel(config, nodes, n, d, levels, t, x, g, h);
    LevelWeight(config, nodes, n, d, levels, t, x, g, h);
    WireLookup(AllSwitches(config, nodes), d, n, |AllSwitches(config, nodes)|, true, g);
  }

  lemma SwitchOfUnique(config: TierConfig, nodes: seq<ClusterNode>, n: nat, d: Table, t: nat, x: nat, i: nat, j: nat)
    requires Clustered(config, nodes, n, d)
    requires IsSwitchOf(config, nodes, n, t, x, i) && IsSwitchOf(config, nodes, n, t, x, j)
    ensures i == j
  {
    SwitchesInOrder(config, nodes, n, d, |config.thresholds| + 1);
    assert i <= j || j <= i;
  }

  // ----- the round trip

  /** h is a lowest switch that holds both x and y. */
  ghost predicate LowestCommon(switches: seq<Switch>, x: nat, y: nat, h: nat) {
    && h < |switches| && x in switches[h].members && y in switches[h].members
    && forall g: nat | g < |switches| && x in switches[g].members && y in switches[g].members ::
      switches[h].tier <= switches[g].tier
  }

  /** For every pair of nodes, the walks from both climb to their lowest common switch, and the
      latencies along the two walks add up to the measured distance, for all three linkages. */
  lemma TreeGivesBackLatencies(config: TierConfig, nodes: seq<ClusterNode>, n: nat, d: Table, levels: seq<nat>, x: nat,
                               y: nat)
    returns (h: nat)
    requires Setting(config, nodes, n, d, levels) && x < n && y < n && x != y
    ensures LowestCommon(AllSwitches(config, nodes), x, y, h)
    ensures var size, edges := |AllSwitches(config, nodes)|, AllEdges(AllSwitches(config, nodes), d, n);
      && PathReaches(size, edges, x, h) && PathReaches(size, edges, y, h)
      && (PathTo(size, edges, x, h) + PathTo(size, edges, y, h)) as real == At(d, x, y)
  {
    hide IsDendrogram, Group, CutAt, Ultrametric, PathTo, PathReaches, AllEdges, AllSwitches;
    var all := AllSwitches(config, nodes);
    assert HasLevel(d, levels, x, y);
    var t: nat :| AtLevel(d, levels, t, x, y);
    h := SwitchOf(config, nodes, n, d, levels, t, x);
    GroupIsLevelClass(config, nodes, n, d, levels, t, x, y);
    GroupIsClass(config, nodes, n, d, t, x);
    PathWeight(config, nodes, n, d, levels, t, x, h);
    PathWeight(config, nodes, n, d, levels, t, y, h);
    assert levels[t] % 2 == 0;
    forall g: nat | g < |all| && x in all[g].members && y in all[g].members
      ensures all[h].tier <= all[g].tier
    {
      CommonNotBelow(config, nodes, n, d, levels, t, x, y, g);
    }
  }

  /** No switch below the level of x and y holds both. */
  lemma CommonNotBelow(config: TierConfig, nodes: seq<ClusterNode>, n: nat, d: Table, levels: seq<nat>,
                       t: nat, x: nat, y: nat, g: nat)
    requires Setting(config, nodes, n, d, levels) && x < n && y < n && x != y && AtLevel(d, levels, t, x, y)
    requires g < |AllSwitches(config, nodes)|
    requires x in AllSwitches(config, nodes)[g].members && y in AllSwitches(config, nodes)[g].members
    ensures t + 1 <= AllSwitches(config, nodes)[g].tier
  {
    hide IsDendrogram, Group, CutAt, Ultrametric, Formed;
    var all := AllSwitches(config, nodes);
    ListedSwitch(config, nodes, n, d, g);
    var s := all[g].tier - 1;
    FormedIffGroup(config, nodes, n, d, s, all[g].members);
    var z: nat :| z < n && all[g].members == Group(config, nodes, n, s, z);
    GroupIsClass(config, nodes, n, d, s, z);
    if s < t {
      assert levels[s] < levels[t];
      GroupIsLevelClass(config, nodes, n, d, levels, s, x, y);
    }
  }
}
