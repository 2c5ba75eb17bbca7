/** Distances between clusters: the set-level minimum, maximum or mean over all cross pairs,
    and the incremental update that keeps a cached value equal to it. */
module Linkages {
  import opened LatencyMatrices

  datatype LinkageType = SINGLE | COMPLETE | AVERAGE

  function Min(x: real, y: real): real { if y < x then y else x }
  function Max(x: real, y: real): real { if x < y then y else x }

  /** What a linkage accumulates over cross pairs: the least, the greatest, or the sum. */
  ghost function Combine(link: LinkageType, x: real, y: real): real {
    match link
    case SINGLE => Min(x, y)
    case COMPLETE => Max(x, y)
    case AVERAGE => x + y
  }

  ghost function GatherRow(link: LinkageType, d: Table, a: nat, B: seq<nat>): real {
    if B == [] then 0.0
    else if |B| == 1 then At(d, a, B[0])
    else Combine(link, At(d, a, B[0]), GatherRow(link, d, a, B[1..]))
  }

  /** Accumulation over every pair in A x B. */
  ghost function Gather(link: LinkageType, d: Table, A: seq<nat>, B: seq<nat>): real {
    if A == [] then 0.0
    else if |A| == 1 then GatherRow(link, d, A[0], B)
    else Combine(link, GatherRow(link, d, A[0], B), Gather(link, d, A[1..], B))
  }

  /** The distance between clusters A and B: minimum, maximum or mean over A x B. */
  ghost function LinkDist(link: LinkageType, d: Table, A: seq<nat>, B: seq<nat>): real {
    if A == [] || B == [] then 0.0
    else if link == AVERAGE then Mean(Gather(link, d, A, B), |A| as real, |B| as real)
    else Gather(link, d, A, B)
  }

  /** The mean of m * k values whose sum is s. */
  ghost function Mean(s: real, m: real, k: real): real {
    if m > 0.0 && k > 0.0 then s / (m * k) else 0.0
  }

  /** The update rule of the merge loop: the distance of a merged cluster from the distances of its
      halves, whose sizes are si and sj. */
  function Update(link: LinkageType, si: nat, sj: nat, x: real, y: real): real
    requires si + sj > 0
  {
    match link
    case SINGLE => Min(x, y)
    case COMPLETE => Max(x, y)
    case AVERAGE => (x * si as real + y * sj as real) / (si + sj) as real
  }

  // ----- accumulation over a union, and symmetry

  lemma {:induction false} GatherAppend(link: LinkageType, d: Table, A: seq<nat>, A': seq<nat>, B: seq<nat>)
    requires A != [] && A' != []
    ensures Gather(link, d, A + A', B) == Combine(link, Gather(link, d, A, B), Gather(link, d, A', B))
  {
    if |A| == 1 {
      assert (A + A')[1..] == A';
    } else {
      assert (A + A')[1..] == A[1..] + A';
      GatherAppend(link, d, A[1..], A', B);
    }
  }

  /** Accumulation down a column instead of along a row. */
  lemma {:induction false} GatherColumn(link: LinkageType, d: Table, A: seq<nat>, b: nat, B: seq<nat>)
    requires A != [] && B != []
    ensures Gather(link, d, A, [b] + B) == Combine(link, Gather(link, d, A, [b]), Gather(link, d, A, B))
  {
    assert ([b] + B)[1..] == B;
    if |A| > 1 {
      GatherColumn(link, d, A[1..], b, B);
    }
  }

  lemma {:induction false} GatherTransposeRow(link: LinkageType, d: Table, a: nat, B: seq<nat>)
    requires Symmetric(d) && B != []
    ensures GatherRow(link, d, a, B) == Gather(link, d, B, [a])
  {
    if |B| > 1 {
      GatherTransposeRow(link, d, a, B[1..]);
    }
  }

  lemma {:induction false} GatherSymmetric(link: LinkageType, d: Table, A: seq<nat>, B: seq<nat>)
    requires Symmetric(d) && A != [] && B != []
    ensures Gather(link, d, A, B) == Gather(link, d, B, A)
  {
    GatherTransposeRow(link, d, A[0], B);
    if |A| == 1 {
      assert A == [A[0]];
    } else {
      GatherSymmetric(link, d, A[1..], B);
      assert A == [A[0]] + A[1..];
      GatherColumn(link, d, B, A[0], A[1..]);
    }
  }

  lemma MeanSymmetric(s: real, m: real, k: real)
    ensures Mean(s, m, k) == Mean(s, k, m)
  {
  }

  lemma LinkDistSymmetric(link: LinkageType, d: Table, A: seq<nat>, B: seq<nat>)
    requires Symmetric(d)
    ensures LinkDist(link, d, A, B) == LinkDist(link, d, B, A)
  {
    if A != [] && B != [] {
      GatherSymmetric(link, d, A, B);
      MeanSymmetric(Gather(link, d, A, B), |A| as real, |B| as real);
    }
  }

  // ----- what the accumulated value means

  lemma {:induction false} RowBounds(link: LinkageType, d: Table, a: nat, B: seq<nat>)
    requires link != AVERAGE && B != []
    ensures exists b :: b in B && GatherRow(link, d, a, B) == At(d, a, b)
    ensures forall b | b in B ::
      if link == SINGLE then GatherRow(link, d, a, B) <= At(d, a, b) else At(d, a, b) <= GatherRow(link, d, a, B)
  {
    assert B[0] in B && B == [B[0]] + B[1..];
    if |B| > 1 {
      RowBounds(link, d, a, B[1..]);
      var b :| b in B[1..] && GatherRow(link, d, a, B[1..]) == At(d, a, b);
      assert b in B;
    }
  }

  /** SINGLE is an attained lower bound of the cross distances, COMPLETE an attained upper bound. */
  lemma {:induction false} LinkDistAttained(link: LinkageType, d: Table, A: seq<nat>, B: seq<nat>)
    returns (a: nat, b: nat)
    requires link != AVERAGE && A != [] && B != []
    ensures a in A && b in B && LinkDist(link, d, A, B) == At(d, a, b)
    ensures forall x, y | x in A && y in B ::
      if link == SINGLE then LinkDist(link, d, A, B) <= At(d, x, y) else At(d, x, y) <= LinkDist(link, d, A, B)
  {
    RowBounds(link, d, A[0], B);
    a := A[0];
    b :| b in B && GatherRow(link, d, a, B) == At(d, a, b);
    if |A| > 1 {
      var a', b' := LinkDistAttained(link, d, A[1..], B);
      assert A == [A[0]] + A[1..];
      if LinkDist(link, d, A, B) != At(d, a, b) {
        a, b := a', b';
      }
    } else {
      assert A == [A[0]];
    }
  }

  lemma {:induction false} ConstantRow(link: LinkageType, d: Table, a: nat, B: seq<nat>, v: real)
    requires B != [] && forall b | b in B :: At(d, a, b) == v
    ensures GatherRow(link, d, a, B) == if link == AVERAGE then v * |B| as real else v
  {
    if |B| > 1 {
      ConstantRow(link, d, a, B[1..], v);
    }
  }

  lemma {:induction false} ConstantGather(link: LinkageType, d: Table, A: seq<nat>, B: seq<nat>, row: real)
    requires A != [] && B != [] && forall a | a in A :: GatherRow(link, d, a, B) == row
    ensures Gather(link, d, A, B) == if link == AVERAGE then Times(row, |A|) else row
  {
    if |A| > 1 {
      ConstantGather(link, d, A[1..], B, row);
    }
  }

  /** k copies of x added up. */
  ghost function Times(x: real, k: nat): real {
    if k == 0 then 0.0 else x + Times(x, k - 1)
  }

  lemma {:induction false} TimesIsProduct(x: real, k: nat)
    ensures Times(x, k) == x * k as real
  {
    if k > 0 {
      TimesIsProduct(x, k - 1);
      assert x * k as real == x + x * (k - 1) as real;
    }
  }

  lemma MeanOfConstant(v: real, row: real, m: nat, k: nat)
    requires m > 0 && k > 0 && row == v * k as real
    ensures Mean(Times(row, m), m as real, k as real) == v
  {
    TimesIsProduct(row, m);
    var w := m as real * k as real;
    assert row * m as real == v * w;
    DivideBack(v, w);
  }

  lemma DivideBack(v: real, w: real)
    requires w > 0.0
    ensures v * w / w == v
  {
  }

  /** When all cross distances agree, every linkage reports that common value. */
  lemma ConstantLinkDist(link: LinkageType, d: Table, A: seq<nat>, B: seq<nat>, v: real)
    requires A != [] && B != [] && forall a, b | a in A && b in B :: At(d, a, b) == v
    ensures LinkDist(link, d, A, B) == v
  {
    var row := if link == AVERAGE then v * |B| as real else v;
    forall a | a in A
      ensures GatherRow(link, d, a, B) == row
    {
      ConstantRow(link, d, a, B, v);
    }
    ConstantGather(link, d, A, B, row);
    if link == AVERAGE {
      MeanOfConstant(v, row, |A|, |B|);
    }
  }

  // ----- the update rule

  /** The size-weighted average of two means is the mean over the union. */
  lemma MeanOfMerged(s: real, s': real, m: nat, m': nat, k: nat)
    requires m > 0 && m' > 0 && k > 0
    ensures Mean(s + s', (m + m') as real, k as real)
         == Update(AVERAGE, m, m', Mean(s, m as real, k as real), Mean(s', m' as real, k as real))
  {
    var a, a', b := m as real, m' as real, k as real;
    assert (m + m') as real == a + a';
    var x, x', y := Mean(s, a, b), Mean(s', a', b), Mean(s + s', a + a', b);
    MeanTimes(s, a, b);
    MeanTimes(s', a', b);
    MeanTimes(s + s', a + a', b);
    var p, q := x * a + x' * a', y * (a + a');
    SumTimes(x * a, x' * a', b);
    CancelFactor(p, q, b);
    DivideBack(y, a + a');
  }

  lemma MeanTimes(s: real, m: real, k: real)
    requires m > 0.0 && k > 0.0
    ensures Mean(s, m, k) * m * k == s
  {
    var w := m * k;
    TimesBack(s, w);
    assert Mean(s, m, k) * m * k == Mean(s, m, k) * w;
  }

  lemma TimesBack(s: real, w: real)
    requires w > 0.0
    ensures s / w * w == s
  {
  }

  lemma SumTimes(p: real, q: real, k: real)
    ensures (p + q) * k == p * k + q * k
  {
  }

  lemma CancelFactor(p: real, q: real, k: real)
    requires k > 0.0 && p * k == q * k
    ensures p == q
  {
    DivideBack(p, k);
    DivideBack(q, k);
  }

  /** The update rule is exact: applied to the set-level distances of two halves it gives
      the set-level distance of their union, for all three linkages. */
  lemma UpdateIsExact(link: LinkageType, d: Table, A: seq<nat>, A': seq<nat>, B: seq<nat>)
    requires A != [] && A' != [] && B != []
    ensures LinkDist(link, d, A + A', B)
         == Update(link, |A|, |A'|, LinkDist(link, d, A, B), LinkDist(link, d, A', B))
  {
    GatherAppend(link, d, A, A', B);
    MeanOfMerged(Gather(link, d, A, B), Gather(link, d, A', B), |A|, |A'|, |B|);
  }

  /** A merged cluster is never closer to a third one than the nearer of its halves. */
  lemma UpdateKeepsLowerBound(link: LinkageType, si: nat, sj: nat, x: real, y: real, low: real)
    requires si > 0 && sj > 0 && low <= x && low <= y
    ensures low <= Update(link, si, sj, x, y)
  {
    if link == AVERAGE {
      hide Update;
      AverageBetween(si, sj, x, y, low, Max(x, y));
    }
  }

  /** ... nor farther than the farther of its halves. */
  lemma UpdateKeepsUpperBound(link: LinkageType, si: nat, sj: nat, x: real, y: real, high: real)
    requires si > 0 && sj > 0 && x < high && y < high
    ensures Update(link, si, sj, x, y) < high
  {
    if link == AVERAGE {
      hide Update;
      AverageBetween(si, sj, x, y, Min(x, y), Max(x, y));
    }
  }

  /** A weighted average lies between common bounds of what it averages. */
  lemma WeightedAverage(x: real, y: real, m: real, m': real, low: real, high: real)
    requires m > 0.0 && m' > 0.0 && low <= x <= high && low <= y <= high
    ensures low <= (x * m + y * m') / (m + m') <= high
  {
    WeightedOrder(low, low, x, y, m, m');
    WeightedOrder(x, y, high, high, m, m');
    Distribute(low, m, m');
    Distribute(high, m, m');
    QuotientBounds(x * m + y * m', m + m', low, high);
  }

  lemma AverageBetween(si: nat, sj: nat, x: real, y: real, low: real, high: real)
    requires si > 0 && sj > 0 && low <= x <= high && low <= y <= high
    ensures low <= Update(AVERAGE, si, sj, x, y) <= high
  {
    var m, m' := si as real, sj as real;
    WeightedAverage(x, y, m, m', low, high);
    assert (si + sj) as real == m + m';
    assert Update(AVERAGE, si, sj, x, y) == (x * m + y * m') / (m + m');
  }

  lemma WeightedOrder(x: real, y: real, x': real, y': real, m: real, m': real)
    requires m > 0.0 && m' > 0.0 && x <= x' && y <= y'
    ensures x * m + y * m' <= x' * m + y' * m'
  {
    ProductOrder(x, x', m);
    ProductOrder(y, y', m');
  }

  lemma Distribute(p: real, m: real, m': real)
    ensures p * (m + m') == p * m + p * m'
  {
  }

  lemma QuotientBounds(s: real, w: real, low: real, high: real)
    requires w > 0.0 && low * w <= s <= high * w
    ensures low <= s / w <= high
  {
    DivideBack(low, w);
    DivideBack(high, w);
    DivideOrder(low * w, s, w);
    DivideOrder(s, high * w, w);
  }

  lemma ProductOrder(p: real, q: real, k: real)
    requires k > 0.0 && p <= q
    ensures p * k <= q * k
  {
    assert (q - p) * k >= 0.0;
  }

  lemma DivideOrder(p: real, q: real, k: real)
    requires k > 0.0 && p <= q
    ensures p / k <= q / k
  {
  }

  // ----- what an average is an average of

  /** Between two single nodes every linkage takes their distance. */
  lemma LinkDistOfLeaves(link: LinkageType, d: Table, a: nat, b: nat)
    ensures LinkDist(link, d, [a], [b]) == At(d, a, b)
  {
    if link == AVERAGE {
      assert Mean(At(d, a, b), 1.0, 1.0) == At(d, a, b);
    }
  }

  /** The average distance times the number of cross pairs is a sum over the pairs: over a union it is
      the two parts' sums added up. So it is the sum of all cross distances. */
  lemma AverageAdds(d: Table, A: seq<nat>, A': seq<nat>, B: seq<nat>)
    requires A != [] && A' != [] && B != []
    ensures LinkDist(AVERAGE, d, A + A', B) * |A + A'| as real * |B| as real
      == LinkDist(AVERAGE, d, A, B) * |A| as real * |B| as real
         + LinkDist(AVERAGE, d, A', B) * |A'| as real * |B| as real
  {
    GatherAppend(AVERAGE, d, A, A', B);
    MeanTimes(Gather(AVERAGE, d, A, B), |A| as real, |B| as real);
    MeanTimes(Gather(AVERAGE, d, A', B), |A'| as real, |B| as real);
    MeanTimes(Gather(AVERAGE, d, A + A', B), |A + A'| as real, |B| as real);
  }
}
