/** The N x N latency matrix and the distances the clustering reads from it. */
module LatencyMatrices {

  datatype LatencyEntry = LatencyEntry(avgNs: real, minNs: real, maxNs: real, stddevNs: real, samples: nat)

  /** A table of distances, one row a node. */
  type Table = seq<seq<real>>

  /** Entry (i, j) of a table; cells outside the table read as zero so that the function is total. */
  function At(d: Table, i: nat, j: nat): real {
    if i < |d| && j < |d[i]| then d[i][j] else 0.0
  }

  ghost predicate Symmetric(d: Table) {
    forall i: nat, j: nat :: At(d, i, j) == At(d, j, i)
  }

  /** The averaged two-way latency between two nodes. */
  function Between(rows: seq<seq<LatencyEntry>>, i: nat, j: nat): (r: real)
    requires i < |rows| && j < |rows| && |rows[i]| == |rows| && |rows[j]| == |rows|
    ensures r - rows[i][j].avgNs == rows[j][i].avgNs - r
  {
    (rows[i][j].avgNs + rows[j][i].avgNs) / 2.0
  }

  ghost predicate Square(rows: seq<seq<LatencyEntry>>) {
    forall i | 0 <= i < |rows| :: |rows[i]| == |rows|
  }

  /** All the distances of a matrix. */
  ghost function Distances(rows: seq<seq<LatencyEntry>>): (d: Table)
    requires Square(rows)
    ensures |d| == |rows| && forall i | 0 <= i < |d| :: |d[i]| == |rows|
    ensures forall i, j | 0 <= i < |rows| && 0 <= j < |rows| :: d[i][j] == Between(rows, i, j)
    ensures Symmetric(d)
  {
    seq(|rows|, i requires 0 <= i < |rows| =>
      seq(|rows|, j requires 0 <= j < |rows| => Between(rows, i, j)))
  }

  class LatencyMatrix {
    const numNodes: nat
    var data: seq<seq<LatencyEntry>>

    ghost predicate Valid()
      reads this
    {
      |data| == numNodes && Square(data)
    }

    /** The distances this matrix stands for. */
    ghost function Table(): Table
      reads this
      requires Valid()
    {
      Distances(data)
    }

    constructor (numNodes: nat)
      ensures Valid() && this.numNodes == numNodes
      ensures forall i, j | 0 <= i < numNodes && 0 <= j < numNodes :: data[i][j] == LatencyEntry(0.0, 0.0, 0.0, 0.0, 0)
    {
      this.numNodes := numNodes;
      data := seq(numNodes, _ => seq(numNodes, _ => LatencyEntry(0.0, 0.0, 0.0, 0.0, 0)));
    }

    function Distance(i: nat, j: nat): (r: real)
      reads this
      requires Valid() && i < numNodes && j < numNodes
      ensures r == At(Table(), i, j) == At(Table(), j, i)
      ensures r + r == data[i][j].avgNs + data[j][i].avgNs
    {
      Between(data, i, j)
    }

    method SetAverage(i: nat, j: nat, avg: real)
      requires Valid() && i < numNodes && j < numNodes
      modifies this
      ensures Valid() && data == old(data)[i := old(data)[i][j := old(data)[i][j].(avgNs := avg)]]
    {
      data := data[i := data[i][j := data[i][j].(avgNs := avg)]];
    }

    /** Takes the entries of a table of averages; a single value stands for minimum and maximum too. */
    method Fill(rows: Table)
      requires Valid() && |rows| == numNodes && forall i | 0 <= i < numNodes :: |rows[i]| == numNodes
      modifies this
      ensures Valid() && forall i, j | 0 <= i < numNodes && 0 <= j < numNodes ::
        data[i][j] == LatencyEntry(rows[i][j], rows[i][j], rows[i][j], 0.0, 0)
    {
      for i := 0 to numNodes
        invariant Valid()
        invariant forall a, b | 0 <= a < i && 0 <= b < numNodes ::
          data[a][b] == LatencyEntry(rows[a][b], rows[a][b], rows[a][b], 0.0, 0)
      {
        for j := 0 to numNodes
          invariant Valid()
          invariant forall a, b | 0 <= a < numNodes && 0 <= b < numNodes && (a < i || (a == i && b < j)) ::
            data[a][b] == LatencyEntry(rows[a][b], rows[a][b], rows[a][b], 0.0, 0)
        {
          data := data[i := data[i][j := LatencyEntry(rows[i][j], rows[i][j], rows[i][j], 0.0, 0)]];
        }
      }
    }

    /** Replaces L[i][j] and L[j][i] by their average. Every pairwise distance stays what it was,
        so the clustering of the matrix cannot change; no other field of an entry is touched. */
    method Symmetrize()
      requires Valid()
      modifies this
      ensures Valid() && Table() == old(Table())
      ensures forall i, j | 0 <= i < numNodes && 0 <= j < numNodes ::
        data[i][j] == old(data)[i][j].(avgNs := if i == j then old(data)[i][j].avgNs else At(old(Table()), i, j))
    {
      ghost var was: seq<seq<LatencyEntry>> := data;
      for i := 0 to numNodes
        invariant Valid()
        invariant forall a: nat, b: nat | a < numNodes && b < numNodes ::
          data[a][b] == if a == b || (a >= i && b >= i) then was[a][b]
                        else was[a][b].(avgNs := Between(was, a, b))
      {
        for j := i + 1 to numNodes
          invariant Valid()
          invariant forall a: nat, b: nat | a < numNodes && b < numNodes ::
            data[a][b] == if a == b || (a >= i && b >= i && !(a == i && b < j) && !(b == i && a < j)) then was[a][b]
                          else was[a][b].(avgNs := Between(was, a, b))
        {
          var avg := (data[i][j].avgNs + data[j][i].avgNs) / 2.0;
          SetAverage(i, j, avg);
          SetAverage(j, i, avg);
        }
      }
      forall a: nat, b: nat | a < numNodes && b < numNodes
        ensures Distances(data)[a][b] == Distances(was)[a][b]
      {
        assert data[a][b].avgNs == if a == b then was[a][b].avgNs else Between(was, a, b);
        assert data[b][a].avgNs == if a == b then was[a][b].avgNs else Between(was, a, b);
      }
      assert forall a | 0 <= a < numNodes :: Distances(data)[a] == Distances(was)[a];
      assert Table() == Distances(was);
    }
  }

  /** After symmetrizing, a stored entry is itself the distance it stands for. */
  lemma SymmetricEntriesAreDistances(rows: seq<seq<LatencyEntry>>, i: nat, j: nat)
    requires Square(rows) && i < |rows| && j < |rows|
    ensures rows[i][j].avgNs == rows[j][i].avgNs <==> rows[i][j].avgNs == At(Distances(rows), i, j)
  {
  }
}
