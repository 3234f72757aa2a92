/**
 * The sparse n × n matrix `DistanceMatrix` builds from the network (a Colt
 * `SparseDoubleMatrix2D`), as a map from (row, column) to the non-zero value
 * stored there, and the functions that specify what `getDistanceMatrix`,
 * `normalizeMatrix` and `adjustLoops` do to it.
 */
module Sparse {
  import opened Common
  import opened EdgeWeights

  /** The stored cells of a sparse matrix; a cell that is not a key holds 0. */
  type Cells = map<(int, int), real>

  /** Every stored cell lies inside the n × n shape and holds a non-zero value. */
  predicate WellFormed(m: Cells, n: nat) {
    forall k :: k in m ==> 0 <= k.0 < n && 0 <= k.1 < n && m[k] != 0.0
  }

  /** `get(row, column)`: the stored value, or 0 for a cell that is not stored. */
  function Get(m: Cells, row: int, column: int): real {
    if (row, column) in m then m[(row, column)] else 0.0
  }

  /** `set(row, column, v)`: storing 0 removes the cell. */
  function Set(m: Cells, row: int, column: int, v: real): (m': Cells)
    ensures Get(m', row, column) == v
    ensures forall k :: k != (row, column) ==> (k in m' <==> k in m) && (k in m ==> m'[k] == m[k])
    ensures (row, column) in m' <==> v != 0.0
    ensures forall r, c :: (r, c) != (row, column) ==> Get(m', r, c) == Get(m, r, c)
  {
    if v == 0.0 then m - {(row, column)} else m[(row, column) := v]
  }

  /** Java's `List.indexOf`: the first position holding x, or -1. */
  function IndexOf(nodes: seq<Node>, x: Node): (i: int)
    ensures -1 <= i < |nodes|
    ensures i == -1 <==> x !in nodes
    ensures 0 <= i ==> nodes[i] == x && forall j :: 0 <= j < i ==> nodes[j] != x
  {
    if nodes == [] then -1
    else if nodes[0] == x then 0
    else
      var i := IndexOf(nodes[1..], x);
      if i == -1 then -1 else i + 1
  }

  /** Every edge's endpoints are among the nodes, as in a Cytoscape network. */
  predicate EndpointsIn(nodes: seq<Node>, edges: seq<Edge>) {
    forall e :: e in edges ==> e.source in nodes && e.target in nodes
  }

  /**
   * Lines 187-203 of `getDistanceMatrix()`: every edge whose weight is not
   * below the cutoff sets cell (target, source) to its weight, and also cell
   * (source, target) when edges are undirected; later edges overwrite
   * earlier ones.
   */
  function Build(nodes: seq<Node>, edges: seq<Edge>, weights: seq<real>, cutoff: real, undirected: bool): (m: Cells)
    requires |weights| == |edges| && EndpointsIn(nodes, edges)
    ensures WellFormed(m, |nodes|)
    decreases |edges|
  {
    if edges == [] then map[]
    else
      var n := |edges| - 1;
      var m := Build(nodes, edges[..n], weights[..n], cutoff, undirected);
      var e, w := edges[n], weights[n];
      if w < cutoff then m
      else
        var source, target := IndexOf(nodes, e.source), IndexOf(nodes, e.target);
        var m1 := Set(m, target, source, w);
        if undirected then Set(m1, source, target, w) else m1
  }

  /** True when edge e with weight w passes the cutoff and writes cell (row, column). */
  predicate Writes(nodes: seq<Node>, e: Edge, w: real, cutoff: real, undirected: bool, row: int, column: int) {
    var source, target := IndexOf(nodes, e.source), IndexOf(nodes, e.target);
    w >= cutoff && ((row, column) == (target, source) || (undirected && (row, column) == (source, target)))
  }

  /** The last edge decides a cell it writes; a cell it does not write is as the earlier edges left it. */
  lemma BuildStep(nodes: seq<Node>, edges: seq<Edge>, weights: seq<real>, cutoff: real,
                  undirected: bool, row: int, column: int)
    requires |weights| == |edges| && EndpointsIn(nodes, edges) && edges != []
    ensures var n := |edges| - 1;
      EndpointsIn(nodes, edges[..n]) &&
      Get(Build(nodes, edges, weights, cutoff, undirected), row, column) ==
        if Writes(nodes, edges[n], weights[n], cutoff, undirected, row, column) then weights[n]
        else Get(Build(nodes, edges[..n], weights[..n], cutoff, undirected), row, column)
  {
    var n := |edges| - 1;
    assert forall e :: e in edges[..n] ==> e in edges;
  }

  /** A cell that no edge writes holds 0. */
  lemma {:induction false} BuildCellUnwritten(nodes: seq<Node>, edges: seq<Edge>, weights: seq<real>, cutoff: real,
                                              undirected: bool, row: int, column: int)
    requires |weights| == |edges| && EndpointsIn(nodes, edges)
    requires forall k :: 0 <= k < |edges| ==> !Writes(nodes, edges[k], weights[k], cutoff, undirected, row, column)
    ensures Get(Build(nodes, edges, weights, cutoff, undirected), row, column) == 0.0
    decreases |edges|
  {
    if edges != [] {
      var n := |edges| - 1;
      var es, ws := edges[..n], weights[..n];
      BuildStep(nodes, edges, weights, cutoff, undirected, row, column);
      assert forall k :: 0 <= k < n ==> es[k] == edges[k] && ws[k] == weights[k];
      BuildCellUnwritten(nodes, es, ws, cutoff, undirected, row, column);
    }
  }

  /** A cell holds the weight of the last edge that writes it. */
  lemma {:induction false} BuildCellLastWriter(nodes: seq<Node>, edges: seq<Edge>, weights: seq<real>, cutoff: real,
                                               undirected: bool, row: int, column: int, k: int)
    requires |weights| == |edges| && EndpointsIn(nodes, edges)
    requires 0 <= k < |edges| && Writes(nodes, edges[k], weights[k], cutoff, undirected, row, column)
    requires forall k' :: k < k' < |edges| ==> !Writes(nodes, edges[k'], weights[k'], cutoff, undirected, row, column)
    ensures Get(Build(nodes, edges, weights, cutoff, undirected), row, column) == weights[k]
    decreases |edges|
  {
    var n := |edges| - 1;
    BuildStep(nodes, edges, weights, cutoff, undirected, row, column);
    if k < n {
      var es, ws := edges[..n], weights[..n];
      assert forall j :: 0 <= j < n ==> es[j] == edges[j] && ws[j] == weights[j];
      BuildCellLastWriter(nodes, es, ws, cutoff, undirected, row, column, k);
    }
  }

  /** With undirected edges the built matrix is symmetric. */
  lemma {:induction false} BuildSymmetric(nodes: seq<Node>, edges: seq<Edge>, weights: seq<real>, cutoff: real,
                                          row: int, column: int)
    requires |weights| == |edges| && EndpointsIn(nodes, edges)
    ensures var m := Build(nodes, edges, weights, cutoff, true);
      Get(m, row, column) == Get(m, column, row)
    decreases |edges|
  {
    if edges != [] {
      var n := |edges| - 1;
      BuildSymmetric(nodes, edges[..n], weights[..n], cutoff, row, column);
    }
  }

  /** With non-zero weights a cell is stored exactly when some edge writes it. */
  lemma {:induction false} BuildKeys(nodes: seq<Node>, edges: seq<Edge>, weights: seq<real>, cutoff: real,
                                     undirected: bool, row: int, column: int)
    requires |weights| == |edges| && EndpointsIn(nodes, edges)
    requires forall k :: 0 <= k < |weights| ==> weights[k] != 0.0
    ensures (row, column) in Build(nodes, edges, weights, cutoff, undirected) <==>
      exists k :: 0 <= k < |edges| && Writes(nodes, edges[k], weights[k], cutoff, undirected, row, column)
    decreases |edges|
  {
    if edges != [] {
      var n := |edges| - 1;
      var es, ws := edges[..n], weights[..n];
      assert forall k :: 0 <= k < n ==> es[k] == edges[k] && ws[k] == weights[k];
      BuildKeys(nodes, es, ws, cutoff, undirected, row, column);
    }
  }

  /** With non-zero weights, raising the cutoff can only remove stored cells. */
  lemma CutoffShrinks(nodes: seq<Node>, edges: seq<Edge>, weights: seq<real>, low: real, high: real, undirected: bool)
    requires |weights| == |edges| && EndpointsIn(nodes, edges)
    requires forall k :: 0 <= k < |weights| ==> weights[k] != 0.0
    requires low <= high
    ensures Build(nodes, edges, weights, high, undirected).Keys <= Build(nodes, edges, weights, low, undirected).Keys
  {
    forall key | key in Build(nodes, edges, weights, high, undirected)
      ensures key in Build(nodes, edges, weights, low, undirected)
    {
      BuildKeys(nodes, edges, weights, high, undirected, key.0, key.1);
      BuildKeys(nodes, edges, weights, low, undirected, key.0, key.1);
      var k :| 0 <= k < |edges| && Writes(nodes, edges[k], weights[k], high, undirected, key.0, key.1);
      assert Writes(nodes, edges[k], weights[k], low, undirected, key.0, key.1);
    }
  }

  /**
   * Without that condition it fails: a later parallel edge of weight 0
   * clears a cell, and a cutoff that drops that edge keeps the cell.
   */
  lemma CutoffCanAddCell()
    ensures var a, b := Node("a", 0), Node("b", 1);
      var edges := [Edge(a, b, None), Edge(a, b, None)];
      (1, 0) !in Build([a, b], edges, [2.0, 0.0], 0.0, false) &&
      (1, 0) in Build([a, b], edges, [2.0, 0.0], 1.0, false)
  {
    var a, b := Node("a", 0), Node("b", 1);
    var edges := [Edge(a, b, None), Edge(a, b, None)];
    assert IndexOf([a, b], a) == 0 && IndexOf([a, b], b) == 1;
    assert edges[..1] == [Edge(a, b, None)] && [2.0, 0.0][..1] == [2.0];
    assert edges[..1][..0] == [];
  }

  /** `Normalize.apply` (lines 316-318): shift by minWeight, scale to [0, factor]. */
  function Normalize(v: real, minWeight: real, maxWeight: real, factor: real): real
    requires maxWeight != minWeight
  {
    ((v - minWeight) / (maxWeight - minWeight)) * factor
  }

  /** The matrix after `normalizeMatrix`: every stored value normalized, values that become 0 dropped. */
  function Normalized(m: Cells, minWeight: real, maxWeight: real, factor: real): (m': Cells)
    requires maxWeight != minWeight
    ensures m'.Keys <= m.Keys
  {
    map k | k in m && Normalize(m[k], minWeight, maxWeight, factor) != 0.0 :: Normalize(m[k], minWeight, maxWeight, factor)
  }

  /**
   * Normalization maps minWeight to 0 and maxWeight to factor, keeps cells
   * that are not stored at 0, and maps a stored value in [minWeight,
   * maxWeight] into [0, factor] when factor is not negative.
   */
  lemma NormalizedCells(m: Cells, minWeight: real, maxWeight: real, factor: real, row: int, column: int)
    requires minWeight < maxWeight
    ensures Normalize(minWeight, minWeight, maxWeight, factor) == 0.0
    ensures Normalize(maxWeight, minWeight, maxWeight, factor) == factor
    ensures (row, column) !in m ==> Get(Normalized(m, minWeight, maxWeight, factor), row, column) == 0.0
    ensures (row, column) in m ==>
      Get(Normalized(m, minWeight, maxWeight, factor), row, column) == Normalize(m[(row, column)], minWeight, maxWeight, factor)
    ensures (row, column) in m && minWeight <= m[(row, column)] <= maxWeight && 0.0 <= factor ==>
      0.0 <= Get(Normalized(m, minWeight, maxWeight, factor), row, column) <= factor
  {
    var span := maxWeight - minWeight;
    if (row, column) in m && minWeight <= m[(row, column)] <= maxWeight && 0.0 <= factor {
      var q := (m[(row, column)] - minWeight) / span;
      assert q * span == m[(row, column)] - minWeight;
      assert 0.0 <= q <= 1.0;
      assert 0.0 <= q * factor <= factor;
    }
  }

  /**
   * x is what `MatrixFindMax` leaves for column c: the largest stored value
   * in the column, diagonal included, with 0 as the baseline.
   */
  predicate IsColumnMax(m: Cells, column: int, x: real) {
    && 0.0 <= x
    && (forall k :: k in m && k.1 == column ==> m[k] <= x)
    && (x == 0.0 || exists k :: k in m && k.1 == column && m[k] == x)
  }

  /** A column has only one such maximum. */
  lemma ColumnMaxUnique(m: Cells, column: int, x: real, y: real)
    requires IsColumnMax(m, column, x) && IsColumnMax(m, column, y)
    ensures x == y
  {
  }

  /**
   * m' is the n × n matrix m with loops adjusted (lines 239-249): every
   * diagonal cell holds its column's maximum, or 1.0 where that maximum is
   * 0, and every other cell is unchanged.
   */
  ghost predicate LoopsAdjusted(m: Cells, m': Cells, n: nat) {
    && (forall c :: 0 <= c < n ==>
          var x := Get(m', c, c);
          (x != 0.0 && IsColumnMax(m, c, x)) || (x == 1.0 && IsColumnMax(m, c, 0.0)))
    && (forall k: (int, int) :: k.0 != k.1 ==> (k in m' <==> k in m) && (k in m ==> m'[k] == m[k]))
  }

  /** After the adjustment every diagonal cell is positive and at least every cell of its column. */
  lemma AdjustedDiagonalDominates(m: Cells, m': Cells, n: nat, column: int, row: int)
    requires 0 <= column < n && LoopsAdjusted(m, m', n)
    ensures Get(m', column, column) > 0.0
    ensures Get(m', row, column) <= Get(m', column, column)
  {
    if row != column && (row, column) in m {
      assert Get(m', row, column) == m[(row, column)];
    }
  }
}
