/**
 * `DistanceMatrix`: the per-edge weights of a network, computed once by the
 * constructor, and the sparse node × node matrix built from them on demand,
 * kept as a cache until the cutoff or the direction mode changes.
 */
module Distance {
  import opened Common
  import opened EdgeWeights
  import opened Sparse
  import opened Components

  /** The exception `get` throws for a cell outside the matrix. */
  datatype Failure = IndexOutOfBounds

  /** The node pairs of the off-diagonal cells among keys. */
  ghost function NodePairs(nodes: seq<Node>, keys: set<(int, int)>): set<(Node, Node)> {
    set k | k in keys && k.0 != k.1 && 0 <= k.0 < |nodes| && 0 <= k.1 < |nodes| :: (nodes[k.0], nodes[k.1])
  }

  /** Pass 1 of the constructor (lines 59-88): each edge's attribute value, or the sentinel. */
  method ExtractAttributes(edges: seq<Edge>, isNone: bool, attrType: AttributeType)
    returns (w: array<real>, minA: real, maxA: real)
    ensures fresh(w) && w[..] == Pass1(edges, isNone, attrType)
    ensures minA == MinAttribute(edges, attrType) && maxA == MaxAttribute(edges, attrType)
  {
    var n := |edges|;
    w := new real[n];
    minA, maxA := DoubleMaxValue, DoubleMinValue;
    for edgeIndex := 0 to n
      invariant forall k :: 0 <= k < edgeIndex ==> w[k] == Extracted(edges[k], isNone, attrType)
      invariant minA == MinAttribute(edges[..edgeIndex], attrType)
      invariant maxA == MaxAttribute(edges[..edgeIndex], attrType)
    {
      assert edges[..edgeIndex + 1][..edgeIndex] == edges[..edgeIndex];
      var edge := edges[edgeIndex];
      w[edgeIndex] := DoubleMinValue;
      if edge.attribute.None? {
        if isNone {
          w[edgeIndex] := 1.0;
        }
        continue;
      }
      var edgeWeight := 0.0;
      if attrType == TypeFloating {
        edgeWeight := edge.attribute.value;
      } else if attrType == TypeInteger {
        edgeWeight := edge.attribute.value;
      } else {
        continue;
      }
      minA := MinReal(minA, edgeWeight);
      maxA := MaxReal(maxA, edgeWeight);
      w[edgeIndex] := edgeWeight;
    }
    assert edges[..n] == edges;
  }

  /**
   * Pass 2 of the constructor (lines 92-107): every value but the sentinel
   * converted, the indices of the values converted into the sentinel
   * collected, and the range of the other converted values.
   */
  method ConvertAttributes(w: array<real>, minA: real, maxA: real, converter: Converter)
    returns (edgeCase: seq<int>, minW: real, maxW: real)
    modifies w
    ensures w[..] == Pass2(old(w[..]), minA, maxA, converter)
    ensures edgeCase == EdgeCases(old(w[..]), w[..], w.Length)
    ensures minW == MinWeight(w[..]) && maxW == MaxWeight(w[..])
  {
    ghost var p1 := w[..];
    ghost var p2 := Pass2(p1, minA, maxA, converter);
    var n := w.Length;
    edgeCase := [];
    minW, maxW := DoubleMaxValue, DoubleMinValue;
    for edgeIndex := 0 to n
      invariant forall k :: 0 <= k < edgeIndex ==> w[k] == p2[k]
      invariant forall k :: edgeIndex <= k < n ==> w[k] == p1[k]
      invariant edgeCase == EdgeCases(p1, p2, edgeIndex)
      invariant minW == MinWeight(p2[..edgeIndex]) && maxW == MaxWeight(p2[..edgeIndex])
    {
      assert p2[..edgeIndex + 1][..edgeIndex] == p2[..edgeIndex];
      var edgeWeight := w[edgeIndex];
      if edgeWeight == DoubleMinValue {
        continue;
      }
      edgeWeight := converter(edgeWeight, minA, maxA);
      if edgeWeight == DoubleMinValue {
        edgeCase := edgeCase + [edgeIndex];
      }
      w[edgeIndex] := edgeWeight;
      if edgeWeight != DoubleMinValue {
        minW := MinReal(minW, edgeWeight);
        maxW := MaxReal(maxW, edgeWeight);
      }
    }
    assert p2[..n] == p2;
    assert w[..] == p2;
  }

  /** Pass 3 of the constructor (lines 109-112): every listed edge gets the collision weight. */
  method PatchEdgeCases(w: array<real>, edgeCase: seq<int>, collision: real)
    requires forall k :: k in edgeCase ==> 0 <= k < w.Length
    modifies w
    ensures forall k :: 0 <= k < w.Length ==> w[k] == if k in edgeCase then collision else old(w[k])
  {
    for j := 0 to |edgeCase|
      invariant forall k :: 0 <= k < w.Length ==> w[k] == if k in edgeCase[..j] then collision else old(w[k])
    {
      assert edgeCase[..j + 1] == edgeCase[..j] + [edgeCase[j]];
      assert edgeCase[j] in edgeCase;
      w[edgeCase[j]] := collision;
    }
    assert edgeCase[..|edgeCase|] == edgeCase;
  }

  /** max[c] is the maximum of column c of m, for every column it covers. */
  ghost predicate ColumnMaxOf(m: Cells, max: seq<real>) {
    forall c :: 0 <= c < |max| ==> IsColumnMax(m, c, max[c])
  }

  /** Visiting one more stored cell raises its column's maximum to the cell's value when that is larger. */
  lemma MaximaVisit(m: Cells, todo: set<(int, int)>, k: (int, int), max: seq<real>)
    requires k in todo && todo <= m.Keys && 0 <= k.1 < |max| && ColumnMaxOf(m - todo, max)
    ensures ColumnMaxOf(m - (todo - {k}), if m[k] > max[k.1] then max[k.1 := m[k]] else max)
  {
    var d, d' := m - todo, m - (todo - {k});
    assert d' == d[k := m[k]];
    var max' := if m[k] > max[k.1] then max[k.1 := m[k]] else max;
    forall c | 0 <= c < |max'| ensures IsColumnMax(d', c, max'[c]) {
      assert IsColumnMax(d, c, max[c]);
    }
  }

  /** `MatrixFindMax` over every stored cell (lines 286-298): each column's maximum, from 0. */
  method ColumnMaxima(m: Cells, n: nat) returns (max: seq<real>)
    requires WellFormed(m, n)
    ensures |max| == n && forall c :: 0 <= c < n ==> IsColumnMax(m, c, max[c])
  {
    var a := new real[n](_ => 0.0);
    var todo := m.Keys;
    while todo != {}
      invariant todo <= m.Keys
      invariant ColumnMaxOf(m - todo, a[..])
      decreases |todo|
    {
      var k :| k in todo;
      var row, column, value := k.0, k.1, m[k];
      ghost var before := a[..];
      MaximaVisit(m, todo, k, before);
      if value > a[column] {
        a[column] := value;
      }
      assert a[..] == if value > before[column] then before[column := value] else before;
      todo := todo - {k};
    }
    assert m - {} == m;
    max := a[..];
  }

  /** The diagonal loop of `adjustLoops` (lines 243-249): each diagonal cell set to its column's maximum, or to 1.0. */
  method SetDiagonals(m: Cells, n: nat, max: seq<real>) returns (result: Cells)
    requires WellFormed(m, n) && |max| == n && forall c :: 0 <= c < n ==> IsColumnMax(m, c, max[c])
    ensures WellFormed(result, n) && LoopsAdjusted(m, result, n)
  {
    result := m;
    for col := 0 to n
      invariant forall c :: 0 <= c < col ==>
        var x := Get(result, c, c);
        (x != 0.0 && IsColumnMax(m, c, x)) || (x == 1.0 && IsColumnMax(m, c, 0.0))
      invariant forall k: (int, int) :: k.0 != k.1 || !(0 <= k.0 < col) ==> (k in result <==> k in m) && (k in m ==> result[k] == m[k])
      invariant WellFormed(result, n)
    {
      if max[col] != 0.0 {
        result := Set(result, col, col, max[col]);
      } else {
        result := Set(result, col, col, 1.0);
      }
    }
  }

  /** The loop of `normalizeMatrix` (lines 155-160): every stored cell normalized, in an order the model leaves open. */
  method NormalizeCells(m: Cells, minWeight: real, maxWeight: real, factor: real) returns (result: Cells)
    requires maxWeight != minWeight
    ensures result == Normalized(m, minWeight, maxWeight, factor)
  {
    result := m;
    var todo := m.Keys;
    while todo != {}
      invariant todo <= m.Keys
      invariant forall k :: k in result <==> k in m && (k in todo || Normalize(m[k], minWeight, maxWeight, factor) != 0.0)
      invariant forall k :: k in result ==> result[k] == if k in todo then m[k] else Normalize(m[k], minWeight, maxWeight, factor)
      decreases |todo|
    {
      var k :| k in todo;
      var value := result[k];
      assert k == (k.0, k.1);
      result := Set(result, k.0, k.1, Normalize(value, minWeight, maxWeight, factor));
      todo := todo - {k};
    }
    assert result.Keys == Normalized(m, minWeight, maxWeight, factor).Keys;
  }

  /** Dividing by a non-zero real is undone by multiplying, and gives 0 or 1 exactly at 0 or the divisor. */
  lemma DivisionInverse(x: real, d: real)
    requires d != 0.0
    ensures (x / d) * d == x
    ensures x / d == 0.0 <==> x == 0.0
    ensures x / d == 1.0 <==> x == d
  {
    var q := x / d;
    assert q * d == x;
    if q == 1.0 {
      assert x == d;
    }
  }

  /** One more cell visited adds its node pair, when it is off the diagonal. */
  lemma NodePairsStep(nodes: seq<Node>, done: set<(int, int)>, k: (int, int))
    requires 0 <= k.0 < |nodes| && 0 <= k.1 < |nodes|
    ensures NodePairs(nodes, done + {k}) == NodePairs(nodes, done) + (if k.0 != k.1 then {(nodes[k.0], nodes[k.1])} else {})
  {
  }

  /** One visit of `forEachNonZero` (lines 166-167): the cell's endpoints are applied to the finder. */
  method VisitCell(finder: ComponentFinder, m: Cells, ghost done: set<(int, int)>, k: (int, int))
    requires finder.Valid() && WellFormed(m, |finder.nodes|) && k in m
    requires finder.visited == NodePairs(finder.nodes, done)
    modifies finder
    ensures finder.Valid()
    ensures finder.visited == NodePairs(finder.nodes, done + {k})
  {
    var row, column := k.0, k.1;
    var _ := finder.Apply(row, column, m[k]);
    NodePairsStep(finder.nodes, done, k);
  }

  /**
   * The loop of `findConnectedComponents` (lines 162-169): the labelling run
   * over every stored cell, in an order the model leaves open. The result
   * lists the connected components of the off-diagonal cells.
   */
  method LabelComponents(nodes: seq<Node>, m: Cells) returns (cmap: map<int, seq<Node>>)
    requires Distinct(nodes) && WellFormed(m, |nodes|)
    ensures IsComponentMap(cmap, NodePairs(nodes, m.Keys))
  {
    var finder := new ComponentFinder(nodes);
    var todo := m.Keys;
    while todo != {}
      invariant todo <= m.Keys
      invariant finder.Valid() && finder.nodes == nodes
      invariant finder.visited == NodePairs(nodes, m.Keys - todo)
      modifies finder
      decreases |todo|
    {
      var k :| k in todo;
      VisitCell(finder, m, m.Keys - todo, k);
      assert m.Keys - (todo - {k}) == (m.Keys - todo) + {k};
      todo := todo - {k};
    }
    assert m.Keys - {} == m.Keys;
    InvComponentMap(finder.State(), finder.visited);
    cmap := finder.clusterMap;
  }

  class DistanceMatrix {
    const nodes: seq<Node>
    const edges: seq<Edge>
    var edgeWeights: array<real>
    var minAttribute: real
    var maxAttribute: real
    var minWeight: real
    var maxWeight: real
    var edgeCutOff: real
    var unDirectedEdges: bool
    /** The built matrix, or `None` (Java's null) until it is built. */
    var matrix: Option<Cells>

    ghost predicate Valid()
      reads this
    {
      && edgeWeights.Length == |edges|
      && EndpointsIn(nodes, edges) && Distinct(nodes)
      && (matrix.Some? ==> WellFormed(matrix.value, |nodes|))
    }

    /** The matrix `getDistanceMatrix()` returns now: the cached one, or a fresh build. */
    ghost function Current(): Cells
      reads this, edgeWeights
      requires Valid()
    {
      if matrix.Some? then matrix.value
      else Build(nodes, edges, edgeWeights[..], edgeCutOff, unDirectedEdges)
    }

    /**
     * Lines 41-113: the three passes over the edges. The network's node and
     * edge lists, the attribute store and the converter are parameters;
     * `isNone` says that the attribute name is the "none" attribute name.
     */
    constructor(nodes: seq<Node>, edges: seq<Edge>, isNone: bool, attrType: AttributeType, converter: Converter)
      requires EndpointsIn(nodes, edges) && Distinct(nodes)
      ensures Valid() && this.nodes == nodes && this.edges == edges
      ensures edgeWeights[..] == Weights(edges, isNone, attrType, converter)
      ensures minAttribute == MinAttribute(edges, attrType) && maxAttribute == MaxAttribute(edges, attrType)
      ensures var converted := ConvertedWeights(edges, isNone, attrType, converter);
        minWeight == MinWeight(converted) && maxWeight == MaxWeight(converted)
      ensures edgeCutOff == 0.0 && !unDirectedEdges && matrix == None
    {
      var w, minA, maxA := ExtractAttributes(edges, isNone, attrType);
      ghost var p1 := w[..];
      var edgeCase, minW, maxW := ConvertAttributes(w, minA, maxA, converter);
      ghost var p2 := w[..];
      PatchEdgeCases(w, edgeCase, maxW + maxW / 10.0);
      assert w[..] == Pass3(p1, p2);
      this.nodes := nodes;
      this.edges := edges;
      edgeWeights := w;
      minAttribute, maxAttribute := minA, maxA;
      minWeight, maxWeight := minW, maxW;
      edgeCutOff := 0.0;
      unDirectedEdges := false;
      matrix := None;
    }

    /**
     * `getDistanceMatrix()` (lines 179-206): the cached matrix if there is
     * one, otherwise the matrix built from the edges whose weight is not
     * below the cutoff, which becomes the cache.
     */
    method GetDistanceMatrix() returns (m: Cells)
      requires Valid()
      modifies this
      ensures Valid() && matrix == Some(m) && m == old(Current())
      ensures old(matrix).Some? ==> m == old(matrix).value
      ensures old(matrix).None? ==> m == Build(nodes, edges, edgeWeights[..], edgeCutOff, unDirectedEdges)
      ensures edgeWeights == old(edgeWeights) && edgeCutOff == old(edgeCutOff) && unDirectedEdges == old(unDirectedEdges)
      ensures minWeight == old(minWeight) && maxWeight == old(maxWeight)
      ensures minAttribute == old(minAttribute) && maxAttribute == old(maxAttribute)
    {
      if matrix.Some? {
        return matrix.value;
      }
      m := map[];
      for edgeIndex := 0 to |edges|
        invariant m == Build(nodes, edges[..edgeIndex], edgeWeights[..edgeIndex], edgeCutOff, unDirectedEdges)
      {
        assert edges[..edgeIndex + 1][..edgeIndex] == edges[..edgeIndex];
        assert edgeWeights[..edgeIndex + 1][..edgeIndex] == edgeWeights[..edgeIndex];
        var edge := edges[edgeIndex];
        if edgeWeights[edgeIndex] < edgeCutOff {
          continue;
        }
        var sourceIndex := IndexOf(nodes, edge.source);
        var targetIndex := IndexOf(nodes, edge.target);
        m := Set(m, targetIndex, sourceIndex, edgeWeights[edgeIndex]);
        if unDirectedEdges {
          m := Set(m, sourceIndex, targetIndex, edgeWeights[edgeIndex]);
        }
      }
      assert edges[..|edges|] == edges && edgeWeights[..|edges|] == edgeWeights[..];
      matrix := Some(m);
    }

    /** `setEdgeCutOff` (lines 215-218): a new cutoff, and the cache is dropped. */
    method SetEdgeCutOff(edgeCutOff: real)
      requires Valid()
      modifies this
      ensures Valid() && this.edgeCutOff == edgeCutOff && matrix == None
      ensures edgeWeights == old(edgeWeights) && unDirectedEdges == old(unDirectedEdges)
      ensures minWeight == old(minWeight) && maxWeight == old(maxWeight)
      ensures minAttribute == old(minAttribute) && maxAttribute == old(maxAttribute)
    {
      matrix := None;
      this.edgeCutOff := edgeCutOff;
    }

    /** `setUndirectedEdges` (lines 220-223): a new direction mode, and the cache is dropped. */
    method SetUndirectedEdges(undirectedEdges: bool)
      requires Valid()
      modifies this
      ensures Valid() && unDirectedEdges == undirectedEdges && matrix == None
      ensures edgeWeights == old(edgeWeights) && edgeCutOff == old(edgeCutOff)
      ensures minWeight == old(minWeight) && maxWeight == old(maxWeight)
      ensures minAttribute == old(minAttribute) && maxAttribute == old(maxAttribute)
    {
      matrix := None;
      unDirectedEdges := undirectedEdges;
    }

    /** `getDistanceMatrix(cutoff, undirected)` (lines 171-176): always a fresh build with the new settings. */
    method GetDistanceMatrixWith(edgeCutOff: real, undirectedEdges: bool) returns (m: Cells)
      requires Valid()
      modifies this
      ensures Valid() && matrix == Some(m)
      ensures m == Build(nodes, edges, edgeWeights[..], edgeCutOff, undirectedEdges)
      ensures this.edgeCutOff == edgeCutOff && unDirectedEdges == undirectedEdges
      ensures edgeWeights == old(edgeWeights) && minWeight == old(minWeight) && maxWeight == old(maxWeight)
      ensures minAttribute == old(minAttribute) && maxAttribute == old(maxAttribute)
    {
      SetEdgeCutOff(edgeCutOff);
      SetUndirectedEdges(undirectedEdges);
      matrix := None;
      m := GetDistanceMatrix();
    }

    /**
     * `getEdgeValueFromMatrix` (lines 119-124): the cell of the current
     * matrix, building it first if needed; a cell outside the matrix throws.
     */
    method GetEdgeValueFromMatrix(row: int, column: int) returns (r: Result<real, Failure>)
      requires Valid()
      modifies this
      ensures Valid() && matrix == Some(old(Current()))
      ensures 0 <= row < |nodes| && 0 <= column < |nodes| ==> r == Ok(Get(old(Current()), row, column))
      ensures !(0 <= row < |nodes| && 0 <= column < |nodes|) ==> r == Err(IndexOutOfBounds)
      ensures edgeWeights == old(edgeWeights) && edgeCutOff == old(edgeCutOff) && unDirectedEdges == old(unDirectedEdges)
      ensures minWeight == old(minWeight) && maxWeight == old(maxWeight)
      ensures minAttribute == old(minAttribute) && maxAttribute == old(maxAttribute)
    {
      var m := GetDistanceMatrix();
      if 0 <= row < |nodes| && 0 <= column < |nodes| {
        r := Ok(Get(m, row, column));
      } else {
        r := Err(IndexOutOfBounds);
      }
    }

    /**
     * `getNormalizedValue` (lines 150-153): the position of value in the
     * weight range, 0 at minWeight and 1 at maxWeight.
     */
    function GetNormalizedValue(value: real): (r: real)
      reads this
      requires maxWeight != minWeight
      ensures minWeight + r * (maxWeight - minWeight) == value
      ensures r == 0.0 <==> value == minWeight
      ensures r == 1.0 <==> value == maxWeight
    {
      var span := maxWeight - minWeight;
      DivisionInverse(value - minWeight, span);
      (value - minWeight) / span
    }

    /**
     * `normalizeMatrix` (lines 155-160) with `Normalize` (lines 303-319):
     * every stored cell of the current matrix is normalized in place, visiting
     * the cells in an order the model leaves open.
     */
    method NormalizeMatrix(factor: real)
      requires Valid() && maxWeight != minWeight
      modifies this
      ensures edgeWeights == old(edgeWeights) && edgeCutOff == old(edgeCutOff) && unDirectedEdges == old(unDirectedEdges)
      ensures minWeight == old(minWeight) && maxWeight == old(maxWeight)
      ensures minAttribute == old(minAttribute) && maxAttribute == old(maxAttribute)
      ensures Valid() && matrix == Some(Normalized(old(Current()), minWeight, maxWeight, factor))
    {
      var m := GetDistanceMatrix();
      var result := NormalizeCells(m, minWeight, maxWeight, factor);
      matrix := Some(result);
    }

    /**
     * `adjustLoops` (lines 234-251) with `MatrixFindMax` (lines 286-298):
     * first every column's maximum over its stored cells, from 0, then every
     * diagonal cell set to that maximum, or to 1.0 where it is 0.
     */
    method AdjustLoops()
      requires Valid()
      modifies this
      ensures Valid() && matrix.Some? && LoopsAdjusted(old(Current()), matrix.value, |nodes|)
      ensures edgeWeights == old(edgeWeights) && edgeCutOff == old(edgeCutOff) && unDirectedEdges == old(unDirectedEdges)
      ensures minWeight == old(minWeight) && maxWeight == old(maxWeight)
      ensures minAttribute == old(minAttribute) && maxAttribute == old(maxAttribute)
    {
      var m := GetDistanceMatrix();
      var max := ColumnMaxima(m, |nodes|);
      var result := SetDiagonals(m, |nodes|, max);
      matrix := Some(result);
    }

    /**
     * `findConnectedComponents` (lines 162-169): the labelling run over every
     * stored cell of the current matrix, in an order the model leaves open.
     * The result lists the connected components of the off-diagonal cells.
     */
    method FindConnectedComponents() returns (cmap: map<int, seq<Node>>)
      requires Valid()
      modifies this
      ensures Valid() && matrix == Some(old(Current()))
      ensures IsComponentMap(cmap, NodePairs(nodes, old(Current()).Keys))
      ensures edgeWeights == old(edgeWeights) && edgeCutOff == old(edgeCutOff) && unDirectedEdges == old(unDirectedEdges)
      ensures minWeight == old(minWeight) && maxWeight == old(maxWeight)
      ensures minAttribute == old(minAttribute) && maxAttribute == old(maxAttribute)
    {
      var m := GetDistanceMatrix();
      cmap := LabelComponents(nodes, m);
    }
  }
}
