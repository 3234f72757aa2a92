/**
 * `BaseMatrix`: a dense table of optional reals (Java's `Double[][]`, where
 * null marks a missing value) with row and column weights and labels.
 */
module Base {
  import opened Common
  import opened Ranks

  /** The exceptions the data constructor can throw while sizing the table. */
  datatype DimError =
    | DivisionByZero      // ArithmeticException from inferring a dimension by dividing by 0
    | NonConforming       // IllegalArgumentException: rows * cols differs from the data length
    | NegativeArraySize   // NegativeArraySizeException from allocating the table

  /**
   * The dimension check of `BaseMatrix(rows, cols, data)` (lines 88-100): a
   * zero dimension is inferred from the data length by Java's truncating
   * division, the product must equal the length, and the table is then
   * allocated, which fails for a negative dimension.
   */
  function ConformDims(rows: int, cols: int, len: nat): (r: Result<(nat, nat), DimError>)
    ensures r.Ok? ==> r.value.0 * r.value.1 == len
    ensures r.Ok? ==> rows >= 0 && cols >= 0
    ensures r.Ok? && rows != 0 ==> r.value.0 == rows
    ensures r.Ok? && cols != 0 ==> r.value.1 == cols
    ensures rows == 0 && cols == 0 ==> r == Err(DivisionByZero)
    ensures rows > 0 && cols > 0 ==> (r.Ok? <==> rows * cols == len)
    ensures rows > 0 && cols > 0 && rows * cols != len ==> r == Err(NonConforming)
  {
    if rows == 0 && cols == 0 then Err(DivisionByZero)
    else
      // with only one dimension 0, the other one is the divisor, so a single division can fail
      var rows' := if rows == 0 then JavaDiv(len, cols) else rows;
      var cols' := if cols == 0 then JavaDiv(len, rows') else cols;
      if rows' * cols' != len then Err(NonConforming)
      else if rows' < 0 || cols' < 0 then Err(NegativeArraySize)
      else Ok((rows', cols'))
  }

  /**
   * With one dimension given as a positive number and the other as 0, the
   * data is accepted exactly when its length is a multiple of the given one,
   * and the other dimension is the quotient.
   */
  lemma InferredDimension(given: int, len: nat)
    requires given > 0
    ensures ConformDims(0, given, len).Ok? <==> len % given == 0
    ensures ConformDims(given, 0, len).Ok? <==> len % given == 0
    ensures len % given == 0 ==> ConformDims(0, given, len) == Ok((len / given, given))
    ensures len % given == 0 ==> ConformDims(given, 0, len) == Ok((given, len / given))
  {
    var q := JavaDiv(len, given);
    assert q == len / given;
    assert q * given == len <==> len % given == 0;
    if q == 0 {
      assert len < given;
      assert len % given == 0 <==> len == 0;
    }
  }

  /** A negative dimension is never accepted. */
  lemma NegativeRejected(rows: int, cols: int, len: nat)
    requires rows < 0 || cols < 0
    ensures ConformDims(rows, cols, len).Err?
  {
  }

  /** Multiplying by a natural keeps the sign of a factor of magnitude at least 1. */
  lemma MulSign(d: int, c: nat)
    ensures d >= 1 ==> d * c >= c
    ensures d <= -1 ==> d * c <= -(c as int)
  {
    assert d * c - c == (d - 1) * c;
    assert d * c + c == (d + 1) * c;
  }

  /** Euclidean division by c is determined by a quotient and a remainder below c. */
  lemma DivUnique(k: int, c: nat, q: int, r: int)
    requires 0 <= r < c && k == q * c + r
    ensures k / c == q && k % c == r
  {
    var q', r' := k / c, k % c;
    assert q' * c + r' == k;
    var d := q' - q;
    assert d * c == r - r';
    MulSign(d, c);
  }

  lemma MulMono(a: nat, b: nat, c: nat)
    requires a <= b
    ensures a * c <= b * c
  {
    assert b * c - a * c == (b - a) * c;
  }

  /** Each cell (i, j) of a rows × cols table has its own position i * cols + j in row-major order. */
  lemma RowMajorCell(rows: nat, cols: nat, i: nat, j: nat)
    requires i < rows && j < cols
    ensures i * cols + j < rows * cols
    ensures (i * cols + j) / cols == i && (i * cols + j) % cols == j
  {
    MulMono(i + 1, rows, cols);
    assert (i + 1) * cols == i * cols + cols;
    DivUnique(i * cols + j, cols, i, j);
  }

  /** Every position k of a row-major array of length rows * cols comes from the cell (k / cols, k % cols). */
  lemma RowMajorIndex(rows: nat, cols: nat, k: nat)
    requires k < rows * cols
    ensures cols > 0 && k / cols < rows && (k / cols) * cols + k % cols == k
  {
    assert rows * cols > 0;
    var q := k / cols;
    assert q * cols <= k;
    MulSign(q - rows + 1, cols);
    assert (q - rows + 1) * cols == q * cols - rows * cols + cols;
  }

  /** The row-major position of the start of row i: i * cols, counted up one row at a time. */
  function RowStart(i: nat, cols: nat): (k: nat)
  {
    if i == 0 then 0 else RowStart(i - 1, cols) + cols
  }

  lemma {:induction false} RowStartIsProduct(i: nat, cols: nat)
    ensures RowStart(i, cols) == i * cols
  {
    if i > 0 {
      RowStartIsProduct(i - 1, cols);
      assert (i - 1) * cols + cols == i * cols;
    }
  }

  lemma {:induction false} RowStartMono(i: nat, rows: nat, cols: nat)
    requires i < rows
    ensures RowStart(i, cols) + cols <= RowStart(rows, cols)
    decreases rows - i
  {
    if i + 1 < rows {
      RowStartMono(i + 1, rows, cols);
    }
  }

  /** The population loop of `BaseMatrix(rows, cols, data)` (lines 102-108): the cells in row-major order. */
  method FillRowMajor(m: array2<Option<real>>, data: seq<Option<real>>)
    requires |data| == m.Length0 * m.Length1
    modifies m
    ensures RowMajorOf(m, data)
  {
    RowStartIsProduct(m.Length0, m.Length1);
    var nr, nc := m.Length0, m.Length1;
    var k := 0;
    for i := 0 to nr
      invariant k == RowStart(i, nc)
      invariant forall i' :: 0 <= i' < i ==> RowStart(i', nc) + nc <= |data|
      invariant forall i', j :: 0 <= i' < i && 0 <= j < nc ==> m[i', j] == data[RowStart(i', nc) + j]
    {
      RowStartMono(i, nr, nc);
      FillRow(m, data, i, k);
      k := k + nc;
    }
    RowMajorFilled(m, data);
  }

  /** One row of the population loop: the row's cells take the next nColumns values. */
  method FillRow(m: array2<Option<real>>, data: seq<Option<real>>, i: nat, start: nat)
    requires i < m.Length0 && start + m.Length1 <= |data|
    modifies m
    ensures forall j :: 0 <= j < m.Length1 ==> m[i, j] == data[start + j]
    ensures forall i', j :: 0 <= i' < m.Length0 && i' != i && 0 <= j < m.Length1 ==> m[i', j] == old(m[i', j])
  {
    var k := start;
    for j := 0 to m.Length1
      invariant k == start + j
      invariant forall j' :: 0 <= j' < j ==> m[i, j'] == data[start + j']
      invariant forall i', j' :: 0 <= i' < m.Length0 && i' != i && 0 <= j' < m.Length1 ==> m[i', j'] == old(m[i', j'])
    {
      m[i, j] := data[k];
      k := k + 1;
    }
  }

  /** The row-major position of cell (i, j) in a table of `cols` columns. */
  function Flat(i: int, j: int, cols: int): int {
    i * cols + j
  }

  ghost predicate RowMajorOf(m: array2<Option<real>>, data: seq<Option<real>>)
    reads m
  {
    forall i, j :: 0 <= i < m.Length0 && 0 <= j < m.Length1 ==>
      0 <= Flat(i, j, m.Length1) < |data| && m[i, j] == data[Flat(i, j, m.Length1)]
  }

  /** Element k of data is in cell (k / columns, k % columns): nothing of data is lost. */
  ghost predicate EveryPositionPlaced(m: array2<Option<real>>, data: seq<Option<real>>)
    reads m
  {
    forall k :: 0 <= k < |data| ==>
      m.Length1 > 0 && k / m.Length1 < m.Length0 && m[k / m.Length1, k % m.Length1] == data[k]
  }

  /** What `FillRowMajor` leaves, in terms of positions i * columns + j. */
  lemma RowMajorFilled(m: array2<Option<real>>, data: seq<Option<real>>)
    requires forall i, j :: 0 <= i < m.Length0 && 0 <= j < m.Length1 ==>
      RowStart(i, m.Length1) + j < |data| && m[i, j] == data[RowStart(i, m.Length1) + j]
    ensures RowMajorOf(m, data)
  {
    forall i, j | 0 <= i < m.Length0 && 0 <= j < m.Length1
      ensures 0 <= Flat(i, j, m.Length1) < |data| && m[i, j] == data[Flat(i, j, m.Length1)]
    {
      var x := m[i, j];
      assert RowStart(i, m.Length1) + j < |data| && x == data[RowStart(i, m.Length1) + j];
      RowStartIsProduct(i, m.Length1);
    }
  }

  /** Every element of data lands in a cell. */
  lemma AllPlaced(m: array2<Option<real>>, data: seq<Option<real>>)
    requires |data| == m.Length0 * m.Length1 && RowMajorOf(m, data)
    ensures EveryPositionPlaced(m, data)
  {
    var nr, nc := m.Length0, m.Length1;
    forall k | 0 <= k < |data|
      ensures nc > 0 && k / nc < nr && m[k / nc, k % nc] == data[k]
    {
      RowMajorIndex(nr, nc, k);
      var i, j := k / nc, k % nc;
      assert Flat(i, j, nc) == k;
      assert m[i, j] == data[Flat(i, j, nc)];
    }
  }

  /** The values present in a sequence of cells, in order. */
  function Present(cells: seq<Option<real>>): (vals: seq<real>)
    ensures |vals| <= |cells|
    decreases |cells|
  {
    if cells == [] then []
    else
      var n := |cells| - 1;
      Present(cells[..n]) + (if cells[n].Some? then [cells[n].value] else [])
  }

  /** No value is present exactly when every cell is empty; the values are those of the present cells. */
  lemma {:induction false} PresentValues(cells: seq<Option<real>>)
    ensures Present(cells) == [] <==> forall j :: 0 <= j < |cells| ==> cells[j].None?
    ensures forall x :: x in Present(cells) <==> Some(x) in cells
    decreases |cells|
  {
    if cells != [] {
      var n := |cells| - 1;
      PresentValues(cells[..n]);
      assert forall j :: 0 <= j < n ==> cells[..n][j] == cells[j];
      assert cells == cells[..n] + [cells[n]];
    }
  }

  /** One more cell appends its value, if present. */
  lemma PresentStep(cells: seq<Option<real>>, n: int)
    requires 0 <= n < |cells|
    ensures Present(cells[..n + 1]) == Present(cells[..n]) + (if cells[n].Some? then [cells[n].value] else [])
  {
    assert cells[..n + 1][..n] == cells[..n];
  }

  /**
   * The first loop of `getRank` (lines 234-239): the present values of the
   * row, in column order, at the front of an array as long as the row.
   */
  method CollectPresent(matrix: array2<Option<real>>, row: int, ghost cells: seq<Option<real>>)
    returns (tData: array<real>, nVals: int)
    requires 0 <= row < matrix.Length0 && |cells| == matrix.Length1
    requires forall j :: 0 <= j < |cells| ==> cells[j] == matrix[row, j]
    ensures tData.Length == matrix.Length1 && 0 <= nVals <= tData.Length
    ensures tData[..nVals] == Present(cells)
  {
    tData := new real[matrix.Length1];
    nVals := 0;
    for column := 0 to matrix.Length1
      invariant 0 <= nVals <= column
      invariant tData[..nVals] == Present(cells[..column])
    {
      PresentStep(cells, column);
      if matrix[row, column] != None {
        ghost var before := tData[..nVals];
        tData[nVals] := matrix[row, column].value;
        assert tData[..nVals + 1] == before + [cells[column].value];
        nVals := nVals + 1;
      }
    }
    assert cells[..matrix.Length1] == cells;
  }

  /**
   * `setRowLabels` and `setColumnLabels` (lines 218-230): the labels of the
   * list go to the first positions of the label array, in order; the rest
   * keep their labels.
   */
  method SetLabels(labels: array<Option<string>>, labelList: seq<string>)
    requires |labelList| <= labels.Length
    modifies labels
    ensures forall i :: 0 <= i < |labelList| ==> labels[i] == Some(labelList[i])
    ensures forall i :: |labelList| <= i < labels.Length ==> labels[i] == old(labels[i])
  {
    for index := 0 to |labelList|
      invariant forall i :: 0 <= i < index ==> labels[i] == Some(labelList[i])
      invariant forall i :: index <= i < labels.Length ==> labels[i] == old(labels[i])
    {
      labels[index] := Some(labelList[index]);
    }
  }

  class BaseMatrix {
    var nRows: nat
    var nColumns: nat
    /** The cells; `None` is a missing value. */
    var matrix: array2<Option<real>>
    /** `null` until allocated. */
    var colWeights: array?<real>
    var rowWeights: array?<real>
    var maxAttribute: real
    var rowLabels: array<Option<string>>
    var columnLabels: array<Option<string>>
    var transpose: bool
    var symmetrical: bool

    ghost predicate Valid()
      reads this
    {
      && matrix.Length0 == nRows && matrix.Length1 == nColumns
      && (colWeights != null ==> colWeights.Length == nColumns)
      && (rowWeights != null ==> rowWeights.Length == nRows)
      && rowLabels.Length == nRows && columnLabels.Length == nColumns
    }

    /** The cells of one row, in column order. */
    ghost function RowCells(row: int): seq<Option<real>>
      reads this, matrix
      requires Valid() && 0 <= row < nRows
    {
      var m := matrix;
      seq(nColumns, j requires 0 <= j < m.Length1 reads m => m[row, j])
    }

    /**
     * `BaseMatrix(rows, cols)` with `init` (lines 78-80, 111-121): every cell
     * missing, every label null, every weight 1.0, not transposed.
     */
    constructor Init(rows: nat, cols: nat)
      ensures Valid() && nRows == rows && nColumns == cols
      ensures fresh(matrix) && fresh(rowLabels) && fresh(columnLabels) && fresh(colWeights) && fresh(rowWeights)
      ensures forall i, j :: 0 <= i < rows && 0 <= j < cols ==> matrix[i, j] == None
      ensures colWeights != null && forall c :: 0 <= c < cols ==> colWeights[c] == 1.0
      ensures rowWeights != null && forall r :: 0 <= r < rows ==> rowWeights[r] == 1.0
      ensures colWeights != rowWeights
      ensures (forall r :: 0 <= r < rows ==> rowLabels[r] == None) && (forall c :: 0 <= c < cols ==> columnLabels[c] == None)
      ensures !transpose && !symmetrical && maxAttribute == 0.0
      ensures rowLabels != columnLabels
    {
      nRows, nColumns := rows, cols;
      matrix := new Option<real>[rows, cols]((_, _) => None);
      colWeights := new real[cols](_ => 1.0);
      rowWeights := new real[rows](_ => 1.0);
      columnLabels := new Option<string>[cols](_ => None);
      rowLabels := new Option<string>[rows](_ => None);
      transpose, symmetrical := false, false;
      maxAttribute := 0.0;
    }

    /**
     * The allocation the `Matrix` constructors make themselves (Matrix.java
     * lines 107-111 and 147-153): every cell missing, every label null, every
     * weight 0.0, not transposed.
     */
    constructor Blank(rows: nat, cols: nat)
      ensures Valid() && nRows == rows && nColumns == cols
      ensures fresh(matrix) && fresh(rowLabels) && fresh(columnLabels) && fresh(colWeights) && fresh(rowWeights)
      ensures forall i, j :: 0 <= i < rows && 0 <= j < cols ==> matrix[i, j] == None
      ensures colWeights != null && forall c :: 0 <= c < cols ==> colWeights[c] == 0.0
      ensures rowWeights != null && forall r :: 0 <= r < rows ==> rowWeights[r] == 0.0
      ensures colWeights != rowWeights
      ensures (forall r :: 0 <= r < rows ==> rowLabels[r] == None) && (forall c :: 0 <= c < cols ==> columnLabels[c] == None)
      ensures !transpose && !symmetrical && maxAttribute == 0.0
      ensures rowLabels != columnLabels
    {
      nRows, nColumns := rows, cols;
      matrix := new Option<real>[rows, cols]((_, _) => None);
      colWeights := new real[cols](_ => 0.0);
      rowWeights := new real[rows](_ => 0.0);
      columnLabels := new Option<string>[cols](_ => None);
      rowLabels := new Option<string>[rows](_ => None);
      transpose, symmetrical := false, false;
      maxAttribute := 0.0;
    }

    /**
     * The table and labels `buildGeneArrayMatrix` allocates (Matrix.java
     * lines 303-308 and 330-335); the weights are left null.
     */
    constructor Unweighted(rows: nat, cols: nat)
      ensures Valid() && nRows == rows && nColumns == cols
      ensures fresh(matrix) && fresh(rowLabels) && fresh(columnLabels)
      ensures forall i, j :: 0 <= i < rows && 0 <= j < cols ==> matrix[i, j] == None
      ensures colWeights == null && rowWeights == null
      ensures (forall r :: 0 <= r < rows ==> rowLabels[r] == None) && (forall c :: 0 <= c < cols ==> columnLabels[c] == None)
      ensures !transpose && !symmetrical && maxAttribute == 0.0
      ensures rowLabels != columnLabels
    {
      nRows, nColumns := rows, cols;
      matrix := new Option<real>[rows, cols]((_, _) => None);
      colWeights, rowWeights := null, null;
      columnLabels := new Option<string>[cols](_ => None);
      rowLabels := new Option<string>[rows](_ => None);
      transpose, symmetrical := false, false;
      maxAttribute := 0.0;
    }

    /**
     * `BaseMatrix(rows, cols, data)` (lines 88-109): the table sized by
     * `ConformDims`, then filled in row-major order; every element of data
     * lands in exactly the cell of its position.
     */
    static method FromData(rows: int, cols: int, data: seq<Option<real>>) returns (r: Result<BaseMatrix, DimError>)
      ensures r.Err? <==> ConformDims(rows, cols, |data|).Err?
      ensures r.Err? ==> r.error == ConformDims(rows, cols, |data|).error
      ensures r.Ok? ==>
        var b := r.value;
        var dims := ConformDims(rows, cols, |data|).value;
        && fresh(b) && b.Valid() && b.nRows == dims.0 && b.nColumns == dims.1
        && RowMajorOf(b.matrix, data) && EveryPositionPlaced(b.matrix, data)
        && b.colWeights != null && (forall c :: 0 <= c < b.nColumns ==> b.colWeights[c] == 1.0)
        && b.rowWeights != null && (forall c :: 0 <= c < b.nRows ==> b.rowWeights[c] == 1.0)
        && !b.transpose
    {
      var dims := ConformDims(rows, cols, |data|);
      if dims.Err? {
        return Err(dims.error);
      }
      var nr, nc := dims.value.0, dims.value.1;
      var b := new BaseMatrix.Init(nr, nc);
      FillRowMajor(b.matrix, data);
      AllPlaced(b.matrix, data);
      return Ok(b);
    }

    /** `getValue` (lines 127-129). */
    function GetValue(row: int, column: int): Option<real>
      reads this, matrix
      requires Valid() && 0 <= row < nRows && 0 <= column < nColumns
    {
      matrix[row, column]
    }

    /** `hasValue` (lines 145-149): the cell holds a value exactly when `getValue` is not null. */
    function HasValue(row: int, column: int): (r: bool)
      reads this, matrix
      requires Valid() && 0 <= row < nRows && 0 <= column < nColumns
      ensures r <==> GetValue(row, column).Some?
    {
      matrix[row, column] != None
    }

    /**
     * Both `setValue` overloads (lines 137-143): the `double` one stores
     * `Some(v)`, the `Double` one may store null.
     */
    method SetValue(row: int, column: int, value: Option<real>)
      requires Valid() && 0 <= row < nRows && 0 <= column < nColumns
      modifies matrix
      ensures Valid() && GetValue(row, column) == value
      ensures HasValue(row, column) <==> value.Some?
      ensures forall i, j :: 0 <= i < nRows && 0 <= j < nColumns && (i, j) != (row, column) ==> matrix[i, j] == old(matrix[i, j])
    {
      matrix[row, column] := value;
    }

    /**
     * `setUniformWeights` (lines 151-158): both weight arrays are allocated if
     * either is null, then every weight becomes 1.0.
     */
    method SetUniformWeights()
      requires Valid()
      modifies this, colWeights, rowWeights
      ensures Valid() && colWeights != null && rowWeights != null
      ensures forall c :: 0 <= c < nColumns ==> colWeights[c] == 1.0
      ensures forall r :: 0 <= r < nRows ==> rowWeights[r] == 1.0
      ensures old(colWeights) != null && old(rowWeights) != null ==> colWeights == old(colWeights) && rowWeights == old(rowWeights)
      ensures old(colWeights) == null || old(rowWeights) == null ==> fresh(colWeights) && fresh(rowWeights)
      ensures nRows == old(nRows) && nColumns == old(nColumns) && matrix == old(matrix)
      ensures rowLabels == old(rowLabels) && columnLabels == old(columnLabels)
      ensures transpose == old(transpose) && symmetrical == old(symmetrical) && maxAttribute == old(maxAttribute)
    {
      if colWeights == null || rowWeights == null {
        colWeights := new real[nColumns];
        rowWeights := new real[nRows];
      }
      var cw, rw := colWeights, rowWeights;
      for c := 0 to nColumns
        invariant forall c' :: 0 <= c' < c ==> cw[c'] == 1.0
        modifies cw
      {
        cw[c] := 1.0;
      }
      for r := 0 to nRows
        invariant forall r' :: 0 <= r' < r ==> rw[r'] == 1.0
        invariant forall c :: 0 <= c < nColumns ==> cw[c] == 1.0
        modifies rw
      {
        rw[r] := 1.0;
      }
    }

    /**
     * `getRank` (lines 232-264): null for a row without values; otherwise the
     * mid-rank of every present value among the present values, indexed by
     * its position among them in column order.
     */
    method GetRank(row: int) returns (rank: array?<real>)
      requires Valid() && 0 <= row < nRows
      ensures rank == null <==> forall column :: 0 <= column < nColumns ==> matrix[row, column].None?
      ensures rank != null ==>
        var vals := Present(RowCells(row));
        rank.Length == |vals| && forall p :: 0 <= p < |vals| ==> rank[p] == MidRank(vals, p)
    {
      var tData, nVals := CollectPresent(matrix, row, RowCells(row));
      PresentValues(RowCells(row));
      if nVals == 0 {
        return null;
      }
      var data := tData[..];
      assert data[..nVals] == tData[..nVals];
      rank := TieCorrectedRanks(data, nVals);
    }

    /**
     * `getDistanceMatrix(metric)` (lines 266-278): an nRows × nRows table
     * holding the metric of each pair of rows taken in increasing order, so
     * the table is symmetric. The metric is a parameter.
     */
    method GetDistanceMatrix(metric: (int, int) -> real) returns (result: array2<real>)
      requires Valid()
      ensures result.Length0 == nRows && result.Length1 == nRows
      ensures forall i, j :: 0 <= i <= j < nRows ==> result[i, j] == metric(i, j)
      ensures forall i, j :: 0 <= i < nRows && 0 <= j < nRows ==> result[i, j] == result[j, i]
    {
      var n := nRows;
      result := new real[n, n];
      for row := 0 to n
        invariant forall i, j :: 0 <= i < row && i <= j < n ==> result[i, j] == metric(i, j) && result[j, i] == metric(i, j)
      {
        for column := row to n
          invariant forall i, j :: 0 <= i < row && i <= j < n ==> result[i, j] == metric(i, j) && result[j, i] == metric(i, j)
          invariant forall j :: row <= j < column ==> result[row, j] == metric(row, j) && result[j, row] == metric(row, j)
        {
          result[row, column] := metric(row, column);
          if row != column {
            result[column, row] := result[row, column];
          }
        }
      }
    }

    /** `setMissingToZero` (lines 317-324): every missing value becomes 0.0, present ones stay. */
    method SetMissingToZero()
      requires Valid()
      modifies matrix
      ensures Valid()
      ensures forall i, j :: 0 <= i < nRows && 0 <= j < nColumns ==>
        matrix[i, j] == if old(matrix[i, j]).None? then Some(0.0) else old(matrix[i, j])
    {
      for row := 0 to nRows
        invariant forall i, j :: 0 <= i < nRows && 0 <= j < nColumns ==>
          matrix[i, j] == if i < row && old(matrix[i, j]).None? then Some(0.0) else old(matrix[i, j])
      {
        for col := 0 to nColumns
          invariant forall i, j :: 0 <= i < nRows && 0 <= j < nColumns ==>
            matrix[i, j] == if (i < row || (i == row && j < col)) && old(matrix[i, j]).None? then Some(0.0) else old(matrix[i, j])
        {
          if matrix[row, col] == None {
            matrix[row, col] := Some(0.0);
          }
        }
      }
    }

    /**
     * `adjustDiagonals` (lines 326-330): the first nColumns diagonal cells
     * become maxAttribute; the loop runs over the columns, so the table needs
     * at least as many rows.
     */
    method AdjustDiagonals()
      requires Valid() && nColumns <= nRows
      modifies matrix
      ensures Valid()
      ensures forall i, j :: 0 <= i < nRows && 0 <= j < nColumns ==>
        matrix[i, j] == if i == j then Some(maxAttribute) else old(matrix[i, j])
    {
      for col := 0 to nColumns
        invariant forall i, j :: 0 <= i < nRows && 0 <= j < nColumns ==>
          matrix[i, j] == if i == j && j < col then Some(maxAttribute) else old(matrix[i, j])
      {
        matrix[col, col] := Some(maxAttribute);
      }
    }
  }
}
