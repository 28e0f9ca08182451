/** The `Matrix` class (GaussianElimination/Math.cs:244-376): a fully
    populated two-dimensional array of fractions, its reported dimensions, its
    indexer and `Eliminate`.

    `NofColumns` reports `matrix.GetLength(0)`, which is the number of rows,
    so `Eliminate` and the row operations work with width `NofRows` whatever
    the real number of columns is. `EliminateAsWritten` models that;
    `EliminateIntended` uses the real column count, `GetLength(1)`. */
module Matrices {
  import opened Fractions
  import opened Rows
  import opened Elimination
  import opened Solutions
  import Numbers

  /** A `Fraction[,]`: its cells row by row, and its length in dimension 1. */
  datatype Array2 = Array2(cells: Grid, cols: nat)

  /** A matrix whose every cell holds a fraction: a `Matrix(Fraction[,])` of
      a fully populated array, or a `Matrix(int, int)` after every cell has
      been written through the indexer. */
  type Matrix = a: Array2 | Rectangular(a.cells, a.cols) witness Array2([], 0)

  // ---------------------------------------------------------------------------
  // Dimensions (GaussianElimination/Math.cs:256-271)

  /** `NofRows`: `GetLength(0)`, the range of the indexer's first argument;
      every row below it has `GetLength(1)` cells. */
  function NofRows(m: Matrix): (n: nat)
    ensures n == |m.cells|
    ensures forall i :: 0 <= i < n ==> |m.cells[i]| == m.cols
  {
    |m.cells|
  }

  /** `NofColumns`, as written: `GetLength(0)` again, the number of rows. */
  function NofColumns(m: Matrix): (n: nat)
    ensures n == NofRows(m)
  {
    |m.cells|
  }

  /** `NofVariables`: one less than `NofColumns`, so `-1` for an empty matrix. */
  function NofVariables(m: Matrix): (n: int)
    ensures n == NofColumns(m) - 1
  {
    |m.cells| - 1
  }

  // ---------------------------------------------------------------------------
  // The indexer (GaussianElimination/Math.cs:309-312)

  /** `this[row, col]` read. */
  function Get(m: Matrix, row: nat, col: nat): (v: Fraction)
    requires row < NofRows(m) && col < m.cols
  {
    m.cells[row][col]
  }

  /** Reading a cell and writing it back changes nothing, and a write is
      read back as written. */
  lemma IndexerRoundTrip(m: Matrix, row: nat, col: nat, v: Fraction)
    requires row < NofRows(m) && col < m.cols
    ensures Set(m, row, col, Get(m, row, col)) == m
    ensures Get(Set(m, row, col, v), row, col) == v
  {
    var r := Set(m, row, col, Get(m, row, col));
    assert r.cells[row] == m.cells[row];
    assert r.cells == m.cells;
  }

  /** `this[row, col] = v`: the one cell now reads `v`; the dimensions and
      every other cell are unchanged. */
  function Set(m: Matrix, row: nat, col: nat, v: Fraction): (r: Matrix)
    requires row < NofRows(m) && col < m.cols
    ensures NofRows(r) == NofRows(m) && r.cols == m.cols
    ensures Get(r, row, col) == v
    ensures forall i, c :: 0 <= i < NofRows(m) && 0 <= c < m.cols && (i, c) != (row, col) ==>
      Get(r, i, c) == Get(m, i, c)
  {
    var updated: Row := m.cells[row][col := v];
    Array2(m.cells[row := updated], m.cols)
  }

  // ---------------------------------------------------------------------------
  // Eliminate (GaussianElimination/Math.cs:320-353)

  /** `Eliminate` as written: width `NofColumns`, which is `NofRows`. Grids
      narrower than they are tall are outside the model (the source indexes
      past the last column on them).

      The result has the same dimensions; the fired columns are strictly
      ascending and below both `NofVariables` and `NofRows`; each fired column
      is a unit column and every other visited column is zero from the
      diagonal down; and no cell in column `NofRows` or beyond is ever
      changed, which includes the right-hand side when the array has more
      columns than rows. */
  function EliminateAsWritten(m: Matrix): (r: Run)
    requires NofRows(m) <= m.cols
    ensures |r.grid| == NofRows(m) && Rectangular(r.grid, m.cols)
    ensures forall k :: 0 <= k < |r.fired| ==> r.fired[k] < NofVariables(m) && r.fired[k] < NofRows(m)
    ensures forall k, l :: 0 <= k < l < |r.fired| ==> r.fired[k] < r.fired[l]
    ensures ColumnsReduced(r.grid, 0, Limit(m.cells, NofRows(m)), r.fired)
    ensures forall i, c :: 0 <= i < NofRows(m) && NofRows(m) <= c < m.cols ==> r.grid[i][c] == m.cells[i][c]
  {
    hide Normalize, Numbers.Quot, Numbers.Gcd, Value, IsQuotient, IsDifference, EliminateColumn, PivotOn, EliminateFrom;
    var w := NofColumns(m);
    RunReduces(m.cells, 0, w);
    RunKeepsWideColumns(m.cells, 0, w);
    EliminateFrom(m.cells, 0, w)
  }

  /** `Eliminate` with the width it evidently means, the real column count:
      the loop visits every variable column, and the row operations reach the
      right-hand side. Same guarantees on shape, trace and reduced columns. */
  function EliminateIntended(m: Matrix): (r: Run)
    ensures |r.grid| == NofRows(m) && Rectangular(r.grid, m.cols)
    ensures forall k :: 0 <= k < |r.fired| ==> r.fired[k] < m.cols - 1 && r.fired[k] < NofRows(m)
    ensures forall k, l :: 0 <= k < l < |r.fired| ==> r.fired[k] < r.fired[l]
    ensures ColumnsReduced(r.grid, 0, Limit(m.cells, m.cols), r.fired)
  {
    hide Normalize, Numbers.Quot, Numbers.Gcd, Value, IsQuotient, IsDifference, EliminateColumn, PivotOn, EliminateFrom;
    RunReduces(m.cells, 0, m.cols);
    EliminateFrom(m.cells, 0, m.cols)
  }

  /** With the intended width, elimination keeps the solution set of the
      system the matrix stands for: `x` solves the reduced system exactly
      when it solves the original one. */
  lemma IntendedPreservesSolutions(m: Matrix, x: seq<real>)
    requires 1 <= m.cols && |x| == m.cols - 1
    ensures Solves(EliminateIntended(m).grid, x, m.cols) <==> Solves(m.cells, x, m.cols)
  {
    hide Normalize, Numbers.Quot, Numbers.Gcd, Value, IsQuotient, IsDifference, EliminateColumn, PivotOn, EliminateFrom, Solves;
    RunPreservesSolutions(m.cells, 0, m.cols, x);
  }

  /** Eliminating a second time changes nothing and fires the same columns
      again, with either width. */
  lemma EliminateIdempotent(m: Matrix)
    ensures var r := EliminateIntended(m);
      EliminateIntended(Array2(r.grid, m.cols)) == r
    ensures NofRows(m) <= m.cols ==>
      var r := EliminateAsWritten(m);
      EliminateAsWritten(Array2(r.grid, m.cols)) == r
  {
    hide Normalize, Numbers.Quot, Numbers.Gcd, Value, IsQuotient, IsDifference, EliminateColumn, PivotOn, EliminateFrom;
    Idempotent(m.cells, 0, m.cols);
    if NofRows(m) <= m.cols {
      Idempotent(m.cells, 0, NofRows(m));
    }
  }
}
