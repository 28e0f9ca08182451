/** The augmented matrix's storage and its three row operations
    (GaussianElimination/Math.cs:244-313, 355-374).

    A matrix is a sequence of rows of fractions. The row operations are written
    as recursions over the column index, one call per iteration of the source's
    `for (var c = 0; c < NofColumns; c++)` loops, and only ever visit the
    columns below the width `w` that `NofColumns` reports. */
module Rows {
  import opened Fractions

  type Row = seq<Fraction>
  type Grid = seq<Row>

  /** Every row has at least `w` cells, so that columns `0 .. w-1` exist. */
  predicate Fits(m: Grid, w: nat) {
    forall i :: 0 <= i < |m| ==> w <= |m[i]|
  }

  /** Every row has exactly `cols` cells: a `rows x cols` grid. */
  predicate Rectangular(m: Grid, cols: nat) {
    forall i :: 0 <= i < |m| ==> |m[i]| == cols
  }

  /** Same number of rows and the same length for each row. */
  predicate SameShape(a: Grid, b: Grid) {
    |a| == |b| && forall i :: 0 <= i < |a| ==> |a[i]| == |b[i]|
  }

  /** The cell update `this[d, c] += f * this[s, c]` of `AddRow`. */
  function AddMultiple(x: Fraction, f: Fraction, y: Fraction): (r: Fraction)
    ensures Value(r) == Value(x) + Value(f) * Value(y)
  {
    Add(x, Mul(f, y))
  }

  // ---------------------------------------------------------------------------
  // SwapRows (GaussianElimination/Math.cs:355-362)

  /** `SwapRows(d, s)`: in every column below `w` the cells of rows `d` and
      `s` are exchanged; every other cell, and the shape, stay as they were. */
  function SwapRows(m: Grid, d: nat, s: nat, w: nat): (r: Grid)
    requires d < |m| && s < |m| && Fits(m, w)
    ensures SameShape(r, m) && Fits(r, w)
    ensures forall i, c {:trigger r[i][c]} :: 0 <= i < |m| && 0 <= c < |m[i]| ==>
      r[i][c] == (if c < w && i == d then m[s][c]
                  else if c < w && i == s then m[d][c]
                  else m[i][c])
  {
    SwapFrom(m, d, s, 0, w)
  }

  /** Iterations `c .. w-1` of the swap loop. */
  function SwapFrom(m: Grid, d: nat, s: nat, c: nat, w: nat): (r: Grid)
    requires d < |m| && s < |m| && c <= w && Fits(m, w)
    ensures SameShape(r, m)
    ensures forall i, k {:trigger r[i][k]} :: 0 <= i < |m| && 0 <= k < |m[i]| ==>
      r[i][k] == (if c <= k < w && i == d then m[s][k]
                  else if c <= k < w && i == s then m[d][k]
                  else m[i][k])
    decreases w - c
  {
    if c == w then m
    else
      var t := m[d][c];
      var rowD: Row := m[d][c := m[s][c]];
      var m1 := m[d := rowD];
      var rowS: Row := m1[s][c := t];
      var m2 := m1[s := rowS];
      SwapFrom(m2, d, s, c + 1, w)
  }

  // ---------------------------------------------------------------------------
  // MultiplyRow (GaussianElimination/Math.cs:364-368)

  /** `MultiplyRow(r, f)`: every cell of row `row` below column `w` is
      multiplied by `f`; nothing else changes. */
  function MultiplyRow(m: Grid, row: nat, f: Fraction, w: nat): (r: Grid)
    requires row < |m| && Fits(m, w)
    ensures SameShape(r, m) && Fits(r, w)
    ensures forall i, c {:trigger r[i][c]} :: 0 <= i < |m| && 0 <= c < |m[i]| ==>
      r[i][c] == (if c < w && i == row then Mul(m[i][c], f) else m[i][c])
  {
    MultiplyFrom(m, row, f, 0, w)
  }

  /** Iterations `c .. w-1` of the scaling loop. */
  function MultiplyFrom(m: Grid, row: nat, f: Fraction, c: nat, w: nat): (r: Grid)
    requires row < |m| && c <= w && Fits(m, w)
    ensures SameShape(r, m)
    ensures forall i, k {:trigger r[i][k]} :: 0 <= i < |m| && 0 <= k < |m[i]| ==>
      r[i][k] == (if c <= k < w && i == row then Mul(m[i][k], f) else m[i][k])
    decreases w - c
  {
    if c == w then m
    else
      var scaled: Row := m[row][c := Mul(m[row][c], f)];
      MultiplyFrom(m[row := scaled], row, f, c + 1, w)
  }

  // ---------------------------------------------------------------------------
  // AddRow (GaussianElimination/Math.cs:370-374)

  /** `AddRow(d, f, s)`: `f` times row `s` is added to row `d` in every column
      below `w`. Only row `d` changes; in particular the source row `s` is left
      as it was when `d != s`. */
  function AddRow(m: Grid, d: nat, f: Fraction, s: nat, w: nat): (r: Grid)
    requires d < |m| && s < |m| && Fits(m, w)
    ensures SameShape(r, m) && Fits(r, w)
    ensures forall i, c {:trigger r[i][c]} :: 0 <= i < |m| && 0 <= c < |m[i]| ==>
      r[i][c] == (if c < w && i == d then AddMultiple(m[d][c], f, m[s][c]) else m[i][c])
  {
    AddFrom(m, d, f, s, 0, w)
  }

  /** Iterations `c .. w-1` of the row-addition loop. Each iteration reads
      cell `(s, c)` before writing cell `(d, c)`, so even `d == s` only ever
      reads cells that are not yet updated. */
  function AddFrom(m: Grid, d: nat, f: Fraction, s: nat, c: nat, w: nat): (r: Grid)
    requires d < |m| && s < |m| && c <= w && Fits(m, w)
    ensures SameShape(r, m)
    ensures forall i, k {:trigger r[i][k]} :: 0 <= i < |m| && 0 <= k < |m[i]| ==>
      r[i][k] == (if c <= k < w && i == d then AddMultiple(m[d][k], f, m[s][k]) else m[i][k])
    decreases w - c
  {
    if c == w then m
    else
      var updated: Row := m[d][c := AddMultiple(m[d][c], f, m[s][c])];
      AddFrom(m[d := updated], d, f, s, c + 1, w)
  }
}
