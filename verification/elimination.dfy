/** `Matrix.Eliminate`: Gauss-Jordan row reduction over fractions
    (GaussianElimination/Math.cs:320-353).

    The source mutates its grid in place and raises a column-completed event
    after every column it pivots on. Here a column step maps a grid to a new
    grid, and the whole elimination returns the final grid together with the
    trace of columns whose event fired, in firing order.

    Every operation is parameterised by the width `w` that `NofColumns`
    reports: the row loops visit columns `0 .. w-1` and the column loop runs
    while `rc < w - 1` (`NofVariables`) and `rc < |m|` (`NofRows`).

    The grid-level proofs below open with `hide` lists. Those proofs reason
    only about which cells change and which stay; the value of a changed cell
    is reached through the per-cell predicates `IsQuotient` and `IsDifference`.
    Hiding the fraction arithmetic (and the steps a proof does not unfold)
    keeps the solver from expanding gcds and real divisions for every cell of
    every row. */
module Elimination {
  import opened Fractions
  import opened Rows
  import Numbers

  /** Column `k` is a unit column: 1 on the diagonal, 0 in every other row. */
  predicate UnitColumn(g: Grid, k: nat)
    requires Fits(g, k + 1)
  {
    k < |g| && g[k][k] == One && forall i :: 0 <= i < |g| && i != k ==> g[i][k] == Zero
  }

  /** Column `k` holds 0 on the diagonal and in every row below it. */
  predicate ZeroFromDiagonal(g: Grid, k: nat)
    requires Fits(g, k + 1)
  {
    forall i :: k <= i < |g| ==> g[i][k] == Zero
  }

  // ---------------------------------------------------------------------------
  // Scanning a column (GaussianElimination/Math.cs:325-327, 333-334)

  /** The first row at or after `from` whose entry in column `col` is not zero,
      or `|m|` if there is none. `this[r, c] != 0` converts the literal 0 to the
      fraction 0/1 and compares components, so the test is `!= Zero`. */
  function FirstNonZero(m: Grid, col: nat, from: nat): (p: nat)
    requires from <= |m| && Fits(m, col + 1)
    ensures from <= p <= |m|
    ensures p < |m| ==> m[p][col] != Zero
    ensures forall k :: from <= k < p ==> m[k][col] == Zero
    decreases |m| - from
  {
    if from == |m| then from
    else if m[from][col] != Zero then from
    else FirstNonZero(m, col, from + 1)
  }

  // ---------------------------------------------------------------------------
  // Normalising the pivot row and clearing the column (Math.cs:342-349)

  /** `1 / this[rc, rc]`: the reciprocal of a non-zero pivot. */
  function Reciprocal(p: Fraction): (r: Fraction)
    requires p != Zero
    ensures IsQuotient(r, One, p)
  {
    ZeroIffValueZero(p);
    ZeroAndOne();
    Div(One, p).value
  }

  /** `-this[j, rc] / this[rc, rc]`: the multiple of the pivot `p` that
      cancels the entry `a` of another row. */
  function ClearFactor(a: Fraction, p: Fraction): (f: Fraction)
    requires p != Zero
    ensures Value(f) * Value(p) == -Value(a)
  {
    ZeroIffValueZero(p);
    Div(Neg(a), p).value
  }

  /** The loop `for (var j = 0; j < NofRows; j++)` from row `j` on: every row
      other than the pivot row `rc` gets `ClearFactor` times the pivot row
      added to it. The pivot row itself and the rows before `j` are kept. */
  function ClearColumn(g: Grid, rc: nat, j: nat, w: nat): (r: Grid)
    requires rc < |g| && rc < w && j <= |g| && Fits(g, w) && g[rc][rc] != Zero
    ensures SameShape(r, g)
    ensures forall i, c {:trigger r[i][c]} :: 0 <= i < |g| && 0 <= c < |g[i]| ==>
      r[i][c] == (if j <= i && i != rc && c < w
                  then AddMultiple(g[i][c], ClearFactor(g[i][rc], g[rc][rc]), g[rc][c])
                  else g[i][c])
    decreases |g| - j
  {
    if j == |g| then g
    else if j == rc then ClearColumn(g, rc, j + 1, w)
    else
      var next := AddRow(g, j, ClearFactor(g[j][rc], g[rc][rc]), rc, w);
      assert forall i :: 0 <= i < |g| && i != j ==> next[i] == g[i];
      ClearColumn(next, rc, j + 1, w)
  }

  /** Below column `w`, the new pivot row `r[rc]` is the old one divided by
      the old pivot `m[rc][rc]`. */
  predicate PivotRowDivided(m: Grid, r: Grid, rc: nat, w: nat)
    requires rc < |m| && rc < w && Fits(m, w) && SameShape(r, m)
  {
    forall c :: 0 <= c < w ==> IsQuotient(r[rc][c], m[rc][c], m[rc][rc])
  }

  /** Below column `w`, every other row `i` has lost `m[i][rc]` times the new
      pivot row. */
  predicate OtherRowsCleared(m: Grid, r: Grid, rc: nat, w: nat)
    requires rc < |m| && rc < w && Fits(m, w) && SameShape(r, m)
  {
    forall i, c :: 0 <= i < |m| && i != rc && 0 <= c < w ==>
      IsDifference(r[i][c], m[i][c], m[i][rc], r[rc][c])
  }

  /** `y` is `x / p`. */
  predicate IsQuotient(y: Fraction, x: Fraction, p: Fraction) {
    Value(y) * Value(p) == Value(x)
  }

  /** `z` is `x - a * y`. */
  predicate IsDifference(z: Fraction, x: Fraction, a: Fraction, y: Fraction) {
    Value(z) == Value(x) - Value(a) * Value(y)
  }

  /** Steps 3 and 4 for a non-zero pivot at `(rc, rc)`: scale the pivot row by
      the pivot's reciprocal, then clear column `rc` in every other row. The
      pivot row ends up divided by the pivot, and every other row loses the
      multiple of the new pivot row that zeroes its entry in column `rc`. */
  function PivotOn(m: Grid, rc: nat, w: nat): (r: Grid)
    requires rc < |m| && rc < w && Fits(m, w) && m[rc][rc] != Zero
    ensures SameShape(r, m) && Fits(r, w)
    ensures UnitColumn(r, rc)
    ensures PivotRowDivided(m, r, rc, w) && OtherRowsCleared(m, r, rc, w)
    ensures forall i, c :: 0 <= i < |m| && w <= c < |m[i]| ==> r[i][c] == m[i][c]
  {
    hide Normalize, Numbers.Quot, Numbers.Gcd;
    var inv := Reciprocal(m[rc][rc]);
    var scaled := MultiplyRow(m, rc, inv, w);
    ScaledPivot(m, rc, w, inv, scaled);
    var r := ClearColumn(scaled, rc, 0, w);
    PivotOnValues(m, rc, w, inv, scaled, r);
    r
  }

  lemma PivotOnValues(m: Grid, rc: nat, w: nat, inv: Fraction, scaled: Grid, r: Grid)
    requires rc < |m| && rc < w && Fits(m, w) && m[rc][rc] != Zero
    requires inv == Reciprocal(m[rc][rc])
    requires scaled == MultiplyRow(m, rc, inv, w)
    requires scaled[rc][rc] == One
    requires r == ClearColumn(scaled, rc, 0, w)
    ensures SameShape(r, m)
    ensures UnitColumn(r, rc)
    ensures PivotRowDivided(m, r, rc, w) && OtherRowsCleared(m, r, rc, w)
  {
    hide ClearColumn, MultiplyRow, Reciprocal, Normalize, IsQuotient, IsDifference, Value;
    PivotCells(m, rc, w, inv, scaled, r, rc, rc);
    forall c | 0 <= c < w
      ensures IsQuotient(r[rc][c], m[rc][c], m[rc][rc])
    {
      PivotCells(m, rc, w, inv, scaled, r, rc, c);
      ScaledCell(m[rc][c], inv, m[rc][rc], r[rc][c]);
    }
    forall i, c | 0 <= i < |m| && i != rc && 0 <= c < w
      ensures IsDifference(r[i][c], m[i][c], m[i][rc], r[rc][c])
    {
      PivotCells(m, rc, w, inv, scaled, r, i, c);
      ClearedCell(m[i][c], m[i][rc], r[rc][c], r[i][c]);
    }
    forall i | 0 <= i < |r| && i != rc
      ensures r[i][rc] == Zero
    {
      PivotCells(m, rc, w, inv, scaled, r, i, rc);
      ClearedPivotColumn(m[i][rc], r[i][rc]);
    }
    assert PivotRowDivided(m, r, rc, w);
    assert OtherRowsCleared(m, r, rc, w);
  }

  /** Cell `(i, c)` after steps 3 and 4, in terms of the fraction operations. */
  lemma PivotCells(m: Grid, rc: nat, w: nat, inv: Fraction, scaled: Grid, r: Grid, i: nat, c: nat)
    requires rc < |m| && rc < w && Fits(m, w) && m[rc][rc] != Zero
    requires scaled == MultiplyRow(m, rc, inv, w)
    requires scaled[rc][rc] == One
    requires r == ClearColumn(scaled, rc, 0, w)
    requires i < |m| && c < w
    ensures SameShape(r, m)
    ensures r[rc][c] == Mul(m[rc][c], inv) && r[rc][rc] == One
    ensures i != rc ==> r[i][c] == AddMultiple(m[i][c], ClearFactor(m[i][rc], One), r[rc][c])
  {
    hide Value, Mul, AddMultiple, ClearFactor, Reciprocal, Normalize;
  }

  /** After step 3 the pivot is exactly 1. */
  lemma ScaledPivot(m: Grid, rc: nat, w: nat, inv: Fraction, scaled: Grid)
    requires rc < |m| && rc < w && Fits(m, w) && m[rc][rc] != Zero
    requires inv == Reciprocal(m[rc][rc])
    requires scaled == MultiplyRow(m, rc, inv, w)
    ensures scaled[rc][rc] == One
  {
    hide Value, Normalize, Numbers.Quot, Reciprocal;
    PivotBecomesOne(m[rc][rc], inv, scaled[rc][rc]);
  }

  /** Multiplying the pivot by its reciprocal gives exactly the fraction 1. */
  lemma PivotBecomesOne(p: Fraction, inv: Fraction, y: Fraction)
    requires IsQuotient(inv, One, p) && y == Mul(p, inv)
    ensures y == One
  {
    hide Normalize, Numbers.Quot, Numbers.Gcd;
    ZeroAndOne();
    assert Value(y) == Value(p) * Value(inv);
    ValueInjective(y, One);
  }

  /** A cell of the scaled pivot row, times the pivot, is the original cell. */
  lemma ScaledCell(x: Fraction, inv: Fraction, p: Fraction, y: Fraction)
    requires IsQuotient(inv, One, p) && y == Mul(x, inv)
    ensures IsQuotient(y, x, p)
  {
    hide Normalize, Numbers.Quot, Numbers.Gcd;
    ZeroAndOne();
    assert Value(y) == Value(x) * Value(inv);
    assert Value(y) * Value(p) == Value(x) * (Value(inv) * Value(p));
  }

  /** A cleared cell: the row's entry `a` in the pivot column, cancelled
      against the unit pivot, times the new pivot row's cell `y`, is taken
      away from the cell `x`. */
  lemma ClearedCell(x: Fraction, a: Fraction, y: Fraction, z: Fraction)
    requires z == AddMultiple(x, ClearFactor(a, One), y)
    ensures IsDifference(z, x, a, y)
  {
    hide Normalize, Numbers.Quot, Numbers.Gcd, Mul, Add, AddMultiple, ClearFactor, Div, Neg;
    ZeroAndOne();
    var f := ClearFactor(a, One);
    assert Value(f) == -Value(a);
    assert Value(z) == Value(x) + Value(f) * Value(y);
  }

  /** In the pivot column the cleared cell is exactly 0. */
  lemma ClearedPivotColumn(a: Fraction, z: Fraction)
    requires z == AddMultiple(a, ClearFactor(a, One), One)
    ensures z == Zero
  {
    ZeroAndOne();
    ClearedCell(a, a, One, z);
    ZeroIffValueZero(z);
  }

  // ---------------------------------------------------------------------------
  // One iteration of the column loop (Math.cs:322-352)

  /** What one iteration does to the grid: nothing (the column was skipped and
      no event fires), or a new grid (the column was pivoted on and its event
      fires). */
  datatype Column = Skipped | Pivoted(grid: Grid)

  /** The body of the column loop for column `rc`:
      1. skip the column if it is zero in every row;
      2. if the pivot `(rc, rc)` is zero, swap in the first row below it with a
         non-zero entry in the column, or skip the column if there is none;
      3.-4. scale the pivot row and clear the column (`PivotOn`). */
  function EliminateColumn(m: Grid, rc: nat, w: nat): (r: Column)
    requires rc < |m| && rc + 1 < w && Fits(m, w)
    ensures r.Skipped? <==> ZeroFromDiagonal(m, rc)
    ensures r.Pivoted? ==> SameShape(r.grid, m) && Fits(r.grid, w) && UnitColumn(r.grid, rc)
  {
    hide Normalize, Numbers.Quot, Numbers.Gcd, Value, IsQuotient, IsDifference, Reciprocal, ClearFactor, Mul, Add, AddMultiple, Div, Neg, SwapRows, MultiplyRow, ClearColumn, PivotOn;
    if FirstNonZero(m, rc, 0) == |m| then Skipped
    else if m[rc][rc] == Zero then
      var p := FirstNonZero(m, rc, rc + 1);
      if p == |m| then Skipped
      else Pivoted(PivotOn(SwapRows(m, rc, p, w), rc, w))
    else Pivoted(PivotOn(m, rc, w))
  }

  // ---------------------------------------------------------------------------
  // The column loop

  /** The final grid and the columns whose completion event fired, in order. */
  datatype Run = Run(grid: Grid, fired: seq<nat>)

  /** The loop condition `rc < NofVariables && rc < NofRows`, where
      `NofVariables` is `NofColumns - 1` and `NofColumns` is `w`. */
  predicate InLoop(m: Grid, rc: nat, w: nat) {
    rc < w - 1 && rc < |m|
  }


  /** Iterations `rc, rc+1, ...` of the column loop. */
  function EliminateFrom(m: Grid, rc: nat, w: nat): (r: Run)
    requires Fits(m, w)
    ensures SameShape(r.grid, m) && Fits(r.grid, w)
    ensures Ascending(r.fired, rc, Limit(m, w))
    decreases |m| - rc
  {
    hide EliminateColumn, PivotOn, SwapRows, Normalize, Numbers.Quot, Numbers.Gcd;
    if !InLoop(m, rc, w) then Run(m, [])
    else
      var step := EliminateColumn(m, rc, w);
      if step.Skipped? then
        var rest := EliminateFrom(m, rc + 1, w);
        WidenAscending(rest.fired, rc, Limit(m, w));
        rest
      else
        var g := step.grid;
        assert SameShape(g, m) && Fits(g, w);
        var rest := EliminateFrom(g, rc + 1, w);
        PrependAscending(rc, rest.fired, Limit(m, w));
        Run(rest.grid, [rc] + rest.fired)
  }

  /** The number of iterations the column loop can run: `min(w - 1, |m|)`. */
  function Limit(m: Grid, w: nat): nat {
    if w == 0 then 0 else if w - 1 < |m| then w - 1 else |m|
  }

  /** `s` is strictly ascending and every element lies in `lo .. hi-1`. */
  predicate Ascending(s: seq<nat>, lo: nat, hi: int) {
    && (forall k :: 0 <= k < |s| ==> lo <= s[k] < hi)
    && (forall k, l :: 0 <= k < l < |s| ==> s[k] < s[l])
  }

  lemma WidenAscending(s: seq<nat>, lo: nat, hi: int)
    requires Ascending(s, lo + 1, hi)
    ensures Ascending(s, lo, hi)
  {
  }

  lemma PrependAscending(x: nat, s: seq<nat>, hi: int)
    requires x < hi && Ascending(s, x + 1, hi)
    ensures Ascending([x] + s, x, hi)
  {
    var t := [x] + s;
    forall k, l | 0 <= k < l < |t|
      ensures t[k] < t[l]
    {
      if k > 0 {
        assert t[k] == s[k - 1] && t[l] == s[l - 1];
      } else {
        assert t[l] == s[l - 1];
      }
    }
  }

  // ---------------------------------------------------------------------------
  // What the loop leaves behind

  /** Step 2 picks the first row at or below the diagonal with a non-zero
      entry in the column, and a pivoted step is `PivotOn` after swapping that
      row into place (swapping the pivot row with itself changes nothing). */
  lemma PivotedStep(m: Grid, rc: nat, w: nat)
    requires rc < |m| && rc + 1 < w && Fits(m, w)
    requires EliminateColumn(m, rc, w).Pivoted?
    ensures var p := FirstNonZero(m, rc, rc);
            p < |m| && m[p][rc] != Zero
    ensures var s := SwapRows(m, rc, FirstNonZero(m, rc, rc), w);
            s[rc][rc] != Zero && EliminateColumn(m, rc, w).grid == PivotOn(s, rc, w)
  {
    hide Normalize, Numbers.Quot, Numbers.Gcd, Value, IsQuotient, IsDifference, Reciprocal, ClearFactor, Mul, Add, AddMultiple, Div, Neg, MultiplyRow, ClearColumn, PivotOn;
    if m[rc][rc] != Zero {
      SwapSelf(m, rc, w);
    }
  }

  lemma SwapSelf(m: Grid, d: nat, w: nat)
    requires d < |m| && Fits(m, w)
    ensures SwapRows(m, d, d, w) == m
  {
    hide Normalize, Numbers.Quot, Numbers.Gcd;
    var s := SwapRows(m, d, d, w);
    assert forall i :: 0 <= i < |m| ==> s[i] == m[i] by {
      forall i | 0 <= i < |m|
        ensures s[i] == m[i]
      {
        assert forall c :: 0 <= c < |m[i]| ==> s[i][c] == m[i][c];
      }
    }
  }

  /** A column whose entry in the pivot row is zero survives steps 3 and 4
      untouched: the pivot row's entry stays zero, and every other row gets a
      multiple of that zero added to it. */
  lemma PivotKeepsColumn(s: Grid, rc: nat, w: nat, k: nat)
    requires rc < |s| && rc < w && k < w && Fits(s, w) && s[rc][rc] != Zero
    requires s[rc][k] == Zero
    ensures forall i :: 0 <= i < |s| ==> PivotOn(s, rc, w)[i][k] == s[i][k]
  {
    hide Normalize, Numbers.Quot, Numbers.Gcd, Value, IsQuotient, IsDifference;
    var r := PivotOn(s, rc, w);
    assert IsQuotient(r[rc][k], s[rc][k], s[rc][rc]);
    QuotientOfZero(r[rc][k], s[rc][rc]);
    forall i | 0 <= i < |s| && i != rc
      ensures r[i][k] == s[i][k]
    {
      assert IsDifference(r[i][k], s[i][k], s[i][rc], r[rc][k]);
      DifferenceWithZero(r[i][k], s[i][k], s[i][rc], r[rc][k]);
    }
  }

  /** A column that is zero in the pivot row and every row below it comes out
      of a column step unchanged, whichever row step 2 swaps in. */
  lemma StepKeepsColumn(m: Grid, rc: nat, w: nat, k: nat)
    requires rc < |m| && rc + 1 < w && Fits(m, w) && k < w
    requires forall i :: rc <= i < |m| ==> m[i][k] == Zero
    ensures EliminateColumn(m, rc, w).Pivoted? ==>
      forall i :: 0 <= i < |m| ==> EliminateColumn(m, rc, w).grid[i][k] == m[i][k]
  {
    hide Normalize, Numbers.Quot, Numbers.Gcd, EliminateColumn, PivotOn;
    if EliminateColumn(m, rc, w).Pivoted? {
      var p := FirstNonZero(m, rc, rc);
      PivotedStep(m, rc, w);
      var s := SwapRows(m, rc, p, w);
      assert forall i :: 0 <= i < |m| ==> s[i][k] == m[i][k];
      PivotKeepsColumn(s, rc, w, k);
    }
  }

  /** The same for the rest of the loop: a column that is zero from row `rc`
      down is never changed by iterations `rc, rc+1, ...`. */
  lemma {:induction false} RunKeepsColumn(m: Grid, rc: nat, w: nat, k: nat)
    requires Fits(m, w) && k < w
    requires forall i :: rc <= i < |m| ==> m[i][k] == Zero
    ensures forall i :: 0 <= i < |m| ==> EliminateFrom(m, rc, w).grid[i][k] == m[i][k]
    decreases |m| - rc
  {
    hide Normalize, Numbers.Quot, Numbers.Gcd, EliminateColumn, PivotOn;
    if InLoop(m, rc, w) {
      var step := EliminateColumn(m, rc, w);
      if step.Skipped? {
        RunKeepsColumn(m, rc + 1, w, k);
      } else {
        StepKeepsColumn(m, rc, w, k);
        RunKeepsColumn(step.grid, rc + 1, w, k);
      }
    }
  }

  /** A column step never touches a cell at or beyond the width `w`. */
  lemma StepKeepsWideColumns(m: Grid, rc: nat, w: nat)
    requires rc < |m| && rc + 1 < w && Fits(m, w)
    ensures EliminateColumn(m, rc, w).Pivoted? ==>
      forall i, c :: 0 <= i < |m| && w <= c < |m[i]| ==> EliminateColumn(m, rc, w).grid[i][c] == m[i][c]
  {
    hide Normalize, Numbers.Quot, Numbers.Gcd, Value, IsQuotient, IsDifference, EliminateColumn, PivotOn;
    if EliminateColumn(m, rc, w).Pivoted? {
      var p := FirstNonZero(m, rc, rc);
      PivotedStep(m, rc, w);
      var s := SwapRows(m, rc, p, w);
    }
  }

  /** Nor does the whole loop: when the grid is wider than `w`, columns `w`
      and beyond come out exactly as they went in. */
  lemma {:induction false} RunKeepsWideColumns(m: Grid, rc: nat, w: nat)
    requires Fits(m, w)
    ensures var r := EliminateFrom(m, rc, w);
      forall i, c :: 0 <= i < |m| && w <= c < |m[i]| ==> r.grid[i][c] == m[i][c]
    decreases |m| - rc
  {
    hide Normalize, Numbers.Quot, Numbers.Gcd, Value, IsQuotient, IsDifference, EliminateColumn, PivotOn;
    if InLoop(m, rc, w) {
      var step := EliminateColumn(m, rc, w);
      if step.Skipped? {
        RunKeepsWideColumns(m, rc + 1, w);
      } else {
        StepKeepsWideColumns(m, rc, w);
        RunKeepsWideColumns(step.grid, rc + 1, w);
      }
    }
  }

  /** Columns `lo .. hi-1` are in reduced form: a column whose event fired is
      a unit column, every other one is zero from the diagonal down. */
  predicate ColumnsReduced(g: Grid, lo: nat, hi: nat, fired: seq<nat>)
    requires Fits(g, hi)
  {
    forall k :: lo <= k < hi ==>
      && (k in fired ==> UnitColumn(g, k))
      && (k !in fired ==> ZeroFromDiagonal(g, k))
  }

  /** After the loop, every column it visited is in reduced form, and the
      completion event fired for exactly the unit columns. */
  lemma {:induction false} RunReduces(m: Grid, rc: nat, w: nat)
    requires Fits(m, w)
    ensures var r := EliminateFrom(m, rc, w);
            ColumnsReduced(r.grid, rc, Limit(m, w), r.fired)
    decreases |m| - rc
  {
    hide Normalize, Numbers.Quot, Numbers.Gcd, Value, IsQuotient, IsDifference, Reciprocal, ClearFactor, Mul, Add, AddMultiple, Div, Neg, SwapRows, MultiplyRow, ClearColumn, EliminateColumn, PivotOn;
    var r := EliminateFrom(m, rc, w);
    if InLoop(m, rc, w) {
      var step := EliminateColumn(m, rc, w);
      var g := if step.Skipped? then m else step.grid;
      var rest := EliminateFrom(g, rc + 1, w);
      assert r.grid == rest.grid;
      assert r.fired == (if step.Skipped? then [] else [rc]) + rest.fired;
      RunReduces(g, rc + 1, w);
      ColumnSettled(m, rc, w);
      forall k | rc < k < Limit(m, w)
        ensures (k in r.fired ==> UnitColumn(r.grid, k)) && (k !in r.fired ==> ZeroFromDiagonal(r.grid, k))
      {
        assert k in r.fired <==> k in rest.fired;
      }
    }
  }

  /** The column the loop is at ends up in reduced form, and its event fires
      exactly when the step pivots on it. Later iterations leave the column,
      in every row, as its own iteration left it. */
  lemma ColumnSettled(m: Grid, rc: nat, w: nat)
    requires Fits(m, w) && InLoop(m, rc, w)
    ensures var r := EliminateFrom(m, rc, w);
            && (rc in r.fired <==> EliminateColumn(m, rc, w).Pivoted?)
            && (rc in r.fired ==> UnitColumn(r.grid, rc))
            && (rc !in r.fired ==> ZeroFromDiagonal(r.grid, rc))
    ensures var r := EliminateFrom(m, rc, w);
            var step := EliminateColumn(m, rc, w);
            forall i :: 0 <= i < |m| ==> r.grid[i][rc] == (if step.Skipped? then m else step.grid)[i][rc]
  {
    hide Normalize, Numbers.Quot, Numbers.Gcd, Value, IsQuotient, IsDifference, Reciprocal, ClearFactor, Mul, Add, AddMultiple, Div, Neg, SwapRows, MultiplyRow, ClearColumn, EliminateColumn, PivotOn;
    var r := EliminateFrom(m, rc, w);
    var step := EliminateColumn(m, rc, w);
    var g := if step.Skipped? then m else step.grid;
    var rest := EliminateFrom(g, rc + 1, w);
    assert r.grid == rest.grid;
    assert r.fired == (if step.Skipped? then [] else [rc]) + rest.fired;
    assert rc !in rest.fired;
    RunKeepsColumn(g, rc + 1, w, rc);
  }

  /** A column step on a column that is already a unit column is the
      identity: the pivot is 1 and every row's multiple to cancel is 0. */
  lemma StepOnUnitColumn(m: Grid, rc: nat, w: nat)
    requires rc < |m| && rc + 1 < w && Fits(m, w) && UnitColumn(m, rc)
    ensures EliminateColumn(m, rc, w) == Pivoted(m)
  {
    hide Normalize, Numbers.Quot, Numbers.Gcd, Value, IsQuotient, IsDifference, Reciprocal, ClearFactor, Mul, Add, AddMultiple, Div, Neg, SwapRows, MultiplyRow, ClearColumn;
    var r := PivotOn(m, rc, w);
    forall i | 0 <= i < |m|
      ensures r[i] == m[i]
    {
      forall c | 0 <= c < |m[i]|
        ensures r[i][c] == m[i][c]
      {
        if c < w {
          assert IsQuotient(r[rc][c], m[rc][c], One);
          QuotientByOne(r[rc][c], m[rc][c]);
          if i != rc {
            assert IsDifference(r[i][c], m[i][c], m[i][rc], r[rc][c]);
            DifferenceWithZero(r[i][c], m[i][c], m[i][rc], r[rc][c]);
          }
        }
      }
    }
  }

  /** On a grid whose columns `rc ..` are already in reduced form with
      respect to `fired`, the rest of the loop changes nothing and fires
      exactly `fired`. */
  lemma {:induction false} RunOnReduced(g: Grid, rc: nat, w: nat, fired: seq<nat>)
    requires Fits(g, w) && ColumnsReduced(g, rc, Limit(g, w), fired)
    requires Ascending(fired, rc, Limit(g, w))
    ensures EliminateFrom(g, rc, w) == Run(g, fired)
    decreases |g| - rc
  {
    hide Normalize, Numbers.Quot, Numbers.Gcd, PivotOn;
    if !InLoop(g, rc, w) {
    } else if rc in fired {
      assert fired[0] == rc;
      StepOnUnitColumn(g, rc, w);
      var rest := fired[1..];
      assert forall k :: rc < k < Limit(g, w) ==> (k in fired <==> k in rest) by {
        assert fired == [rc] + rest;
      }
      RunOnReduced(g, rc + 1, w, rest);
      assert fired == [rc] + rest;
    } else {
      RunOnReduced(g, rc + 1, w, fired);
    }
  }

  /** Running the loop a second time changes nothing: the grid and the
      sequence of fired events come out the same. */
  lemma Idempotent(m: Grid, rc: nat, w: nat)
    requires Fits(m, w)
    ensures var r := EliminateFrom(m, rc, w);
            EliminateFrom(r.grid, rc, w) == r
  {
    hide Normalize, Numbers.Quot, Numbers.Gcd, PivotOn, EliminateColumn;
    var r := EliminateFrom(m, rc, w);
    RunReduces(m, rc, w);
    assert Limit(r.grid, w) == Limit(m, w);
    RunOnReduced(r.grid, rc, w, r.fired);
  }

  // ---------------------------------------------------------------------------
  // Cell facts

  lemma QuotientOfZero(y: Fraction, p: Fraction)
    requires p != Zero && IsQuotient(y, Zero, p)
    ensures y == Zero
  {
    hide Normalize, Numbers.Quot, Numbers.Gcd;
    ZeroAndOne();
    ZeroIffValueZero(p);
    ZeroIffValueZero(y);
  }

  lemma QuotientByOne(y: Fraction, x: Fraction)
    requires IsQuotient(y, x, One)
    ensures y == x
  {
    hide Normalize, Numbers.Quot, Numbers.Gcd;
    ZeroAndOne();
    ValueInjective(y, x);
  }

  lemma DifferenceWithZero(z: Fraction, x: Fraction, a: Fraction, y: Fraction)
    requires IsDifference(z, x, a, y) && (a == Zero || y == Zero)
    ensures z == x
  {
    hide Normalize, Numbers.Quot, Numbers.Gcd;
    ZeroAndOne();
    ValueInjective(z, x);
  }
}
