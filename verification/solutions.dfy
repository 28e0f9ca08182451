/** What elimination is for: a grid of `w` columns is the augmented matrix of
    a linear system of `|m|` equations in `w - 1` unknowns, column `w - 1`
    holding the right-hand sides. Row operations must not change the set of
    solutions (GaussianElimination/Math.cs:320-374).

    Solutions are vectors of exact reals; every statement here relates the
    rational values of the cells, never their representation. As in
    `Elimination`, the grid-level proofs hide the fraction arithmetic and
    reach cell values only through `IsQuotient` and `IsDifference`. */
module Solutions {
  import opened Fractions
  import opened Rows
  import opened Elimination
  import Numbers

  /** `row[0] * x[0] + ... + row[n-1] * x[n-1]`. */
  function Lhs(row: Row, x: seq<real>, n: nat): real
    requires n <= |row| && n <= |x|
  {
    if n == 0 then 0.0 else Lhs(row, x, n - 1) + Value(row[n - 1]) * x[n - 1]
  }

  /** How far `x` is from satisfying the equation in `row`: left-hand side
      minus right-hand side. */
  function Residual(row: Row, x: seq<real>, w: nat): real
    requires 1 <= w <= |row| && |x| == w - 1
  {
    Lhs(row, x, w - 1) - Value(row[w - 1])
  }

  /** `x` satisfies every equation of the system `m` read with width `w`. */
  predicate Solves(m: Grid, x: seq<real>, w: nat)
    requires 1 <= w && Fits(m, w) && |x| == w - 1
  {
    forall i :: 0 <= i < |m| ==> Residual(m[i], x, w) == 0.0
  }

  // ---------------------------------------------------------------------------
  // Linearity of the left-hand side

  /** The left-hand side is linear in the row: if `z = a - t * y` cell by cell,
      then so are the left-hand sides. */
  lemma {:induction false} LhsCombination(z: Row, a: Row, y: Row, t: real, x: seq<real>, n: nat)
    requires n <= |z| && n <= |a| && n <= |y| && n <= |x|
    requires forall c :: 0 <= c < n ==> Value(z[c]) == Value(a[c]) - t * Value(y[c])
    ensures Lhs(z, x, n) == Lhs(a, x, n) - t * Lhs(y, x, n)
  {
    hide Value, Lhs;
    LhsStep(z, x, n);
    LhsStep(a, x, n);
    LhsStep(y, x, n);
    if n == 0 {
      StepCombination(0.0, 0.0, 0.0, 0.0, 0.0, 0.0, 0.0, t);
    } else {
      var k := n - 1;
      LhsCombination(z, a, y, t, x, k);
      StepCombination(Lhs(z, x, k), Lhs(a, x, k), Lhs(y, x, k), Value(z[k]), Value(a[k]), Value(y[k]), x[k], t);
    }
  }

  /** `Lhs` unfolded once. */
  lemma LhsStep(row: Row, x: seq<real>, n: nat)
    requires n <= |row| && n <= |x|
    ensures n == 0 ==> Lhs(row, x, n) == 0.0
    ensures n > 0 ==> Lhs(row, x, n) == Lhs(row, x, n - 1) + Value(row[n - 1]) * x[n - 1]
  {
  }

  /** One step of the sum: adding the term of a combined cell to a combined
      partial sum keeps it combined. */
  lemma StepCombination(lz: real, la: real, ly: real, z: real, a: real, y: real, x: real, t: real)
    requires lz == la - t * ly && z == a - t * y
    ensures lz + z * x == (la + a * x) - t * (ly + y * x)
  {
  }

  /** If every cell of `b` times `p` is the matching cell of `a`, the same
      holds for the left-hand sides. */
  lemma {:induction false} LhsScale(b: Row, a: Row, p: real, x: seq<real>, n: nat)
    requires n <= |b| && n <= |a| && n <= |x|
    requires forall c :: 0 <= c < n ==> Value(b[c]) * p == Value(a[c])
    ensures Lhs(b, x, n) * p == Lhs(a, x, n)
  {
    hide Value;
    if n > 0 {
      var k := n - 1;
      LhsScale(b, a, p, x, k);
      assert (Value(b[k]) * x[k]) * p == (Value(b[k]) * p) * x[k];
    }
  }

  /** Rows that agree on their first `n` cells have the same left-hand side. */
  lemma {:induction false} LhsAgree(a: Row, b: Row, x: seq<real>, n: nat)
    requires n <= |a| && n <= |b| && n <= |x|
    requires forall c :: 0 <= c < n ==> a[c] == b[c]
    ensures Lhs(a, x, n) == Lhs(b, x, n)
  {
    hide Value;
    if n > 0 {
      LhsAgree(a, b, x, n - 1);
    }
  }

  // ---------------------------------------------------------------------------
  // Each row operation keeps the solution set

  /** The new pivot row is the old one divided by the pivot, right-hand side
      included, so its residual is divided by the pivot too. */
  lemma PivotRowResidual(m: Grid, r: Grid, rc: nat, w: nat, x: seq<real>)
    requires rc < |m| && rc < w && Fits(m, w) && SameShape(r, m) && |x| == w - 1
    requires PivotRowDivided(m, r, rc, w)
    ensures Residual(r[rc], x, w) * Value(m[rc][rc]) == Residual(m[rc], x, w)
  {
    hide Value, Lhs, Normalize, Numbers.Quot, Numbers.Gcd;
    var p := Value(m[rc][rc]);
    assert forall c :: 0 <= c < w ==> Value(r[rc][c]) * p == Value(m[rc][c]) by {
      forall c | 0 <= c < w
        ensures Value(r[rc][c]) * p == Value(m[rc][c])
      {
        assert IsQuotient(r[rc][c], m[rc][c], m[rc][rc]);
      }
    }
    LhsScale(r[rc], m[rc], p, x, w - 1);
    var lr, vr := Lhs(r[rc], x, w - 1), Value(r[rc][w - 1]);
    assert (lr - vr) * p == lr * p - vr * p;
  }

  /** Every other row lost a multiple of the new pivot row, right-hand side
      included, so its residual lost the same multiple of the pivot row's. */
  lemma OtherRowResidual(m: Grid, r: Grid, rc: nat, w: nat, x: seq<real>, i: nat)
    requires rc < |m| && rc < w && Fits(m, w) && SameShape(r, m) && |x| == w - 1
    requires OtherRowsCleared(m, r, rc, w)
    requires i < |m| && i != rc
    ensures Residual(r[i], x, w) == Residual(m[i], x, w) - Value(m[i][rc]) * Residual(r[rc], x, w)
  {
    hide Value, Lhs, Normalize, Numbers.Quot, Numbers.Gcd;
    var t := Value(m[i][rc]);
    assert forall c :: 0 <= c < w ==> Value(r[i][c]) == Value(m[i][c]) - t * Value(r[rc][c]) by {
      forall c | 0 <= c < w
        ensures Value(r[i][c]) == Value(m[i][c]) - t * Value(r[rc][c])
      {
        assert IsDifference(r[i][c], m[i][c], m[i][rc], r[rc][c]);
      }
    }
    LhsCombination(r[i], m[i], r[rc], t, x, w - 1);
    var k := w - 1;
    assert Value(r[i][k]) == Value(m[i][k]) - t * Value(r[rc][k]);
    assert Residual(r[i], x, w) == Lhs(r[i], x, k) - Value(r[i][k]);
    assert Residual(m[i], x, w) == Lhs(m[i], x, k) - Value(m[i][k]);
    assert Residual(r[rc], x, w) == Lhs(r[rc], x, k) - Value(r[rc][k]);
    ResidualCombination(Lhs(r[i], x, k), Lhs(m[i], x, k), Lhs(r[rc], x, k),
      Value(r[i][k]), Value(m[i][k]), Value(r[rc][k]), t);
  }

  /** Subtracting matching right-hand sides from a combination keeps it a
      combination. */
  lemma ResidualCombination(lz: real, la: real, ly: real, z: real, a: real, y: real, t: real)
    requires lz == la - t * ly && z == a - t * y
    ensures lz - z == (la - a) - t * (ly - y)
  {
  }

  /** Steps 3 and 4 keep the solution set, in both directions: the pivot is
      not zero, so the pivot row's equation holds before exactly when it holds
      after, and then every other row changed by a multiple of zero. */
  lemma PivotPreservesSolutions(m: Grid, rc: nat, w: nat, x: seq<real>)
    requires rc < |m| && rc < w && Fits(m, w) && m[rc][rc] != Zero && |x| == w - 1
    ensures Solves(PivotOn(m, rc, w), x, w) <==> Solves(m, x, w)
  {
    hide Normalize, Numbers.Quot, Numbers.Gcd, Value, IsQuotient, IsDifference, Reciprocal, ClearFactor, Mul, Add, AddMultiple, Div, Neg, SwapRows, MultiplyRow, ClearColumn, PivotOn, Residual;
    var r := PivotOn(m, rc, w);
    ZeroIffValueZero(m[rc][rc]);
    var p := Value(m[rc][rc]);
    PivotRowResidual(m, r, rc, w, x);
    var e := Residual(r[rc], x, w);
    assert e == 0.0 <==> Residual(m[rc], x, w) == 0.0 by {
      assert e * p == Residual(m[rc], x, w);
      if e != 0.0 {
        assert e * p != 0.0;
      }
    }
    forall i | 0 <= i < |m| && i != rc
      ensures Residual(r[i], x, w) == Residual(m[i], x, w) - Value(m[i][rc]) * e
    {
      OtherRowResidual(m, r, rc, w, x, i);
    }
  }

  /** Swapping two rows below width `w` permutes the equations. */
  lemma SwapPreservesSolutions(m: Grid, d: nat, s: nat, w: nat, x: seq<real>)
    requires d < |m| && s < |m| && 1 <= w && Fits(m, w) && |x| == w - 1
    ensures Solves(SwapRows(m, d, s, w), x, w) <==> Solves(m, x, w)
  {
    hide Normalize, Numbers.Quot, Numbers.Gcd, Value;
    var r := SwapRows(m, d, s, w);
    forall i | 0 <= i < |m|
      ensures Residual(r[i], x, w) == Residual(m[if i == d then s else if i == s then d else i], x, w)
    {
      var j := if i == d then s else if i == s then d else i;
      LhsAgree(r[i], m[j], x, w - 1);
    }
    if Solves(r, x, w) {
      assert Residual(r[d], x, w) == 0.0 && Residual(r[s], x, w) == 0.0;
    }
  }

  /** One iteration of the column loop keeps the solution set. */
  lemma StepPreservesSolutions(m: Grid, rc: nat, w: nat, x: seq<real>)
    requires rc < |m| && rc + 1 < w && Fits(m, w) && |x| == w - 1
    ensures var step := EliminateColumn(m, rc, w);
      step.Pivoted? ==> (Solves(step.grid, x, w) <==> Solves(m, x, w))
  {
    hide Normalize, Numbers.Quot, Numbers.Gcd, Value, IsQuotient, IsDifference, Reciprocal, ClearFactor, Mul, Add, AddMultiple, Div, Neg, SwapRows, MultiplyRow, ClearColumn, PivotOn, EliminateColumn, Solves;
    if EliminateColumn(m, rc, w).Pivoted? {
      var p := FirstNonZero(m, rc, rc);
      PivotedStep(m, rc, w);
      var s := SwapRows(m, rc, p, w);
      SwapPreservesSolutions(m, rc, p, w, x);
      PivotPreservesSolutions(s, rc, w, x);
    }
  }

  /** The whole loop keeps the solution set of the system read with width `w`. */
  lemma {:induction false} RunPreservesSolutions(m: Grid, rc: nat, w: nat, x: seq<real>)
    requires 1 <= w && Fits(m, w) && |x| == w - 1
    ensures Solves(EliminateFrom(m, rc, w).grid, x, w) <==> Solves(m, x, w)
    decreases |m| - rc
  {
    hide Normalize, Numbers.Quot, Numbers.Gcd, Value, IsQuotient, IsDifference, Reciprocal, ClearFactor, Mul, Add, AddMultiple, Div, Neg, SwapRows, MultiplyRow, ClearColumn, PivotOn, EliminateColumn, Solves;
    if InLoop(m, rc, w) {
      var step := EliminateColumn(m, rc, w);
      if step.Skipped? {
        RunPreservesSolutions(m, rc + 1, w, x);
      } else {
        StepPreservesSolutions(m, rc, w, x);
        RunPreservesSolutions(step.grid, rc + 1, w, x);
      }
    }
  }
}
