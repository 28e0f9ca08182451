/** The demonstration cases of GaussianElimination/Program.cs, stated as facts
    about the model: the fraction constructions and comparisons of
    `TestFractions` (Program.cs:17-51) and some of the predefined matrices of
    `TestEliminatePredef` (Program.cs:53-117). */
module Examples {
  import opened Results
  import opened Fractions
  import opened Rows
  import opened Elimination
  import opened Solutions
  import opened Matrices
  import Numbers

  // ---------------------------------------------------------------------------
  // Fractions (Program.cs:21-50)

  const FiveHalves: Fraction := Frac(5, 2)
  const ElevenHalves: Fraction := Frac(11, 2)
  const FifteenHalves: Fraction := Frac(15, 2)
  const TwentyFiveHalves: Fraction := Frac(25, 2)
  const SeventeenEighteenths: Fraction := Frac(17, 18)
  const TwoThirds: Fraction := Frac(2, 3)

  /** `new Fraction(n, d)` lands on the canonical representative: the sign
      moves to the numerator and common factors cancel. */
  lemma ConstructorDemo()
    ensures Make(5, 2) == Ok(FiveHalves)
    ensures Make(5, 1) == Ok(FromInt(5))
    ensures Make(-5, 1) == Ok(FromInt(-5))
    ensures Make(5, -1) == Ok(FromInt(-5))
    ensures Make(225, 15) == Ok(FromInt(15))
    ensures Make(-99, -18) == Ok(ElevenHalves)
    ensures Make(17, 18) == Ok(SeventeenEighteenths)
  {
    hide Normalize, Numbers.Quot, Numbers.Gcd;
    ValueInjective(Make(5, 2).value, FiveHalves);
    ValueInjective(Make(5, 1).value, FromInt(5));
    ValueInjective(Make(-5, 1).value, FromInt(-5));
    ValueInjective(Make(5, -1).value, FromInt(-5));
    ValueInjective(Make(225, 15).value, FromInt(15));
    ValueInjective(Make(-99, -18).value, ElevenHalves);
    ValueInjective(Make(17, 18).value, SeventeenEighteenths);
  }

  /** The comparisons the demo prints: 5 is not -5, but it is -(-5), 5/1 and
      -5 is 5/-1. */
  lemma EqualityDemo()
    ensures !Eq(FromInt(5), FromInt(-5))
    ensures Eq(FromInt(5), Neg(FromInt(-5)))
    ensures Eq(FromInt(-5), Make(5, -1).value)
  {
    hide Normalize, Numbers.Quot, Numbers.Gcd;
    ConstructorDemo();
  }

  /** The arithmetic the demo prints, with f1 = 5, f2 = -5, f3 = 5/1 and
      f6 = 5/2, which `ConstructorDemo` shows are the values the demo's
      constructor calls build. */
  lemma ArithmeticDemo()
    ensures Add(FromInt(5), FromInt(5)) == FromInt(10)
    ensures Sub(FromInt(5), FromInt(5)) == Zero
    ensures Add(FromInt(5), FromInt(-5)) == Zero
    ensures Sub(FromInt(5), FromInt(-5)) == FromInt(10)
    ensures Add(FromInt(5), FiveHalves) == FifteenHalves
    ensures Sub(FromInt(5), FiveHalves) == FiveHalves
    ensures Mul(FromInt(5), FiveHalves) == TwentyFiveHalves
    ensures Div(FromInt(5), FiveHalves) == Ok(FromInt(2))
  {
    hide Normalize, Numbers.Quot, Numbers.Gcd;
    ZeroAndOne();
    ValueInjective(Add(FromInt(5), FromInt(5)), FromInt(10));
    ValueInjective(Sub(FromInt(5), FromInt(5)), Zero);
    ValueInjective(Add(FromInt(5), FromInt(-5)), Zero);
    ValueInjective(Sub(FromInt(5), FromInt(-5)), FromInt(10));
    ValueInjective(Add(FromInt(5), FiveHalves), FifteenHalves);
    ValueInjective(Sub(FromInt(5), FiveHalves), FiveHalves);
    ValueInjective(Mul(FromInt(5), FiveHalves), TwentyFiveHalves);
    ValueInjective(Div(FromInt(5), FiveHalves).value, FromInt(2));
  }

  // ---------------------------------------------------------------------------
  // Matrices (Program.cs:57-60, 92-97)

  /** The 2 x 3 system 3x + 2y = -3, -2x + 8y = 4 (Program.cs:57-60). */
  const Demo2x3: Matrix := Array2([
    [FromInt(3), FromInt(2), FromInt(-3)],
    [FromInt(-2), FromInt(8), FromInt(4)]
  ], 3)

  /** Its unique solution x = -8/7, y = 3/14. */
  const Solution2x3: seq<real> := [-8.0 / 7.0, 3.0 / 14.0]

  lemma TwoThirdsValue()
    ensures Value(TwoThirds) == 2.0 / 3.0
  {
  }

  /** As written, `Eliminate` on the 2 x 3 demo reads width 2, pivots on
      column 0 only, and never touches the right-hand side: the first row
      becomes 1, 2/3 | -3 where it should be 1, 2/3 | -1. The solution of the
      original system no longer solves the result; its first equation is off
      by 2. */
  lemma AsWrittenLosesSolution()
    ensures Solves(Demo2x3.cells, Solution2x3, 3)
    ensures EliminateAsWritten(Demo2x3).fired == [0]
    ensures EliminateAsWritten(Demo2x3).grid[0] == [One, TwoThirds, FromInt(-3)]
    ensures Residual(EliminateAsWritten(Demo2x3).grid[0], Solution2x3, 3) == 2.0
    ensures !Solves(EliminateAsWritten(Demo2x3).grid, Solution2x3, 3)
  {
    hide Normalize, Numbers.Quot, Numbers.Gcd, Value, IsDifference, PivotOn, SwapRows;
    var c := Demo2x3.cells;
    var x := Solution2x3;
    assert Solves(c, x, 3);
    var g := PivotOn(c, 0, 2);
    assert c[0][0] != Zero;
    assert EliminateColumn(c, 0, 2) == Pivoted(g);
    assert EliminateFrom(c, 0, 2) == Run(g, [0]);
    assert IsQuotient(g[0][0], c[0][0], c[0][0]) && IsQuotient(g[0][1], c[0][1], c[0][0]);
    assert Value(g[0][0]) == 1.0 && Value(g[0][1]) == 2.0 / 3.0 by {
      assert Value(g[0][0]) * 3.0 == 3.0 && Value(g[0][1]) * 3.0 == 2.0;
    }
    assert g[0][2] == c[0][2];
    ZeroAndOne();
    TwoThirdsValue();
    ValueInjective(g[0][0], One);
    ValueInjective(g[0][1], TwoThirds);
    assert |g[0]| == 3;
    assert g[0] == [One, TwoThirds, FromInt(-3)];
    assert EliminateAsWritten(Demo2x3).grid == g;
    assert Lhs(g[0], x, 1) == Value(g[0][0]) * x[0];
    assert Lhs(g[0], x, 2) == Value(g[0][0]) * x[0] + Value(g[0][1]) * x[1];
    assert Lhs(g[0], x, 2) == -1.0;
    assert Value(g[0][2]) == -3.0;
  }

  /** With the intended width the same solution survives elimination. */
  lemma IntendedKeepsSolution()
    ensures Solves(EliminateIntended(Demo2x3).grid, Solution2x3, 3)
  {
    hide Normalize, Numbers.Quot, Numbers.Gcd, EliminateIntended;
    assert Solves(Demo2x3.cells, Solution2x3, 3);
    IntendedPreservesSolutions(Demo2x3, Solution2x3);
  }

  /** The 4 x 6 matrix of Program.cs:92-97: already in reduced form, with
      columns 1, 2 and 3 zero from the diagonal down. */
  const Demo4x6: Matrix := Array2([
    [FromInt(1), FromInt(6), FromInt(0), FromInt(0), FromInt(4), FromInt(-2)],
    [FromInt(0), FromInt(0), FromInt(1), FromInt(0), FromInt(3), FromInt(1)],
    [FromInt(0), FromInt(0), FromInt(0), FromInt(1), FromInt(5), FromInt(2)],
    [FromInt(0), FromInt(0), FromInt(0), FromInt(0), FromInt(0), FromInt(0)]
  ], 6)

  /** On it, only column 0 fires and the matrix comes back unchanged, with
      either width. As written the loop stops before column 3 (it visits
      columns 0, 1 and 2); with the real column count it reaches column 3 too.
      Every column after 0 that it visits is skipped because step 2 finds no
      non-zero entry at or below the diagonal. */
  lemma ReducedDemoFiresOnlyColumnZero()
    ensures Limit(Demo4x6.cells, NofColumns(Demo4x6)) == 3
    ensures EliminateAsWritten(Demo4x6) == Run(Demo4x6.cells, [0])
    ensures EliminateIntended(Demo4x6) == Run(Demo4x6.cells, [0])
  {
    hide Normalize, Numbers.Quot, Numbers.Gcd, Value, IsQuotient, IsDifference, PivotOn, SwapRows, EliminateColumn;
    ZeroAndOne();
    var g := Demo4x6.cells;
    assert ColumnsReduced(g, 0, Limit(g, 4), [0]);
    RunOnReduced(g, 0, 4, [0]);
    assert ColumnsReduced(g, 0, Limit(g, 6), [0]);
    RunOnReduced(g, 0, 6, [0]);
  }
}
