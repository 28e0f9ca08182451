# Gaussian elimination over exact fractions

A Dafny model of `GaussianElimination/Math.cs`, which has two parts.

- **`Fraction`.** An immutable rational number kept in lowest terms with a positive denominator.
  - Construction and Euclid's gcd normalise it.
  - It has `+ - * /`, unary `-`, the six comparisons, `CompareTo` and the conversion from `int`.
- **`Matrix`.** An augmented matrix of fractions.
  - `Eliminate` does Gauss–Jordan reduction in place. For each column `rc` it:
    1. skips a zero column;
    2. swaps in a row with a non-zero pivot;
    3. scales the pivot row to 1;
    4. clears the column in every other row.
  - After every column it pivots on, it raises a column-completed event.

Modules, in dependency order:

| file | module | contents |
|---|---|---|
| `results.dfy` | `Results` | the division-by-zero error and a `Result` type |
| `numbers.dfy` | `Numbers` | C#'s truncating integer division, divisibility and Euclid's gcd |
| `fractions.dfy` | `Fractions` | `Fraction` (a `Frac(num, den)` whose type carries the invariant) and its operations |
| `references.dfy` | `References` | possibly-null `Fraction` references, the `==`/`!=` operators on them, and `Equals`/`CompareTo` as written and as intended |
| `rows.dfy` | `Rows` | the grid of cells and the three row operations `SwapRows`, `MultiplyRow` and `AddRow` |
| `elimination.dfy` | `Elimination` | one column step, the column loop, and what the loop leaves behind |
| `solutions.dfy` | `Solutions` | the grid read as a linear system; every step keeps its solution set |
| `matrix.dfy` | `Matrices` | the `Matrix` class: dimensions, indexer, `Eliminate` as written and as intended |
| `examples.dfy` | `Examples` | the demonstration cases of `GaussianElimination/Program.cs` |

How the source maps onto the model:

- **Fractions as values.**
  - Every fraction has an exact rational value, `Value(f) = num / den` as a Dafny `real`.
  - Arithmetic and ordering are proved against that value.
  - The constructor's invariant is the `Fraction` subset type: `den > 0` and `gcd(|num|, den) == 1`.
- **Errors.** Operations that can throw `DivideByZeroException` return a `Result`.
- **Functional matrix.** The in-place matrix is a value (`seq<seq<Fraction>>`).
  - Each row operation and each column step returns a new grid.
  - Each source `for` loop is a recursion over its index.
- **Events.** The event is modelled as the returned trace `fired`: the columns whose event fired, in order.
- **Null references.** `Fraction` is a class, so `References.Ref` adds `null`. `References.Outcome` records whether an expression throws `NullReferenceException`.
  - The operators `==` and `!=` and the members `Equals` and `CompareTo` are modelled on such references, as written and as intended. See "## Findings".
- **Width.** Every row operation and the column loop take the width `w` that `NofColumns` reports.
  - `NofColumns` returns `GetLength(0)`, which is the row count.
  - `Matrices.EliminateAsWritten` therefore uses `w = NofRows`.
  - `Matrices.EliminateIntended` uses the real column count. See "## Findings".
- **Solution sets.** `Solutions.Solves(m, x, w)` says that the real vector `x` satisfies every equation of `m`.
  - Each row is one equation; cells `0 .. w-2` are its coefficients and cell `w-1` is its right-hand side.

Facts about the source that shape the model:

- `NofColumns` returns `matrix.GetLength(0)` (Math.cs:266), the row count, although its doc comment calls it the number of columns.
- `Matrix(int, int)` allocates a `Fraction[,]` whose cells start out null (Math.cs:291). The matrix becomes fully populated once every cell has been written through the public indexer (Math.cs:309-310), as `TestEliminateRandom` does before it calls `Eliminate` (Program.cs:133-136). `Matrix(Fraction[,])` is fully populated exactly when the caller's array is. The model's `Matrix` is any fully populated array, however it was built.
- On the 4 × 6 demo (Program.cs:92-97), as written, the loop stops at `rc < NofVariables = 3`. Step 2 skips columns 1 and 2 because it finds no non-zero entry at or below the diagonal, so only column 0 fires. With the real column count, the loop also reaches column 3, skips it the same way, and still fires only column 0.

## Model

| member | source | states |
|---|---|---|
| Numbers.Quot | GaussianElimination/Math.cs:51-52 | C#'s `/`, magnitude half: the magnitude of the quotient is the floor of the magnitudes' quotient, and when the divisor divides the dividend the quotient times the divisor gives back the dividend |
| Numbers.QuotSign | GaussianElimination/Math.cs:51-52 | C#'s `/`, sign half: the quotient is non-negative when the operands agree in sign and non-positive when they differ; with `Quot`'s magnitude this is truncation toward zero |
| Numbers.Gcd | GaussianElimination/Math.cs:55-62 | Euclid's loop yields a common divisor of both arguments, zero only when both are zero |
| Numbers.GcdGreatest | GaussianElimination/Math.cs:55-62 | every common divisor of the arguments divides the loop's result, so the result is the greatest common divisor |
| Fractions.Normalize | GaussianElimination/Math.cs:47-52 | dividing by the gcd and moving the denominator's sign up yields a reduced fraction, with a positive denominator, that has the same cross-product as `n/d` |
| Fractions.Make | GaussianElimination/Math.cs:43-53 | `new Fraction(n, d)` fails with the division-by-zero error exactly when `d == 0`; otherwise it yields a reduced fraction of value `n/d`, and zero becomes exactly 0/1 |
| Fractions.MakeScaleInvariant | GaussianElimination/Math.cs:43-53 | the representation is canonical: `new Fraction(k*n, k*d)` equals `new Fraction(n, d)` for every `k != 0`, including in whether it fails |
| Fractions.UniqueRepresentation | GaussianElimination/Math.cs:43-53 | two reduced fractions with equal cross-products are the same numerator/denominator pair |
| Fractions.ZeroIsCanonical | GaussianElimination/Math.cs:43-53 | the only reduced fraction with numerator 0 is 0/1 |
| Fractions.FromInt | GaussianElimination/Math.cs:162 | the conversion from `int` (and `new Fraction(i)`) gives `i/1`, of value `i` |
| Fractions.Add | GaussianElimination/Math.cs:73 | the value of `f1 + f2` is the sum of the values |
| Fractions.Neg | GaussianElimination/Math.cs:80 | unary `-` negates the numerator, keeps the denominator and negates the value |
| Fractions.NegInvolutive | GaussianElimination/Math.cs:80 | `-(-f) == f` |
| Fractions.Sub | GaussianElimination/Math.cs:88 | the value of `f1 - f2` is the difference of the values |
| Fractions.Mul | GaussianElimination/Math.cs:96 | the value of `f1 * f2` is the product of the values |
| Fractions.Div | GaussianElimination/Math.cs:104 | `f1 / f2` fails with the division-by-zero error exactly when `f2` is zero; otherwise its value is the quotient of the values |
| Fractions.Eq | GaussianElimination/Math.cs:112 | componentwise `==` holds exactly when the rational values are equal, and exactly when the fractions are identical |
| Fractions.ValueInjective | GaussianElimination/Math.cs:112 | equal rational values means the same fraction, and conversely |
| Fractions.Ne | GaussianElimination/Math.cs:120 | `!=` holds exactly when the values differ |
| Fractions.Le | GaussianElimination/Math.cs:128 | comparing cross-products with `<=` agrees with `<=` on the values |
| Fractions.Lt | GaussianElimination/Math.cs:136 | comparing cross-products with `<` agrees with `<` on the values |
| Fractions.Ge | GaussianElimination/Math.cs:144 | comparing cross-products with `>=` agrees with `>=` on the values |
| Fractions.Gt | GaussianElimination/Math.cs:152 | comparing cross-products with `>` agrees with `>` on the values |
| Fractions.OrderIsTotal | GaussianElimination/Math.cs:128-152 | the comparisons form a total order that is transitive and antisymmetric and agrees with `==`, and `>=` and `>` are `<=` and `<` with the operands swapped |
| Fractions.CompareInts | GaussianElimination/Math.cs:206 | `int.CompareTo` is -1, 0 or 1 as the first integer is smaller, equal or larger |
| Fractions.CompareTo | GaussianElimination/Math.cs:198-206 | the non-null arm of `CompareTo(Fraction)`, which is reached only in the corrected member `References.CompareToIntended`: -1, 0 or 1 exactly as the first value is smaller than, equal to or larger than the second |
| References.Fields | GaussianElimination/Math.cs:23-28 | reading `Numerator` and `Denominator` of a reference throws `NullReferenceException` exactly when it is null |
| References.EqRef | GaussianElimination/Math.cs:112 | `==` on references throws exactly when either operand is null, and otherwise is componentwise equality |
| References.NeRef | GaussianElimination/Math.cs:120 | `!=` on references is `!(f1 == f2)`, so it throws exactly when either operand is null |
| References.EqualsAsWritten | GaussianElimination/Math.cs:192 | `Equals(Fraction)` as written throws `NullReferenceException` for every argument, null or not, because its guard `other != null` is the overloaded `!=` |
| References.CompareToAsWritten | GaussianElimination/Math.cs:206 | `CompareTo(Fraction)` as written throws `NullReferenceException` for every argument, null or not, for the same reason |
| References.EqualsObjectAsWritten | GaussianElimination/Math.cs:185 | `Equals(object)` is false for null and for non-fractions, and throws for every fraction, since it forwards to `Equals(Fraction)` |
| References.CompareToObjectAsWritten | GaussianElimination/Math.cs:199 | `IComparable.CompareTo(object)` is -1 for null and for non-fractions, and throws for every fraction, since it forwards to `CompareTo(Fraction)` |
| References.EqualsIntended | GaussianElimination/Math.cs:186-192 | with a reference test for null, as the doc comment describes, `Equals(Fraction)` always returns: false for null, otherwise true exactly when the values are equal |
| References.CompareToIntended | GaussianElimination/Math.cs:198-206 | with a reference test for null, as the doc comment describes, `CompareTo(Fraction)` always returns: 1 for null, otherwise -1, 0 or 1 by the order of the values |
| References.GuardAlwaysThrows | GaussianElimination/Math.cs:192-206 | for every receiver and argument, the members as written throw while the intended ones return; a fraction compared with itself gives 0 and with null gives 1 |
| Fractions.MulByZero | GaussianElimination/Math.cs:96 | a product with zero is exactly 0/1 |
| Fractions.MulByOne | GaussianElimination/Math.cs:96 | a product with 1, on either side, is the other operand itself |
| Fractions.AddZero | GaussianElimination/Math.cs:73 | adding zero, on either side, gives the other operand itself |
| Fractions.ZeroIffValueZero | GaussianElimination/Math.cs:325-334 | a cell compares unequal to the literal 0 exactly when its value is not zero |
| Rows.AddMultiple | GaussianElimination/Math.cs:373 | `this[d, c] += f * this[s, c]` has the value `x + f * y` |
| Rows.SwapRows | GaussianElimination/Math.cs:355-362 | rows `d` and `s` exchange their cells below the width; every other cell and the shape are unchanged |
| Rows.MultiplyRow | GaussianElimination/Math.cs:364-368 | only row `r` changes, and only below the width, where each cell is multiplied by `f`; the shape is unchanged |
| Rows.AddRow | GaussianElimination/Math.cs:370-374 | only row `d` changes, and only below the width, where each cell gains `f` times the cell of row `s`; row `s` is left unchanged (when `s != d`), and so is the shape |
| Elimination.FirstNonZero | GaussianElimination/Math.cs:324-339 | the scan returns the first row at or after `from` with a non-zero entry in the column: every row before it is zero there, or no row qualifies and it returns the row count |
| Elimination.Reciprocal | GaussianElimination/Math.cs:342 | `1 / this[rc, rc]` of a non-zero pivot times the pivot is 1 |
| Elimination.ClearFactor | GaussianElimination/Math.cs:347 | `-this[j, rc] / this[rc, rc]` times the pivot is `-this[j, rc]` |
| Elimination.ClearColumn | GaussianElimination/Math.cs:345-349 | the loop over rows `j` adds to every row except the pivot row the multiple of the pivot row that the source computes; the pivot row is untouched |
| Elimination.PivotOn | GaussianElimination/Math.cs:341-349 | steps 3 and 4 leave column `rc` a unit column; below the width, the pivot row is divided by the old pivot and every other row loses its old `rc` entry times the new pivot row; cells at or beyond the width are untouched |
| Elimination.ScaledPivot | GaussianElimination/Math.cs:342 | after `MultiplyRow(rc, 1 / pivot)` the pivot is exactly 1 |
| Elimination.ClearedPivotColumn | GaussianElimination/Math.cs:347 | clearing against a pivot of 1 leaves exactly 0 in column `rc` |
| Elimination.EliminateColumn | GaussianElimination/Math.cs:322-351 | one iteration is skipped (no event) exactly when the column is zero from the diagonal down; otherwise its result has the same shape and column `rc` is a unit column |
| Elimination.PivotedStep | GaussianElimination/Math.cs:331-339 | a pivoted iteration swaps in the first row at or below the diagonal with a non-zero entry in the column (the pivot row itself when it qualifies), then runs steps 3 and 4 |
| Elimination.SwapSelf | GaussianElimination/Math.cs:355-362 | swapping a row with itself changes nothing |
| Elimination.EliminateFrom | GaussianElimination/Math.cs:320-353 | the loop keeps the grid's shape; the fired columns are strictly ascending, at least the starting column, and below `min(NofVariables, NofRows)` |
| Elimination.RunReduces | GaussianElimination/Math.cs:320-353 | after the loop, every fired column is a unit column and every visited column that did not fire is zero from the diagonal down |
| Elimination.ColumnSettled | GaussianElimination/Math.cs:320-353 | column `rc` fires exactly when its iteration pivots; it ends as a unit column if it fired and zero from the diagonal down if not; and in every row, later iterations leave it as its own iteration left it |
| Elimination.PivotKeepsColumn | GaussianElimination/Math.cs:341-349 | a column whose pivot-row entry is zero is unchanged by steps 3 and 4 |
| Elimination.StepKeepsColumn | GaussianElimination/Math.cs:322-351 | a column that is zero from row `rc` down is unchanged by iteration `rc` |
| Elimination.RunKeepsColumn | GaussianElimination/Math.cs:320-353 | a column that is zero from row `rc` down is unchanged by the rest of the loop |
| Elimination.StepKeepsWideColumns | GaussianElimination/Math.cs:322-351 | an iteration never changes a cell at or beyond the width |
| Elimination.RunKeepsWideColumns | GaussianElimination/Math.cs:320-353 | the whole loop never changes a cell at or beyond the width |
| Elimination.StepOnUnitColumn | GaussianElimination/Math.cs:322-351 | an iteration on a column that is already a unit column pivots (fires) and changes nothing |
| Elimination.RunOnReduced | GaussianElimination/Math.cs:320-353 | on a grid already in reduced form for a given ascending trace, the loop changes nothing and fires exactly that trace |
| Elimination.Idempotent | GaussianElimination/Math.cs:320-353 | running the loop again on its own result changes nothing and fires the same columns |
| Elimination.QuotientOfZero | GaussianElimination/Math.cs:342 | zero divided by a non-zero pivot is exactly 0/1 |
| Elimination.QuotientByOne | GaussianElimination/Math.cs:342 | dividing by a pivot of 1 leaves the cell as it was |
| Elimination.DifferenceWithZero | GaussianElimination/Math.cs:347 | subtracting a multiple of zero leaves the cell as it was |
| Solutions.LhsCombination | GaussianElimination/Math.cs:370-374 | adding a multiple of one row to another adds the same multiple of its left-hand side |
| Solutions.LhsScale | GaussianElimination/Math.cs:364-368 | scaling a row scales its left-hand side |
| Solutions.LhsAgree | GaussianElimination/Math.cs:355-362 | rows equal below the width have equal left-hand sides |
| Solutions.PivotRowResidual | GaussianElimination/Math.cs:342 | the new pivot row's residual times the pivot is the old pivot row's residual |
| Solutions.OtherRowResidual | GaussianElimination/Math.cs:345-349 | every other row's residual loses its old `rc` entry times the new pivot row's residual |
| Solutions.PivotPreservesSolutions | GaussianElimination/Math.cs:341-349 | steps 3 and 4 keep the solution set in both directions |
| Solutions.SwapPreservesSolutions | GaussianElimination/Math.cs:355-362 | swapping two rows keeps the solution set in both directions |
| Solutions.StepPreservesSolutions | GaussianElimination/Math.cs:322-351 | an iteration keeps the solution set, read with the width it works with |
| Solutions.RunPreservesSolutions | GaussianElimination/Math.cs:320-353 | the whole loop keeps the solution set, read with the width it works with |
| Matrices.NofRows | GaussianElimination/Math.cs:256 | `NofRows` is `GetLength(0)`, the number of rows, and every row below it holds `GetLength(1)` cells |
| Matrices.NofColumns | GaussianElimination/Math.cs:266 | `NofColumns` equals `NofRows` whatever the real column count |
| Matrices.NofVariables | GaussianElimination/Math.cs:271 | `NofVariables` is one less than `NofColumns` |
| Matrices.Get | GaussianElimination/Math.cs:311 | reading through the indexer yields the cell at that row and column; its partner is `Matrices.IndexerRoundTrip` |
| Matrices.IndexerRoundTrip | GaussianElimination/Math.cs:309-312 | writing back a value just read changes nothing, and a written value is read back as written |
| Matrices.Set | GaussianElimination/Math.cs:309-312 | writing through the indexer changes exactly the one cell, to the new value; the dimensions and every other cell are unchanged |
| Matrices.EliminateAsWritten | GaussianElimination/Math.cs:320-353 | with the width the source uses, the result keeps the dimensions; the fired columns ascend strictly and stay below `NofVariables` and `NofRows`; fired columns are unit columns and the other visited ones are zero from the diagonal; columns `NofRows` and beyond are never changed, which includes the right-hand side when the array has more columns than rows |
| Matrices.EliminateIntended | GaussianElimination/Math.cs:320-353 | with the real column count, the same guarantees hold, with the fired columns below the number of variables and rows |
| Matrices.IntendedPreservesSolutions | GaussianElimination/Math.cs:320-353 | with the real column count, `x` solves the eliminated system exactly when it solves the original one |
| Matrices.EliminateIdempotent | GaussianElimination/Math.cs:320-353 | eliminating an eliminated matrix again changes nothing and fires the same columns, at either width |
| Examples.ConstructorDemo | GaussianElimination/Program.cs:21-29 | the demo's constructions give `5/2 = 5/2`, `5/1 = 5`, `5/-1 = -5`, `225/15 = 15`, `-99/-18 = 11/2` and `17/18 = 17/18` |
| Examples.EqualityDemo | GaussianElimination/Program.cs:31-35 | `5 != -5`, `5 == -(-5)` and `-5 == 5/-1` |
| Examples.ArithmeticDemo | GaussianElimination/Program.cs:37-46 | the demo's sums, differences, product and quotient of 5, -5 and 5/2 |
| Examples.AsWrittenLosesSolution | GaussianElimination/Program.cs:57-60 | as written, the 2 × 3 demo fires column 0 only and leaves row 0 at exactly `1, 2/3, -3`; the original solution `(-8/7, 3/14)` is off by 2 in row 0, so it no longer solves the result |
| Examples.IntendedKeepsSolution | GaussianElimination/Program.cs:57-60 | with the real column count, the same solution still solves the result |
| Examples.ReducedDemoFiresOnlyColumnZero | GaussianElimination/Program.cs:92-97 | on the 4 × 6 demo the as-written loop visits columns 0 to 2 only; at either width only column 0 fires, and the matrix comes back unchanged |

## Left out

- **Integer width.** Numerators, denominators and their cross-products are unbounded integers.
  - In the source they are 32-bit `int`s, whose products wrap around silently.
  - `Math.Abs(int.MinValue)` in the constructor throws `OverflowException`.
  - Every fraction contract here holds only while no such overflow occurs.
- **Display and hashing.** These are left out:
  - the implicit conversion to `double` (floating point, display only);
  - `ToString`, which uses culture-dependent number formatting;
  - `GetHashCode`.
- **Int32.CompareTo.** `Fractions.CompareInts` returns exactly -1, 0 or 1. .NET documents only the sign of `Int32.CompareTo`.
- **Null cells.** `Matrix(int)` and `Matrix(int, int)` allocate arrays whose cells are null until they are written through the indexer. `Eliminate` throws on any null cell it reads. As written it reads only columns below `NofColumns`, which is `NofRows` (Math.cs:322, 357, 366, 372), so a null cell in column `NofRows` or beyond is never read. The model requires every cell to be populated, whichever constructor built the matrix.
- **NofEquations.** It is the same property as `NofRows` and is not modelled separately.
- **Indexer bounds.** `Matrices.Set` and `Matrices.Get` require in-range indices. The source's array throws `IndexOutOfRangeException` on others.
- **EliminateAsWritten: narrow arrays.** Arrays with fewer columns than rows are excluded. The source indexes past the last column on them as soon as a column scan or a row operation reaches a missing column.
- **The event.** The multicast mechanics of the event and the delegate type are left out. The sequence of column indices passed to it is the returned `fired` trace.
- **Observer interleaving.** A handler that reads or mutates the matrix while elimination runs is not modelled. Nor is concurrent use.
- **Program.cs.** The console output, the random test matrices and the table printing are left out. Some of its fixed cases are stated in `examples.dfy`.

## Findings

| source | as written | input that shows it | evidently intended | confidence | as-written member | corrected member |
|---|---|---|---|---|---|---|
| GaussianElimination/Math.cs:266 | `NofColumns` returns `matrix.GetLength(0)`, the row count. So `Eliminate` loops `rc < rows - 1`, and every row operation stops at column `rows - 1`. The right-hand-side column of a system with more columns than rows is never updated. | The 2 × 3 system `3x + 2y = -3`, `-2x + 8y = 4` (Program.cs:57-60) has the solution `(-8/7, 3/14)`. As written, only column 0 fires, row 0 becomes `1, 2/3 \| -3` and the solution misses row 0 by 2. | `matrix.GetLength(1)`: elimination then keeps the solution set of the system (`Matrices.IntendedPreservesSolutions`). | high; not executed | Examples.AsWrittenLosesSolution | Matrices.IntendedPreservesSolutions |
| GaussianElimination/Math.cs:206 | `CompareTo(Fraction other)` guards with `other != null`. In `Fraction` that is the overloaded `!=` (Math.cs:120), which calls the overloaded `==` (Math.cs:112), which reads `Numerator` of the null operand. The guard throws `NullReferenceException`, so the member throws on every call. | Any call, for example `f.CompareTo(f)`, which should be 0, or `f.CompareTo(null)`, which should be 1. | A reference test, such as `other is null` or `ReferenceEquals(other, null)`. The member then returns 1 for null and otherwise -1, 0 or 1 by value, as its doc comment (Math.cs:201-205) says. | high; not executed | References.CompareToAsWritten | References.CompareToIntended |
| GaussianElimination/Math.cs:192 | `Equals(Fraction other)` has the same `other != null` guard and throws on every call. `Equals(object)` (Math.cs:185) forwards every fraction to it. | Any call, for example `f.Equals(f)`, which should be true. | A reference test for null. The member then returns false for null and otherwise componentwise equality. | high; not executed | References.EqualsAsWritten | References.EqualsIntended |
