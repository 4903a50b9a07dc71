# Fixed-size dense matrices (GTE `Matrix.h`)

This project models `gte::Matrix<NumRows, NumCols, Real>` from the Geometric Tools Engine. It covers the table that stores the entries, the member operations of the class, and the free operators and functions declared beside it:
- element-wise arithmetic;
- the three entry-wise norms;
- transpose;
- matrix-vector, vector-matrix and the four matrix-matrix products;
- diagonal scaling and outer product;
- `MakeDiagonal`, `HLift` and `HProject`.

An R-by-C matrix keeps its R*C entries in one table of fixed size.
- The row-major build stores row after row.
- The column-major build stores column after column.

The storage order matters in three places:
- `operator()(r, c)` hides it;
- `operator[](i)` exposes it;
- the comparison operators compare the tables.

Every operation except `operator[]` and the four order comparisons is stated against a layout-free logical matrix, so it computes the same logical result in both layouts. The exceptions are these:
- `operator[]` (`GetRaw`/`SetRaw`) is stated through `Table.Position`, the cell that a flat position holds in the chosen layout.
- `<`, `<=`, `>` and `>=` compare the stored tables, so they depend on the layout. `Table.OrderDependsOnLayout` proves that the two layouts can order a pair of matrices in opposite directions.

Modules:

- `Algebra`: the reference definitions on logical matrices, each a sequence of R rows of C reals. It has:
  - zero, unit and identity matrices, and filling from a list;
  - negation, sum, difference and scaling;
  - transpose, dot product, `MatVec`, `VecMat` and `Product`;
  - diagonal scaling, outer product, lift and project;
  - sums over the cells, and the two readings of the infinity norm.

  The lemmas relate these definitions to one another: identities of the products, transpose of a product, the L1 norm being definite, and the like.
- `Table`: the nested class `Table`.
  - `Layout` (`RowMajor` or `ColMajor`) is the `GTE_USE_ROW_MAJOR` switch of Matrix.h:271-327, which chooses the storage order. It is a datatype, so it has no row in the table below; `Table.Index`, `Table.Storage` and the lemmas about them state what each layout means.
  - `Index` maps cell (r, c) to its flat position, and `Position` maps back. They are proved to be inverse bijections.
  - `ToGrid` and `FromGrid` convert between a flat table and a logical matrix. Round trips are proved in both directions.
  - `LexLess` is `std::lexicographical_compare` on flat tables, and `NestedLexLess` is `std::array`'s order on the declared array of arrays. The two are proved to agree.
- `Matrices`: the class `Matrix`. Its storage is `data: array<real>` of length R*C, updated in place; `Grid()` is the logical matrix it holds. The class has:
  - the constructors;
  - `operator()` and `operator[]`, as `Get`/`Set` and `GetRaw`/`SetRaw`;
  - row and column access;
  - the six comparisons;
  - `MakeZero`, `MakeUnit` and `MakeIdentity`, and the static `Zero`, `Unit` and `Identity`.
- `Arithmetic`: unary `+` and `-`, binary `+` and `-`, the scalar `*` and `/`, the compound assignments, and `L1Norm`, `L2Norm` and `LInfinityNorm`. Each is a loop over the flat table.
- `Products`: `Transpose`, `M*V`, `V*M`, `A*B`, `MultiplyAB`, `MultiplyABT`, `MultiplyATB`, `MultiplyATBT`, `MultiplyMD`, `MultiplyDM`, `OuterProduct`, `MakeDiagonal`, `HLift` and `HProject`. The four matrix products accumulate each dot product directly in `result(r, c)`, as the source does.

Every loop of the source is a `while` loop with its invariants, except one group. The zeroing loops of `Table()` (Matrix.h:271-287) are the array initializer `new real[rows * cols](_ => 0.0)` in each constructor. Every method's `ensures` ties its result, or the new state of the matrix it modifies, to the reference definition in `Algebra`.

## Model

| member | source | states |
|---|---|---|
| Table.Index | GTE/Mathematics/Matrix.h:291-307 | the flat position of cell (r, c) lies inside the R*C table in both layouts |
| Table.Position | GTE/Mathematics/Matrix.h:311-327 | every flat position holds exactly one in-range cell, and `Index` of that cell gives the position back |
| Table.PositionOfIndex | GTE/Mathematics/Matrix.h:291-321 | from a cell to its flat position and back gives the same cell |
| Table.IndexInjective | GTE/Mathematics/Matrix.h:291-307 | distinct cells never share a flat position |
| Table.FirstCellFirst | GTE/Mathematics/Matrix.h:311-321 | cell (0, 0) is flat position 0 in both layouts |
| Table.StorageRoundTrip | GTE/Mathematics/Matrix.h:323-327 | reading a table as a matrix and laying it out again gives the same table |
| Table.GridRoundTrip | GTE/Mathematics/Matrix.h:323-327 | laying a matrix out and reading it back gives the same matrix |
| Table.ToGridInjective | GTE/Mathematics/Matrix.h:323-327 | two tables hold the same matrix if and only if they are equal |
| Table.WriteCell | GTE/Mathematics/Matrix.h:300-307 | writing the flat position of (r, c) changes logical cell (r, c) and no other cell |
| Table.RowMajorIsFlatten | GTE/Mathematics/Matrix.h:323-324 | the row-major table is the rows laid end to end |
| Table.ColMajorIsTransposedRowMajor | GTE/Mathematics/Matrix.h:325-326 | the column-major table of M is the row-major table of M transposed |
| Table.StorageSum | GTE/Mathematics/Matrix.h:452-472 | a sum over the flat table in storage order equals the sum over all logical cells, in both layouts |
| Table.LexLess | GTE/Mathematics/Matrix.h:189-192 | `std::lexicographical_compare` on two flat tables; a table that is less is a different table |
| Table.LexLessIsFirstDifference | GTE/Mathematics/Matrix.h:189-192 | a < b if and only if, at the first position where they differ, a's entry is smaller, or a is a proper prefix of b |
| Table.LexIrreflexive | GTE/Mathematics/Matrix.h:189-192 | no table is less than itself |
| Table.LexTransitive | GTE/Mathematics/Matrix.h:189-207 | the table order is transitive |
| Table.LexTrichotomy | GTE/Mathematics/Matrix.h:179-207 | on tables of one size exactly one of a < b, a == b, b < a holds |
| Table.Storage | GTE/Mathematics/Matrix.h:323-327 | the declared `mStorage`: R rows of C entries in the row-major build, C columns of R entries in the column-major build |
| Table.StorageIsFlat | GTE/Mathematics/Matrix.h:323-327 | the declared array of arrays, laid end to end, is the flat table `operator[]` indexes |
| Table.NestedLexLess | GTE/Mathematics/Matrix.h:189-207 | `std::array`'s `operator<` on an array of arrays, inner arrays compared by their own `operator<`; a storage that is less is a different storage |
| Table.NestedLexIsFlatLex | GTE/Mathematics/Matrix.h:189-192 | `std::array`'s order on arrays of equal-length rows equals the lexicographic order on the rows laid end to end |
| Table.StorageOrderIsTableOrder | GTE/Mathematics/Matrix.h:189-192 | comparing the declared storage of two matrices is comparing their flat tables |
| Table.FromGridTwoByTwo | GTE/Mathematics/Matrix.h:323-327 | a 2-by-2 matrix is stored as [m00, m01, m10, m11] row-major and [m00, m10, m01, m11] column-major |
| Table.OrderDependsOnLayout | GTE/Mathematics/Matrix.h:189-192 | for [[0,1],[0,0]] and [[0,0],[1,0]] the two layouts order the pair in opposite directions |
| Matrices.Matrix.Get | GTE/Mathematics/Matrix.h:116-119 | `operator()(r, c)` reads logical cell (r, c) whatever the layout |
| Matrices.Matrix.Set | GTE/Mathematics/Matrix.h:121-124 | assigning through `operator()(r, c)` sets cell (r, c) and leaves every other cell unchanged |
| Matrices.Matrix.GetRaw | GTE/Mathematics/Matrix.h:168-171 | `operator[](i)` reads the logical cell `Position(i)` |
| Matrices.Matrix.SetRaw | GTE/Mathematics/Matrix.h:173-176 | assigning through `operator[](i)` changes flat entry i only, which is logical cell `Position(i)` |
| Matrices.Matrix.constructor | GTE/Mathematics/Matrix.h:25-28 | the default matrix is the zero matrix of the given shape and layout |
| Matrices.Matrix.Copy | GTE/Mathematics/Matrix.h:108-109 | the copy has a fresh table equal to the original's |
| Matrices.Matrix.FromArray | GTE/Mathematics/Matrix.h:30-42 | R*C values given row after row become the matrix, in either layout |
| Matrices.Matrix.FromList | GTE/Mathematics/Matrix.h:43-96 | the first min(n, R*C) values fill cells row after row, and every remaining cell is zero |
| Matrices.Matrix.FillFromList | GTE/Mathematics/Matrix.h:56-95 | on a zero table, the loops of the list constructor leave exactly the padded matrix |
| Matrices.Matrix.CopyRowFromList | GTE/Mathematics/Matrix.h:61-71 | row r receives the next values until the row is full or the list runs out; the count copied is min(C, n - r*C), and no other cell changes |
| Matrices.Matrix.ZeroRowFrom | GTE/Mathematics/Matrix.h:73-78 | the rest of row r from column c on becomes zero, and nothing else changes |
| Matrices.Matrix.ZeroRowsFrom | GTE/Mathematics/Matrix.h:84-95 | rows r and after become zero, and nothing else changes |
| Matrices.Matrix.Basis | GTE/Mathematics/Matrix.h:98-106 | the matrix is the standard basis matrix for in-range (r, c), and the zero matrix otherwise |
| Matrices.Matrix.SetRow | GTE/Mathematics/Matrix.h:127-133 | row r becomes vec, and every other row is unchanged |
| Matrices.Matrix.SetCol | GTE/Mathematics/Matrix.h:135-141 | column c becomes vec, and every other cell is unchanged |
| Matrices.Matrix.GetRow | GTE/Mathematics/Matrix.h:143-151 | the result is row r |
| Matrices.Matrix.GetCol | GTE/Mathematics/Matrix.h:153-161 | the result is column c |
| Matrices.Matrix.Equal | GTE/Mathematics/Matrix.h:179-182 | true if and only if the two logical matrices are equal |
| Matrices.Matrix.NotEqual | GTE/Mathematics/Matrix.h:184-187 | true if and only if the logical matrices differ, which is exactly when `==` is false |
| Matrices.Matrix.Less | GTE/Mathematics/Matrix.h:189-192 | true if and only if the declared storage is less in `std::array`'s order, which equals the lexicographic order of the flat tables; a smaller matrix is a different matrix |
| Matrices.Matrix.LessEq | GTE/Mathematics/Matrix.h:194-197 | true if and only if less or equal |
| Matrices.Matrix.Greater | GTE/Mathematics/Matrix.h:199-202 | true if and only if neither less nor equal |
| Matrices.Matrix.GreaterEq | GTE/Mathematics/Matrix.h:204-207 | true if and only if greater or equal |
| Matrices.Matrix.MakeZero | GTE/Mathematics/Matrix.h:211-219 | every cell becomes zero |
| Matrices.Matrix.MakeUnit | GTE/Mathematics/Matrix.h:221-229 | the matrix becomes the basis matrix for (r, c), or zero when r or c is out of range |
| Matrices.Matrix.MakeIdentity | GTE/Mathematics/Matrix.h:231-240 | ones at (i, i) for i < min(R, C) and zeros elsewhere, for square and non-square shapes |
| Matrices.Matrix.Zero | GTE/Mathematics/Matrix.h:242-247 | a fresh zero matrix |
| Matrices.Matrix.Unit | GTE/Mathematics/Matrix.h:249-254 | a fresh basis matrix for (r, c), or zero out of range |
| Matrices.Matrix.Identity | GTE/Mathematics/Matrix.h:256-261 | a fresh identity matrix |
| Algebra.UnitIsBasisOrZero | GTE/Mathematics/Matrix.h:221-229 | the unit matrix is the zero matrix with a single 1 at (r, c) when both are in range, and the zero matrix otherwise |
| Algebra.PaddedRowTailZero | GTE/Mathematics/Matrix.h:73-78 | once the list has run out at cell (r, c), the rest of row r is zero in the padded matrix |
| Algebra.PaddedRowsZero | GTE/Mathematics/Matrix.h:84-95 | once the list has run out before row r, every later row is zero in the padded matrix |
| Algebra.PaddedFullList | GTE/Mathematics/Matrix.h:30-96 | a list of exactly R*C values fills the matrix as the array constructor does |
| Algebra.PaddedIgnoresExcess | GTE/Mathematics/Matrix.h:43-45 | values past the first R*C do not affect the matrix |
| Algebra.PaddedExamples | GTE/Mathematics/Matrix.h:43-53 | {1} fills a 2-by-2 matrix as [[1,0],[0,0]], and {1,2,3,4,5} as [[1,2],[3,4]] |
| Arithmetic.Plus | GTE/Mathematics/Matrix.h:334-338 | unary + returns a fresh copy of M and leaves M unchanged |
| Arithmetic.Negate | GTE/Mathematics/Matrix.h:340-349 | unary - negates every logical cell |
| Arithmetic.AddAssign | GTE/Mathematics/Matrix.h:394-404 | M0 becomes old M0 + old M1 cell by cell, including when M1 is M0 |
| Arithmetic.SubtractAssign | GTE/Mathematics/Matrix.h:406-416 | M0 becomes old M0 - old M1 cell by cell, including when M1 is M0 |
| Arithmetic.MultiplyAssign | GTE/Mathematics/Matrix.h:418-427 | every cell is multiplied by the scalar |
| Arithmetic.DivideAssign | GTE/Mathematics/Matrix.h:429-449 | for a nonzero scalar M becomes M * (1/scalar); for zero M becomes the zero matrix |
| Arithmetic.Add | GTE/Mathematics/Matrix.h:352-359 | a fresh M0 + M1; the operands are unchanged |
| Arithmetic.Subtract | GTE/Mathematics/Matrix.h:361-368 | a fresh M0 - M1; the operands are unchanged |
| Arithmetic.MultiplyScalar | GTE/Mathematics/Matrix.h:370-376 | a fresh M * scalar; M is unchanged |
| Arithmetic.ScalarMultiply | GTE/Mathematics/Matrix.h:378-384 | a fresh scalar * M; M is unchanged |
| Arithmetic.Divide | GTE/Mathematics/Matrix.h:386-392 | a fresh M * (1/scalar), or the zero matrix for scalar zero; M is unchanged |
| Algebra.AddNegIsZero | GTE/Mathematics/Matrix.h:340-359 | M + (-M) is the zero matrix |
| Algebra.SubIsAddNeg | GTE/Mathematics/Matrix.h:352-368 | M0 - M1 equals M0 + (-M1) |
| Algebra.ScaleByInverse | GTE/Mathematics/Matrix.h:429-440 | (M / s) * s == M for nonzero s |
| Arithmetic.L1Norm | GTE/Mathematics/Matrix.h:452-461 | the sum of the absolute values of all cells; it is nonnegative, and zero exactly for the zero matrix |
| Algebra.L1NormDefinite | GTE/Mathematics/Matrix.h:452-461 | the L1 sum is nonnegative, and zero if and only if the matrix is zero |
| Arithmetic.L2NormSquared | GTE/Mathematics/Matrix.h:463-472 | the quantity under the square root is the sum of the squares of all cells; it is nonnegative, and zero for the zero matrix |
| Algebra.L2NormSquaredNonNegative | GTE/Mathematics/Matrix.h:463-472 | the sum of squares of any matrix is nonnegative, and zero for the zero matrix |
| Arithmetic.LInfinityNorm | GTE/Mathematics/Matrix.h:474-487 | the scan as written: at least M[0], at least abs(M[i]) for every flat i >= 1, and equal to one of these values |
| Arithmetic.SeededTableMaxIsSeededMax | GTE/Mathematics/Matrix.h:474-487 | the scan over the flat table is the same seeded maximum over the logical matrix in both layouts |
| Arithmetic.MaxAbsNorm | GTE/Mathematics/Matrix.h:474-487 | the intended norm: the largest absolute value of any cell |
| Arithmetic.TableMaxIsMaxAbs | GTE/Mathematics/Matrix.h:474-487 | the largest absolute value over the flat table is the largest over the logical matrix |
| Arithmetic.LInfinityNormAgreesWhenFirstCellNonNegative | GTE/Mathematics/Matrix.h:474-487 | when cell (0, 0) is nonnegative, the result as written equals the maximum absolute value |
| Algebra.SeededMaxIsMaxAbs | GTE/Mathematics/Matrix.h:474-487 | with cell (0, 0) nonnegative, the seeded maximum and the maximum absolute value are the same property |
| Algebra.NegativeSeedCounterexample | GTE/Mathematics/Matrix.h:477 | for the 1-by-1 matrix [-3] the value as written is -3, which is not the maximum absolute value 3 |
| Products.Transpose | GTE/Mathematics/Matrix.h:512-525 | result(c, r) = M(r, c), with the shape swapped |
| Algebra.TransposeInvolutive | GTE/Mathematics/Matrix.h:512-525 | transposing twice gives back the matrix |
| Products.MultiplyVector | GTE/Mathematics/Matrix.h:527-542 | entry r of M*V is the dot product of row r with V |
| Products.VectorMultiply | GTE/Mathematics/Matrix.h:544-559 | entry c of V*M is the dot product of V with column c |
| Algebra.VecMatIsTransposedMatVec | GTE/Mathematics/Matrix.h:527-559 | V*M equals M^T * V |
| Algebra.IdentityTimesVector | GTE/Mathematics/Matrix.h:527-542 | Identity * V == V |
| Algebra.DotUpToStep | GTE/Mathematics/Matrix.h:583 | one more step of the running sum in result(r, c) adds the next product term |
| Products.AccumulateAB | GTE/Mathematics/Matrix.h:580-584 | result(r, c) becomes row r of A dotted with column c of B, and no other cell changes |
| Products.MultiplyAB | GTE/Mathematics/Matrix.h:570-588 | the result is A*B |
| Products.Multiply | GTE/Mathematics/Matrix.h:561-568 | operator* on two matrices is A*B |
| Algebra.IdentityTimesMatrix | GTE/Mathematics/Matrix.h:561-588 | Identity * A == A |
| Algebra.MatrixTimesIdentity | GTE/Mathematics/Matrix.h:561-588 | A * Identity == A |
| Algebra.IdentityTimesIdentity | GTE/Mathematics/Matrix.h:561-588 | Identity * Identity == Identity |
| Products.AccumulateABT | GTE/Mathematics/Matrix.h:601-605 | result(r, c) becomes row r of A dotted with row c of B, and no other cell changes |
| Products.MultiplyABT | GTE/Mathematics/Matrix.h:590-609 | the result is A*B^T |
| Algebra.TransposedRowIsColumn | GTE/Mathematics/Matrix.h:611-651 | row r of A^T is column r of A |
| Products.AccumulateATB | GTE/Mathematics/Matrix.h:622-626 | result(r, c) becomes column r of A dotted with column c of B, and no other cell changes |
| Products.MultiplyATB | GTE/Mathematics/Matrix.h:611-630 | the result is A^T*B |
| Algebra.ColumnOfTransposed | GTE/Mathematics/Matrix.h:590-651 | column c of B^T is row c of B |
| Products.AccumulateATBT | GTE/Mathematics/Matrix.h:643-647 | result(r, c) becomes column r of A dotted with row c of B, and no other cell changes |
| Products.MultiplyATBT | GTE/Mathematics/Matrix.h:632-651 | the result is A^T*B^T |
| Algebra.TransposeOfProduct | GTE/Mathematics/Matrix.h:632-651 | (A B)^T == B^T A^T, so A^T*B^T is (B A)^T |
| Products.MultiplyMD | GTE/Mathematics/Matrix.h:653-668 | column c of M is scaled by D[c] |
| Algebra.ScaleColumnsIsDiagonalProduct | GTE/Mathematics/Matrix.h:653-668 | scaling the columns equals multiplying on the right by diag(D) |
| Products.MultiplyDM | GTE/Mathematics/Matrix.h:670-685 | row r of M is scaled by D[r] |
| Algebra.ScaleRowsIsDiagonalProduct | GTE/Mathematics/Matrix.h:670-685 | scaling the rows equals multiplying on the left by diag(D) |
| Products.OuterProduct | GTE/Mathematics/Matrix.h:687-701 | result(r, c) = U[r] * V[c] |
| Algebra.OuterIsProduct | GTE/Mathematics/Matrix.h:687-701 | the outer product is U as a column times V as a row |
| Products.MakeDiagonal | GTE/Mathematics/Matrix.h:703-717 | M becomes the diagonal matrix with D on its diagonal |
| Products.HLift | GTE/Mathematics/Matrix.h:719-735 | the (N+1)-by-(N+1) identity with its upper N-by-N block replaced by M |
| Algebra.LiftShape | GTE/Mathematics/Matrix.h:719-735 | the lifted matrix has M in the upper block, 1 at (N, N), and 0 in the rest of the last row and the last column |
| Products.HProject | GTE/Mathematics/Matrix.h:737-751 | the upper (N-1)-by-(N-1) block of M |
| Algebra.ProjectLift | GTE/Mathematics/Matrix.h:719-751 | HProject(HLift(M)) == M |

## Left out

- `Inverse` and `Determinant` (Matrix.h:489-510) forward to `GaussianElimination`, and GaussianElimination.h is not part of this model.
- Floating point: `Real` is modelled as exact `real`. Rounding, NaN and infinities are not modelled, so identities like `Algebra.ScaleByInverse` hold only in exact arithmetic.
- Arithmetic.L2NormSquared: models the sum of squares that `L2Norm` passes to `std::sqrt`. The square root is left out, because exact reals have no square root here. The converse of the zero case is not stated: that a zero sum of squares means the zero matrix. It needs x*x == 0 to imply x == 0 for reals, and the verifier's nonlinear real arithmetic does not prove that step reliably.
- `Vector<N, Real>` is modelled as `seq<real>` of length N. The Vector class itself is not part of this model.
- `operator()` and `operator[]` return references. Reads are modelled as `Get`/`GetRaw`, and assignments through the reference as `Set`/`SetRaw`. A reference held across other writes is not modelled.
- Indices are `int32_t` in the source. Here they are `nat` wherever the source leaves out-of-range access undefined, and the accessors require in-range indices. `Basis`, `MakeUnit` and `Unit` take `int`, because Matrix.h:225 tests `0 <= r` and `0 <= c` and gives the zero matrix for a negative index. The `int32_t` range of R*C is not modelled.
- The storage order is a build-wide macro (`GTE_USE_ROW_MAJOR`) in the source. Here it is a field of each matrix, and binary operations require equal layouts.
- The template dimensions become preconditions on the runtime shape. This covers matching shapes, `static_assert(N >= 2)` in `HProject`, and the norms reading `M[0]`, which requires R, C >= 1.
- The model assumes `std::array<std::array<Real, C>, R>` is one unpadded run of R*C values, as `operator[]` at Matrix.h:313-320 does when it indexes past the first inner array from `&mStorage[0][0]`. C++ does not strictly guarantee this layout.
- IntersectCylindersMain.cpp, the sample program that uses these matrices, is a user interface and is not part of this model.

## Findings

| source | as written | input that shows it | evidently intended | confidence | as-written member | corrected member |
|---|---|---|---|---|---|---|
| GTE/Mathematics/Matrix.h:477 | `LInfinityNorm` seeds the running maximum with `M[0]` rather than `std::fabs(M[0])` | the 1-by-1 matrix [-3] gives -3 | the largest absolute value of any cell, 3 for that input | high (not executed) | Arithmetic.LInfinityNorm, Algebra.NegativeSeedCounterexample | Arithmetic.MaxAbsNorm |
