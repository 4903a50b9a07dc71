/** Logical matrices.  An R-by-C matrix is a sequence of R rows of C cells;
    cell (r, c) is g[r][c].  These are the reference definitions that the
    storage-backed Matrix class is proved against; none of them mentions the
    physical storage order, so a result stated in these terms is the same
    under both layouts. */
module Algebra {

  /** g has `rows` rows of `cols` cells each. */
  predicate IsGrid(g: seq<seq<real>>, rows: nat, cols: nat) {
    |g| == rows && forall r :: 0 <= r < rows ==> |g[r]| == cols
  }

  /** Two grids of one shape that agree on every cell are equal. */
  lemma Ext(g: seq<seq<real>>, h: seq<seq<real>>, rows: nat, cols: nat)
    requires IsGrid(g, rows, cols) && IsGrid(h, rows, cols)
    requires forall r, c :: 0 <= r < rows && 0 <= c < cols ==> g[r][c] == h[r][c]
    ensures g == h
  {
    forall r | 0 <= r < rows
      ensures g[r] == h[r]
    {
      assert forall c :: 0 <= c < cols ==> g[r][c] == h[r][c];
    }
  }

  lemma MulLeq(a: nat, b: nat, k: nat)
    requires a <= b
    ensures a * k <= b * k
  {
    assert b * k == a * k + (b - a) * k;
  }

  /** Where cell (r, c) sits in a list that holds an R-by-C matrix row after row. */
  function RowMajorPosition(rows: nat, cols: nat, r: nat, c: nat): (i: nat)
    requires r < rows && c < cols
    ensures i < rows * cols
  {
    MulLeq(r + 1, rows, cols);
    r * cols + c
  }

  // ---------------------------------------------------------------------
  // Special matrices and construction from lists

  function Zero(rows: nat, cols: nat): (z: seq<seq<real>>)
    ensures IsGrid(z, rows, cols)
  {
    seq(rows, _ => seq(cols, _ => 0.0))
  }

  /** The standard basis matrix with a 1 at (r, c); indices are not checked. */
  function Unit(rows: nat, cols: nat, r: int, c: int): (u: seq<seq<real>>)
    ensures IsGrid(u, rows, cols)
  {
    seq(rows, i => seq(cols, j => if i == r && j == c then 1.0 else 0.0))
  }

  /** Ones on the leading diagonal, zeros elsewhere, for any shape. */
  function Identity(rows: nat, cols: nat): (e: seq<seq<real>>)
    ensures IsGrid(e, rows, cols)
  {
    seq(rows, i => seq(cols, j => if i == j then 1.0 else 0.0))
  }

  /** The matrix whose cells, read row after row, are `values`. */
  function FromRowMajor(values: seq<real>, rows: nat, cols: nat): (g: seq<seq<real>>)
    requires |values| == rows * cols
    ensures IsGrid(g, rows, cols)
  {
    seq(rows, r requires 0 <= r < rows =>
      seq(cols, c requires 0 <= c < cols => values[RowMajorPosition(rows, cols, r, c)]))
  }

  /** The matrix filled row after row from `values`, zero where the list runs out. */
  function Padded(values: seq<real>, rows: nat, cols: nat): (g: seq<seq<real>>)
    ensures IsGrid(g, rows, cols)
  {
    seq(rows, r requires 0 <= r < rows =>
      seq(cols, c requires 0 <= c < cols =>
        var i := RowMajorPosition(rows, cols, r, c);
        if i < |values| then values[i] else 0.0))
  }

  /** Out-of-range indices give the zero matrix; otherwise the only nonzero
      cell is a 1 at (r, c). */
  lemma UnitIsBasisOrZero(rows: nat, cols: nat, r: int, c: int)
    ensures 0 <= r < rows && 0 <= c < cols ==>
      Unit(rows, cols, r, c) == Zero(rows, cols)[r := Zero(rows, cols)[r][c := 1.0]]
    ensures !(0 <= r < rows && 0 <= c < cols) ==> Unit(rows, cols, r, c) == Zero(rows, cols)
  {
    var z := Zero(rows, cols);
    if 0 <= r < rows && 0 <= c < cols {
      Ext(Unit(rows, cols, r, c), z[r := z[r][c := 1.0]], rows, cols);
    } else {
      Ext(Unit(rows, cols, r, c), z, rows, cols);
    }
  }

  /** Row r + 1 starts C cells after row r. */
  lemma NextRowStart(r: nat, cols: nat)
    ensures (r + 1) * cols == r * cols + cols
  {
  }

  /** Once the list has run out at cell (r, c), the rest of row r is zero. */
  lemma PaddedRowTailZero(values: seq<real>, rows: nat, cols: nat, r: nat, c: nat)
    requires r < rows && c <= cols && r * cols + c >= |values|
    ensures forall b :: c <= b < cols ==> Padded(values, rows, cols)[r][b] == 0.0
  {
  }

  /** Once the list has run out before row r, rows r and after are zero. */
  lemma PaddedRowsZero(values: seq<real>, rows: nat, cols: nat, r: nat)
    requires r <= rows && r * cols >= |values|
    ensures forall a, b :: r <= a < rows && 0 <= b < cols ==> Padded(values, rows, cols)[a][b] == 0.0
  {
    forall a, b | r <= a < rows && 0 <= b < cols
      ensures Padded(values, rows, cols)[a][b] == 0.0
    {
      MulLeq(r, a, cols);
    }
  }

  /** A list of exactly R*C values fills every cell, as the full-list constructor does. */
  lemma PaddedFullList(values: seq<real>, rows: nat, cols: nat)
    requires |values| == rows * cols
    ensures Padded(values, rows, cols) == FromRowMajor(values, rows, cols)
  {
    Ext(Padded(values, rows, cols), FromRowMajor(values, rows, cols), rows, cols);
  }

  /** Values past the first R*C are ignored. */
  lemma PaddedIgnoresExcess(values: seq<real>, rows: nat, cols: nat)
    requires |values| > rows * cols
    ensures Padded(values, rows, cols) == Padded(values[..rows * cols], rows, cols)
  {
    Ext(Padded(values, rows, cols), Padded(values[..rows * cols], rows, cols), rows, cols);
  }

  /** {1} fills a 2-by-2 matrix as [[1,0],[0,0]]; {1,2,3,4,5} as [[1,2],[3,4]]. */
  lemma PaddedExamples()
    ensures Padded([1.0], 2, 2) == [[1.0, 0.0], [0.0, 0.0]]
    ensures Padded([1.0, 2.0, 3.0, 4.0, 5.0], 2, 2) == [[1.0, 2.0], [3.0, 4.0]]
  {
    Ext(Padded([1.0], 2, 2), [[1.0, 0.0], [0.0, 0.0]], 2, 2);
    Ext(Padded([1.0, 2.0, 3.0, 4.0, 5.0], 2, 2), [[1.0, 2.0], [3.0, 4.0]], 2, 2);
  }

  // ---------------------------------------------------------------------
  // Element-wise arithmetic

  function Neg(g: seq<seq<real>>, rows: nat, cols: nat): (n: seq<seq<real>>)
    requires IsGrid(g, rows, cols)
    ensures IsGrid(n, rows, cols)
  {
    seq(rows, r requires 0 <= r < rows => seq(cols, c requires 0 <= c < cols => -g[r][c]))
  }

  function Add(g: seq<seq<real>>, h: seq<seq<real>>, rows: nat, cols: nat): (s: seq<seq<real>>)
    requires IsGrid(g, rows, cols) && IsGrid(h, rows, cols)
    ensures IsGrid(s, rows, cols)
  {
    seq(rows, r requires 0 <= r < rows => seq(cols, c requires 0 <= c < cols => g[r][c] + h[r][c]))
  }

  function Sub(g: seq<seq<real>>, h: seq<seq<real>>, rows: nat, cols: nat): (d: seq<seq<real>>)
    requires IsGrid(g, rows, cols) && IsGrid(h, rows, cols)
    ensures IsGrid(d, rows, cols)
  {
    seq(rows, r requires 0 <= r < rows => seq(cols, c requires 0 <= c < cols => g[r][c] - h[r][c]))
  }

  function Scale(g: seq<seq<real>>, rows: nat, cols: nat, s: real): (p: seq<seq<real>>)
    requires IsGrid(g, rows, cols)
    ensures IsGrid(p, rows, cols)
  {
    seq(rows, r requires 0 <= r < rows => seq(cols, c requires 0 <= c < cols => g[r][c] * s))
  }

  /** M + (-M) is the zero matrix (exact arithmetic). */
  lemma AddNegIsZero(g: seq<seq<real>>, rows: nat, cols: nat)
    requires IsGrid(g, rows, cols)
    ensures Add(g, Neg(g, rows, cols), rows, cols) == Zero(rows, cols)
  {
    Ext(Add(g, Neg(g, rows, cols), rows, cols), Zero(rows, cols), rows, cols);
  }

  /** M - N == M + (-N). */
  lemma SubIsAddNeg(g: seq<seq<real>>, h: seq<seq<real>>, rows: nat, cols: nat)
    requires IsGrid(g, rows, cols) && IsGrid(h, rows, cols)
    ensures Sub(g, h, rows, cols) == Add(g, Neg(h, rows, cols), rows, cols)
  {
    Ext(Sub(g, h, rows, cols), Add(g, Neg(h, rows, cols), rows, cols), rows, cols);
  }

  /** (M / s) * s == M for a nonzero s (exact arithmetic). */
  lemma ScaleByInverse(g: seq<seq<real>>, rows: nat, cols: nat, s: real)
    requires IsGrid(g, rows, cols) && s != 0.0
    ensures Scale(Scale(g, rows, cols, 1.0 / s), rows, cols, s) == g
  {
    forall r, c | 0 <= r < rows && 0 <= c < cols
      ensures Scale(Scale(g, rows, cols, 1.0 / s), rows, cols, s)[r][c] == g[r][c]
    {
      calc {
        Scale(Scale(g, rows, cols, 1.0 / s), rows, cols, s)[r][c];
        g[r][c] * (1.0 / s) * s;
        g[r][c] * ((1.0 / s) * s);
        g[r][c];
      }
    }
    Ext(Scale(Scale(g, rows, cols, 1.0 / s), rows, cols, s), g, rows, cols);
  }

  // ---------------------------------------------------------------------
  // Transpose, dot products, products

  function Transposed(g: seq<seq<real>>, rows: nat, cols: nat): (t: seq<seq<real>>)
    requires IsGrid(g, rows, cols)
    ensures IsGrid(t, cols, rows)
  {
    seq(cols, c requires 0 <= c < cols => seq(rows, r requires 0 <= r < rows => g[r][c]))
  }

  /** Transposing twice gives back the matrix. */
  lemma TransposeInvolutive(g: seq<seq<real>>, rows: nat, cols: nat)
    requires IsGrid(g, rows, cols)
    ensures Transposed(Transposed(g, rows, cols), cols, rows) == g
  {
    Ext(Transposed(Transposed(g, rows, cols), cols, rows), g, rows, cols);
  }

  function Column(g: seq<seq<real>>, rows: nat, cols: nat, c: nat): (col: seq<real>)
    requires IsGrid(g, rows, cols) && c < cols
    ensures |col| == rows
  {
    seq(rows, r requires 0 <= r < rows => g[r][c])
  }

  /** The sum of u[i] * v[i] over i < n, accumulated in increasing i. */
  function DotUpTo(u: seq<real>, v: seq<real>, n: nat): real
    requires n <= |u| && n <= |v|
  {
    if n == 0 then 0.0 else DotUpTo(u, v, n - 1) + u[n - 1] * v[n - 1]
  }

  /** One more term of a running dot product, with the factors named. */
  lemma DotUpToStep(u: seq<real>, v: seq<real>, n: nat, acc: real, x: real, y: real)
    requires n < |u| && n < |v| && acc == DotUpTo(u, v, n) && x == u[n] && y == v[n]
    ensures acc + x * y == DotUpTo(u, v, n + 1)
  {
  }

  function Dot(u: seq<real>, v: seq<real>): real
    requires |u| == |v|
  {
    DotUpTo(u, v, |u|)
  }

  /** M*V: entry r is the dot product of row r with V. */
  function MatVec(m: seq<seq<real>>, rows: nat, cols: nat, v: seq<real>): (w: seq<real>)
    requires IsGrid(m, rows, cols) && |v| == cols
    ensures |w| == rows
  {
    seq(rows, r requires 0 <= r < rows => Dot(m[r], v))
  }

  /** V^T*M: entry c is the dot product of V with column c. */
  function VecMat(v: seq<real>, m: seq<seq<real>>, rows: nat, cols: nat): (w: seq<real>)
    requires IsGrid(m, rows, cols) && |v| == rows
    ensures |w| == cols
  {
    seq(cols, c requires 0 <= c < cols => Dot(v, Column(m, rows, cols, c)))
  }

  /** A*B: cell (r, c) is the dot product of row r of A with column c of B. */
  function Product(a: seq<seq<real>>, b: seq<seq<real>>, rows: nat, common: nat, cols: nat): (p: seq<seq<real>>)
    requires IsGrid(a, rows, common) && IsGrid(b, common, cols)
    ensures IsGrid(p, rows, cols)
  {
    seq(rows, r requires 0 <= r < rows =>
      seq(cols, c requires 0 <= c < cols => Dot(a[r], Column(b, common, cols, c))))
  }

  /** Row c of B^T is column c of B. */
  lemma TransposedRowIsColumn(g: seq<seq<real>>, rows: nat, cols: nat, c: nat)
    requires IsGrid(g, rows, cols) && c < cols
    ensures Transposed(g, rows, cols)[c] == Column(g, rows, cols, c)
  {
  }

  /** Column c of B^T is row c of B. */
  lemma ColumnOfTransposed(g: seq<seq<real>>, rows: nat, cols: nat, r: nat)
    requires IsGrid(g, rows, cols) && r < rows
    ensures Column(Transposed(g, rows, cols), cols, rows, r) == g[r]
  {
  }

  /** A dot product with a single nonzero term is that term. */
  lemma {:induction false} DotSingle(u: seq<real>, v: seq<real>, n: nat, k: nat)
    requires n <= |u| && n <= |v| && k < |u| && k < |v|
    requires forall i :: 0 <= i < n && i != k ==> u[i] * v[i] == 0.0
    ensures DotUpTo(u, v, n) == if k < n then u[k] * v[k] else 0.0
  {
    if n > 0 {
      DotSingle(u, v, n - 1, k);
    }
  }

  lemma {:induction false} DotUpToSymmetric(u: seq<real>, v: seq<real>, n: nat)
    requires n <= |u| && n <= |v|
    ensures DotUpTo(u, v, n) == DotUpTo(v, u, n)
  {
    if n > 0 {
      DotUpToSymmetric(u, v, n - 1);
    }
  }

  /** Identity() * V == V. */
  lemma IdentityTimesVector(n: nat, v: seq<real>)
    requires |v| == n
    ensures MatVec(Identity(n, n), n, n, v) == v
  {
    forall r | 0 <= r < n
      ensures MatVec(Identity(n, n), n, n, v)[r] == v[r]
    {
      DotSingle(Identity(n, n)[r], v, n, r);
    }
  }

  /** Identity() * A == A. */
  lemma IdentityTimesMatrix(a: seq<seq<real>>, rows: nat, cols: nat)
    requires IsGrid(a, rows, cols)
    ensures Product(Identity(rows, rows), a, rows, rows, cols) == a
  {
    var e := Identity(rows, rows);
    forall r, c | 0 <= r < rows && 0 <= c < cols
      ensures Product(e, a, rows, rows, cols)[r][c] == a[r][c]
    {
      DotSingle(e[r], Column(a, rows, cols, c), rows, r);
    }
    Ext(Product(e, a, rows, rows, cols), a, rows, cols);
  }

  /** A * Identity() == A. */
  lemma MatrixTimesIdentity(a: seq<seq<real>>, rows: nat, cols: nat)
    requires IsGrid(a, rows, cols)
    ensures Product(a, Identity(cols, cols), rows, cols, cols) == a
  {
    var e := Identity(cols, cols);
    forall r, c | 0 <= r < rows && 0 <= c < cols
      ensures Product(a, e, rows, cols, cols)[r][c] == a[r][c]
    {
      DotSingle(a[r], Column(e, cols, cols, c), cols, c);
    }
    Ext(Product(a, e, rows, cols, cols), a, rows, cols);
  }

  /** Identity() * Identity() == Identity(). */
  lemma IdentityTimesIdentity(n: nat)
    ensures Product(Identity(n, n), Identity(n, n), n, n, n) == Identity(n, n)
  {
    IdentityTimesMatrix(Identity(n, n), n, n);
  }

  /** (A B)^T == B^T A^T. */
  lemma TransposeOfProduct(a: seq<seq<real>>, b: seq<seq<real>>, rows: nat, common: nat, cols: nat)
    requires IsGrid(a, rows, common) && IsGrid(b, common, cols)
    ensures Transposed(Product(a, b, rows, common, cols), rows, cols)
         == Product(Transposed(b, common, cols), Transposed(a, rows, common), cols, common, rows)
  {
    var lhs := Transposed(Product(a, b, rows, common, cols), rows, cols);
    var rhs := Product(Transposed(b, common, cols), Transposed(a, rows, common), cols, common, rows);
    forall c, r | 0 <= c < cols && 0 <= r < rows
      ensures lhs[c][r] == rhs[c][r]
    {
      TransposedRowIsColumn(b, common, cols, c);
      ColumnOfTransposed(a, rows, common, r);
      DotUpToSymmetric(a[r], Column(b, common, cols, c), common);
    }
    Ext(lhs, rhs, cols, rows);
  }

  /** V^T M == M^T V. */
  lemma VecMatIsTransposedMatVec(v: seq<real>, m: seq<seq<real>>, rows: nat, cols: nat)
    requires IsGrid(m, rows, cols) && |v| == rows
    ensures VecMat(v, m, rows, cols) == MatVec(Transposed(m, rows, cols), cols, rows, v)
  {
    forall c | 0 <= c < cols
      ensures VecMat(v, m, rows, cols)[c] == MatVec(Transposed(m, rows, cols), cols, rows, v)[c]
    {
      TransposedRowIsColumn(m, rows, cols, c);
      DotUpToSymmetric(v, Column(m, rows, cols, c), rows);
    }
  }

  // ---------------------------------------------------------------------
  // Diagonal matrices held as vectors, outer product

  /** The N-by-N matrix with D on its diagonal and zeros elsewhere. */
  function Diagonal(d: seq<real>): (m: seq<seq<real>>)
    ensures IsGrid(m, |d|, |d|)
  {
    seq(|d|, r requires 0 <= r < |d| => seq(|d|, c requires 0 <= c < |d| => if r == c then d[r] else 0.0))
  }

  /** M*D: column c of M scaled by D[c]. */
  function ScaleColumns(m: seq<seq<real>>, rows: nat, cols: nat, d: seq<real>): (p: seq<seq<real>>)
    requires IsGrid(m, rows, cols) && |d| == cols
    ensures IsGrid(p, rows, cols)
  {
    seq(rows, r requires 0 <= r < rows => seq(cols, c requires 0 <= c < cols => m[r][c] * d[c]))
  }

  /** D*M: row r of M scaled by D[r]. */
  function ScaleRows(d: seq<real>, m: seq<seq<real>>, rows: nat, cols: nat): (p: seq<seq<real>>)
    requires IsGrid(m, rows, cols) && |d| == rows
    ensures IsGrid(p, rows, cols)
  {
    seq(rows, r requires 0 <= r < rows => seq(cols, c requires 0 <= c < cols => d[r] * m[r][c]))
  }

  /** Scaling the columns is multiplying on the right by the diagonal matrix. */
  lemma ScaleColumnsIsDiagonalProduct(m: seq<seq<real>>, rows: nat, cols: nat, d: seq<real>)
    requires IsGrid(m, rows, cols) && |d| == cols
    ensures ScaleColumns(m, rows, cols, d) == Product(m, Diagonal(d), rows, cols, cols)
  {
    var p := Product(m, Diagonal(d), rows, cols, cols);
    forall r, c | 0 <= r < rows && 0 <= c < cols
      ensures p[r][c] == m[r][c] * d[c]
    {
      DotSingle(m[r], Column(Diagonal(d), cols, cols, c), cols, c);
    }
    Ext(ScaleColumns(m, rows, cols, d), p, rows, cols);
  }

  /** Scaling the rows is multiplying on the left by the diagonal matrix. */
  lemma ScaleRowsIsDiagonalProduct(d: seq<real>, m: seq<seq<real>>, rows: nat, cols: nat)
    requires IsGrid(m, rows, cols) && |d| == rows
    ensures ScaleRows(d, m, rows, cols) == Product(Diagonal(d), m, rows, rows, cols)
  {
    var p := Product(Diagonal(d), m, rows, rows, cols);
    forall r, c | 0 <= r < rows && 0 <= c < cols
      ensures p[r][c] == d[r] * m[r][c]
    {
      DotSingle(Diagonal(d)[r], Column(m, rows, cols, c), rows, r);
    }
    Ext(ScaleRows(d, m, rows, cols), p, rows, cols);
  }

  /** U V^T: cell (r, c) is U[r] * V[c]. */
  function Outer(u: seq<real>, v: seq<real>): (m: seq<seq<real>>)
    ensures IsGrid(m, |u|, |v|)
  {
    seq(|u|, r requires 0 <= r < |u| => seq(|v|, c requires 0 <= c < |v| => u[r] * v[c]))
  }

  /** The outer product is the product of U as a column with V as a row. */
  lemma OuterIsProduct(u: seq<real>, v: seq<real>)
    ensures IsGrid(seq(|u|, r requires 0 <= r < |u| => [u[r]]), |u|, 1) && IsGrid([v], 1, |v|)
    ensures Outer(u, v) == Product(seq(|u|, r requires 0 <= r < |u| => [u[r]]), [v], |u|, 1, |v|)
  {
    var col := seq(|u|, r requires 0 <= r < |u| => [u[r]]);
    var p := Product(col, [v], |u|, 1, |v|);
    forall r, c | 0 <= r < |u| && 0 <= c < |v|
      ensures p[r][c] == u[r] * v[c]
    {
      assert Column([v], 1, |v|, c) == [v[c]];
      assert col[r] == [u[r]];
      assert p[r][c] == DotUpTo([u[r]], [v[c]], 1) == 0.0 + u[r] * v[c];
    }
    Ext(Outer(u, v), p, |u|, |v|);
  }

  // ---------------------------------------------------------------------
  // Homogeneous lift and project

  /** The (N+1)-by-(N+1) matrix with M in the upper N-by-N block, a 1 in the
      corner and zeros in the rest of the last row and column. */
  function Lift(m: seq<seq<real>>, n: nat): (h: seq<seq<real>>)
    requires IsGrid(m, n, n)
    ensures IsGrid(h, n + 1, n + 1)
  {
    seq(n + 1, r requires 0 <= r <= n => seq(n + 1, c requires 0 <= c <= n =>
      if r < n && c < n then m[r][c] else if r == c then 1.0 else 0.0))
  }

  /** The upper (N-1)-by-(N-1) block of an N-by-N matrix. */
  function Project(m: seq<seq<real>>, n: nat): (p: seq<seq<real>>)
    requires IsGrid(m, n, n) && n >= 2
    ensures IsGrid(p, n - 1, n - 1)
  {
    seq(n - 1, r requires 0 <= r < n - 1 => seq(n - 1, c requires 0 <= c < n - 1 => m[r][c]))
  }

  /** HLift's shape: M in the upper N-by-N block, 1 in the corner (N, N),
      0 in the rest of the last row and the last column.  This restates the
      definition of Lift region by region, in the terms of the comment on
      HLift; Dafny reads it off the definition directly. */
  lemma LiftShape(m: seq<seq<real>>, n: nat)
    requires IsGrid(m, n, n)
    ensures forall r, c :: 0 <= r < n && 0 <= c < n ==> Lift(m, n)[r][c] == m[r][c]
    ensures Lift(m, n)[n][n] == 1.0
    ensures forall i :: 0 <= i < n ==> Lift(m, n)[n][i] == 0.0 && Lift(m, n)[i][n] == 0.0
  {
  }

  /** HProject(HLift(M)) == M. */
  lemma ProjectLift(m: seq<seq<real>>, n: nat)
    requires IsGrid(m, n, n) && n >= 1
    ensures Project(Lift(m, n), n + 1) == m
  {
    Ext(Project(Lift(m, n), n + 1), m, n, n);
  }

  // ---------------------------------------------------------------------
  // Sums for the norms

  function Abs(x: real): real {
    if x < 0.0 then -x else x
  }

  function Square(x: real): real {
    x * x
  }

  /** f applied to each element and summed from the left. */
  function SumOf(s: seq<real>, f: real -> real): real {
    if |s| == 0 then 0.0 else SumOf(s[..|s| - 1], f) + f(s[|s| - 1])
  }

  /** f summed over every cell, row after row. */
  function GridSum(g: seq<seq<real>>, f: real -> real): real {
    if |g| == 0 then 0.0 else GridSum(g[..|g| - 1], f) + SumOf(g[|g| - 1], f)
  }

  /** The rows laid end to end. */
  function Flatten(g: seq<seq<real>>): seq<real> {
    if |g| == 0 then [] else Flatten(g[..|g| - 1]) + g[|g| - 1]
  }

  lemma {:induction false} SumOfConcat(a: seq<real>, b: seq<real>, f: real -> real)
    ensures SumOf(a + b, f) == SumOf(a, f) + SumOf(b, f)
  {
    if |b| > 0 {
      assert (a + b)[..|a + b| - 1] == a + b[..|b| - 1];
      SumOfConcat(a, b[..|b| - 1], f);
    } else {
      assert a + b == a;
    }
  }

  /** Flattening peels off the first row as well as the last. */
  lemma {:induction false} FlattenCons(g: seq<seq<real>>)
    requires |g| > 0
    ensures Flatten(g) == g[0] + Flatten(g[1..])
    decreases |g|
  {
    if |g| > 1 {
      var init := g[..|g| - 1];
      FlattenCons(init);
      assert init[1..] == g[1..][..|g[1..]| - 1];
      assert init[0] == g[0];
    } else {
      assert g[..0] == [];
      assert g[1..] == [];
    }
  }

  lemma {:induction false} FlattenAt(g: seq<seq<real>>, rows: nat, cols: nat)
    requires IsGrid(g, rows, cols)
    ensures |Flatten(g)| == rows * cols
    ensures forall r, c :: 0 <= r < rows && 0 <= c < cols ==>
      Flatten(g)[RowMajorPosition(rows, cols, r, c)] == g[r][c]
  {
    if rows > 0 {
      var init := g[..rows - 1];
      FlattenAt(init, rows - 1, cols);
      assert |Flatten(g)| == (rows - 1) * cols + cols == rows * cols;
      forall r, c | 0 <= r < rows && 0 <= c < cols
        ensures Flatten(g)[RowMajorPosition(rows, cols, r, c)] == g[r][c]
      {
        if r < rows - 1 {
          assert RowMajorPosition(rows, cols, r, c) == RowMajorPosition(rows - 1, cols, r, c);
        } else {
          assert RowMajorPosition(rows, cols, r, c) == (rows - 1) * cols + c;
        }
      }
    }
  }

  lemma {:induction false} SumOfFlatten(g: seq<seq<real>>, f: real -> real)
    ensures SumOf(Flatten(g), f) == GridSum(g, f)
  {
    if |g| > 0 {
      SumOfFlatten(g[..|g| - 1], f);
      SumOfConcat(Flatten(g[..|g| - 1]), g[|g| - 1], f);
    }
  }

  lemma {:induction false} GridSumOfEmptyRows(g: seq<seq<real>>, f: real -> real)
    requires forall r :: 0 <= r < |g| ==> g[r] == []
    ensures GridSum(g, f) == 0.0
  {
    if |g| > 0 {
      GridSumOfEmptyRows(g[..|g| - 1], f);
    }
  }

  /** Appending x[c] to each row h[c] adds the sum of x. */
  lemma {:induction false} GridSumAppendColumn(h: seq<seq<real>>, x: seq<real>, f: real -> real)
    requires |h| == |x|
    ensures GridSum(seq(|h|, c requires 0 <= c < |h| => h[c] + [x[c]]), f) == GridSum(h, f) + SumOf(x, f)
  {
    var w := seq(|h|, c requires 0 <= c < |h| => h[c] + [x[c]]);
    if |h| > 0 {
      var k := |h| - 1;
      assert w[..k] == seq(k, c requires 0 <= c < k => h[..k][c] + [x[..k][c]]);
      GridSumAppendColumn(h[..k], x[..k], f);
      assert (h[k] + [x[k]])[..|h[k]|] == h[k];
    }
  }

  /** Summing column after column gives the same as row after row. */
  lemma {:induction false} GridSumTransposed(g: seq<seq<real>>, rows: nat, cols: nat, f: real -> real)
    requires IsGrid(g, rows, cols)
    ensures GridSum(Transposed(g, rows, cols), f) == GridSum(g, f)
  {
    if rows == 0 {
      GridSumOfEmptyRows(Transposed(g, rows, cols), f);
    } else {
      var init := g[..rows - 1];
      var last := g[rows - 1];
      var ti := Transposed(init, rows - 1, cols);
      GridSumTransposed(init, rows - 1, cols, f);
      forall c | 0 <= c < cols
        ensures Transposed(g, rows, cols)[c] == ti[c] + [last[c]]
      {
      }
      assert Transposed(g, rows, cols) == seq(|ti|, c requires 0 <= c < |ti| => ti[c] + [last[c]]);
      GridSumAppendColumn(ti, last, f);
    }
  }

  /** A sum of a nonnegative f is nonnegative, and zero exactly when every term is. */
  lemma {:induction false} SumOfNonNegative(s: seq<real>, f: real -> real)
    requires forall x :: f(x) >= 0.0
    ensures SumOf(s, f) >= 0.0
    ensures SumOf(s, f) == 0.0 <==> forall i :: 0 <= i < |s| ==> f(s[i]) == 0.0
  {
    if |s| > 0 {
      var init := s[..|s| - 1];
      SumOfNonNegative(init, f);
      assert forall i :: 0 <= i < |init| ==> init[i] == s[i];
    }
  }

  /** The same over every cell of a grid. */
  lemma {:induction false} GridSumNonNegative(g: seq<seq<real>>, f: real -> real)
    requires forall x :: f(x) >= 0.0
    ensures GridSum(g, f) >= 0.0
    ensures GridSum(g, f) == 0.0 <==>
      forall r, c :: 0 <= r < |g| && 0 <= c < |g[r]| ==> f(g[r][c]) == 0.0
  {
    if |g| > 0 {
      var init := g[..|g| - 1];
      GridSumNonNegative(init, f);
      SumOfNonNegative(g[|g| - 1], f);
      assert forall r :: 0 <= r < |init| ==> init[r] == g[r];
    }
  }

  /** The L1 norm is nonnegative and zero only for the zero matrix. */
  lemma L1NormDefinite(g: seq<seq<real>>, rows: nat, cols: nat)
    requires IsGrid(g, rows, cols)
    ensures GridSum(g, Abs) >= 0.0
    ensures GridSum(g, Abs) == 0.0 <==> g == Zero(rows, cols)
  {
    GridSumNonNegative(g, Abs);
    if GridSum(g, Abs) == 0.0 {
      forall r, c | 0 <= r < rows && 0 <= c < cols
        ensures g[r][c] == Zero(rows, cols)[r][c]
      {
        assert Abs(g[r][c]) == 0.0;
      }
      Ext(g, Zero(rows, cols), rows, cols);
    }
  }

  /** The sum of squares under the L2 norm is nonnegative, and it is zero for
      the zero matrix. */
  lemma L2NormSquaredNonNegative(g: seq<seq<real>>, rows: nat, cols: nat)
    requires IsGrid(g, rows, cols)
    ensures GridSum(g, Square) >= 0.0
    ensures g == Zero(rows, cols) ==> GridSum(g, Square) == 0.0
  {
    forall x: real ensures Square(x) >= 0.0 {
      SquareNonNegative(x);
    }
    GridSumNonNegative(g, Square);
  }

  lemma SquareNonNegative(x: real)
    ensures Square(x) >= 0.0
  {
  }

  // ---------------------------------------------------------------------
  // The infinity norm: as written and as intended

  /** What LInfinityNorm computes: a value at least the raw cell (0,0) and at
      least |cell| for every other cell, and equal to one of those. */
  predicate IsSeededMax(g: seq<seq<real>>, rows: nat, cols: nat, x: real)
    requires IsGrid(g, rows, cols) && rows >= 1 && cols >= 1
  {
    && x >= g[0][0]
    && (forall r, c :: 0 <= r < rows && 0 <= c < cols && (r != 0 || c != 0) ==> x >= Abs(g[r][c]))
    && (x == g[0][0] || exists r, c :: 0 <= r < rows && 0 <= c < cols && (r != 0 || c != 0) && x == Abs(g[r][c]))
  }

  /** The largest absolute value of any cell. */
  predicate IsMaxAbs(g: seq<seq<real>>, rows: nat, cols: nat, x: real)
    requires IsGrid(g, rows, cols)
  {
    && (forall r, c :: 0 <= r < rows && 0 <= c < cols ==> x >= Abs(g[r][c]))
    && (exists r, c :: 0 <= r < rows && 0 <= c < cols && x == Abs(g[r][c]))
  }

  /** For the 1-by-1 matrix [-3] the seeded maximum is -3, not the maximum
      absolute value 3. */
  lemma NegativeSeedCounterexample(x: real)
    requires IsSeededMax([[-3.0]], 1, 1, x)
    ensures x == -3.0 && !IsMaxAbs([[-3.0]], 1, 1, x)
  {
  }

  /** When cell (0, 0) is nonnegative the seed does no harm: the value
      LInfinityNorm computes is exactly the largest absolute value. */
  lemma SeededMaxIsMaxAbs(g: seq<seq<real>>, rows: nat, cols: nat, x: real)
    requires IsGrid(g, rows, cols) && rows >= 1 && cols >= 1 && g[0][0] >= 0.0
    ensures IsSeededMax(g, rows, cols, x) <==> IsMaxAbs(g, rows, cols, x)
  {
    if IsSeededMax(g, rows, cols, x) {
      if x != g[0][0] {
        var r, c :| 0 <= r < rows && 0 <= c < cols && (r != 0 || c != 0) && x == Abs(g[r][c]);
      }
      assert x >= Abs(g[0][0]);
    }
    if IsMaxAbs(g, rows, cols, x) {
      var r, c :| 0 <= r < rows && 0 <= c < cols && x == Abs(g[r][c]);
      if r == 0 && c == 0 {
        assert x == g[0][0];
      }
    }
  }
}
