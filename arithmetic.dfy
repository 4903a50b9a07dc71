/** The element-wise operators on matrices (unary + and -, +, -, scalar * and
    /, and their compound-assignment forms) and the three entry-wise norms.
    All of them walk the flat table with one index i < R*C, so they are the
    same in both layouts; every result is stated on the logical matrix. */
module Arithmetic {
  import Algebra
  import opened Table
  import opened Matrices

  /** Two matrices of one template instance: same size, same storage order. */
  predicate SameShape(a: Matrix, b: Matrix) {
    a.rows == b.rows && a.cols == b.cols && a.layout == b.layout
  }

  // ---------------------------------------------------------------------
  // Unary operators

  /** operator+(M): a copy of M. */
  method Plus(M: Matrix) returns (result: Matrix)
    requires M.Valid()
    ensures fresh(result) && fresh(result.data) && result.Valid() && SameShape(result, M)
    ensures result.Grid() == M.Grid()
    ensures unchanged(M.data)
  {
    result := new Matrix.Copy(M);
  }

  /** operator-(M): result[i] = -M[i] over the flat table. */
  method Negate(M: Matrix) returns (result: Matrix)
    requires M.Valid()
    ensures fresh(result) && fresh(result.data) && result.Valid() && SameShape(result, M)
    ensures result.Grid() == Algebra.Neg(M.Grid(), M.rows, M.cols)
    ensures unchanged(M.data)
  {
    result := new Matrix(M.rows, M.cols, M.layout);
    var n := M.rows * M.cols;
    var i := 0;
    while i < n
      invariant 0 <= i <= n
      invariant forall k :: 0 <= k < i ==> result.data[k] == -M.data[k]
    {
      result.data[i] := -M.data[i];
      i := i + 1;
    }
    Algebra.Ext(result.Grid(), Algebra.Neg(M.Grid(), M.rows, M.cols), M.rows, M.cols);
  }

  // ---------------------------------------------------------------------
  // Compound assignments.  M1 may be M0 itself (M += M): cell i of M1 is
  // read before cell i of M0 is written, so each step uses the old value.

  /** operator+=: M0[i] += M1[i]. */
  method AddAssign(M0: Matrix, M1: Matrix)
    requires M0.Valid() && M1.Valid() && SameShape(M0, M1)
    modifies M0.data
    ensures M0.Grid() == Algebra.Add(old(M0.Grid()), old(M1.Grid()), M0.rows, M0.cols)
  {
    ghost var s0, s1 := M0.data[..], M1.data[..];
    ghost var g0, g1 := M0.Grid(), M1.Grid();
    var n := M0.rows * M0.cols;
    var i := 0;
    while i < n
      invariant 0 <= i <= n
      invariant forall k :: 0 <= k < i ==> M0.data[k] == s0[k] + s1[k]
      invariant forall k :: i <= k < n ==> M0.data[k] == s0[k] && M1.data[k] == s1[k]
    {
      M0.data[i] := M0.data[i] + M1.data[i];
      i := i + 1;
    }
    Algebra.Ext(M0.Grid(), Algebra.Add(g0, g1, M0.rows, M0.cols), M0.rows, M0.cols);
  }

  /** operator-=: M0[i] -= M1[i]. */
  method SubtractAssign(M0: Matrix, M1: Matrix)
    requires M0.Valid() && M1.Valid() && SameShape(M0, M1)
    modifies M0.data
    ensures M0.Grid() == Algebra.Sub(old(M0.Grid()), old(M1.Grid()), M0.rows, M0.cols)
  {
    ghost var s0, s1 := M0.data[..], M1.data[..];
    ghost var g0, g1 := M0.Grid(), M1.Grid();
    var n := M0.rows * M0.cols;
    var i := 0;
    while i < n
      invariant 0 <= i <= n
      invariant forall k :: 0 <= k < i ==> M0.data[k] == s0[k] - s1[k]
      invariant forall k :: i <= k < n ==> M0.data[k] == s0[k] && M1.data[k] == s1[k]
    {
      M0.data[i] := M0.data[i] - M1.data[i];
      i := i + 1;
    }
    Algebra.Ext(M0.Grid(), Algebra.Sub(g0, g1, M0.rows, M0.cols), M0.rows, M0.cols);
  }

  /** operator*=(M, scalar): M[i] *= scalar. */
  method MultiplyAssign(M: Matrix, scalar: real)
    requires M.Valid()
    modifies M.data
    ensures M.Grid() == Algebra.Scale(old(M.Grid()), M.rows, M.cols, scalar)
  {
    ghost var s := M.data[..];
    ghost var g := M.Grid();
    var n := M.rows * M.cols;
    var i := 0;
    while i < n
      invariant 0 <= i <= n
      invariant forall k :: 0 <= k < i ==> M.data[k] == s[k] * scalar
      invariant forall k :: i <= k < n ==> M.data[k] == s[k]
    {
      M.data[i] := M.data[i] * scalar;
      i := i + 1;
    }
    Algebra.Ext(M.Grid(), Algebra.Scale(g, M.rows, M.cols, scalar), M.rows, M.cols);
  }

  /** operator/=(M, scalar): multiply by 1/scalar, or set every cell to zero
      when scalar is zero. */
  method DivideAssign(M: Matrix, scalar: real)
    requires M.Valid()
    modifies M.data
    ensures scalar != 0.0 ==> M.Grid() == Algebra.Scale(old(M.Grid()), M.rows, M.cols, 1.0 / scalar)
    ensures scalar == 0.0 ==> M.Grid() == Algebra.Zero(M.rows, M.cols)
  {
    var n := M.rows * M.cols;
    if scalar != 0.0 {
      var invScalar := 1.0 / scalar;
      MultiplyAssign(M, invScalar);
    } else {
      var i := 0;
      while i < n
        invariant 0 <= i <= n
        invariant forall k :: 0 <= k < i ==> M.data[k] == 0.0
      {
        M.data[i] := 0.0;
        i := i + 1;
      }
      Algebra.Ext(M.Grid(), Algebra.Zero(M.rows, M.cols), M.rows, M.cols);
    }
  }

  // ---------------------------------------------------------------------
  // Binary operators: copy the left operand, then apply the compound form.

  /** operator+(M0, M1). */
  method Add(M0: Matrix, M1: Matrix) returns (result: Matrix)
    requires M0.Valid() && M1.Valid() && SameShape(M0, M1)
    ensures fresh(result) && fresh(result.data) && result.Valid() && SameShape(result, M0)
    ensures result.Grid() == Algebra.Add(M0.Grid(), M1.Grid(), M0.rows, M0.cols)
    ensures unchanged(M0.data, M1.data)
  {
    result := new Matrix.Copy(M0);
    AddAssign(result, M1);
  }

  /** operator-(M0, M1). */
  method Subtract(M0: Matrix, M1: Matrix) returns (result: Matrix)
    requires M0.Valid() && M1.Valid() && SameShape(M0, M1)
    ensures fresh(result) && fresh(result.data) && result.Valid() && SameShape(result, M0)
    ensures result.Grid() == Algebra.Sub(M0.Grid(), M1.Grid(), M0.rows, M0.cols)
    ensures unchanged(M0.data, M1.data)
  {
    result := new Matrix.Copy(M0);
    SubtractAssign(result, M1);
  }

  /** operator*(M, scalar). */
  method MultiplyScalar(M: Matrix, scalar: real) returns (result: Matrix)
    requires M.Valid()
    ensures fresh(result) && fresh(result.data) && result.Valid() && SameShape(result, M)
    ensures result.Grid() == Algebra.Scale(M.Grid(), M.rows, M.cols, scalar)
    ensures unchanged(M.data)
  {
    result := new Matrix.Copy(M);
    MultiplyAssign(result, scalar);
  }

  /** operator*(scalar, M): the same product, scalar on the right of each cell. */
  method ScalarMultiply(scalar: real, M: Matrix) returns (result: Matrix)
    requires M.Valid()
    ensures fresh(result) && fresh(result.data) && result.Valid() && SameShape(result, M)
    ensures result.Grid() == Algebra.Scale(M.Grid(), M.rows, M.cols, scalar)
    ensures unchanged(M.data)
  {
    result := new Matrix.Copy(M);
    MultiplyAssign(result, scalar);
  }

  /** operator/(M, scalar): M * (1/scalar), or the zero matrix for scalar zero. */
  method Divide(M: Matrix, scalar: real) returns (result: Matrix)
    requires M.Valid()
    ensures fresh(result) && fresh(result.data) && result.Valid() && SameShape(result, M)
    ensures scalar != 0.0 ==> result.Grid() == Algebra.Scale(M.Grid(), M.rows, M.cols, 1.0 / scalar)
    ensures scalar == 0.0 ==> result.Grid() == Algebra.Zero(M.rows, M.cols)
    ensures unchanged(M.data)
  {
    result := new Matrix.Copy(M);
    DivideAssign(result, scalar);
  }

  // ---------------------------------------------------------------------
  // Norms.  Each reads M[0] first, so the matrix has at least one cell.

  lemma SumOfPrefixStep(s: seq<real>, i: nat, f: real -> real)
    requires i < |s|
    ensures Algebra.SumOf(s[..i + 1], f) == Algebra.SumOf(s[..i], f) + f(s[i])
  {
    assert s[..i + 1][..i] == s[..i];
  }

  lemma HasCell(rows: nat, cols: nat)
    requires rows >= 1 && cols >= 1
    ensures rows * cols >= 1
  {
    Algebra.MulLeq(1, rows, cols);
  }

  /** L1Norm: the sum of |M[i]| over the table, which is the sum of the
      absolute values of all cells. */
  method L1Norm(M: Matrix) returns (sum: real)
    requires M.Valid() && M.rows >= 1 && M.cols >= 1
    ensures sum == Algebra.GridSum(M.Grid(), Algebra.Abs)
    ensures sum >= 0.0
    ensures M.Grid() == Algebra.Zero(M.rows, M.cols) ==> sum == 0.0
  {
    HasCell(M.rows, M.cols);
    ghost var s := M.data[..];
    var n := M.rows * M.cols;
    sum := Algebra.Abs(M.data[0]);
    SumOfPrefixStep(s, 0, Algebra.Abs);
    var i := 1;
    while i < n
      invariant 1 <= i <= n
      invariant sum == Algebra.SumOf(s[..i], Algebra.Abs)
    {
      SumOfPrefixStep(s, i, Algebra.Abs);
      sum := sum + Algebra.Abs(M.data[i]);
      i := i + 1;
    }
    assert s[..n] == s;
    StorageRoundTrip(M.layout, M.rows, M.cols, s);
    StorageSum(M.layout, M.rows, M.cols, M.Grid(), Algebra.Abs);
    Algebra.L1NormDefinite(M.Grid(), M.rows, M.cols);
  }

  /** L2Norm before its square root: the sum of M[i]*M[i] over the table,
      which is the sum of the squares of all cells. */
  method L2NormSquared(M: Matrix) returns (sum: real)
    requires M.Valid() && M.rows >= 1 && M.cols >= 1
    ensures sum == Algebra.GridSum(M.Grid(), Algebra.Square)
    ensures sum >= 0.0
    ensures M.Grid() == Algebra.Zero(M.rows, M.cols) ==> sum == 0.0
  {
    HasCell(M.rows, M.cols);
    ghost var s := M.data[..];
    var n := M.rows * M.cols;
    sum := M.data[0] * M.data[0];
    SumOfPrefixStep(s, 0, Algebra.Square);
    var i := 1;
    while i < n
      invariant 1 <= i <= n
      invariant sum == Algebra.SumOf(s[..i], Algebra.Square)
    {
      SumOfPrefixStep(s, i, Algebra.Square);
      sum := sum + M.data[i] * M.data[i];
      i := i + 1;
    }
    assert s[..n] == s;
    StorageRoundTrip(M.layout, M.rows, M.cols, s);
    StorageSum(M.layout, M.rows, M.cols, M.Grid(), Algebra.Square);
    Algebra.L2NormSquaredNonNegative(M.Grid(), M.rows, M.cols);
  }

  /** What a scan of a flat table seeded with s[0] and raised to |s[k]| for
      k >= 1 computes. */
  predicate IsSeededTableMax(s: seq<real>, x: real)
    requires |s| >= 1
  {
    && x >= s[0]
    && (forall k :: 1 <= k < |s| ==> x >= Algebra.Abs(s[k]))
    && (x == s[0] || exists k :: 1 <= k < |s| && x == Algebra.Abs(s[k]))
  }

  /** The scan of the table is the seeded maximum over the logical matrix:
      flat position 0 is cell (0, 0) in both layouts. */
  lemma SeededTableMaxIsSeededMax(layout: Layout, rows: nat, cols: nat, s: seq<real>, x: real)
    requires rows >= 1 && cols >= 1 && |s| == rows * cols
    requires IsSeededTableMax(s, x)
    ensures Algebra.IsSeededMax(ToGrid(layout, rows, cols, s), rows, cols, x)
  {
    var g := ToGrid(layout, rows, cols, s);
    FirstCellFirst(layout, rows, cols);
    forall r, c | 0 <= r < rows && 0 <= c < cols && (r != 0 || c != 0)
      ensures x >= Algebra.Abs(g[r][c])
    {
      var k := Index(layout, rows, cols, r, c);
      if k == 0 {
        IndexInjective(layout, rows, cols, r, c, 0, 0);
      }
      assert x >= Algebra.Abs(s[k]);
    }
    if x != s[0] {
      var k :| 1 <= k < |s| && x == Algebra.Abs(s[k]);
      var p := Position(layout, rows, cols, k);
      assert g[p.0][p.1] == s[k];
      assert p.0 != 0 || p.1 != 0;
    }
  }

  /** LInfinityNorm as written: the running maximum starts at M[0] itself,
      not at |M[0]|, and is raised to |M[i]| for i >= 1. */
  method LInfinityNorm(M: Matrix) returns (maxAbsElement: real)
    requires M.Valid() && M.rows >= 1 && M.cols >= 1
    ensures Algebra.IsSeededMax(M.Grid(), M.rows, M.cols, maxAbsElement)
  {
    HasCell(M.rows, M.cols);
    ghost var s := M.data[..];
    var n := M.rows * M.cols;
    maxAbsElement := M.data[0];
    var i := 1;
    while i < n
      invariant 1 <= i <= n
      invariant IsSeededTableMax(s[..i], maxAbsElement)
    {
      var absElement := Algebra.Abs(M.data[i]);
      if absElement > maxAbsElement {
        maxAbsElement := absElement;
      }
      assert s[..i + 1][..i] == s[..i];
      i := i + 1;
    }
    assert s[..n] == s;
    SeededTableMaxIsSeededMax(M.layout, M.rows, M.cols, s, maxAbsElement);
  }

  /** The infinity norm as intended: the running maximum starts at |M[0]|,
      and the result is the largest absolute value of any cell. */
  method MaxAbsNorm(M: Matrix) returns (maxAbsElement: real)
    requires M.Valid() && M.rows >= 1 && M.cols >= 1
    ensures Algebra.IsMaxAbs(M.Grid(), M.rows, M.cols, maxAbsElement)
  {
    HasCell(M.rows, M.cols);
    ghost var s := M.data[..];
    var n := M.rows * M.cols;
    maxAbsElement := Algebra.Abs(M.data[0]);
    var i := 1;
    while i < n
      invariant 1 <= i <= n
      invariant forall k :: 0 <= k < i ==> maxAbsElement >= Algebra.Abs(s[k])
      invariant exists k :: 0 <= k < i && maxAbsElement == Algebra.Abs(s[k])
    {
      var absElement := Algebra.Abs(M.data[i]);
      if absElement > maxAbsElement {
        maxAbsElement := absElement;
      }
      i := i + 1;
    }
    TableMaxIsMaxAbs(M.layout, M.rows, M.cols, s, maxAbsElement);
  }

  /** The largest |s[k]| over the table is the largest |cell| of the matrix. */
  lemma TableMaxIsMaxAbs(layout: Layout, rows: nat, cols: nat, s: seq<real>, x: real)
    requires |s| == rows * cols
    requires forall k :: 0 <= k < |s| ==> x >= Algebra.Abs(s[k])
    requires exists k :: 0 <= k < |s| && x == Algebra.Abs(s[k])
    ensures Algebra.IsMaxAbs(ToGrid(layout, rows, cols, s), rows, cols, x)
  {
    var g := ToGrid(layout, rows, cols, s);
    forall r, c | 0 <= r < rows && 0 <= c < cols
      ensures x >= Algebra.Abs(g[r][c])
    {
      assert g[r][c] == s[Index(layout, rows, cols, r, c)];
    }
    var k :| 0 <= k < |s| && x == Algebra.Abs(s[k]);
    var p := Position(layout, rows, cols, k);
    assert g[p.0][p.1] == s[k];
  }

  /** Where cell (0, 0) is nonnegative the norm as written returns the same
      number as the norm as intended.  A corollary of
      Algebra.SeededMaxIsMaxAbs, restated on the two results. */
  lemma LInfinityNormAgreesWhenFirstCellNonNegative(g: seq<seq<real>>, rows: nat, cols: nat, x: real, y: real)
    requires Algebra.IsGrid(g, rows, cols) && rows >= 1 && cols >= 1 && g[0][0] >= 0.0
    requires Algebra.IsSeededMax(g, rows, cols, x) && Algebra.IsMaxAbs(g, rows, cols, y)
    ensures x == y
  {
    Algebra.SeededMaxIsMaxAbs(g, rows, cols, x);
    var r, c :| 0 <= r < rows && 0 <= c < cols && x == Algebra.Abs(g[r][c]);
    var r', c' :| 0 <= r' < rows && 0 <= c' < cols && y == Algebra.Abs(g[r'][c']);
  }
}
