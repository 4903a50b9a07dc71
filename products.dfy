/** Transpose, the matrix-vector and matrix-matrix products (with either
    operand transposed), products with a diagonal matrix given by its
    diagonal, the outer product, and the homogeneous lift and projection.
    Every result is a fresh matrix built cell by cell through (r, c), so the
    results do not depend on the layout; vectors are sequences of reals. */
module Products {
  import Algebra
  import opened Table
  import opened Matrices

  // ---------------------------------------------------------------------
  // Transpose

  /** Transpose(M): result(c, r) = M(r, c). */
  method Transpose(M: Matrix) returns (result: Matrix)
    requires M.Valid()
    ensures fresh(result) && fresh(result.data) && result.Valid()
    ensures result.rows == M.cols && result.cols == M.rows && result.layout == M.layout
    ensures result.Grid() == Algebra.Transposed(M.Grid(), M.rows, M.cols)
  {
    ghost var t := Algebra.Transposed(M.Grid(), M.rows, M.cols);
    result := new Matrix(M.cols, M.rows, M.layout);
    var r := 0;
    while r < M.rows
      invariant 0 <= r <= M.rows
      invariant forall a, b :: 0 <= a < M.cols && 0 <= b < M.rows && b < r ==> result.Get(a, b) == t[a][b]
    {
      var c := 0;
      while c < M.cols
        invariant 0 <= c <= M.cols
        invariant forall a, b :: 0 <= a < M.cols && 0 <= b < M.rows && (b < r || (b == r && a < c)) ==>
          result.Get(a, b) == t[a][b]
      {
        result.Set(c, r, M.Get(r, c));
        c := c + 1;
      }
      r := r + 1;
    }
    result.CellsDetermineGrid(t);
  }

  // ---------------------------------------------------------------------
  // Matrix times vector

  /** M*V: result[r] is the dot product of row r of M with V. */
  method MultiplyVector(M: Matrix, V: seq<real>) returns (result: seq<real>)
    requires M.Valid() && |V| == M.cols
    ensures result == Algebra.MatVec(M.Grid(), M.rows, M.cols, V)
  {
    var numRows, numCols := M.rows, M.cols;
    result := seq(numRows, _ => 0.0);
    var r := 0;
    while r < numRows
      invariant 0 <= r <= numRows && |result| == numRows
      invariant forall a :: 0 <= a < r ==> result[a] == Algebra.Dot(M.Grid()[a], V)
    {
      result := result[r := 0.0];
      var c := 0;
      while c < numCols
        invariant 0 <= c <= numCols && |result| == numRows
        invariant result[r] == Algebra.DotUpTo(M.Grid()[r], V, c)
        invariant forall a :: 0 <= a < r ==> result[a] == Algebra.Dot(M.Grid()[a], V)
      {
        result := result[r := result[r] + M.Get(r, c) * V[c]];
        c := c + 1;
      }
      r := r + 1;
    }
  }

  /** V^T*M: result[c] is the dot product of V with column c of M. */
  method VectorMultiply(V: seq<real>, M: Matrix) returns (result: seq<real>)
    requires M.Valid() && |V| == M.rows
    ensures result == Algebra.VecMat(V, M.Grid(), M.rows, M.cols)
  {
    var numRows, numCols := M.rows, M.cols;
    result := seq(numCols, _ => 0.0);
    var c := 0;
    while c < numCols
      invariant 0 <= c <= numCols && |result| == numCols
      invariant forall b :: 0 <= b < c ==> result[b] == Algebra.Dot(V, Algebra.Column(M.Grid(), numRows, numCols, b))
    {
      result := result[c := 0.0];
      var r := 0;
      while r < numRows
        invariant 0 <= r <= numRows && |result| == numCols
        invariant result[c] == Algebra.DotUpTo(V, Algebra.Column(M.Grid(), numRows, numCols, c), r)
        invariant forall b :: 0 <= b < c ==> result[b] == Algebra.Dot(V, Algebra.Column(M.Grid(), numRows, numCols, b))
      {
        result := result[c := result[c] + V[r] * M.Get(r, c)];
        r := r + 1;
      }
      c := c + 1;
    }
  }

  // ---------------------------------------------------------------------
  // Matrix times matrix.  result(r, c) is zeroed and then accumulates the
  // common-index products in place; the innermost loop of each product is
  // its own method below, stated on the one cell it writes.

  /** The innermost loop of MultiplyAB: result(r, c) = 0, then
      result(r, c) += A(r, i) * B(i, c) for i < K.  No other cell changes. */
  method AccumulateAB(A: Matrix, B: Matrix, result: Matrix, r: nat, c: nat)
    requires A.Valid() && B.Valid() && result.Valid() && A.cols == B.rows
    requires result.rows == A.rows && result.cols == B.cols && r < result.rows && c < result.cols
    requires result.data != A.data && result.data != B.data
    modifies result.data
    ensures result.Get(r, c) == Algebra.Dot(A.Grid()[r], Algebra.Column(B.Grid(), A.cols, B.cols, c))
    ensures forall a, b :: 0 <= a < result.rows && 0 <= b < result.cols && (a != r || b != c) ==>
      result.Get(a, b) == old(result.Get(a, b))
  {
    var numCommon := A.cols;
    ghost var u, v := A.Grid()[r], Algebra.Column(B.Grid(), A.cols, B.cols, c);
    result.Set(r, c, 0.0);
    var i := 0;
    while i < numCommon
      invariant 0 <= i <= numCommon
      invariant result.Get(r, c) == Algebra.DotUpTo(u, v, i)
      invariant forall a, b :: 0 <= a < result.rows && 0 <= b < result.cols && (a != r || b != c) ==>
        result.Get(a, b) == old(result.Get(a, b))
    {
      var x, y := A.Get(r, i), B.Get(i, c);
      Algebra.DotUpToStep(u, v, i, result.Get(r, c), x, y);
      result.Set(r, c, result.Get(r, c) + x * y);
      i := i + 1;
    }
  }

  /** MultiplyAB(A, B) = A*B for A R-by-K and B K-by-C. */
  method MultiplyAB(A: Matrix, B: Matrix) returns (result: Matrix)
    requires A.Valid() && B.Valid() && A.cols == B.rows && A.layout == B.layout
    ensures fresh(result) && fresh(result.data) && result.Valid()
    ensures result.rows == A.rows && result.cols == B.cols && result.layout == A.layout
    ensures result.Grid() == Algebra.Product(A.Grid(), B.Grid(), A.rows, A.cols, B.cols)
  {
    var numRows, numCols, numCommon := A.rows, B.cols, A.cols;
    ghost var ag, bg := A.Grid(), B.Grid();
    ghost var p := Algebra.Product(ag, bg, numRows, numCommon, numCols);
    result := new Matrix(numRows, numCols, A.layout);
    var r := 0;
    while r < numRows
      invariant 0 <= r <= numRows
      invariant forall a, b :: 0 <= a < numRows && 0 <= b < numCols && a < r ==> result.Get(a, b) == p[a][b]
    {
      var c := 0;
      while c < numCols
        invariant 0 <= c <= numCols
        invariant forall a, b :: 0 <= a < numRows && 0 <= b < numCols && (a < r || (a == r && b < c)) ==>
          result.Get(a, b) == p[a][b]
      {
        AccumulateAB(A, B, result, r, c);
        c := c + 1;
      }
      r := r + 1;
    }
    result.CellsDetermineGrid(p);
  }

  /** operator*(A, B): MultiplyAB. */
  method Multiply(A: Matrix, B: Matrix) returns (result: Matrix)
    requires A.Valid() && B.Valid() && A.cols == B.rows && A.layout == B.layout
    ensures fresh(result) && fresh(result.data) && result.Valid()
    ensures result.rows == A.rows && result.cols == B.cols && result.layout == A.layout
    ensures result.Grid() == Algebra.Product(A.Grid(), B.Grid(), A.rows, A.cols, B.cols)
  {
    result := MultiplyAB(A, B);
  }

  /** The innermost loop of MultiplyABT: result(r, c) = 0, then
      result(r, c) += A(r, i) * B(c, i) for i < K.  No other cell changes. */
  method AccumulateABT(A: Matrix, B: Matrix, result: Matrix, r: nat, c: nat)
    requires A.Valid() && B.Valid() && result.Valid() && A.cols == B.cols
    requires result.rows == A.rows && result.cols == B.rows && r < result.rows && c < result.cols
    requires result.data != A.data && result.data != B.data
    modifies result.data
    ensures result.Get(r, c) == Algebra.Dot(A.Grid()[r], B.Grid()[c])
    ensures forall a, b :: 0 <= a < result.rows && 0 <= b < result.cols && (a != r || b != c) ==>
      result.Get(a, b) == old(result.Get(a, b))
  {
    var numCommon := A.cols;
    ghost var u, v := A.Grid()[r], B.Grid()[c];
    result.Set(r, c, 0.0);
    var i := 0;
    while i < numCommon
      invariant 0 <= i <= numCommon
      invariant result.Get(r, c) == Algebra.DotUpTo(u, v, i)
      invariant forall a, b :: 0 <= a < result.rows && 0 <= b < result.cols && (a != r || b != c) ==>
        result.Get(a, b) == old(result.Get(a, b))
    {
      var x, y := A.Get(r, i), B.Get(c, i);
      Algebra.DotUpToStep(u, v, i, result.Get(r, c), x, y);
      result.Set(r, c, result.Get(r, c) + x * y);
      i := i + 1;
    }
  }

  /** MultiplyABT(A, B) = A*B^T for A R-by-K and B C-by-K. */
  method MultiplyABT(A: Matrix, B: Matrix) returns (result: Matrix)
    requires A.Valid() && B.Valid() && A.cols == B.cols && A.layout == B.layout
    ensures fresh(result) && fresh(result.data) && result.Valid()
    ensures result.rows == A.rows && result.cols == B.rows && result.layout == A.layout
    ensures result.Grid() == Algebra.Product(A.Grid(), Algebra.Transposed(B.Grid(), B.rows, B.cols), A.rows, A.cols, B.rows)
  {
    var numRows, numCols, numCommon := A.rows, B.rows, A.cols;
    ghost var ag, bg := A.Grid(), B.Grid();
    ghost var p := Algebra.Product(ag, Algebra.Transposed(bg, numCols, numCommon), numRows, numCommon, numCols);
    result := new Matrix(numRows, numCols, A.layout);
    var r := 0;
    while r < numRows
      invariant 0 <= r <= numRows
      invariant forall a, b :: 0 <= a < numRows && 0 <= b < numCols && a < r ==> result.Get(a, b) == p[a][b]
    {
      var c := 0;
      while c < numCols
        invariant 0 <= c <= numCols
        invariant forall a, b :: 0 <= a < numRows && 0 <= b < numCols && (a < r || (a == r && b < c)) ==>
          result.Get(a, b) == p[a][b]
      {
        Algebra.ColumnOfTransposed(bg, numCols, numCommon, c);
        AccumulateABT(A, B, result, r, c);
        c := c + 1;
      }
      r := r + 1;
    }
    result.CellsDetermineGrid(p);
  }

  /** The innermost loop of MultiplyATB: result(r, c) = 0, then
      result(r, c) += A(i, r) * B(i, c) for i < K.  No other cell changes. */
  method AccumulateATB(A: Matrix, B: Matrix, result: Matrix, r: nat, c: nat)
    requires A.Valid() && B.Valid() && result.Valid() && A.rows == B.rows
    requires result.rows == A.cols && result.cols == B.cols && r < result.rows && c < result.cols
    requires result.data != A.data && result.data != B.data
    modifies result.data
    ensures result.Get(r, c) == Algebra.Dot(Algebra.Column(A.Grid(), A.rows, A.cols, r), Algebra.Column(B.Grid(), A.rows, B.cols, c))
    ensures forall a, b :: 0 <= a < result.rows && 0 <= b < result.cols && (a != r || b != c) ==>
      result.Get(a, b) == old(result.Get(a, b))
  {
    var numCommon := A.rows;
    ghost var u, v := Algebra.Column(A.Grid(), A.rows, A.cols, r), Algebra.Column(B.Grid(), A.rows, B.cols, c);
    result.Set(r, c, 0.0);
    var i := 0;
    while i < numCommon
      invariant 0 <= i <= numCommon
      invariant result.Get(r, c) == Algebra.DotUpTo(u, v, i)
      invariant forall a, b :: 0 <= a < result.rows && 0 <= b < result.cols && (a != r || b != c) ==>
        result.Get(a, b) == old(result.Get(a, b))
    {
      var x, y := A.Get(i, r), B.Get(i, c);
      Algebra.DotUpToStep(u, v, i, result.Get(r, c), x, y);
      result.Set(r, c, result.Get(r, c) + x * y);
      i := i + 1;
    }
  }

  /** MultiplyATB(A, B) = A^T*B for A K-by-R and B K-by-C. */
  method MultiplyATB(A: Matrix, B: Matrix) returns (result: Matrix)
    requires A.Valid() && B.Valid() && A.rows == B.rows && A.layout == B.layout
    ensures fresh(result) && fresh(result.data) && result.Valid()
    ensures result.rows == A.cols && result.cols == B.cols && result.layout == A.layout
    ensures result.Grid() == Algebra.Product(Algebra.Transposed(A.Grid(), A.rows, A.cols), B.Grid(), A.cols, A.rows, B.cols)
  {
    var numRows, numCols, numCommon := A.cols, B.cols, A.rows;
    ghost var ag, bg := A.Grid(), B.Grid();
    ghost var p := Algebra.Product(Algebra.Transposed(ag, numCommon, numRows), bg, numRows, numCommon, numCols);
    result := new Matrix(numRows, numCols, A.layout);
    var r := 0;
    while r < numRows
      invariant 0 <= r <= numRows
      invariant forall a, b :: 0 <= a < numRows && 0 <= b < numCols && a < r ==> result.Get(a, b) == p[a][b]
    {
      var c := 0;
      while c < numCols
        invariant 0 <= c <= numCols
        invariant forall a, b :: 0 <= a < numRows && 0 <= b < numCols && (a < r || (a == r && b < c)) ==>
          result.Get(a, b) == p[a][b]
      {
        Algebra.TransposedRowIsColumn(ag, numCommon, numRows, r);
        AccumulateATB(A, B, result, r, c);
        c := c + 1;
      }
      r := r + 1;
    }
    result.CellsDetermineGrid(p);
  }

  /** The innermost loop of MultiplyATBT: result(r, c) = 0, then
      result(r, c) += A(i, r) * B(c, i) for i < K.  No other cell changes. */
  method AccumulateATBT(A: Matrix, B: Matrix, result: Matrix, r: nat, c: nat)
    requires A.Valid() && B.Valid() && result.Valid() && A.rows == B.cols
    requires result.rows == A.cols && result.cols == B.rows && r < result.rows && c < result.cols
    requires result.data != A.data && result.data != B.data
    modifies result.data
    ensures result.Get(r, c) == Algebra.Dot(Algebra.Column(A.Grid(), A.rows, A.cols, r), B.Grid()[c])
    ensures forall a, b :: 0 <= a < result.rows && 0 <= b < result.cols && (a != r || b != c) ==>
      result.Get(a, b) == old(result.Get(a, b))
  {
    var numCommon := A.rows;
    ghost var u, v := Algebra.Column(A.Grid(), A.rows, A.cols, r), B.Grid()[c];
    result.Set(r, c, 0.0);
    var i := 0;
    while i < numCommon
      invariant 0 <= i <= numCommon
      invariant result.Get(r, c) == Algebra.DotUpTo(u, v, i)
      invariant forall a, b :: 0 <= a < result.rows && 0 <= b < result.cols && (a != r || b != c) ==>
        result.Get(a, b) == old(result.Get(a, b))
    {
      var x, y := A.Get(i, r), B.Get(c, i);
      Algebra.DotUpToStep(u, v, i, result.Get(r, c), x, y);
      result.Set(r, c, result.Get(r, c) + x * y);
      i := i + 1;
    }
  }

  /** MultiplyATBT(A, B) = A^T*B^T for A K-by-R and B C-by-K. */
  method MultiplyATBT(A: Matrix, B: Matrix) returns (result: Matrix)
    requires A.Valid() && B.Valid() && A.rows == B.cols && A.layout == B.layout
    ensures fresh(result) && fresh(result.data) && result.Valid()
    ensures result.rows == A.cols && result.cols == B.rows && result.layout == A.layout
    ensures result.Grid() == Algebra.Product(Algebra.Transposed(A.Grid(), A.rows, A.cols),
      Algebra.Transposed(B.Grid(), B.rows, B.cols), A.cols, A.rows, B.rows)
  {
    var numRows, numCols, numCommon := A.cols, B.rows, A.rows;
    ghost var ag, bg := A.Grid(), B.Grid();
    ghost var p := Algebra.Product(Algebra.Transposed(ag, numCommon, numRows), Algebra.Transposed(bg, numCols, numCommon), numRows, numCommon, numCols);
    result := new Matrix(numRows, numCols, A.layout);
    var r := 0;
    while r < numRows
      invariant 0 <= r <= numRows
      invariant forall a, b :: 0 <= a < numRows && 0 <= b < numCols && a < r ==> result.Get(a, b) == p[a][b]
    {
      var c := 0;
      while c < numCols
        invariant 0 <= c <= numCols
        invariant forall a, b :: 0 <= a < numRows && 0 <= b < numCols && (a < r || (a == r && b < c)) ==>
          result.Get(a, b) == p[a][b]
      {
        Algebra.TransposedRowIsColumn(ag, numCommon, numRows, r);
        Algebra.ColumnOfTransposed(bg, numCols, numCommon, c);
        AccumulateATBT(A, B, result, r, c);
        c := c + 1;
      }
      r := r + 1;
    }
    result.CellsDetermineGrid(p);
  }

  // ---------------------------------------------------------------------
  // Diagonal matrices given by their diagonal, and the outer product

  /** MultiplyMD(M, D) = M*diag(D): column c of M scaled by D[c]. */
  method MultiplyMD(M: Matrix, D: seq<real>) returns (result: Matrix)
    requires M.Valid() && |D| == M.cols
    ensures fresh(result) && fresh(result.data) && result.Valid()
    ensures result.rows == M.rows && result.cols == M.cols && result.layout == M.layout
    ensures result.Grid() == Algebra.ScaleColumns(M.Grid(), M.rows, M.cols, D)
  {
    ghost var q := Algebra.ScaleColumns(M.Grid(), M.rows, M.cols, D);
    result := new Matrix(M.rows, M.cols, M.layout);
    var r := 0;
    while r < M.rows
      invariant 0 <= r <= M.rows
      invariant forall a, b :: 0 <= a < M.rows && 0 <= b < M.cols && a < r ==> result.Get(a, b) == q[a][b]
    {
      var c := 0;
      while c < M.cols
        invariant 0 <= c <= M.cols
        invariant forall a, b :: 0 <= a < M.rows && 0 <= b < M.cols && (a < r || (a == r && b < c)) ==>
          result.Get(a, b) == q[a][b]
      {
        result.Set(r, c, M.Get(r, c) * D[c]);
        c := c + 1;
      }
      r := r + 1;
    }
    result.CellsDetermineGrid(q);
  }

  /** MultiplyDM(D, M) = diag(D)*M: row r of M scaled by D[r]. */
  method MultiplyDM(D: seq<real>, M: Matrix) returns (result: Matrix)
    requires M.Valid() && |D| == M.rows
    ensures fresh(result) && fresh(result.data) && result.Valid()
    ensures result.rows == M.rows && result.cols == M.cols && result.layout == M.layout
    ensures result.Grid() == Algebra.ScaleRows(D, M.Grid(), M.rows, M.cols)
  {
    ghost var q := Algebra.ScaleRows(D, M.Grid(), M.rows, M.cols);
    result := new Matrix(M.rows, M.cols, M.layout);
    var r := 0;
    while r < M.rows
      invariant 0 <= r <= M.rows
      invariant forall a, b :: 0 <= a < M.rows && 0 <= b < M.cols && a < r ==> result.Get(a, b) == q[a][b]
    {
      var c := 0;
      while c < M.cols
        invariant 0 <= c <= M.cols
        invariant forall a, b :: 0 <= a < M.rows && 0 <= b < M.cols && (a < r || (a == r && b < c)) ==>
          result.Get(a, b) == q[a][b]
      {
        result.Set(r, c, D[r] * M.Get(r, c));
        c := c + 1;
      }
      r := r + 1;
    }
    result.CellsDetermineGrid(q);
  }

  /** OuterProduct(U, V) = U*V^T: result(r, c) = U[r]*V[c]. */
  method OuterProduct(U: seq<real>, V: seq<real>, layout: Layout) returns (result: Matrix)
    ensures fresh(result) && fresh(result.data) && result.Valid()
    ensures result.rows == |U| && result.cols == |V| && result.layout == layout
    ensures result.Grid() == Algebra.Outer(U, V)
  {
    ghost var q := Algebra.Outer(U, V);
    result := new Matrix(|U|, |V|, layout);
    var r := 0;
    while r < |U|
      invariant 0 <= r <= |U|
      invariant forall a, b :: 0 <= a < |U| && 0 <= b < |V| && a < r ==> result.Get(a, b) == q[a][b]
    {
      var c := 0;
      while c < |V|
        invariant 0 <= c <= |V|
        invariant forall a, b :: 0 <= a < |U| && 0 <= b < |V| && (a < r || (a == r && b < c)) ==>
          result.Get(a, b) == q[a][b]
      {
        result.Set(r, c, U[r] * V[c]);
        c := c + 1;
      }
      r := r + 1;
    }
    result.CellsDetermineGrid(q);
  }

  /** MakeDiagonal(D, M): every raw cell zeroed, then M(i, i) = D[i]. */
  method MakeDiagonal(D: seq<real>, M: Matrix)
    requires M.Valid() && M.rows == |D| && M.cols == |D|
    modifies M.data
    ensures M.Grid() == Algebra.Diagonal(D)
  {
    var n := |D|;
    var i := 0;
    while i < n * n
      invariant 0 <= i <= n * n
      invariant forall k :: 0 <= k < i ==> M.data[k] == 0.0
    {
      M.data[i] := 0.0;
      i := i + 1;
    }
    assert forall a, b :: 0 <= a < n && 0 <= b < n ==> M.Get(a, b) == 0.0;
    i := 0;
    while i < n
      invariant 0 <= i <= n
      invariant forall a, b :: 0 <= a < n && 0 <= b < n ==>
        M.Get(a, b) == if a == b && a < i then D[a] else 0.0
    {
      M.Set(i, i, D[i]);
      i := i + 1;
    }
    M.CellsDetermineGrid(Algebra.Diagonal(D));
  }

  // ---------------------------------------------------------------------
  // Homogeneous coordinates

  /** HLift(M): the (N+1)-by-(N+1) identity with its upper N-by-N block set to M. */
  method HLift(M: Matrix) returns (result: Matrix)
    requires M.Valid() && M.rows == M.cols
    ensures fresh(result) && fresh(result.data) && result.Valid()
    ensures result.rows == M.rows + 1 && result.cols == M.rows + 1 && result.layout == M.layout
    ensures result.Grid() == Algebra.Lift(M.Grid(), M.rows)
  {
    var n := M.rows;
    ghost var h := Algebra.Lift(M.Grid(), n);
    result := new Matrix(n + 1, n + 1, M.layout);
    result.MakeIdentity();
    assert forall a, b :: 0 <= a <= n && 0 <= b <= n && (a == n || b == n) ==> result.Get(a, b) == h[a][b];
    var r := 0;
    while r < n
      invariant 0 <= r <= n
      invariant forall a, b :: 0 <= a <= n && 0 <= b <= n && (a < r || a == n || b == n) ==>
        result.Get(a, b) == h[a][b]
      invariant forall a, b :: r <= a < n && 0 <= b < n ==>
        result.Get(a, b) == Algebra.Identity(n + 1, n + 1)[a][b]
    {
      var c := 0;
      while c < n
        invariant 0 <= c <= n
        invariant forall a, b :: 0 <= a <= n && 0 <= b <= n && (a < r || a == n || b == n || (a == r && b < c)) ==>
          result.Get(a, b) == h[a][b]
        invariant forall a, b :: 0 <= a < n && 0 <= b < n && (a > r || (a == r && b >= c)) ==>
          result.Get(a, b) == Algebra.Identity(n + 1, n + 1)[a][b]
      {
        result.Set(r, c, M.Get(r, c));
        c := c + 1;
      }
      r := r + 1;
    }
    result.CellsDetermineGrid(h);
  }

  /** HProject(M): the upper (N-1)-by-(N-1) block of M, for N >= 2. */
  method HProject(M: Matrix) returns (result: Matrix)
    requires M.Valid() && M.rows == M.cols && M.rows >= 2
    ensures fresh(result) && fresh(result.data) && result.Valid()
    ensures result.rows == M.rows - 1 && result.cols == M.rows - 1 && result.layout == M.layout
    ensures result.Grid() == Algebra.Project(M.Grid(), M.rows)
  {
    var n := M.rows;
    ghost var q := Algebra.Project(M.Grid(), n);
    result := new Matrix(n - 1, n - 1, M.layout);
    var r := 0;
    while r < n - 1
      invariant 0 <= r <= n - 1
      invariant forall a, b :: 0 <= a < n - 1 && 0 <= b < n - 1 && a < r ==> result.Get(a, b) == q[a][b]
    {
      var c := 0;
      while c < n - 1
        invariant 0 <= c <= n - 1
        invariant forall a, b :: 0 <= a < n - 1 && 0 <= b < n - 1 && (a < r || (a == r && b < c)) ==>
          result.Get(a, b) == q[a][b]
      {
        result.Set(r, c, M.Get(r, c));
        c := c + 1;
      }
      r := r + 1;
    }
    result.CellsDetermineGrid(q);
  }
}
