/** The storage table of a matrix: R*C cells in one flat buffer, laid out row
    after row or column after column.  The layout is a single build-wide
    choice; cell (r, c) is found through Index, and the flat position i holds
    the cell Position(i).  This module proves that the two maps are inverse
    bijections between the cells and [0, R*C) in either layout, and gives the
    lexicographic order the comparison operators use. */
module Table {
  import Algebra

  /** Row-major when GTE_USE_ROW_MAJOR is defined, column-major otherwise. */
  datatype Layout = RowMajor | ColMajor

  /** The flat position of cell (r, c). */
  function Index(layout: Layout, rows: nat, cols: nat, r: nat, c: nat): (i: nat)
    requires r < rows && c < cols
    ensures i < rows * cols
  {
    match layout
    case RowMajor => Algebra.RowMajorPosition(rows, cols, r, c)
    case ColMajor => Algebra.RowMajorPosition(cols, rows, c, r)
  }

  lemma QuotientBound(i: nat, n: nat, k: nat)
    requires i < k * n
    ensures n > 0 && i / n < k
  {
    if i / n >= k {
      Algebra.MulLeq(k, i / n, n);
    }
  }

  lemma DivModOfPosition(q: nat, m: nat, n: nat)
    requires m < n
    ensures (q * n + m) / n == q && (q * n + m) % n == m
  {
    var x := q * n + m;
    var d, e := x / n, x % n;
    assert d * n + e == q * n + m;
    if d > q {
      Algebra.MulLeq(q + 1, d, n);
    } else if d < q {
      Algebra.MulLeq(d + 1, q, n);
    }
  }

  lemma DivModSplit(i: nat, n: nat)
    requires n > 0
    ensures (i / n) * n + i % n == i && i % n < n
  {
  }

  /** Position i of a table laid out in runs of n is cell (i / n, i % n). */
  lemma RunSplit(k: nat, n: nat, i: nat)
    requires i < k * n
    ensures n > 0 && i / n < k && i % n < n
    ensures Algebra.RowMajorPosition(k, n, i / n, i % n) == i
  {
    QuotientBound(i, n, k);
    DivModSplit(i, n);
  }

  /** The cell held at flat position i: the inverse of Index. */
  function Position(layout: Layout, rows: nat, cols: nat, i: nat): (p: (nat, nat))
    requires i < rows * cols
    ensures p.0 < rows && p.1 < cols
    ensures Index(layout, rows, cols, p.0, p.1) == i
  {
    match layout
    case RowMajor =>
      RunSplit(rows, cols, i);
      (i / cols, i % cols)
    case ColMajor =>
      assert i < cols * rows;
      RunSplit(cols, rows, i);
      (i % rows, i / rows)
  }

  /** Index followed by Position gives back the cell. */
  lemma PositionOfIndex(layout: Layout, rows: nat, cols: nat, r: nat, c: nat)
    requires r < rows && c < cols
    ensures Position(layout, rows, cols, Index(layout, rows, cols, r, c)) == (r, c)
  {
    match layout
    case RowMajor => DivModOfPosition(r, c, cols);
    case ColMajor => DivModOfPosition(c, r, rows);
  }

  /** Distinct cells have distinct flat positions. */
  lemma IndexInjective(layout: Layout, rows: nat, cols: nat, r: nat, c: nat, r': nat, c': nat)
    requires r < rows && c < cols && r' < rows && c' < cols
    requires Index(layout, rows, cols, r, c) == Index(layout, rows, cols, r', c')
    ensures r == r' && c == c'
  {
    PositionOfIndex(layout, rows, cols, r, c);
    PositionOfIndex(layout, rows, cols, r', c');
  }

  /** Cell (0, 0) is at flat position 0 in both layouts. */
  lemma FirstCellFirst(layout: Layout, rows: nat, cols: nat)
    requires rows >= 1 && cols >= 1
    ensures Index(layout, rows, cols, 0, 0) == 0
  {
  }

  /** The logical matrix a flat table of R*C cells holds. */
  function ToGrid(layout: Layout, rows: nat, cols: nat, s: seq<real>): (g: seq<seq<real>>)
    requires |s| == rows * cols
    ensures Algebra.IsGrid(g, rows, cols)
  {
    seq(rows, r requires 0 <= r < rows =>
      seq(cols, c requires 0 <= c < cols => s[Index(layout, rows, cols, r, c)]))
  }

  /** The flat table that holds a logical matrix. */
  function FromGrid(layout: Layout, rows: nat, cols: nat, g: seq<seq<real>>): (s: seq<real>)
    requires Algebra.IsGrid(g, rows, cols)
    ensures |s| == rows * cols
  {
    seq(rows * cols, i requires 0 <= i < rows * cols =>
      var p := Position(layout, rows, cols, i); g[p.0][p.1])
  }

  /** Reading a table as a matrix and laying it out again gives the same table. */
  lemma StorageRoundTrip(layout: Layout, rows: nat, cols: nat, s: seq<real>)
    requires |s| == rows * cols
    ensures FromGrid(layout, rows, cols, ToGrid(layout, rows, cols, s)) == s
  {
  }

  /** Laying a matrix out and reading it back gives the same matrix. */
  lemma GridRoundTrip(layout: Layout, rows: nat, cols: nat, g: seq<seq<real>>)
    requires Algebra.IsGrid(g, rows, cols)
    ensures ToGrid(layout, rows, cols, FromGrid(layout, rows, cols, g)) == g
  {
    var h := ToGrid(layout, rows, cols, FromGrid(layout, rows, cols, g));
    forall r, c | 0 <= r < rows && 0 <= c < cols
      ensures h[r][c] == g[r][c]
    {
      PositionOfIndex(layout, rows, cols, r, c);
    }
    Algebra.Ext(h, g, rows, cols);
  }

  /** Two tables hold the same matrix exactly when they are the same table. */
  lemma ToGridInjective(layout: Layout, rows: nat, cols: nat, s: seq<real>, t: seq<real>)
    requires |s| == rows * cols && |t| == rows * cols
    ensures ToGrid(layout, rows, cols, s) == ToGrid(layout, rows, cols, t) <==> s == t
  {
    StorageRoundTrip(layout, rows, cols, s);
    StorageRoundTrip(layout, rows, cols, t);
  }

  /** Writing cell (r, c) changes that cell to v and no other cell. */
  lemma WriteCell(layout: Layout, rows: nat, cols: nat, s: seq<real>, r: nat, c: nat, v: real)
    requires |s| == rows * cols && r < rows && c < cols
    ensures ToGrid(layout, rows, cols, s[Index(layout, rows, cols, r, c) := v])
         == ToGrid(layout, rows, cols, s)[r := ToGrid(layout, rows, cols, s)[r][c := v]]
  {
    var g := ToGrid(layout, rows, cols, s);
    var h := ToGrid(layout, rows, cols, s[Index(layout, rows, cols, r, c) := v]);
    forall i, j | 0 <= i < rows && 0 <= j < cols
      ensures h[i][j] == g[r := g[r][c := v]][i][j]
    {
      if i != r || j != c {
        if Index(layout, rows, cols, i, j) == Index(layout, rows, cols, r, c) {
          IndexInjective(layout, rows, cols, i, j, r, c);
        }
      }
    }
    Algebra.Ext(h, g[r := g[r][c := v]], rows, cols);
  }

  /** In the row-major build the table is the rows laid end to end. */
  lemma RowMajorIsFlatten(rows: nat, cols: nat, g: seq<seq<real>>)
    requires Algebra.IsGrid(g, rows, cols)
    ensures FromGrid(RowMajor, rows, cols, g) == Algebra.Flatten(g)
  {
    Algebra.FlattenAt(g, rows, cols);
  }

  /** The column-major table of M is the row-major table of M^T. */
  lemma ColMajorIsTransposedRowMajor(rows: nat, cols: nat, g: seq<seq<real>>)
    requires Algebra.IsGrid(g, rows, cols)
    ensures FromGrid(ColMajor, rows, cols, g)
         == FromGrid(RowMajor, cols, rows, Algebra.Transposed(g, rows, cols))
  {
  }

  /** Summing f over the table in storage order is the same in both layouts:
      the sum of f over every cell. */
  lemma StorageSum(layout: Layout, rows: nat, cols: nat, g: seq<seq<real>>, f: real -> real)
    requires Algebra.IsGrid(g, rows, cols)
    ensures Algebra.SumOf(FromGrid(layout, rows, cols, g), f) == Algebra.GridSum(g, f)
  {
    match layout
    case RowMajor =>
      RowMajorIsFlatten(rows, cols, g);
      Algebra.SumOfFlatten(g, f);
    case ColMajor =>
      var t := Algebra.Transposed(g, rows, cols);
      ColMajorIsTransposedRowMajor(rows, cols, g);
      RowMajorIsFlatten(cols, rows, t);
      Algebra.SumOfFlatten(t, f);
      Algebra.GridSumTransposed(g, rows, cols, f);
  }

  // ---------------------------------------------------------------------
  // Lexicographic order on the physical table

  /** std::lexicographical_compare on two flat tables: the first position
      where they differ decides, and a proper prefix comes first. */
  function LexLess(a: seq<real>, b: seq<real>): (less: bool)
    ensures less ==> a != b
    decreases |a|
  {
    if |a| == 0 then |b| != 0
    else if |b| == 0 then false
    else if a[0] < b[0] then true
    else if b[0] < a[0] then false
    else LexLess(a[1..], b[1..])
  }

  /** a and b agree before position k, and at k either a[k] < b[k] or a has
      ended while b has not. */
  predicate LessFirstAt(a: seq<real>, b: seq<real>, k: nat) {
    k <= |a| && k <= |b| && a[..k] == b[..k] &&
    ((k < |a| && k < |b| && a[k] < b[k]) || (k == |a| && k < |b|))
  }

  /** The definition of std::lexicographical_compare: a comes first exactly
      when it is less at the first position where the tables differ, or is a
      proper prefix of b. */
  lemma {:induction false} LexLessIsFirstDifference(a: seq<real>, b: seq<real>)
    ensures LexLess(a, b) <==> exists k: nat :: LessFirstAt(a, b, k)
    decreases |a|
  {
    if |a| == 0 || |b| == 0 {
      if LexLess(a, b) {
        assert LessFirstAt(a, b, 0);
      }
    } else if a[0] < b[0] {
      assert LessFirstAt(a, b, 0);
    } else if a[0] == b[0] {
      var a', b' := a[1..], b[1..];
      LexLessIsFirstDifference(a', b');
      if LexLess(a, b) {
        var k': nat :| LessFirstAt(a', b', k');
        assert a[..k' + 1] == [a[0]] + a'[..k'] && b[..k' + 1] == [b[0]] + b'[..k'];
        assert LessFirstAt(a, b, k' + 1);
      }
      if k: nat :| LessFirstAt(a, b, k) {
        assert k > 0;
        assert a'[..k - 1] == a[..k][1..] && b'[..k - 1] == b[..k][1..];
        assert LessFirstAt(a', b', k - 1);
      }
    }
  }

  lemma {:induction false} LexIrreflexive(a: seq<real>)
    ensures !LexLess(a, a)
  {
    if |a| > 0 {
      LexIrreflexive(a[1..]);
    }
  }

  lemma {:induction false} LexTransitive(a: seq<real>, b: seq<real>, c: seq<real>)
    requires LexLess(a, b) && LexLess(b, c)
    ensures LexLess(a, c)
    decreases |a|
  {
    if |a| > 0 && |b| > 0 && |c| > 0 && a[0] == b[0] && b[0] == c[0] {
      LexTransitive(a[1..], b[1..], c[1..]);
    }
  }

  /** On tables of one length exactly one of a < b, a == b, b < a holds. */
  lemma {:induction false} LexTrichotomy(a: seq<real>, b: seq<real>)
    requires |a| == |b|
    ensures LexLess(a, b) || a == b || LexLess(b, a)
    ensures !(LexLess(a, b) && LexLess(b, a))
    ensures a == b ==> !LexLess(a, b)
    decreases |a|
  {
    if |a| > 0 {
      LexTrichotomy(a[1..], b[1..]);
      if a[0] == b[0] && a[1..] == b[1..] {
        assert a == [a[0]] + a[1..] && b == [b[0]] + b[1..];
      }
    }
    if a == b {
      LexIrreflexive(a);
    }
  }

  lemma {:induction false} LexLessConcat(a: seq<real>, b: seq<real>, c: seq<real>, d: seq<real>)
    requires |a| == |c|
    ensures LexLess(a + b, c + d) == (LexLess(a, c) || (a == c && LexLess(b, d)))
    decreases |a|
  {
    if |a| == 0 {
      assert a + b == b && c + d == d;
    } else {
      assert (a + b)[1..] == a[1..] + b && (c + d)[1..] == c[1..] + d;
      LexLessConcat(a[1..], b, c[1..], d);
      if a[0] == c[0] {
        assert a == c <==> a[1..] == c[1..] by {
          assert a == [a[0]] + a[1..] && c == [c[0]] + c[1..];
        }
      }
    }
  }

  /** The table as the source declares it: an array of R rows in the
      row-major build, an array of C columns in the column-major build. */
  function Storage(layout: Layout, rows: nat, cols: nat, g: seq<seq<real>>): (t: seq<seq<real>>)
    requires Algebra.IsGrid(g, rows, cols)
    ensures layout == RowMajor ==> Algebra.IsGrid(t, rows, cols)
    ensures layout == ColMajor ==> Algebra.IsGrid(t, cols, rows)
  {
    match layout
    case RowMajor => g
    case ColMajor => Algebra.Transposed(g, rows, cols)
  }

  /** The declared arrays laid end to end are the flat table. */
  lemma StorageIsFlat(layout: Layout, rows: nat, cols: nat, g: seq<seq<real>>)
    requires Algebra.IsGrid(g, rows, cols)
    ensures Algebra.Flatten(Storage(layout, rows, cols, g)) == FromGrid(layout, rows, cols, g)
  {
    match layout
    case RowMajor =>
      RowMajorIsFlatten(rows, cols, g);
    case ColMajor =>
      ColMajorIsTransposedRowMajor(rows, cols, g);
      RowMajorIsFlatten(cols, rows, Algebra.Transposed(g, rows, cols));
  }

  /** operator< of std::array on an array of arrays: lexicographic, with the
      inner arrays compared by their own operator<. */
  function NestedLexLess(a: seq<seq<real>>, b: seq<seq<real>>): (less: bool)
    ensures less ==> a != b
    decreases |a|
  {
    if |a| == 0 then |b| != 0
    else if |b| == 0 then false
    else if LexLess(a[0], b[0]) then true
    else if LexLess(b[0], a[0]) then false
    else NestedLexLess(a[1..], b[1..])
  }

  /** On arrays of equal-length rows the nested order is the flat order. */
  lemma {:induction false} NestedLexIsFlatLex(a: seq<seq<real>>, b: seq<seq<real>>, n: nat, k: nat)
    requires Algebra.IsGrid(a, n, k) && Algebra.IsGrid(b, n, k)
    ensures NestedLexLess(a, b) == LexLess(Algebra.Flatten(a), Algebra.Flatten(b))
    decreases n
  {
    if n > 0 {
      NestedLexIsFlatLex(a[1..], b[1..], n - 1, k);
      Algebra.FlattenCons(a);
      Algebra.FlattenCons(b);
      LexLessConcat(a[0], Algebra.Flatten(a[1..]), b[0], Algebra.Flatten(b[1..]));
      LexTrichotomy(a[0], b[0]);
    }
  }

  /** std::array's order on the declared storage of two matrices is the
      lexicographic order on their flat tables. */
  lemma StorageOrderIsTableOrder(layout: Layout, rows: nat, cols: nat, g: seq<seq<real>>, h: seq<seq<real>>)
    requires Algebra.IsGrid(g, rows, cols) && Algebra.IsGrid(h, rows, cols)
    ensures NestedLexLess(Storage(layout, rows, cols, g), Storage(layout, rows, cols, h))
         == LexLess(FromGrid(layout, rows, cols, g), FromGrid(layout, rows, cols, h))
  {
    StorageIsFlat(layout, rows, cols, g);
    StorageIsFlat(layout, rows, cols, h);
    match layout
    case RowMajor =>
      NestedLexIsFlatLex(Storage(layout, rows, cols, g), Storage(layout, rows, cols, h), rows, cols);
    case ColMajor =>
      NestedLexIsFlatLex(Storage(layout, rows, cols, g), Storage(layout, rows, cols, h), cols, rows);
  }

  /** The table of a 2-by-2 matrix in each layout. */
  lemma FromGridTwoByTwo(layout: Layout, g: seq<seq<real>>)
    requires Algebra.IsGrid(g, 2, 2)
    ensures FromGrid(layout, 2, 2, g) ==
      if layout == RowMajor then [g[0][0], g[0][1], g[1][0], g[1][1]]
      else [g[0][0], g[1][0], g[0][1], g[1][1]]
  {
    PositionOfIndex(layout, 2, 2, 0, 0);
    PositionOfIndex(layout, 2, 2, 0, 1);
    PositionOfIndex(layout, 2, 2, 1, 0);
    PositionOfIndex(layout, 2, 2, 1, 1);
  }

  /** The order depends on the layout: for M1 = [[0,1],[0,0]] and
      M2 = [[0,0],[1,0]], M2 < M1 in the row-major build but M1 < M2 in the
      column-major build. */
  lemma OrderDependsOnLayout()
    ensures Algebra.IsGrid([[0.0, 1.0], [0.0, 0.0]], 2, 2) && Algebra.IsGrid([[0.0, 0.0], [1.0, 0.0]], 2, 2)
    ensures LexLess(FromGrid(RowMajor, 2, 2, [[0.0, 0.0], [1.0, 0.0]]), FromGrid(RowMajor, 2, 2, [[0.0, 1.0], [0.0, 0.0]]))
    ensures LexLess(FromGrid(ColMajor, 2, 2, [[0.0, 1.0], [0.0, 0.0]]), FromGrid(ColMajor, 2, 2, [[0.0, 0.0], [1.0, 0.0]]))
  {
    var m1, m2 := [[0.0, 1.0], [0.0, 0.0]], [[0.0, 0.0], [1.0, 0.0]];
    assert Algebra.IsGrid(m1, 2, 2) && Algebra.IsGrid(m2, 2, 2);
    FromGridTwoByTwo(RowMajor, m1);
    FromGridTwoByTwo(RowMajor, m2);
    FromGridTwoByTwo(ColMajor, m1);
    FromGridTwoByTwo(ColMajor, m2);
    SecondEntryDecides();
  }

  /** [0,0,1,0] < [0,1,0,0]: the tables first differ at position 1. */
  lemma SecondEntryDecides()
    ensures LexLess([0.0, 0.0, 1.0, 0.0], [0.0, 1.0, 0.0, 0.0])
  {
    assert [0.0, 0.0, 1.0, 0.0][1..] == [0.0, 1.0, 0.0];
    assert [0.0, 1.0, 0.0, 0.0][1..] == [1.0, 0.0, 0.0];
  }
}
