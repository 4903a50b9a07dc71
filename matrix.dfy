/** The fixed-size dense matrix: an R-by-C table of reals held in one flat
    buffer in the build's storage order.  Cell access by (r, c) goes through
    Table.Index and is the same in both layouts; raw access by a flat index
    is not.  Every mutator states its new state as a logical matrix
    (Algebra), which does not mention the layout. */
module Matrices {
  import Algebra
  import opened Table

  class Matrix {
    const rows: nat
    const cols: nat
    const layout: Layout
    /** The table mTable, in physical storage order. */
    const data: array<real>

    predicate Valid() {
      data.Length == rows * cols
    }

    /** The logical matrix the table holds. */
    function Grid(): (g: seq<seq<real>>)
      requires Valid()
      reads data
      ensures Algebra.IsGrid(g, rows, cols)
    {
      ToGrid(layout, rows, cols, data[..])
    }

    /** The matrix is determined by its cells. */
    lemma CellsDetermineGrid(g: seq<seq<real>>)
      requires Valid() && Algebra.IsGrid(g, rows, cols)
      requires forall i, j :: 0 <= i < rows && 0 <= j < cols ==> Get(i, j) == g[i][j]
      ensures Grid() == g
    {
      forall i, j | 0 <= i < rows && 0 <= j < cols
        ensures Grid()[i][j] == g[i][j]
      {
        assert Get(i, j) == g[i][j];
      }
      Algebra.Ext(Grid(), g, rows, cols);
    }

    /** Table(): every cell zero.  Matrix(): then MakeZero. */
    constructor (rows: nat, cols: nat, layout: Layout)
      ensures Valid() && this.rows == rows && this.cols == cols && this.layout == layout
      ensures fresh(data)
      ensures Grid() == Algebra.Zero(rows, cols)
    {
      this.rows, this.cols, this.layout := rows, cols, layout;
      data := new real[rows * cols](_ => 0.0);
      new;
      MakeZero();
    }

    /** The copy constructor the compiler generates: the table is copied. */
    constructor Copy(other: Matrix)
      requires other.Valid()
      ensures Valid() && rows == other.rows && cols == other.cols && layout == other.layout
      ensures fresh(data)
      ensures data[..] == other.data[..]
      ensures Grid() == other.Grid()
    {
      rows, cols, layout := other.rows, other.cols, other.layout;
      data := new real[other.rows * other.cols](_ => 0.0);
      new;
      var i := 0;
      while i < data.Length
        invariant 0 <= i <= data.Length
        invariant forall k :: 0 <= k < i ==> data[k] == other.data[k]
      {
        data[i] := other.data[i];
        i := i + 1;
      }
      assert data[..] == other.data[..];
    }

    /** Fully initialised from R*C values given row after row, whatever the layout. */
    constructor FromArray(rows: nat, cols: nat, layout: Layout, values: seq<real>)
      requires |values| == rows * cols
      ensures Valid() && this.rows == rows && this.cols == cols && this.layout == layout
      ensures fresh(data)
      ensures Grid() == Algebra.FromRowMajor(values, rows, cols)
    {
      this.rows, this.cols, this.layout := rows, cols, layout;
      data := new real[rows * cols](_ => 0.0);
      new;
      var r, i := 0, 0;
      while r < rows
        invariant 0 <= r <= rows && i == r * cols
        invariant forall a, b :: 0 <= a < r && 0 <= b < cols ==>
          Get(a, b) == values[Algebra.RowMajorPosition(rows, cols, a, b)]
      {
        var c := 0;
        while c < cols
          invariant 0 <= c <= cols && i == r * cols + c
          invariant forall a, b :: 0 <= a < rows && 0 <= b < cols && (a < r || (a == r && b < c)) ==>
            Get(a, b) == values[Algebra.RowMajorPosition(rows, cols, a, b)]
        {
          assert i == Algebra.RowMajorPosition(rows, cols, r, c);
          Set(r, c, values[i]);
          c, i := c + 1, i + 1;
        }
        assert i == (r + 1) * cols;
        r := r + 1;
      }
      CellsDetermineGrid(Algebra.FromRowMajor(values, rows, cols));
    }

    /** At most R*C values are copied row after row; the remaining cells are
        zero and values past the first R*C are ignored. */
    constructor FromList(rows: nat, cols: nat, layout: Layout, values: seq<real>)
      ensures Valid() && this.rows == rows && this.cols == cols && this.layout == layout
      ensures fresh(data)
      ensures Grid() == Algebra.Padded(values, rows, cols)
    {
      this.rows, this.cols, this.layout := rows, cols, layout;
      data := new real[rows * cols](_ => 0.0);
      new;
      CellsDetermineGrid(Algebra.Zero(rows, cols));
      FillFromList(values);
    }

    /** The standard basis matrix: 1 at (r, c) when both are in range, the zero matrix otherwise. */
    constructor Basis(rows: nat, cols: nat, layout: Layout, r: int, c: int)
      ensures Valid() && this.rows == rows && this.cols == cols && this.layout == layout
      ensures fresh(data)
      ensures Grid() == Algebra.Unit(rows, cols, r, c)
    {
      this.rows, this.cols, this.layout := rows, cols, layout;
      data := new real[rows * cols](_ => 0.0);
      new;
      MakeUnit(r, c);
    }

    /** The body of the list constructor, on a zero table: the loops of
        Matrix(std::initializer_list). */
    method FillFromList(values: seq<real>)
      requires Valid() && Grid() == Algebra.Zero(rows, cols)
      modifies data
      ensures Grid() == Algebra.Padded(values, rows, cols)
    {
      ghost var target := Algebra.Padded(values, rows, cols);
      var numValues := |values|;
      var r := 0;
      while r < rows
        invariant 0 <= r <= rows && r * cols <= numValues
        invariant forall a, b :: 0 <= a < rows && 0 <= b < cols ==>
          Get(a, b) == if a < r then target[a][b] else 0.0
      {
        var c := CopyRowFromList(values, r);
        Algebra.NextRowStart(r, cols);
        if c < cols {
          // The list ran out inside row r: zero the rest of the row and stop.
          ZeroRowFrom(r, c);
          Algebra.PaddedRowTailZero(values, rows, cols, r, c);
          r := r + 1;
          break;
        }
        r := r + 1;
      }
      if r < rows {
        // Zero the remaining rows; the list does not reach them.
        ZeroRowsFrom(r);
        Algebra.PaddedRowsZero(values, rows, cols, r);
      }
      CellsDetermineGrid(target);
    }

    /** The inner loop of the list constructor: values[r*C], values[r*C + 1], ...
        are copied into row r until the row is full or the list runs out; c
        is the number copied.  Nothing else changes. */
    method CopyRowFromList(values: seq<real>, r: nat) returns (c: nat)
      requires Valid() && r < rows && r * cols <= |values|
      modifies data
      ensures c <= cols && (c == cols || r * cols + c == |values|)
      ensures r * cols + c <= |values|
      ensures forall a, b :: 0 <= a < rows && 0 <= b < cols ==>
        Get(a, b) == if a == r && b < c then Algebra.Padded(values, rows, cols)[a][b] else old(Get(a, b))
    {
      ghost var target := Algebra.Padded(values, rows, cols);
      var i := r * cols;
      c := 0;
      while c < cols && i < |values|
        invariant 0 <= c <= cols && i == r * cols + c && i <= |values|
        invariant forall a, b :: 0 <= a < rows && 0 <= b < cols ==>
          Get(a, b) == if a == r && b < c then target[a][b] else old(Get(a, b))
      {
        assert i == Algebra.RowMajorPosition(rows, cols, r, c);
        Set(r, c, values[i]);
        c, i := c + 1, i + 1;
      }
    }

    /** Cells (r, c), (r, c + 1), ... of row r become zero; nothing else changes. */
    method ZeroRowFrom(r: nat, c: nat)
      requires Valid() && r < rows && c <= cols
      modifies data
      ensures forall a, b :: 0 <= a < rows && 0 <= b < cols ==>
        Get(a, b) == if a == r && b >= c then 0.0 else old(Get(a, b))
    {
      var k := c;
      while k < cols
        invariant c <= k <= cols
        invariant forall a, b :: 0 <= a < rows && 0 <= b < cols ==>
          Get(a, b) == if a == r && c <= b < k then 0.0 else old(Get(a, b))
      {
        Set(r, k, 0.0);
        k := k + 1;
      }
    }

    /** Rows r, r + 1, ... become zero; nothing else changes. */
    method ZeroRowsFrom(r: nat)
      requires Valid() && r <= rows
      modifies data
      ensures forall a, b :: 0 <= a < rows && 0 <= b < cols ==>
        Get(a, b) == if a >= r then 0.0 else old(Get(a, b))
    {
      var k := r;
      while k < rows
        invariant r <= k <= rows
        invariant forall a, b :: 0 <= a < rows && 0 <= b < cols ==>
          Get(a, b) == if r <= a < k then 0.0 else old(Get(a, b))
      {
        ZeroRowFrom(k, 0);
        k := k + 1;
      }
    }

    // -------------------------------------------------------------------
    // Cell access

    /** operator()(r, c) const: the same cell in either layout. */
    function Get(r: nat, c: nat): (v: real)
      requires Valid() && r < rows && c < cols
      reads data
      ensures v == Grid()[r][c]
    {
      data[Index(layout, rows, cols, r, c)]
    }

    /** Assignment through operator()(r, c): cell (r, c) becomes v, no other cell changes. */
    method Set(r: nat, c: nat, v: real)
      requires Valid() && r < rows && c < cols
      modifies data
      ensures Grid() == old(Grid())[r := old(Grid())[r][c := v]]
      ensures forall i, j :: 0 <= i < rows && 0 <= j < cols ==>
        Get(i, j) == if i == r && j == c then v else old(Get(i, j))
    {
      WriteCell(layout, rows, cols, data[..], r, c, v);
      data[Index(layout, rows, cols, r, c)] := v;
    }

    /** operator[](i) const: the raw flat cell, which is the logical cell Position(i). */
    function GetRaw(i: nat): (v: real)
      requires Valid() && i < rows * cols
      reads data
      ensures var p := Position(layout, rows, cols, i); v == Grid()[p.0][p.1]
    {
      data[i]
    }

    /** Assignment through operator[](i): the logical cell Position(i) becomes v. */
    method SetRaw(i: nat, v: real)
      requires Valid() && i < rows * cols
      modifies data
      ensures data[..] == old(data[..])[i := v]
      ensures var p := Position(layout, rows, cols, i);
        Grid() == old(Grid())[p.0 := old(Grid())[p.0][p.1 := v]]
    {
      var p := Position(layout, rows, cols, i);
      WriteCell(layout, rows, cols, data[..], p.0, p.1, v);
      data[i] := v;
    }

    /** Row r becomes vec; every other row is unchanged. */
    method SetRow(r: nat, vec: seq<real>)
      requires Valid() && r < rows && |vec| == cols
      modifies data
      ensures Grid() == old(Grid())[r := vec]
    {
      var c := 0;
      while c < cols
        invariant 0 <= c <= cols
        invariant forall i, j :: 0 <= i < rows && 0 <= j < cols ==>
          Get(i, j) == if i == r && j < c then vec[j] else old(Get(i, j))
      {
        Set(r, c, vec[c]);
        c := c + 1;
      }
      CellsDetermineGrid(old(Grid())[r := vec]);
    }

    /** Column c becomes vec; every other column is unchanged. */
    method SetCol(c: nat, vec: seq<real>)
      requires Valid() && c < cols && |vec| == rows
      modifies data
      ensures forall i, j :: 0 <= i < rows && 0 <= j < cols ==>
        Grid()[i][j] == if j == c then vec[i] else old(Grid())[i][j]
    {
      var r := 0;
      while r < rows
        invariant 0 <= r <= rows
        invariant forall i, j :: 0 <= i < rows && 0 <= j < cols ==>
          Get(i, j) == if j == c && i < r then vec[i] else old(Get(i, j))
      {
        Set(r, c, vec[r]);
        r := r + 1;
      }
      forall i, j | 0 <= i < rows && 0 <= j < cols
        ensures Grid()[i][j] == if j == c then vec[i] else old(Grid())[i][j]
      {
        assert Get(i, j) == if j == c then vec[i] else old(Get(i, j));
      }
    }

    /** A copy of row r. */
    method GetRow(r: nat) returns (vec: seq<real>)
      requires Valid() && r < rows
      ensures vec == Grid()[r]
    {
      vec := [];
      var c := 0;
      while c < cols
        invariant 0 <= c <= cols
        invariant vec == Grid()[r][..c]
      {
        vec := vec + [Get(r, c)];
        c := c + 1;
      }
    }

    /** A copy of column c. */
    method GetCol(c: nat) returns (vec: seq<real>)
      requires Valid() && c < cols
      ensures vec == Algebra.Column(Grid(), rows, cols, c)
    {
      vec := [];
      var r := 0;
      while r < rows
        invariant 0 <= r <= rows
        invariant vec == Algebra.Column(Grid(), rows, cols, c)[..r]
      {
        vec := vec + [Get(r, c)];
        r := r + 1;
      }
    }

    // -------------------------------------------------------------------
    // Comparisons: on the physical table

    /** operator==: the tables are equal, which is the same as every logical cell being equal. */
    function Equal(other: Matrix): (b: bool)
      requires Valid() && other.Valid()
      requires rows == other.rows && cols == other.cols && layout == other.layout
      reads data, other.data
      ensures b <==> Grid() == other.Grid()
    {
      ToGridInjective(layout, rows, cols, data[..], other.data[..]);
      data[..] == other.data[..]
    }

    /** operator!=: the negation of operator==. */
    function NotEqual(other: Matrix): (b: bool)
      requires Valid() && other.Valid()
      requires rows == other.rows && cols == other.cols && layout == other.layout
      reads data, other.data
      ensures b <==> Grid() != other.Grid()
      ensures b <==> !Equal(other)
    {
      ToGridInjective(layout, rows, cols, data[..], other.data[..]);
      data[..] != other.data[..]
    }

    /** operator<: std::array's lexicographic order on the declared storage,
        which is the lexicographic order on the flat table. */
    function Less(other: Matrix): (b: bool)
      requires Valid() && other.Valid()
      requires rows == other.rows && cols == other.cols && layout == other.layout
      reads data, other.data
      ensures b <==> NestedLexLess(Storage(layout, rows, cols, Grid()), Storage(layout, rows, cols, other.Grid()))
      ensures b <==> LexLess(FromGrid(layout, rows, cols, Grid()), FromGrid(layout, rows, cols, other.Grid()))
      ensures b ==> Grid() != other.Grid()
    {
      StorageRoundTrip(layout, rows, cols, data[..]);
      StorageRoundTrip(layout, rows, cols, other.data[..]);
      StorageOrderIsTableOrder(layout, rows, cols, Grid(), other.Grid());
      LexTrichotomy(data[..], other.data[..]);
      LexLess(data[..], other.data[..])
    }

    /** operator<=: not (other < this), which on a total order is (this < other or equal). */
    function LessEq(other: Matrix): (b: bool)
      requires Valid() && other.Valid()
      requires rows == other.rows && cols == other.cols && layout == other.layout
      reads data, other.data
      ensures b <==> Less(other) || Grid() == other.Grid()
    {
      ToGridInjective(layout, rows, cols, data[..], other.data[..]);
      LexTrichotomy(data[..], other.data[..]);
      !LexLess(other.data[..], data[..])
    }

    /** operator>: other < this, which is (neither this < other nor equal). */
    function Greater(other: Matrix): (b: bool)
      requires Valid() && other.Valid()
      requires rows == other.rows && cols == other.cols && layout == other.layout
      reads data, other.data
      ensures b <==> !Less(other) && Grid() != other.Grid()
    {
      ToGridInjective(layout, rows, cols, data[..], other.data[..]);
      LexTrichotomy(data[..], other.data[..]);
      LexLess(other.data[..], data[..])
    }

    /** operator>=: not (this < other), which is (other < this or equal). */
    function GreaterEq(other: Matrix): (b: bool)
      requires Valid() && other.Valid()
      requires rows == other.rows && cols == other.cols && layout == other.layout
      reads data, other.data
      ensures b <==> Greater(other) || Grid() == other.Grid()
    {
      ToGridInjective(layout, rows, cols, data[..], other.data[..]);
      LexTrichotomy(data[..], other.data[..]);
      !LexLess(data[..], other.data[..])
    }

    // -------------------------------------------------------------------
    // Special matrices

    /** Every raw cell set to zero. */
    method MakeZero()
      requires Valid()
      modifies data
      ensures Grid() == Algebra.Zero(rows, cols)
    {
      var i := 0;
      while i < rows * cols
        invariant 0 <= i <= rows * cols
        invariant forall k :: 0 <= k < i ==> data[k] == 0.0
      {
        data[i] := 0.0;
        i := i + 1;
      }
      Algebra.Ext(Grid(), Algebra.Zero(rows, cols), rows, cols);
    }

    /** Zero, then a 1 at (r, c) when both indices are in range. */
    method MakeUnit(r: int, c: int)
      requires Valid()
      modifies data
      ensures Grid() == Algebra.Unit(rows, cols, r, c)
    {
      MakeZero();
      if 0 <= r < rows && 0 <= c < cols {
        Set(r, c, 1.0);
      }
      Algebra.UnitIsBasisOrZero(rows, cols, r, c);
    }

    /** Zero, then ones at (i, i) for i < min(R, C). */
    method MakeIdentity()
      requires Valid()
      modifies data
      ensures Grid() == Algebra.Identity(rows, cols)
    {
      MakeZero();
      var numDiagonal := if rows <= cols then rows else cols;
      var i := 0;
      while i < numDiagonal
        invariant 0 <= i <= numDiagonal
        invariant forall a, b :: 0 <= a < rows && 0 <= b < cols ==>
          Get(a, b) == if a == b && a < i then 1.0 else 0.0
      {
        Set(i, i, 1.0);
        i := i + 1;
      }
      CellsDetermineGrid(Algebra.Identity(rows, cols));
    }

    static method Zero(rows: nat, cols: nat, layout: Layout) returns (m: Matrix)
      ensures fresh(m) && fresh(m.data) && m.Valid()
      ensures m.rows == rows && m.cols == cols && m.layout == layout
      ensures m.Grid() == Algebra.Zero(rows, cols)
    {
      m := new Matrix(rows, cols, layout);
      m.MakeZero();
    }

    static method Unit(rows: nat, cols: nat, layout: Layout, r: int, c: int) returns (m: Matrix)
      ensures fresh(m) && fresh(m.data) && m.Valid()
      ensures m.rows == rows && m.cols == cols && m.layout == layout
      ensures m.Grid() == Algebra.Unit(rows, cols, r, c)
    {
      m := new Matrix(rows, cols, layout);
      m.MakeUnit(r, c);
    }

    static method Identity(rows: nat, cols: nat, layout: Layout) returns (m: Matrix)
      ensures fresh(m) && fresh(m.data) && m.Valid()
      ensures m.rows == rows && m.cols == cols && m.layout == layout
      ensures m.Grid() == Algebra.Identity(rows, cols)
    {
      m := new Matrix(rows, cols, layout);
      m.MakeIdentity();
    }
  }
}
