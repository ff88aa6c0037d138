/** The shape and index logic of the dense row-major matrix
    (matrix/src/matrix.cpp, fields and exceptions from matrix/src/matrix.h).
    Cells hold `int` instead of `double`; only the structural behaviour is
    modelled: shapes, bounds and size checks, flat indexing, filling,
    copying, resizing, transposing and cell-by-cell combination. */
module MatrixModel {
  import opened Wrappers

  /** The two exception classes a matrix operation can throw. */
  datatype MatrixError = OutOfBounds | SizeMismatch

  /** The outcome of a check that throws or returns nothing. */
  datatype Outcome = Pass | Fail(error: MatrixError)

  /** The value of a matrix: its shape and its cells, row by row. */
  datatype Grid = Grid(rows: nat, cols: nat, cells: seq<seq<int>>)

  ghost predicate WellFormed(g: Grid) {
    |g.cells| == g.rows && forall i :: 0 <= i < g.rows ==> |g.cells[i]| == g.cols
  }

  function Min(a: nat, b: nat): nat {
    if a < b then a else b
  }

  /** `getIdx`: the row-major position of cell `(row, col)`. */
  function GetIdx(row: nat, col: nat, rows: nat, cols: nat): (k: nat)
    requires row < rows && col < cols
    ensures k < rows * cols
  {
    assert row * cols + col < (row + 1) * cols;
    MulMonotone(row + 1, rows, cols);
    row * cols + col
  }

  lemma MulMonotone(a: nat, b: nat, c: nat)
    requires a <= b
    ensures a * c <= b * c
  {
  }

  /** Distinct cells have distinct flat positions. */
  lemma {:induction false} GetIdxInjective(r1: nat, c1: nat, r2: nat, c2: nat, rows: nat, cols: nat)
    requires r1 < rows && c1 < cols && r2 < rows && c2 < cols
    ensures GetIdx(r1, c1, rows, cols) == GetIdx(r2, c2, rows, cols) <==> r1 == r2 && c1 == c2
  {
    if r1 < r2 {
      MulMonotone(r1 + 1, r2, cols);
    } else if r2 < r1 {
      MulMonotone(r2 + 1, r1, cols);
    }
  }

  // ---------------------------------------------------------------------
  // The value-level meaning of each structural operation

  /** `Matrix(r, c)`: ones on the leading diagonal, zeros elsewhere. */
  function IdentityGrid(r: nat, c: nat): (g: Grid)
  {
    Grid(r, c, seq(r, i => seq(c, j => if i == j then 1 else 0)))
  }

  function TransposeOf(g: Grid): (t: Grid)
    requires WellFormed(g)
  {
    Grid(g.cols, g.rows, seq(g.cols, j requires 0 <= j < g.cols =>
                           seq(g.rows, i requires 0 <= i < g.rows => g.cells[i][j])))
  }

  /** `resize`: the top-left block both shapes share is kept, the rest is 0. */
  function Resized(g: Grid, newRows: nat, newCols: nat): (r: Grid)
    requires WellFormed(g)
  {
    Grid(newRows, newCols, seq(newRows, i requires 0 <= i < newRows =>
      seq(newCols, j requires 0 <= j < newCols =>
        if i < g.rows && j < g.cols then g.cells[i][j] else 0)))
  }

  /** The cell-by-cell combination of two matrices of one shape. */
  function Combined(a: Grid, b: Grid, op: (int, int) -> int): (r: Grid)
    requires WellFormed(a) && WellFormed(b) && a.rows == b.rows && a.cols == b.cols
  {
    Grid(a.rows, a.cols, seq(a.rows, i requires 0 <= i < a.rows =>
      seq(a.cols, j requires 0 <= j < a.cols => op(a.cells[i][j], b.cells[i][j]))))
  }

  /** The sum of the first `k` diagonal cells. */
  function DiagonalSum(g: Grid, k: nat): int
    requires WellFormed(g) && k <= g.rows && k <= g.cols
  {
    if k == 0 then 0 else DiagonalSum(g, k - 1) + g.cells[k - 1][k - 1]
  }

  // ---------------------------------------------------------------------
  // Properties of the value-level operations

  lemma IdentityWellFormed(r: nat, c: nat)
    ensures WellFormed(IdentityGrid(r, c))
  {
  }

  /** Transposing twice gives back the original matrix. */
  lemma TransposedInvolutive(g: Grid)
    requires WellFormed(g)
    ensures WellFormed(TransposeOf(g))
    ensures TransposeOf(TransposeOf(g)) == g
  {
    var t := TransposeOf(TransposeOf(g));
    assert forall i | 0 <= i < g.rows :: t.cells[i] == g.cells[i];
  }

  /** The transpose of an r x c identity-style matrix is the c x r one. */
  lemma TransposedIdentity(r: nat, c: nat)
    ensures TransposeOf(IdentityGrid(r, c)) == IdentityGrid(c, r)
  {
    var t := TransposeOf(IdentityGrid(r, c));
    assert forall j | 0 <= j < c :: t.cells[j] == IdentityGrid(c, r).cells[j];
  }

  /** Resizing to the same shape changes nothing. */
  lemma ResizedSameShape(g: Grid)
    requires WellFormed(g)
    ensures Resized(g, g.rows, g.cols) == g
  {
    var r := Resized(g, g.rows, g.cols);
    assert forall i | 0 <= i < g.rows :: r.cells[i] == g.cells[i];
  }

  /** Growing and then shrinking back restores the matrix: growing loses no cell. */
  lemma ResizedGrowShrink(g: Grid, newRows: nat, newCols: nat)
    requires WellFormed(g) && g.rows <= newRows && g.cols <= newCols
    ensures WellFormed(Resized(g, newRows, newCols))
    ensures Resized(Resized(g, newRows, newCols), g.rows, g.cols) == g
  {
    var r := Resized(Resized(g, newRows, newCols), g.rows, g.cols);
    assert forall i | 0 <= i < g.rows :: r.cells[i] == g.cells[i];
  }

  /** Subtracting what was added restores the matrix. */
  lemma CombinedAddSub(a: Grid, b: Grid)
    requires WellFormed(a) && WellFormed(b) && a.rows == b.rows && a.cols == b.cols
    ensures WellFormed(Combined(a, b, (x, y) => x + y))
    ensures Combined(Combined(a, b, (x, y) => x + y), b, (x, y) => x - y) == a
  {
    var r := Combined(Combined(a, b, (x, y) => x + y), b, (x, y) => x - y);
    assert forall i | 0 <= i < a.rows :: r.cells[i] == a.cells[i];
  }

  /** The trace of the n x n identity-style matrix is n. */
  lemma {:induction false} DiagonalSumIdentity(n: nat, k: nat)
    requires k <= n
    ensures WellFormed(IdentityGrid(n, n)) && DiagonalSum(IdentityGrid(n, n), k) == k
  {
    IdentityWellFormed(n, n);
    if k > 0 {
      DiagonalSumIdentity(n, k - 1);
    }
  }

  /** Transposing keeps the trace. */
  lemma {:induction false} DiagonalSumTransposed(g: Grid, k: nat)
    requires WellFormed(g) && k <= g.rows && k <= g.cols
    ensures WellFormed(TransposeOf(g)) && DiagonalSum(TransposeOf(g), k) == DiagonalSum(g, k)
  {
    TransposedInvolutive(g);
    if k > 0 {
      DiagonalSumTransposed(g, k - 1);
    }
  }

  /** Two well-formed grids of one shape with equal cells are equal. */
  lemma GridExtensional(g: Grid, h: Grid)
    requires WellFormed(g) && WellFormed(h) && g.rows == h.rows && g.cols == h.cols
    requires forall i, j :: 0 <= i < g.rows && 0 <= j < g.cols ==> g.cells[i][j] == h.cells[i][j]
    ensures g == h
  {
    assert forall i | 0 <= i < g.rows :: g.cells[i] == h.cells[i];
  }

  /** The grid a `rows` x `cols` row-major buffer holds. */
  ghost function GridOf(rows: nat, cols: nat, data: array<int>): (g: Grid)
    reads data
    requires data.Length == rows * cols
    ensures WellFormed(g) && g.rows == rows && g.cols == cols
    ensures forall i, j :: 0 <= i < rows && 0 <= j < cols ==> g.cells[i][j] == data[GetIdx(i, j, rows, cols)]
  {
    Grid(rows, cols, seq(rows, i requires 0 <= i < rows reads data =>
      seq(cols, j requires 0 <= j < cols reads data => data[GetIdx(i, j, rows, cols)])))
  }

  /** `std::fill_n(buffer, n, 0.0)`. */
  method FillZero(buffer: array<int>)
    modifies buffer
    ensures forall m :: 0 <= m < buffer.Length ==> buffer[m] == 0
  {
    var k := 0;
    while k < buffer.Length
      invariant 0 <= k <= buffer.Length
      invariant forall m :: 0 <= m < k ==> buffer[m] == 0
    {
      buffer[k] := 0;
      k := k + 1;
    }
  }

  /** The state of `resize`'s copy loops once rows `0..i-1` and the first
      `j` cells of row `i` of the shared top-left block have been copied
      from the `oldRows` x `oldCols` buffer `src` into the zero-filled
      `newRows` x `newCols` buffer `dst`. */
  ghost predicate BlockCopied(dst: array<int>, src: array<int>, newRows: nat, newCols: nat,
                              oldRows: nat, oldCols: nat, i: nat, j: nat)
    reads dst, src
    requires dst.Length == newRows * newCols && src.Length == oldRows * oldCols
  {
    forall p, q :: 0 <= p < newRows && 0 <= q < newCols ==>
      dst[GetIdx(p, q, newRows, newCols)] ==
        if p < Min(oldRows, newRows) && q < Min(oldCols, newCols) && (p < i || (p == i && q < j))
        then src[GetIdx(p, q, oldRows, oldCols)] else 0
  }

  /** The inner loop of `resize`: row `i` of the shared block. */
  method CopyRow(dst: array<int>, src: array<int>, newRows: nat, newCols: nat,
                 oldRows: nat, oldCols: nat, i: nat)
    requires dst != src && dst.Length == newRows * newCols && src.Length == oldRows * oldCols
    requires i < Min(oldRows, newRows)
    requires BlockCopied(dst, src, newRows, newCols, oldRows, oldCols, i, 0)
    modifies dst
    ensures BlockCopied(dst, src, newRows, newCols, oldRows, oldCols, i + 1, 0)
  {
    var minCols := Min(oldCols, newCols);
    var j := 0;
    while j < minCols
      invariant 0 <= j <= minCols
      invariant BlockCopied(dst, src, newRows, newCols, oldRows, oldCols, i, j)
    {
      forall p, q | 0 <= p < newRows && 0 <= q < newCols {
        GetIdxInjective(p, q, i, j, newRows, newCols);
      }
      dst[GetIdx(i, j, newRows, newCols)] := src[GetIdx(i, j, oldRows, oldCols)];
      j := j + 1;
    }
  }

  /** The outer loop of `resize`: every row of the shared block. */
  method CopyBlock(dst: array<int>, src: array<int>, newRows: nat, newCols: nat, oldRows: nat, oldCols: nat)
    requires dst != src && dst.Length == newRows * newCols && src.Length == oldRows * oldCols
    requires forall m :: 0 <= m < dst.Length ==> dst[m] == 0
    modifies dst
    ensures BlockCopied(dst, src, newRows, newCols, oldRows, oldCols, Min(oldRows, newRows), 0)
  {
    var i := 0;
    while i < Min(oldRows, newRows)
      invariant 0 <= i <= Min(oldRows, newRows)
      invariant BlockCopied(dst, src, newRows, newCols, oldRows, oldCols, i, 0)
    {
      CopyRow(dst, src, newRows, newCols, oldRows, oldCols, i);
      i := i + 1;
    }
  }

  // ---------------------------------------------------------------------
  // The matrix object: `_rows`, `_cols` and the row-major `_data` buffer

  class Matrix {
    var rows: nat
    var cols: nat
    var data: array<int>

    ghost predicate Valid()
      reads this
    {
      data.Length == rows * cols
    }

    /** The matrix as a value, cell `(i, j)` read from `getIdx(i, j)`. */
    ghost function Value(): (g: Grid)
      reads this, data
      requires Valid()
      ensures WellFormed(g) && g.rows == rows && g.cols == cols
    {
      GridOf(rows, cols, data)
    }

    /** `Matrix()`: the 1 x 1 matrix holding 1. */
    constructor Default()
      ensures Valid() && fresh(data)
      ensures Value() == IdentityGrid(1, 1)
    {
      var d := new int[1];
      d[0] := 1;
      rows, cols, data := 1, 1, d;
      new;
      IdentityWellFormed(1, 1);
      GridExtensional(Value(), IdentityGrid(1, 1));
    }

    /** `Matrix(rows, cols)`: zero-filled, then 1 on the diagonal. */
    constructor (r: nat, c: nat)
      ensures Valid() && fresh(data)
      ensures Value() == IdentityGrid(r, c)
    {
      var d := new int[r * c];
      FillZero(d);
      var minSize := Min(r, c);
      var i := 0;
      while i < minSize
        invariant 0 <= i <= minSize
        invariant forall p, q :: 0 <= p < r && 0 <= q < c ==>
          d[GetIdx(p, q, r, c)] == if p == q && p < i then 1 else 0
      {
        forall p, q | 0 <= p < r && 0 <= q < c {
          GetIdxInjective(p, q, i, i, r, c);
        }
        d[GetIdx(i, i, r, c)] := 1;
        i := i + 1;
      }
      rows, cols, data := r, c, d;
      new;
      IdentityWellFormed(r, c);
      GridExtensional(Value(), IdentityGrid(r, c));
    }

    /** Copy construction: same shape, every cell copied. */
    constructor Copy(copy: Matrix)
      requires copy.Valid()
      ensures Valid() && fresh(data)
      ensures Value() == copy.Value()
    {
      var n := copy.rows * copy.cols;
      var d := new int[n];
      var k := 0;
      while k < n
        invariant 0 <= k <= n
        invariant forall m :: 0 <= m < k ==> d[m] == copy.data[m]
      {
        d[k] := copy.data[k];
        k := k + 1;
      }
      rows, cols, data := copy.rows, copy.cols, d;
      new;
      GridExtensional(Value(), copy.Value());
    }

    /** Copy assignment: a no-op on self-assignment, otherwise this takes the
        shape of `a` and a fresh copy of its cells. */
    method Assign(a: Matrix)
      requires Valid() && a.Valid()
      modifies this
      ensures Valid() && Value() == old(a.Value())
      ensures a != this ==> fresh(data)
    {
      if this != a {
        var temp := new Matrix.Copy(a);
        data := temp.data;
        rows := a.rows;
        cols := a.cols;
        assert Value() == temp.Value();
      }
    }

    /** `checkBounds`: throws when the row or the column is out of range. */
    function CheckBounds(row: nat, col: nat): (r: Outcome)
      reads this
      ensures r == Pass <==> row < rows && col < cols
      ensures r.Fail? ==> r.error == OutOfBounds
    {
      if row >= rows || col >= cols then Fail(OutOfBounds) else Pass
    }

    /** `checkSizes`: throws when the shapes differ. */
    function CheckSizes(other: Matrix): (r: Outcome)
      reads this, other
      ensures r == Pass <==> rows == other.rows && cols == other.cols
      ensures r.Fail? ==> r.error == SizeMismatch
    {
      if cols != other.cols || rows != other.rows then Fail(SizeMismatch) else Pass
    }

    /** `get`: the cell at `(row, col)`, after the bounds check. */
    function Get(row: nat, col: nat): (r: Result<int, MatrixError>)
      reads this, data
      requires Valid()
      ensures r.Err? <==> row >= rows || col >= cols
      ensures r.Err? ==> r.error == OutOfBounds
      ensures r.Ok? ==> r.value == Value().cells[row][col]
    {
      if CheckBounds(row, col).Fail? then Err(OutOfBounds)
      else Ok(data[GetIdx(row, col, rows, cols)])
    }

    /** `set`: writes one cell through `get`; nothing changes when it throws. */
    method Set(row: nat, col: nat, value: int) returns (r: Outcome)
      requires Valid()
      modifies data
      ensures Valid()
      ensures r.Fail? <==> row >= rows || col >= cols
      ensures r.Fail? ==> r.error == OutOfBounds && Value() == old(Value())
      ensures r.Pass? ==>
        Value() == old(Value()).(cells := old(Value()).cells[row := old(Value()).cells[row][col := value]])
    {
      r := CheckBounds(row, col);
      if r.Pass? {
        forall p, q | 0 <= p < rows && 0 <= q < cols {
          GetIdxInjective(p, q, row, col, rows, cols);
        }
        data[GetIdx(row, col, rows, cols)] := value;
        ghost var was := old(Value());
        ghost var want := was.(cells := was.cells[row := was.cells[row][col := value]]);
        GridExtensional(Value(), want);
      }
    }

    /** `resize`: a fresh zero-filled buffer of the new shape receives the
        top-left block both shapes share. */
    method Resize(newRows: nat, newCols: nat)
      requires Valid()
      modifies this
      ensures Valid() && fresh(data)
      ensures Value() == Resized(old(Value()), newRows, newCols)
    {
      var oldRows, oldCols, oldData := rows, cols, data;
      var newData := new int[newRows * newCols];
      FillZero(newData);
      CopyBlock(newData, oldData, newRows, newCols, oldRows, oldCols);
      rows, cols := newRows, newCols;
      data := newData;
      GridExtensional(Value(), Resized(old(Value()), newRows, newCols));
    }

    /** `applyOp`: after the shape check, `std::transform` over the two
        buffers, writing into this one. `other` may be this matrix. */
    method ApplyOp(other: Matrix, op: (int, int) -> int) returns (r: Outcome)
      requires Valid() && other.Valid()
      modifies data
      ensures Valid()
      ensures r.Fail? <==> rows != other.rows || cols != other.cols
      ensures r.Fail? ==> r.error == SizeMismatch && Value() == old(Value())
      ensures r.Pass? ==> Value() == Combined(old(Value()), old(other.Value()), op)
    {
      r := CheckSizes(other);
      if r.Pass? {
        var n := rows * cols;
        var k := 0;
        while k < n
          invariant 0 <= k <= n
          invariant forall m :: 0 <= m < k ==> data[m] == op(old(data[m]), old(other.data[m]))
          invariant forall m :: k <= m < n ==> data[m] == old(data[m]) && other.data[m] == old(other.data[m])
        {
          data[k] := op(data[k], other.data[k]);
          k := k + 1;
        }
        GridExtensional(Value(), Combined(old(Value()), old(other.Value()), op));
      }
    }

    /** `+=`, `-=` and the entry-wise `*=`. */
    method AddAssign(a: Matrix) returns (r: Outcome)
      requires Valid() && a.Valid()
      modifies data
      ensures Valid()
      ensures r.Fail? <==> rows != a.rows || cols != a.cols
      ensures r.Fail? ==> r.error == SizeMismatch && Value() == old(Value())
      ensures r.Pass? ==> Value() == Combined(old(Value()), old(a.Value()), (x, y) => x + y)
    {
      r := ApplyOp(a, (x, y) => x + y);
    }

    method SubAssign(a: Matrix) returns (r: Outcome)
      requires Valid() && a.Valid()
      modifies data
      ensures Valid()
      ensures r.Fail? <==> rows != a.rows || cols != a.cols
      ensures r.Fail? ==> r.error == SizeMismatch && Value() == old(Value())
      ensures r.Pass? ==> Value() == Combined(old(Value()), old(a.Value()), (x, y) => x - y)
    {
      r := ApplyOp(a, (x, y) => x - y);
    }

    method MulAssign(a: Matrix) returns (r: Outcome)
      requires Valid() && a.Valid()
      modifies data
      ensures Valid()
      ensures r.Fail? <==> rows != a.rows || cols != a.cols
      ensures r.Fail? ==> r.error == SizeMismatch && Value() == old(Value())
      ensures r.Pass? ==> Value() == Combined(old(Value()), old(a.Value()), (x, y) => x * y)
    {
      r := ApplyOp(a, (x, y) => x * y);
    }

    /** `transposed`: a cols x rows matrix (built identity-style, then every
        cell overwritten) with `res(j, i) == this(i, j)`. */
    method Transposed() returns (res: Matrix)
      requires Valid()
      ensures res.Valid() && fresh(res) && fresh(res.data)
      ensures res.Value() == TransposeOf(Value())
    {
      res := new Matrix(cols, rows);
      var d := res.data;
      ghost var initial := res.Value();
      var i := 0;
      while i < rows
        invariant 0 <= i <= rows
        invariant res.rows == cols && res.cols == rows && res.data == d
        invariant forall q, p :: 0 <= q < cols && 0 <= p < rows ==>
          d[GetIdx(q, p, cols, rows)] ==
            if p < i then data[GetIdx(p, q, rows, cols)] else initial.cells[q][p]
      {
        var j := 0;
        while j < cols
          invariant 0 <= j <= cols
          invariant res.rows == cols && res.cols == rows && res.data == d
          invariant forall q, p :: 0 <= q < cols && 0 <= p < rows ==>
            d[GetIdx(q, p, cols, rows)] ==
              if p < i || (p == i && q < j) then data[GetIdx(p, q, rows, cols)]
              else initial.cells[q][p]
        {
          forall q, p | 0 <= q < cols && 0 <= p < rows {
            GetIdxInjective(q, p, j, i, cols, rows);
          }
          d[GetIdx(j, i, cols, rows)] := data[GetIdx(i, j, rows, cols)];
          j := j + 1;
        }
        i := i + 1;
      }
      GridExtensional(res.Value(), TransposeOf(Value()));
    }

    /** `transpose`: takes the buffer of `transposed()` and swaps the shape. */
    method Transpose()
      requires Valid()
      modifies this
      ensures Valid() && fresh(data)
      ensures Value() == TransposeOf(old(Value()))
    {
      var temp := Transposed();
      data := temp.data;
      rows, cols := cols, rows;
      assert Value() == temp.Value();
    }

    /** `trace`: throws on a non-square matrix, otherwise sums the diagonal. */
    method Trace() returns (r: Result<int, MatrixError>)
      requires Valid()
      ensures r.Err? <==> rows != cols
      ensures r.Err? ==> r.error == SizeMismatch
      ensures r.Ok? ==> r.value == DiagonalSum(Value(), rows)
    {
      if rows != cols {
        return Err(SizeMismatch);
      }
      var res := 0;
      var i := 0;
      while i < cols
        invariant 0 <= i <= cols
        invariant res == DiagonalSum(Value(), i)
      {
        var cell := Get(i, i);
        res := res + cell.value;
        i := i + 1;
      }
      r := Ok(res);
    }

    /** `getRow`: the cells of one row (no bounds check in the source, so an
        out-of-range row is a caller error). */
    function GetRow(row: nat): (r: seq<int>)
      reads this, data
      requires Valid() && row < rows
      ensures r == Value().cells[row]
    {
      MulMonotone(row + 1, rows, cols);
      assert (row + 1) * cols == row * cols + cols;
      var r := data[row * cols .. (row + 1) * cols];
      assert forall j | 0 <= j < cols :: r[j] == data[GetIdx(row, j, rows, cols)];
      r
    }

    /** `getColumn`: one `get` per row, so it throws on an out-of-range
        column only when there is at least one row. */
    method GetColumn(column: nat) returns (r: Result<seq<int>, MatrixError>)
      requires Valid()
      ensures r.Err? <==> rows > 0 && column >= cols
      ensures r.Err? ==> r.error == OutOfBounds
      ensures r.Ok? ==> |r.value| == rows
      ensures r.Ok? ==> forall i :: 0 <= i < rows ==> r.value[i] == Value().cells[i][column]
    {
      var res := seq(rows, _ => 0);
      var i := 0;
      while i < rows
        invariant 0 <= i <= rows && |res| == rows
        invariant i > 0 ==> column < cols
        invariant forall p :: 0 <= p < i ==> column < cols && res[p] == Value().cells[p][column]
      {
        var cell := Get(i, column);
        if cell.Err? {
          return Err(OutOfBounds);
        }
        res := res[i := cell.value];
        i := i + 1;
      }
      r := Ok(res);
    }

    /** `getShape`: the pair (rows, cols). */
    function GetShape(): (shape: (nat, nat))
      reads this
      ensures shape.0 == rows && shape.1 == cols
    {
      (rows, cols)
    }
  }
}
