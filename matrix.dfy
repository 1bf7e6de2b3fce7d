/** `Matrix<T>` with `T` = `double` modelled as `real`: a heap object that
    owns a row-major block of `rows * cols` cells.  The dimensions never
    change after construction, so they are `const`; the cells are updated in
    place through `Set`, `SetRow` and `SetCol`.  Every operator builds a new
    matrix and fills it cell by cell, as the source does.  A thrown
    `std::invalid_argument` is a `Failure(InvalidArgument)`. */
module Matrices {
  import opened Wrappers
  import opened Elementwise
  import opened MatrixSpec

  class Matrix {
    const rows: nat
    const cols: nat
    /** Row-major storage: cell (r, c) lives at offset `r * cols + c`. */
    const data: array<real>

    predicate Valid() {
      rows >= 1 && cols >= 1 && data.Length == rows * cols
    }

    /** The grid the storage holds. */
    function Grid(): (g: Grid)
      requires Valid()
      reads data
      ensures IsMatrix(g, rows, cols)
    {
      ToGrid(data[..], rows, cols)
    }

    /** `Matrix(rows, cols)` once its dimensions are known to be positive.
        The cells are left unspecified, as `new T[...]` leaves them. */
    constructor Init(rows: nat, cols: nat)
      requires rows >= 1 && cols >= 1
      ensures Valid() && this.rows == rows && this.cols == cols && fresh(data)
    {
      this.rows, this.cols := rows, cols;
      data := new real[rows * cols];
    }

    /** `Matrix(rows, cols)`: both dimensions must be at least 1. */
    static method New(rows: nat, cols: nat) returns (r: Result<Matrix>)
      ensures r.Success? <==> rows >= 1 && cols >= 1
      ensures r.Failure? ==> r.error == InvalidArgument
      ensures r.Success? ==> r.value.Valid() && r.value.rows == rows && r.value.cols == cols
      ensures r.Success? ==> fresh(r.value.data)
    {
      if rows < 1 || cols < 1 {
        return Failure(InvalidArgument);
      }
      var m := new Matrix.Init(rows, cols);
      return Success(m);
    }

    /** The initializer-list constructor: at least one row, no empty row and
        all rows as long as the first; the rows are copied in with `Set`. */
    static method FromRows(matData: seq<seq<real>>) returns (r: Result<Matrix>)
      ensures r.Success? <==>
        |matData| >= 1 && |matData[0]| >= 1 &&
        forall i :: 0 <= i < |matData| ==> |matData[i]| == |matData[0]|
      ensures r.Failure? ==> r.error == InvalidArgument
      ensures r.Success? ==> r.value.Valid() && r.value.Grid() == matData
      ensures r.Success? ==> fresh(r.value.data)
    {
      if |matData| == 0 {
        return Failure(InvalidArgument);
      }
      var colLen := |matData[0]|;
      for i := 0 to |matData|
        invariant forall k :: 0 <= k < i ==> |matData[k]| == colLen && colLen != 0
      {
        if |matData[i]| == 0 {
          return Failure(InvalidArgument);
        }
        if |matData[i]| != colLen {
          return Failure(InvalidArgument);
        }
      }
      var m := new Matrix.Init(|matData|, colLen);
      ghost var G := m.Grid();
      for row := 0 to |matData|
        invariant m.Grid() == G && IsMatrix(G, |matData|, colLen)
        invariant forall a :: 0 <= a < row ==> G[a] == matData[a]
      {
        for col := 0 to colLen
          invariant m.Grid() == G && IsMatrix(G, |matData|, colLen)
          invariant forall a :: 0 <= a < row ==> G[a] == matData[a]
          invariant G[row][..col] == matData[row][..col]
        {
          var ok := m.Set(row, col, matData[row][col]);
          G := G[row := G[row][col := matData[row][col]]];
        }
        assert G[row] == G[row][..colLen];
      }
      return Success(m);
    }

    // --------------------------------------------------------- cell access

    /** `_check_bounds`: a coordinate is in bounds exactly when its column is
        and its row-major offset lies inside the storage. */
    function CheckBounds(row: nat, col: nat): (b: bool)
      ensures b <==> col < cols && row * cols + col < rows * cols
    {
      InBoundsIffOffset(row, col, rows, cols);
      row < rows && col < cols
    }

    /** `_trans_coord`: the offset of an in-bounds cell; out-of-bounds
        coordinates throw. */
    function TransCoord(row: nat, col: nat): (r: Result<nat>)
      requires Valid()
      ensures r.Success? <==> row < rows && col < cols
      ensures r.Failure? ==> r.error == InvalidArgument
      ensures r.Success? ==> r.value == row * cols + col < rows * cols
    {
      if !CheckBounds(row, col) then Failure(InvalidArgument)
      else
        RowSlice(row, rows, cols);
        Success(row * cols + col)
    }

    /** `get`: the entry at (row, col) of the grid. */
    function Get(row: nat, col: nat): (r: Result<real>)
      requires Valid()
      reads data
      ensures r.Success? <==> row < rows && col < cols
      ensures r.Failure? ==> r.error == InvalidArgument
      ensures r.Success? ==> r.value == Grid()[row][col]
    {
      var idx :- TransCoord(row, col);
      ToGridCell(data[..], rows, cols, row, col);
      Success(data[idx])
    }

    /** `set`: overwrites exactly the entry at (row, col). */
    method Set(row: nat, col: nat, val: real) returns (r: Result<()>)
      requires Valid()
      modifies data
      ensures r.Success? <==> row < rows && col < cols
      ensures r.Failure? ==> r.error == InvalidArgument && data[..] == old(data[..])
      ensures r.Success? ==> Grid() == old(Grid())[row := old(Grid())[row][col := val]]
    {
      var idx :- TransCoord(row, col);
      ToGridUpdate(data[..], rows, cols, row, col, val);
      data[idx] := val;
      return Success(());
    }

    /** `setRow`: the length must be the width; an out-of-range row throws
        from the first `set`, before anything is written. */
    method SetRow(row: nat, rowData: seq<real>) returns (r: Result<()>)
      requires Valid()
      modifies data
      ensures r.Success? <==> |rowData| == cols && row < rows
      ensures r.Failure? ==> r.error == InvalidArgument && data[..] == old(data[..])
      ensures r.Success? ==> Grid() == old(Grid())[row := rowData]
    {
      if |rowData| != cols {
        return Failure(InvalidArgument);
      }
      ghost var G0, G := Grid(), Grid();
      for i := 0 to cols
        invariant 0 < i ==> row < rows
        invariant row >= rows ==> data[..] == old(data[..])
        invariant Grid() == G && IsMatrix(G, rows, cols)
        invariant forall k :: 0 <= k < rows && k != row ==> G[k] == G0[k]
        invariant row < rows ==> forall b :: 0 <= b < i ==> G[row][b] == rowData[b]
      {
        var s := Set(row, i, rowData[i]);
        if s.Failure? {
          return s;
        }
        G := G[row := G[row][i := rowData[i]]];
      }
      assert forall k :: 0 <= k < rows ==> G[k] == G0[row := rowData][k];
      return Success(());
    }

    /** `setCol`: the length must be the height; an out-of-range column
        throws from the first `set`, before anything is written. */
    method SetCol(col: nat, colData: seq<real>) returns (r: Result<()>)
      requires Valid()
      modifies data
      ensures r.Success? <==> |colData| == rows && col < cols
      ensures r.Failure? ==> r.error == InvalidArgument && data[..] == old(data[..])
      ensures r.Success? ==> Grid() == WithColumn(old(Grid()), rows, cols, col, colData)
    {
      if |colData| != rows {
        return Failure(InvalidArgument);
      }
      for i := 0 to rows
        invariant 0 < i ==> col < cols
        invariant col >= cols ==> data[..] == old(data[..])
        invariant col < cols ==> forall k :: 0 <= k < rows ==>
          Grid()[k] == if k < i then old(Grid())[k][col := colData[k]] else old(Grid())[k]
      {
        var s := Set(i, col, colData[i]);
        if s.Failure? {
          return s;
        }
      }
      assert forall k :: 0 <= k < rows ==> Grid()[k] == WithColumn(old(Grid()), rows, cols, col, colData)[k];
      return Success(());
    }

    /** `getRow`: row `row`, left to right. */
    method GetRow(row: nat) returns (r: Result<seq<real>>)
      requires Valid()
      ensures r.Success? <==> row < rows
      ensures r.Failure? ==> r.error == InvalidArgument
      ensures r.Success? ==> r.value == Grid()[row]
    {
      var outRow := [];
      for i := 0 to cols
        invariant |outRow| == i && (0 < i ==> row < rows)
        invariant row < rows ==> outRow == Grid()[row][..i]
      {
        var x :- Get(row, i);
        outRow := outRow + [x];
      }
      return Success(outRow);
    }

    /** `getCol`: column `col`, top to bottom. */
    method GetCol(col: nat) returns (r: Result<seq<real>>)
      requires Valid()
      ensures r.Success? <==> col < cols
      ensures r.Failure? ==> r.error == InvalidArgument
      ensures r.Success? ==> r.value == Column(Grid(), rows, cols, col)
    {
      var outCol := [];
      for i := 0 to rows
        invariant |outCol| == i && (0 < i ==> col < cols)
        invariant col < cols ==> forall k :: 0 <= k < i ==> outCol[k] == Grid()[k][col]
      {
        var x :- Get(i, col);
        outCol := outCol + [x];
      }
      return Success(outCol);
    }

    /** `getRowMat`: row `row` as a 1 x cols matrix. */
    method GetRowMat(row: nat) returns (r: Result<Matrix>)
      requires Valid()
      ensures r.Success? <==> row < rows
      ensures r.Failure? ==> r.error == InvalidArgument
      ensures r.Success? ==> r.value.Valid() && r.value.rows == 1 && r.value.cols == cols
      ensures r.Success? ==> r.value.Grid() == [Grid()[row]]
      ensures r.Success? ==> fresh(r.value.data)
    {
      var outMat := new Matrix.Init(1, cols);
      var values :- GetRow(row);
      var ok := outMat.SetRow(0, values);
      return Success(outMat);
    }

    /** `getColMat`: column `col` as a rows x 1 matrix. */
    method GetColMat(col: nat) returns (r: Result<Matrix>)
      requires Valid()
      ensures r.Success? <==> col < cols
      ensures r.Failure? ==> r.error == InvalidArgument
      ensures r.Success? ==> r.value.Valid() && r.value.rows == rows && r.value.cols == 1
      ensures r.Success? ==> forall k :: 0 <= k < rows ==> r.value.Grid()[k] == [Grid()[k][col]]
      ensures r.Success? ==> fresh(r.value.data)
    {
      var outMat := new Matrix.Init(rows, 1);
      var values :- GetCol(col);
      var ok := outMat.SetCol(0, values);
      return Success(outMat);
    }

    // --------------------------------------------------- cellwise operators

    /** `operator+`: same dimensions required; the storage is summed slot by
        slot. */
    method Add(mat: Matrix) returns (r: Result<Matrix>)
      requires Valid() && mat.Valid()
      ensures r.Success? <==> mat.rows == rows && mat.cols == cols
      ensures r.Failure? ==> r.error == InvalidArgument
      ensures r.Success? ==> r.value.Valid() && r.value.rows == rows && r.value.cols == cols
      ensures r.Success? ==> r.value.data[..] == Plus(data[..], mat.data[..])
      ensures r.Success? ==> fresh(r.value.data)
    {
      if mat.cols != cols || mat.rows != rows {
        return Failure(InvalidArgument);
      }
      var outMat := new Matrix.Init(rows, cols);
      var a, b := data[..], mat.data[..];
      for i := 0 to rows * cols
        invariant forall k :: 0 <= k < i ==> outMat.data[k] == a[k] + b[k]
      {
        outMat.data[i] := a[i] + b[i];
      }
      assert outMat.data[..] == Plus(a, b);
      return Success(outMat);
    }

    /** `operator-`: same dimensions required; slot-by-slot difference. */
    method Subtract(mat: Matrix) returns (r: Result<Matrix>)
      requires Valid() && mat.Valid()
      ensures r.Success? <==> mat.rows == rows && mat.cols == cols
      ensures r.Failure? ==> r.error == InvalidArgument
      ensures r.Success? ==> r.value.Valid() && r.value.rows == rows && r.value.cols == cols
      ensures r.Success? ==> r.value.data[..] == Minus(data[..], mat.data[..])
      ensures r.Success? ==> fresh(r.value.data)
    {
      if mat.cols != cols || mat.rows != rows {
        return Failure(InvalidArgument);
      }
      var outMat := new Matrix.Init(rows, cols);
      var a, b := data[..], mat.data[..];
      for i := 0 to rows * cols
        invariant forall k :: 0 <= k < i ==> outMat.data[k] == a[k] - b[k]
      {
        outMat.data[i] := a[i] - b[i];
      }
      assert outMat.data[..] == Minus(a, b);
      return Success(outMat);
    }

    /** `operator*` on two matrices: the cellwise product, same dimensions
        required. */
    method MulElementwise(mat: Matrix) returns (r: Result<Matrix>)
      requires Valid() && mat.Valid()
      ensures r.Success? <==> mat.rows == rows && mat.cols == cols
      ensures r.Failure? ==> r.error == InvalidArgument
      ensures r.Success? ==> r.value.Valid() && r.value.rows == rows && r.value.cols == cols
      ensures r.Success? ==> r.value.data[..] == Times(data[..], mat.data[..])
      ensures r.Success? ==> fresh(r.value.data)
    {
      if mat.cols != cols || mat.rows != rows {
        return Failure(InvalidArgument);
      }
      var outMat := new Matrix.Init(rows, cols);
      var a, b := data[..], mat.data[..];
      for i := 0 to rows * cols
        invariant forall k :: 0 <= k < i ==> outMat.data[k] == a[k] * b[k]
      {
        outMat.data[i] := a[i] * b[i];
      }
      forall k | 0 <= k < rows * cols
        ensures outMat.data[..][k] == Times(a, b)[k]
      {
        assert outMat.data[k] == a[k] * b[k];
      }
      return Success(outMat);
    }

    /** `operator*` with a number: every cell scaled. */
    method MulScalar(num: real) returns (m: Matrix)
      requires Valid()
      ensures m.Valid() && m.rows == rows && m.cols == cols
      ensures m.data[..] == Scale(data[..], num)
      ensures fresh(m.data)
    {
      m := new Matrix.Init(rows, cols);
      var a := data[..];
      for i := 0 to rows * cols
        invariant forall k :: 0 <= k < i ==> m.data[k] == a[k] * num
      {
        m.data[i] := a[i] * num;
      }
      forall k | 0 <= k < rows * cols
        ensures m.data[..][k] == Scale(a, num)[k]
      {
        assert m.data[k] == a[k] * num;
      }
    }

    /** `operator/` with a number: every cell divided.  Dividing by zero
        yields infinities or NaN in the source, which the model reports as
        `None`. */
    method DivScalar(num: real) returns (r: Option<Matrix>)
      requires Valid()
      ensures r.None? <==> num == 0.0
      ensures r.Some? ==> r.value.Valid() && r.value.rows == rows && r.value.cols == cols
      ensures r.Some? ==> r.value.data[..] == Quotient(data[..], num)
      ensures r.Some? ==> fresh(r.value.data)
    {
      if num == 0.0 {
        return None;
      }
      var m := new Matrix.Init(rows, cols);
      var a := data[..];
      for i := 0 to rows * cols
        invariant forall k :: 0 <= k < i ==> m.data[k] == a[k] / num
      {
        m.data[i] := a[i] / num;
      }
      assert m.data[..] == Quotient(a, num);
      return Some(m);
    }

    // ------------------------------------------------------ matrix product

    /** `operator%`: the matrix product of an (m, p) and a (p, n) matrix. */
    method MatMul(mat: Matrix) returns (r: Result<Matrix>)
      requires Valid() && mat.Valid()
      ensures r.Success? <==> cols == mat.rows
      ensures r.Failure? ==> r.error == InvalidArgument
      ensures r.Success? ==> r.value.Valid() && r.value.rows == rows && r.value.cols == mat.cols
      ensures r.Success? ==> r.value.Grid() == Product(Grid(), mat.Grid(), rows, cols, mat.cols)
      ensures r.Success? ==> fresh(r.value.data)
    {
      if cols != mat.rows {
        return Failure(InvalidArgument);
      }
      var outMat := new Matrix.Init(rows, mat.cols);
      var g, h := Grid(), mat.Grid();
      ghost var G := outMat.Grid();
      for i := 0 to rows
        invariant outMat.Grid() == G && IsMatrix(G, rows, mat.cols)
        invariant forall a, b :: 0 <= a < i && 0 <= b < mat.cols ==> G[a][b] == RowTimesColumn(g, h, a, b, cols)
      {
        for j := 0 to mat.cols
          invariant outMat.Grid() == G && IsMatrix(G, rows, mat.cols)
          invariant forall a, b :: 0 <= a < i && 0 <= b < mat.cols ==> G[a][b] == RowTimesColumn(g, h, a, b, cols)
          invariant forall b :: 0 <= b < j ==> G[i][b] == RowTimesColumn(g, h, i, b, cols)
        {
          var sum := SumOfProducts(g, h, i, j, cols);
          var ok := outMat.Set(i, j, sum);
          G := G[i := G[i][j := sum]];
        }
      }
      forall a | 0 <= a < rows
        ensures G[a] == Product(g, h, rows, cols, mat.cols)[a]
      {
        assert forall b :: 0 <= b < mat.cols ==> G[a][b] == Product(g, h, rows, cols, mat.cols)[a][b];
      }
      return Success(outMat);
    }

    // ---------------------------------------------------------- comparison

    /** `operator==`: same dimensions and the same storage, which is the
        same grid. */
    method Equals(mat: Matrix) returns (b: bool)
      requires Valid() && mat.Valid()
      ensures b <==> rows == mat.rows && cols == mat.cols && Grid() == mat.Grid()
    {
      if mat.cols != cols || mat.rows != rows {
        return false;
      }
      ToGridInjective(data[..], mat.data[..], rows, cols);
      for i := 0 to rows * cols
        invariant data[..i] == mat.data[..i]
      {
        if data[i] != mat.data[i] {
          return false;
        }
      }
      assert data[..] == data[..rows * cols];
      assert mat.data[..] == mat.data[..rows * cols];
      return true;
    }

    /** `operator!=`: the negation of `operator==`. */
    method NotEquals(mat: Matrix) returns (b: bool)
      requires Valid() && mat.Valid()
      ensures b <==> !(rows == mat.rows && cols == mat.cols && Grid() == mat.Grid())
    {
      var same := Equals(mat);
      return !same;
    }

    // ------------------------------------------------ structural operations

    /** `identity`: the len x len identity matrix; `len` = 0 throws from the
        constructor. */
    static method Identity(len: nat) returns (r: Result<Matrix>)
      ensures r.Success? <==> len >= 1
      ensures r.Failure? ==> r.error == InvalidArgument
      ensures r.Success? ==> r.value.Valid() && r.value.rows == len && r.value.cols == len
      ensures r.Success? ==> r.value.Grid() == IdentityGrid(len)
      ensures r.Success? ==> fresh(r.value.data)
    {
      if len < 1 {
        return Failure(InvalidArgument);
      }
      var id := new Matrix.Init(len, len);
      ghost var G := id.Grid();
      for i := 0 to len
        invariant id.Valid() && id.rows == len && id.cols == len && id.Grid() == G && IsMatrix(G, len, len)
        invariant forall a, b :: 0 <= a < i && 0 <= b < len ==> G[a][b] == (if a == b then 1.0 else 0.0)
      {
        for j := 0 to len
          invariant id.Grid() == G && IsMatrix(G, len, len)
          invariant forall a, b :: 0 <= a < i && 0 <= b < len ==> G[a][b] == (if a == b then 1.0 else 0.0)
          invariant forall b :: 0 <= b < j ==> G[i][b] == (if i == b then 1.0 else 0.0)
        {
          if i == j {
            var ok := id.Set(i, j, 1.0);
            G := G[i := G[i][j := 1.0]];
          } else {
            var ok := id.Set(i, j, 0.0);
            G := G[i := G[i][j := 0.0]];
          }
        }
      }
      assert forall a :: 0 <= a < len ==> G[a] == IdentityGrid(len)[a];
      return Success(id);
    }

    /** `transpose`: a cols x rows matrix with entry (j, i) = entry (i, j). */
    method Transpose() returns (t: Matrix)
      requires Valid()
      ensures t.Valid() && t.rows == cols && t.cols == rows
      ensures t.Grid() == Transposed(Grid(), rows, cols)
      ensures fresh(t.data)
    {
      t := new Matrix.Init(cols, rows);
      var g := Grid();
      ghost var want := Transposed(g, rows, cols);
      ghost var G := t.Grid();
      for i := 0 to rows
        invariant t.Grid() == G && IsMatrix(G, cols, rows)
        invariant forall a, b :: 0 <= a < cols && 0 <= b < i ==> G[a][b] == want[a][b]
      {
        for j := 0 to cols
          invariant t.Grid() == G && IsMatrix(G, cols, rows)
          invariant forall a, b :: 0 <= a < cols && 0 <= b < i ==> G[a][b] == want[a][b]
          invariant forall a :: 0 <= a < j ==> G[a][i] == want[a][i]
        {
          var ok := t.Set(j, i, g[i][j]);
          G := G[j := G[j][i := g[i][j]]];
        }
      }
      forall a | 0 <= a < cols
        ensures G[a] == want[a]
      {
        assert forall b :: 0 <= b < rows ==> G[a][b] == want[a][b];
      }
    }

    /** `createSubMatrix`: the matrix without row `row` and column `col`.
        The source throws from the constructor of the smaller matrix when
        there is a single row or column, and from a write outside it when
        `row` or `col` lies outside the matrix; both are checked up front
        here. */
    method CreateSubMatrix(row: nat, col: nat) returns (r: Result<Matrix>)
      requires Valid()
      ensures r.Success? <==> rows >= 2 && cols >= 2 && row < rows && col < cols
      ensures r.Failure? ==> r.error == InvalidArgument
      ensures r.Success? ==> r.value.Valid() && r.value.rows == rows - 1 && r.value.cols == cols - 1
      ensures r.Success? ==> r.value.Grid() == SubMatrix(Grid(), rows, cols, row, col)
      ensures r.Success? ==> fresh(r.value.data)
    {
      if rows < 2 || cols < 2 || row >= rows || col >= cols {
        return Failure(InvalidArgument);
      }
      var outMat := new Matrix.Init(rows - 1, cols - 1);
      var g := Grid();
      ghost var s := SubMatrix(g, rows, cols, row, col);
      ghost var G := outMat.Grid();
      var rowSkip := 0;
      for i := 0 to rows
        invariant outMat.Grid() == G && IsMatrix(G, rows - 1, cols - 1)
        invariant rowSkip == if row < i then 1 else 0
        invariant forall a :: 0 <= a < i - rowSkip ==> G[a] == s[a]
      {
        if rowSkip == 0 && i == row {
          rowSkip := 1;
          continue;
        }
        var outRow := i - rowSkip;
        CopyRowWithout(outMat, i, outRow, col);
        G := G[outRow := Without(g[i], col)];
        SubMatrixRow(g, rows, cols, row, col, outRow);
        assert Skip(outRow, row) == i;
      }
      assert G == s;
      return Success(outMat);
    }

    /** The inner loop of `createSubMatrix`: row `i` without its entry in
        column `col`, written into row `outRow` of `outMat`. */
    method CopyRowWithout(outMat: Matrix, i: nat, outRow: nat, col: nat)
      requires Valid() && outMat.Valid() && outMat.data != data
      requires i < rows && col < cols && outRow < outMat.rows && outMat.cols == cols - 1
      modifies outMat.data
      ensures outMat.Grid() == old(outMat.Grid())[outRow := Without(Grid()[i], col)]
    {
      var g := Grid();
      ghost var want := Without(g[i], col);
      ghost var G0 := outMat.Grid();
      ghost var G := G0;
      var colSkip := 0;
      for j := 0 to cols
        invariant outMat.Grid() == G && IsMatrix(G, outMat.rows, cols - 1)
        invariant colSkip == if col < j then 1 else 0
        invariant forall k :: 0 <= k < outMat.rows && k != outRow ==> G[k] == G0[k]
        invariant forall b :: 0 <= b < j - colSkip ==> G[outRow][b] == want[b]
      {
        if colSkip == 0 && j == col {
          colSkip := 1;
          continue;
        }
        var outCol := j - colSkip;
        assert want[outCol] == g[i][j];
        var ok := outMat.Set(outRow, outCol, g[i][j]);
        G := G[outRow := G[outRow][outCol := g[i][j]]];
      }
      assert G[outRow] == want;
      assert G == G0[outRow := want];
    }

    /** `_find_zeros_row`: the first row holding the most zeros, row 0 when
        no row holds any. */
    method FindZerosRow() returns (zerosRow: nat)
      requires Valid()
      ensures zerosRow == WorkingRow(Grid())
    {
      var g := Grid();
      var highestZerosCount := 0;
      zerosRow := 0;
      for i := 0 to rows
        invariant (zerosRow, highestZerosCount) == ZerosScan(g, i)
      {
        var zeroCount := 0;
        for j := 0 to cols
          invariant zeroCount == ZeroCount(g[i][..j])
        {
          assert g[i][..j + 1][..j] == g[i][..j];
          if g[i][j] == 0.0 {
            zeroCount := zeroCount + 1;
          }
        }
        assert g[i][..cols] == g[i];
        if zeroCount > highestZerosCount {
          highestZerosCount := zeroCount;
          zerosRow := i;
        }
      }
    }

    // --------------------------------------------------------- determinant

    /** `minor`: the determinant of the sub-matrix; it exists only for a
        square matrix of side at least 2 and an in-range position. */
    method Minor(i: nat, j: nat) returns (r: Result<real>)
      requires Valid()
      ensures r.Success? <==> rows == cols && rows >= 2 && i < rows && j < cols
      ensures r.Failure? ==> r.error == InvalidArgument
      ensures r.Success? ==> r.value == Det(SubMatrix(Grid(), rows, cols, i, j))
      decreases rows, 0
    {
      var sub :- CreateSubMatrix(i, j);
      r := sub.Determinant();
    }

    /** `cofactor`: the minor times `pow(-1, i + j)`. */
    method Cofactor(i: nat, j: nat) returns (r: Result<real>)
      requires Valid()
      ensures r.Success? <==> rows == cols && rows >= 2 && i < rows && j < cols
      ensures r.Failure? ==> r.error == InvalidArgument
      ensures r.Success? ==> r.value == CofactorOf(Grid(), i, j)
      decreases rows, 1
    {
      var m :- Minor(i, j);
      return Success(m * Sign(i + j));
    }

    /** `determinant`: only for square matrices; 2 x 2 and 1 x 1 directly,
        larger ones by expanding along the row with the most zeros. */
    method Determinant() returns (r: Result<real>)
      requires Valid()
      ensures r.Success? <==> rows == cols
      ensures r.Failure? ==> r.error == InvalidArgument
      ensures r.Success? ==> r.value == Det(Grid())
      decreases rows, 3
    {
      if cols != rows {
        return Failure(InvalidArgument);
      }
      var g := Grid();
      if cols == 2 {
        return Success(g[0][0] * g[1][1] - g[1][0] * g[0][1]);
      } else if cols == 1 {
        return Success(g[0][0]);
      }
      var workingRow := FindZerosRow();
      WorkingRowInRange(g);
      var det := 0.0;
      for j := 0 to cols
        invariant det == Expansion(g, workingRow, j)
      {
        var res := ExpansionTerm(g, workingRow, j);
        det := det + res;
      }
      return Success(det);
    }

    /** One pass of the loop of `determinant`: the term of entry (w, j) in
        the cofactor expansion along row `w`, nothing when the entry is zero. */
    method ExpansionTerm(ghost g: Grid, w: nat, j: nat) returns (res: real)
      requires Valid() && g == Grid() && rows == cols && rows >= 2 && w < rows && j < cols
      ensures Expansion(g, w, j + 1) == Expansion(g, w, j) + res
      decreases rows, 2
    {
      var x := Get(w, j).value;
      if x != 0.0 {
        var c := Cofactor(w, j);
        var cv := c.value;
        res := x * cv;
        ExpansionAdds(g, w, j, x, cv);
        assert Expansion(g, w, j + 1) == Expansion(g, w, j) + res;
      } else {
        res := 0.0;
        ExpansionSkips(g, w, j);
      }
    }

    /** The outer loop of `adjoint`: the matrix of cofactors.  The first
        `cofactor` throws unless the matrix is square of side at least 2. */
    method CofactorMatrix() returns (r: Result<Matrix>)
      requires Valid()
      ensures r.Success? <==> rows == cols && rows >= 2
      ensures r.Failure? ==> r.error == InvalidArgument
      ensures r.Success? ==> r.value.Valid() && r.value.rows == rows && r.value.cols == cols
      ensures r.Success? ==> r.value.Grid() == CofactorGrid(Grid())
      ensures r.Success? ==> fresh(r.value.data)
    {
      ghost var g := Grid();
      var outMat := new Matrix.Init(rows, cols);
      ghost var G := outMat.Grid();
      for i := 0 to rows
        invariant outMat.Grid() == G && IsMatrix(G, rows, cols)
        invariant 0 < i ==> rows == cols && rows >= 2
        invariant 0 < i ==> forall a :: 0 <= a < i ==> G[a] == CofactorGrid(g)[a]
      {
        var ok :- CofactorRow(outMat, i);
        G := G[i := CofactorGrid(g)[i]];
      }
      assert G == CofactorGrid(g);
      return Success(outMat);
    }

    /** The inner loop of `adjoint`: the cofactors of row `i` written into
        row `i` of `outMat`. */
    method CofactorRow(outMat: Matrix, i: nat) returns (r: Result<()>)
      requires Valid() && outMat.Valid() && outMat.data != data
      requires i < rows && outMat.rows == rows && outMat.cols == cols
      modifies outMat.data
      ensures r.Success? <==> rows == cols && rows >= 2
      ensures r.Failure? ==> r.error == InvalidArgument
      ensures r.Success? ==> outMat.Grid() == old(outMat.Grid())[i := CofactorGrid(Grid())[i]]
    {
      ghost var g := Grid();
      ghost var G0 := outMat.Grid();
      ghost var G := G0;
      for j := 0 to cols
        invariant outMat.Grid() == G && IsMatrix(G, rows, cols)
        invariant 0 < j ==> rows == cols && rows >= 2
        invariant forall k :: 0 <= k < rows && k != i ==> G[k] == G0[k]
        invariant 0 < j ==> forall b :: 0 <= b < j ==> G[i][b] == CofactorOf(g, i, b)
      {
        var c :- Cofactor(i, j);
        var ok := outMat.Set(i, j, c);
        G := G[i := G[i][j := c]];
      }
      assert G[i] == CofactorGrid(g)[i];
      assert G == G0[i := CofactorGrid(g)[i]];
      return Success(());
    }

    /** `adjoint`: the transposed matrix of cofactors. */
    method Adjoint() returns (r: Result<Matrix>)
      requires Valid()
      ensures r.Success? <==> rows == cols && rows >= 2
      ensures r.Failure? ==> r.error == InvalidArgument
      ensures r.Success? ==> r.value.Valid() && r.value.rows == rows && r.value.cols == cols
      ensures r.Success? ==> r.value.Grid() == Adjugate(Grid())
      ensures r.Success? ==> fresh(r.value.data)
    {
      var cofactors :- CofactorMatrix();
      var t := cofactors.Transpose();
      return Success(t);
    }

    /** `inverse`: the adjoint divided by the determinant.  A non-square
        matrix throws from `determinant`, a zero determinant throws, and a
        1 x 1 matrix throws from `adjoint`. */
    method Inverse() returns (r: Result<Matrix>)
      requires Valid()
      ensures r.Success? <==> rows == cols && rows >= 2 && Det(Grid()) != 0.0
      ensures r.Failure? ==> r.error == InvalidArgument
      ensures r.Success? ==> r.value.Valid() && r.value.rows == rows && r.value.cols == cols
      ensures r.Success? ==> r.value.Grid() == InverseGrid(Grid())
      ensures r.Success? ==> fresh(r.value.data)
    {
      var det :- Determinant();
      if det == 0.0 {
        return Failure(InvalidArgument);
      }
      var adj :- Adjoint();
      var q := adj.DivScalar(det);
      var inv := q.value;
      ToGridQuotient(adj.data[..], rows, cols, det);
      forall a | 0 <= a < rows
        ensures inv.Grid()[a] == InverseGrid(Grid())[a]
      {
        assert forall b :: 0 <= b < cols ==> inv.Grid()[a][b] == InverseGrid(Grid())[a][b];
      }
      return Success(inv);
    }
  }

  /** The inner loop of `operator%`: row `i` of `g` times column `j` of
      `h`, summed over the first `n` positions. */
  method SumOfProducts(g: Grid, h: Grid, i: nat, j: nat, n: nat) returns (sum: real)
    requires i < |g| && n <= |g[i]| && n <= |h| && forall k :: 0 <= k < n ==> j < |h[k]|
    ensures sum == RowTimesColumn(g, h, i, j, n)
  {
    sum := 0.0;
    for idx := 0 to n
      invariant sum == RowTimesColumn(g, h, i, j, idx)
    {
      var product := g[i][idx] * h[idx][j];
      sum := sum + product;
    }
  }
}
