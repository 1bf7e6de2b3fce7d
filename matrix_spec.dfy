/** The mathematical content of `Matrix<T>` with `T` = `double` modelled as
    `real`: a grid of rows, the row-major layout that stores it flat, and
    the structural and determinant operations as functions on grids. */
module MatrixSpec {
  import opened Elementwise

  type Grid = seq<seq<real>>

  /** `rows` rows of `cols` entries each. */
  predicate IsMatrix(g: Grid, rows: nat, cols: nat) {
    |g| == rows && forall i :: 0 <= i < rows ==> |g[i]| == cols
  }

  predicate IsSquare(g: Grid) {
    |g| >= 1 && IsMatrix(g, |g|, |g|)
  }

  // ======================================================= row-major storage

  lemma {:induction false} MulMonotone(a: nat, b: nat, k: nat)
    requires a <= b
    ensures a * k <= b * k
    decreases b - a
  {
    if a < b {
      MulMonotone(a + 1, b, k);
      assert (a + 1) * k == a * k + k;
    }
  }

  /** Row r occupies the offsets `r * cols` up to `r * cols + cols`, inside
      the storage. */
  lemma RowSlice(r: nat, rows: nat, cols: nat)
    requires r < rows
    ensures r * cols + cols <= rows * cols
  {
    MulMonotone(r + 1, rows, cols);
    assert (r + 1) * cols == r * cols + cols;
  }

  /** The `cols` cells from offset `start`. */
  function Slice(cells: seq<real>, start: nat, cols: nat): (row: seq<real>)
    requires start + cols <= |cells|
    ensures |row| == cols
  {
    cells[start .. start + cols]
  }

  /** The grid that flat row-major storage holds. */
  function ToGrid(cells: seq<real>, rows: nat, cols: nat): (g: Grid)
    requires |cells| == rows * cols
    ensures IsMatrix(g, rows, cols)
  {
    seq(rows, r requires 0 <= r < rows => RowSlice(r, rows, cols); Slice(cells, r * cols, cols))
  }

  /** `_trans_coord`: cell (r, c) is stored at offset `r * cols + c`. */
  lemma ToGridCell(cells: seq<real>, rows: nat, cols: nat, r: nat, c: nat)
    requires |cells| == rows * cols && r < rows && c < cols
    ensures r * cols + c < |cells|
    ensures ToGrid(cells, rows, cols)[r][c] == cells[r * cols + c]
  {
    RowSlice(r, rows, cols);
  }

  /** Distinct in-range coordinates have distinct offsets. */
  lemma CoordInjective(r1: nat, c1: nat, r2: nat, c2: nat, cols: nat)
    requires c1 < cols && c2 < cols && r1 * cols + c1 == r2 * cols + c2
    ensures r1 == r2 && c1 == c2
  {
    if r1 < r2 {
      MulMonotone(r1 + 1, r2, cols);
    } else if r2 < r1 {
      MulMonotone(r2 + 1, r1, cols);
    }
  }

  /** Writing the offset of (r, c) changes exactly that cell of the grid. */
  lemma ToGridUpdate(cells: seq<real>, rows: nat, cols: nat, r: nat, c: nat, v: real)
    requires |cells| == rows * cols && r < rows && c < cols
    ensures r * cols + c < |cells|
    ensures ToGrid(cells[r * cols + c := v], rows, cols)
         == ToGrid(cells, rows, cols)[r := ToGrid(cells, rows, cols)[r][c := v]]
  {
    RowSlice(r, rows, cols);
    var k := r * cols + c;
    var g := ToGrid(cells, rows, cols);
    var h := ToGrid(cells[k := v], rows, cols);
    forall i | 0 <= i < rows
      ensures h[i] == g[r := g[r][c := v]][i]
    {
      RowSlice(i, rows, cols);
      if i < r {
        MulMonotone(i + 1, r, cols);
        assert (i + 1) * cols == i * cols + cols;
      } else if r < i {
        MulMonotone(r + 1, i, cols);
        assert (r + 1) * cols == r * cols + cols;
      }
    }
  }

  /** Storage of the same shape holds the same grid only if it is the same. */
  lemma ToGridInjective(a: seq<real>, b: seq<real>, rows: nat, cols: nat)
    requires |a| == |b| == rows * cols
    ensures ToGrid(a, rows, cols) == ToGrid(b, rows, cols) <==> a == b
  {
    if ToGrid(a, rows, cols) == ToGrid(b, rows, cols) {
      forall k | 0 <= k < |a|
        ensures a[k] == b[k]
      {
        assert cols > 0;
        var r, c := k / cols, k % cols;
        assert k == r * cols + c;
        if r >= rows {
          MulMonotone(rows, r, cols);
        }
        ToGridCell(a, rows, cols, r, c);
        ToGridCell(b, rows, cols, r, c);
      }
    }
  }

  // ================================================= structural operations

  /** Row i of the result is column i of the argument. */
  function Transposed(g: Grid, rows: nat, cols: nat): (t: Grid)
    requires IsMatrix(g, rows, cols)
    ensures IsMatrix(t, cols, rows)
  {
    seq(cols, j requires 0 <= j < cols => seq(rows, i requires 0 <= i < rows => g[i][j]))
  }

  /** Column `col`, top to bottom. */
  function Column(g: Grid, rows: nat, cols: nat, col: nat): (c: seq<real>)
    requires IsMatrix(g, rows, cols) && col < cols
    ensures |c| == rows
  {
    seq(rows, i requires 0 <= i < rows => g[i][col])
  }

  /** The index in the full matrix of index i of a matrix with index `k`
      removed. */
  function Skip(i: nat, k: nat): nat {
    if i < k then i else i + 1
  }

  /** The matrix with row `row` and column `col` removed. */
  function SubMatrix(g: Grid, rows: nat, cols: nat, row: nat, col: nat): (s: Grid)
    requires IsMatrix(g, rows, cols) && row < rows && col < cols
    ensures IsMatrix(s, rows - 1, cols - 1)
  {
    seq(rows - 1, i requires 0 <= i < rows - 1 =>
      seq(cols - 1, j requires 0 <= j < cols - 1 => g[Skip(i, row)][Skip(j, col)]))
  }

  /** A row with the entry at `col` removed. */
  function Without(row: seq<real>, col: nat): (r: seq<real>)
    requires col < |row|
    ensures |r| == |row| - 1
  {
    row[..col] + row[col + 1..]
  }

  function IdentityGrid(n: nat): (id: Grid)
    ensures IsMatrix(id, n, n)
  {
    seq(n, i requires 0 <= i < n => seq(n, j requires 0 <= j < n => if i == j then 1.0 else 0.0))
  }

  /** `sum += a[i][k] * b[k][j]` over the first n values of k. */
  function RowTimesColumn(a: Grid, b: Grid, i: nat, j: nat, n: nat): real
    requires i < |a| && n <= |a[i]| && n <= |b| && forall k :: 0 <= k < n ==> j < |b[k]|
  {
    if n == 0 then 0.0 else RowTimesColumn(a, b, i, j, n - 1) + a[i][n - 1] * b[n - 1][j]
  }

  /** The matrix product of an n x p and a p x m matrix. */
  function Product(a: Grid, b: Grid, n: nat, p: nat, m: nat): (c: Grid)
    requires IsMatrix(a, n, p) && IsMatrix(b, p, m)
    ensures IsMatrix(c, n, m)
  {
    seq(n, i requires 0 <= i < n => seq(m, j requires 0 <= j < m => RowTimesColumn(a, b, i, j, p)))
  }

  // ============================================================ determinant

  /** Entries equal to 0 in a row. */
  function ZeroCount(row: seq<real>): nat {
    if |row| == 0 then 0 else ZeroCount(row[..|row| - 1]) + (if row[|row| - 1] == 0.0 then 1 else 0)
  }

  /** `(zerosRow, highestZerosCount)` after scanning the first n rows: a row
      replaces the best so far only with strictly more zeros. */
  function ZerosScan(g: Grid, n: nat): (nat, nat)
    requires n <= |g|
  {
    if n == 0 then (0, 0)
    else
      var (best, most) := ZerosScan(g, n - 1);
      var z := ZeroCount(g[n - 1]);
      if z > most then (n - 1, z) else (best, most)
  }

  /** `_find_zeros_row`: the row the determinant expands along. */
  function WorkingRow(g: Grid): nat
  {
    ZerosScan(g, |g|).0
  }

  /** `pow(-1, k)`, exact for a whole exponent. */
  function Sign(k: nat): real {
    if k % 2 == 0 then 1.0 else -1.0
  }

  /** `determinant`: 2 x 2 and 1 x 1 directly, larger matrices by cofactor
      expansion along the working row, skipping zero entries. */
  function Det(g: Grid): real
    requires IsSquare(g)
    decreases |g|, 2, 0
  {
    if |g| == 2 then g[0][0] * g[1][1] - g[1][0] * g[0][1]
    else if |g| == 1 then g[0][0]
    else
      WorkingRowInRange(g);
      Expansion(g, WorkingRow(g), |g|)
  }

  /** `det` after the expansion loop has seen the first k columns. */
  function Expansion(g: Grid, w: nat, k: nat): real
    requires IsSquare(g) && |g| >= 2 && w < |g| && k <= |g|
    decreases |g|, 1, k
  {
    if k == 0 then 0.0
    else if g[w][k - 1] != 0.0 then Expansion(g, w, k - 1) + g[w][k - 1] * CofactorOf(g, w, k - 1)
    else Expansion(g, w, k - 1)
  }

  /** `minor(i, j) * pow(-1, i + j)`, the minor being the determinant of the
      sub-matrix. */
  function CofactorOf(g: Grid, i: nat, j: nat): real
    requires IsSquare(g) && |g| >= 2 && i < |g| && j < |g|
    decreases |g|, 0, 0
  {
    Det(SubMatrix(g, |g|, |g|, i, j)) * Sign(i + j)
  }

  /** A nonzero entry adds its term to the expansion ... */
  lemma ExpansionAdds(g: Grid, w: nat, k: nat, x: real, c: real)
    requires IsSquare(g) && |g| >= 2 && w < |g| && k < |g|
    requires x == g[w][k] && x != 0.0 && c == CofactorOf(g, w, k)
    ensures Expansion(g, w, k + 1) == Expansion(g, w, k) + x * c
  {
  }

  /** ... and a zero entry is skipped. */
  lemma ExpansionSkips(g: Grid, w: nat, k: nat)
    requires IsSquare(g) && |g| >= 2 && w < |g| && k < |g| && g[w][k] == 0.0
    ensures Expansion(g, w, k + 1) == Expansion(g, w, k)
  {
  }

  /** The matrix of cofactors that `adjoint` fills before transposing. */
  function CofactorGrid(g: Grid): (c: Grid)
    requires IsSquare(g) && |g| >= 2
    ensures IsMatrix(c, |g|, |g|)
  {
    var n := |g|;
    seq(n, i requires 0 <= i < n => seq(n, j requires 0 <= j < n => CofactorOf(g, i, j)))
  }

  /** `adjoint`: the transpose of the matrix of cofactors. */
  function Adjugate(g: Grid): (adj: Grid)
    requires IsSquare(g) && |g| >= 2
    ensures IsMatrix(adj, |g|, |g|)
  {
    Transposed(CofactorGrid(g), |g|, |g|)
  }

  /** `inverse`: the adjugate divided by the determinant. */
  function InverseGrid(g: Grid): (inv: Grid)
    requires IsSquare(g) && |g| >= 2 && Det(g) != 0.0
    ensures IsMatrix(inv, |g|, |g|)
  {
    var n, adj, d := |g|, Adjugate(g), Det(g);
    seq(n, i requires 0 <= i < n => seq(n, j requires 0 <= j < n => adj[i][j] / d))
  }

  /** The grid with column `col` replaced, top to bottom, by `c`. */
  function WithColumn(g: Grid, rows: nat, cols: nat, col: nat, c: seq<real>): (h: Grid)
    requires IsMatrix(g, rows, cols) && col < cols && |c| == rows
    ensures IsMatrix(h, rows, cols)
  {
    seq(rows, i requires 0 <= i < rows => g[i][col := c[i]])
  }

  // ==================================================================== laws

  lemma {:induction false} ZerosScanInRange(g: Grid, n: nat)
    requires n <= |g|
    ensures n > 0 ==> ZerosScan(g, n).0 < n
    ensures n == 0 ==> ZerosScan(g, n) == (0, 0)
  {
    if n > 0 {
      ZerosScanInRange(g, n - 1);
    }
  }

  lemma WorkingRowInRange(g: Grid)
    requires |g| > 0
    ensures WorkingRow(g) < |g|
  {
    ZerosScanInRange(g, |g|);
  }

  /** Transposing twice gives back the matrix. */
  lemma TransposeTwice(g: Grid, rows: nat, cols: nat)
    requires IsMatrix(g, rows, cols)
    ensures Transposed(Transposed(g, rows, cols), cols, rows) == g
  {
    var t := Transposed(Transposed(g, rows, cols), cols, rows);
    forall i | 0 <= i < rows
      ensures t[i] == g[i]
    {
    }
  }

  /** In a row-major layout a coordinate is in bounds exactly when its column
      is and its offset lies inside the storage. */
  lemma InBoundsIffOffset(row: nat, col: nat, rows: nat, cols: nat)
    ensures row < rows && col < cols <==> col < cols && row * cols + col < rows * cols
  {
    if row < rows {
      RowSlice(row, rows, cols);
    } else {
      MulMonotone(rows, row, cols);
    }
  }

  /** Removing row r and column c, then transposing, is transposing and then
      removing row c and column r. */
  lemma SubMatrixTranspose(g: Grid, rows: nat, cols: nat, r: nat, c: nat)
    requires IsMatrix(g, rows, cols) && r < rows && c < cols
    ensures Transposed(SubMatrix(g, rows, cols, r, c), rows - 1, cols - 1)
         == SubMatrix(Transposed(g, rows, cols), cols, rows, c, r)
  {
    var lhs := Transposed(SubMatrix(g, rows, cols, r, c), rows - 1, cols - 1);
    var rhs := SubMatrix(Transposed(g, rows, cols), cols, rows, c, r);
    forall j | 0 <= j < cols - 1
      ensures lhs[j] == rhs[j]
    {
      forall i | 0 <= i < rows - 1
        ensures lhs[j][i] == rhs[j][i]
      {
        assert lhs[j][i] == g[Skip(i, r)][Skip(j, c)];
      }
    }
  }

  lemma {:induction false} TimesIdentityPrefix(a: Grid, n: nat, p: nat, i: nat, j: nat, k: nat)
    requires IsMatrix(a, n, p) && i < n && j < p && k <= p
    ensures RowTimesColumn(a, IdentityGrid(p), i, j, k) == if j < k then a[i][j] else 0.0
  {
    if k > 0 {
      TimesIdentityPrefix(a, n, p, i, j, k - 1);
    }
  }

  lemma {:induction false} IdentityTimesPrefix(a: Grid, n: nat, m: nat, i: nat, j: nat, k: nat)
    requires IsMatrix(a, n, m) && i < n && j < m && k <= n
    ensures RowTimesColumn(IdentityGrid(n), a, i, j, k) == if i < k then a[i][j] else 0.0
  {
    if k > 0 {
      IdentityTimesPrefix(a, n, m, i, j, k - 1);
    }
  }

  /** The identity is a unit of the matrix product on both sides. */
  lemma ProductIdentity(a: Grid, n: nat, p: nat)
    requires IsMatrix(a, n, p)
    ensures Product(a, IdentityGrid(p), n, p, p) == a
    ensures Product(IdentityGrid(n), a, n, n, p) == a
  {
    var right := Product(a, IdentityGrid(p), n, p, p);
    var left := Product(IdentityGrid(n), a, n, n, p);
    forall i | 0 <= i < n
      ensures right[i] == a[i] && left[i] == a[i]
    {
      forall j | 0 <= j < p
        ensures right[i][j] == a[i][j] && left[i][j] == a[i][j]
      {
        TimesIdentityPrefix(a, n, p, i, j, p);
        IdentityTimesPrefix(a, n, p, i, j, n);
      }
    }
  }

  lemma {:induction false} ZerosScanProperties(g: Grid, n: nat)
    requires 0 < n <= |g|
    ensures ZerosScan(g, n).0 < n
    ensures ZerosScan(g, n).1 == ZeroCount(g[ZerosScan(g, n).0])
    ensures forall i :: 0 <= i < n ==> ZeroCount(g[i]) <= ZerosScan(g, n).1
    ensures forall i :: 0 <= i < ZerosScan(g, n).0 ==> ZeroCount(g[i]) < ZerosScan(g, n).1
  {
    if n > 1 {
      ZerosScanProperties(g, n - 1);
    }
  }

  /** `_find_zeros_row` returns the first row with the most zeros (row 0
      when no row has any). */
  lemma WorkingRowIsFirstWithMostZeros(g: Grid)
    requires |g| > 0
    ensures WorkingRow(g) < |g|
    ensures forall i :: 0 <= i < |g| ==> ZeroCount(g[i]) <= ZeroCount(g[WorkingRow(g)])
    ensures forall i :: 0 <= i < WorkingRow(g) ==> ZeroCount(g[i]) < ZeroCount(g[WorkingRow(g)])
  {
    ZerosScanProperties(g, |g|);
  }

  /** The expansion with every term, zero entries included. */
  function CofactorSum(g: Grid, w: nat, k: nat): real
    requires IsSquare(g) && |g| >= 2 && w < |g| && k <= |g|
  {
    if k == 0 then 0.0 else CofactorSum(g, w, k - 1) + g[w][k - 1] * CofactorOf(g, w, k - 1)
  }

  /** Skipping the zero entries of the working row does not change the sum. */
  lemma {:induction false} SkippingZerosIsExact(g: Grid, w: nat, k: nat)
    requires IsSquare(g) && |g| >= 2 && w < |g| && k <= |g|
    ensures Expansion(g, w, k) == CofactorSum(g, w, k)
  {
    if k > 0 {
      SkippingZerosIsExact(g, w, k - 1);
      if g[w][k - 1] == 0.0 {
        var x := g[w][k - 1];
        var y := CofactorOf(g, w, k - 1);
        assert x * y == 0.0;
      }
    }
  }

  lemma {:induction false} ZeroCountBound(row: seq<real>)
    ensures ZeroCount(row) <= |row|
    ensures ZeroCount(row) == |row| ==> forall j :: 0 <= j < |row| ==> row[j] == 0.0
  {
    if |row| > 0 {
      ZeroCountBound(row[..|row| - 1]);
      assert forall j :: 0 <= j < |row| - 1 ==> row[..|row| - 1][j] == row[j];
    }
  }

  lemma {:induction false} ZeroRowExpansion(g: Grid, w: nat, k: nat)
    requires IsSquare(g) && |g| >= 2 && w < |g| && k <= |g|
    requires forall j :: 0 <= j < |g| ==> g[w][j] == 0.0
    ensures Expansion(g, w, k) == 0.0
  {
    if k > 0 {
      ZeroRowExpansion(g, w, k - 1);
    }
  }

  /** A matrix with a row of zeros has determinant 0. */
  lemma DetZeroRow(g: Grid, z: nat)
    requires IsSquare(g) && z < |g|
    requires forall j :: 0 <= j < |g| ==> g[z][j] == 0.0
    ensures Det(g) == 0.0
  {
    var n := |g|;
    if n == 2 {
      var a, b, c, d := g[0][0], g[0][1], g[1][0], g[1][1];
      assert Det(g) == a * d - c * b;
      if z == 0 {
        assert a == 0.0 && b == 0.0;
      } else {
        assert c == 0.0 && d == 0.0;
      }
    } else if n >= 3 {
      var w := WorkingRow(g);
      WorkingRowIsFirstWithMostZeros(g);
      ZeroCountBound(g[z]);
      ZeroCountFull(g[z]);
      ZeroCountBound(g[w]);
      ZeroRowExpansion(g, w, n);
    }
  }

  lemma {:induction false} ZeroCountFull(row: seq<real>)
    requires forall j :: 0 <= j < |row| ==> row[j] == 0.0
    ensures ZeroCount(row) == |row|
  {
    if |row| > 0 {
      ZeroCountFull(row[..|row| - 1]);
    }
  }

  lemma {:induction false} IdentityRowZeros(n: nat, i: nat, k: nat)
    requires i < n && k <= n
    ensures ZeroCount(IdentityGrid(n)[i][..k]) == if i < k then k - 1 else k
  {
    if k > 0 {
      IdentityRowZeros(n, i, k - 1);
      assert IdentityGrid(n)[i][..k][..k - 1] == IdentityGrid(n)[i][..k - 1];
    }
  }

  lemma SubIdentity(n: nat)
    requires n >= 1
    ensures SubMatrix(IdentityGrid(n), n, n, 0, 0) == IdentityGrid(n - 1)
  {
    var s := SubMatrix(IdentityGrid(n), n, n, 0, 0);
    forall i | 0 <= i < n - 1
      ensures s[i] == IdentityGrid(n - 1)[i]
    {
      assert forall j :: 0 <= j < n - 1 ==> s[i][j] == IdentityGrid(n - 1)[i][j];
    }
  }

  lemma {:induction false} IdentityExpansion(n: nat, k: nat)
    requires n >= 3 && 1 <= k <= n
    ensures Expansion(IdentityGrid(n), 0, k) == CofactorOf(IdentityGrid(n), 0, 0)
  {
    if k > 1 {
      IdentityExpansion(n, k - 1);
    }
  }

  /** The identity has determinant 1. */
  lemma {:induction false} DetIdentity(n: nat)
    requires n >= 1
    ensures Det(IdentityGrid(n)) == 1.0
  {
    var id := IdentityGrid(n);
    if n >= 3 {
      forall i | 0 <= i < n
        ensures ZeroCount(id[i]) == n - 1
      {
        IdentityRowZeros(n, i, n);
        assert id[i][..n] == id[i];
      }
      WorkingRowIsFirstWithMostZeros(id);
      assert ZeroCount(id[0]) == ZeroCount(id[WorkingRow(id)]);
      assert WorkingRow(id) == 0;
      IdentityExpansion(n, n);
      SubIdentity(n);
      DetIdentity(n - 1);
    }
  }

  /** The adjugate of a 2 x 2 matrix swaps the diagonal and negates the
      other two entries. */
  lemma AdjugateTwoByTwo(g: Grid)
    requires IsMatrix(g, 2, 2)
    ensures Adjugate(g) == [[g[1][1], -g[0][1]], [-g[1][0], g[0][0]]]
  {
    CofactorTwoByTwo(g, 0, 0, 1, 1);
    CofactorTwoByTwo(g, 0, 1, 1, 0);
    CofactorTwoByTwo(g, 1, 0, 0, 1);
    CofactorTwoByTwo(g, 1, 1, 0, 0);
    var adj := Adjugate(g);
    var expected := [[g[1][1], -g[0][1]], [-g[1][0], g[0][0]]];
    forall i | 0 <= i < 2
      ensures adj[i] == expected[i]
    {
      assert forall j :: 0 <= j < 2 ==> adj[i][j] == expected[i][j];
    }
  }

  /** A cofactor of a 2 x 2 matrix is the signed entry left over. */
  lemma CofactorTwoByTwo(g: Grid, i: nat, j: nat, i': nat, j': nat)
    requires IsMatrix(g, 2, 2) && i < 2 && j < 2 && i' == 1 - i && j' == 1 - j
    ensures CofactorOf(g, i, j) == g[i'][j'] * Sign(i + j)
  {
    var sub := SubMatrix(g, 2, 2, i, j);
    assert Skip(0, i) == i' && Skip(0, j) == j';
    assert sub[0][0] == g[i'][j'];
  }

  /** Dividing the storage cell by cell divides every entry of the grid. */
  lemma ToGridQuotient(cells: seq<real>, rows: nat, cols: nat, d: real)
    requires |cells| == rows * cols && d != 0.0
    ensures |Quotient(cells, d)| == rows * cols
    ensures forall i, j :: 0 <= i < rows && 0 <= j < cols ==>
      ToGrid(Quotient(cells, d), rows, cols)[i][j] == ToGrid(cells, rows, cols)[i][j] / d
  {
    forall i, j | 0 <= i < rows && 0 <= j < cols
      ensures ToGrid(Quotient(cells, d), rows, cols)[i][j] == ToGrid(cells, rows, cols)[i][j] / d
    {
      ToGridCell(cells, rows, cols, i, j);
      ToGridCell(Quotient(cells, d), rows, cols, i, j);
    }
  }

  /** Row a of the sub-matrix is row `Skip(a, row)` without column `col`. */
  lemma SubMatrixRow(g: Grid, rows: nat, cols: nat, row: nat, col: nat, a: nat)
    requires IsMatrix(g, rows, cols) && row < rows && col < cols && a < rows - 1
    ensures SubMatrix(g, rows, cols, row, col)[a] == Without(g[Skip(a, row)], col)
  {
    var s := SubMatrix(g, rows, cols, row, col);
    assert forall b :: 0 <= b < cols - 1 ==> s[a][b] == Without(g[Skip(a, row)], col)[b];
  }

  /** For a 2 x 2 matrix with nonzero determinant the computed inverse is a
      right inverse: the product is the identity. */
  lemma InverseTwoByTwo(g: Grid)
    requires IsMatrix(g, 2, 2) && Det(g) != 0.0
    ensures Product(g, InverseGrid(g), 2, 2, 2) == IdentityGrid(2)
  {
    InverseGridTwoByTwo(g);
    RightInverseTwoByTwo(g, InverseGrid(g), Det(g));
  }

  /** The adjugate over the determinant is a right inverse of a 2 x 2 matrix. */
  lemma RightInverseTwoByTwo(g: Grid, inv: Grid, d: real)
    requires IsMatrix(g, 2, 2) && d == g[0][0] * g[1][1] - g[1][0] * g[0][1] && d != 0.0
    requires inv == [[g[1][1] / d, -g[0][1] / d], [-g[1][0] / d, g[0][0] / d]]
    ensures Product(g, inv, 2, 2, 2) == IdentityGrid(2)
  {
    var a, b, c, e := g[0][0], g[0][1], g[1][0], g[1][1];
    InverseEntries(a, b, c, e, d);
    ProductTwoByTwo(g, inv);
    var p := Product(g, inv, 2, 2, 2);
    assert p[0][0] == a * (e / d) + b * (-c / d) == 1.0;
    assert p[0][1] == a * (-b / d) + b * (a / d) == 0.0;
    assert p[1][0] == c * (e / d) + e * (-c / d) == 0.0;
    assert p[1][1] == c * (-b / d) + e * (a / d) == 1.0;
    assert p[0] == IdentityGrid(2)[0] && p[1] == IdentityGrid(2)[1];
  }

  /** The inverse of a 2 x 2 matrix, entry by entry. */
  lemma InverseGridTwoByTwo(g: Grid)
    requires IsMatrix(g, 2, 2) && Det(g) != 0.0
    ensures Det(g) == g[0][0] * g[1][1] - g[1][0] * g[0][1]
    ensures InverseGrid(g) == [[g[1][1] / Det(g), -g[0][1] / Det(g)], [-g[1][0] / Det(g), g[0][0] / Det(g)]]
  {
    AdjugateTwoByTwo(g);
    var inv, d := InverseGrid(g), Det(g);
    var expected := [[g[1][1] / d, -g[0][1] / d], [-g[1][0] / d, g[0][0] / d]];
    forall i | 0 <= i < 2
      ensures inv[i] == expected[i]
    {
      assert forall j :: 0 <= j < 2 ==> inv[i][j] == expected[i][j];
    }
  }

  /** The product of two 2 x 2 matrices, entry by entry. */
  lemma ProductTwoByTwo(g: Grid, h: Grid)
    requires IsMatrix(g, 2, 2) && IsMatrix(h, 2, 2)
    ensures forall i, j :: 0 <= i < 2 && 0 <= j < 2 ==>
      Product(g, h, 2, 2, 2)[i][j] == g[i][0] * h[0][j] + g[i][1] * h[1][j]
  {
    var p := Product(g, h, 2, 2, 2);
    forall i, j | 0 <= i < 2 && 0 <= j < 2
      ensures p[i][j] == g[i][0] * h[0][j] + g[i][1] * h[1][j]
    {
      assert p[i][j] == RowTimesColumn(g, h, i, j, 2);
      assert RowTimesColumn(g, h, i, j, 1) == g[i][0] * h[0][j];
    }
  }

  /** The four entries of the 2 x 2 product with the adjugate over the
      determinant. */
  lemma InverseEntries(a: real, b: real, c: real, e: real, d: real)
    requires d == a * e - c * b && d != 0.0
    ensures a * (e / d) + b * (-c / d) == 1.0
    ensures a * (-b / d) + b * (a / d) == 0.0
    ensures c * (e / d) + e * (-c / d) == 0.0
    ensures c * (-b / d) + e * (a / d) == 1.0
  {
    assert a * (e / d) + b * (-c / d) == (a * e - c * b) / d;
    assert c * (-b / d) + e * (a / d) == (a * e - c * b) / d;
  }
}
