/**
 * Gauss-Jordan elimination in place over the kernel's tables: gf_matrix_invert and
 * vandermonde_to_systematic (powerfs_ec.c).
 */
module Elimination {
  import opened Basics
  import opened Fields
  import opened LinearAlgebra
  import opened Gf256
  import opened GfTables

  const EINVAL := -22

  /** The matrix held in a row-major buffer. */
  ghost function Rows(m: array2<u8>): (M: Matrix<u8>)
    reads m
    ensures IsMatrix(M, m.Length0, m.Length1)
    ensures forall i, j :: 0 <= i < m.Length0 && 0 <= j < m.Length1 ==> M[i][j] == m[i, j]
  {
    seq(m.Length0, i requires 0 <= i < m.Length0 reads m =>
      seq(m.Length1, j requires 0 <= j < m.Length1 reads m => m[i, j]))
  }

  // ---------------------------------------------------------------- the row operations

  method SwapRows(m: array2<u8>, a: nat, b: nat)
    requires a < m.Length0 && b < m.Length0
    modifies m
    ensures Rows(m) == Swapped(old(Rows(m)), a, b)
  {
    for r := 0 to m.Length1
      invariant forall i, j :: 0 <= i < m.Length0 && 0 <= j < m.Length1 ==>
        m[i, j] == if j < r && i == a then old(m[b, j]) else if j < r && i == b then old(m[a, j]) else old(m[i, j])
    {
      m[a, r], m[b, r] := m[b, r], m[a, r];
    }
    MatrixEqual(Rows(m), Swapped(old(Rows(m)), a, b), m.Length0, m.Length1);
  }

  /** Multiply row a by c from column `from` on; to the left of it the row must be zero. */
  method ScaleRow(gf: Tables, m: array2<u8>, a: nat, from: nat, c: u8)
    requires gf.Valid()
    requires a < m.Length0 && from <= m.Length1
    requires forall j :: 0 <= j < from ==> m[a, j] == 0
    modifies m
    ensures Rows(m) == Scaled(gf.F, old(Rows(m)), a, c)
  {
    MulRight(gf.F, c, c, c);
    for r := from to m.Length1
      invariant forall i, j :: 0 <= i < m.Length0 && 0 <= j < m.Length1 ==>
        m[i, j] == if i == a && j < r then gf.F.mul(old(m[i, j]), c) else old(m[i, j])
    {
      m[a, r] := gf.Times(m[a, r], c);
    }
    MatrixEqual(Rows(m), Scaled(gf.F, old(Rows(m)), a, c), m.Length0, m.Length1);
  }

  /** Add c times row b to row a from column `from` on; to the left of it row b must be zero. */
  method CombineRows(gf: Tables, m: array2<u8>, a: nat, b: nat, from: nat, c: u8)
    requires gf.Valid()
    requires a < m.Length0 && b < m.Length0 && a != b && from <= m.Length1
    requires forall j :: 0 <= j < from ==> m[b, j] == 0
    modifies m
    ensures Rows(m) == Combined(gf.F, old(Rows(m)), a, b, c)
  {
    MulRight(gf.F, c, c, c);
    forall j | 0 <= j < from
      ensures gf.F.add(m[a, j], gf.F.zero) == m[a, j]
    {
      AddZeroLeft(gf.F, m[a, j]);
    }
    for r := from to m.Length1
      invariant forall i, j :: 0 <= i < m.Length0 && 0 <= j < m.Length1 ==>
        m[i, j] == if i == a && j < r then gf.F.add(old(m[a, j]), gf.F.mul(old(m[b, j]), c)) else old(m[i, j])
    {
      m[a, r] := gf.Plus(m[a, r], gf.Times(m[b, r], c));
    }
    MatrixEqual(Rows(m), Combined(gf.F, old(Rows(m)), a, b, c), m.Length0, m.Length1);
  }

  /** The first row from `col` on with a nonzero entry in column `col`, or the number of rows. */
  method FindPivot(m: array2<u8>, col: nat) returns (pivot: nat)
    requires col < m.Length0 && col < m.Length1
    ensures col <= pivot <= m.Length0
    ensures forall i :: col <= i < pivot ==> Rows(m)[i][col] == 0
    ensures pivot < m.Length0 ==> Rows(m)[pivot][col] != 0
  {
    pivot := col;
    if m[col, col] == 0 {
      pivot := col + 1;
      while pivot < m.Length0 && m[pivot, col] == 0
        invariant col < pivot <= m.Length0
        invariant forall i :: col <= i < pivot ==> m[i, col] == 0
      {
        pivot := pivot + 1;
      }
    }
  }

  /** [M | E] as held in m and e has the solutions of [M0 | E0]. */
  ghost predicate Keeps(F: Field<u8>, M0: Matrix<u8>, E0: Matrix<u8>, m: array2<u8>, e: array2<u8>)
    reads m, e
  {
    && e.Length0 == m.Length0
    && IsMatrix(M0, m.Length0, m.Length1) && IsMatrix(E0, m.Length0, e.Length1)
    && SameSolutions(F, M0, E0, Rows(m), Rows(e), m.Length0, m.Length1, e.Length1)
  }

  method SwapBoth(gf: Tables, m: array2<u8>, e: array2<u8>, a: nat, b: nat, ghost M0: Matrix<u8>, ghost E0: Matrix<u8>)
    requires gf.Valid() && m != e && a < m.Length0 && b < m.Length0
    requires Keeps(gf.F, M0, E0, m, e)
    modifies m, e
    ensures Keeps(gf.F, M0, E0, m, e)
    ensures Rows(m) == Swapped(old(Rows(m)), a, b)
  {
    ghost var M, E := Rows(m), Rows(e);
    SwapRows(m, a, b);
    SwapRows(e, a, b);
    SwapKeepsSolutions(gf.F, M, E, a, b, m.Length0, m.Length1, e.Length1);
    SameSolutionsTransitive(gf.F, M0, E0, M, E, Rows(m), Rows(e), m.Length0, m.Length1, e.Length1);
  }

  method ScaleBoth(
    gf: Tables, m: array2<u8>, e: array2<u8>, a: nat, from: nat, c: u8, ghost M0: Matrix<u8>, ghost E0: Matrix<u8>)
    requires gf.Valid() && m != e && a < m.Length0 && from <= m.Length1 && c != 0
    requires forall j :: 0 <= j < from ==> Rows(m)[a][j] == 0
    requires Keeps(gf.F, M0, E0, m, e)
    modifies m, e
    ensures Keeps(gf.F, M0, E0, m, e)
    ensures Rows(m) == Scaled(gf.F, old(Rows(m)), a, c)
  {
    ghost var M, E := Rows(m), Rows(e);
    assert forall j :: 0 <= j < from ==> m[a, j] == M[a][j];
    ScaleRow(gf, m, a, from, c);
    ScaleRow(gf, e, a, 0, c);
    ScaleKeepsSolutions(gf.F, M, E, a, c, m.Length0, m.Length1, e.Length1);
    SameSolutionsTransitive(gf.F, M0, E0, M, E, Rows(m), Rows(e), m.Length0, m.Length1, e.Length1);
  }

  method CombineBoth(
    gf: Tables, m: array2<u8>, e: array2<u8>, a: nat, b: nat, from: nat, c: u8,
    ghost M0: Matrix<u8>, ghost E0: Matrix<u8>)
    requires gf.Valid() && m != e && a < m.Length0 && b < m.Length0 && a != b && from <= m.Length1
    requires forall j :: 0 <= j < from ==> Rows(m)[b][j] == 0
    requires Keeps(gf.F, M0, E0, m, e)
    modifies m, e
    ensures Keeps(gf.F, M0, E0, m, e)
    ensures Rows(m) == Combined(gf.F, old(Rows(m)), a, b, c)
  {
    ghost var M, E := Rows(m), Rows(e);
    assert forall j :: 0 <= j < from ==> m[b, j] == M[b][j];
    CombineRows(gf, m, a, b, from, c);
    CombineRows(gf, e, a, b, 0, c);
    CombineKeepsSolutions(gf.F, M, E, a, b, c, m.Length0, m.Length1, e.Length1);
    SameSolutionsTransitive(gf.F, M0, E0, M, E, Rows(m), Rows(e), m.Length0, m.Length1, e.Length1);
  }

  // ---------------------------------------------------------------- what the operations do to reduced columns

  /** Columns below `col` are done, the pivot is one, and column `col` is clear in the first `row` rows. */
  ghost predicate Clearing(F: Field<u8>, M: Matrix<u8>, rows: nat, n: nat, col: nat, row: nat)
    requires IsMatrix(M, rows, n) && col < n && col < rows && row <= rows
  {
    && Reduced(F, M, rows, n, col)
    && M[col][col] == F.one
    && forall i :: 0 <= i < row && i != col ==> M[i][col] == F.zero
  }

  lemma SwapBringsPivot(F: Field<u8>, M: Matrix<u8>, rows: nat, n: nat, col: nat, p: nat)
    requires IsMatrix(M, rows, n) && col < n && col <= p < rows && Reduced(F, M, rows, n, col)
    requires M[p][col] != F.zero
    ensures Reduced(F, Swapped(M, col, p), rows, n, col) && Swapped(M, col, p)[col][col] != F.zero
  {
  }

  lemma ScaleNormalises(F: Field<u8>, M: Matrix<u8>, rows: nat, n: nat, col: nat, c: u8)
    requires IsField(F) && IsMatrix(M, rows, n) && col < n && col < rows && Reduced(F, M, rows, n, col)
    requires F.mul(M[col][col], c) == F.one
    ensures Clearing(F, Scaled(F, M, col, c), rows, n, col, 0)
  {
    MulRight(F, c, c, c);
  }

  /** Adding the entry times the pivot row clears the entry, since x + x = 0. */
  lemma CombineClears(F: Field<u8>, M: Matrix<u8>, rows: nat, n: nat, col: nat, row: nat)
    requires IsField(F) && IsMatrix(M, rows, n) && col < n && col < rows && row < rows && row != col
    requires Clearing(F, M, rows, n, col, row)
    ensures Clearing(F, Combined(F, M, row, col, M[row][col]), rows, n, col, row + 1)
  {
    var c := M[row][col];
    MulRight(F, c, F.one, F.one);
    assert LawsAt(F, c, c, F.zero);
    AddZeroLeft(F, F.one);
    AddZeroLeft(F, F.zero);
  }

  lemma ClearedIsReduced(F: Field<u8>, M: Matrix<u8>, rows: nat, n: nat, col: nat)
    requires IsMatrix(M, rows, n) && col < n && col < rows && Clearing(F, M, rows, n, col, rows)
    ensures Reduced(F, M, rows, n, col + 1)
  {
  }

  lemma PivotRowStartsWithZeros(F: Field<u8>, M: Matrix<u8>, rows: nat, n: nat, col: nat)
    requires IsMatrix(M, rows, n) && col < n && col < rows && Reduced(F, M, rows, n, col)
    ensures forall j :: 0 <= j < col ==> M[col][j] == F.zero
  {
  }

  /** Bring the pivot row up and make its leading entry one. */
  method NormalisePivot(
    gf: Tables, m: array2<u8>, e: array2<u8>, col: nat, pivot: nat, from: nat, ghost M0: Matrix<u8>,
    ghost E0: Matrix<u8>)
    requires gf.Valid() && m != e && col < m.Length1 && col <= pivot < m.Length0 && from <= col
    requires Rows(m)[pivot][col] != 0
    requires Reduced(gf.F, Rows(m), m.Length0, m.Length1, col)
    requires Keeps(gf.F, M0, E0, m, e)
    modifies m, e
    ensures Keeps(gf.F, M0, E0, m, e)
    ensures Clearing(gf.F, Rows(m), m.Length0, m.Length1, col, 0)
  {
    ghost var rows, n := m.Length0, m.Length1;
    if m[col, col] == 0 {
      SwapBringsPivot(gf.F, Rows(m), rows, n, col, pivot);
      SwapBoth(gf, m, e, col, pivot, M0, E0);
    }
    assert m[col, col] == Rows(m)[col][col] != 0;
    var inv := gf.Inverse(m[col, col]);
    ScaleNormalises(gf.F, Rows(m), rows, n, col, inv);
    PivotRowStartsWithZeros(gf.F, Rows(m), rows, n, col);
    ScaleBoth(gf, m, e, col, from, inv, M0, E0);
  }

  /** Clear column `col` in every row but its own. */
  method ClearColumn(
    gf: Tables, m: array2<u8>, e: array2<u8>, col: nat, from: nat, ghost M0: Matrix<u8>, ghost E0: Matrix<u8>)
    requires gf.Valid() && m != e && col < m.Length1 && col < m.Length0 && from <= col
    requires Clearing(gf.F, Rows(m), m.Length0, m.Length1, col, 0)
    requires Keeps(gf.F, M0, E0, m, e)
    modifies m, e
    ensures Keeps(gf.F, M0, E0, m, e)
    ensures Reduced(gf.F, Rows(m), m.Length0, m.Length1, col + 1)
  {
    ghost var rows, n := m.Length0, m.Length1;
    for row := 0 to m.Length0
      invariant Keeps(gf.F, M0, E0, m, e)
      invariant Clearing(gf.F, Rows(m), rows, n, col, row)
    {
      assert m[row, col] == Rows(m)[row][col];
      if row != col && m[row, col] != 0 {
        CombineClears(gf.F, Rows(m), rows, n, col, row);
        PivotRowStartsWithZeros(gf.F, Rows(m), rows, n, col);
        CombineBoth(gf, m, e, row, col, from, m[row, col], M0, E0);
      }
    }
    ClearedIsReduced(gf.F, Rows(m), rows, n, col);
  }

  // ---------------------------------------------------------------- gf_matrix_invert

  method SetDiagonal(e: array2<u8>, ghost F: Field<u8>)
    requires e.Length0 == e.Length1 && F.zero == 0 && F.one == 1
    requires forall i, j :: 0 <= i < e.Length0 && 0 <= j < e.Length1 ==> e[i, j] == 0
    modifies e
    ensures Rows(e) == Identity(F, e.Length0)
  {
    for r := 0 to e.Length0
      invariant forall i, j :: 0 <= i < e.Length0 && 0 <= j < e.Length1 ==> e[i, j] == if i == j && i < r then 1 else 0
    {
      e[r, r] := 1;
    }
    MatrixEqual(Rows(e), Identity(F, e.Length0), e.Length0, e.Length1);
  }

  /**
   * The column loop shared by gf_matrix_invert (`whole` rows are rewritten) and
   * vandermonde_to_systematic (rows are rewritten from the pivot column on).
   */
  method ReduceColumns(
    gf: Tables, m: array2<u8>, e: array2<u8>, whole: bool, ghost M0: Matrix<u8>, ghost E0: Matrix<u8>)
    returns (ret: int)
    requires gf.Valid() && m != e && m.Length1 <= m.Length0
    requires Keeps(gf.F, M0, E0, m, e)
    modifies m, e
    ensures Keeps(gf.F, M0, E0, m, e)
    ensures ret == 0 || ret == EINVAL
    ensures ret == 0 <==> !Dependent(gf.F, M0, m.Length0, m.Length1)
    ensures ret == 0 ==> Reduced(gf.F, Rows(m), m.Length0, m.Length1, m.Length1)
  {
    ghost var rows, n, k := m.Length0, m.Length1, e.Length1;
    for col := 0 to m.Length1
      invariant Keeps(gf.F, M0, E0, m, e)
      invariant Reduced(gf.F, Rows(m), rows, n, col)
    {
      var pivot := FindPivot(m, col);
      if pivot == m.Length0 {
        StuckIsDependent(gf.F, M0, E0, Rows(m), Rows(e), rows, n, k, col);
        return EINVAL;
      }
      var from := if whole then 0 else col;
      NormalisePivot(gf, m, e, col, pivot, from, M0, E0);
      ClearColumn(gf, m, e, col, from, M0, E0);
    }
    ReducedIsIndependent(gf.F, M0, E0, Rows(m), Rows(e), rows, n, k);
    return 0;
  }

  /** gf_matrix_invert: succeeds, with the inverse, exactly on the nonsingular matrices. */
  method Invert(gf: Tables, matrix: array2<u8>) returns (ret: int)
    requires gf.Valid() && matrix.Length0 == matrix.Length1
    modifies matrix
    ensures ret == 0 || ret == EINVAL
    ensures ret == 0 ==> IsInverse(gf.F, Rows(matrix), old(Rows(matrix)), matrix.Length0)
    ensures ret == 0 <==> !Dependent(gf.F, old(Rows(matrix)), matrix.Length0, matrix.Length0)
  {
    var n := matrix.Length0;
    ghost var A, I := Rows(matrix), Identity(gf.F, n);
    var identity := new u8[n, n]((_, _) => 0);
    SetDiagonal(identity, gf.F);
    ret := ReduceColumns(gf, matrix, identity, true, A, I);
    if ret == 0 {
      MatrixEqual(Rows(matrix), I, n, n);
      SolvedIsInverse(gf.F, A, Rows(identity), n);
      CopyMatrix(matrix, identity);
    }
  }

  method CopyMatrix(to: array2<u8>, source: array2<u8>)
    requires to.Length0 == source.Length0 && to.Length1 == source.Length1 && to != source
    modifies to
    ensures Rows(to) == Rows(source)
  {
    forall i, j | 0 <= i < to.Length0 && 0 <= j < to.Length1 {
      to[i, j] := source[i, j];
    }
    MatrixEqual(Rows(to), Rows(source), to.Length0, to.Length1);
  }

  // ---------------------------------------------------------------- powerfs_ec_init

  /**
   * vandermonde_matrix: entry (r, c) is c^r, the column number cut to a byte, except that gf_pow makes
   * column 0 zero from row 0 on.
   */
  method Vandermonde(gf: Tables, order: nat, matrix: array2<u8>)
    requires order == 255 && gf.Valid() && gf.Exact(order)
    requires matrix.Length0 <= 255
    modifies matrix
    ensures gf.Valid()
    ensures forall r, c :: 0 <= r < matrix.Length0 && 0 <= c < matrix.Length1 ==>
      VandermondeEntry(gf.F, matrix[r, c], r, c)
  {
    for r := 0 to matrix.Length0
      invariant forall i, c :: 0 <= i < r && 0 <= c < matrix.Length1 ==> VandermondeEntry(gf.F, matrix[i, c], i, c)
    {
      var row := PowerRow(gf, order, r, matrix.Length1);
      StoreRow(matrix, r, row);
    }
  }

  method StoreRow(matrix: array2<u8>, r: nat, row: seq<u8>)
    requires r < matrix.Length0 && |row| == matrix.Length1
    modifies matrix
    ensures forall c :: 0 <= c < matrix.Length1 ==> matrix[r, c] == row[c]
    ensures forall i, c :: 0 <= i < matrix.Length0 && i != r && 0 <= c < matrix.Length1 ==>
      matrix[i, c] == old(matrix[i, c])
  {
    for c := 0 to matrix.Length1
      invariant forall j :: 0 <= j < c ==> matrix[r, j] == row[j]
      invariant forall i, j :: 0 <= i < matrix.Length0 && i != r && 0 <= j < matrix.Length1 ==>
        matrix[i, j] == old(matrix[i, j])
    {
      matrix[r, c] := row[c];
    }
  }

  /** The values of one row. */
  function PowerRow(gf: Tables, order: nat, r: nat, n: nat): (row: seq<u8>)
    requires order == 255 && gf.Exact(order) && r < 255
    reads gf.exp, gf.log
    ensures |row| == n && forall c :: 0 <= c < n ==> VandermondeEntry(gf.F, row[c], r, c)
  {
    if n == 0 then [] else PowerRow(gf, order, r, n - 1) + [PowerEntry(gf, order, r, n - 1)]
  }

  /** The value that the loop stores. */
  function PowerEntry(gf: Tables, order: nat, r: nat, c: nat): (v: u8)
    requires order == 255 && gf.Exact(order) && r < 255
    reads gf.exp, gf.log
    ensures VandermondeEntry(gf.F, v, r, c)
  {
    if Byte(c) == 0 then gf.Exponential(Byte(c), r, order)
    else SmallExponent(gf, order, Byte(c), r); gf.Exponential(Byte(c), r, order)
  }

  /** The cast of a column number to a byte. */
  function Byte(c: nat): u8 {
    (c % 256) as u8
  }

  /** Exponents as small as row numbers do not wrap around. */
  lemma SmallExponent(gf: Tables, order: nat, a: u8, e: nat)
    requires order == 255 && gf.Exact(order) && a != 0 && e < 255
    ensures gf.log[IndexOf(a)] as int * e < U32
  {
    assert gf.LogAt(a);
    ProductBound(gf.log[IndexOf(a)] as int, e);
  }

  ghost predicate VandermondeEntry(F: Field<u8>, v: u8, r: nat, c: nat) {
    v == if Byte(c) == 0 then 0 else Power(F, Byte(c), r)
  }

  /**
   * vandermonde_to_systematic succeeds exactly when the columns are independent, and then the
   * first rows are the identity and every later row is zero.
   */
  method ToSystematic(gf: Tables, m: array2<u8>) returns (ret: int)
    requires gf.Valid() && m.Length1 <= m.Length0
    modifies m
    ensures ret == 0 || ret == EINVAL
    ensures ret == 0 <==> !Dependent(gf.F, old(Rows(m)), m.Length0, m.Length1)
    ensures ret == 0 ==> forall i, j :: 0 <= i < m.Length0 && 0 <= j < m.Length1 ==> m[i, j] == if i == j then 1 else 0
  {
    var none := new u8[m.Length0, 0];
    ghost var M0, E0 := Rows(m), Rows(none);
    ret := ReduceColumns(gf, m, none, false, M0, E0);
    assert forall i, j :: 0 <= i < m.Length0 && 0 <= j < m.Length1 ==> m[i, j] == Rows(m)[i][j];
  }

  /** A zero column is a dependency. */
  lemma ZeroColumnIsDependent(F: Field<u8>, M: Matrix<u8>, rows: nat, n: nat, c: nat)
    requires IsField(F) && IsMatrix(M, rows, n) && c < n
    requires forall i :: 0 <= i < rows ==> M[i][c] == F.zero
    ensures Dependent(F, M, rows, n)
  {
    var x := Unit(F, n, c);
    forall i | 0 <= i < rows
      ensures Apply(F, M, x)[i] == F.zero
    {
      DotUnit(F, M[i], n, c);
    }
    assert Apply(F, M, x) == Zeros(F, rows);
    assert x[c] == F.one;
    assert x != Zeros(F, n);
  }

  /** powerfs_ec_init never yields a codec: the first column of its matrix is zero. */
  method EcInit(data: nat, parity: nat) returns (ret: int)
    requires data < U32 && parity < U32 && data + parity != U32
    ensures ret == EINVAL
  {
    var total := (data + parity) % U32;
    if data == 0 || parity == 0 || total > 255 {
      return EINVAL;
    }
    ret := BuildMatrix(total, data, 255);
  }

  /** The part of powerfs_ec_init that builds the tables and reduces the matrix. */
  method BuildMatrix(total: nat, data: nat, order: nat) returns (ret: int)
    requires order == 255 && data > 0 && 0 < total <= 255
    ensures ret == EINVAL
  {
    var gf := new Tables(order);
    ret := ReduceVandermonde(gf, order, total, data);
  }

  /** If the sum of the counts has wrapped around there are more columns than rows; the first one is zero then, too. */
  method ReduceVandermonde(gf: Tables, order: nat, total: nat, data: nat) returns (ret: int)
    requires order == 255 && gf.Valid() && gf.Exact(order) && data > 0 && 0 < total <= 255
    ensures ret == EINVAL
  {
    var vmatrix := DependentMatrix(gf, order, total, data);
    if data <= total {
      ret := ToSystematic(gf, vmatrix);
    } else {
      var pivot := FindPivot(vmatrix, 0);
      assert pivot == total;
      ret := EINVAL;
    }
  }

  /** Whatever its size, the matrix has a zero column, so that its columns are dependent. */
  method DependentMatrix(gf: Tables, order: nat, rows: nat, columns: nat) returns (m: array2<u8>)
    requires order == 255 && gf.Valid() && gf.Exact(order) && rows <= 255 && 0 < columns
    ensures gf.Valid() && fresh(m) && m.Length0 == rows && m.Length1 == columns
    ensures Dependent(gf.F, Rows(m), rows, columns) && forall i :: 0 <= i < rows ==> Rows(m)[i][0] == 0
  {
    m := new u8[rows, columns];
    Vandermonde(gf, order, m);
    VandermondeIsDependent(gf, m);
  }

  lemma VandermondeIsDependent(gf: Tables, matrix: array2<u8>)
    requires IsField(gf.F) && gf.F.zero == 0 && 0 < matrix.Length1
    requires forall r, c :: 0 <= r < matrix.Length0 && 0 <= c < matrix.Length1 ==>
      VandermondeEntry(gf.F, matrix[r, c], r, c)
    ensures Dependent(gf.F, Rows(matrix), matrix.Length0, matrix.Length1)
    ensures forall i :: 0 <= i < matrix.Length0 ==> Rows(matrix)[i][0] == 0
  {
    forall i | 0 <= i < matrix.Length0
      ensures Rows(matrix)[i][0] == 0
    {
      assert VandermondeEntry(gf.F, matrix[i, 0], i, 0);
    }
    ZeroColumnIsDependent(gf.F, Rows(matrix), matrix.Length0, matrix.Length1, 0);
  }
}
