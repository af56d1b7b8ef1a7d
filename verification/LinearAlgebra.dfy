/**
 * Matrices over a field of characteristic two and the row operations of Gaussian elimination.
 *
 * A matrix is a sequence of rows.  Elimination is judged by what it does to systems of equations:
 * each row operation, applied to both sides, leaves the solutions of M*x = E*y unchanged.
 */
module LinearAlgebra {
  import opened Fields

  type Vector<T> = seq<T>
  type Matrix<T> = seq<seq<T>>

  ghost predicate IsMatrix<T>(M: Matrix<T>, rows: nat, cols: nat) {
    |M| == rows && forall i :: 0 <= i < rows ==> |M[i]| == cols
  }

  /** The inner product of the first n coordinates. */
  ghost function Dot<T>(F: Field<T>, r: Vector<T>, x: Vector<T>, n: nat): T
    requires n <= |r| && n <= |x|
  {
    if n == 0 then F.zero else F.add(Dot(F, r, x, n - 1), F.mul(r[n - 1], x[n - 1]))
  }

  ghost function Apply<T>(F: Field<T>, M: Matrix<T>, x: Vector<T>): (y: Vector<T>)
    requires IsMatrix(M, |M|, |x|)
  {
    seq(|M|, i requires 0 <= i < |M| => Dot(F, M[i], x, |x|))
  }

  ghost function Zeros<T>(F: Field<T>, n: nat): Vector<T> {
    seq(n, _ => F.zero)
  }

  ghost function Unit<T>(F: Field<T>, n: nat, k: int): Vector<T> {
    seq(n, j => if j == k then F.one else F.zero)
  }

  ghost function Identity<T>(F: Field<T>, n: nat): Matrix<T> {
    seq(n, i => Unit(F, n, i))
  }

  lemma MatrixEqual<T>(A: Matrix<T>, B: Matrix<T>, rows: nat, cols: nat)
    requires IsMatrix(A, rows, cols) && IsMatrix(B, rows, cols)
    requires forall i, j :: 0 <= i < rows && 0 <= j < cols ==> A[i][j] == B[i][j]
    ensures A == B
  {
    forall i | 0 <= i < rows ensures A[i] == B[i] {
    }
  }

  // ---------------------------------------------------------------- inner products

  lemma {:induction false} DotScaled<T(!new)>(F: Field<T>, r: Vector<T>, s: Vector<T>, c: T, x: Vector<T>, n: nat)
    requires IsField(F)
    requires n <= |r| && n <= |s| && n <= |x|
    requires forall j :: 0 <= j < n ==> s[j] == F.mul(r[j], c)
    ensures Dot(F, s, x, n) == F.mul(Dot(F, r, x, n), c)
  {
    if n == 0 {
      MulRight(F, c, c, c);
    } else {
      DotScaled(F, r, s, c, x, n - 1);
      MulRight(F, r[n - 1], c, x[n - 1]);
      MulRight(F, Dot(F, r, x, n - 1), F.mul(r[n - 1], x[n - 1]), c);
    }
  }

  lemma {:induction false} DotCombined<T(!new)>(
    F: Field<T>, r: Vector<T>, q: Vector<T>, s: Vector<T>, c: T, x: Vector<T>, n: nat)
    requires IsField(F)
    requires n <= |r| && n <= |q| && n <= |s| && n <= |x|
    requires forall j :: 0 <= j < n ==> s[j] == F.add(r[j], F.mul(q[j], c))
    ensures Dot(F, s, x, n) == F.add(Dot(F, r, x, n), F.mul(Dot(F, q, x, n), c))
  {
    if n == 0 {
      MulRight(F, c, c, c);
      AddZeroLeft(F, F.zero);
    } else {
      var j := n - 1;
      DotCombined(F, r, q, s, c, x, j);
      MulRight(F, r[j], F.mul(q[j], c), x[j]);
      MulRight(F, q[j], c, x[j]);
      MulRight(F, Dot(F, q, x, j), F.mul(q[j], x[j]), c);
      AddSwap(F, Dot(F, r, x, j), F.mul(Dot(F, q, x, j), c), F.mul(r[j], x[j]), F.mul(F.mul(q[j], x[j]), c));
    }
  }

  /** At most the coordinate p contributes. */
  lemma {:induction false} DotSingle<T(!new)>(F: Field<T>, r: Vector<T>, x: Vector<T>, n: nat, p: int)
    requires IsField(F)
    requires n <= |r| && n <= |x|
    requires forall j :: 0 <= j < n && j != p ==> r[j] == F.zero || x[j] == F.zero
    ensures Dot(F, r, x, n) == if 0 <= p < n then F.mul(r[p], x[p]) else F.zero
  {
    if n > 0 {
      DotSingle(F, r, x, n - 1, p);
      AddZeroLeft(F, F.mul(r[n - 1], x[n - 1]));
      AddZeroLeft(F, Dot(F, r, x, n - 1));
      MulRight(F, x[n - 1], x[n - 1], x[n - 1]);
      assert LawsAt(F, r[n - 1], F.zero, F.zero);
    }
  }

  lemma DotUnit<T(!new)>(F: Field<T>, x: Vector<T>, n: nat, k: nat)
    requires IsField(F)
    requires k < n == |x|
    ensures Dot(F, Unit(F, n, k), x, n) == x[k]
    ensures Dot(F, x, Unit(F, n, k), n) == x[k]
  {
    DotSingle(F, Unit(F, n, k), x, n, k);
    DotSingle(F, x, Unit(F, n, k), n, k);
    MulRight(F, x[k], x[k], x[k]);
    assert LawsAt(F, x[k], x[k], x[k]);
  }

  lemma DotZeros<T(!new)>(F: Field<T>, r: Vector<T>, n: nat)
    requires IsField(F)
    requires n <= |r|
    ensures Dot(F, r, Zeros(F, n), n) == F.zero
  {
    DotSingle(F, r, Zeros(F, n), n, n);
  }

  lemma ApplyIdentity<T(!new)>(F: Field<T>, x: Vector<T>)
    requires IsField(F)
    ensures IsMatrix(Identity(F, |x|), |x|, |x|)
    ensures Apply(F, Identity(F, |x|), x) == x
  {
    forall i | 0 <= i < |x| ensures Dot(F, Identity(F, |x|)[i], x, |x|) == x[i] { DotUnit(F, x, |x|, i); }
  }

  // ---------------------------------------------------------------- systems of equations

  /** Row i of M*x = E*y. */
  ghost predicate Equation<T>(F: Field<T>, M: Matrix<T>, E: Matrix<T>, x: Vector<T>, y: Vector<T>, i: nat)
    requires i < |M| && i < |E| && |M[i]| == |x| && |E[i]| == |y|
  {
    Dot(F, M[i], x, |x|) == Dot(F, E[i], y, |y|)
  }

  ghost predicate Solves<T>(F: Field<T>, M: Matrix<T>, E: Matrix<T>, x: Vector<T>, y: Vector<T>)
    requires IsMatrix(M, |M|, |x|) && IsMatrix(E, |M|, |y|)
  {
    forall i :: 0 <= i < |M| ==> Equation(F, M, E, x, y, i)
  }

  /** The systems [M | E] and [M' | E'] have the same solutions. */
  ghost predicate SameSolutions<T(!new)>(
    F: Field<T>, M: Matrix<T>, E: Matrix<T>, M': Matrix<T>, E': Matrix<T>, rows: nat, n: nat, k: nat)
    requires IsMatrix(M, rows, n) && IsMatrix(E, rows, k) && IsMatrix(M', rows, n) && IsMatrix(E', rows, k)
  {
    forall x: Vector<T>, y: Vector<T> :: |x| == n && |y| == k ==>
      (Solves(F, M, E, x, y) <==> Solves(F, M', E', x, y))
  }

  lemma SameSolutionsTransitive<T(!new)>(
    F: Field<T>, M: Matrix<T>, E: Matrix<T>, M': Matrix<T>, E': Matrix<T>, M'': Matrix<T>, E'': Matrix<T>,
    rows: nat, n: nat, k: nat)
    requires IsMatrix(M, rows, n) && IsMatrix(E, rows, k) && IsMatrix(M', rows, n) && IsMatrix(E', rows, k)
    requires IsMatrix(M'', rows, n) && IsMatrix(E'', rows, k)
    requires SameSolutions(F, M, E, M', E', rows, n, k) && SameSolutions(F, M', E', M'', E'', rows, n, k)
    ensures SameSolutions(F, M, E, M'', E'', rows, n, k)
  {
    forall x: Vector<T>, y: Vector<T> | |x| == n && |y| == k
      ensures Solves(F, M, E, x, y) <==> Solves(F, M'', E'', x, y)
    {
      assert Solves(F, M, E, x, y) <==> Solves(F, M', E', x, y);
    }
  }

  ghost function Swapped<T>(M: Matrix<T>, a: nat, b: nat): Matrix<T>
    requires a < |M| && b < |M|
  {
    M[a := M[b]][b := M[a]]
  }

  ghost function Scaled<T>(F: Field<T>, M: Matrix<T>, a: nat, c: T): Matrix<T>
    requires a < |M|
  {
    M[a := seq(|M[a]|, j requires 0 <= j < |M[a]| => F.mul(M[a][j], c))]
  }

  /** Add c times row b to row a. */
  ghost function Combined<T>(F: Field<T>, M: Matrix<T>, a: nat, b: nat, c: T): Matrix<T>
    requires a < |M| && b < |M| && |M[a]| == |M[b]|
  {
    M[a := seq(|M[a]|, j requires 0 <= j < |M[a]| => F.add(M[a][j], F.mul(M[b][j], c)))]
  }

  lemma SwapKeepsSolutions<T(!new)>(F: Field<T>, M: Matrix<T>, E: Matrix<T>, a: nat, b: nat, rows: nat, n: nat, k: nat)
    requires IsMatrix(M, rows, n) && IsMatrix(E, rows, k) && a < rows && b < rows
    ensures SameSolutions(F, M, E, Swapped(M, a, b), Swapped(E, a, b), rows, n, k)
  {
    var M', E' := Swapped(M, a, b), Swapped(E, a, b);
    forall x: Vector<T>, y: Vector<T> | |x| == n && |y| == k
      ensures Solves(F, M, E, x, y) <==> Solves(F, M', E', x, y)
    {
      forall i | 0 <= i < rows
        ensures Equation(F, M', E', x, y, i) <==>
                Equation(F, M, E, x, y, if i == a then b else if i == b then a else i)
      {
      }
      if Solves(F, M', E', x, y) {
        forall i | 0 <= i < rows
          ensures Equation(F, M, E, x, y, i)
        {
          assert Equation(F, M', E', x, y, if i == a then b else if i == b then a else i);
        }
      }
    }
  }

  lemma ScaleKeepsSolutions<T(!new)>(F: Field<T>, M: Matrix<T>, E: Matrix<T>, a: nat, c: T, rows: nat, n: nat, k: nat)
    requires IsField(F) && c != F.zero
    requires IsMatrix(M, rows, n) && IsMatrix(E, rows, k) && a < rows
    ensures SameSolutions(F, M, E, Scaled(F, M, a, c), Scaled(F, E, a, c), rows, n, k)
  {
    var M', E' := Scaled(F, M, a, c), Scaled(F, E, a, c);
    forall x: Vector<T>, y: Vector<T> | |x| == n && |y| == k
      ensures Solves(F, M, E, x, y) <==> Solves(F, M', E', x, y)
    {
      DotScaled(F, M[a], M'[a], c, x, n);
      DotScaled(F, E[a], E'[a], c, y, k);
      if Dot(F, M'[a], x, n) == Dot(F, E'[a], y, k) {
        MulCancel(F, Dot(F, M[a], x, n), Dot(F, E[a], y, k), c);
      }
      assert Equation(F, M, E, x, y, a) <==> Equation(F, M', E', x, y, a);
      OneRowChanged(F, M, E, M', E', x, y, a);
    }
  }

  lemma CombineKeepsSolutions<T(!new)>(
    F: Field<T>, M: Matrix<T>, E: Matrix<T>, a: nat, b: nat, c: T, rows: nat, n: nat, k: nat)
    requires IsField(F)
    requires IsMatrix(M, rows, n) && IsMatrix(E, rows, k) && a < rows && b < rows && a != b
    ensures SameSolutions(F, M, E, Combined(F, M, a, b, c), Combined(F, E, a, b, c), rows, n, k)
  {
    var M', E' := Combined(F, M, a, b, c), Combined(F, E, a, b, c);
    forall x: Vector<T>, y: Vector<T> | |x| == n && |y| == k
      ensures Solves(F, M, E, x, y) <==> Solves(F, M', E', x, y)
    {
      DotCombined(F, M[a], M[b], M'[a], c, x, n);
      DotCombined(F, E[a], E[b], E'[a], c, y, k);
      assert Equation(F, M, E, x, y, b) <==> Equation(F, M', E', x, y, b);
      if Equation(F, M, E, x, y, b) {
        if Equation(F, M', E', x, y, a) {
          AddCancel(F, Dot(F, M[a], x, n), Dot(F, E[a], y, k), F.mul(Dot(F, M[b], x, n), c));
        }
        assert Equation(F, M, E, x, y, a) <==> Equation(F, M', E', x, y, a);
        OneRowChanged(F, M, E, M', E', x, y, a);
      }
    }
  }

  lemma OneRowChanged<T(!new)>(
    F: Field<T>, M: Matrix<T>, E: Matrix<T>, M': Matrix<T>, E': Matrix<T>, x: Vector<T>, y: Vector<T>, a: nat)
    requires IsMatrix(M, |M|, |x|) && IsMatrix(E, |M|, |y|)
    requires IsMatrix(M', |M|, |x|) && IsMatrix(E', |M|, |y|)
    requires a < |M|
    requires forall i :: 0 <= i < |M| && i != a ==> M[i] == M'[i] && E[i] == E'[i]
    requires Equation(F, M, E, x, y, a) <==> Equation(F, M', E', x, y, a)
    ensures Solves(F, M, E, x, y) <==> Solves(F, M', E', x, y)
  {
    forall i | 0 <= i < |M| ensures Equation(F, M, E, x, y, i) <==> Equation(F, M', E', x, y, i) {
    }
  }

  // ---------------------------------------------------------------- inverses and singular matrices

  /** B undoes A and A undoes B. */
  ghost predicate IsInverse<T(!new)>(F: Field<T>, B: Matrix<T>, A: Matrix<T>, n: nat) {
    && IsMatrix(A, n, n) && IsMatrix(B, n, n)
    && forall x: Vector<T>, y: Vector<T> :: |x| == n && |y| == n ==> (Apply(F, A, x) == y <==> x == Apply(F, B, y))
  }

  /** The columns of A are linearly dependent. */
  ghost predicate Dependent<T(!new)>(F: Field<T>, A: Matrix<T>, rows: nat, n: nat) {
    && IsMatrix(A, rows, n)
    && exists x: Vector<T> :: |x| == n && x != Zeros(F, n) && Apply(F, A, x) == Zeros(F, rows)
  }

  /** Columns below `done` are columns of the identity (extended by zero rows). */
  ghost predicate Reduced<T>(F: Field<T>, M: Matrix<T>, rows: nat, n: nat, done: nat)
    requires IsMatrix(M, rows, n) && done <= n
  {
    forall i, j :: 0 <= i < rows && 0 <= j < done ==> M[i][j] == if i == j then F.one else F.zero
  }

  /** Elimination run to the end leaves the inverse on the right. */
  lemma SolvedIsInverse<T(!new)>(F: Field<T>, A: Matrix<T>, E: Matrix<T>, n: nat)
    requires IsField(F) && IsMatrix(A, n, n) && IsMatrix(E, n, n) && IsMatrix(Identity(F, n), n, n)
    requires SameSolutions(F, A, Identity(F, n), Identity(F, n), E, n, n, n)
    ensures IsInverse(F, E, A, n)
  {
    var I := Identity(F, n);
    forall x: Vector<T>, y: Vector<T> | |x| == n && |y| == n
      ensures Apply(F, A, x) == y <==> x == Apply(F, E, y)
    {
      ApplyIdentity(F, x);
      ApplyIdentity(F, y);
      SolvesIsEquality(F, A, I, x, y);
      SolvesIsEquality(F, I, E, x, y);
    }
  }

  lemma SolvesIsEquality<T(!new)>(F: Field<T>, M: Matrix<T>, E: Matrix<T>, x: Vector<T>, y: Vector<T>)
    requires IsMatrix(M, |M|, |x|) && IsMatrix(E, |M|, |y|)
    ensures Solves(F, M, E, x, y) <==> Apply(F, M, x) == Apply(F, E, y)
  {
    var a, b := Apply(F, M, x), Apply(F, E, y);
    forall i | 0 <= i < |M| ensures Equation(F, M, E, x, y, i) <==> a[i] == b[i] {
    }
    if Solves(F, M, E, x, y) {
      forall i | 0 <= i < |M| ensures a[i] == b[i] {
        assert Equation(F, M, E, x, y, i);
      }
      assert a == b;
    }
  }

  /** The dependency read off a reduced matrix whose next column has no pivot. */
  ghost function KernelVector<T>(F: Field<T>, M: Matrix<T>, rows: nat, n: nat, col: nat): Vector<T>
    requires IsMatrix(M, rows, n) && col < n && col <= rows
  {
    seq(n, j requires 0 <= j < n => if j < col then M[j][col] else if j == col then F.one else F.zero)
  }

  lemma KernelRow<T(!new)>(F: Field<T>, M: Matrix<T>, rows: nat, n: nat, col: nat, i: nat)
    requires IsField(F) && IsMatrix(M, rows, n) && col < n && col <= rows && i < rows
    requires Reduced(F, M, rows, n, col)
    requires forall k :: col <= k < rows ==> M[k][col] == F.zero
    ensures Dot(F, M[i], KernelVector(F, M, rows, n, col), n) == F.zero
  {
    var x := KernelVector(F, M, rows, n, col);
    DotSingle(F, M[i], x, col, i);
    MulRight(F, x[col], x[col], x[col]);
    assert LawsAt(F, M[i][col], M[i][col], F.zero);
    if i < col {
      MulRight(F, x[i], x[i], x[i]);
    } else {
      AddZeroLeft(F, F.zero);
    }
    assert Dot(F, M[i], x, col + 1) == F.zero;
    DotTail(F, M[i], x, col + 1, n);
  }

  lemma {:induction false} DotTail<T(!new)>(F: Field<T>, r: Vector<T>, x: Vector<T>, m: nat, n: nat)
    requires IsField(F) && m <= n <= |r| && n <= |x|
    requires forall j :: m <= j < n ==> x[j] == F.zero
    ensures Dot(F, r, x, n) == Dot(F, r, x, m)
    decreases n
  {
    if n > m {
      DotTail(F, r, x, m, n - 1);
      assert LawsAt(F, r[n - 1], F.zero, F.zero);
      AddZeroLeft(F, Dot(F, r, x, n - 1));
    }
  }

  /** Elimination that finds no pivot has found a dependency. */
  lemma StuckIsDependent<T(!new)>(
    F: Field<T>, A: Matrix<T>, E0: Matrix<T>, M: Matrix<T>, E: Matrix<T>, rows: nat, n: nat, k: nat, col: nat)
    requires IsField(F) && IsMatrix(A, rows, n) && IsMatrix(E0, rows, k) && IsMatrix(M, rows, n) && IsMatrix(E, rows, k)
    requires SameSolutions(F, A, E0, M, E, rows, n, k)
    requires col < n && col <= rows && Reduced(F, M, rows, n, col)
    requires forall i :: col <= i < rows ==> M[i][col] == F.zero
    ensures Dependent(F, A, rows, n)
  {
    var x, y := KernelVector(F, M, rows, n, col), Zeros(F, k);
    forall i | 0 <= i < rows
      ensures Equation(F, M, E, x, y, i)
    {
      KernelRow(F, M, rows, n, col, i);
      DotZeros(F, E[i], k);
    }
    assert Solves(F, A, E0, x, y);
    forall i | 0 <= i < rows
      ensures Apply(F, A, x)[i] == F.zero
    {
      assert Equation(F, A, E0, x, y, i);
      DotZeros(F, E0[i], k);
    }
    assert Apply(F, A, x) == Zeros(F, rows);
    assert x[col] == F.one;
    assert x != Zeros(F, n);
  }

  /** Elimination that reduces every column excludes dependencies. */
  lemma ReducedIsIndependent<T(!new)>(
    F: Field<T>, A: Matrix<T>, E0: Matrix<T>, M: Matrix<T>, E: Matrix<T>, rows: nat, n: nat, k: nat)
    requires IsField(F) && IsMatrix(A, rows, n) && IsMatrix(E0, rows, k) && IsMatrix(M, rows, n) && IsMatrix(E, rows, k)
    requires SameSolutions(F, A, E0, M, E, rows, n, k)
    requires n <= rows && Reduced(F, M, rows, n, n)
    ensures !Dependent(F, A, rows, n)
  {
    forall x: Vector<T> | |x| == n && Apply(F, A, x) == Zeros(F, rows)
      ensures x == Zeros(F, n)
    {
      var y := Zeros(F, k);
      forall i | 0 <= i < rows
        ensures Equation(F, A, E0, x, y, i)
      {
        assert Apply(F, A, x)[i] == F.zero;
        DotZeros(F, E0[i], k);
      }
      assert Solves(F, M, E, x, y);
      forall i | 0 <= i < n
        ensures x[i] == F.zero
      {
        assert Equation(F, M, E, x, y, i);
        DotZeros(F, E[i], k);
        DotSingle(F, M[i], x, n, i);
        MulRight(F, x[i], x[i], x[i]);
      }
    }
  }
}
