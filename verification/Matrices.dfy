/** Two loop orders for multiplying matrices, over any numbers at all: addition and multiplication are left
    uninterpreted, so no law of arithmetic can make the results agree. */
module Matrices {
  datatype Arithmetic<!T> = Arithmetic(zero: T, add: (T, T) -> T, mul: (T, T) -> T)

  type Matrix<T> = seq<seq<T>>

  ghost predicate Covers<T>(m: Matrix<T>, rows: nat, cols: nat) {
    |m| >= rows && forall i :: 0 <= i < rows ==> |m[i]| >= cols
  }

  predicate Within(i: int, j: int, rows: nat, cols: nat) {
    0 <= i < rows && 0 <= j < cols
  }

  /** The sum of the first `n` products for one cell, accumulated from the left. */
  ghost function Cell<T>(n: nat, x: Arithmetic<T>, A: Matrix<T>, B: Matrix<T>, i: nat, j: nat): T
    requires Covers(A, i + 1, n) && Covers(B, n, j + 1)
  {
    if n == 0 then x.zero else x.add(Cell(n - 1, x, A, B, i, j), x.mul(A[i][n - 1], B[n - 1][j]))
  }

  /** What a cell of the result holds afterwards, given what it held before. */
  ghost function AfterNaive<T>(was: T, x: Arithmetic<T>, A: Matrix<T>, B: Matrix<T>,
                               aRows: nat, aCols: nat, bCols: nat, i: int, j: int): T
    requires Covers(A, aRows, aCols) && Covers(B, aCols, bCols)
  {
    if Within(i, j, aRows, bCols) then Cell(aCols, x, A, B, i, j) else was
  }

  method MatrixMultiply<T>(C: array2<T>, x: Arithmetic<T>, A: Matrix<T>, B: Matrix<T>,
                           aRows: nat, aCols: nat, bCols: nat)
    requires Covers(A, aRows, aCols) && Covers(B, aCols, bCols) && C.Length0 >= aRows && C.Length1 >= bCols
    modifies C
    ensures forall i, j :: Within(i, j, C.Length0, C.Length1) ==>
              C[i, j] == AfterNaive(old(C[i, j]), x, A, B, aRows, aCols, bCols, i, j)
  {
    for i := 0 to aRows
      invariant OthersKept(C, aRows, bCols)
      invariant forall p, q :: 0 <= p < i && 0 <= q < bCols ==> C[p, q] == Cell(aCols, x, A, B, p, q)
    {
      for j := 0 to bCols
        invariant OthersKept(C, aRows, bCols)
        invariant forall p, q :: 0 <= p <= i && 0 <= q < bCols && (p < i || q < j) ==>
                    C[p, q] == Cell(aCols, x, A, B, p, q)
      {
        C[i, j] := x.zero;
        for k := 0 to aCols
          invariant C[i, j] == Cell(k, x, A, B, i, j)
          invariant OthersKept(C, aRows, bCols)
          invariant forall p, q :: 0 <= p <= i && 0 <= q < bCols && (p < i || q < j) ==>
                      C[p, q] == Cell(aCols, x, A, B, p, q)
        {
          C[i, j] := x.add(C[i, j], x.mul(A[i][k], B[k][j]));
        }
      }
    }
  }

  /** Cells outside the result are as they were. */
  twostate predicate OthersKept<T>(C: array2<T>, rows: nat, cols: nat)
    reads C
  {
    forall i, j :: Within(i, j, C.Length0, C.Length1) && !Within(i, j, rows, cols) ==> C[i, j] == old(C[i, j])
  }

  // ---------------------------------------------------------------- the reordered loops

  /** The cells of the factors that the reordered loops reach: none, when the innermost loop never runs. */
  ghost predicate FastCovers<T>(A: Matrix<T>, B: Matrix<T>, aRows: nat, aCols: nat, bCols: nat) {
    aRows > 0 && aCols > 0 ==> Covers(A, aRows, bCols) && Covers(B, bCols, aCols)
  }

  ghost function AfterFast<T>(was: T, x: Arithmetic<T>, A: Matrix<T>, B: Matrix<T>,
                              aRows: nat, aCols: nat, bCols: nat, i: int, j: int): T
    requires FastCovers(A, B, aRows, aCols, bCols)
  {
    if Within(i, j, aRows, aCols) then Cell(bCols, x, A, B, i, j) else was
  }

  /** The first pair of loops. */
  method Clear<T>(C: array2<T>, zero: T, aRows: nat, aCols: nat)
    requires aRows > 0 && aCols > 0 ==> C.Length0 >= aRows && C.Length1 >= aCols
    modifies C
    ensures OthersKept(C, aRows, aCols) && forall i, j :: 0 <= i < aRows && 0 <= j < aCols ==> C[i, j] == zero
  {
    for i := 0 to aRows
      invariant OthersKept(C, aRows, aCols)
      invariant forall p, q :: 0 <= p < i && 0 <= q < aCols ==> C[p, q] == zero
    {
      for j := 0 to aCols
        invariant OthersKept(C, aRows, aCols)
        invariant forall p, q :: 0 <= p <= i && 0 <= q < aCols && (p < i || q < j) ==> C[p, q] == zero
      {
        C[i, j] := zero;
      }
    }
  }

  /** The loops as written run over `bCols` products and fill `aCols` columns. */
  method FastMatrixMultiply<T>(C: array2<T>, x: Arithmetic<T>, A: Matrix<T>, B: Matrix<T>,
                               aRows: nat, aCols: nat, bCols: nat)
    requires FastCovers(A, B, aRows, aCols, bCols)
    requires aRows > 0 && aCols > 0 ==> C.Length0 >= aRows && C.Length1 >= aCols
    modifies C
    ensures forall i, j :: Within(i, j, C.Length0, C.Length1) ==>
              C[i, j] == AfterFast(old(C[i, j]), x, A, B, aRows, aCols, bCols, i, j)
  {
    Clear(C, x.zero, aRows, aCols);
    for i := 0 to aRows
      invariant OthersKept(C, aRows, aCols)
      invariant forall p, q :: 0 <= p < aRows && 0 <= q < aCols ==>
                  C[p, q] == Cell(if p < i then bCols else 0, x, A, B, p, q)
    {
      for j := 0 to bCols
        invariant OthersKept(C, aRows, aCols)
        invariant forall p, q :: 0 <= p < aRows && 0 <= q < aCols ==>
                    C[p, q] == Cell(if p < i then bCols else if p == i then j else 0, x, A, B, p, q)
      {
        for k := 0 to aCols
          invariant OthersKept(C, aRows, aCols)
          invariant forall p, q :: 0 <= p < aRows && 0 <= q < aCols ==>
                      C[p, q] == Cell(Products(p, q, i, j, k, bCols), x, A, B, p, q)
        {
          C[i, k] := x.add(C[i, k], x.mul(A[i][j], B[j][k]));
        }
      }
    }
  }

  /** How many products cell `(p, q)` holds when the loops stand at `i`, `j` and `k`. */
  function Products(p: nat, q: nat, i: nat, j: nat, k: nat, bCols: nat): nat {
    if p < i then bCols else if p > i then 0 else if q < k then j + 1 else j
  }

  // ---------------------------------------------------------------- when the two agree

  /** Every cell the reordered loops touch lies inside matrices of the naive method's shapes. */
  ghost predicate FastStaysInside(aRows: nat, aCols: nat, bCols: nat) {
    && (forall i, j :: Within(i, j, aRows, aCols) ==> Within(i, j, aRows, bCols))
    && (forall i, j, k :: Within(i, j, aRows, bCols) && Within(j, k, bCols, aCols) ==>
          Within(i, j, aRows, aCols) && Within(j, k, aCols, bCols) && Within(i, k, aRows, bCols))
  }

  /** On the shapes the naive method works on, the reordered loops stay inside exactly when they touch nothing or
      `aCols == bCols`. */
  lemma FastStaysInsideIff(aRows: nat, aCols: nat, bCols: nat)
    ensures FastStaysInside(aRows, aCols, bCols) <==> aRows == 0 || aCols == 0 || aCols == bCols
  {
    if aRows > 0 && aCols > bCols {
      assert Within(0, bCols, aRows, aCols) && !Within(0, bCols, aRows, bCols);
    } else if aRows > 0 && 0 < aCols < bCols {
      assert Within(0, aCols, aRows, bCols) && Within(aCols, 0, bCols, aCols) && !Within(0, aCols, aRows, aCols);
    }
  }

  /** Where they stay inside, factors that will do for the naive method will do for the reordered loops. */
  lemma InsideIsCovered<T>(A: Matrix<T>, B: Matrix<T>, aRows: nat, aCols: nat, bCols: nat)
    requires FastStaysInside(aRows, aCols, bCols) && Covers(A, aRows, aCols) && Covers(B, aCols, bCols)
    ensures FastCovers(A, B, aRows, aCols, bCols)
  {
    FastStaysInsideIff(aRows, aCols, bCols);
  }

  /** Both methods leave the same in every cell, for all factors and whatever was there before. */
  ghost predicate Agree<T(!new)>(x: Arithmetic<T>, aRows: nat, aCols: nat, bCols: nat) {
    forall A: Matrix<T>, B: Matrix<T>, was: T, i, j ::
      Covers(A, aRows, aCols) && Covers(B, aCols, bCols) && FastCovers(A, B, aRows, aCols, bCols) ==>
        AfterNaive(was, x, A, B, aRows, aCols, bCols, i, j) == AfterFast(was, x, A, B, aRows, aCols, bCols, i, j)
  }

  /** In every arithmetic with more than one number: the reordered loops stay inside and leave the naive method's
      matrix if and only if there are no rows or `aCols == bCols`. */
  lemma FastIsNaiveIff<T(!new)>(x: Arithmetic<T>, other: T, aRows: nat, aCols: nat, bCols: nat)
    requires other != x.zero
    ensures FastStaysInside(aRows, aCols, bCols) && Agree(x, aRows, aCols, bCols) <==> aRows == 0 || aCols == bCols
  {
    FastStaysInsideIff(aRows, aCols, bCols);
    if aRows > 0 && aCols == 0 < bCols {
      NoProductsDiffer(x, other, aRows, bCols);
    }
  }

  /** Without products, the naive method writes zeros where the reordered loops write nothing. */
  lemma NoProductsDiffer<T(!new)>(x: Arithmetic<T>, other: T, aRows: nat, bCols: nat)
    requires other != x.zero && aRows > 0 && bCols > 0
    ensures !Agree(x, aRows, 0, bCols)
  {
    var A: Matrix<T>, B: Matrix<T> := seq(aRows, _ => []), [];
    assert Covers(A, aRows, 0) && Covers(B, 0, bCols) && FastCovers(A, B, aRows, 0, bCols);
    assert AfterNaive(other, x, A, B, aRows, 0, bCols, 0, 0) == x.zero;
    assert AfterFast(other, x, A, B, aRows, 0, bCols, 0, 0) == other;
  }

  /** The smallest such input: one row, no products, one column. */
  lemma OneRowNoProducts<T>(x: Arithmetic<T>, was: T)
    ensures FastStaysInside(1, 0, 1)
    ensures AfterNaive(was, x, [[]], [], 1, 0, 1, 0, 0) == x.zero && AfterFast(was, x, [[]], [], 1, 0, 1, 0, 0) == was
  {
    FastStaysInsideIff(1, 0, 1);
  }

  // ---------------------------------------------------------------- on integers

  function Integers(): Arithmetic<int> {
    Arithmetic(0, (a: int, b: int) => a + b, (a: int, b: int) => a * b)
  }

  function Identity(n: nat): (m: Matrix<int>)
    ensures |m| == n && forall i, j :: 0 <= i < n && 0 <= j < n ==> |m[i]| == n && m[i][j] == if i == j then 1 else 0
  {
    seq(n, i => seq(n, j => if i == j then 1 else 0))
  }

  /** The identity gives back the other factor, from either side. */
  lemma IdentityGivesBack(A: Matrix<int>, n: nat, m: nat, was: int, i: nat, j: nat)
    requires Covers(A, n, m) && i < n && j < m
    ensures AfterNaive(was, Integers(), Identity(n), A, n, n, m, i, j) == A[i][j]
    ensures AfterNaive(was, Integers(), A, Identity(m), n, m, m, i, j) == A[i][j]
  {
    IdentityOnTheLeft(A, n, m, n, i, j);
    IdentityOnTheRight(A, n, m, m, i, j);
  }

  lemma {:induction false} IdentityOnTheLeft(A: Matrix<int>, n: nat, m: nat, k: nat, i: nat, j: nat)
    requires Covers(A, n, m) && k <= n && i < n && j < m
    ensures Cell(k, Integers(), Identity(n), A, i, j) == if i < k then A[i][j] else 0
  {
    if k > 0 {
      IdentityOnTheLeft(A, n, m, k - 1, i, j);
    }
  }

  lemma {:induction false} IdentityOnTheRight(A: Matrix<int>, n: nat, m: nat, k: nat, i: nat, j: nat)
    requires Covers(A, n, m) && k <= m && i < n && j < m
    ensures Cell(k, Integers(), A, Identity(m), i, j) == if j < k then A[i][j] else 0
  {
    if k > 0 {
      IdentityOnTheRight(A, n, m, k - 1, i, j);
    }
  }
}
