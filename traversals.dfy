/**
 * The Matrix of cpucache/traversals.cpp, its initialisation and its two summation
 * orders.  The vector of rows is a two-dimensional array; Value is int, taken here
 * as an unbounded integer.
 */
module Traversals {

  /** a[i, 0] + ... + a[i, j - 1]: the first j entries of row i. */
  function RowPart(a: array2<int>, i: nat, j: nat): int
    requires i < a.Length0 && j <= a.Length1
    reads a
  {
    if j == 0 then 0 else RowPart(a, i, j - 1) + a[i, j - 1]
  }

  /** The full rows 0 to i - 1, one after another: what the row-major loop has added after i rows. */
  function RowMajorPart(a: array2<int>, i: nat): int
    requires i <= a.Length0
    reads a
  {
    if i == 0 then 0 else RowMajorPart(a, i - 1) + RowPart(a, i - 1, a.Length1)
  }

  /** a[0, j] + ... + a[i - 1, j]: the first i entries of column j. */
  function ColPart(a: array2<int>, j: nat, i: nat): int
    requires j < a.Length1 && i <= a.Length0
    reads a
  {
    if i == 0 then 0 else ColPart(a, j, i - 1) + a[i - 1, j]
  }

  /** The first i entries of each of the columns 0 to j - 1, one column after another. */
  function ColMajorPart(a: array2<int>, j: nat, i: nat): int
    requires j <= a.Length1 && i <= a.Length0
    reads a
  {
    if j == 0 then 0 else ColMajorPart(a, j - 1, i) + ColPart(a, j - 1, i)
  }

  /** The sum of every entry, read row by row. */
  function Total(a: array2<int>): int
    reads a
  {
    RowMajorPart(a, a.Length0)
  }

  /** One more row under the first j columns adds that row's first j entries. */
  lemma {:induction false} ColMajorRowStep(a: array2<int>, j: nat, i: nat)
    requires j <= a.Length1 && i < a.Length0
    ensures ColMajorPart(a, j, i + 1) == ColMajorPart(a, j, i) + RowPart(a, i, j)
  {
    if j > 0 {
      ColMajorRowStep(a, j - 1, i);
    }
  }

  /** Row by row and column by column add up the same first i rows. */
  lemma {:induction false} RowsEqualColumns(a: array2<int>, i: nat)
    requires i <= a.Length0
    ensures RowMajorPart(a, i) == ColMajorPart(a, a.Length1, i)
  {
    if i == 0 {
      ColMajorEmpty(a, a.Length1);
    } else {
      RowsEqualColumns(a, i - 1);
      ColMajorRowStep(a, a.Length1, i - 1);
    }
  }

  /** No rows, no sum. */
  lemma {:induction false} ColMajorEmpty(a: array2<int>, j: nat)
    requires j <= a.Length1
    ensures ColMajorPart(a, j, 0) == 0
  {
    if j > 0 {
      ColMajorEmpty(a, j - 1);
    }
  }

  /** The summation order does not change the sum. */
  lemma TraversalOrderIrrelevant(a: array2<int>)
    ensures ColMajorPart(a, a.Length1, a.Length0) == Total(a)
  {
    RowsEqualColumns(a, a.Length0);
  }

  /** The entries initMatrix writes: 1, 2, 3, ... row after row. */
  ghost predicate Numbered(a: array2<int>)
    reads a
  {
    forall i, j :: 0 <= i < a.Length0 && 0 <= j < a.Length1 ==> a[i, j] == i * a.Length1 + j + 1
  }

  /** Twice the first j entries of a numbered row i: j * (2 * i * columns + j + 1). */
  lemma {:induction false} NumberedRow(a: array2<int>, i: nat, j: nat)
    requires Numbered(a) && i < a.Length0 && j <= a.Length1
    ensures 2 * RowPart(a, i, j) == j * (2 * i * a.Length1 + j + 1)
  {
    if j > 0 {
      NumberedRow(a, i, j - 1);
      var c := a.Length1;
      assert a[i, j - 1] == i * c + j;
      assert (j - 1) * (2 * i * c + j) + 2 * (i * c + j) == j * (2 * i * c + j + 1);
    }
  }

  /** Twice the first i numbered rows: n * (n + 1) for n = i * columns. */
  lemma {:induction false} NumberedRows(a: array2<int>, i: nat)
    requires Numbered(a) && i <= a.Length0
    ensures 2 * RowMajorPart(a, i) == (i * a.Length1) * (i * a.Length1 + 1)
  {
    if i > 0 {
      var c := a.Length1;
      NumberedRows(a, i - 1);
      NumberedRow(a, i - 1, c);
      var p := (i - 1) * c;
      assert i * c == p + c;
      assert p * (p + 1) + c * (2 * p + c + 1) == (p + c) * (p + c + 1);
    }
  }

  /** After initMatrix the sum is 1 + 2 + ... + rows * columns. */
  lemma NumberedTotal(a: array2<int>)
    requires Numbered(a)
    ensures 2 * Total(a) == (a.Length0 * a.Length1) * (a.Length0 * a.Length1 + 1)
  {
    NumberedRows(a, a.Length0);
  }

  /** Matrix<int>: rows() rows of columns() values each. */
  class Matrix {
    const rows: nat
    const cols: nat
    const data: array2<int>

    ghost predicate Valid()
      reads this
    {
      data.Length0 == rows && data.Length1 == cols
    }

    /** Matrix(rows, columns): every value zero-initialised. */
    constructor (rows: nat, columns: nat)
      ensures Valid() && fresh(data) && this.rows == rows && cols == columns
      ensures forall i, j :: 0 <= i < rows && 0 <= j < columns ==> data[i, j] == 0
    {
      this.rows := rows;
      cols := columns;
      data := new int[rows, columns]((i, j) => 0);
    }
  }

  /** initMatrix(m): m[i][j] = ++v for i, then j, with v starting at 0. */
  method InitMatrix(m: Matrix)
    requires m.Valid()
    modifies m.data
    ensures Numbered(m.data)
  {
    var v := 0;
    for i := 0 to m.rows
      invariant v == i * m.cols
      invariant forall r, c :: 0 <= r < i && 0 <= c < m.cols ==> m.data[r, c] == r * m.cols + c + 1
    {
      for j := 0 to m.cols
        invariant v == i * m.cols + j
        invariant forall r, c :: 0 <= r < i && 0 <= c < m.cols ==> m.data[r, c] == r * m.cols + c + 1
        invariant forall c :: 0 <= c < j ==> m.data[i, c] == i * m.cols + c + 1
      {
        v := v + 1;
        m.data[i, j] := v;
      }
    }
  }

  /** sumMatrixRowMajor(m, sum): rows in the outer loop, columns in the inner one. */
  method SumRowMajor(m: Matrix) returns (sum: int)
    requires m.Valid()
    ensures sum == Total(m.data)
  {
    sum := 0;
    for i := 0 to m.rows
      invariant sum == RowMajorPart(m.data, i)
    {
      for j := 0 to m.cols
        invariant sum == RowMajorPart(m.data, i) + RowPart(m.data, i, j)
      {
        sum := sum + m.data[i, j];
      }
    }
  }

  /** sumMatrixColumnMajor(m, sum): columns in the outer loop, rows in the inner one. */
  method SumColumnMajor(m: Matrix) returns (sum: int)
    requires m.Valid()
    ensures sum == Total(m.data)
  {
    sum := 0;
    for j := 0 to m.cols
      invariant sum == ColMajorPart(m.data, j, m.rows)
    {
      for i := 0 to m.rows
        invariant sum == ColMajorPart(m.data, j, m.rows) + ColPart(m.data, j, i)
      {
        sum := sum + m.data[i, j];
      }
    }
    TraversalOrderIrrelevant(m.data);
  }

  /** BM_Traverse without its timing loop: either order reports 1 + 2 + ... + rows * cols. */
  method Traverse(rows: nat, cols: nat, rowMajor: bool) returns (sum: int)
    ensures 2 * sum == (rows * cols) * (rows * cols + 1)
  {
    var m := new Matrix(rows, cols);
    InitMatrix(m);
    if rowMajor {
      sum := SumRowMajor(m);
    } else {
      sum := SumColumnMajor(m);
    }
    NumberedTotal(m.data);
  }
}
