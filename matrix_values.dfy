/** The mathematical meaning of the library's dense matrices.
    A `Mat` is the value held by a two-dimensional array of entries; the functions
    below are the reference definitions the imperative operations are proved against.
    Entries are exact reals: floating-point rounding is not modelled. */
module MatrixValues {

  /** A rows x cols matrix, stored row by row. The dimensions are kept explicitly so
      that a matrix without rows still has a column count. */
  datatype Mat = Mat(rows: nat, cols: nat, cells: seq<seq<real>>) {
    predicate Valid() {
      |cells| == rows && forall i | 0 <= i < |cells| :: |cells[i]| == cols
    }
  }

  predicate SameShape(A: Mat, B: Mat) {
    A.rows == B.rows && A.cols == B.cols
  }

  /** The value currently held by a two-dimensional array. */
  ghost function Value(a: array2<real>): (M: Mat)
    reads a
    ensures M.Valid() && M.rows == a.Length0 && M.cols == a.Length1
    ensures forall i, j | 0 <= i < a.Length0 && 0 <= j < a.Length1 :: M.cells[i][j] == a[i, j]
  {
    Mat(a.Length0, a.Length1,
        seq(a.Length0, i requires 0 <= i < a.Length0 reads a =>
          seq(a.Length1, j requires 0 <= j < a.Length1 reads a => a[i, j])))
  }

  /** Two valid matrices of one shape that agree at every position are equal. */
  lemma Extensionality(A: Mat, B: Mat)
    requires A.Valid() && B.Valid() && SameShape(A, B)
    requires forall i, j | 0 <= i < A.rows && 0 <= j < A.cols :: A.cells[i][j] == B.cells[i][j]
    ensures A == B
  {
    forall i | 0 <= i < A.rows
      ensures A.cells[i] == B.cells[i]
    {
      assert forall j | 0 <= j < A.cols :: A.cells[i][j] == B.cells[i][j];
    }
  }

  /** An array holds the matrix M when its dimensions and all its entries agree with M. */
  lemma ValueIs(a: array2<real>, M: Mat)
    requires M.Valid() && M.rows == a.Length0 && M.cols == a.Length1
    requires forall i, j | 0 <= i < a.Length0 && 0 <= j < a.Length1 :: a[i, j] == M.cells[i][j]
    ensures Value(a) == M
  {
    Extensionality(Value(a), M);
  }

  // ---------------------------------------------------------------------------
  // Elementary row operations

  /** Rows r1 and r2 exchanged. */
  function Swapped(A: Mat, r1: nat, r2: nat): (B: Mat)
    requires A.Valid() && r1 < A.rows && r2 < A.rows
    ensures B.Valid() && SameShape(A, B)
    ensures B.cells[r1] == A.cells[r2] && B.cells[r2] == A.cells[r1]
    ensures forall r | 0 <= r < A.rows && r != r1 && r != r2 :: B.cells[r] == A.cells[r]
  {
    A.(cells := A.cells[r1 := A.cells[r2]][r2 := A.cells[r1]])
  }

  /** Row r1 replaced by row r1 plus c times row r2, column by column. */
  function Combined(A: Mat, r1: nat, r2: nat, c: real): (B: Mat)
    requires A.Valid() && r1 < A.rows && r2 < A.rows
    ensures B.Valid() && SameShape(A, B)
    ensures forall j | 0 <= j < A.cols :: B.cells[r1][j] == A.cells[r1][j] + A.cells[r2][j] * c
    ensures forall r | 0 <= r < A.rows && r != r1 :: B.cells[r] == A.cells[r]
  {
    A.(cells := A.cells[r1 := seq(A.cols, j requires 0 <= j < A.cols => A.cells[r1][j] + A.cells[r2][j] * c)])
  }

  /** Row r multiplied by c. */
  function RowScaled(A: Mat, r: nat, c: real): (B: Mat)
    requires A.Valid() && r < A.rows
    ensures B.Valid() && SameShape(A, B)
    ensures forall j | 0 <= j < A.cols :: B.cells[r][j] == A.cells[r][j] * c
    ensures forall k | 0 <= k < A.rows && k != r :: B.cells[k] == A.cells[k]
  {
    A.(cells := A.cells[r := seq(A.cols, j requires 0 <= j < A.cols => A.cells[r][j] * c)])
  }

  // ---------------------------------------------------------------------------
  // Construction and arithmetic

  /** The dim x dim identity matrix. */
  function Identity(dim: nat): (I: Mat)
    ensures I.Valid() && I.rows == dim && I.cols == dim
    ensures forall i, j | 0 <= i < dim && 0 <= j < dim :: I.cells[i][j] == if i == j then 1.0 else 0.0
  {
    Mat(dim, dim, seq(dim, i => seq(dim, j => if i == j then 1.0 else 0.0)))
  }

  /** [A | B]: the rows of A each followed by the corresponding row of B.
      Only the first A.rows rows of B take part. */
  function Augment(A: Mat, B: Mat): (R: Mat)
    requires A.Valid() && B.Valid() && A.rows <= B.rows
    ensures R.Valid() && R.rows == A.rows && R.cols == A.cols + B.cols
    ensures forall i, j | 0 <= i < A.rows && 0 <= j < A.cols + B.cols ::
      R.cells[i][j] == if j < A.cols then A.cells[i][j] else B.cells[i][j - A.cols]
  {
    Mat(A.rows, A.cols + B.cols, seq(A.rows, i requires 0 <= i < A.rows => A.cells[i] + B.cells[i]))
  }

  /** The w columns of A starting at column lo. */
  function Block(A: Mat, lo: nat, w: nat): (R: Mat)
    requires A.Valid() && lo + w <= A.cols
    ensures R.Valid() && R.rows == A.rows && R.cols == w
    ensures forall i, j | 0 <= i < A.rows && 0 <= j < w :: R.cells[i][j] == A.cells[i][lo + j]
  {
    Mat(A.rows, w, seq(A.rows, i requires 0 <= i < A.rows => A.cells[i][lo..lo + w]))
  }

  /** Entry-wise sum, with the shape of A; only the top-left A.rows x A.cols part of B takes part. */
  function Sum(A: Mat, B: Mat): (R: Mat)
    requires A.Valid() && B.Valid() && A.rows <= B.rows && A.cols <= B.cols
    ensures R.Valid() && SameShape(R, A)
    ensures forall i, j | 0 <= i < A.rows && 0 <= j < A.cols :: R.cells[i][j] == A.cells[i][j] + B.cells[i][j]
  {
    Mat(A.rows, A.cols, seq(A.rows, i requires 0 <= i < A.rows =>
      seq(A.cols, j requires 0 <= j < A.cols => A.cells[i][j] + B.cells[i][j])))
  }

  /** Every entry multiplied by c. */
  function Scaled(A: Mat, c: real): (R: Mat)
    requires A.Valid()
    ensures R.Valid() && SameShape(R, A)
    ensures forall i, j | 0 <= i < A.rows && 0 <= j < A.cols :: R.cells[i][j] == A.cells[i][j] * c
  {
    Mat(A.rows, A.cols, seq(A.rows, i requires 0 <= i < A.rows =>
      seq(A.cols, j requires 0 <= j < A.cols => A.cells[i][j] * c)))
  }

  /** The first k rows of A scaled by c one after another, the rest as they were:
      the state reached by k successive row scalings. */
  function ScaledRows(A: Mat, c: real, k: nat): (R: Mat)
    requires A.Valid() && k <= A.rows
    ensures R.Valid() && SameShape(R, A)
    ensures forall i, j | 0 <= i < k && 0 <= j < A.cols :: R.cells[i][j] == A.cells[i][j] * c
    ensures forall i | k <= i < A.rows :: R.cells[i] == A.cells[i]
  {
    if k == 0 then A else RowScaled(ScaledRows(A, c, k - 1), k - 1, c)
  }

  /** The first k terms of the inner product of row i of A with column j of B,
      accumulated from the left. */
  function Dot(A: Mat, B: Mat, i: nat, j: nat, k: nat): real
    requires A.Valid() && B.Valid() && i < A.rows && j < B.cols && k <= A.cols <= B.rows
  {
    if k == 0 then 0.0 else Dot(A, B, i, j, k - 1) + A.cells[i][k - 1] * B.cells[k - 1][j]
  }

  /** The matrix product; the inner dimension is A.cols, so only the first A.cols rows of B take part. */
  function Product(A: Mat, B: Mat): (R: Mat)
    requires A.Valid() && B.Valid() && A.cols <= B.rows
    ensures R.Valid() && R.rows == A.rows && R.cols == B.cols
    ensures forall i, j | 0 <= i < A.rows && 0 <= j < B.cols :: R.cells[i][j] == Dot(A, B, i, j, A.cols)
  {
    Mat(A.rows, B.cols, seq(A.rows, i requires 0 <= i < A.rows =>
      seq(B.cols, j requires 0 <= j < B.cols => Dot(A, B, i, j, A.cols))))
  }

  /** M to the k-th power by repeated multiplication on the right, starting from the identity
      of M's row dimension. Beyond the first power the product needs M.cols <= M.rows. */
  function Pow(M: Mat, k: nat): (P: Mat)
    requires M.Valid() && (k <= 1 || M.cols <= M.rows)
    ensures P.Valid() && P.rows == M.rows && P.cols == (if k == 0 then M.rows else M.cols)
  {
    if k == 0 then Identity(M.rows) else Product(Pow(M, k - 1), M)
  }
}
