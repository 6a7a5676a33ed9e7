/** Matrix construction and arithmetic. Every operation but Scale fills a freshly
    allocated array; Scale works in place through RowScaling. */
module Matrix {
  import opened MatrixValues
  import GaussianElimination

  /** The dim x dim identity: a zero-initialised array with 1 written on the diagonal. */
  method IdentityMatrix(dim: nat) returns (matrix: array2<real>)
    ensures fresh(matrix)
    ensures matrix.Length0 == dim && matrix.Length1 == dim
    ensures forall i, j | 0 <= i < dim && 0 <= j < dim :: matrix[i, j] == if i == j then 1.0 else 0.0
    ensures Value(matrix) == Identity(dim)
  {
    matrix := new real[dim, dim]((i, j) => 0.0);
    for i := 0 to dim
      invariant forall r, c | 0 <= r < dim && 0 <= c < dim :: matrix[r, c] == if r == c && r < i then 1.0 else 0.0
    {
      matrix[i, i] := 1.0;
    }
    ValueIs(matrix, Identity(dim));
  }

  /** [matrix1 | matrix2]. The rows of the result are those of matrix1; a matrix2 with fewer
      rows is an index fault, while rows of matrix2 beyond matrix1's are ignored. */
  method AugmentMatrix(matrix1: array2<real>, matrix2: array2<real>) returns (augmented: array2<real>)
    requires matrix1.Length0 <= matrix2.Length0
    ensures fresh(augmented)
    ensures augmented.Length0 == matrix1.Length0 && augmented.Length1 == matrix1.Length1 + matrix2.Length1
    ensures forall i, j | 0 <= i < matrix1.Length0 && 0 <= j < matrix1.Length1 :: augmented[i, j] == matrix1[i, j]
    ensures forall i, k | 0 <= i < matrix1.Length0 && matrix1.Length1 <= k < augmented.Length1 ::
      augmented[i, k] == matrix2[i, k - matrix1.Length1]
    ensures Value(augmented) == Augment(Value(matrix1), Value(matrix2))
  {
    var n, m, p := matrix1.Length0, matrix1.Length1, matrix2.Length1;
    augmented := new real[n, m + p];
    for i := 0 to n
      invariant forall r, c | 0 <= r < i && 0 <= c < m + p ::
        augmented[r, c] == if c < m then matrix1[r, c] else matrix2[r, c - m]
    {
      for j := 0 to m
        invariant forall r, c | 0 <= r <= i && 0 <= c < m + p && (r < i || c < j) ::
          augmented[r, c] == if c < m then matrix1[r, c] else matrix2[r, c - m]
      {
        augmented[i, j] := matrix1[i, j];
      }
      for k := m to m + p
        invariant forall r, c | 0 <= r <= i && 0 <= c < m + p && (r < i || c < k) ::
          augmented[r, c] == if c < m then matrix1[r, c] else matrix2[r, c - m]
      {
        augmented[i, k] := matrix2[i, k - m];
      }
    }
    ValueIs(augmented, Augment(Value(matrix1), Value(matrix2)));
  }

  /** Entry-wise sum, shaped like matrix1. matrix2 must be at least as large in both
      dimensions; anything beyond matrix1's shape is ignored. */
  method Add(matrix1: array2<real>, matrix2: array2<real>) returns (sum: array2<real>)
    requires matrix1.Length0 <= matrix2.Length0 && matrix1.Length1 <= matrix2.Length1
    ensures fresh(sum)
    ensures sum.Length0 == matrix1.Length0 && sum.Length1 == matrix1.Length1
    ensures forall i, j | 0 <= i < sum.Length0 && 0 <= j < sum.Length1 :: sum[i, j] == matrix1[i, j] + matrix2[i, j]
    ensures Value(sum) == Sum(Value(matrix1), Value(matrix2))
  {
    var n, m := matrix1.Length0, matrix1.Length1;
    sum := new real[n, m];
    for i := 0 to n
      invariant forall r, c | 0 <= r < i && 0 <= c < m :: sum[r, c] == matrix1[r, c] + matrix2[r, c]
    {
      for j := 0 to m
        invariant forall r, c | 0 <= r < i && 0 <= c < m :: sum[r, c] == matrix1[r, c] + matrix2[r, c]
        invariant forall c | 0 <= c < j :: sum[i, c] == matrix1[i, c] + matrix2[i, c]
      {
        sum[i, j] := matrix1[i, j] + matrix2[i, j];
      }
    }
    ValueIs(sum, Sum(Value(matrix1), Value(matrix2)));
  }

  /** Scales every entry of matrix by coefficient, in place, one row at a time. */
  method Scale(matrix: array2<real>, coefficient: real) returns (r: array2<real>)
    modifies matrix
    ensures r == matrix
    ensures Value(matrix) == Scaled(old(Value(matrix)), coefficient)
  {
    ghost var A := Value(matrix);
    for i := 0 to matrix.Length0
      invariant Value(matrix) == ScaledRows(A, coefficient, i)
    {
      var _ := GaussianElimination.RowScaling(matrix, i, coefficient);
    }
    Extensionality(ScaledRows(A, coefficient, A.rows), Scaled(A, coefficient));
    r := matrix;
  }

  /** The product, entry by entry: an accumulator collects the inner product of a row of
      matrix1 with a column of matrix2, is stored, and is reset to zero. */
  method Multiply(matrix1: array2<real>, matrix2: array2<real>) returns (product: array2<real>)
    requires matrix1.Length1 <= matrix2.Length0
    ensures fresh(product)
    ensures product.Length0 == matrix1.Length0 && product.Length1 == matrix2.Length1
    ensures Value(product) == Product(Value(matrix1), Value(matrix2))
  {
    ghost var A, B := Value(matrix1), Value(matrix2);
    var n, m, p := matrix1.Length0, matrix1.Length1, matrix2.Length1;
    var entry: real := 0.0;
    product := new real[n, p];
    for i := 0 to n
      invariant entry == 0.0
      invariant forall r, c | 0 <= r < i && 0 <= c < p :: product[r, c] == Dot(A, B, r, c, m)
    {
      for j := 0 to p
        invariant entry == 0.0
        invariant forall r, c | 0 <= r <= i && 0 <= c < p && (r < i || c < j) :: product[r, c] == Dot(A, B, r, c, m)
      {
        entry := AccumulateInnerProduct(matrix1, matrix2, i, j, entry);
        product[i, j] := entry;
        entry := 0.0;
      }
    }
    ValueIs(product, Product(A, B));
  }

  /** The innermost loop of Multiply: adds to `entry` the terms of the inner product of
      row i of matrix1 with column j of matrix2, from left to right. Whatever `entry` holds
      on entry is carried into the result, which is why Multiply resets it after each entry. */
  method AccumulateInnerProduct(matrix1: array2<real>, matrix2: array2<real>, i: nat, j: nat, entry: real)
    returns (sum: real)
    requires matrix1.Length1 <= matrix2.Length0 && i < matrix1.Length0 && j < matrix2.Length1
    ensures sum == entry + Dot(Value(matrix1), Value(matrix2), i, j, matrix1.Length1)
  {
    ghost var A, B := Value(matrix1), Value(matrix2);
    sum := entry;
    for k := 0 to matrix1.Length1
      invariant sum == entry + Dot(A, B, i, j, k)
    {
      sum := sum + matrix1[i, k] * matrix2[k, j];
    }
  }

  /** matrix raised to `power` by repeated multiplication starting from the identity of its
      row dimension; a power of zero or below gives the identity. */
  method Power(matrix: array2<real>, power: int) returns (result: array2<real>)
    requires power <= 1 || matrix.Length1 <= matrix.Length0
    ensures fresh(result)
    ensures Value(result) == Pow(Value(matrix), if power < 0 then 0 else power)
  {
    ghost var M := Value(matrix);
    result := IdentityMatrix(matrix.Length0);
    var i := 0;
    while i < power
      invariant 0 <= i <= (if power < 0 then 0 else power)
      invariant M == Value(matrix) && M.rows == matrix.Length0 && M.cols == matrix.Length1
      invariant fresh(result)
      invariant Value(result) == Pow(M, i)
    {
      result := Multiply(result, matrix);
      i := i + 1;
    }
  }

  /** The right-hand block of the reduced form of [matrix | I]. Whether the inverse exists
      is not tested. `augmented` is [matrix | I] as built, `reduced` the value it holds after
      the reduction; the result is the matrix.Length1 columns of `reduced` that follow its
      first matrix.Length1 columns. As the reduction promises nothing, a caller can observe
      only the shape and freshness of the result and that `matrix` is unchanged; the ghost
      outputs record the body's intermediate states. InverseLaws.RowReductionGivesLeftInverse
      says what the result is IF the reduction is carried out by row operations. */
  method Inverse(matrix: array2<real>) returns (inverse: array2<real>, ghost augmented: Mat, ghost reduced: Mat)
    requires matrix.Length1 <= matrix.Length0
    ensures fresh(inverse)
    ensures inverse.Length0 == matrix.Length0 && inverse.Length1 == matrix.Length1
    ensures augmented == Augment(Value(matrix), Identity(matrix.Length0))
    ensures reduced.Valid() && SameShape(reduced, augmented)
    ensures forall i, j | 0 <= i < inverse.Length0 && 0 <= j < inverse.Length1 ::
      inverse[i, j] == reduced.cells[i][j + matrix.Length1]
    ensures Value(inverse) == Block(reduced, matrix.Length1, matrix.Length1)
    ensures unchanged(matrix)
  {
    var n, m := matrix.Length0, matrix.Length1;
    var identity := IdentityMatrix(n);
    var matrixAugment := AugmentMatrix(matrix, identity);
    augmented := Value(matrixAugment);
    var _ := GaussianElimination.ReducedEchelonForm(matrixAugment);
    reduced := Value(matrixAugment);
    inverse := RightBlock(matrixAugment, m);
  }

  /** The extraction step of Inverse: a fresh rows x cols array whose entry (i, j) is the
      entry (i, j + cols) of `augmented`. */
  method RightBlock(augmented: array2<real>, cols: nat) returns (block: array2<real>)
    requires 2 * cols <= augmented.Length1
    ensures fresh(block)
    ensures block.Length0 == augmented.Length0 && block.Length1 == cols
    ensures forall i, j | 0 <= i < block.Length0 && 0 <= j < cols :: block[i, j] == augmented[i, j + cols]
    ensures Value(block) == Block(Value(augmented), cols, cols)
  {
    var n := augmented.Length0;
    block := new real[n, cols];
    for i := 0 to n
      invariant forall r, c | 0 <= r < i && 0 <= c < cols :: block[r, c] == augmented[r, c + cols]
    {
      for j := 0 to cols
        invariant forall r, c | 0 <= r <= i && 0 <= c < cols && (r < i || c < j) :: block[r, c] == augmented[r, c + cols]
      {
        block[i, j] := augmented[i, j + cols];
      }
    }
    ValueIs(block, Block(Value(augmented), cols, cols));
  }
}
