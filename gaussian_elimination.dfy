/** The elementary row operations of Gaussian elimination, applied in place to a
    two-dimensional array. Each returns the very array it was given. */
module GaussianElimination {
  import opened MatrixValues

  /** Exchanges rows row1 and row2, one column at a time through a temporary. */
  method RowInterchange(matrix: array2<real>, row1: nat, row2: nat) returns (r: array2<real>)
    requires row1 < matrix.Length0 && row2 < matrix.Length0
    modifies matrix
    ensures r == matrix
    ensures forall j | 0 <= j < matrix.Length1 ::
      matrix[row1, j] == old(matrix[row2, j]) && matrix[row2, j] == old(matrix[row1, j])
    ensures forall i, j | 0 <= i < matrix.Length0 && i != row1 && i != row2 && 0 <= j < matrix.Length1 ::
      matrix[i, j] == old(matrix[i, j])
    ensures Value(matrix) == Swapped(old(Value(matrix)), row1, row2)
  {
    ghost var A := Value(matrix);
    var temp: real;
    for i := 0 to matrix.Length1
      invariant forall j | 0 <= j < i ::
        matrix[row1, j] == old(matrix[row2, j]) && matrix[row2, j] == old(matrix[row1, j])
      invariant forall j | i <= j < matrix.Length1 ::
        matrix[row1, j] == old(matrix[row1, j]) && matrix[row2, j] == old(matrix[row2, j])
      invariant forall k, j | 0 <= k < matrix.Length0 && k != row1 && k != row2 && 0 <= j < matrix.Length1 ::
        matrix[k, j] == old(matrix[k, j])
    {
      temp := matrix[row1, i];
      matrix[row1, i] := matrix[row2, i];
      matrix[row2, i] := temp;
    }
    ValueIs(matrix, Swapped(A, row1, row2));
    r := matrix;
  }

  /** Adds coefficient times row row2 to row row1, one column at a time. */
  method RowCombination(matrix: array2<real>, row1: nat, row2: nat, coefficient: real) returns (r: array2<real>)
    requires row1 < matrix.Length0 && row2 < matrix.Length0
    modifies matrix
    ensures r == matrix
    ensures forall j | 0 <= j < matrix.Length1 ::
      matrix[row1, j] == old(matrix[row1, j]) + old(matrix[row2, j]) * coefficient
    ensures forall i, j | 0 <= i < matrix.Length0 && i != row1 && 0 <= j < matrix.Length1 ::
      matrix[i, j] == old(matrix[i, j])
    ensures Value(matrix) == Combined(old(Value(matrix)), row1, row2, coefficient)
  {
    ghost var A := Value(matrix);
    for i := 0 to matrix.Length1
      invariant forall j | 0 <= j < i ::
        matrix[row1, j] == old(matrix[row1, j]) + old(matrix[row2, j]) * coefficient
      invariant forall j | i <= j < matrix.Length1 :: matrix[row1, j] == old(matrix[row1, j])
      invariant forall k, j | 0 <= k < matrix.Length0 && k != row1 && 0 <= j < matrix.Length1 ::
        matrix[k, j] == old(matrix[k, j])
    {
      matrix[row1, i] := matrix[row1, i] + matrix[row2, i] * coefficient;
    }
    ValueIs(matrix, Combined(A, row1, row2, coefficient));
    r := matrix;
  }

  /** Multiplies every entry of row `row` by coefficient. The coefficient is meant to be
      non-zero (scaling by zero cannot be undone), but this is not checked. */
  method RowScaling(matrix: array2<real>, row: nat, coefficient: real) returns (r: array2<real>)
    requires row < matrix.Length0
    modifies matrix
    ensures r == matrix
    ensures forall j | 0 <= j < matrix.Length1 :: matrix[row, j] == old(matrix[row, j]) * coefficient
    ensures forall i, j | 0 <= i < matrix.Length0 && i != row && 0 <= j < matrix.Length1 ::
      matrix[i, j] == old(matrix[i, j])
    ensures Value(matrix) == RowScaled(old(Value(matrix)), row, coefficient)
  {
    ghost var A := Value(matrix);
    for i := 0 to matrix.Length1
      invariant forall j | 0 <= j < i :: matrix[row, j] == old(matrix[row, j]) * coefficient
      invariant forall j | i <= j < matrix.Length1 :: matrix[row, j] == old(matrix[row, j])
      invariant forall k, j | 0 <= k < matrix.Length0 && k != row && 0 <= j < matrix.Length1 ::
        matrix[k, j] == old(matrix[k, j])
    {
      matrix[row, i] := matrix[row, i] * coefficient;
    }
    ValueIs(matrix, RowScaled(A, row, coefficient));
    r := matrix;
  }

  /** Stand-in for the reduction to reduced row-echelon form, whose code is not part of
      this model. Its contract is only its frame: it may change the entries of `matrix` and
      nothing else (the dimensions of an array never change). Callers may rely on nothing
      more, so the body, which leaves the entries as they are, is never looked at by them. */
  method ReducedEchelonForm(matrix: array2<real>) returns (r: array2<real>)
    modifies matrix
    ensures r == matrix
  {
    r := matrix;
  }
}
