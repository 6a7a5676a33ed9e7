/** The instance-method variant of matrix construction. A MatrixMaker holds no state;
    its IdentityMatrix builds the same matrix as Matrix.IdentityMatrix. */
module MatrixMaker {
  import opened MatrixValues
  import Matrix

  class MatrixMaker {
    constructor ()
    {
    }

    /** The dim x dim identity: only the diagonal is written into a zero-initialised array. */
    method IdentityMatrix(dim: nat) returns (matrix: array2<real>)
      ensures fresh(matrix)
      ensures matrix.Length0 == dim && matrix.Length1 == dim
      ensures forall i | 0 <= i < dim :: matrix[i, i] == 1.0
      ensures forall i, j | 0 <= i < dim && 0 <= j < dim && i != j :: matrix[i, j] == 0.0
      ensures Value(matrix) == Identity(dim)
    {
      matrix := new real[dim, dim]((i, j) => 0.0);
      for i := 0 to dim
        invariant forall r, c | 0 <= r < dim && 0 <= c < dim :: matrix[r, c] == if r == c && r < i then 1.0 else 0.0
      {
        matrix[i, i] := 1.0;
      }
      ValueIs(matrix, Identity(dim));
    }
  }

  /** The two identity constructions agree entry for entry. */
  method IdentityMatricesAgree(maker: MatrixMaker, dim: nat) returns (fromMaker: array2<real>, fromMatrix: array2<real>)
    ensures fromMaker.Length0 == fromMatrix.Length0 == dim && fromMaker.Length1 == fromMatrix.Length1 == dim
    ensures forall i, j | 0 <= i < dim && 0 <= j < dim :: fromMaker[i, j] == fromMatrix[i, j]
  {
    fromMaker := maker.IdentityMatrix(dim);
    fromMatrix := Matrix.IdentityMatrix(dim);
  }
}
