/** What the augment-reduce-extract plumbing of Matrix.Inverse relies on, stated over
    values (exact arithmetic). The reduction itself is not part of this model, so nothing
    here says that it succeeds; the lemmas say what follows IF the reduced augmented matrix
    was reached by elementary row operations and has the identity as its left block. */
module InverseLaws {
  import opened MatrixValues
  import opened RowOperationLaws
  import opened ProductLaws

  /** One call of an elementary row operation of GaussianElimination. */
  datatype RowOp =
    | Interchange(row1: nat, row2: nat)
    | Combination(row1: nat, row2: nat, coefficient: real)
    | Scaling(row: nat, coefficient: real)

  /** The row indices of op lie in [0, rows). */
  predicate Fits(op: RowOp, rows: nat) {
    match op
    case Interchange(r1, r2) => r1 < rows && r2 < rows
    case Combination(r1, r2, _) => r1 < rows && r2 < rows
    case Scaling(r, _) => r < rows
  }

  predicate AllFit(ops: seq<RowOp>, rows: nat) {
    forall k | 0 <= k < |ops| :: Fits(ops[k], rows)
  }

  function Apply(op: RowOp, A: Mat): (B: Mat)
    requires A.Valid() && Fits(op, A.rows)
    ensures B.Valid() && SameShape(A, B)
  {
    match op
    case Interchange(r1, r2) => Swapped(A, r1, r2)
    case Combination(r1, r2, c) => Combined(A, r1, r2, c)
    case Scaling(r, c) => RowScaled(A, r, c)
  }

  /** The operations applied in order, ops[0] first. */
  function ApplyAll(ops: seq<RowOp>, A: Mat): (B: Mat)
    requires A.Valid() && AllFit(ops, A.rows)
    ensures B.Valid() && SameShape(A, B)
  {
    if ops == [] then A else Apply(ops[|ops| - 1], ApplyAll(ops[..|ops| - 1], A))
  }

  // ---------------------------------------------------------------------------
  // [A | B] and its blocks

  /** The two blocks of [A | B] are A and B. */
  lemma AugmentBlocks(A: Mat, B: Mat)
    requires A.Valid() && B.Valid() && A.rows == B.rows
    ensures Block(Augment(A, B), 0, A.cols) == A
    ensures Block(Augment(A, B), A.cols, B.cols) == B
  {
    Extensionality(Block(Augment(A, B), 0, A.cols), A);
    Extensionality(Block(Augment(A, B), A.cols, B.cols), B);
  }

  /** Were the reduction to leave [M | I] as it is, Inverse would return the identity. */
  lemma UnreducedInverseIsIdentity(M: Mat)
    requires M.Valid() && M.rows == M.cols
    ensures Block(Augment(M, Identity(M.rows)), M.cols, M.cols) == Identity(M.rows)
  {
    AugmentBlocks(M, Identity(M.rows));
  }

  // ---------------------------------------------------------------------------
  // Row operations on an augmented matrix

  /** A row operation on [A | B] is the same operation on A and on B. */
  lemma ApplyAugmented(op: RowOp, A: Mat, B: Mat)
    requires A.Valid() && B.Valid() && A.rows == B.rows && Fits(op, A.rows)
    ensures Apply(op, Augment(A, B)) == Augment(Apply(op, A), Apply(op, B))
  {
    match op
    case Interchange(r1, r2) => SwapAugmented(A, B, r1, r2);
    case Combination(r1, r2, c) => CombineAugmented(A, B, r1, r2, c);
    case Scaling(r, c) => ScaleAugmented(A, B, r, c);
  }

  lemma {:induction false} ApplyAllAugmented(ops: seq<RowOp>, A: Mat, B: Mat)
    requires A.Valid() && B.Valid() && A.rows == B.rows && AllFit(ops, A.rows)
    ensures ApplyAll(ops, Augment(A, B)) == Augment(ApplyAll(ops, A), ApplyAll(ops, B))
  {
    if ops != [] {
      var front := ops[..|ops| - 1];
      assert AllFit(front, A.rows);
      ApplyAllAugmented(front, A, B);
      ApplyAugmented(ops[|ops| - 1], ApplyAll(front, A), ApplyAll(front, B));
    }
  }

  // ---------------------------------------------------------------------------
  // Row operations are multiplications on the left

  /** An interchange is multiplication on the left by the identity with those rows interchanged. */
  lemma SwapIsProduct(A: Mat, r1: nat, r2: nat)
    requires A.Valid() && r1 < A.rows && r2 < A.rows
    ensures Swapped(A, r1, r2) == Product(Swapped(Identity(A.rows), r1, r2), A)
  {
    var E := Swapped(Identity(A.rows), r1, r2);
    forall i, j | 0 <= i < A.rows && 0 <= j < A.cols
      ensures Product(E, A).cells[i][j] == Swapped(A, r1, r2).cells[i][j]
    {
      DotRowSingle(E, A, i, j, A.rows, if i == r1 then r2 else if i == r2 then r1 else i);
    }
    Extensionality(Product(E, A), Swapped(A, r1, r2));
  }

  /** A combination is multiplication on the left by the identity with the same combination applied. */
  lemma CombineIsProduct(A: Mat, r1: nat, r2: nat, c: real)
    requires A.Valid() && r1 < A.rows && r2 < A.rows
    ensures Combined(A, r1, r2, c) == Product(Combined(Identity(A.rows), r1, r2, c), A)
  {
    var I := Identity(A.rows);
    if r1 == r2 {
      CombineSameRow(A, r1, c);
      CombineSameRow(I, r1, c);
      RowScaleIsProduct(A, r1, 1.0 + c);
    } else {
      var E := Combined(I, r1, r2, c);
      forall i, j | 0 <= i < A.rows && 0 <= j < A.cols
        ensures Product(E, A).cells[i][j] == Combined(A, r1, r2, c).cells[i][j]
      {
        if i == r1 {
          CombinedRowIsProductEntry(A, r1, r2, c, j);
        } else {
          assert E.cells[i] == I.cells[i];
          DotRowSingle(E, A, i, j, A.rows, i);
        }
      }
      Extensionality(Product(E, A), Combined(A, r1, r2, c));
    }
  }

  /** Row r1 of the product in CombineIsProduct when r1 != r2: row r1 of the combined
      identity has 1 in column r1, c in column r2 and 0 elsewhere. */
  lemma CombinedRowIsProductEntry(A: Mat, r1: nat, r2: nat, c: real, j: nat)
    requires A.Valid() && r1 < A.rows && r2 < A.rows && r1 != r2 && j < A.cols
    ensures Product(Combined(Identity(A.rows), r1, r2, c), A).cells[r1][j] == Combined(A, r1, r2, c).cells[r1][j]
  {
    var I := Identity(A.rows);
    var E := Combined(I, r1, r2, c);
    forall t | 0 <= t < A.rows && t != r1 && t != r2 ensures E.cells[r1][t] == 0.0 {
      assert E.cells[r1][t] == I.cells[r1][t] + I.cells[r2][t] * c;
    }
    assert E.cells[r1][r1] == I.cells[r1][r1] + I.cells[r2][r1] * c == 1.0;
    assert E.cells[r1][r2] == I.cells[r1][r2] + I.cells[r2][r2] * c == c;
    DotOfCombinationRow(E, A, r1, r2, c, j);
  }

  /** A row with 1 in column r1, c in column r2 and 0 elsewhere selects row r1 of A plus c
      times row r2. */
  lemma DotOfCombinationRow(E: Mat, A: Mat, r1: nat, r2: nat, c: real, j: nat)
    requires E.Valid() && A.Valid() && E.cols == A.rows && r1 < E.rows && r1 < A.rows && r2 < A.rows
    requires r1 != r2 && j < A.cols
    requires E.cells[r1][r1] == 1.0 && E.cells[r1][r2] == c
    requires forall t | 0 <= t < E.cols && t != r1 && t != r2 :: E.cells[r1][t] == 0.0
    ensures Dot(E, A, r1, j, E.cols) == A.cells[r1][j] + A.cells[r2][j] * c
  {
    DotRowPair(E, A, r1, j, E.cols, r1, r2);
  }

  /** A row scaling is multiplication on the left by the identity with that row scaled. */
  lemma RowScaleIsProduct(A: Mat, r: nat, c: real)
    requires A.Valid() && r < A.rows
    ensures RowScaled(A, r, c) == Product(RowScaled(Identity(A.rows), r, c), A)
  {
    var E := RowScaled(Identity(A.rows), r, c);
    forall i, j | 0 <= i < A.rows && 0 <= j < A.cols
      ensures Product(E, A).cells[i][j] == RowScaled(A, r, c).cells[i][j]
    {
      DotRowSingle(E, A, i, j, A.rows, i);
    }
    Extensionality(Product(E, A), RowScaled(A, r, c));
  }

  /** Each row operation is multiplication on the left by the operation applied to the identity. */
  lemma ApplyIsProduct(op: RowOp, A: Mat)
    requires A.Valid() && Fits(op, A.rows)
    ensures Apply(op, A) == Product(Apply(op, Identity(A.rows)), A)
  {
    match op
    case Interchange(r1, r2) => SwapIsProduct(A, r1, r2);
    case Combination(r1, r2, c) => CombineIsProduct(A, r1, r2, c);
    case Scaling(r, c) => RowScaleIsProduct(A, r, c);
  }

  /** A sequence of row operations is multiplication on the left by their effect on the identity. */
  lemma {:induction false} ApplyAllIsProduct(ops: seq<RowOp>, A: Mat)
    requires A.Valid() && AllFit(ops, A.rows)
    ensures ApplyAll(ops, A) == Product(ApplyAll(ops, Identity(A.rows)), A)
  {
    var I := Identity(A.rows);
    if ops == [] {
      IdentityLeftUnit(A);
    } else {
      var front, op := ops[..|ops| - 1], ops[|ops| - 1];
      assert AllFit(front, A.rows);
      var P := ApplyAll(front, I);
      calc {
        ApplyAll(ops, A);
        Apply(op, ApplyAll(front, A));
        { ApplyAllIsProduct(front, A); }
        Apply(op, Product(P, A));
        { ApplyIsProduct(op, Product(P, A)); }
        Product(Apply(op, I), Product(P, A));
        { ProductAssociative(Apply(op, I), P, A); }
        Product(Product(Apply(op, I), P), A);
        { ApplyIsProduct(op, P); }
        Product(Apply(op, P), A);
      }
    }
  }

  /** If row operations turn [M | I] into a matrix whose left block is the identity, the
      right block that Inverse extracts is a left inverse of M. */
  lemma RowReductionGivesLeftInverse(M: Mat, ops: seq<RowOp>)
    requires M.Valid() && M.rows == M.cols && AllFit(ops, M.rows)
    requires Block(ApplyAll(ops, Augment(M, Identity(M.rows))), 0, M.cols) == Identity(M.rows)
    ensures Product(Block(ApplyAll(ops, Augment(M, Identity(M.rows))), M.cols, M.cols), M) == Identity(M.rows)
  {
    var I := Identity(M.rows);
    ApplyAllAugmented(ops, M, I);
    AugmentBlocks(ApplyAll(ops, M), ApplyAll(ops, I));
    ApplyAllIsProduct(ops, M);
  }
}
