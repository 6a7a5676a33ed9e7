/** Algebraic laws of the three elementary row operations (exact arithmetic). */
module RowOperationLaws {
  import opened MatrixValues

  /** Interchanging a row with itself changes nothing. */
  lemma SwapSameRow(A: Mat, r: nat)
    requires A.Valid() && r < A.rows
    ensures Swapped(A, r, r) == A
  {
  }

  /** An interchange is its own inverse. */
  lemma SwapTwice(A: Mat, r1: nat, r2: nat)
    requires A.Valid() && r1 < A.rows && r2 < A.rows
    ensures Swapped(Swapped(A, r1, r2), r1, r2) == A
  {
  }

  /** Which row is named first does not matter to an interchange. */
  lemma SwapSymmetric(A: Mat, r1: nat, r2: nat)
    requires A.Valid() && r1 < A.rows && r2 < A.rows
    ensures Swapped(A, r1, r2) == Swapped(A, r2, r1)
  {
  }

  /** Adding zero times a row changes nothing. */
  lemma CombineByZero(A: Mat, r1: nat, r2: nat)
    requires A.Valid() && r1 < A.rows && r2 < A.rows
    ensures Combined(A, r1, r2, 0.0) == A
  {
    Extensionality(Combined(A, r1, r2, 0.0), A);
  }

  /** For distinct rows, adding c times row r2 is undone by adding -c times row r2,
      because row r2 is left as it was. */
  lemma CombineUndone(A: Mat, r1: nat, r2: nat, c: real)
    requires A.Valid() && r1 < A.rows && r2 < A.rows && r1 != r2
    ensures Combined(Combined(A, r1, r2, c), r1, r2, -c) == A
  {
    var B := Combined(A, r1, r2, c);
    Extensionality(Combined(B, r1, r2, -c), A);
  }

  /** Combining a row with itself scales it by 1 + c: row r2 is then not preserved, and
      combining by -1 annihilates the row, so the round trip above needs distinct rows. */
  lemma CombineSameRow(A: Mat, r: nat, c: real)
    requires A.Valid() && r < A.rows
    ensures Combined(A, r, r, c) == RowScaled(A, r, 1.0 + c)
    ensures Combined(A, r, r, -1.0) == RowScaled(A, r, 0.0)
  {
    Extensionality(Combined(A, r, r, c), RowScaled(A, r, 1.0 + c));
    Extensionality(Combined(A, r, r, -1.0), RowScaled(A, r, 0.0));
  }

  /** Scaling by one changes nothing. */
  lemma ScaleByOne(A: Mat, r: nat)
    requires A.Valid() && r < A.rows
    ensures RowScaled(A, r, 1.0) == A
  {
    Extensionality(RowScaled(A, r, 1.0), A);
  }

  /** Scaling by a non-zero c is undone by scaling by 1/c. */
  lemma ScaleUndone(A: Mat, r: nat, c: real)
    requires A.Valid() && r < A.rows && c != 0.0
    ensures RowScaled(RowScaled(A, r, c), r, 1.0 / c) == A
  {
    var B := RowScaled(A, r, c);
    var C := RowScaled(B, r, 1.0 / c);
    forall j | 0 <= j < A.cols ensures C.cells[r][j] == A.cells[r][j] {
      calc {
        C.cells[r][j];
        (A.cells[r][j] * c) * (1.0 / c);
        A.cells[r][j] * (c * (1.0 / c));
        A.cells[r][j];
      }
    }
    Extensionality(C, A);
  }

  /** Scaling by zero cannot be undone: two matrices that differ only in row r become
      equal once that row is scaled by zero. */
  lemma ScaleByZeroForgets(A: Mat, B: Mat, r: nat)
    requires A.Valid() && B.Valid() && SameShape(A, B) && r < A.rows
    requires forall k | 0 <= k < A.rows && k != r :: A.cells[k] == B.cells[k]
    ensures RowScaled(A, r, 0.0) == RowScaled(B, r, 0.0)
  {
    Extensionality(RowScaled(A, r, 0.0), RowScaled(B, r, 0.0));
  }

  // ---------------------------------------------------------------------------
  // Row operations act on both halves of an augmented matrix

  lemma SwapAugmented(A: Mat, B: Mat, r1: nat, r2: nat)
    requires A.Valid() && B.Valid() && A.rows == B.rows && r1 < A.rows && r2 < A.rows
    ensures Swapped(Augment(A, B), r1, r2) == Augment(Swapped(A, r1, r2), Swapped(B, r1, r2))
  {
  }

  lemma CombineAugmented(A: Mat, B: Mat, r1: nat, r2: nat, c: real)
    requires A.Valid() && B.Valid() && A.rows == B.rows && r1 < A.rows && r2 < A.rows
    ensures Combined(Augment(A, B), r1, r2, c) == Augment(Combined(A, r1, r2, c), Combined(B, r1, r2, c))
  {
    var L, R := Combined(Augment(A, B), r1, r2, c), Augment(Combined(A, r1, r2, c), Combined(B, r1, r2, c));
    forall i, j | 0 <= i < L.rows && 0 <= j < L.cols ensures L.cells[i][j] == R.cells[i][j] {
    }
    Extensionality(L, R);
  }

  lemma ScaleAugmented(A: Mat, B: Mat, r: nat, c: real)
    requires A.Valid() && B.Valid() && A.rows == B.rows && r < A.rows
    ensures RowScaled(Augment(A, B), r, c) == Augment(RowScaled(A, r, c), RowScaled(B, r, c))
  {
    var L, R := RowScaled(Augment(A, B), r, c), Augment(RowScaled(A, r, c), RowScaled(B, r, c));
    forall i, j | 0 <= i < L.rows && 0 <= j < L.cols ensures L.cells[i][j] == R.cells[i][j] {
    }
    Extensionality(L, R);
  }
}
