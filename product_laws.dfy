/** Laws of the matrix product, of powers, and of entry-wise sum and scaling (exact arithmetic). */
module ProductLaws {
  import opened MatrixValues

  // ---------------------------------------------------------------------------
  // Inner products with a sparse row or column

  /** When row i of E is zero outside column s, the inner product picks out one term. */
  lemma {:induction false} DotRowSingle(E: Mat, B: Mat, i: nat, j: nat, k: nat, s: nat)
    requires E.Valid() && B.Valid() && i < E.rows && j < B.cols && k <= E.cols <= B.rows && s < E.cols
    requires forall t | 0 <= t < E.cols && t != s :: E.cells[i][t] == 0.0
    ensures Dot(E, B, i, j, k) == if s < k then E.cells[i][s] * B.cells[s][j] else 0.0
  {
    if k > 0 {
      DotRowSingle(E, B, i, j, k - 1, s);
    }
  }

  /** When row i of E is zero outside columns s1 and s2, the inner product picks out two terms. */
  lemma {:induction false} DotRowPair(E: Mat, B: Mat, i: nat, j: nat, k: nat, s1: nat, s2: nat)
    requires E.Valid() && B.Valid() && i < E.rows && j < B.cols && k <= E.cols <= B.rows
    requires s1 < E.cols && s2 < E.cols && s1 != s2
    requires forall t | 0 <= t < E.cols && t != s1 && t != s2 :: E.cells[i][t] == 0.0
    ensures Dot(E, B, i, j, k) ==
      (if s1 < k then E.cells[i][s1] * B.cells[s1][j] else 0.0) +
      (if s2 < k then E.cells[i][s2] * B.cells[s2][j] else 0.0)
  {
    if k > 0 {
      DotRowPair(E, B, i, j, k - 1, s1, s2);
    }
  }

  /** When column j of B is zero outside row s, the inner product picks out one term. */
  lemma {:induction false} DotColumnSingle(A: Mat, B: Mat, i: nat, j: nat, k: nat, s: nat)
    requires A.Valid() && B.Valid() && i < A.rows && j < B.cols && k <= A.cols <= B.rows && s < B.rows
    requires forall t | 0 <= t < B.rows && t != s :: B.cells[t][j] == 0.0
    ensures Dot(A, B, i, j, k) == if s < k then A.cells[i][s] * B.cells[s][j] else 0.0
  {
    if k > 0 {
      DotColumnSingle(A, B, i, j, k - 1, s);
    }
  }

  // ---------------------------------------------------------------------------
  // The identity is a unit of the product

  lemma IdentityLeftUnit(A: Mat)
    requires A.Valid()
    ensures Product(Identity(A.rows), A) == A
  {
    var I := Identity(A.rows);
    forall i, j | 0 <= i < A.rows && 0 <= j < A.cols
      ensures Product(I, A).cells[i][j] == A.cells[i][j]
    {
      DotRowSingle(I, A, i, j, A.rows, i);
    }
    Extensionality(Product(I, A), A);
  }

  lemma IdentityRightUnit(A: Mat)
    requires A.Valid()
    ensures Product(A, Identity(A.cols)) == A
  {
    var I := Identity(A.cols);
    forall i, j | 0 <= i < A.rows && 0 <= j < A.cols
      ensures Product(A, I).cells[i][j] == A.cells[i][j]
    {
      DotColumnSingle(A, I, i, j, A.cols, j);
    }
    Extensionality(Product(A, I), A);
  }

  // ---------------------------------------------------------------------------
  // Associativity, by exchanging the order of a double sum

  /** One term A[i][s] * B[s][t] * C[t][j] of the double sum behind entry (i, j) of ABC. */
  function Term(A: Mat, B: Mat, C: Mat, i: nat, j: nat, s: nat, t: nat): real
    requires A.Valid() && B.Valid() && C.Valid() && i < A.rows && j < C.cols
    requires s < A.cols <= B.rows && t < B.cols <= C.rows
  {
    A.cells[i][s] * B.cells[s][t] * C.cells[t][j]
  }

  /** Sum over t < kt of Term(s, t). */
  function SumOverT(A: Mat, B: Mat, C: Mat, i: nat, j: nat, s: nat, kt: nat): real
    requires A.Valid() && B.Valid() && C.Valid() && i < A.rows && j < C.cols
    requires s < A.cols <= B.rows && kt <= B.cols <= C.rows
  {
    if kt == 0 then 0.0 else SumOverT(A, B, C, i, j, s, kt - 1) + Term(A, B, C, i, j, s, kt - 1)
  }

  /** Sum over s < ks of Term(s, t). */
  function SumOverS(A: Mat, B: Mat, C: Mat, i: nat, j: nat, t: nat, ks: nat): real
    requires A.Valid() && B.Valid() && C.Valid() && i < A.rows && j < C.cols
    requires ks <= A.cols <= B.rows && t < B.cols <= C.rows
  {
    if ks == 0 then 0.0 else SumOverS(A, B, C, i, j, t, ks - 1) + Term(A, B, C, i, j, ks - 1, t)
  }

  /** Sum over s < ks of the sums over t < kt. */
  function RowsFirst(A: Mat, B: Mat, C: Mat, i: nat, j: nat, ks: nat, kt: nat): real
    requires A.Valid() && B.Valid() && C.Valid() && i < A.rows && j < C.cols
    requires ks <= A.cols <= B.rows && kt <= B.cols <= C.rows
  {
    if ks == 0 then 0.0 else RowsFirst(A, B, C, i, j, ks - 1, kt) + SumOverT(A, B, C, i, j, ks - 1, kt)
  }

  /** Sum over t < kt of the sums over s < ks. */
  function ColumnsFirst(A: Mat, B: Mat, C: Mat, i: nat, j: nat, ks: nat, kt: nat): real
    requires A.Valid() && B.Valid() && C.Valid() && i < A.rows && j < C.cols
    requires ks <= A.cols <= B.rows && kt <= B.cols <= C.rows
  {
    if kt == 0 then 0.0 else ColumnsFirst(A, B, C, i, j, ks, kt - 1) + SumOverS(A, B, C, i, j, kt - 1, ks)
  }

  lemma {:induction false} RowsFirstPeel(A: Mat, B: Mat, C: Mat, i: nat, j: nat, ks: nat, kt: nat)
    requires A.Valid() && B.Valid() && C.Valid() && i < A.rows && j < C.cols
    requires ks <= A.cols <= B.rows && 0 < kt <= B.cols <= C.rows
    ensures RowsFirst(A, B, C, i, j, ks, kt) ==
      RowsFirst(A, B, C, i, j, ks, kt - 1) + SumOverS(A, B, C, i, j, kt - 1, ks)
  {
    if ks > 0 {
      RowsFirstPeel(A, B, C, i, j, ks - 1, kt);
    }
  }

  /** The two orders of summation agree. */
  lemma {:induction false} SumsExchange(A: Mat, B: Mat, C: Mat, i: nat, j: nat, ks: nat, kt: nat)
    requires A.Valid() && B.Valid() && C.Valid() && i < A.rows && j < C.cols
    requires ks <= A.cols <= B.rows && kt <= B.cols <= C.rows
    ensures RowsFirst(A, B, C, i, j, ks, kt) == ColumnsFirst(A, B, C, i, j, ks, kt)
  {
    if kt == 0 {
      RowsFirstOfNoColumns(A, B, C, i, j, ks);
    } else {
      RowsFirstPeel(A, B, C, i, j, ks, kt);
      SumsExchange(A, B, C, i, j, ks, kt - 1);
    }
  }

  lemma {:induction false} RowsFirstOfNoColumns(A: Mat, B: Mat, C: Mat, i: nat, j: nat, ks: nat)
    requires A.Valid() && B.Valid() && C.Valid() && i < A.rows && j < C.cols
    requires ks <= A.cols <= B.rows && B.cols <= C.rows
    ensures RowsFirst(A, B, C, i, j, ks, 0) == 0.0
  {
    if ks > 0 {
      RowsFirstOfNoColumns(A, B, C, i, j, ks - 1);
    }
  }

  /** A[i][s] times an inner product of B and C distributes over its terms. */
  lemma {:induction false} ScaleDotLeft(A: Mat, B: Mat, C: Mat, i: nat, j: nat, s: nat, kt: nat)
    requires A.Valid() && B.Valid() && C.Valid() && i < A.rows && j < C.cols
    requires s < A.cols <= B.rows && kt <= B.cols <= C.rows
    ensures A.cells[i][s] * Dot(B, C, s, j, kt) == SumOverT(A, B, C, i, j, s, kt)
  {
    if kt > 0 {
      ScaleDotLeft(A, B, C, i, j, s, kt - 1);
      var a, d := A.cells[i][s], Dot(B, C, s, j, kt - 1);
      var b, c := B.cells[s][kt - 1], C.cells[kt - 1][j];
      calc {
        a * Dot(B, C, s, j, kt);
        a * (d + b * c);
        a * d + a * (b * c);
        { assert a * (b * c) == a * b * c; }
        SumOverT(A, B, C, i, j, s, kt - 1) + Term(A, B, C, i, j, s, kt - 1);
      }
    }
  }

  /** An inner product of A and B times C[t][j] distributes over its terms. */
  lemma {:induction false} ScaleDotRight(A: Mat, B: Mat, C: Mat, i: nat, j: nat, t: nat, ks: nat)
    requires A.Valid() && B.Valid() && C.Valid() && i < A.rows && j < C.cols
    requires ks <= A.cols <= B.rows && t < B.cols <= C.rows
    ensures Dot(A, B, i, t, ks) * C.cells[t][j] == SumOverS(A, B, C, i, j, t, ks)
  {
    if ks > 0 {
      ScaleDotRight(A, B, C, i, j, t, ks - 1);
      var d, c := Dot(A, B, i, t, ks - 1), C.cells[t][j];
      var a, b := A.cells[i][ks - 1], B.cells[ks - 1][t];
      calc {
        Dot(A, B, i, t, ks) * c;
        (d + a * b) * c;
        d * c + a * b * c;
        SumOverS(A, B, C, i, j, t, ks - 1) + Term(A, B, C, i, j, ks - 1, t);
      }
    }
  }

  lemma {:induction false} DotOfRightProduct(A: Mat, B: Mat, C: Mat, i: nat, j: nat, ks: nat)
    requires A.Valid() && B.Valid() && C.Valid() && i < A.rows && j < C.cols
    requires ks <= A.cols <= B.rows && B.cols <= C.rows
    ensures Dot(A, Product(B, C), i, j, ks) == RowsFirst(A, B, C, i, j, ks, B.cols)
  {
    if ks > 0 {
      DotOfRightProduct(A, B, C, i, j, ks - 1);
      ScaleDotLeft(A, B, C, i, j, ks - 1, B.cols);
    }
  }

  lemma {:induction false} DotOfLeftProduct(A: Mat, B: Mat, C: Mat, i: nat, j: nat, kt: nat)
    requires A.Valid() && B.Valid() && C.Valid() && i < A.rows && j < C.cols
    requires A.cols <= B.rows && kt <= B.cols <= C.rows
    ensures Dot(Product(A, B), C, i, j, kt) == ColumnsFirst(A, B, C, i, j, A.cols, kt)
  {
    if kt > 0 {
      var AB := Product(A, B);
      DotOfLeftProduct(A, B, C, i, j, kt - 1);
      ScaleDotRight(A, B, C, i, j, kt - 1, A.cols);
      calc {
        Dot(AB, C, i, j, kt);
        Dot(AB, C, i, j, kt - 1) + AB.cells[i][kt - 1] * C.cells[kt - 1][j];
        { assert AB.cells[i][kt - 1] == Dot(A, B, i, kt - 1, A.cols); }
        ColumnsFirst(A, B, C, i, j, A.cols, kt - 1) + Dot(A, B, i, kt - 1, A.cols) * C.cells[kt - 1][j];
      }
    }
  }

  /** The product is associative. */
  lemma ProductAssociative(A: Mat, B: Mat, C: Mat)
    requires A.Valid() && B.Valid() && C.Valid() && A.cols <= B.rows && B.cols <= C.rows
    ensures Product(Product(A, B), C) == Product(A, Product(B, C))
  {
    var L, R := Product(Product(A, B), C), Product(A, Product(B, C));
    forall i, j | 0 <= i < A.rows && 0 <= j < C.cols
      ensures L.cells[i][j] == R.cells[i][j]
    {
      DotOfLeftProduct(A, B, C, i, j, B.cols);
      DotOfRightProduct(A, B, C, i, j, A.cols);
      SumsExchange(A, B, C, i, j, A.cols, B.cols);
    }
    Extensionality(L, R);
  }

  // ---------------------------------------------------------------------------
  // Powers

  /** The first power is the matrix itself. */
  lemma PowOne(M: Mat)
    requires M.Valid()
    ensures Pow(M, 1) == M
  {
    IdentityLeftUnit(M);
  }

  /** Powers of a square matrix add their exponents. */
  lemma {:induction false} PowAdd(M: Mat, a: nat, b: nat)
    requires M.Valid() && M.rows == M.cols
    ensures Pow(M, a + b) == Product(Pow(M, a), Pow(M, b))
  {
    if b == 0 {
      IdentityRightUnit(Pow(M, a));
    } else {
      PowAdd(M, a, b - 1);
      ProductAssociative(Pow(M, a), Pow(M, b - 1), M);
    }
  }

  /** A square matrix commutes with its powers. */
  lemma PowCommutes(M: Mat, k: nat)
    requires M.Valid() && M.rows == M.cols
    ensures Product(Pow(M, k), M) == Product(M, Pow(M, k))
  {
    PowAdd(M, 1, k);
    PowOne(M);
  }

  // ---------------------------------------------------------------------------
  // Entry-wise sum and scaling

  /** The sum of two matrices of one shape does not depend on their order. */
  lemma SumCommutes(A: Mat, B: Mat)
    requires A.Valid() && B.Valid() && SameShape(A, B)
    ensures Sum(A, B) == Sum(B, A)
  {
    Extensionality(Sum(A, B), Sum(B, A));
  }

  /** Scaling by a non-zero c is undone by scaling by 1/c. */
  lemma ScaledUndone(A: Mat, c: real)
    requires A.Valid() && c != 0.0
    ensures Scaled(Scaled(A, c), 1.0 / c) == A
  {
    var B := Scaled(Scaled(A, c), 1.0 / c);
    forall i, j | 0 <= i < A.rows && 0 <= j < A.cols ensures B.cells[i][j] == A.cells[i][j] {
      calc {
        B.cells[i][j];
        (A.cells[i][j] * c) * (1.0 / c);
        A.cells[i][j] * (c * (1.0 / c));
        A.cells[i][j];
      }
    }
    Extensionality(B, A);
  }

  /** Scaling a matrix is multiplying it on the left by c times the identity. */
  lemma ScaledIsProduct(A: Mat, c: real)
    requires A.Valid()
    ensures Scaled(A, c) == Product(Scaled(Identity(A.rows), c), A)
  {
    var E := Scaled(Identity(A.rows), c);
    forall i, j | 0 <= i < A.rows && 0 <= j < A.cols
      ensures Product(E, A).cells[i][j] == A.cells[i][j] * c
    {
      DotRowSingle(E, A, i, j, A.rows, i);
    }
    Extensionality(Scaled(A, c), Product(E, A));
  }
}
