# LinearAlgebraBasics in Dafny

This project models the core of LinearAlgebraBasics, a small C# library of dense-matrix
routines on `float[,]` arrays:

- the three elementary row operations of Gaussian elimination (`GaussianElimination`);
- matrix construction and arithmetic in `Matrix`: identity, augmentation `[A | B]`, sum,
  in-place scaling, product, power, and the augment/reduce/extract plumbing of the inverse;
- the instance-method identity constructor of `MatrixMaker`.

The model keeps the library's imperative form. Arrays are `array2<real>`. The row
operations and `Scale` update their argument in place (`modifies`) and return that same
array. The other operations fill a freshly allocated array with the same loops as the
library.

Each method is proved against a reference definition over values. Module `MatrixValues`
defines `Mat`, the value of an array as rows of reals, and `Value(a)`, the `Mat` an array
currently holds. It also defines the reference functions `Swapped`, `Combined`, `RowScaled`,
`Identity`, `Augment`, `Block`, `Sum`, `Scaled`, `Dot`, `Product` and `Pow`. Every method's
postcondition relates its result, or its argument's new state, to one of these functions.
There are two exceptions. The `ReducedEchelonForm` stand-in promises only to return its
argument. `IdentityMatricesAgree` relates the two identity constructors to each other.
The algebra of these functions is proved in three modules:

- `RowOperationLaws`: round trips of the row operations, and how they act on an augmented
  matrix;
- `ProductLaws`: identity is a unit, the product is associative, laws of powers, sum and
  scaling;
- `InverseLaws`: row operations are multiplications on the left. So when a sequence of row
  operations turns `[M | I]` into `[I | X]`, the block `X` that `Inverse` extracts is a left
  inverse of `M`.

Entries are exact reals, so the laws hold exactly. For IEEE `float` they hold only
approximately.

Preconditions are taken from the index accesses of the code rather than from the doc
comments. Every call whose loops reach an entry outside an array is excluded. So are some
calls with zero rows or zero columns, on which the loops never run. In several places the
preconditions are weaker than the doc comments:

- `AugmentMatrix` needs matrix2 to have at least as many rows as matrix1. The doc asks for
  equal row counts; extra rows of matrix2 are ignored.
- `Add` needs matrix2 to be at least as large as matrix1 in both dimensions. The doc asks for
  equal shapes.
- `Multiply` needs `matrix1.Length1 <= matrix2.Length0`. The doc asks for equal inner
  dimensions.
- `Power` needs `power <= 1` or no more columns than rows. A negative power gives the
  identity, because the loop does not run.
- `Inverse` needs no more columns than rows. The doc asks for a square matrix.

The models of these operations follow the code, and the reference functions state what
happens to the ignored parts.

## Model

| member | source | states |
|---|---|---|
| GaussianElimination.RowInterchange | GaussianElimination.cs:17-27 | for in-range rows: returns the same array; row1 now holds old row2, row2 holds old row1, every other entry is unchanged; the new value is `Swapped` of the old |
| GaussianElimination.RowCombination | GaussianElimination.cs:36-43 | returns the same array; each `matrix[row1, j]` becomes old `matrix[row1, j] + matrix[row2, j] * coefficient`; every row but row1 is unchanged; the new value is `Combined` of the old |
| GaussianElimination.RowScaling | GaussianElimination.cs:52-57 | returns the same array; each entry of `row` becomes coefficient times its old value, every other row is unchanged; the new value is `RowScaled` of the old |
| GaussianElimination.ReducedEchelonForm | Matrix.cs:223 | the reduction step called by Inverse: it returns its argument and may change that array's entries, nothing else |
| RowOperationLaws.SwapSameRow | GaussianElimination.cs:20-25 | interchanging a row with itself leaves the matrix unchanged |
| RowOperationLaws.SwapTwice | GaussianElimination.cs:20-25 | interchanging rows r1 and r2 twice restores the original matrix |
| RowOperationLaws.SwapSymmetric | GaussianElimination.cs:17-27 | interchanging (r1, r2) and (r2, r1) give the same matrix |
| RowOperationLaws.CombineByZero | GaussianElimination.cs:40 | combining with coefficient 0 changes nothing |
| RowOperationLaws.CombineUndone | GaussianElimination.cs:40 | for r1 != r2, combining by c and then by -c restores the matrix |
| RowOperationLaws.CombineSameRow | GaussianElimination.cs:36-43 | with row1 == row2 a combination scales the row by 1 + c, so coefficient -1 zeroes it and the round trip above needs distinct rows |
| RowOperationLaws.ScaleByOne | GaussianElimination.cs:52-57 | scaling a row by 1 changes nothing |
| RowOperationLaws.ScaleUndone | GaussianElimination.cs:46-57 | scaling a row by a non-zero c and then by 1/c restores the matrix |
| RowOperationLaws.ScaleByZeroForgets | GaussianElimination.cs:46-50 | scaling by zero is not undoable: two matrices that differ only in that row become equal |
| RowOperationLaws.SwapAugmented | Matrix.cs:222-223 | an interchange on A augmented by B is the interchange on A next to the interchange on B |
| RowOperationLaws.CombineAugmented | Matrix.cs:222-223 | a combination on A augmented by B is the combination on A next to the combination on B |
| RowOperationLaws.ScaleAugmented | Matrix.cs:222-223 | a row scaling on A augmented by B is the scaling on A next to the scaling on B |
| Matrix.IdentityMatrix | Matrix.cs:82-90 | a fresh dim x dim array with 1 at every (i, i) and 0 at every other entry; its value is `Identity(dim)` |
| Matrix.AugmentMatrix | Matrix.cs:106-130 | a fresh n x (m + p) array whose first m columns are matrix1 and whose entry (i, k) for k >= m is matrix2's (i, k - m); its value is `Augment` of the two |
| Matrix.Add | Matrix.cs:132-148 | a fresh array of matrix1's shape whose entry (i, j) is the sum of the two entries at (i, j); its value is `Sum` of the two |
| ProductLaws.SumCommutes | Matrix.cs:133-134 | for matrices of equal shape, addition is commutative |
| Matrix.Scale | Matrix.cs:156-161 | returns the same array, each entry now coefficient times its old value (the value is `Scaled` of the old), reached by scaling one row at a time |
| ProductLaws.ScaledUndone | Matrix.cs:150-151 | scaling a matrix by a non-zero c and then by 1/c restores it |
| ProductLaws.ScaledIsProduct | Matrix.cs:156-161 | scaling by c is multiplication on the left by c times the identity |
| Matrix.Multiply | Matrix.cs:164-191 | a fresh matrix1.Length0 x matrix2.Length1 array whose entry (i, j) is the inner product of row i of matrix1 with column j of matrix2, accumulated over k < matrix1.Length1; its value is `Product` of the two |
| Matrix.AccumulateInnerProduct | Matrix.cs:182-185 | the k-loop adds exactly the inner product of row i and column j to the accumulator's starting value, so resetting the accumulator to 0 keeps entries from leaking into each other |
| ProductLaws.IdentityLeftUnit | Matrix.cs:203-206 | the identity of A's row count times A is A |
| ProductLaws.IdentityRightUnit | Matrix.cs:173-191 | A times the identity of A's column count is A |
| ProductLaws.ProductAssociative | Matrix.cs:173-191 | (A B) C == A (B C) whenever the inner dimensions allow both products |
| Matrix.Power | Matrix.cs:193-209 | a fresh array holding `Pow(matrix, power)`: the identity of matrix's row count multiplied on the right by matrix `power` times; a power of 0 or below gives the identity |
| ProductLaws.PowOne | Matrix.cs:203-206 | the first power of a matrix is the matrix itself |
| ProductLaws.PowAdd | Matrix.cs:201-209 | for a square matrix, M^(a+b) == M^a M^b |
| ProductLaws.PowCommutes | Matrix.cs:204-207 | for a square matrix, M^k M == M M^k, so multiplying on the right as the loop does is the same as multiplying on the left |
| Matrix.Inverse | Matrix.cs:211-235 | leaves its argument unchanged; the augmented array starts as matrix augmented by I; the result is a fresh n x m array whose entry (i, j) is entry (i, j + m) of the reduced augmented matrix; whether the inverse exists is not tested. The reduction promises nothing, so only the result's shape, its freshness and the unchanged argument are observable; `augmented` and `reduced` record intermediate states |
| Matrix.RightBlock | Matrix.cs:225-233 | the extraction loop of Inverse: a fresh array whose entry (i, j) is the augmented matrix's entry (i, j + cols) |
| InverseLaws.AugmentBlocks | Matrix.cs:222 | the left and right blocks of A augmented by B are A and B |
| InverseLaws.UnreducedInverseIsIdentity | Matrix.cs:221-233 | were the reduction to change nothing, Inverse of a square matrix would return the identity |
| InverseLaws.ApplyAugmented | Matrix.cs:222-223 | any one row operation on A augmented by B acts on A and on B separately |
| InverseLaws.ApplyAllAugmented | Matrix.cs:222-223 | any sequence of row operations on A augmented by B acts on A and on B separately |
| InverseLaws.SwapIsProduct | GaussianElimination.cs:17-27 | an interchange is multiplication on the left by the identity with those rows interchanged |
| InverseLaws.CombineIsProduct | GaussianElimination.cs:36-43 | a combination is multiplication on the left by the identity with the same combination applied |
| InverseLaws.RowScaleIsProduct | GaussianElimination.cs:52-57 | a row scaling is multiplication on the left by the identity with that row scaled |
| InverseLaws.ApplyIsProduct | GaussianElimination.cs:17-57 | every row operation is multiplication on the left by its effect on the identity |
| InverseLaws.ApplyAllIsProduct | GaussianElimination.cs:17-57 | a sequence of row operations is multiplication on the left by their combined effect on the identity |
| InverseLaws.RowReductionGivesLeftInverse | Matrix.cs:211-235 | if row operations turn M augmented by I for a square M into a matrix whose left block is the identity, the right block of that matrix, times M, is the identity. This is a theorem about values and is not linked to Inverse's contract |
| MatrixMaker.MatrixMaker.IdentityMatrix | MatrixMaker.cs:58-66 | a fresh dim x dim array with 1 at every (i, i) and 0 at every off-diagonal entry, left there by the zero initialisation; its value is `Identity(dim)` |
| MatrixMaker.IdentityMatricesAgree | MatrixMaker.cs:58-66 | MatrixMaker's IdentityMatrix and Matrix.IdentityMatrix produce arrays of the same shape, equal entry for entry |

## Left out

- Both `RandomMatrix` overloads (Matrix.cs and MatrixMaker.cs) are left out. They draw entries from `System.Random`, a pseudo-random generator with no deterministic contract.
- `PrintMatrix` is left out because it only writes to the console.
- `float` arithmetic is not modelled: entries are exact reals. The round trips (combine by c and -c, scale by c and 1/c) and the product laws therefore hold exactly here but only approximately for IEEE single precision.
- GaussianElimination.ReducedEchelonForm: the reduction to reduced row-echelon form is not part of this model. It is a stand-in that may change the entries of its argument and promises nothing else. So no contract here says that Inverse returns an inverse. InverseLaws.RowReductionGivesLeftInverse states what follows if the reduction is carried out by row operations that reach [I | X].
- Matrix.Inverse: singular matrices are not detected, and neither does the library detect them.
- GaussianElimination.RowInterchange, GaussianElimination.RowCombination, GaussianElimination.RowScaling: the row indices are required to be in range, as the doc comments demand. The code itself would also run on any indices when the matrix has no columns, because its loop never executes.
- Dimensions and row indices are `nat`. A negative C# array dimension, which throws at allocation, is not modelled.
- C# `int` overflow of loop counters and of `matrix1.GetLength(1) + matrix2.GetLength(1)` is not modelled. Array dimensions are unbounded here.
- The exceptions the code throws on an out-of-range index are not modelled. The preconditions exclude every call that would throw one.
- Matrix.AugmentMatrix, Matrix.Add, Matrix.Multiply, Matrix.Power, Matrix.Inverse: the preconditions also exclude some calls with zero rows or zero columns, on which the C# loops never run and so never fault. Examples are `Multiply` of a 0 x 3 by a 2 x 5 matrix, `Add` of a 2 x 0 and a 0 x 0 matrix, `AugmentMatrix` of a 2 x 3 and a 1 x 0 matrix, `Power` of a 0 x 2 matrix to the power 2, and `Inverse` of a 0 x 2 matrix.
- Matrix.Inverse: what a caller can observe is the result's shape and freshness, and that the argument is unchanged. The ghost outputs `augmented` and `reduced` record the body's intermediate states. Because the reduction promises nothing, the contract would hold just as well for a body that reduced any array of that shape. InverseLaws.RowReductionGivesLeftInverse is a separate theorem about values and is not linked to this contract.
