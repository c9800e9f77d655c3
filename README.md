# MutableMatrix: a verified model

This project models the mutable dense matrix of the `math.matrix` package. A
`MutableMatrix` holds a rows-by-cols array of numbers. Its arithmetic and
structural operations overwrite that array in place and return the receiver
itself, so calls can be chained. Two operations change the shape and so
allocate new matrices: appending rows and splitting into column blocks.

The project has two modules:

- `Matrices` (`matrices.dfy`) treats a matrix as a value: a `Grid`, which is a
  sequence of rows of reals. Ten operations have a pure reference definition
  here: `Sum`, `Difference`, `Scaled`, `Quotient`, `Mapped`, `Filled`,
  `Transposed`, `Product`, `AppendRows` and `SplitColumns`. `set` and `row`
  have none; their contracts are stated directly on `Cells()`, as a sequence
  update and a row index. The same module
  holds the error conditions and the lemmas that relate the operations to
  each other: inverses, idempotence, involution, units of the product, and
  reconstruction of a column split.
- `MutableMatrices` (`mutable_matrix.dfy`) holds the class `MutableMatrix`.
  It has `const` fields `rows`, `cols` and the backing `array2<real>` `m`.
  The elementwise operations (`add`, `subtract`, `multiply`, `divide`,
  `apply`, `fill`) and the scratch-buffer operations (`dot`, `transpose`) are
  methods with nested `while` loops and invariants. Their `ensures` ties the
  new contents (`Cells()`) to the reference definition applied to the old
  contents, and states that the receiver is returned. The shape and the array
  stay the same because `rows`, `cols` and `m` are declared `const`. `set` writes one cell without a loop. `row` is a
  function returning the row's values. `appendRows` builds a fresh array with
  an initialiser, and `splitColumns` builds one fresh array per block in a
  single loop; both return new matrices rather than the receiver.
  `dot` and `transpose` compute into a fresh scratch array and copy it back
  with `Copy`. Because their contracts use the values from before the call,
  `m.Dot(m)` and `m.Add(m)` are covered too.

Numbers are mathematical reals, not IEEE-754 doubles. The caller's
elementwise function for `apply` is a total Dafny function `real -> real`.
Exceptions become a `Result` whose `Err` carries one of `ShapeMismatch`,
`IndexOutOfBounds`, `DivisionByZero` or `UnevenSplit`. An operation that
fails leaves the matrix unchanged.

The abstract base class `Matrix` is not part of this model. It holds the
constructors, `get`, `copy` and the static `appendRows`/`splitColumns`
helpers. Each of these appears here with a body that follows the contract
this model assumes of the base class:

- `Get` reads one cell.
- `Copy` overwrites an array of the same shape, cell by cell.
- `AppendRowArrays` returns a fresh array holding the rows of both arrays. It
  fails with `ShapeMismatch` when the column counts differ.
- `SplitColumnArrays` returns `pieces` fresh arrays of equal width, left to
  right. It fails with `UnevenSplit` unless `pieces` is positive and divides
  the column count. That is the policy this model chose; the base class's own
  policy is not visible.
- The constructors create a zero matrix of a given shape, wrap an existing
  array, or copy another matrix into fresh storage.

In every case the contract is what the model assumes of the base class.

## Model

| member | source | states |
|---|---|---|
| MutableMatrices.MutableMatrix.Set | src/main/java/math/matrix/MutableMatrix.java:30-34 | For an in-range index it returns the receiver, and the contents become the old contents with exactly cell (i, j) replaced by v. An out-of-range index gives IndexOutOfBounds and changes nothing. |
| MutableMatrices.MutableMatrix.Row | src/main/java/math/matrix/MutableMatrix.java:36-39 | Succeeds exactly when 0 <= i < rows, and then returns the cells of row i of the current contents. Otherwise it gives IndexOutOfBounds. |
| MutableMatrices.MutableMatrix.AppendRows | src/main/java/math/matrix/MutableMatrix.java:41-44 | Fails with ShapeMismatch exactly when the column counts differ. Otherwise it returns a new valid matrix over fresh storage holding the receiver's rows followed by m2's. The receiver and m2 are not modified. |
| MutableMatrices.MutableMatrix.SplitColumns | src/main/java/math/matrix/MutableMatrix.java:46-54 | Fails exactly when the column split fails. Otherwise it returns one new matrix per block, with the same count and the same left-to-right order. Each is valid, has fresh storage, holds its block, and no two share an array. |
| MutableMatrices.MutableMatrix.Dot | src/main/java/math/matrix/MutableMatrix.java:56-70 | When cols != m2.rows it gives ShapeMismatch and changes nothing, whatever m2's column count. Otherwise it returns the receiver, whose contents become the product of the old contents and m2's old contents, even when m2 is the receiver. m2's array is untouched unless it is the receiver's. |
| MutableMatrices.ProductArray | src/main/java/math/matrix/MutableMatrix.java:60-67 | The triple loop fills a fresh zero buffer of shape rows x m2.cols with the matrix product, cell by cell in row-major order. |
| MutableMatrices.DotCell | src/main/java/math/matrix/MutableMatrix.java:63-65 | The innermost loop accumulates the sum over k = 0 .. cols-1 of a[i][k] * b[k][j], in that order. |
| MutableMatrices.Copy | src/main/java/math/matrix/MutableMatrix.java:68 | The copy-back overwrites the destination with the scratch buffer's cells and leaves the buffer unchanged. |
| MutableMatrices.AppendRowArrays | src/main/java/math/matrix/MutableMatrix.java:43 | The row-append helper gives a fresh array of |a| + |b| rows, a's rows first, or ShapeMismatch exactly when the column counts differ. |
| MutableMatrices.SplitColumnArrays | src/main/java/math/matrix/MutableMatrix.java:48 | The column-split helper gives pairwise distinct fresh arrays holding the blocks of the split, left to right, or UnevenSplit exactly when the split fails. |
| MutableMatrices.ColumnBlockArray | src/main/java/math/matrix/MutableMatrix.java:48 | Gives a fresh array holding columns lo up to hi of every row. |
| MutableMatrices.MutableMatrix.Add | src/main/java/math/matrix/MutableMatrix.java:72-80 | For equal shapes it returns the receiver, and every cell becomes old cell + m2's old cell (also when m2 is the receiver). m2's array is untouched unless shared. |
| MutableMatrices.MutableMatrix.Subtract | src/main/java/math/matrix/MutableMatrix.java:82-90 | For equal shapes it returns the receiver, and every cell becomes old cell - m2's old cell. m2's array is untouched unless shared. |
| MutableMatrices.MutableMatrix.Multiply | src/main/java/math/matrix/MutableMatrix.java:92-100 | Returns the receiver, and every cell becomes old cell * s. |
| MutableMatrices.MutableMatrix.Divide | src/main/java/math/matrix/MutableMatrix.java:102-111 | Fails exactly when s == 0, with DivisionByZero and no cell changed. Otherwise it returns the receiver, and every cell becomes old cell / s. |
| MutableMatrices.MutableMatrix.Apply | src/main/java/math/matrix/MutableMatrix.java:123-131 | Returns the receiver, and every cell becomes f(old cell). Shape and array are unchanged. |
| MutableMatrices.MutableMatrix.Transpose | src/main/java/math/matrix/MutableMatrix.java:133-143 | For a square matrix it returns the receiver, whose contents become the transpose of the old contents. |
| MutableMatrices.MutableMatrix.Fill | src/main/java/math/matrix/MutableMatrix.java:145-153 | Returns the receiver, and every cell becomes v, with the shape kept. |
| MutableMatrices.MutableMatrix.constructor | src/main/java/math/matrix/MutableMatrix.java:13-15 | A fresh rows-by-cols matrix of zeros. |
| MutableMatrices.MutableMatrix.Wrap | src/main/java/math/matrix/MutableMatrix.java:17-19 | A matrix over the given array, with the array's shape. |
| MutableMatrices.MutableMatrix.FromMatrix | src/main/java/math/matrix/MutableMatrix.java:21-23 | A copy of another matrix in fresh storage, with equal shape and contents. |
| MutableMatrices.MutableMatrix.Get | src/main/java/math/matrix/MutableMatrix.java:76-86 | The accessor used by the add and subtract loops (`m2.get(i,j)`) returns cell (i, j) of the current contents. |
| MutableMatrices.AddThenSubtract | src/main/java/math/matrix/MutableMatrix.java:73-90 | Chaining add(N) and subtract(N) on a matrix returns it with its original contents, provided N does not share its array. |
| MutableMatrices.MultiplyThenDivide | src/main/java/math/matrix/MutableMatrix.java:93-111 | Chaining multiply(s) and divide(s) with s nonzero succeeds and restores the original contents. |
| MutableMatrices.TransposeThenTranspose | src/main/java/math/matrix/MutableMatrix.java:134-143 | Transposing a square matrix twice through chained calls restores its contents. |
| MutableMatrices.FillThenFill | src/main/java/math/matrix/MutableMatrix.java:146-153 | Filling twice with v leaves every cell equal to v, the same as filling once. |
| Matrices.SubtractUndoesAdd | src/main/java/math/matrix/MutableMatrix.java:73-90 | For equal shapes, adding N and then subtracting N restores the original matrix exactly. |
| Matrices.AddUndoesSubtract | src/main/java/math/matrix/MutableMatrix.java:73-90 | For equal shapes, subtracting N and then adding N restores the original matrix exactly. |
| Matrices.DivideUndoesMultiply | src/main/java/math/matrix/MutableMatrix.java:93-111 | For nonzero s, multiplying by s and then dividing by s restores the original matrix exactly. |
| Matrices.ScaledIsMapped | src/main/java/math/matrix/MutableMatrix.java:93-100 | Scalar multiplication is the elementwise application of x => x * s. |
| Matrices.MappedFusion | src/main/java/math/matrix/MutableMatrix.java:124-131 | Applying f and then h is the same as applying their composition once. |
| Matrices.FillIdempotent | src/main/java/math/matrix/MutableMatrix.java:146-153 | Filling twice with v gives the same matrix as filling once. |
| Matrices.FilledIsConstant | src/main/java/math/matrix/MutableMatrix.java:146-153 | A filled r x c matrix is the constant r x c matrix v, whatever it held before. |
| Matrices.TransposeTwice | src/main/java/math/matrix/MutableMatrix.java:134-143 | Transposing twice restores the matrix. |
| Matrices.ProductIdentityLeft | src/main/java/math/matrix/MutableMatrix.java:57-70 | The product of the identity with M is M. |
| Matrices.ProductIdentityRight | src/main/java/math/matrix/MutableMatrix.java:57-70 | The product of M with the identity is M. |
| Matrices.TwoByTwoExample | src/main/java/math/matrix/MutableMatrix.java:57-80 | [[1,2],[3,4]] times [[5,6],[7,8]] is [[19,22],[43,50]], and their sum is [[6,8],[10,12]]. |
| Matrices.AppendRows | src/main/java/math/matrix/MutableMatrix.java:43 | Fails exactly when the column counts differ. Otherwise the result has |a| + |b| rows of the common width. |
| Matrices.AppendRowsParts | src/main/java/math/matrix/MutableMatrix.java:42-44 | The appended matrix's first |a| rows are a and the remaining rows are b. |
| Matrices.SplitColumns | src/main/java/math/matrix/MutableMatrix.java:48 | Fails exactly when pieces <= 0 or pieces does not divide the column count. Otherwise it gives pieces blocks with the original row count and cols / pieces columns each. |
| Matrices.SplitThenJoin | src/main/java/math/matrix/MutableMatrix.java:47-54 | Placing the blocks of a successful split side by side, left to right, rebuilds the original matrix exactly. |
| Matrices.SplitExample | src/main/java/math/matrix/MutableMatrix.java:47-54 | Splitting [[1,2,3,4]] into 2 pieces gives [[1,2]] and [[3,4]]. |

## Left out

- `random(r, c[, scalar])` and `randomNormal(r, c[, scalar])` (lines 158-184) draw from the base class's random generator, an external nondeterministic source. Note that the two-argument `randomNormal` (line 173) delegates to the uniform `random`, not to the Gaussian variant.
- `pow` (lines 113-121) is `Math.pow` on doubles, whose NaN results only make sense in IEEE-754 arithmetic.
- `data()` (lines 25-28) hands out the backing array itself. The model exposes it only as the field `m`.
- Exact IEEE-754 double semantics: rounding, overflow, NaN and infinities. Cells are mathematical reals. `SubtractUndoesAdd` and `DivideUndoesMultiply` hold exactly over reals but only approximately over doubles.
- The Guava `Function` of `apply` is modelled as a total, pure Dafny function `real -> real`.
- MutableMatrices.MutableMatrix.Row: returns the row's values, not a live alias into the backing array, so writes through the returned row are not modelled.
- MutableMatrices.MutableMatrix.Dot: requires `m2.cols == cols` only in the success case `cols == m2.rows`; the shape-mismatch error is modelled for every m2. The source never changes `rows`, `cols` or `m`, so copying the rows x m2.cols product back into `m` fits only when m2 is square with the receiver's column count.
- MutableMatrices.MutableMatrix.Transpose: requires a square matrix, for the same reason: the cols x rows scratch array is copied back into the rows x cols array `m`.
- `MutableMatrices.MutableMatrix.Add` and `MutableMatrices.MutableMatrix.Subtract`: require equal shapes. The source does no shape check: its loops (lines 74-75 and 84-85) run over the receiver's shape. A larger m2 is accepted silently and only its top-left rows x cols block is read. A smaller m2 faults with an index error only after the cells before the first missing one have already been updated. Neither behaviour is modelled.
- MutableMatrices.MutableMatrix.Get: requires an in-range index. The base class's accessor and its out-of-range behaviour are not part of this model.
- Each cell of the `dot` product is computed by `DotCell` into a running sum, which is then added to the zeroed buffer cell. The source adds every term to the buffer cell directly. The finished buffer is the same.
- The constructors require positive dimensions, so every matrix has at least one row and one column. The base class's handling of empty arrays is not part of this model.
- The base class `Matrix` is not part of this model: its fields, constructors, `get`, `copy` and static `appendRows`/`splitColumns`. The stand-ins listed above follow the contract this model assumes of the base class.
- Concurrency: none. The model is single-threaded like the source.
