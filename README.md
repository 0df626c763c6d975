# IntSkewSymmetricSparseMatrix in Dafny

This project models `IntSkewSymmetricSparseMatrix` from MyMediaLite. It is a square
integer matrix that keeps one cell per mirrored pair and derives the other cell by
negation. Its storage is `row_list`, a list of per-row dictionaries from column
index to value, inherited from `SparseMatrix<int>`.

- `skew_storage.dfy`, module `SkewStorage`: the storage as a value, plus the functions the class computes:
  - `Grow`: the growth loop.
  - `Read`: the indexer's getter.
  - `Write`: the indexer's setter, as the code is written.
  - `AllStoredZero`: what `IsSymmetric` answers.
  - `NonEmptyRows` and `NonEmptyEntryIDs`.
  - the lemmas about these functions.
- `skew_matrix.dfy`, module `DataType`: the class `IntSkewSymmetricSparseMatrix`.
  - It has a `rows` field (`row_list`) and the two declared dimensions.
  - `Set` and `GrowRows` change `rows` in place with the source's append loop. Their contracts tie the new `rows` to `Write` and `Grow`.
  - `IsSymmetric` is the nested scan with an early return. Its contract ties the answer to `AllStoredZero`.
  - `Get`, the constructor and `CreateMatrix` are also modelled.
- `skew_matrix_test.dfy`, module `DataTypeTest`: the unit tests as client methods. Each one proves what its test asserts.

Values are C#'s 32-bit `int` (`int32`). The getter's `-result` is C#'s unchecked negation (`Negate`), and `-int.MinValue` is `int.MinValue`. So `Get(y, x)` is always the wrapping negation of `Get(x, y)`, and it is the true negation whenever `Get(x, y)` is not `int.MinValue`. Row and column indices are `nat`.

The setter is modelled as the code is written. For `x < y` it stores `value` at row `x`, column `y`. The getter reads that same cell, so `[x, y]` reads `value` and `[y, x]` reads its negation. For `x > y` the code first grows the storage to `y + 1` rows. It then writes row `x`, column `y`. The getter never reads that cell, because it only looks at cells whose row is below their column. So the write changes no value the indexer reports (`WriteBelow`). If row `x` does not exist, the write faults after the growth has already happened.

Facts about the code that the model keeps:
- A write with `x > y` grows the storage to `y + 1` rows (IntSkewSymmetricSparseMatrix.cs:61-63). It then stores row `x`, column `y` (:74), a cell the getter never reads.
- The doc remark at :24-28 says stored entries have `x > y`. The `x < y` path stores cells whose row is below their column, and those are the only cells the getter reads.
- The base constructor is not part of this model. The NonEmptyRows test (IntSkewSymmetricSparseMatrixTest.cs:67-71) writes row 3 of a fresh 5 x 5 matrix after growth to only 2 rows, so at least 4 rows exist from the start. The model assumes the base constructor allocates `num_rows` empty rows, and the constructor states this as an assumption.
- The index fault of a write with `x > y` comes after the growth and does not undo it. Only the diagonal rejection leaves the storage untouched.

## Model

| member | source | states |
|---|---|---|
| `SkewStorage.Negate` | src/MyMediaLite/DataType/IntSkewSymmetricSparseMatrix.cs:47 | unchecked negation: the true negation except at int.MinValue, which it leaves unchanged |
| `SkewStorage.NegateTwice` | src/MyMediaLite/DataType/IntSkewSymmetricSparseMatrix.cs:47 | wrapping negation is its own inverse |
| `SkewStorage.Grow` | src/MyMediaLite/DataType/IntSkewSymmetricSparseMatrix.cs:55-63 | the append loop yields max(rows, n) rows: the old rows unchanged, then empty rows |
| `SkewStorage.Read` | src/MyMediaLite/DataType/IntSkewSymmetricSparseMatrix.cs:36-51 | the diagonal reads 0; a non-zero read implies cell (min, max) is stored; above the diagonal it reads the stored value, below it the negated value of the mirrored cell |
| `SkewStorage.ReadAntiSymmetric` | src/MyMediaLite/DataType/IntSkewSymmetricSparseMatrix.cs:39-47 | for every storage, [y, x] is the wrapping negation of [x, y], and the true negation unless [x, y] is int.MinValue |
| `SkewStorage.Write` | src/MyMediaLite/DataType/IntSkewSymmetricSparseMatrix.cs:52-75 | storage only grows and no stored key is lost; fails with the diagonal error iff x == y and value != 0; never fails with the not-square error; faults iff x > y and row x is still missing after growth; a diagonal write leaves storage untouched |
| `SkewStorage.WriteAbove` | src/MyMediaLite/DataType/IntSkewSymmetricSparseMatrix.cs:53-58 | for x < y: succeeds, grows to max(rows, x+1) with empty new rows, stores value at (x, y) and changes no other cell; [x, y] reads value, [y, x] reads its negation, every other read is unchanged |
| `SkewStorage.WriteBelow` | src/MyMediaLite/DataType/IntSkewSymmetricSparseMatrix.cs:59-74 | for x > y: grows to max(rows, y+1); succeeds iff row x then exists; on success stores value at (x, y) and nothing else; on fault the growth remains; in both cases no read of any cell changes |
| `SkewStorage.AllStoredZeroIffZeroMatrix` | src/MyMediaLite/DataType/IntSkewSymmetricSparseMatrix.cs:78-88 | scanning only the stored keys answers true iff every cell of the matrix reads 0 |
| `SkewStorage.FreshIsSymmetric` | src/MyMediaLiteTest/DataType/IntSkewSymmetricSparseMatrixTest.cs:39-40 | a fresh matrix of any size is symmetric |
| `SkewStorage.WriteAboveSymmetry` | src/MyMediaLiteTest/DataType/IntSkewSymmetricSparseMatrixTest.cs:39-43 | a non-zero write above the diagonal makes IsSymmetric false; a stored 0 keeps a symmetric matrix symmetric |
| `SkewStorage.WriteBelowKeepsSymmetric` | src/MyMediaLite/DataType/IntSkewSymmetricSparseMatrix.cs:59-88 | a write below the diagonal, of any value, never makes a symmetric matrix asymmetric |
| `SkewStorage.NonEmptyRows` | src/MyMediaLiteTest/DataType/IntSkewSymmetricSparseMatrixTest.cs:65-72 | the rows with at least one stored key (inferred from the tests; the base class is not part of this model) |
| `SkewStorage.NonEmptyEntryIDs` | src/MyMediaLiteTest/DataType/IntSkewSymmetricSparseMatrixTest.cs:74-81 | the stored (row, column) pairs (inferred from the tests) |
| `SkewStorage.SingleWriteOnFresh` | src/MyMediaLiteTest/DataType/IntSkewSymmetricSparseMatrixTest.cs:65-81 | one off-diagonal write of any value into a fresh n x n matrix, at row x < n, succeeds and leaves exactly row x non-empty and exactly (x, y) stored |
| `SkewStorage.WrittenBelowNotReadBack` | src/MyMediaLite/DataType/IntSkewSymmetricSparseMatrix.cs:74 | on a fresh 5 x 5 matrix, [3, 1] = 1 completes but [3, 1] still reads 0; the corrected write reads 1 |
| `SkewStorage.WriteIntended` | src/MyMediaLite/DataType/IntSkewSymmetricSparseMatrix.cs:59-74 | corrected setter: grows to cover row min(x, y), never faults off the diagonal, keeps the diagonal rejection |
| `SkewStorage.IntendedWriteReadsBack` | src/MyMediaLite/DataType/IntSkewSymmetricSparseMatrix.cs:59-74 | with the corrected setter every off-diagonal write reads back as written at [x, y], as its negation at [y, x], and leaves every other read unchanged |
| `DataType.IntSkewSymmetricSparseMatrix.constructor` | src/MyMediaLite/DataType/IntSkewSymmetricSparseMatrix.cs:93 | both dimensions are num_rows; assumed: the base class allocates num_rows empty rows |
| `DataType.IntSkewSymmetricSparseMatrix.Get` | src/MyMediaLite/DataType/IntSkewSymmetricSparseMatrix.cs:36-51 | the diagonal reads 0; [x, y] is the wrapping negation of [y, x], and the true negation unless it is int.MinValue; only a stored cell (min, max) reads non-zero |
| `DataType.IntSkewSymmetricSparseMatrix.GrowRows` | src/MyMediaLite/DataType/IntSkewSymmetricSparseMatrix.cs:55-57 | the append loop leaves rows equal to Grow of the old rows |
| `DataType.IntSkewSymmetricSparseMatrix.Set` | src/MyMediaLite/DataType/IntSkewSymmetricSparseMatrix.cs:52-75 | the new rows and the outcome are exactly those of Write; the object stays square with its allocated rows; an off-diagonal write at a row below the dimension always succeeds |
| `DataType.IntSkewSymmetricSparseMatrix.IsSymmetric` | src/MyMediaLite/DataType/IntSkewSymmetricSparseMatrix.cs:80-89 | answers whether every stored key reads 0, which holds iff every cell of the matrix reads 0 |
| `DataType.IntSkewSymmetricSparseMatrix.CreateMatrix` | src/MyMediaLite/DataType/IntSkewSymmetricSparseMatrix.cs:96-101 | unequal dimensions give the not-square error; equal ones give a fresh matrix of that size built as the constructor builds it |
| `DataTypeTest.TestSymmetricity` | src/MyMediaLiteTest/DataType/IntSkewSymmetricSparseMatrixTest.cs:29-35 | after [1, 3] = 1 on a 5 x 5 matrix, [3, 1] reads -1 |
| `DataTypeTest.TestIsSymmetric` | src/MyMediaLiteTest/DataType/IntSkewSymmetricSparseMatrixTest.cs:37-44 | a fresh matrix is symmetric; after [1, 3] = 1 it is not |
| `DataTypeTest.TestNumberOfRows` | src/MyMediaLiteTest/DataType/IntSkewSymmetricSparseMatrixTest.cs:46-50 | a 3-row matrix has 3 rows |
| `DataTypeTest.TestNumberOfColumns` | src/MyMediaLiteTest/DataType/IntSkewSymmetricSparseMatrixTest.cs:52-56 | a 3-row matrix has 3 columns |
| `DataTypeTest.TestCreateMatrix` | src/MyMediaLiteTest/DataType/IntSkewSymmetricSparseMatrixTest.cs:58-63 | CreateMatrix(4, 4) on a 5 x 5 matrix succeeds with a fresh matrix of the same class that has 4 rows and 4 columns |
| `DataTypeTest.TestNonEmptyRows` | src/MyMediaLiteTest/DataType/IntSkewSymmetricSparseMatrixTest.cs:65-72 | a fresh 5 x 5 matrix has no non-empty row; after [3, 1] = 1 it has one |
| `DataTypeTest.TestNonEmptyEntryIDs` | src/MyMediaLiteTest/DataType/IntSkewSymmetricSparseMatrixTest.cs:74-81 | a fresh 5 x 5 matrix has no stored entry; after [3, 1] = 1 it has one |

## Left out

- The base class `SparseMatrix<int>` and the interface `IMatrix<int>` are not part of this model. Only these pieces of them appear:
  - `row_list`, as the `rows` field.
  - the declared dimensions, as the constants `numberOfRows` and `numberOfColumns`.
  - `NonEmptyRows` and `NonEmptyEntryIDs`, defined from what the tests expect of them.
- DataType.IntSkewSymmetricSparseMatrix.constructor: that the base constructor allocates `num_rows` empty rows is an assumption, not something derived.
- Negative indices and negative dimensions are excluded by typing them as `nat`. C# would throw from `List` for a negative row index. A negative column on the `x > y` path, such as `[2, -1] = v` with row 2 allocated, is stored without a fault; later reads of it and `IsSymmetric` then throw at `row_list[-1]`. None of this is modelled. What the base constructor does with a negative size is unknown.
- The 32-bit width of indices and the capacity limits of `List` and `Dictionary` are not modelled.
- Exception types are not modelled. The two `ArgumentException`s and the list index fault become the values of `Error`.
- The runtime type check in the CreateMatrix test is not modelled. The model shows that the result is a fresh instance of the same class.
- The doc remark saying stored entries have `x > y` is not used. The code stores `x < y` cells on its consistent path.
- Concurrency is out of scope: the class has no synchronisation.

## Findings

| source | as written | input that shows it | evidently intended | confidence | as-written member | corrected member |
|---|---|---|---|---|---|---|
| src/MyMediaLite/DataType/IntSkewSymmetricSparseMatrix.cs:74 | for x > y the setter writes row x, column y, a cell the getter never reads, and faults when row x is missing although the growth at lines 61-63 prepared row y | on a fresh 5 x 5 matrix, `[3, 1] = 1`, then `[3, 1]` reads 0 instead of 1 and `[1, 3]` reads 0 instead of -1 | store the negated value at row y, column x, so that `[x, y]` reads the value back and `[y, x]` its negation | medium; not executed | `SkewStorage.WrittenBelowNotReadBack` | `SkewStorage.WriteIntended` |

The class keeps the setter as the code is written, because it models the code. `WriteIntended` is the corrected write on storage values. `IntendedWriteReadsBack` proves the intended property about it.
