/** The unit tests of IntSkewSymmetricSparseMatrix as client methods: each states
    what its test asserts, and the proof uses only the contracts of the class and
    the lemmas about its storage. */
module DataTypeTest {
  import opened SkewStorage
  import opened DataType

  /** [1, 3] = 1 on a 5 x 5 matrix makes [3, 1] read -1. */
  method TestSymmetricity() returns (mirrored: int32)
    ensures mirrored == -1
  {
    var matrix := new IntSkewSymmetricSparseMatrix(5);
    ghost var start := matrix.rows;
    var status := matrix.Set(1, 3, 1);
    WriteAbove(start, 1, 3, 1);
    mirrored := matrix.Get(3, 1);
  }

  /** A fresh matrix is symmetric; after [1, 3] = 1 it is not. */
  method TestIsSymmetric() returns (before: bool, after: bool)
    ensures before && !after
  {
    var matrix := new IntSkewSymmetricSparseMatrix(5);
    before := matrix.IsSymmetric();
    ghost var start := matrix.rows;
    var status := matrix.Set(1, 3, 1);
    WriteAboveSymmetry(start, 1, 3, 1);
    after := matrix.IsSymmetric();
  }

  method TestNumberOfRows() returns (n: nat)
    ensures n == 3
  {
    var matrix := new IntSkewSymmetricSparseMatrix(3);
    n := matrix.numberOfRows;
  }

  method TestNumberOfColumns() returns (n: nat)
    ensures n == 3
  {
    var matrix := new IntSkewSymmetricSparseMatrix(3);
    n := matrix.numberOfColumns;
  }

  /** CreateMatrix(4, 4) on a 5 x 5 matrix yields a 4 x 4 matrix of the same kind. */
  method TestCreateMatrix() returns (created: bool, numRows: nat, numColumns: nat)
    ensures created && numRows == 4 && numColumns == 4
  {
    var matrix1 := new IntSkewSymmetricSparseMatrix(5);
    var matrix2 := matrix1.CreateMatrix(4, 4);
    created := matrix2.Success?;
    numRows, numColumns := matrix2.value.numberOfRows, matrix2.value.numberOfColumns;
  }

  /** [3, 1] = 1 on a fresh 5 x 5 matrix leaves one non-empty row. */
  method TestNonEmptyRows() returns (before: nat, after: nat)
    ensures before == 0 && after == 1
  {
    var matrix := new IntSkewSymmetricSparseMatrix(5);
    assert NonEmptyRows(matrix.rows) == {};
    before := |NonEmptyRows(matrix.rows)|;
    assert matrix.rows == Grow([], 5);
    var status := matrix.Set(3, 1, 1);
    SingleWriteOnFresh(5, 3, 1, 1);
    after := |NonEmptyRows(matrix.rows)|;
  }

  /** [3, 1] = 1 on a fresh 5 x 5 matrix leaves one stored entry. */
  method TestNonEmptyEntryIDs() returns (before: nat, after: nat)
    ensures before == 0 && after == 1
  {
    var matrix := new IntSkewSymmetricSparseMatrix(5);
    assert NonEmptyEntryIDs(matrix.rows) == {};
    before := |NonEmptyEntryIDs(matrix.rows)|;
    assert matrix.rows == Grow([], 5);
    var status := matrix.Set(3, 1, 1);
    SingleWriteOnFresh(5, 3, 1, 1);
    after := |NonEmptyEntryIDs(matrix.rows)|;
  }
}
