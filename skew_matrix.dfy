/** MyMediaLite.DataType: the skew symmetric (anti-symmetric) sparse integer matrix,
    which stores one cell per mirrored pair and derives the other by negation. */
module DataType {
  import opened SkewStorage

  datatype Result<T> = Success(value: T) | Failure(error: Error)

  class IntSkewSymmetricSparseMatrix {
    /** The declared dimensions, kept by the SparseMatrix base class. */
    const numberOfRows: nat
    const numberOfColumns: nat

    /** `row_list`, inherited from the SparseMatrix base class. */
    var rows: Storage

    /** The matrix is square and the rows the base class allocated are still there. */
    ghost predicate Valid()
      reads this
    {
      numberOfRows == numberOfColumns && numberOfRows <= |rows|
    }

    /** Creates an empty numRows x numRows matrix. The base constructor is not part
        of this model: that it allocates numRows empty rows is an assumption, the one
        the NonEmptyRows test needs for its write to row 3 of a 5 x 5 matrix. */
    constructor (numRows: nat)
      ensures Valid()
      ensures numberOfRows == numRows && numberOfColumns == numRows
      ensures |rows| == numRows && forall i :: 0 <= i < numRows ==> rows[i] == map[]
    {
      numberOfRows, numberOfColumns := numRows, numRows;
      rows := Grow([], numRows);
    }

    /** The indexer's getter. */
    function Get(x: nat, y: nat): (r: int32)
      reads this
      ensures x == y ==> r == 0
      ensures r == Negate(Read(rows, y, x))
      ensures r != MinInt32 ==> Read(rows, y, x) as int == -(r as int)
      ensures r != 0 ==> Stored(rows, Min(x, y), Max(x, y))
    {
      ReadAntiSymmetric(rows, y, x);
      Read(rows, x, y)
    }

    /** The growth loop: appends empty rows until row n - 1 exists. */
    method GrowRows(n: nat)
      modifies this
      ensures rows == Grow(old(rows), n)
    {
      if n > |rows| {
        var i := |rows|;
        while i < n
          invariant i == |rows| <= n
          invariant Grow(rows, n) == Grow(old(rows), n)
        {
          rows := rows + [map[]];
          i := i + 1;
        }
      }
    }

    /** The indexer's setter, as written: the storage grows to cover row min(x, y),
        then cell (x, y) is written. A write below the diagonal whose row x does not
        exist faults after the growth; a non-zero diagonal write is rejected and
        changes nothing. Rows the base class allocated make every off-diagonal write
        whose row index is below the dimension succeed. */
    method Set(x: nat, y: nat, value: int32) returns (status: Status)
      requires Valid()
      modifies this
      ensures Valid()
      ensures rows == Write(old(rows), x, y, value).rows
      ensures status == Write(old(rows), x, y, value).status
      ensures x != y && x < numberOfRows ==> status == Ok
    {
      if x < y {
        GrowRows(x + 1);
      } else if x > y {
        GrowRows(y + 1);
      } else {
        if value == 0 {
          return Ok;
        } else {
          return Failed(DiagonalNotZero);
        }
      }
      if x >= |rows| {
        return Failed(RowOutOfRange);
      }
      var row: Row := rows[x][y := value];
      rows := rows[x := row];
      status := Ok;
    }

    /** IsSymmetric: scans every stored key of every row and answers false at the
        first one that reads non-zero. True exactly when the whole matrix is zero. */
    method IsSymmetric() returns (b: bool)
      ensures b == AllStoredZero(rows)
      ensures b <==> forall a: nat, c: nat :: Get(a, c) == 0
    {
      AllStoredZeroIffZeroMatrix(rows);
      var i := 0;
      while i < |rows|
        invariant 0 <= i <= |rows|
        invariant forall r: nat, c: nat :: r < i && c in rows[r] ==> Read(rows, r, c) == 0
      {
        var keys := rows[i].Keys;
        while keys != {}
          invariant keys <= rows[i].Keys
          invariant forall c: nat :: c in rows[i] && c !in keys ==> Read(rows, i, c) == 0
          decreases keys
        {
          var j :| j in keys;
          if Get(i, j) != 0 {
            return false;
          }
          keys := keys - {j};
        }
        i := i + 1;
      }
      return true;
    }

    /** CreateMatrix: a fresh, empty matrix of the same kind, only if square. */
    method CreateMatrix(numRows: nat, numColumns: nat) returns (r: Result<IntSkewSymmetricSparseMatrix>)
      ensures numRows != numColumns ==> r == Failure(NotSquare)
      ensures numRows == numColumns ==>
        r.Success? && fresh(r.value) && r.value.Valid() &&
        r.value.numberOfRows == numRows && r.value.numberOfColumns == numRows &&
        r.value.rows == Grow([], numRows)
    {
      if numRows != numColumns {
        return Failure(NotSquare);
      }
      var m := new IntSkewSymmetricSparseMatrix(numRows);
      return Success(m);
    }
  }
}
