/** The backing storage of MyMediaLite's IntSkewSymmetricSparseMatrix as a value:
    a growable list of rows, each row a dictionary from column index to a 32-bit
    value. The functions here are what the indexer and IsSymmetric of the class
    compute; the class in module DataType runs them step by step on its own field. */
module SkewStorage {

  /** C#'s `int`. */
  newtype int32 = x: int | -0x8000_0000 <= x < 0x8000_0000

  const MinInt32: int32 := -0x8000_0000

  /** Unary minus in C#'s default unchecked context: it wraps, so `-int.MinValue`
      is `int.MinValue` again. */
  function Negate(v: int32): (r: int32)
    ensures v != MinInt32 ==> r as int == -(v as int)
    ensures v == MinInt32 ==> r == v
  {
    if v == MinInt32 then v else -v
  }

  /** Wrapping negation is still its own inverse. */
  lemma NegateTwice(v: int32)
    ensures Negate(Negate(v)) == v
  {
  }

  type Row = map<nat, int32>

  /** `row_list`: row index is the position in the sequence. */
  type Storage = seq<Row>

  /** Why a write was refused: the two ArgumentExceptions and the list index fault. */
  datatype Error = DiagonalNotZero | NotSquare | RowOutOfRange

  datatype Status = Ok | Failed(error: Error)

  /** The storage after a write, and whether the write completed. */
  datatype Written = Written(rows: Storage, status: Status)

  function Min(a: nat, b: nat): nat { if a < b then a else b }
  function Max(a: nat, b: nat): nat { if a < b then b else a }

  /** Cell (i, j) is physically present: row i exists and has key j. */
  predicate Stored(rows: Storage, i: nat, j: nat)
  {
    i < |rows| && j in rows[i]
  }

  /** The growth loop of the setter: append empty rows, one at a time, until
      there are at least n rows. */
  function Grow(rows: Storage, n: nat): (r: Storage)
    ensures |r| == Max(|rows|, n)
    ensures forall i :: 0 <= i < |r| ==> r[i] == (if i < |rows| then rows[i] else map[])
    decreases n - |rows|
  {
    if n <= |rows| then rows else Grow(rows + [map[]], n)
  }

  /** The indexer's getter: the single cell (min(x,y), max(x,y)) is consulted,
      negated when x > y; the diagonal and every absent cell read as 0. */
  function Read(rows: Storage, x: nat, y: nat): (r: int32)
    ensures x == y ==> r == 0
    ensures r != 0 ==> Stored(rows, Min(x, y), Max(x, y))
    ensures x < y && Stored(rows, x, y) ==> r == rows[x][y]
    ensures y < x && Stored(rows, y, x) ==> r == Negate(rows[y][x])
  {
    if x < y then
      if x < |rows| && y in rows[x] then rows[x][y] else 0
    else if x > y then
      if y < |rows| && x in rows[y] then Negate(rows[y][x]) else 0
    else
      0
  }

  /** Reading (y, x) is the wrapping negation of reading (x, y), for every storage. */
  lemma ReadAntiSymmetric(rows: Storage, x: nat, y: nat)
    ensures Read(rows, y, x) == Negate(Read(rows, x, y))
    ensures Read(rows, x, y) != MinInt32 ==> Read(rows, y, x) as int == -(Read(rows, x, y) as int)
  {
    if x < y && Stored(rows, x, y) {
      NegateTwice(rows[x][y]);
    } else if y < x && Stored(rows, y, x) {
      NegateTwice(rows[y][x]);
    }
  }

  /** The indexer's setter, as written: a diagonal write succeeds only for 0 and
      changes nothing; otherwise the storage grows to cover row min(x, y) and then
      cell (x, y) is written. For x > y that needs row x, which the growth does
      not guarantee: the write then faults after the growth has happened. */
  function Write(rows: Storage, x: nat, y: nat, v: int32): (w: Written)
    ensures |w.rows| >= |rows|
    ensures forall i: nat, j: nat :: Stored(rows, i, j) ==> Stored(w.rows, i, j)
    ensures w.status == Failed(DiagonalNotZero) <==> x == y && v != 0
    ensures w.status == Failed(RowOutOfRange) <==> x > y && x >= Max(|rows|, y + 1)
    ensures w.status != Failed(NotSquare)
    ensures x == y ==> w.rows == rows
  {
    if x == y then
      Written(rows, if v == 0 then Ok else Failed(DiagonalNotZero))
    else
      var grown := Grow(rows, Min(x, y) + 1);
      if x < |grown| then
        var row: Row := grown[x][y := v];
        Written(grown[x := row], Ok)
      else Written(grown, Failed(RowOutOfRange))
  }

  /** Every cell other than (x, y) is present in both storages or in neither,
      with the same value. */
  ghost predicate SameExcept(before: Storage, after: Storage, x: nat, y: nat)
  {
    forall i: nat, j: nat :: (i != x || j != y) ==>
      (Stored(before, i, j) <==> Stored(after, i, j)) &&
      (Stored(before, i, j) ==> after[i][j] == before[i][j])
  }

  /** A write above the diagonal: grows to x + 1 rows, stores v at (x, y) and
      nothing else, and reads back as v at (x, y) and its negation at (y, x). */
  lemma WriteAbove(rows: Storage, x: nat, y: nat, v: int32)
    requires x < y
    ensures Write(rows, x, y, v).status == Ok
    ensures |Write(rows, x, y, v).rows| == Max(|rows|, x + 1)
    ensures forall i :: |rows| <= i < |Write(rows, x, y, v).rows| && i != x ==>
      Write(rows, x, y, v).rows[i] == map[]
    ensures Stored(Write(rows, x, y, v).rows, x, y) && Write(rows, x, y, v).rows[x][y] == v
    ensures SameExcept(rows, Write(rows, x, y, v).rows, x, y)
    ensures Read(Write(rows, x, y, v).rows, x, y) == v
    ensures Read(Write(rows, x, y, v).rows, y, x) == Negate(v)
    ensures forall a: nat, b: nat :: (a != x || b != y) && (a != y || b != x) ==>
      Read(Write(rows, x, y, v).rows, a, b) == Read(rows, a, b)
  {
    var after := Write(rows, x, y, v).rows;
    var grown := Grow(rows, x + 1);
    assert after == grown[x := grown[x][y := v]];
    NegateTwice(v);
    forall a: nat, b: nat | (a != x || b != y) && (a != y || b != x)
      ensures Read(after, a, b) == Read(rows, a, b)
    {
      if a < b {
        assert Stored(after, a, b) <==> Stored(rows, a, b);
      } else if b < a {
        assert Stored(after, b, a) <==> Stored(rows, b, a);
      }
    }
  }

  /** A write below the diagonal: grows to y + 1 rows, then either faults (row x
      absent) or stores v at (x, y). Either way no read of the matrix changes,
      because the getter never consults a cell whose row exceeds its column. */
  lemma WriteBelow(rows: Storage, x: nat, y: nat, v: int32)
    requires y < x
    ensures |Write(rows, x, y, v).rows| == Max(|rows|, y + 1)
    ensures Write(rows, x, y, v).status == Ok <==> x < Max(|rows|, y + 1)
    ensures Write(rows, x, y, v).status != Ok ==> Write(rows, x, y, v).rows == Grow(rows, y + 1)
    ensures Write(rows, x, y, v).status == Ok ==>
      Stored(Write(rows, x, y, v).rows, x, y) && Write(rows, x, y, v).rows[x][y] == v &&
      SameExcept(rows, Write(rows, x, y, v).rows, x, y)
    ensures forall a: nat, b: nat :: Read(Write(rows, x, y, v).rows, a, b) == Read(rows, a, b)
  {
    var after := Write(rows, x, y, v).rows;
    forall a: nat, b: nat ensures Read(after, a, b) == Read(rows, a, b) {
      if a < b {
        assert Stored(after, a, b) <==> Stored(rows, a, b);
      } else if b < a {
        assert Stored(after, b, a) <==> Stored(rows, b, a);
      }
    }
  }

  /** What IsSymmetric checks: every stored (row, key) pair reads as 0. */
  ghost predicate AllStoredZero(rows: Storage)
  {
    forall i: nat, j: nat :: Stored(rows, i, j) ==> Read(rows, i, j) == 0
  }

  /** IsSymmetric is true exactly when the whole matrix is zero, although it looks
      at the stored cells only. */
  lemma AllStoredZeroIffZeroMatrix(rows: Storage)
    ensures AllStoredZero(rows) <==> forall a: nat, b: nat :: Read(rows, a, b) == 0
  {
    if AllStoredZero(rows) {
      forall a: nat, b: nat ensures Read(rows, a, b) == 0 {
        var lo, hi := Min(a, b), Max(a, b);
        if a != b && Stored(rows, lo, hi) {
          assert Read(rows, lo, hi) == 0;
          ReadAntiSymmetric(rows, lo, hi);
        }
      }
    }
  }

  /** A fresh matrix reports symmetric. */
  lemma FreshIsSymmetric(n: nat)
    ensures AllStoredZero(Grow([], n))
  {
  }

  /** A non-zero write above the diagonal makes IsSymmetric false; a zero one
      keeps a symmetric matrix symmetric even though the 0 is stored. */
  lemma WriteAboveSymmetry(rows: Storage, x: nat, y: nat, v: int32)
    requires x < y
    ensures v != 0 ==> !AllStoredZero(Write(rows, x, y, v).rows)
    ensures v == 0 && AllStoredZero(rows) ==> AllStoredZero(Write(rows, x, y, v).rows)
  {
    WriteAbove(rows, x, y, v);
    var after := Write(rows, x, y, v).rows;
    if v == 0 && AllStoredZero(rows) {
      AllStoredZeroIffZeroMatrix(rows);
      forall a: nat, b: nat ensures Read(after, a, b) == 0 {
        assert Read(rows, a, b) == 0;
      }
      AllStoredZeroIffZeroMatrix(after);
    }
  }

  /** A write below the diagonal never turns a symmetric matrix asymmetric,
      whatever value it stores. */
  lemma WriteBelowKeepsSymmetric(rows: Storage, x: nat, y: nat, v: int32)
    requires y < x
    requires AllStoredZero(rows)
    ensures AllStoredZero(Write(rows, x, y, v).rows)
  {
    WriteBelow(rows, x, y, v);
    AllStoredZeroIffZeroMatrix(rows);
    var after := Write(rows, x, y, v).rows;
    forall a: nat, b: nat ensures Read(after, a, b) == 0 {
      assert Read(rows, a, b) == 0;
    }
    AllStoredZeroIffZeroMatrix(after);
  }

  /** The rows holding at least one stored entry. */
  function NonEmptyRows(rows: Storage): (s: set<nat>)
    ensures forall i: nat :: i in s <==> i < |rows| && rows[i] != map[]
  {
    set i: nat | i < |rows| && rows[i] != map[]
  }

  /** The stored (row, column) pairs. */
  function NonEmptyEntryIDs(rows: Storage): (s: set<(nat, nat)>)
    ensures forall i: nat, j: nat :: (i, j) in s <==> Stored(rows, i, j)
  {
    set i: nat, j: nat | i < |rows| && j in rows[i] :: (i, j)
  }

  /** One off-diagonal write into a fresh n x n matrix whose row x is allocated
      succeeds and leaves exactly one non-empty row and one stored entry, both
      keyed by x, also when the value written is 0. */
  lemma SingleWriteOnFresh(n: nat, x: nat, y: nat, v: int32)
    requires x != y && x < n
    ensures Write(Grow([], n), x, y, v).status == Ok
    ensures NonEmptyRows(Write(Grow([], n), x, y, v).rows) == {x}
    ensures NonEmptyEntryIDs(Write(Grow([], n), x, y, v).rows) == {(x, y)}
  {
    var start := Grow([], n);
    var after := Write(start, x, y, v).rows;
    assert after == start[x := map[y := v]];
    assert y in after[x];
    assert x in NonEmptyRows(after);
    assert (x, y) in NonEmptyEntryIDs(after);
  }

  // The setter as evidently intended: the growth already targets row min(x, y),
  // so a write below the diagonal belongs in cell (y, x), negated.

  /** Corrected setter: every off-diagonal write lands in the cell the getter reads. */
  function WriteIntended(rows: Storage, x: nat, y: nat, v: int32): (w: Written)
    ensures |w.rows| == if x == y then |rows| else Max(|rows|, Min(x, y) + 1)
    ensures w.status == Failed(DiagonalNotZero) <==> x == y && v != 0
    ensures w.status != Ok ==> w.status == Failed(DiagonalNotZero)
  {
    if x == y then
      Written(rows, if v == 0 then Ok else Failed(DiagonalNotZero))
    else if x < y then
      var grown := Grow(rows, x + 1);
      var row: Row := grown[x][y := v];
      Written(grown[x := row], Ok)
    else
      var grown := Grow(rows, y + 1);
      var row: Row := grown[y][x := Negate(v)];
      Written(grown[y := row], Ok)
  }

  /** With the corrected setter, every off-diagonal write reads back as written
      and as its negation on the mirrored side, and no other read changes. */
  lemma IntendedWriteReadsBack(rows: Storage, x: nat, y: nat, v: int32)
    requires x != y
    ensures Read(WriteIntended(rows, x, y, v).rows, x, y) == v
    ensures Read(WriteIntended(rows, x, y, v).rows, y, x) == Negate(v)
    ensures forall a: nat, b: nat :: (a != x || b != y) && (a != y || b != x) ==>
      Read(WriteIntended(rows, x, y, v).rows, a, b) == Read(rows, a, b)
  {
    var after := WriteIntended(rows, x, y, v).rows;
    var lo, hi := Min(x, y), Max(x, y);
    var grown := Grow(rows, lo + 1);
    NegateTwice(v);
    forall a: nat, b: nat | (a != x || b != y) && (a != y || b != x)
      ensures Read(after, a, b) == Read(rows, a, b)
    {
      if a < b {
        assert Stored(after, a, b) <==> Stored(rows, a, b);
      } else if b < a {
        assert Stored(after, b, a) <==> Stored(rows, b, a);
      }
    }
  }

  /** The setter as written loses the write the NonEmptyRows test makes:
      on a fresh 5 x 5 matrix, [3, 1] = 1 completes but [3, 1] still reads 0. */
  lemma WrittenBelowNotReadBack()
    ensures Write(Grow([], 5), 3, 1, 1).status == Ok
    ensures Read(Write(Grow([], 5), 3, 1, 1).rows, 3, 1) == 0
    ensures Read(WriteIntended(Grow([], 5), 3, 1, 1).rows, 3, 1) == 1
  {
    WriteBelow(Grow([], 5), 3, 1, 1);
    IntendedWriteReadsBack(Grow([], 5), 3, 1, 1);
  }
}
