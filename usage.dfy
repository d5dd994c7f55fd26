/** What callers of a `FileMatrix` can rely on, derived from the class's
    contracts alone. */
module Usage {
  import opened Results
  import opened Layout
  import opened FileMatrices

  /** A value written through the buffer returned for row `i` is read back
      after row `j` and then row `i` have been paged in. */
  method PagingRoundTrip(m: FileMatrix, i: nat, j: nat, column: nat, value: int)
    returns (readBack: int)
    requires m.Valid() && i < m.rows && j < m.rows && column < m.columns
    modifies m`file, m`currentRow, m`currentRowNumber
    ensures m.Valid() && readBack == value
  {
    WriteCell(m, i, column, value);
    var r := m.Index(j);
    readBack := ReadCell(m, i, column);
  }

  /** `m[i][column]` as a read: the value of that cell of the matrix, which
      paging does not change. */
  method ReadCell(m: FileMatrix, i: nat, column: nat) returns (value: int)
    requires m.Valid() && i < m.rows && column < m.columns
    modifies m`file, m`currentRow, m`currentRowNumber
    ensures m.Valid() && m.rows == old(m.rows) && m.columns == old(m.columns)
    ensures m.currentRowNumber == i && m.file == old(m.Contents())
    ensures value == old(m.Contents())[RowStart(i, m.columns) + column]
    ensures m.Contents() == old(m.Contents())
  {
    var r := m.Index(i);
    value := r.value[column];
  }

  /** Asking for the same row twice gives the same contents, each time in
      a newly allocated buffer. The contents are captured at each access:
      the second access frees the first buffer. */
  method SameRowTwice(m: FileMatrix, i: nat) returns (first: seq<int>, second: seq<int>, renewed: bool)
    requires m.Valid() && i < m.rows
    modifies m`file, m`currentRow, m`currentRowNumber
    ensures m.Valid() && m.columns == old(m.columns)
    ensures m.currentRowNumber == i && m.file == old(m.Contents())
    ensures first == second && first == RowOf(old(m.Contents()), i, m.columns)
    ensures renewed && second == m.currentRow[..]
  {
    var r := m.Index(i);
    var firstBuffer := r.value;
    first := r.value[..];
    r := m.Index(i);
    second := r.value[..];
    renewed := r.value != firstBuffer;
  }

  /** A matrix built from a file name alone has no rows to page in. */
  method NameOnlyRejectsRows(name: string, i: nat) returns (r: Result<array<int>>)
    ensures r == Failure(OutOfRange)
  {
    var m := new FileMatrix.Named(name);
    r := m.Index(i);
  }

  /** `m[i][column] = value`: pages row `i` in and writes one cell of it;
      the matrix changes at exactly that cell. */
  method WriteCell(m: FileMatrix, i: nat, column: nat, value: int)
    requires m.Valid() && i < m.rows && column < m.columns
    modifies m`file, m`currentRow, m`currentRowNumber
    ensures m.Valid() && m.rows == old(m.rows) && m.columns == old(m.columns)
    ensures m.currentRowNumber == i && m.file == old(m.Contents())
    ensures m.Contents() == old(m.Contents())[RowStart(i, m.columns) + column := value]
  {
    var r := m.Index(i);
    m.SetCell(column, value);
  }

  /** A fresh 3 x 3 matrix whose row 1 is written as `[4, 5, 6]`. */
  method RowOneWritten() returns (m: FileMatrix)
    ensures fresh(m) && m.Valid() && m.rows == 3 && m.columns == 3
    ensures m.Contents()[RowStart(1, 3)..RowStart(2, 3)] == [4, 5, 6]
  {
    var created := FileMatrix.Create(3, 3, "m.matrix");
    m := created.value;
    WriteCell(m, 1, 0, 4);
    WriteCell(m, 1, 1, 5);
    WriteCell(m, 1, 2, 6);
  }

  /** Row 1 survives paging row 2 in and row 1 back; afterwards the file
      holds it too. */
  method RowOneReadBack() returns (m: FileMatrix, row1: seq<int>)
    ensures fresh(m) && m.Valid() && m.rows == 3 && m.columns == 3
    ensures m.currentRowNumber == 1 && fresh(m.currentRow)
    ensures m.currentRow[..] == row1 && row1 == [4, 5, 6]
    ensures m.file[RowStart(1, 3)..RowStart(2, 3)] == [4, 5, 6]
  {
    m := RowOneWritten();
    var r := m.Index(2);
    r := m.Index(1);
    row1 := r.value[..];
  }

  /** The matrix equals its copy. A write to the resident row leaves the
      two equal until it is flushed. */
  method EndToEnd() returns (row1: seq<int>, equalAfterCopy: bool, equalWhileStale: bool, equalAfterFlush: bool)
    ensures row1 == [4, 5, 6]
    ensures equalAfterCopy && equalWhileStale && !equalAfterFlush
  {
    var m;
    m, row1 := RowOneReadBack();
    assert m.file[RowStart(1, 3)] == m.file[RowStart(1, 3)..RowStart(2, 3)][0] == 4;
    var copy := new FileMatrix.CopyOf(m);
    equalAfterCopy := m.Equals(copy);
    m.SetCell(0, 40);
    equalWhileStale := m.Equals(copy);
    m.Flush();
    equalAfterFlush := m.Equals(copy);
  }
}
