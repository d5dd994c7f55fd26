/** `FileMatrix`: a dense matrix whose elements live in a binary file, with
    exactly one row cached in memory.

    The file is seen at the granularity of cells (module `Layout`). An
    object whose stream is not open (built from a name only, or emptied by
    a move) sees the empty sequence. The element type is `int`, and the
    value-initialised element `T{}` is 0. */
module FileMatrices {
  import opened Results
  import opened Layout
  import opened SiblingNames

  /** The file the dimensioned constructor writes: the header, then
      `rows * columns` value-initialised elements, written one by one. */
  method WriteFreshFile(rows: nat, columns: nat) returns (file: seq<int>)
    ensures WellFormed(file, rows, columns)
    ensures forall k :: HeaderCells <= k < |file| ==> file[k] == 0
  {
    file := [rows, columns];
    ProductIsMul(rows, columns);
    for i := 0 to rows * columns
      invariant |file| == HeaderCells + i && file[0] == rows && file[1] == columns
      invariant forall k :: HeaderCells <= k < |file| ==> file[k] == 0
    {
      file := file + [0];
    }
  }

  /** Reads the `columns` elements of row `i` into a newly allocated buffer. */
  method ReadRow(file: seq<int>, i: nat, columns: nat) returns (row: array<int>)
    requires RowStart(i, columns) + columns <= |file|
    ensures fresh(row) && row[..] == RowOf(file, i, columns)
  {
    row := new int[columns];
    forall k | 0 <= k < columns {
      row[k] := file[RowStart(i, columns) + k];
    }
  }

  /** `std::equal` over the bytes of the first file against the second
      file read from its start: true when the first file is a prefix of
      the second. */
  function SameBytes(first: seq<int>, second: seq<int>): (r: bool)
    requires |first| <= |second|
    ensures r <==> first == second[..|first|]
  {
    if first == [] then true
    else
      assert second[..|first|] == [second[0]] + second[1..][..|first| - 1];
      first[0] == second[0] && SameBytes(first[1..], second[1..])
  }

  class FileMatrix {
    /** `filename_`: the path of the backing file. */
    var name: string
    /** `rows_` and `columns_`. */
    var rows: nat
    var columns: nat
    /** The backing file as read through the object's stream. */
    var file: seq<int>
    /** `currentRow_`: the resident row buffer, or null when there is none. */
    var currentRow: array?<int>
    /** `currentRowNumber_`: the row the buffer belongs to. */
    var currentRowNumber: nat

    /** Either the object is bound to no open file (no dimensions), or its
        file is well formed, non-empty in rows, and a row is resident. */
    ghost predicate Valid()
      reads this, currentRow
    {
      (currentRow != null ==> currentRow.Length == columns) &&
      if file == [] then
        rows == 0 && columns == 0 && currentRowNumber == 0
      else
        WellFormed(file, rows, columns) && 0 < rows &&
        currentRow != null && currentRowNumber < rows &&
        RowStart(currentRowNumber, columns) + columns <= |file|
    }

    /** The matrix as the program sees it: the file with the resident row
        written back in its place. */
    ghost function Contents(): seq<int>
      reads this, currentRow
      requires Valid()
    {
      if currentRow == null then file
      else Overwrite(file, RowStart(currentRowNumber, columns), currentRow[..])
    }

    /** The filename-only constructor: remembers the name, all else zero. */
    constructor Named(name: string)
      ensures Valid()
      ensures this.name == name && rows == 0 && columns == 0 && currentRowNumber == 0
      ensures currentRow == null && file == []
    {
      this.name := name;
      rows, columns, currentRowNumber := 0, 0, 0;
      file := [];
      currentRow := null;
    }

    /** The dimensioned constructor for `rows > 0` (see `Create` for the
        whole constructor): writes a fresh zero-filled file, then loads row 0. */
    constructor Sized(rows: nat, columns: nat, name: string)
      requires 0 < rows
      ensures Valid()
      ensures this.name == name && this.rows == rows && this.columns == columns
      ensures WellFormed(file, rows, columns)
      ensures forall k :: HeaderCells <= k < |file| ==> file[k] == 0
      ensures currentRowNumber == 0 && fresh(currentRow)
      ensures forall k :: 0 <= k < columns ==> currentRow[k] == 0
      ensures Contents() == file
    {
      this.name := name;
      this.rows, this.columns := rows, columns;
      var written := WriteFreshFile(rows, columns);
      file := written;
      // `loadRow(0)`: no row is resident yet, so it only reads row 0
      RowFits(0, rows, columns);
      currentRowNumber := 0;
      var row := ReadRow(written, 0, columns);
      currentRow := row;
      new;
      RewriteOwnRow(file, 0, columns);
    }

    /** The dimensioned constructor `FileMatrix(rows, columns, name)`. Its
        `loadRow(0)` throws `out_of_range` when `rows == 0`, so no object
        results; otherwise the matrix is a fresh zero-filled file with row 0
        resident. */
    static method Create(rows: nat, columns: nat, name: string) returns (r: Result<FileMatrix>)
      ensures r.Failure? <==> rows == 0
      ensures r.Failure? ==> r.error == OutOfRange
      ensures r.Success? ==>
        fresh(r.value) && fresh(r.value.currentRow) && r.value.Valid() &&
        r.value.name == name && r.value.rows == rows && r.value.columns == columns &&
        WellFormed(r.value.file, rows, columns) &&
        (forall k :: HeaderCells <= k < |r.value.file| ==> r.value.file[k] == 0) &&
        r.value.currentRowNumber == 0 && r.value.Contents() == r.value.file
    {
      if rows == 0 {
        return Failure(OutOfRange);
      }
      var m := new FileMatrix.Sized(rows, columns, name);
      return Success(m);
    }

    /** `flush`: writes the resident buffer over the `columns` cells of its
        row and touches nothing else. */
    method Flush()
      requires Valid()
      modifies this`file
      ensures Valid()
      ensures currentRow == null ==> file == old(file)
      ensures currentRow != null ==>
        file == Overwrite(old(file), RowStart(currentRowNumber, columns), currentRow[..])
      ensures file == old(Contents()) && Contents() == old(Contents())
    {
      if currentRow != null {
        var at := RowStart(currentRowNumber, columns);
        if file != [] {
          OverwriteIdempotent(file, at, currentRow[..]);
        }
        file := Overwrite(file, at, currentRow[..]);
      }
    }

    /** `loadRow`: rejects a row index outside the matrix before touching
        anything; otherwise writes the resident row back (whichever row is
        requested, even the resident one) and reads row `indexOfRow` into a
        newly allocated buffer. */
    method LoadRow(indexOfRow: nat) returns (o: Outcome)
      requires Valid()
      modifies this`file, this`currentRow, this`currentRowNumber
      ensures Valid()
      ensures o.Fail? <==> indexOfRow >= rows
      ensures o.Fail? ==>
        o.error == OutOfRange && file == old(file) &&
        currentRow == old(currentRow) && currentRowNumber == old(currentRowNumber)
      ensures o.Pass? && old(currentRow) == null ==> file == old(file)
      ensures o.Pass? && old(currentRow) != null ==>
        file == Overwrite(old(file), RowStart(old(currentRowNumber), columns), old(currentRow[..]))
      ensures o.Pass? ==>
        currentRowNumber == indexOfRow && fresh(currentRow) &&
        currentRow[..] == RowOf(file, indexOfRow, columns) &&
        Contents() == old(Contents())
    {
      if indexOfRow >= rows {
        return Fail(OutOfRange);
      }
      if currentRow != null {
        Flush();
      }
      currentRowNumber := indexOfRow;
      RowFits(indexOfRow, rows, columns);
      var row := ReadRow(file, indexOfRow, columns);
      currentRow := row;
      RewriteOwnRow(file, indexOfRow, columns);
      return Pass;
    }

    /** `operator[]`, both forms: pages row `indexOfRow` in and returns the
        resident buffer, which holds that row of the matrix as the program
        last saw it. */
    method Index(indexOfRow: nat) returns (r: Result<array<int>>)
      requires Valid()
      modifies this`file, this`currentRow, this`currentRowNumber
      ensures Valid()
      ensures r.Failure? <==> indexOfRow >= rows
      ensures r.Failure? ==> r.error == OutOfRange && unchanged(this)
      ensures r.Success? ==>
        r.value == currentRow && fresh(r.value) && currentRowNumber == indexOfRow &&
        file == old(Contents()) && Contents() == old(Contents()) &&
        r.value[..] == RowOf(old(Contents()), indexOfRow, columns)
    {
      var o := LoadRow(indexOfRow);
      if o.Fail? {
        return Failure(o.error);
      }
      return Success(currentRow);
    }

    /** A write `matrix[row][column] = value` through the `T*` returned by
        `operator[]`: it changes the buffer only, and the matrix at exactly
        one cell of the resident row. */
    method SetCell(column: nat, value: int)
      requires Valid() && currentRow != null && column < columns
      modifies currentRow
      ensures Valid()
      ensures currentRow[..] == old(currentRow[..])[column := value]
      ensures file == old(file)
      ensures Contents() == old(Contents())[RowStart(currentRowNumber, columns) + column := value]
    {
      currentRow[column] := value;
      OverwriteCell(file, RowStart(currentRowNumber, columns), old(currentRow[..]), column, value);
    }

    /** `copy`: takes over the source's dimensions and resident row number,
        duplicates its file and gets a buffer of its own holding the
        source's resident row. The name is not changed. */
    method Copy(source: FileMatrix)
      requires source.Valid() && source != this
      modifies this`rows, this`columns, this`currentRowNumber, this`file, this`currentRow
      ensures Valid() && source.Valid()
      ensures name == old(name)
      ensures rows == source.rows && columns == source.columns
      ensures currentRowNumber == source.currentRowNumber && file == source.file
      ensures fresh(currentRow)
      ensures currentRow[..] == if source.currentRow == null then [] else source.currentRow[..]
      ensures Contents() == source.Contents()
    {
      rows, columns, currentRowNumber := source.rows, source.columns, source.currentRowNumber;
      file := source.file;
      var row := new int[columns];
      if source.currentRow != null {
        forall k | 0 <= k < columns {
          row[k] := source.currentRow[k];
        }
      }
      currentRow := row;
    }

    /** `copy` as written: like `Copy`, except that the new buffer has
        `rows_` elements and is filled from the first `rows_` elements of
        the source's buffer. `overRead` reports that this reads past the
        source's `columns_`-element buffer. The copied object keeps the
        invariant, whose buffer holds one row of `columns_` elements,
        exactly when the matrix is square. */
    method CopyAsWritten(source: FileMatrix) returns (overRead: bool)
      requires source.Valid() && source != this
      modifies this`rows, this`columns, this`currentRowNumber, this`file, this`currentRow
      ensures source.Valid() && name == old(name)
      ensures rows == source.rows && columns == source.columns
      ensures currentRowNumber == source.currentRowNumber && file == source.file
      ensures fresh(currentRow) && currentRow.Length == rows
      ensures overRead <==> rows > columns
      ensures var copied := CopiedRowAsWritten(if source.currentRow == null then [] else source.currentRow[..], rows);
        (overRead <==> copied.None?) && (copied.Some? ==> currentRow[..] == copied.value)
      ensures Valid() <==> rows == columns
    {
      rows, columns, currentRowNumber := source.rows, source.columns, source.currentRowNumber;
      file := source.file;
      var row := new int[rows];
      var copied := if rows <= columns then rows else columns;
      if source.currentRow != null {
        forall k | 0 <= k < copied {
          row[k] := source.currentRow[k];
        }
      }
      currentRow := row;
      overRead := rows > columns;
    }

    /** `move`: takes over the source's dimensions, resident row number,
        buffer and file, and leaves the source as a filename-only object.
        Neither name changes. */
    method Move(source: FileMatrix)
      requires source.Valid() && source != this
      modifies this`rows, this`columns, this`currentRowNumber, this`file, this`currentRow
      modifies source`rows, source`columns, source`currentRowNumber, source`file, source`currentRow
      ensures Valid() && source.Valid()
      ensures name == old(name) && source.name == old(source.name)
      ensures rows == old(source.rows) && columns == old(source.columns)
      ensures currentRowNumber == old(source.currentRowNumber)
      ensures currentRow == old(source.currentRow) && file == old(source.file)
      ensures Contents() == old(source.Contents())
      ensures source.rows == 0 && source.columns == 0 && source.currentRowNumber == 0
      ensures source.currentRow == null && source.file == []
    {
      rows, source.rows := source.rows, 0;
      columns, source.columns := source.columns, 0;
      currentRow, source.currentRow := source.currentRow, null;
      currentRowNumber, source.currentRowNumber := source.currentRowNumber, 0;
      file, source.file := source.file, [];
    }

    /** The copy constructor: a `_copy` sibling of the source's file. */
    constructor CopyOf(source: FileMatrix)
      requires source.Valid()
      ensures Valid() && source.Valid()
      ensures name == SiblingName(source.name, "_copy")
      ensures rows == source.rows && columns == source.columns
      ensures currentRowNumber == source.currentRowNumber && file == source.file
      ensures fresh(currentRow) && Contents() == source.Contents()
    {
      name := SiblingName(source.name, "_copy");
      new;
      Copy(source);
    }

    /** The move constructor: the source's file renamed to its `_move` sibling. */
    constructor MoveOf(source: FileMatrix)
      requires source.Valid()
      modifies source`rows, source`columns, source`currentRowNumber, source`file, source`currentRow
      ensures Valid() && source.Valid()
      ensures name == SiblingName(source.name, "_move") && source.name == old(source.name)
      ensures rows == old(source.rows) && columns == old(source.columns)
      ensures currentRowNumber == old(source.currentRowNumber)
      ensures currentRow == old(source.currentRow) && file == old(source.file)
      ensures Contents() == old(source.Contents())
      ensures source.rows == 0 && source.columns == 0 && source.currentRowNumber == 0
      ensures source.currentRow == null && source.file == []
    {
      name := SiblingName(source.name, "_move");
      new;
      Move(source);
    }

    /** Copy assignment: a no-op on itself, otherwise `copy` into this
        object's own file name. */
    method AssignCopy(source: FileMatrix)
      requires source.Valid()
      modifies this`rows, this`columns, this`currentRowNumber, this`file, this`currentRow
      ensures Valid() && source.Valid()
      ensures name == old(name)
      ensures this == source ==> unchanged(this)
      ensures this != source ==>
        rows == source.rows && columns == source.columns &&
        currentRowNumber == source.currentRowNumber && file == source.file &&
        fresh(currentRow) && Contents() == source.Contents()
    {
      if this != source {
        Copy(source);
      }
    }

    /** Move assignment: a no-op on itself, otherwise `move` into this
        object's own file name. */
    method AssignMove(source: FileMatrix)
      requires source.Valid()
      modifies this`rows, this`columns, this`currentRowNumber, this`file, this`currentRow
      modifies source`rows, source`columns, source`currentRowNumber, source`file, source`currentRow
      ensures Valid() && source.Valid()
      ensures name == old(name) && source.name == old(source.name)
      ensures this == source ==> unchanged(this)
      ensures this != source ==>
        rows == old(source.rows) && columns == old(source.columns) &&
        currentRowNumber == old(source.currentRowNumber) &&
        currentRow == old(source.currentRow) && file == old(source.file) &&
        source.rows == 0 && source.columns == 0 && source.currentRowNumber == 0 &&
        source.currentRow == null && source.file == []
    {
      if this != source {
        Move(source);
      }
    }

    /** `operator==`: equal dimensions, then the two files compared from
        their start. The resident buffers are not consulted. */
    function Equals(other: FileMatrix): (r: bool)
      reads this, currentRow, other, other.currentRow
      requires Valid() && other.Valid()
      ensures r <==> rows == other.rows && columns == other.columns && file == other.file
    {
      if rows != other.rows || columns != other.columns then false
      else SameBytes(file, other.file)
    }

    /** `operator!=`: the negation of `operator==`. */
    function NotEquals(other: FileMatrix): (r: bool)
      reads this, currentRow, other, other.currentRow
      requires Valid() && other.Valid()
      ensures r == !Equals(other)
      ensures r <==> rows != other.rows || columns != other.columns || file != other.file
    {
      !Equals(other)
    }
  }

  /** The resident row `copy` builds, as written: a buffer of `rows_`
      elements filled from the first `rows_` elements of the source's
      resident row. `None` when the source's row is shorter than `rows_`,
      where `std::copy` reads past the end of the source's buffer. */
  function CopiedRowAsWritten(sourceRow: seq<int>, rows: nat): (r: Option<seq<int>>)
    ensures r.None? <==> |sourceRow| < rows
    ensures r.Some? ==> |r.value| == rows && r.value == sourceRow[..rows]
    ensures r.Some? ==> (|r.value| == |sourceRow| <==> rows == |sourceRow|)
  {
    if |sourceRow| < rows then None else Some(sourceRow[..rows])
  }
}
