/** The binary layout of a matrix file, at the granularity of cells.

    Cell 0 holds `rows_`, cell 1 holds `columns_` (the two index-sized
    header fields); then come `rows_ * columns_` elements in row-major
    order. Byte offsets follow from an index size and an element size,
    see `ByteOffset`. */
module Layout {

  /** Number of header cells in front of the first element. */
  const HeaderCells: nat := 2

  /** `a * b` as repeated addition, so that proofs about offsets stay in
      linear arithmetic; `ProductIsMul` ties it to `*`. */
  function Product(a: nat, b: nat): nat
  {
    if a == 0 then 0 else Product(a - 1, b) + b
  }

  lemma {:induction false} ProductIsMul(a: nat, b: nat)
    ensures Product(a, b) == a * b
  {
    if a > 0 {
      ProductIsMul(a - 1, b);
    }
  }

  /** Cell at which row `i` starts in a file with `columns` columns. */
  function RowStart(i: nat, columns: nat): nat
  {
    HeaderCells + Product(i, columns)
  }

  /** A file that holds the header `rows`, `columns` and exactly
      `rows * columns` elements. */
  predicate WellFormed(file: seq<int>, rows: nat, columns: nat)
  {
    |file| == HeaderCells + Product(rows, columns) && file[0] == rows && file[1] == columns
  }

  /** The `columns` elements of row `i`. */
  function RowOf(file: seq<int>, i: nat, columns: nat): seq<int>
    requires RowStart(i, columns) + columns <= |file|
  {
    file[RowStart(i, columns)..RowStart(i, columns) + columns]
  }

  /** The file after writing `row` at cell `at`: the cells from `at` on are
      replaced by `row` and every other cell keeps its value. Writing no
      cells changes nothing, wherever `at` points. */
  function Overwrite(file: seq<int>, at: nat, row: seq<int>): (r: seq<int>)
    requires row == [] || at + |row| <= |file|
    ensures |r| == |file|
    ensures forall k :: 0 <= k < |file| && (k < at || at + |row| <= k) ==> r[k] == file[k]
    ensures forall k :: 0 <= k < |row| ==> r[at + k] == row[k]
  {
    if row == [] then file else file[..at] + row + file[at + |row|..]
  }

  /** Row `i` of a file of `rows` rows lies inside the file. */
  lemma {:induction false} RowFits(i: nat, rows: nat, columns: nat)
    requires i < rows
    ensures RowStart(i, columns) + columns <= HeaderCells + Product(rows, columns)
  {
    ProductMonotone(i + 1, rows, columns);
  }

  /** Rows `j < i` end before row `i` starts. */
  lemma {:induction false} RowsDisjoint(j: nat, i: nat, columns: nat)
    requires j < i
    ensures RowStart(j, columns) + columns <= RowStart(i, columns)
  {
    ProductMonotone(j + 1, i, columns);
  }

  lemma {:induction false} ProductMonotone(a: nat, b: nat, c: nat)
    requires a <= b
    ensures Product(a, c) <= Product(b, c)
  {
    if a < b {
      ProductMonotone(a, b - 1, c);
    }
  }

  /** Writing the same cells twice leaves what the second write wrote:
      a second write-back of an unchanged buffer is the same as one. */
  lemma OverwriteTwice(file: seq<int>, at: nat, first: seq<int>, second: seq<int>)
    requires at + |first| <= |file| && |second| == |first|
    ensures Overwrite(Overwrite(file, at, first), at, second) == Overwrite(file, at, second)
  {
  }

  /** Flushing twice has the effect of flushing once. */
  lemma OverwriteIdempotent(file: seq<int>, at: nat, row: seq<int>)
    requires at + |row| <= |file|
    ensures Overwrite(Overwrite(file, at, row), at, row) == Overwrite(file, at, row)
  {
    OverwriteTwice(file, at, row, row);
  }

  /** Reading row `i` after writing `row` there gives `row` back. */
  lemma ReadBack(file: seq<int>, i: nat, columns: nat, row: seq<int>)
    requires |row| == columns && RowStart(i, columns) + columns <= |file|
    ensures RowOf(Overwrite(file, RowStart(i, columns), row), i, columns) == row
  {
  }

  /** Writing row `i` leaves every other row of the file as it was. */
  lemma OtherRowsKept(file: seq<int>, rows: nat, columns: nat, i: nat, j: nat, row: seq<int>)
    requires |file| == HeaderCells + Product(rows, columns)
    requires i < rows && j < rows && i != j && |row| == columns
    ensures RowStart(i, columns) + columns <= |file| && RowStart(j, columns) + columns <= |file|
    ensures RowOf(Overwrite(file, RowStart(i, columns), row), j, columns) == RowOf(file, j, columns)
  {
    var si, sj := RowStart(i, columns), RowStart(j, columns);
    RowFits(i, rows, columns);
    RowFits(j, rows, columns);
    assert si + columns <= |file| && sj + columns <= |file|;
    if j < i {
      RowsDisjoint(j, i, columns);
    } else {
      RowsDisjoint(i, j, columns);
    }
    OverwriteElsewhere(file, si, row, sj, columns);
  }

  /** A write leaves a block of cells that it does not overlap unchanged. */
  lemma OverwriteElsewhere(file: seq<int>, at: nat, row: seq<int>, from: nat, len: nat)
    requires at + |row| <= |file| && from + len <= |file|
    requires from + len <= at || at + |row| <= from
    ensures Overwrite(file, at, row)[from..from + len] == file[from..from + len]
  {
  }

  /** Writing a row's own contents back changes nothing. */
  lemma RewriteOwnRow(file: seq<int>, i: nat, columns: nat)
    requires RowStart(i, columns) + columns <= |file|
    ensures Overwrite(file, RowStart(i, columns), RowOf(file, i, columns)) == file
  {
  }

  /** Changing one element of a buffer before it is written back changes
      exactly the corresponding cell of the written file. */
  lemma OverwriteCell(file: seq<int>, at: nat, row: seq<int>, c: nat, v: int)
    requires at + |row| <= |file| && c < |row|
    ensures Overwrite(file, at, row[c := v]) == Overwrite(file, at, row)[at + c := v]
  {
  }

  /** Byte offset of cell `cell` when an index field takes `indexSize`
      bytes and an element `elemSize` bytes. */
  function ByteOffset(cell: nat, indexSize: nat, elemSize: nat): nat
  {
    if cell < HeaderCells then cell * indexSize
    else HeaderCells * indexSize + (cell - HeaderCells) * elemSize
  }

  /** Row `i` starts at byte `2*sizeof(IndexType) + i*columns*sizeof(T)`. */
  lemma RowByteOffset(i: nat, columns: nat, indexSize: nat, elemSize: nat)
    ensures ByteOffset(RowStart(i, columns), indexSize, elemSize)
         == 2 * indexSize + i * columns * elemSize
  {
    ProductIsMul(i, columns);
  }

  /** A well-formed file is `2*sizeof(IndexType) + rows*columns*sizeof(T)` bytes long. */
  lemma FileByteSize(file: seq<int>, rows: nat, columns: nat, indexSize: nat, elemSize: nat)
    requires WellFormed(file, rows, columns)
    ensures ByteOffset(|file|, indexSize, elemSize) == 2 * indexSize + rows * columns * elemSize
  {
    ProductIsMul(rows, columns);
  }
}
