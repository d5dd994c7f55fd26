# FileMatrix: a disk-backed matrix with a one-row cache

This project models `FileMatrix<T, IndexType>`, a dense matrix that keeps
all of its elements in a binary file and holds only one row in memory. The
file starts with a header of `rows_` and `columns_`. After it come
`rows_ * columns_` elements in row-major order. `operator[]` pages a row
in. Before it does, it writes the resident row back, whatever row was asked
for. Copies duplicate the file into a `_copy` sibling. Moves hand the data
over to a `_move` sibling and reset the source to a name-only object.

How the model represents it:

- The backing file is a `seq<int>` of cells (module `Layout`). Cells 0
  and 1 are the header. Element `k` of the data is cell `2 + k`. Row `i`
  starts at cell `RowStart(i, columns) = 2 + i * columns`. `ByteOffset`
  turns a cell into a byte offset for any index size and element size.
  `RowByteOffset` and `FileByteSize` show that this gives the source's
  `2*sizeof(IndexType) + i*columns_*sizeof(T)` offset and file size.
- The element type `T` is `int`, and `T{}` is 0. `IndexType` is `nat`.
- `FileMatrices.FileMatrix` is a class with the source's fields: `name`
  (`filename_`), `rows`, `columns`, `file`, `currentRow` and
  `currentRowNumber`. `file` is what the object's stream reads. It is empty
  when no stream is open. `currentRow` is a heap array that may be null.
  `LoadRow` replaces it with a new array, and `Move` hands the same array
  over to the target.
- `Valid()` is the object invariant. A valid object is in one of two
  states. Unbound: no file, no dimensions. Bound: a well-formed file, at
  least one row, and a resident row of `columns` elements.
- `Contents()` is the matrix as the program sees it: the file with the
  resident buffer written back in its place. Paging (`LoadRow`, `Index`,
  `Flush`) never changes `Contents()`. `SetCell` changes exactly one cell
  of it. `Equals` compares the files, not `Contents()`.
- The `rows()`, `columns()` and `filename()` accessors are the fields
  `rows`, `columns` and `name`, read directly.
- `operator[]` has a const and a non-const form. Both behave the same way,
  and `Index` models both.
- A write `m[i][c] = v` through the returned `T*` is `SetCell(c, v)`
  after `Index(i)`. `SetCell` checks `c < columns` with a `requires`. The
  source does not check the column at all.

Behaviour of the code worth knowing, which the model follows:

- `loadRow` writes the resident row back and re-reads the requested row
  even when that row is already resident (FileMatrix.hpp:246-257), although
  the comment on `operator[]` (FileMatrix.hpp:112-113) speaks of doing so
  only when another row is in memory. `Usage.SameRowTwice` shows that the
  second access returns a new buffer.
- `setFilename` leaves the name unchanged when it has no `.`
  (FileMatrix.hpp:199-202). So the copy or move of a matrix whose name has
  no `.` targets the source's own path (`SiblingNameUnchanged`).
- The destructor closes the stream without a write-back
  (FileMatrix.hpp:272-275). Whatever `Contents()` holds beyond `file` is
  lost.
- Copy assignment and move assignment keep the target's own `filename_`
  (FileMatrix.hpp:315-329). Only the constructors derive a sibling name.

## Model

| member | source | states |
|---|---|---|
| `Layout.Overwrite` | zaj13FileMatrix/FileMatrix.hpp:135-140 | a write of a row buffer keeps the file's length, puts the buffer at the given cell and leaves every other cell as it was |
| `Layout.OverwriteIdempotent` | zaj13FileMatrix/FileMatrix.hpp:135-140 | writing the same buffer at the same place twice gives the same file as writing it once |
| `Layout.OverwriteTwice` | zaj13FileMatrix/FileMatrix.hpp:246-247 | of two write-backs to the same row, the second one decides the file |
| `Layout.RowFits` | zaj13FileMatrix/FileMatrix.hpp:252-257 | every row below `rows_` lies inside a file of `rows_` rows |
| `Layout.ReadBack` | zaj13FileMatrix/FileMatrix.hpp:246-257 | reading row `i` after writing a buffer there gives that buffer back |
| `Layout.OtherRowsKept` | zaj13FileMatrix/FileMatrix.hpp:135-137 | writing row `i` leaves every other row of the file unchanged |
| `Layout.RewriteOwnRow` | zaj13FileMatrix/FileMatrix.hpp:249-257 | writing a row's own contents back leaves the file unchanged |
| `Layout.OverwriteCell` | zaj13FileMatrix/FileMatrix.hpp:112-117 | changing one buffer element before write-back changes exactly the matching file cell |
| `Layout.RowByteOffset` | zaj13FileMatrix/FileMatrix.hpp:252-253 | row `i` starts at byte `2*sizeof(IndexType) + i*columns_*sizeof(T)` |
| `Layout.FileByteSize` | zaj13FileMatrix/FileMatrix.hpp:284-289 | a well-formed file is `2*sizeof(IndexType) + rows_*columns_*sizeof(T)` bytes long |
| `SiblingNames.LastDot` | zaj13FileMatrix/FileMatrix.hpp:199 | `rfind('.')`: `None` exactly when there is no `.`, otherwise the position of a `.` with none after it |
| `SiblingNames.SiblingName` | zaj13FileMatrix/FileMatrix.hpp:197-203 | with no `.` the name is unchanged; otherwise the suffix is inserted just before the last `.` |
| `SiblingNames.SiblingNameUnchanged` | zaj13FileMatrix/FileMatrix.hpp:197-203 | the derived name equals the original exactly when the suffix is empty or the name has no `.` |
| `SiblingNames.SiblingKeepsExtension` | zaj13FileMatrix/FileMatrix.hpp:197-203 | for a suffix without `.`, the derived name keeps the original extension after its last `.` |
| `SiblingNames.CopySiblingExample` | zaj13FileMatrix/FileMatrix.hpp:66-70 | `path/to/file/matrix100x100.matrix` gets the copy name `path/to/file/matrix100x100_copy.matrix` |
| `FileMatrices.WriteFreshFile` | zaj13FileMatrix/FileMatrix.hpp:283-291 | the fresh file holds the header `rows`, `columns`, then exactly `rows*columns` zero elements |
| `FileMatrices.ReadRow` | zaj13FileMatrix/FileMatrix.hpp:255-257 | a new buffer holds exactly the `columns_` elements of the requested row |
| `FileMatrices.SameBytes` | zaj13FileMatrix/FileMatrix.hpp:352-357 | `std::equal` over the first file: true exactly when the first file is a prefix of the second |
| `FileMatrices.FileMatrix.Named` | zaj13FileMatrix/FileMatrix.hpp:57-59 | keeps the name and zeroes everything else, with no open file and no buffer |
| `FileMatrices.FileMatrix.Sized` | zaj13FileMatrix/FileMatrix.hpp:278-295 | for `rows > 0`: a well-formed zero-filled file, with row 0 resident as a buffer of zeros |
| `FileMatrices.FileMatrix.Create` | zaj13FileMatrix/FileMatrix.hpp:278-295 | throws `out_of_range` exactly when `rows == 0`; otherwise gives a fresh valid zero-filled matrix with row 0 resident |
| `FileMatrices.FileMatrix.Flush` | zaj13FileMatrix/FileMatrix.hpp:133-140 | the buffer is written over its row's `columns_` cells and nothing else; the file then equals `Contents()`, which does not change |
| `FileMatrices.FileMatrix.LoadRow` | zaj13FileMatrix/FileMatrix.hpp:241-258 | an index `>= rows_` throws with nothing changed. Otherwise the resident row is written back at its old offset, `currentRowNumber_` becomes the index, a new buffer holds that row of the file, and `Contents()` is unchanged |
| `FileMatrices.FileMatrix.Index` | zaj13FileMatrix/FileMatrix.hpp:331-344 | throws for an index `>= rows_`; otherwise returns the resident buffer, which holds the requested row of `Contents()` as it was before the call |
| `FileMatrices.FileMatrix.SetCell` | zaj13FileMatrix/FileMatrix.hpp:112-117 | a write through the returned `T*` changes one buffer element and one cell of `Contents()`, and leaves the file alone |
| `FileMatrices.FileMatrix.Copy` | zaj13FileMatrix/FileMatrix.hpp:205-225 | the target gets the source's `rows_`, `columns_`, `currentRowNumber_` and file, plus a new buffer equal to the source's; the target's name and the source stay unchanged |
| `FileMatrices.FileMatrix.Move` | zaj13FileMatrix/FileMatrix.hpp:227-239 | the target gets the source's dimensions, row number, buffer (the same array) and file; the source is left with zeros, no buffer and no file; neither name changes |
| `FileMatrices.FileMatrix.CopyOf` | zaj13FileMatrix/FileMatrix.hpp:297-303 | the copy constructor: the `_copy` sibling name and the effect of `Copy` |
| `FileMatrices.FileMatrix.MoveOf` | zaj13FileMatrix/FileMatrix.hpp:305-311 | the move constructor: the `_move` sibling name and the effect of `Move` |
| `FileMatrices.FileMatrix.AssignCopy` | zaj13FileMatrix/FileMatrix.hpp:315-321 | self-assignment changes nothing; otherwise `Copy` happens under the target's own name |
| `FileMatrices.FileMatrix.AssignMove` | zaj13FileMatrix/FileMatrix.hpp:323-329 | self-assignment changes nothing; otherwise `Move` happens under the target's own name |
| `FileMatrices.FileMatrix.Equals` | zaj13FileMatrix/FileMatrix.hpp:346-361 | true exactly when the dimensions match and the two files are identical; the resident buffers are not consulted |
| `FileMatrices.FileMatrix.NotEquals` | zaj13FileMatrix/FileMatrix.hpp:125-128 | the negation of `Equals`: different dimensions or different files |
| `FileMatrices.CopiedRowAsWritten` | zaj13FileMatrix/FileMatrix.hpp:221-222 | the buffer `copy` builds as written: undefined (an over-read) exactly when the source's row is shorter than `rows_`, otherwise its first `rows_` elements, which have a row's length only when `rows_` equals the row's length |
| `FileMatrices.FileMatrix.CopyAsWritten` | zaj13FileMatrix/FileMatrix.hpp:205-225 | `copy` as written: a `rows_`-element buffer, an over-read exactly when `rows_ > columns_`, and a copied object that keeps the invariant exactly when `rows_ == columns_` |
| `Usage.PagingRoundTrip` | zaj13FileMatrix/FileMatrix.hpp:246-257 | a value written into row `i` is read back after row `j` and then row `i` have been paged in |
| `Usage.SameRowTwice` | zaj13FileMatrix/FileMatrix.hpp:246-257 | two accesses to the same row give that row of the matrix both times, the second one in a newly allocated buffer |
| `Usage.NameOnlyRejectsRows` | zaj13FileMatrix/FileMatrix.hpp:241-243 | a matrix built from a name alone throws `out_of_range` for every row index |
| `Usage.WriteCell` | zaj13FileMatrix/FileMatrix.hpp:332-337 | `m[i][column] = value` changes the matrix at exactly that cell, and the file holds the matrix as it was before the write |
| `Usage.ReadCell` | zaj13FileMatrix/FileMatrix.hpp:332-337 | `m[i][column]` yields that cell of the matrix and leaves the matrix unchanged |
| `Usage.RowOneWritten` | zaj13FileMatrix/FileMatrix.hpp:278-295 | a new 3 x 3 matrix whose row 1 is written cell by cell holds `[4, 5, 6]` in row 1 |
| `Usage.RowOneReadBack` | zaj13FileMatrix/FileMatrix.hpp:246-257 | after row 2 and then row 1 are paged in, the buffer holds `[4, 5, 6]` and the file holds it too |
| `Usage.EndToEnd` | zaj13FileMatrix/FileMatrix.hpp:346-361 | row 1 reads back as `[4, 5, 6]` and the matrix equals its copy. After an unflushed write it still compares equal; after `flush` it does not |

## Left out

- Stream mechanics are not modelled: seeking, `rdbuf` streaming, `fstream::flush` durability, stream failure states, and opening or closing the descriptor. A failed read or write is not modelled either.
- `std::rename` is not modelled as a filesystem call. A move transfers the file's contents to the target. In the code, `move` opens the target's own path before the rename (FileMatrix.hpp:233 and 236). In the move constructor that path is the `_move` sibling, which usually does not exist yet, so the target's stream does not open. In move assignment (`AssignMove`, FileMatrix.hpp:323-329) it is the target's existing file: the rename then replaces that path, but the target's stream stays on the old, unlinked file. The model gives the target the data in both cases.
- Buffer lifetime is not modelled. `LoadRow`, `Copy` and `Move` replace the resident buffer, and the code frees the old one (FileMatrix.hpp:221, 231 and 256). A `T*` returned by an earlier `operator[]` then dangles, and using it is undefined behaviour. In the model the old array stays allocated with its contents, so callers should read a row's contents before the next access, as `Usage.SameRowTwice` does.
- Move: the code never closes the source's stream, which stays open on the renamed file. The model treats it as released (`file == []`), as for a name-only object.
- There is no filesystem that maps names to files. Two objects bound to the same path are independent in the model. This includes the copy of a name without `.`, which in the code truncates the source's own file.
- The bytes behind the cells are not modelled: `reinterpret_cast`, `sizeof`, endianness and native widths. `IndexType` overflow and the `int` counter of the fill loop (FileMatrix.hpp:288) are not modelled either.
- `Create`: the code writes and truncates the file named `newFileName` before `loadRow(0)` throws for `rows == 0`. That file is not modelled.
- The iterator and `begin`/`end` are commented out and return nothing (FileMatrix.hpp:145-193), so they are not modelled.
- `operator*=` is declared (FileMatrix.hpp:131) but has no definition, so it is not modelled.
- Column access through the returned `T*` is unchecked in the code. The model only allows writes with `column < columns`, and a write past the row is not modelled.
- The destructor (FileMatrix.hpp:272-275) is not modelled. It releases the stream and the buffer without a write-back, so unflushed changes are lost.
- `const` and `mutable` are not modelled. Both `operator[]` forms page rows in.

## Findings

| source | as written | input that shows it | evidently intended | confidence | as-written member | corrected member |
|---|---|---|---|---|---|---|
| zaj13FileMatrix/FileMatrix.hpp:220-222 | `copy` allocates the new resident row with `rows_` elements and copies `rows_` elements from the source's buffer, which holds `columns_` | a 1 x 2 matrix: the copy's buffer holds one element, and its next write-back writes two. A 2 x 1 matrix makes `std::copy` read past the source's buffer | allocate and copy `columns_` elements | high, not executed | `FileMatrices.CopiedRowAsWritten`, `FileMatrices.FileMatrix.CopyAsWritten` | `FileMatrices.FileMatrix.Copy` |
