# Sparse infinite matrix and line utilities, in Dafny

This project models two headers of a small C++ exercise repository:

- `Matrix.h`: a sparse, logically infinite two-dimensional matrix,
  `Matrix<T, DefaultValue>`. The matrix keeps an ordered map from positions to
  values. A position without a cell reads as the default. Write-style
  indexing (`m[row][col]`) cannot tell whether the caller is about to
  assign, so it creates a default-valued slot and adds the position to a
  set of pending positions. The aggregate queries `size()`, `rows()` and
  `cols()` compact first. Compaction erases every pending cell that still
  holds the default. It grows the cached extents `m_rows`/`m_cols` for the
  pending cells that hold a significant value.
- `Utils.h`: `ltrim`, `rtrim`, `trim` and `normalizeLine`. The last one strips
  `'\r'` and `'\n'` from an input line. It then throws `std::logic_error`
  unless the line holds exactly `kTabsInLine` = 2 tabs.

`sparse_matrix.dfy` (module `SparseMatrix`) holds the matrix:
- `MatrixPos` is a datatype with `IsValid`, `Equals` (`operator==`) and
  `Less` (`operator<`).
- `Matrix` is a class whose fields are the source's state: the map `values`,
  the pending set `pending`, the extents `rows` and `cols`, and the constant
  `defaultValue`.
- `Valid()` is the class invariant the methods keep. The extents are never
  negative, and only stored positions are pending. Every cell that is not
  pending lies inside the extents.
- Compaction is specified by pure functions on the map: `Compacted`,
  `Survivors` and `Dropped`. The predicate `GrownTo` says that an extent is
  its old value grown by `std::max` over the extents the surviving cells
  need.
- In place of the C++ reference that write-style indexing returns, there are
  two methods. `Index` materialises the slot and marks it pending. `Assign`
  then writes through that slot.

`string_utils.dfy` (module `StringUtils`) holds the line helpers:
- Strings are `seq<char>` values. Each in-place edit is a method that returns
  the edited string.
- The `find_if` searches are loops. They are proved against
  `LeadingSpaces`/`TrailingStart`.
- `std::remove_if` runs in place on an `array<char>` (`RemoveLineBreaks`).
- `std::isspace` is the C-locale set: space, `\t`, `\n`, `\v`, `\f`, `\r`.
- The thrown `logic_error` is the `InvalidTabCount` outcome. The line is
  already cleaned when it happens, because the edit precedes the throw.

The model follows the code of `Matrix.h` as written. That code differs from
what `Matrix_test.h` expects:
- `insert` stores the default value like any other value. It never erases,
  so `InsertOfDefaultIsStored` proves that the size is 1 where
  `Matrix_test.h:12-14` expects 0.
- Extents only ever grow; nothing recomputes them downward.
- There is no iterator API.

## Model

| member | source | states |
|---|---|---|
| `SparseMatrix.MatrixPos.IsValid` | Matrix.h:18-20 | a valid position (both coordinates non-negative) is the origin or ordered after it, so the origin is the least valid position |
| `SparseMatrix.MatrixPos.Equals` | Matrix.h:22-24 | position equality holds exactly when the two pairs are equal |
| `SparseMatrix.MatrixPos.Less` | Matrix.h:26-29 | `a < b` iff `a.row < b.row`, or the rows are equal and `a.col < b.col` |
| `SparseMatrix.LessIsIrreflexive` | Matrix.h:26-29 | no position is less than itself |
| `SparseMatrix.LessIsTransitive` | Matrix.h:26-29 | the order is transitive |
| `SparseMatrix.LessIsTrichotomous` | Matrix.h:22-29 | exactly one of `a < b`, `a == b`, `b < a` holds |
| `SparseMatrix.Compacted` | Matrix.h:153-164 | compaction keeps every non-pending cell unchanged, keeps a pending cell exactly when its value differs from the default, never alters a kept value and adds no key |
| `SparseMatrix.CompactedPreservesLookup` | Matrix.h:151-168 | after compaction every position reads the same value (stored or default) as before |
| `SparseMatrix.CompactedSize` | Matrix.h:151-168 | compaction shrinks the cell count by exactly the number of pending cells that hold the default |
| `SparseMatrix.CompactedCovered` | Matrix.h:159-162 | every cell compaction keeps lies inside the extents once they are grown over the surviving pending cells |
| `SparseMatrix.CompactPending` | Matrix.h:153-164 | the loop over the pending set, in any order, yields exactly the compacted map, and extents that are the old ones grown by `max` to cover every surviving pending cell |
| `SparseMatrix.CompactedIsIdempotent` | Matrix.h:151-168 | compacting twice equals compacting once, and compacting with nothing pending changes nothing |
| `SparseMatrix.Matrix.constructor` | Matrix.h:170-175 | a new matrix has no cells, nothing pending and both extents 0 |
| `SparseMatrix.Matrix.Insert` | Matrix.h:105-110 | the cell at (row, col) becomes the value; every other position reads as before; the count grows by one only for a new position; the pending set is unchanged; the extents become `max(rows, row+1)` and `max(cols, col+1)` |
| `SparseMatrix.Matrix.At` | Matrix.h:115-121 | yields the stored value, else the default; without pending cells, any position outside the extents reads as the default |
| `SparseMatrix.Matrix.ConstIndex` | Matrix.h:75-82 | const indexing reads exactly what `at` reads |
| `SparseMatrix.Matrix.Index` | Matrix.h:49-57 | adds a default-valued cell only when the position is absent, leaves an existing value as it is, always adds the position to the pending set, changes no extent and no read, and yields the slot's value |
| `SparseMatrix.Matrix.Assign` | Matrix.h:56 | writing through the slot just handed out replaces that cell's value and nothing else |
| `SparseMatrix.Matrix.SolveUndeterminateValues` | Matrix.h:151-168 | afterwards nothing is pending; the map is the compaction of the old one; no previously pending cell holds the default; each extent is the old one grown by `max` to cover every surviving pending cell; no read changes; with nothing pending, nothing changes |
| `SparseMatrix.Matrix.Size` | Matrix.h:126-129 | compacts, then returns the cell count, which is the old count less the pending default cells |
| `SparseMatrix.Matrix.Rows` | Matrix.h:134-137 | compacts, then returns the row extent, never less than before |
| `SparseMatrix.Matrix.Cols` | Matrix.h:142-145 | compacts, then returns the column extent, never less than before |
| `SparseMatrix.SizeTwice` | Matrix.h:126-129 | two `size()` calls in a row on any valid matrix, pending cells included, return the same count |
| `SparseMatrix.RowsTwice` | Matrix.h:134-137 | two `rows()` calls in a row on any valid matrix, pending cells included, return the same extent |
| `SparseMatrix.ColsTwice` | Matrix.h:142-145 | two `cols()` calls in a row on any valid matrix, pending cells included, return the same extent |
| `SparseMatrix.InsertGrowsExtents` | Matrix_test.h:16-24 | inserting (40,40)->1 and (10,45)->2 gives size 2, rows 41, cols 46 |
| `SparseMatrix.InsertOfDefaultIsStored` | Matrix.h:105-110 | inserting the default at (40,40) still stores a cell: size 1, rows 41, cols 41 |
| `SparseMatrix.IndexThenCompact` | Matrix.h:49-57 | an indexed slot assigned 5 survives compaction, a slot only read is erased: the read yields 0, then size 1, rows 2, cols 2 |
| `StringUtils.IsSpace` | Utils.h:30-32 | the `find_if` predicate `std::isspace`, C locale: true exactly for the space and the characters from `'\t'` to `'\r'` |
| `StringUtils.LeadingSpaces` | Utils.h:30-32 | the index of the first non-whitespace character: everything before it is whitespace, and it is `|s|` or a non-whitespace position |
| `StringUtils.TrailingStart` | Utils.h:41-43 | the index just past the last non-whitespace character: everything from it on is whitespace, and it is 0 or follows a non-whitespace character |
| `StringUtils.LTrim` | Utils.h:29-38 | the `find_if` loop and erase yield `LTrimmed(s)` |
| `StringUtils.RTrim` | Utils.h:40-49 | the reverse `find_if` loop and erase yield `RTrimmed(s)` |
| `StringUtils.Trim` | Utils.h:51-56 | trim is rtrim after ltrim |
| `StringUtils.LTrimmedShape` | Utils.h:29-38 | ltrim yields a suffix of its input; for input with a non-whitespace character, the suffix starting at the first one; an all-whitespace or empty input is left unchanged |
| `StringUtils.RTrimmedShape` | Utils.h:40-49 | rtrim yields a prefix whose dropped tail is all whitespace and which is empty or ends in a non-whitespace character; it is empty exactly for all-whitespace input |
| `StringUtils.LTrimIsIdempotent` | Utils.h:29-38 | ltrim applied twice equals ltrim applied once |
| `StringUtils.RTrimIsIdempotent` | Utils.h:40-49 | rtrim applied twice equals rtrim applied once |
| `StringUtils.TrimmedShape` | Utils.h:51-56 | trim yields a contiguous slice of its input that neither starts nor ends with whitespace, empty exactly for all-whitespace input |
| `StringUtils.IsLineBreak` | Utils.h:60-62 | the `remove_if` lambda: true for `'\r'` and `'\n'`, each of which is also whitespace |
| `StringUtils.CountTabs` | Utils.h:67-69 | the `std::accumulate` fold equals the number of `'\t'` occurrences in the line |
| `StringUtils.WithoutLineBreaksAppend` | Utils.h:60-65 | removing line breaks from a concatenation concatenates the two results, so kept characters stay in their original order |
| `StringUtils.WithoutLineBreaksContents` | Utils.h:60-65 | no `'\r'` or `'\n'` remains, and every other character occurs as often as in the input |
| `StringUtils.WithoutLineBreaksKeepsCleanLine` | Utils.h:60-65 | a line without line breaks is left unchanged |
| `StringUtils.WithoutLineBreaksIsIdempotent` | Utils.h:60-65 | removing line breaks twice equals removing them once |
| `StringUtils.WithoutLineBreaksKeepsTabs` | Utils.h:60-69 | removing line breaks does not change the tab count, so the check counts the original line's tabs |
| `StringUtils.RemoveLineBreaks` | Utils.h:60-65 | the in-place `remove_if` leaves the line without line breaks in the buffer's front and returns its new end |
| `StringUtils.NormalizeLine` | Utils.h:58-76 | the line always comes back without line breaks; the outcome is a failure exactly when the input's tab count differs from 2, and then it carries the count found |

## Left out

- `main.cpp`, the demo driver, is only I/O and is not part of this model.
- The `std::cout` trace during compaction (Matrix.h:157) is logging with no effect on state.
- Write-style indexing returns a C++ reference into the map, through the proxies at Matrix.h:42-63 and 94-100. This is modelled as `Index` followed by `Assign`, which writes the slot. References kept across later calls, and their aliasing and lifetimes, are not modelled. `Assign` requires that the position is still pending, i.e. the handle was issued since the last compaction.
- The read through the proxy's reference is the value `Index` returns.
- `mutable`/`const` qualifiers (Matrix.h:171-175) are not modelled. The queries are methods that change state.
- The unused template flag `autoSolveUnterminatedValues` (Matrix.h:35) is not modelled.
- The iterator API, the erase-on-default insert and the downward extent rescan that `Matrix_test.h` expects have no counterpart in `Matrix.h`. The GoogleTest harness itself is not modelled.
- Compaction walks `std::set` in key order. `CompactPending` takes pending keys in any order, and its contract shows the result does not depend on the order. The loop works on local copies of the map and the extents, and `SolveUndeterminateValues` then writes them back; the effect is the same as the source's writes in place.
- Coordinates and extents are unbounded integers. The `int` overflow of `row + 1` and `col + 1`, and the `int` conversion of `size()`, are not modelled.
- Platform includes, the `UNUSED` macro and the `__PRETTY_FUNCTION__` shim (Utils.h:21-25, 78-82) are preprocessor glue.
- The text of the `logic_error` message (Utils.h:72-74) is not modelled. The outcome carries the expected and the found tab counts.
- Characters are Dafny `char`s. The `static_cast<int>` of a possibly negative `char` passed to `std::isspace` is not modelled.
