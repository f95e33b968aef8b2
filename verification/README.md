# CCS sparse byte matrix

A Dafny model of `CCSByteMatrix`, the compressed-column-storage (CCS) matrix of
bytes in OpenRQ's linear-algebra package. The model has three kinds of member.

**Storage.** A matrix keeps three parallel buffers and a count of the entries in use:

- `values`: the stored bytes;
- `rowIndices`: the row of each stored byte;
- `columnPointers`: the offset where each column starts, plus one final end offset;
- `cardinality`: the number of live entries.

`Valid` says what a well-formed matrix looks like:

- the pointers start at 0, never decrease, and end at `cardinality`;
- within a column, rows strictly increase and lie in `[0, rows)`;
- no zero byte is stored;
- `cardinality` fits in the buffers.

**Reading.** The meaning of a matrix is `Cell(m, i, j)`. It is the byte stored for row
`i` in column `j`, or 0 when none is stored.

**Operations.** Every operation is a pure function or method on the immutable `Matrix`
datatype. Each is specified against `Cell`, so a mutation of the Java object becomes a
new matrix here. Callbacks are modelled as follows:

- a `MatrixProcedure` becomes the sequence of `(row, column, value)` triples it would
  receive;
- a `MatrixFunction` becomes a pure function `(i, j, v) -> v'`;
- a `MatrixSource` becomes a pure function `(i, j) -> byte`.

Modules:

- `CcsStorage` (storage.dfy): the data model, the invariant, the cell reading, and the
  column-major list of stored entries. `Assemble` builds a matrix from a list of
  columns.
- `CcsSearch` (search.dfy): `searchForRowIndex`, the lower-bound search.
- `CcsCapacity` (capacity.dfy): `align`, `capacity()` and `growup`. The 32-bit
  wrap of `growup`'s target is written out as a separate as-written target; `Growup`
  itself uses the corrected target (see "## Findings").
- `CcsPoint` (point.dfy): `insert`, `remove`, `safeGet`, `safeSet`, `safeUpdate`,
  `nonZeroAt` and `nonZerosInColumn`.
- `CcsTraversal` (traversal.dfy): the `each*` visitors and the `update*` rewriters.
  The rewriters delete entries while the scan is running.
- `CcsBuild` (build.dfy): the `MatrixSource` constructor and `select`.
- `CcsResize` (resize.dfy): `copy` and `resize`.
- `CcsCodec` (codec.dfy): `writeExternal` and `readExternal` over a record stream.

Several Java methods carry a defect (see "## Findings"). For each one the model
gives an as-written version and a corrected one. The rest of the model uses the
corrected one.

## Model

All source paths are relative to the repository root. `J` below stands for
`src/main/net/fec/openrq/util/linearalgebra/matrix/sparse/CCSByteMatrix.java`, and every
row cites that file.

| member | source | states |
|---|---|---|
| CcsStorage.EntriesAreCells | src/main/net/fec/openrq/util/linearalgebra/matrix/sparse/CCSByteMatrix.java:361-371 | The column-major list of stored entries contains a triple exactly when its column is in range, its value is non-zero and the cell reads that value (both directions). |
| CcsStorage.CardinalityBelowCells | src/main/net/fec/openrq/util/linearalgebra/matrix/sparse/CCSByteMatrix.java:634-640 | If a valid matrix has a zero cell, its cardinality is below `rows*columns`. So an insert never meets a full dense buffer. |
| CcsStorage.AssembleValid | src/main/net/fec/openrq/util/linearalgebra/matrix/sparse/CCSByteMatrix.java:141-155 | Laying well-formed columns end to end, with pointers at their boundaries, gives a valid matrix whose columns are exactly those given. |
| CcsSearch.LinearScan | src/main/net/fec/openrq/util/linearalgebra/matrix/sparse/CCSByteMatrix.java:565-573 | The linear branch for short ranges returns the first offset whose row is at least `i`, or `right` if there is none. |
| CcsSearch.SearchForRowIndex | src/main/net/fec/openrq/util/linearalgebra/matrix/sparse/CCSByteMatrix.java:559-586 | On a strictly increasing range, returns `k` in `[left, right]`: every row before `k` is below `i`, and either `k == right` or `rowIndices[k] >= i`. |
| CcsSearch.SearchForRowIndexAsWritten | src/main/net/fec/openrq/util/linearalgebra/matrix/sparse/CCSByteMatrix.java:559-586 | The Java search with its 32-bit midpoint. It fails with an index error only when the slice ends past 2^30, so that `left + right` can pass `Integer.MAX_VALUE`. A success lies in `[left, right]`. |
| CcsSearch.Midpoint | src/main/net/fec/openrq/util/linearalgebra/matrix/sparse/CCSByteMatrix.java:575 | The 32-bit midpoint `(left + right) / 2` equals the true midpoint while the sum fits in an `int`, and is negative once it does not. |
| CcsSearch.SearchAgrees | src/main/net/fec/openrq/util/linearalgebra/matrix/sparse/CCSByteMatrix.java:559-586 | On a strictly increasing slice ending at or below 2^30, the Java search succeeds with the corrected lower bound. |
| CcsSearch.SearchMidpointWraps | src/main/net/fec/openrq/util/linearalgebra/matrix/sparse/CCSByteMatrix.java:575-577 | For a slice at offsets `[1100000000, 1100000016)`, the Java search fails on its first midpoint. The corrected search returns the lower bound 1100000000. |
| CcsSearch.LocateMeaning | src/main/net/fec/openrq/util/linearalgebra/matrix/sparse/CCSByteMatrix.java:158-167 | For the located offset `k`: `Cell(i, j)` is `values[k]` when `rowIndices[k] == i`, and 0 otherwise. Rows before `k` are below `i` and rows after it are above `i`. |
| CcsSearch.LocateAgrees | src/main/net/fec/openrq/util/linearalgebra/matrix/sparse/CCSByteMatrix.java:158-160 | While the buffers hold at most 2^30 entries, the search the point operations run finds exactly `Locate`'s offset. |
| CcsCapacity.Wrap32 | src/main/net/fec/openrq/util/linearalgebra/matrix/sparse/CCSByteMatrix.java:646 | The 32-bit two's-complement reduction: in the `int` range and congruent to the input modulo 2^32. |
| CcsCapacity.JavaDiv | src/main/net/fec/openrq/util/linearalgebra/matrix/sparse/CCSByteMatrix.java:660 | Java's integer division, which truncates toward zero for both signs. |
| CcsCapacity.Align | src/main/net/fec/openrq/util/linearalgebra/matrix/sparse/CCSByteMatrix.java:658-661 | For `c >= 0` the aligned size is a multiple of 32 with `c < align(c) <= c + 32`. |
| CcsCapacity.DenseCap | src/main/net/fec/openrq/util/linearalgebra/matrix/sparse/CCSByteMatrix.java:641-645 | The dense bound is `rows*columns` when that fits in an `int`, and `Integer.MAX_VALUE` otherwise. |
| CcsCapacity.OverflowTest | src/main/net/fec/openrq/util/linearalgebra/matrix/sparse/CCSByteMatrix.java:642 | The guard `columns > MAX_VALUE / rows` holds exactly when `rows*columns` overflows. |
| CcsCapacity.GrowthTargetsAgree | src/main/net/fec/openrq/util/linearalgebra/matrix/sparse/CCSByteMatrix.java:641-646 | While `3*cardinality` fits in an `int`, the 32-bit growth target equals the unbounded one. |
| CcsCapacity.GrowthTargetOverflows | src/main/net/fec/openrq/util/linearalgebra/matrix/sparse/CCSByteMatrix.java:646 | For a 65536x65536 matrix holding 715827883 entries, the Java code's target is negative, while the intended target is 1073741825. |
| CcsCapacity.GrowLength | src/main/net/fec/openrq/util/linearalgebra/matrix/sparse/CCSByteMatrix.java:634-656 | Growth fails (`CannotGrow`) exactly when the buffer already has the capped dense length. Otherwise the new length lies in `[cardinality, min(rows*columns, MAX_VALUE)]` and is strictly larger than `cardinality` whenever `cardinality` is below the capped dense length. |
| CcsCapacity.Growup | src/main/net/fec/openrq/util/linearalgebra/matrix/sparse/CCSByteMatrix.java:634-656 | Growth fails exactly when the buffers have `capacity()` entries. Otherwise the result is valid, has the same cells, pointers and cardinality, keeps the live prefix of both buffers, and has room for one more entry whenever `cardinality < capacity()`. |
| CcsPoint.ShiftInColumns | src/main/net/fec/openrq/util/linearalgebra/matrix/sparse/CCSByteMatrix.java:598-611 | Shifting the buffer tail right by one and bumping the pointers after `j` splices the new slot into column `j` at offset `k`. Every other column is untouched. |
| CcsPoint.InsertNonZero | src/main/net/fec/openrq/util/linearalgebra/matrix/sparse/CCSByteMatrix.java:588-615 | Inserting a non-zero value at the slot `Locate` finds for an absent cell yields a valid matrix with one more stored entry. Every pointer after column `j` moves up by one. `Slot(i, v)` is spliced into column `j` at offset `k - columnPointers[j]` and every other column is unchanged. |
| CcsPoint.Insert | src/main/net/fec/openrq/util/linearalgebra/matrix/sparse/CCSByteMatrix.java:588-615 | Inserting 0 changes nothing. Inserting a non-zero value at the located offset keeps the matrix valid and adds 1 to the cardinality. Only pointers `j+1..columns` are incremented. Column `j` gains exactly the new slot and every other column is unchanged. |
| CcsPoint.Grown | src/main/net/fec/openrq/util/linearalgebra/matrix/sparse/CCSByteMatrix.java:593-595 | Growing before an insert keeps validity, the cells, the pointers and the cardinality, and leaves a free slot. |
| CcsPoint.InsertKeepsValid | src/main/net/fec/openrq/util/linearalgebra/matrix/sparse/CCSByteMatrix.java:588-615 | The shifted matrix satisfies every CCS invariant. |
| CcsPoint.SortedInsert | src/main/net/fec/openrq/util/linearalgebra/matrix/sparse/CCSByteMatrix.java:604-606 | Placing a row between smaller and larger rows keeps a column strictly increasing and free of zeros. |
| CcsPoint.Remove | src/main/net/fec/openrq/util/linearalgebra/matrix/sparse/CCSByteMatrix.java:617-632 | Removing offset `k` of column `j` keeps the matrix valid and subtracts 1 from the cardinality. Only pointers `j+1..columns` are decremented. Column `j` loses exactly that slot and every other column is unchanged. |
| CcsPoint.Overwrite | src/main/net/fec/openrq/util/linearalgebra/matrix/sparse/CCSByteMatrix.java:177-180 | Overwriting a stored entry with a non-zero byte keeps validity and pointers, and changes only that slot's value. |
| CcsPoint.SafeGet | src/main/net/fec/openrq/util/linearalgebra/matrix/sparse/CCSByteMatrix.java:158-167 | The value returned is the cell. |
| CcsPoint.NonZeroAt | src/main/net/fec/openrq/util/linearalgebra/matrix/sparse/CCSByteMatrix.java:324-330 | True exactly when the cell is non-zero. |
| CcsPoint.PointWriteCells | src/main/net/fec/openrq/util/linearalgebra/matrix/sparse/CCSByteMatrix.java:170-186 | A column edit that touches only row `i`'s slot changes only cell `(i, j)`, and that cell then reads the written value. |
| CcsPoint.SafeSet | src/main/net/fec/openrq/util/linearalgebra/matrix/sparse/CCSByteMatrix.java:170-186 | After `safeSet(i, j, v)` the matrix is valid and cell `(i, j)` reads `v`. Every other cell is unchanged. The cardinality moves by +1, -1 or 0 as a zero cell becomes non-zero, a non-zero cell becomes zero, or neither. Setting 0 on a zero cell leaves the matrix identical. |
| CcsPoint.SafeSetEffect | src/main/net/fec/openrq/util/linearalgebra/matrix/sparse/CCSByteMatrix.java:172-185 | The three branches (remove, overwrite, insert) each give the get/set round trip, leave the other cells alone, and give the cardinality change. |
| CcsPoint.RemovedCells | src/main/net/fec/openrq/util/linearalgebra/matrix/sparse/CCSByteMatrix.java:174-176 | Removing the located entry zeroes that cell and no other. |
| CcsPoint.OverwrittenCells | src/main/net/fec/openrq/util/linearalgebra/matrix/sparse/CCSByteMatrix.java:177-180 | Overwriting the located entry sets that cell and no other. |
| CcsPoint.InsertedCells | src/main/net/fec/openrq/util/linearalgebra/matrix/sparse/CCSByteMatrix.java:182-184 | Inserting at the located gap sets that cell and no other. |
| CcsPoint.SafeUpdate | src/main/net/fec/openrq/util/linearalgebra/matrix/sparse/CCSByteMatrix.java:436-453 | After `safeUpdate(i, j, f)` cell `(i, j)` reads `f(i, j, old cell)`, every other cell is unchanged, and the matrix stays valid. |
| CcsPoint.NonZerosInColumn | src/main/net/fec/openrq/util/linearalgebra/matrix/sparse/CCSByteMatrix.java:332-337 | The pointer difference equals the number of rows whose cell in column `j` is non-zero. |
| CcsPoint.NonZerosInColumnRange | src/main/net/fec/openrq/util/linearalgebra/matrix/sparse/CCSByteMatrix.java:339-357 | The early-exit scan counts exactly the non-zero rows of column `j` in `[fromRow, toRow)`. |
| CcsTraversal.EachNonZero | src/main/net/fec/openrq/util/linearalgebra/matrix/sparse/CCSByteMatrix.java:361-371 | The procedure receives exactly the stored triples, in column-major, row-ascending order. This holds even though the loop is driven by a count, not by the column bound. |
| CcsTraversal.Each | src/main/net/fec/openrq/util/linearalgebra/matrix/sparse/CCSByteMatrix.java:373-389 | The procedure receives every `(i, j, Cell(i, j))`, zeros included, column by column with rows ascending. |
| CcsTraversal.EachInColumn | src/main/net/fec/openrq/util/linearalgebra/matrix/sparse/CCSByteMatrix.java:391-406 | The procedure receives `(i, j, Cell(i, j))` for every row of column `j`, in order. |
| CcsTraversal.EachNonZeroInColumn | src/main/net/fec/openrq/util/linearalgebra/matrix/sparse/CCSByteMatrix.java:408-415 | The procedure receives exactly the stored entries of column `j`, rows ascending. A triple is among them exactly when its column is `j`, its value is non-zero and cell `(row, j)` reads that value. |
| CcsTraversal.ColumnEntriesAreCells | src/main/net/fec/openrq/util/linearalgebra/matrix/sparse/CCSByteMatrix.java:408-415 | The stored triples of column `j` are exactly its non-zero cells, both directions, stated against `Cell`. |
| CcsTraversal.EachNonZeroInColumnRange | src/main/net/fec/openrq/util/linearalgebra/matrix/sparse/CCSByteMatrix.java:417-434 | The procedure receives exactly the stored entries of column `j` whose row lies in `[fromRow, toRow)`, rows ascending. The early break loses nothing. |
| CcsTraversal.MapSlotsLookup | src/main/net/fec/openrq/util/linearalgebra/matrix/sparse/CCSByteMatrix.java:494-518 | After rewriting a column, a row in scope with a stored value reads `f(i, j, v)`, and every other row reads as before. |
| CcsTraversal.MapSlotsSorted | src/main/net/fec/openrq/util/linearalgebra/matrix/sparse/CCSByteMatrix.java:480-489 | Rewriting with deletions keeps a column strictly increasing. |
| CcsTraversal.UpdatedCells | src/main/net/fec/openrq/util/linearalgebra/matrix/sparse/CCSByteMatrix.java:494-518 | The cells of a rewritten column, in terms of the old cells: `f` applied to non-zero cells in range, and everything else kept. |
| CcsTraversal.UpdateColumn | src/main/net/fec/openrq/util/linearalgebra/matrix/sparse/CCSByteMatrix.java:459-472 | One column of the in-flight deleting scan. `f` is called once per stored entry in row order. Entries mapped to 0 are removed and the rest are overwritten. Other columns are kept, and the running count ends at the column's new end pointer. |
| CcsTraversal.RewriteSlot | src/main/net/fec/openrq/util/linearalgebra/matrix/sparse/CCSByteMatrix.java:480-488 | One visited slot: the function sees that slot's row, column and value. Afterwards the buffers agree with the reference rewrite of one more entry: removed when the function returns 0, overwritten otherwise. The distance to the column's end pointer drops by exactly one, so every stored entry is visited once. |
| CcsTraversal.UpdateNonZeroInColumn | src/main/net/fec/openrq/util/linearalgebra/matrix/sparse/CCSByteMatrix.java:476-492 | `f` is evaluated exactly once on each stored entry of column `j`, in row order. Afterwards each cell reads `f(i, j, v)` where it held `v != 0` and 0 elsewhere. The other columns are unchanged and the matrix stays valid. |
| CcsTraversal.UpdateNonZeroInColumnRange | src/main/net/fec/openrq/util/linearalgebra/matrix/sparse/CCSByteMatrix.java:494-518 | The same as above, restricted to stored rows in `[fromRow, toRow)`. Rows outside the range keep their values. |
| CcsTraversal.UpdateNonZero | src/main/net/fec/openrq/util/linearalgebra/matrix/sparse/CCSByteMatrix.java:455-474 | `f` is evaluated once on every stored entry, in column-major order. Every non-zero cell becomes `f` of itself and zero cells stay zero. The `k--`/`nonZeroCount--` fix-up skips nothing and the loop terminates. |
| CcsBuild.SourceColumnLookup | src/main/net/fec/openrq/util/linearalgebra/matrix/sparse/CCSByteMatrix.java:108-120 | The column gathered from a source reads `src(i, j)` for every row in range and 0 outside. |
| CcsBuild.CountExchange | src/main/net/fec/openrq/util/linearalgebra/matrix/sparse/CCSByteMatrix.java:761-767 | Counting non-zeros row by row gives the same total as the column-major layout's length. |
| CcsBuild.FromSource | src/main/net/fec/openrq/util/linearalgebra/matrix/sparse/CCSByteMatrix.java:103-125 | The `MatrixSource` constructor, growing on demand with the corrected growth target, fails with `CannotGrow` exactly when the source holds more than `Integer.MAX_VALUE` non-zero cells. Otherwise it yields a valid matrix whose every cell equals the source's value, and its cardinality is the number of non-zero source values. |
| CcsBuild.CountSelected | src/main/net/fec/openrq/util/linearalgebra/matrix/sparse/CCSByteMatrix.java:758-767 | The counting pass of `select` returns the number of non-zero selected cells reduced to a 32-bit `int`, as the `int` counter wraps. |
| CcsBuild.FillSelected | src/main/net/fec/openrq/util/linearalgebra/matrix/sparse/CCSByteMatrix.java:769-786 | Given a length no larger than the number of non-zero cells, the fill pass fails with an index error exactly when the length is smaller, as the write past the buffer end throws. Otherwise it builds a valid matrix whose cell `(a, b)` is the picked value, with buffers exactly full. |
| CcsBuild.FillCells | src/main/net/fec/openrq/util/linearalgebra/matrix/sparse/CCSByteMatrix.java:108-120 | The inner loop over the rows of column `j` appends that column's non-zero source cells to the buffers, in row order, on top of the earlier columns. Full buffers are grown first, and the count stays equal to the number of stored cells. It stops only when the buffers cannot grow, which needs more than `Integer.MAX_VALUE` non-zero cells in the whole source. |
| CcsBuild.Select | src/main/net/fec/openrq/util/linearalgebra/matrix/sparse/CCSByteMatrix.java:747-790 | Selection fails with `NoSelection` when a list is empty. It also fails when the selection holds more than `Integer.MAX_VALUE` non-zero cells: with `NegativeArraySize` when the 32-bit count wraps negative, and with an index error when it wraps to a shorter length. Otherwise it yields a valid `|rowList| x |columnList|` matrix with `Cell(a, b) == Cell(m, rowList[a], columnList[b])`, even when the lists repeat or reorder indices. Its buffers are exactly full. |
| CcsResize.Copy | src/main/net/fec/openrq/util/linearalgebra/matrix/sparse/CCSByteMatrix.java:242-253 | The copy is valid and holds the same cells, pointers and cardinality, in a buffer of aligned length. |
| CcsResize.Leading | src/main/net/fec/openrq/util/linearalgebra/matrix/sparse/CCSByteMatrix.java:278-285 | The inner truncation loop keeps the longest prefix of a column whose rows are below the new row count, and stops at the first row that is not. |
| CcsResize.LeadingLookup | src/main/net/fec/openrq/util/linearalgebra/matrix/sparse/CCSByteMatrix.java:278-285 | The kept prefix reads the old value for rows below the new row count, and 0 beyond it. |
| CcsResize.TruncateFromAssembles | src/main/net/fec/openrq/util/linearalgebra/matrix/sparse/CCSByteMatrix.java:273-290 | The corrected truncation loop lays the truncated columns end to end, with pointers at their boundaries. |
| CcsResize.Truncate | src/main/net/fec/openrq/util/linearalgebra/matrix/sparse/CCSByteMatrix.java:264-290 | Shrinking keeps the matrix valid at the new shape. `Cell(i, c)` is the old cell for `i < rows'` and 0 beyond. |
| CcsResize.TruncateAgrees | src/main/net/fec/openrq/util/linearalgebra/matrix/sparse/CCSByteMatrix.java:273-288 | When the Java loop's `k < cardinality` guard cannot end it before the last column, the as-written truncation equals the corrected one. |
| CcsResize.TruncateStopsEarly | src/main/net/fec/openrq/util/linearalgebra/matrix/sparse/CCSByteMatrix.java:273-288 | On a 1x4 matrix with entries in columns 0 and 1, the Java code's 1x3 truncation leaves pointers `[0, 1, 0, 2]`, which are not monotone. The corrected one keeps both entries. |
| CcsResize.ExtendColumnsAsWritten | src/main/net/fec/openrq/util/linearalgebra/matrix/sparse/CCSByteMatrix.java:292-309 | The Java code's column-growing branch keeps every old column and adds empty ones. Its result is valid exactly when no stored row reaches the new row count. |
| CcsResize.ExtendColumns | src/main/net/fec/openrq/util/linearalgebra/matrix/sparse/CCSByteMatrix.java:292-309 | Growing columns (after dropping rows beyond the new row count) yields a valid matrix. Old cells in range are kept and the new columns are empty. |
| CcsResize.Resize | src/main/net/fec/openrq/util/linearalgebra/matrix/sparse/CCSByteMatrix.java:256-321 | For every new shape the result is valid. `Cell(i, c)` is the old cell when `i` and `c` are both within the old and new bounds, and 0 otherwise. |
| CcsResize.ResizeAsWritten | src/main/net/fec/openrq/util/linearalgebra/matrix/sparse/CCSByteMatrix.java:256-321 | The Java code's dispatch fails with an index error exactly when rows grow while columns shrink. Otherwise it has the new shape. |
| CcsResize.ResizeAgrees | src/main/net/fec/openrq/util/linearalgebra/matrix/sparse/CCSByteMatrix.java:256-309 | When neither dimension shrinks, or on a shrink the loop does not cut short, the Java code's resize equals the corrected one. |
| CcsResize.ExtendKeepsDroppedRows | src/main/net/fec/openrq/util/linearalgebra/matrix/sparse/CCSByteMatrix.java:292-309 | Resizing a 2x1 matrix with an entry in row 1 to 1x2 gives an invalid matrix in the Java code. The corrected resize drops the entry. |
| CcsResize.RowsGrowColumnsShrink | src/main/net/fec/openrq/util/linearalgebra/matrix/sparse/CCSByteMatrix.java:311-320 | Resizing a 1x4 matrix to 2x3 fails in the Java code. The corrected resize keeps the entries of the remaining columns. |
| CcsCodec.WriteExternal | src/main/net/fec/openrq/util/linearalgebra/matrix/sparse/CCSByteMatrix.java:521-536 | The stream holds the header and then exactly the stored triples in column-major order, one per unit of cardinality. |
| CcsCodec.ReadRecords | src/main/net/fec/openrq/util/linearalgebra/matrix/sparse/CCSByteMatrix.java:550-555 | The record loop succeeds exactly when the stream holds enough records and each column is in `[-1, columns)`. Otherwise it fails with end-of-stream or an index error. |
| CcsCodec.ReadExternalAsWritten | src/main/net/fec/openrq/util/linearalgebra/matrix/sparse/CCSByteMatrix.java:539-556 | The Java decoder fails with a negative array size when `align(cardinality)` or `columns + 1` wraps negative. Otherwise it succeeds exactly when the records can be read, and it keeps the header's dimensions. |
| CcsCodec.FillForward | src/main/net/fec/openrq/util/linearalgebra/matrix/sparse/CCSByteMatrix.java:555 | The running maximum of the pointers read is monotone and dominates them. It is the identity on an already monotone array. |
| CcsCodec.FillForwardRestores | src/main/net/fec/openrq/util/linearalgebra/matrix/sparse/CCSByteMatrix.java:555 | Taking the running maximum of the decoded pointers recovers the original pointers, even when empty columns left zeros in them. |
| CcsCodec.ReadExternal | src/main/net/fec/openrq/util/linearalgebra/matrix/sparse/CCSByteMatrix.java:539-556 | The corrected decoder succeeds and fails exactly as the Java decoder does, with the same failure kind and the same dimensions. |
| CcsCodec.ReadWritten | src/main/net/fec/openrq/util/linearalgebra/matrix/sparse/CCSByteMatrix.java:521-556 | Decoding a written matrix with the Java decoder restores the live buffers. A pointer is restored where its column is non-empty and left 0 where it is empty. |
| CcsCodec.RoundTripAsWritten | src/main/net/fec/openrq/util/linearalgebra/matrix/sparse/CCSByteMatrix.java:521-556 | When no empty column follows a stored entry, the Java decoder gives back a valid matrix with the same contents and pointers. |
| CcsCodec.RoundTrip | src/main/net/fec/openrq/util/linearalgebra/matrix/sparse/CCSByteMatrix.java:521-556 | For every valid matrix, decoding its encoding with the corrected decoder gives back a valid matrix with the same contents and pointers. |
| CcsCodec.RoundTripCells | src/main/net/fec/openrq/util/linearalgebra/matrix/sparse/CCSByteMatrix.java:521-556 | Every cell survives the encode/decode round trip. |
| CcsCodec.ReadLosesTrailingPointer | src/main/net/fec/openrq/util/linearalgebra/matrix/sparse/CCSByteMatrix.java:555 | For a 1x2 matrix whose only entry is in column 0, the Java decoder leaves pointers `[0, 1, 0]`, which is not a valid shape. The corrected decoder gives `[0, 1, 1]`. |

## Left out

- `getColumn`/`getRow` (J:188-239) return foreign vector types and are not modelled. Their contents are `Cell` along a column or row.
- `max`, `min`, `maxInColumn` and `minInColumn` (J:664-741) depend on an octet ordering and a superclass `capacity()` that are not part of this model.
- Java stream I/O is not modelled; the codec works on a header plus a sequence of `(row, column, byte)` records. A stream cut short inside a record is modelled only as "not enough records".
- The superclass checks (`checkBounds`, `checkColumnBounds`, `checkRowRangeBounds`, `ensureDimensionsAreCorrect`) are taken as preconditions. `ensureCardinalityIsCorrect` is not modelled.
- `capacity()` comes from a superclass that is not part of this model. `Capacity` takes it as the dense bound `rows*columns`, capped at `Integer.MAX_VALUE` (`DenseCap`). A buffer can never be longer than that, so `growup` fails there.
- An exception thrown halfway through a loop would leave the Java object partly mutated; the model treats each operation as all-or-nothing.
- The `ByteMatrices` source adapters (J:88-101) are not modelled; `FromSource` takes the source as a function.
- The cardinality constructor (J:127-139) is not a separate member. It appears as the empty start state inside `resize`, the decoder and `FromSource`.
- CcsPoint.Insert: requires `cardinality < Integer.MAX_VALUE`, so the 32-bit count cannot wrap. The same holds for `SafeSet` and `SafeUpdate`.
- CcsCodec.RoundTrip: requires `columns < Integer.MAX_VALUE` and `cardinality <= Integer.MAX_VALUE - 32`, so that the decoder's array sizes do not wrap.
- CcsResize.Copy: the aligned length is not reduced modulo 2^32. The same holds for `Truncate` and `Resize`. A cardinality within 32 of `Integer.MAX_VALUE` would make the Java code's allocation fail.
- CcsCapacity.Growup: uses the corrected growth target. `FromSource`, `Insert`, `SafeSet` and `SafeUpdate` inherit it. The Java code throws once full buffers holding more than 715827882 entries grow (see Findings). From the constructor's 32-entry start, the growth chain reaches 838603507 entries, so the Java `MatrixSource` constructor already fails above that many non-zero cells, below the `Integer.MAX_VALUE` that `FromSource` states.
- CcsBuild.Select: a column list of length `Integer.MAX_VALUE` would make `newCols + 1` wrap. The model does not reproduce that failure, because common JVMs cap array lengths just below `Integer.MAX_VALUE`.
- CcsSearch.SearchForRowIndex: the point operations (`Locate`, and through it `SafeGet`, `NonZeroAt`, `SafeSet` and `SafeUpdate`) use the corrected midpoint. On buffers longer than 2^30 entries the Java search can throw instead (see Findings); `LocateAgrees` shows the two agree below that.
- CcsResize.Resize: when rows grow while columns shrink, the Java code throws (see Findings). The corrected model truncates columns instead.

## Findings

| source | as written | input that shows it | evidently intended | confidence | as-written member | corrected member |
|---|---|---|---|---|---|---|
| src/main/net/fec/openrq/util/linearalgebra/matrix/sparse/CCSByteMatrix.java:273-288 | The truncation loop stops once every entry has been copied, so later column pointers stay 0 | a 1x4 matrix with entries in columns 0 and 1, resized to 1x3: pointers `[0, 1, 0, 2]` | all new columns get a pointer, so the pointers are `[0, 1, 2, 2]` | high, not executed | CcsResize.TruncateStopsEarly | CcsResize.Truncate |
| src/main/net/fec/openrq/util/linearalgebra/matrix/sparse/CCSByteMatrix.java:292-309 | When columns grow and rows shrink, stored rows at or beyond the new row count are kept | a 2x1 matrix with an entry in row 1, resized to 1x2: the result stores row 1 in a 1-row matrix | rows beyond the new count are dropped | high, not executed | CcsResize.ExtendKeepsDroppedRows | CcsResize.ExtendColumns |
| src/main/net/fec/openrq/util/linearalgebra/matrix/sparse/CCSByteMatrix.java:311-320 | When rows grow and columns shrink, `arraycopy` copies `this.columns + 1` pointers into a shorter array | a 1x4 matrix resized to 2x3 throws an index error | the columns are truncated and the rows grown | high, not executed | CcsResize.RowsGrowColumnsShrink | CcsResize.Resize |
| src/main/net/fec/openrq/util/linearalgebra/matrix/sparse/CCSByteMatrix.java:646 | `cardinality * 3` is computed in 32 bits | a 65536x65536 matrix with 715827883 entries: the new length is -1073741822 | the length is 1073741825 (1.5x growth capped at the dense size) | medium, not executed | CcsCapacity.GrowthTargetOverflows | CcsCapacity.GrowLength |
| src/main/net/fec/openrq/util/linearalgebra/matrix/sparse/CCSByteMatrix.java:575 | The binary search's midpoint `(left + right) / 2` is computed in 32 bits | a column whose entries sit at offsets `[1100000000, 1100000016)`, which buffers from the decoder, `copy` or `resize` can hold: the midpoint wraps to -1047483640 and `rowIndices[p]` throws | the midpoint of the slice, 1100000008 | medium, not executed | CcsSearch.SearchMidpointWraps | CcsSearch.SearchForRowIndex |
| src/main/net/fec/openrq/util/linearalgebra/matrix/sparse/CCSByteMatrix.java:555 | Only the pointer after each record's column is set, so an empty column after a stored entry keeps pointer 0 | a 1x2 matrix whose only entry is in column 0: decoded pointers `[0, 1, 0]` | empty columns inherit the previous pointer: `[0, 1, 1]` | high, not executed | CcsCodec.ReadLosesTrailingPointer | CcsCodec.RoundTrip |
