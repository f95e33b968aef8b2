/** Building a matrix from a source of cells: the `MatrixSource` constructor (one
    column-major pass, growing the buffers on demand) and `select` (a row-major
    counting pass, then a column-major filling pass into exact-size buffers). */
module CcsBuild {
  import opened CcsStorage
  import opened CcsCapacity
  import opened CcsPoint

  /** A source of cells: the value at `(row, column)`. */
  type Source = (int, int) -> Byte

  /** The stored form of column `j` of a source, over its first `n` rows: the
      non-zero cells, row-ascending. */
  function SourceColumn(src: Source, j: int, n: int): (ps: seq<Slot>)
    requires n >= 0
    ensures |ps| <= n
    decreases n
  {
    if n == 0 then []
    else SourceColumn(src, j, n - 1) + (if src(n - 1, j) != 0 then [Slot(n - 1, src(n - 1, j))] else [])
  }

  function SourceColumns(src: Source, rows: int, columns: int): (cs: seq<seq<Slot>>)
    requires rows >= 0 && columns >= 0
    ensures |cs| == columns
  {
    seq(columns, j requires 0 <= j < columns => SourceColumn(src, j, rows))
  }

  /** The non-zero cells of row `a` among the first `nb` columns. */
  function RowCount(src: Source, a: int, nb: int): nat
    requires nb >= 0
  {
    if nb == 0 then 0 else RowCount(src, a, nb - 1) + (if src(a, nb - 1) != 0 then 1 else 0)
  }

  /** The non-zero cells of the `na` x `nb` block, counted row by row. */
  function RowMajorCount(src: Source, na: int, nb: int): nat
    requires na >= 0 && nb >= 0
  {
    if na == 0 then 0 else RowMajorCount(src, na - 1, nb) + RowCount(src, na - 1, nb)
  }

  /** The non-zero cells of the `na` x `nb` block, counted column by column. */
  function ColumnMajorCount(src: Source, na: int, nb: int): nat
    requires na >= 0 && nb >= 0
  {
    if nb == 0 then 0 else ColumnMajorCount(src, na, nb - 1) + |SourceColumn(src, nb - 1, na)|
  }

  /** Buffers that hold `flat` as their live prefix and zeros after it. */
  predicate Laid(values: seq<Byte>, rowIndices: seq<int>, flat: seq<Slot>) {
    && |values| == |rowIndices| >= |flat|
    && values == SlotValues(flat) + Zeros(|values| - |flat|, 0 as Byte)
    && rowIndices == SlotRows(flat) + Zeros(|values| - |flat|, 0)
  }

  // ---------------------------------------------------------------------------
  // Source columns

  lemma {:induction false} SourceColumnWellFormed(src: Source, j: int, n: int)
    requires n >= 0
    ensures WellFormedColumn(SourceColumn(src, j, n), n)
    decreases n
  {
    if n > 0 {
      SourceColumnWellFormed(src, j, n - 1);
    }
  }

  /** A source column reads, for each row, the source's value for that row. */
  lemma {:induction false} SourceColumnLookup(src: Source, j: int, n: int, i: int)
    requires n >= 0
    ensures Lookup(SourceColumn(src, j, n), i) == if 0 <= i < n then src(i, j) else 0
    decreases n
  {
    if n > 0 {
      var prev := SourceColumn(src, j, n - 1);
      var piece: seq<Slot> := if src(n - 1, j) != 0 then [Slot(n - 1, src(n - 1, j))] else [];
      SourceColumnWellFormed(src, j, n - 1);
      if i == n - 1 {
        LookupSkip(prev, piece, i);
      } else {
        SourceColumnLookup(src, j, n - 1, i);
        LookupPrefix(prev, piece, i);
      }
    } else {
      LookupMissing([], i);
    }
  }

  lemma {:induction false} SourceColumnGrows(src: Source, j: int, a: int, b: int)
    requires 0 <= a <= b
    ensures |SourceColumn(src, j, a)| <= |SourceColumn(src, j, b)|
    decreases b - a
  {
    if a < b {
      SourceColumnGrows(src, j, a, b - 1);
    }
  }

  /** The matrix assembled from a source's columns is valid and reads the source. */
  lemma AssembledSource(src: Source, rows: int, columns: int, capacity: int)
    requires rows >= 0 && columns >= 0
    requires capacity >= |Flat(SourceColumns(src, rows, columns))|
    ensures Valid(Assemble(rows, SourceColumns(src, rows, columns), capacity))
    ensures forall i, j :: 0 <= j < columns ==>
              Cell(Assemble(rows, SourceColumns(src, rows, columns), capacity), i, j) ==
              if 0 <= i < rows then src(i, j) else 0
  {
    var cols := SourceColumns(src, rows, columns);
    forall c | 0 <= c < columns ensures WellFormedColumn(cols[c], rows) {
      SourceColumnWellFormed(src, c, rows);
    }
    AssembleValid(rows, cols, capacity);
    forall i, j | 0 <= j < columns
      ensures Cell(Assemble(rows, cols, capacity), i, j) == if 0 <= i < rows then src(i, j) else 0
    {
      SourceColumnLookup(src, j, rows, i);
    }
  }

  // ---------------------------------------------------------------------------
  // Counting

  lemma {:induction false} ColumnMajorIsFlat(src: Source, na: int, nb: int)
    requires na >= 0 && nb >= 0
    ensures ColumnMajorCount(src, na, nb) == |Flat(SourceColumns(src, na, nb))|
    decreases nb
  {
    if nb > 0 {
      ColumnMajorIsFlat(src, na, nb - 1);
      var cols := SourceColumns(src, na, nb);
      assert cols[..nb - 1] == SourceColumns(src, na, nb - 1);
      FlatStep(cols, nb - 1);
      assert cols[..nb] == cols;
    }
  }

  /** Adding row `na` to every column adds that row's count to the column-major total. */
  lemma {:induction false} ColumnMajorAddRow(src: Source, na: int, nb: int)
    requires na >= 0 && nb >= 0
    ensures ColumnMajorCount(src, na + 1, nb) == ColumnMajorCount(src, na, nb) + RowCount(src, na, nb)
    decreases nb
  {
    if nb > 0 {
      ColumnMajorAddRow(src, na, nb - 1);
    }
  }

  /** The row-major count of the first pass of `select` is the number of entries the
      column-major second pass stores. */
  lemma {:induction false} CountExchange(src: Source, na: int, nb: int)
    requires na >= 0 && nb >= 0
    ensures RowMajorCount(src, na, nb) == |Flat(SourceColumns(src, na, nb))|
    decreases na
  {
    if na > 0 {
      CountExchange(src, na - 1, nb);
      ColumnMajorIsFlat(src, na - 1, nb);
      ColumnMajorAddRow(src, na - 1, nb);
      ColumnMajorIsFlat(src, na, nb);
    } else {
      ColumnMajorIsFlat(src, na, nb);
      ZeroRowsCount(src, nb);
    }
  }

  lemma {:induction false} ZeroRowsCount(src: Source, nb: int)
    requires nb >= 0
    ensures ColumnMajorCount(src, 0, nb) == 0
    decreases nb
  {
    if nb > 0 {
      ZeroRowsCount(src, nb - 1);
    }
  }

  /** The columns before `j` hold at most `rows` entries each. */
  lemma {:induction false} FlatBound(src: Source, rows: int, columns: int, j: int)
    requires rows >= 0 && 0 <= j <= columns
    ensures |Flat(SourceColumns(src, rows, columns)[..j])| <= j * rows
    decreases j
  {
    if j > 0 {
      FlatBound(src, rows, columns, j - 1);
      FlatStep(SourceColumns(src, rows, columns), j - 1);
      assert j * rows == (j - 1) * rows + rows;
    }
  }

  /** While column `j` is filled up to row `i`, the entries stored so far fit in the
      final layout, one short of it when row `i` is about to be stored. */
  lemma FillFits(src: Source, rows: int, columns: int, j: int, i: int)
    requires rows >= 0 && 0 <= j < columns && 0 <= i < rows
    ensures var cols := SourceColumns(src, rows, columns);
            |Flat(cols[..j])| + |SourceColumn(src, j, i + 1)| <= |Flat(cols)|
    ensures |Flat(SourceColumns(src, rows, columns)[..j])| + |SourceColumn(src, j, i)| <= j * rows + i
  {
    var cols := SourceColumns(src, rows, columns);
    SourceColumnGrows(src, j, i + 1, rows);
    FlatStep(cols, j);
    FlatPrefix(cols, j + 1, columns);
    assert cols[..columns] == cols;
    FlatBound(src, rows, columns, j);
  }

  // ---------------------------------------------------------------------------
  // Laying entries into buffers

  lemma LaidEmpty(n: nat)
    ensures Laid(Zeros(n, 0 as Byte), Zeros(n, 0), [])
  {
    assert SlotValues([]) + Zeros(n, 0 as Byte) == Zeros(n, 0 as Byte);
    assert SlotRows([]) + Zeros(n, 0) == Zeros(n, 0);
  }

  /** Writing the next entry at the end of the live prefix. */
  lemma LaidAppend(values: seq<Byte>, rowIndices: seq<int>, flat: seq<Slot>, x: Slot)
    requires Laid(values, rowIndices, flat) && |flat| < |values|
    ensures Laid(values[|flat| := x.value], rowIndices[|flat| := x.row], flat + [x])
  {
    var n := |values| - |flat| - 1;
    assert values[|flat| := x.value] == SlotValues(flat + [x]) + Zeros(n, 0 as Byte);
    assert rowIndices[|flat| := x.row] == SlotRows(flat + [x]) + Zeros(n, 0);
  }

  /** Reallocating to length `n`, copying the live prefix. */
  lemma LaidGrow(values: seq<Byte>, rowIndices: seq<int>, flat: seq<Slot>, n: int)
    requires Laid(values, rowIndices, flat) && n >= |flat|
    ensures Laid(values[..|flat|] + Zeros(n - |flat|, 0 as Byte), rowIndices[..|flat|] + Zeros(n - |flat|, 0), flat)
  {
    assert values[..|flat|] == SlotValues(flat);
    assert rowIndices[..|flat|] == SlotRows(flat);
  }

  lemma SourceColumnStep(src: Source, j: int, i: int)
    requires i >= 0
    ensures SourceColumn(src, j, i + 1) ==
              SourceColumn(src, j, i) + (if src(i, j) != 0 then [Slot(i, src(i, j))] else [])
  {
  }

  /** Part-way through filling from a source: the columns before `j` and the first
      `i` rows of column `j` are laid into the buffers, and `cardinality` counts them. */
  predicate Filling(src: Source, rows: int, columns: int, j: int, i: int,
                    cardinality: int, values: seq<Byte>, rowIndices: seq<int>)
  {
    && rows >= 0 && 0 <= j < columns && 0 <= i <= rows
    && var laid := Flat(SourceColumns(src, rows, columns)[..j]) + SourceColumn(src, j, i);
       cardinality == |laid| && Laid(values, rowIndices, laid)
  }

  /** A zero cell is passed over. */
  lemma FillSkip(src: Source, rows: int, columns: int, j: int, i: int,
                 cardinality: int, values: seq<Byte>, rowIndices: seq<int>)
    requires Filling(src, rows, columns, j, i, cardinality, values, rowIndices)
    requires i < rows && src(i, j) == 0
    ensures Filling(src, rows, columns, j, i + 1, cardinality, values, rowIndices)
  {
    SourceColumnStep(src, j, i);
  }

  /** A non-zero cell is stored at the end of the live prefix, where there is room. */
  lemma FillStore(src: Source, rows: int, columns: int, j: int, i: int,
                  cardinality: int, values: seq<Byte>, rowIndices: seq<int>)
    requires Filling(src, rows, columns, j, i, cardinality, values, rowIndices)
    requires i < rows && src(i, j) != 0 && cardinality < |values|
    ensures Filling(src, rows, columns, j, i + 1, cardinality + 1,
                    values[cardinality := src(i, j)], rowIndices[cardinality := i])
  {
    var laid := Flat(SourceColumns(src, rows, columns)[..j]) + SourceColumn(src, j, i);
    SourceColumnStep(src, j, i);
    LaidAppend(values, rowIndices, laid, Slot(i, src(i, j)));
    assert laid + [Slot(i, src(i, j))] ==
           Flat(SourceColumns(src, rows, columns)[..j]) + SourceColumn(src, j, i + 1);
  }

  /** The stored count stays below the number of cells not yet visited. */
  lemma FillRoom(src: Source, rows: int, columns: int, j: int, i: int,
                 cardinality: int, values: seq<Byte>, rowIndices: seq<int>)
    requires Filling(src, rows, columns, j, i, cardinality, values, rowIndices)
    requires i < rows
    ensures cardinality < rows * columns
    ensures cardinality < |Flat(SourceColumns(src, rows, columns))| || src(i, j) == 0
  {
    FillFits(src, rows, columns, j, i);
    SourceColumnStep(src, j, i);
    CellsAhead(rows, columns, j, i);
  }

  /** Cell `(i, j)` comes before the end of a `rows` x `columns` column-major walk. */
  lemma CellsAhead(rows: int, columns: int, j: int, i: int)
    requires 0 <= j < columns && 0 <= i < rows
    ensures j * rows + i < rows * columns
  {
    var d := columns - j - 1;
    assert rows * columns == j * rows + rows + d * rows by {
      assert columns == j + 1 + d;
    }
    assert d * rows >= 0;
  }

  /** Reallocating the buffers keeps the fill state. */
  lemma FillGrow(src: Source, rows: int, columns: int, j: int, i: int,
                 cardinality: int, values: seq<Byte>, rowIndices: seq<int>, n: int)
    requires Filling(src, rows, columns, j, i, cardinality, values, rowIndices)
    requires n >= cardinality
    ensures Filling(src, rows, columns, j, i, cardinality,
                    values[..cardinality] + Zeros(n - cardinality, 0 as Byte),
                    rowIndices[..cardinality] + Zeros(n - cardinality, 0))
  {
    var laid := Flat(SourceColumns(src, rows, columns)[..j]) + SourceColumn(src, j, i);
    LaidGrow(values, rowIndices, laid, n);
  }

  /** Starting column `j` and finishing it. */
  lemma FillColumn(src: Source, rows: int, columns: int, j: int,
                   cardinality: int, values: seq<Byte>, rowIndices: seq<int>)
    requires rows >= 0 && 0 <= j < columns
    ensures Filling(src, rows, columns, j, 0, cardinality, values, rowIndices) <==>
            (cardinality == |Flat(SourceColumns(src, rows, columns)[..j])|
             && Laid(values, rowIndices, Flat(SourceColumns(src, rows, columns)[..j])))
    ensures Filling(src, rows, columns, j, rows, cardinality, values, rowIndices) <==>
            (cardinality == |Flat(SourceColumns(src, rows, columns)[..j + 1])|
             && Laid(values, rowIndices, Flat(SourceColumns(src, rows, columns)[..j + 1])))
  {
    var cols := SourceColumns(src, rows, columns);
    assert Flat(cols[..j]) + SourceColumn(src, j, 0) == Flat(cols[..j]);
    FlatStep(cols, j);
  }

  /** Buffers and pointers that lay out `cols` completely form their assembled matrix. */
  lemma Assembled(rows: int, cols: seq<seq<Slot>>, cardinality: int, values: seq<Byte>, rowIndices: seq<int>,
                  columnPointers: seq<int>)
    requires Laid(values, rowIndices, Flat(cols)) && cardinality == |Flat(cols)|
    requires |columnPointers| == |cols| + 1
    requires forall c :: 0 <= c <= |cols| ==> columnPointers[c] == |Flat(cols[..c])|
    ensures Matrix(rows, |cols|, cardinality, values, rowIndices, columnPointers) == Assemble(rows, cols, |values|)
  {
  }

  // ---------------------------------------------------------------------------
  // Operations

  /** `CCSByteMatrix(MatrixSource)`: reads the source column-major and stores its
      non-zero cells, starting from blocks of 32 and growing the buffers with
      `growup` whenever they are full. The result reads exactly the source. The
      buffers stop growing at the largest `int`, so `growup` throws when a source
      holds more non-zero cells than that. */
  method FromSource(rows: int, columns: int, src: Source) returns (r: Result<Matrix>)
    requires rows >= 0 && columns >= 0
    ensures r.Fail? <==> IntMax < RowMajorCount(src, rows, columns)
    ensures r.Fail? ==> r.failure == CannotGrow
    ensures r.Ok? ==> Valid(r.value) && r.value.rows == rows && r.value.columns == columns
    ensures r.Ok? ==> forall i, j :: 0 <= j < columns ==>
              Cell(r.value, i, j) == if 0 <= i < rows then src(i, j) else 0
    ensures r.Ok? ==> r.value.cardinality == RowMajorCount(src, rows, columns)
  {
    ghost var cols := SourceColumns(src, rows, columns);
    CountExchange(src, rows, columns);
    var cardinality := 0;
    var values := Zeros(Align(0), 0 as Byte);
    var rowIndices := Zeros(Align(0), 0);
    var columnPointers := Zeros(columns + 1, 0);
    LaidEmpty(Align(0));
    assert cols[..0] == [];
    for j := 0 to columns
      invariant |columnPointers| == columns + 1
      invariant forall c :: 0 <= c < j ==> columnPointers[c] == |Flat(cols[..c])|
      invariant cardinality == |Flat(cols[..j])|
      invariant Laid(values, rowIndices, Flat(cols[..j])) && |values| <= IntMax
    {
      columnPointers := columnPointers[j := cardinality];
      FillColumn(src, rows, columns, j, cardinality, values, rowIndices);
      var ok;
      ok, cardinality, values, rowIndices := FillCells(src, rows, columns, j, cardinality, values, rowIndices);
      if !ok {
        return Fail(CannotGrow);
      }
      FillColumn(src, rows, columns, j, cardinality, values, rowIndices);
    }
    columnPointers := columnPointers[columns := cardinality];
    assert cols[..columns] == cols;
    Assembled(rows, cols, cardinality, values, rowIndices, columnPointers);
    var m := Matrix(rows, columns, cardinality, values, rowIndices, columnPointers);
    AssembledSource(src, rows, columns, |values|);
    r := Ok(m);
  }

  /** Full buffers meeting a non-zero cell are reallocated to the `growup` length,
      which leaves room for it. Growth fails only once the buffers hold the largest
      `int` number of entries, when the source has more non-zero cells than that. */
  method FillGrown(src: Source, rows: int, columns: int, j: int, i: int,
                   cardinality: int, values0: seq<Byte>, rowIndices0: seq<int>)
    returns (ok: bool, values: seq<Byte>, rowIndices: seq<int>)
    requires Filling(src, rows, columns, j, i, cardinality, values0, rowIndices0)
    requires i < rows && src(i, j) != 0 && |values0| <= cardinality && |values0| <= IntMax
    ensures ok ==> Filling(src, rows, columns, j, i, cardinality, values, rowIndices)
    ensures ok ==> cardinality < |values| <= IntMax
    ensures !ok ==> IntMax < |Flat(SourceColumns(src, rows, columns))|
  {
    FillRoom(src, rows, columns, j, i, cardinality, values0, rowIndices0);
    var n := GrowLength(|values0|, rows, columns, cardinality);
    if n.Fail? {
      return false, values0, rowIndices0;
    }
    FillGrow(src, rows, columns, j, i, cardinality, values0, rowIndices0, n.value);
    values := values0[..cardinality] + Zeros(n.value - cardinality, 0 as Byte);
    rowIndices := rowIndices0[..cardinality] + Zeros(n.value - cardinality, 0);
    ok := true;
  }

  /** The inner loop of the constructor: stores the non-zero cells of column `j`
      in row order, growing the buffers when they are full. It stops when they
      cannot grow. */
  method FillCells(src: Source, rows: int, columns: int, j: int,
                   cardinality0: int, values0: seq<Byte>, rowIndices0: seq<int>)
    returns (ok: bool, cardinality: int, values: seq<Byte>, rowIndices: seq<int>)
    requires Filling(src, rows, columns, j, 0, cardinality0, values0, rowIndices0)
    requires |values0| <= IntMax
    ensures ok ==> Filling(src, rows, columns, j, rows, cardinality, values, rowIndices)
    ensures ok ==> |values| <= IntMax
    ensures !ok ==> IntMax < |Flat(SourceColumns(src, rows, columns))|
  {
    cardinality, values, rowIndices := cardinality0, values0, rowIndices0;
    for i := 0 to rows
      invariant Filling(src, rows, columns, j, i, cardinality, values, rowIndices)
      invariant |values| <= IntMax
    {
      var value := src(i, j);
      if value != 0 {
        if |values| < cardinality + 1 {
          ok, values, rowIndices := FillGrown(src, rows, columns, j, i, cardinality, values, rowIndices);
          if !ok {
            return;
          }
        }
        FillStore(src, rows, columns, j, i, cardinality, values, rowIndices);
        values := values[cardinality := value];
        rowIndices := rowIndices[cardinality := i];
        cardinality := cardinality + 1;
      } else {
        FillSkip(src, rows, columns, j, i, cardinality, values, rowIndices);
      }
    }
    ok := true;
  }

  /** The source `select` reads from: cell `(a, b)` of the selection is cell
      `(rowList[a], columnList[b])` of `m`. */
  function Pick(m: Matrix, rowList: seq<int>, columnList: seq<int>): Source
    requires Valid(m)
    requires forall b :: 0 <= b < |columnList| ==> 0 <= columnList[b] < m.columns
  {
    (a, b) => if 0 <= a < |rowList| && 0 <= b < |columnList| then Cell(m, rowList[a], columnList[b]) else 0
  }

  /** The number of non-zero cells `select`'s first pass counts, before it is
      squeezed into an `int`. */
  function SelectedCount(m: Matrix, rowList: seq<int>, columnList: seq<int>): nat
    requires Valid(m)
    requires forall b :: 0 <= b < |columnList| ==> 0 <= columnList[b] < m.columns
  {
    RowMajorCount(Pick(m, rowList, columnList), |rowList|, |columnList|)
  }

  /** `select(rowIndices, columnIndices)`: the matrix of the chosen rows and columns,
      in the order given (repetitions allowed). Fails when either list is empty. Both
      passes read the selection through `Pick`, the bounds-checked `get` of `m`. The
      count is a 32-bit `int`: past the largest `int` it wraps, and either the
      allocation of a negative length or the fill pass running off the end of too
      short a buffer throws. */
  method Select(m: Matrix, rowList: seq<int>, columnList: seq<int>) returns (r: Result<Matrix>)
    requires Valid(m)
    requires forall a :: 0 <= a < |rowList| ==> 0 <= rowList[a] < m.rows
    requires forall b :: 0 <= b < |columnList| ==> 0 <= columnList[b] < m.columns
    ensures r.Fail? <==> |rowList| == 0 || |columnList| == 0 || IntMax < SelectedCount(m, rowList, columnList)
    ensures r.Fail? && (|rowList| == 0 || |columnList| == 0) ==> r.failure == NoSelection
    ensures r.Fail? && |rowList| > 0 && |columnList| > 0 ==>
              r.failure == if Wrap32(SelectedCount(m, rowList, columnList)) < 0 then NegativeArraySize else IndexOutOfBounds
    ensures r.Ok? ==> Valid(r.value) && r.value.rows == |rowList| && r.value.columns == |columnList|
    ensures r.Ok? ==> forall a, b :: 0 <= a < |rowList| && 0 <= b < |columnList| ==>
              Cell(r.value, a, b) == Cell(m, rowList[a], columnList[b])
    ensures r.Ok? ==> r.value.cardinality == |r.value.values| == SelectedCount(m, rowList, columnList)
  {
    if |rowList| == 0 || |columnList| == 0 {
      return Fail(NoSelection);
    }
    var get := Pick(m, rowList, columnList);
    ghost var count := SelectedCount(m, rowList, columnList);
    CountExchange(get, |rowList|, |columnList|);
    var newCardinality := CountSelected(get, |rowList|, |columnList|);
    if newCardinality < 0 {
      return Fail(NegativeArraySize);
    }
    if count <= IntMax {
      Wrap32InRange(count);
    }
    r := FillSelected(get, |rowList|, |columnList|, newCardinality);
  }

  /** The first pass of `select`: counts the non-zero cells of the selection row by
      row in an `int`, which wraps past the largest `int`. */
  method CountSelected(get: Source, newRows: int, newCols: int) returns (newCardinality: int)
    requires newRows >= 0 && newCols >= 0
    ensures newCardinality == Wrap32(|Flat(SourceColumns(get, newRows, newCols))|)
  {
    ghost var count := 0;
    newCardinality := 0;
    for i := 0 to newRows
      invariant count == RowMajorCount(get, i, newCols) && newCardinality == Wrap32(count)
    {
      for j := 0 to newCols
        invariant count == RowMajorCount(get, i, newCols) + RowCount(get, i, j)
        invariant newCardinality == Wrap32(count)
      {
        if get(i, j) != 0 {
          Wrap32Step(count);
          newCardinality := Wrap32(newCardinality + 1);
          count := count + 1;
        }
      }
    }
    CountExchange(get, newRows, newCols);
  }

  /** The second pass of `select`: lays the selection's non-zero cells out column by
      column into buffers of the counted length. Buffers shorter than the cells to
      store make the write past their end throw. */
  method FillSelected(get: Source, newRows: int, newCols: int, newCardinality: int) returns (r: Result<Matrix>)
    requires newRows >= 0 && newCols >= 0
    requires 0 <= newCardinality <= |Flat(SourceColumns(get, newRows, newCols))|
    ensures r.Fail? <==> newCardinality < |Flat(SourceColumns(get, newRows, newCols))|
    ensures r.Fail? ==> r.failure == IndexOutOfBounds
    ensures r.Ok? ==> Valid(r.value) && r.value.rows == newRows && r.value.columns == newCols
    ensures r.Ok? ==> forall a, b :: 0 <= b < newCols ==>
              Cell(r.value, a, b) == if 0 <= a < newRows then get(a, b) else 0
    ensures r.Ok? ==> r.value.cardinality == |r.value.values| == newCardinality
  {
    ghost var cols := SourceColumns(get, newRows, newCols);
    var newValues: seq<Byte> := Zeros(newCardinality, 0 as Byte);
    var newRowIndices := Zeros(newCardinality, 0);
    var newColumnPointers := Zeros(newCols + 1, 0);
    LaidEmpty(newCardinality);
    assert cols[..0] == [];
    var endPtr := 0;
    for j := 0 to newCols
      invariant |newColumnPointers| == newCols + 1 && |newValues| == newCardinality
      invariant forall c :: 0 <= c <= j ==> newColumnPointers[c] == |Flat(cols[..c])|
      invariant endPtr == |Flat(cols[..j])|
      invariant Laid(newValues, newRowIndices, Flat(cols[..j]))
    {
      newColumnPointers := newColumnPointers[j + 1 := newColumnPointers[j]];
      FillColumn(get, newRows, newCols, j, endPtr, newValues, newRowIndices);
      ghost var before := newColumnPointers;
      var ok;
      ok, endPtr, newValues, newRowIndices, newColumnPointers :=
        FillSelectedColumn(get, newRows, newCols, j, endPtr, newValues, newRowIndices, newColumnPointers);
      if !ok {
        return Fail(IndexOutOfBounds);
      }
      assert forall c :: 0 <= c <= j ==> newColumnPointers[c] == before[c];
      FillColumn(get, newRows, newCols, j, endPtr, newValues, newRowIndices);
    }
    assert cols[..newCols] == cols;
    Assembled(newRows, cols, newCardinality, newValues, newRowIndices, newColumnPointers);
    var s := Matrix(newRows, newCols, newCardinality, newValues, newRowIndices, newColumnPointers);
    AssembledSource(get, newRows, newCols, newCardinality);
    r := Ok(s);
  }

  /** The store step of `select`'s column loop: a non-zero cell goes to the end of
      the entries and column `j`'s end pointer moves past it. */
  method StoreSelected(get: Source, newRows: int, newCols: int, j: int, i: int, endPtr: int,
                       newValues: seq<Byte>, newRowIndices: seq<int>, newColumnPointers: seq<int>)
    returns (endPtr': int, newValues': seq<Byte>, newRowIndices': seq<int>, newColumnPointers': seq<int>)
    requires Filling(get, newRows, newCols, j, i, endPtr, newValues, newRowIndices)
    requires i < newRows && get(i, j) != 0 && endPtr < |newValues|
    requires |newColumnPointers| == newCols + 1 && newColumnPointers[j + 1] == endPtr
    ensures Filling(get, newRows, newCols, j, i + 1, endPtr', newValues', newRowIndices')
    ensures endPtr' == endPtr + 1 && |newValues'| == |newValues|
    ensures newColumnPointers' == newColumnPointers[j + 1 := endPtr']
  {
    FillStore(get, newRows, newCols, j, i, endPtr, newValues, newRowIndices);
    newValues' := newValues[endPtr := get(i, j)];
    newRowIndices' := newRowIndices[endPtr := i];
    endPtr' := endPtr + 1;
    newColumnPointers' := newColumnPointers[j + 1 := newColumnPointers[j + 1] + 1];
  }

  /** Column `j` of the second pass of `select`: each non-zero cell is stored at
      `endPtr` and counted into the column's end pointer. It stops at the first
      non-zero cell that finds the buffers full. */
  method FillSelectedColumn(get: Source, newRows: int, newCols: int, j: int, endPtr: int,
                            newValues: seq<Byte>, newRowIndices: seq<int>, newColumnPointers: seq<int>)
    returns (ok: bool, endPtr': int, newValues': seq<Byte>, newRowIndices': seq<int>, newColumnPointers': seq<int>)
    requires Filling(get, newRows, newCols, j, 0, endPtr, newValues, newRowIndices)
    requires |newColumnPointers| == newCols + 1 && newColumnPointers[j + 1] == endPtr
    ensures ok ==> Filling(get, newRows, newCols, j, newRows, endPtr', newValues', newRowIndices')
    ensures ok ==> |newValues'| == |newValues|
    ensures ok ==> newColumnPointers' == newColumnPointers[j + 1 := endPtr']
    ensures !ok ==> |newValues| < |Flat(SourceColumns(get, newRows, newCols))|
  {
    endPtr', newValues', newRowIndices', newColumnPointers' := endPtr, newValues, newRowIndices, newColumnPointers;
    for i := 0 to newRows
      invariant Filling(get, newRows, newCols, j, i, endPtr', newValues', newRowIndices')
      invariant |newValues'| == |newValues|
      invariant newColumnPointers' == newColumnPointers[j + 1 := endPtr']
    {
      var val := get(i, j);
      if val != 0 {
        if endPtr' == |newValues'| {
          FillRoom(get, newRows, newCols, j, i, endPtr', newValues', newRowIndices');
          return false, endPtr', newValues', newRowIndices', newColumnPointers';
        }
        endPtr', newValues', newRowIndices', newColumnPointers' :=
          StoreSelected(get, newRows, newCols, j, i, endPtr', newValues', newRowIndices', newColumnPointers');
      } else {
        FillSkip(get, newRows, newCols, j, i, endPtr', newValues', newRowIndices');
      }
    }
    ok := true;
  }
}
