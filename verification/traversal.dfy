/** Traversal and bulk update: the visitor-driven scans (`each`, `eachInColumn`,
    `eachNonZero`, `eachNonZeroInColumn`) and the updaters that may delete entries
    while they scan (`updateNonZero`, `updateNonZeroInColumn`). A visitor is
    modelled by the sequence of triples it is called with; an updater by a pure
    function `(row, column, value) -> value`. */
module CcsTraversal {
  import opened CcsStorage
  import opened CcsPoint

  /** Every cell of column `c`, stored or not, in row order. */
  function DenseColumn(m: Matrix, c: int): (es: seq<Entry>)
    requires Shaped(m) && 0 <= c < m.columns
    ensures |es| == m.rows
  {
    seq(m.rows, i requires 0 <= i < m.rows => Entry(i, c, Cell(m, i, c)))
  }

  /** Every cell of the columns before `c`, column-major and row-ascending. */
  function DenseUpTo(m: Matrix, c: int): seq<Entry>
    requires Shaped(m) && 0 <= c <= m.columns
  {
    if c == 0 then [] else DenseUpTo(m, c - 1) + DenseColumn(m, c - 1)
  }

  /** The column an updater leaves: slots with a row in `[from, to)` get the
      function's value and are dropped where it is zero; the others stay. */
  function MapSlots(ps: seq<Slot>, f: (int, int, Byte) -> Byte, c: int, from: int, to: int): seq<Slot> {
    if |ps| == 0 then []
    else MapSlots(ps[..|ps| - 1], f, c, from, to) + MapSlot(ps[|ps| - 1], f, c, from, to)
  }

  function MapSlot(x: Slot, f: (int, int, Byte) -> Byte, c: int, from: int, to: int): seq<Slot> {
    if from <= x.row < to then
      var w := f(x.row, c, x.value);
      if w == 0 then [] else [Slot(x.row, w)]
    else [x]
  }

  // ---------------------------------------------------------------------------
  // Facts about the listings

  lemma TagAppend(a: seq<Slot>, b: seq<Slot>, c: int)
    ensures Tag(a + b, c) == Tag(a, c) + Tag(b, c)
  {
  }

  lemma TagStep(ps: seq<Slot>, n: int, c: int)
    requires 0 <= n < |ps|
    ensures Tag(ps[..n + 1], c) == Tag(ps[..n], c) + [Entry(ps[n].row, c, ps[n].value)]
  {
  }

  /** Columns from `j` on that are empty add nothing to the column-major listing. */
  lemma {:induction false} EmptyTail(m: Matrix, j: int, c: int)
    requires Shaped(m) && 0 <= j <= c <= m.columns
    requires forall c' :: j <= c' < m.columns ==> |Column(m, c')| == 0
    ensures EntriesUpTo(m, c) == EntriesUpTo(m, j)
    decreases c - j
  {
    if c > j {
      EmptyTail(m, j, c - 1);
      assert Tag(Column(m, c - 1), c - 1) == [];
    }
  }

  lemma MapSlotsStep(ps: seq<Slot>, n: int, f: (int, int, Byte) -> Byte, c: int, from: int, to: int)
    requires 0 <= n < |ps|
    ensures MapSlots(ps[..n + 1], f, c, from, to) == MapSlots(ps[..n], f, c, from, to) + MapSlot(ps[n], f, c, from, to)
  {
    assert ps[..n + 1][..n] == ps[..n];
  }

  lemma {:induction false} MapSlotsAppend(a: seq<Slot>, b: seq<Slot>, f: (int, int, Byte) -> Byte, c: int, from: int, to: int)
    ensures MapSlots(a + b, f, c, from, to) == MapSlots(a, f, c, from, to) + MapSlots(b, f, c, from, to)
    decreases |b|
  {
    if |b| > 0 {
      var b' := b[..|b| - 1];
      MapSlotsAppend(a, b', f, c, from, to);
      assert (a + b)[..|a + b| - 1] == a + b';
    } else {
      assert a + b == a;
    }
  }

  /** Slots at or beyond `to` are left as they are. */
  lemma {:induction false} MapSlotsBeyond(ps: seq<Slot>, f: (int, int, Byte) -> Byte, c: int, from: int, to: int)
    requires forall t :: 0 <= t < |ps| ==> ps[t].row >= to
    ensures MapSlots(ps, f, c, from, to) == ps
    decreases |ps|
  {
    if |ps| > 0 {
      MapSlotsBeyond(ps[..|ps| - 1], f, c, from, to);
      assert ps == ps[..|ps| - 1] + [ps[|ps| - 1]];
    }
  }

  /** Rows beyond which a column stays remain bounds of the updated column. */
  lemma {:induction false} MapSlotsRowsBelow(ps: seq<Slot>, f: (int, int, Byte) -> Byte, c: int, from: int, to: int, bound: int)
    requires forall t :: 0 <= t < |ps| ==> ps[t].row < bound
    ensures forall s :: 0 <= s < |MapSlots(ps, f, c, from, to)| ==> MapSlots(ps, f, c, from, to)[s].row < bound
    decreases |ps|
  {
    if |ps| > 0 {
      MapSlotsRowsBelow(ps[..|ps| - 1], f, c, from, to, bound);
    }
  }

  lemma {:induction false} MapSlotsSorted(ps: seq<Slot>, f: (int, int, Byte) -> Byte, c: int, from: int, to: int)
    requires Sorted(ps)
    ensures Sorted(MapSlots(ps, f, c, from, to))
    decreases |ps|
  {
    if |ps| > 0 {
      var init := ps[..|ps| - 1];
      var last := ps[|ps| - 1];
      MapSlotsSorted(init, f, c, from, to);
      MapSlotsRowsBelow(init, f, c, from, to, last.row);
      var q := MapSlots(init, f, c, from, to);
      var piece := MapSlot(last, f, c, from, to);
      assert forall t :: 0 <= t < |piece| ==> piece[t].row == last.row;
      assert MapSlots(ps, f, c, from, to) == q + piece;
    }
  }

  /** Reading an updated column: a stored cell in range reads `f` of its old value
      (zero when `f` returned zero); everything else reads as before. */
  lemma {:induction false} MapSlotsLookup(ps: seq<Slot>, f: (int, int, Byte) -> Byte, c: int, from: int, to: int, i: int)
    requires Sorted(ps) && forall t :: 0 <= t < |ps| ==> ps[t].value != 0
    ensures Lookup(MapSlots(ps, f, c, from, to), i) ==
              if from <= i < to && Lookup(ps, i) != 0 then f(i, c, Lookup(ps, i)) else Lookup(ps, i)
    decreases |ps|
  {
    if |ps| > 0 {
      var init := ps[..|ps| - 1];
      var x := ps[|ps| - 1];
      assert ps == init + [x];
      var q := MapSlots(init, f, c, from, to);
      var piece := MapSlot(x, f, c, from, to);
      assert MapSlots(ps, f, c, from, to) == q + piece;
      assert forall t :: 0 <= t < |piece| ==> piece[t].row == x.row;
      assert forall t :: 0 <= t < |init| ==> init[t].row < x.row;
      if i == x.row {
        MapSlotsRowsBelow(init, f, c, from, to, x.row);
        assert Lookup([x], i) == x.value;
        LookupSkip(q, piece, i);
        LookupSkip(init, [x], i);
      } else {
        MapSlotsLookup(init, f, c, from, to, i);
        LookupPrefix(q, piece, i);
        LookupPrefix(init, [x], i);
      }
    }
  }

  /** The state of an updater part-way through column `j` of `m`: the first `g`
      slots of the original column have been rewritten into `r`, the rest are
      untouched, the cursor `k` sits on the first untouched slot, and nothing
      outside column `j` has moved. */
  predicate Rewriting(m: Matrix, r: Matrix, j: int, f: (int, int, Byte) -> Byte, from: int, to: int, g: int, k: int)
    requires Valid(m) && 0 <= j < m.columns
  {
    && Valid(r) && r.rows == m.rows && r.columns == m.columns
    && (forall c :: 0 <= c <= j ==> r.columnPointers[c] == m.columnPointers[c])
    && (forall c :: 0 <= c < m.columns && c != j ==> Column(r, c) == Column(m, c))
    && 0 <= g <= |Column(m, j)|
    && Column(r, j) == MapSlots(Column(m, j)[..g], f, j, from, to) + Column(m, j)[g..]
    && k == m.columnPointers[j] + |MapSlots(Column(m, j)[..g], f, j, from, to)|
  }

  lemma RewriteStart(m: Matrix, j: int, f: (int, int, Byte) -> Byte, from: int, to: int)
    requires Valid(m) && 0 <= j < m.columns
    ensures Rewriting(m, m, j, f, from, to, 0, m.columnPointers[j])
  {
    assert Column(m, j)[..0] == [];
    assert Column(m, j)[0..] == Column(m, j);
  }

  /** Where the cursor stands: inside the column exactly while original slots remain,
      and then on the first of them. */
  lemma RewriteAt(m: Matrix, r: Matrix, j: int, f: (int, int, Byte) -> Byte, from: int, to: int, g: int, k: int)
    requires Valid(m) && 0 <= j < m.columns
    requires Rewriting(m, r, j, f, from, to, g, k)
    ensures r.columnPointers[j] <= k <= r.columnPointers[j + 1]
    ensures k < r.columnPointers[j + 1] <==> g < |Column(m, j)|
    ensures k < r.columnPointers[j + 1] ==>
              r.rowIndices[k] == Column(m, j)[g].row && r.values[k] == Column(m, j)[g].value
    ensures k == r.columnPointers[j + 1] ==> Column(m, j)[..g] == Column(m, j)
  {
    var col := Column(m, j);
    if k < r.columnPointers[j + 1] {
      ColumnSlot(r, j, k);
    }
    if g == |col| {
      assert col[..g] == col;
    }
  }

  /** The column under the cursor splits into the rewritten part, the current slot and the rest. */
  lemma RewriteSplit(m: Matrix, r: Matrix, j: int, f: (int, int, Byte) -> Byte, from: int, to: int, g: int, k: int)
    requires Valid(m) && 0 <= j < m.columns
    requires Rewriting(m, r, j, f, from, to, g, k)
    requires k < r.columnPointers[j + 1]
    ensures g < |Column(m, j)|
    ensures var col := Column(m, j);
            && k - r.columnPointers[j] == |MapSlots(col[..g], f, j, from, to)|
            && Column(r, j) == MapSlots(col[..g], f, j, from, to) + [col[g]] + col[g + 1..]
            && r.rowIndices[k] == col[g].row && r.values[k] == col[g].value
  {
    RewriteAt(m, r, j, f, from, to, g, k);
    var col := Column(m, j);
    assert col[g..] == [col[g]] + col[g + 1..];
  }

  /** The function yields zero on the slot under the cursor: `remove` drops it. */
  lemma RewriteRemove(m: Matrix, r: Matrix, j: int, f: (int, int, Byte) -> Byte, from: int, to: int, g: int, k: int)
    requires Valid(m) && 0 <= j < m.columns
    requires Rewriting(m, r, j, f, from, to, g, k)
    requires k < r.columnPointers[j + 1]
    requires from <= r.rowIndices[k] < to && f(r.rowIndices[k], j, r.values[k]) == 0
    ensures Rewriting(m, Remove(r, k, j), j, f, from, to, g + 1, k)
  {
    RewriteSplit(m, r, j, f, from, to, g, k);
    var col := Column(m, j);
    var done := MapSlots(col[..g], f, j, from, to);
    var rest := col[g + 1..];
    MapSlotsStep(col, g, f, j, from, to);
    assert MapSlots(col[..g + 1], f, j, from, to) == done;
    var cur := done + [col[g]] + rest;
    assert cur[..|done|] + cur[|done| + 1..] == done + rest;
  }

  /** The function yields a non-zero byte on the slot under the cursor: it is overwritten. */
  lemma RewriteOverwrite(m: Matrix, r: Matrix, j: int, f: (int, int, Byte) -> Byte, from: int, to: int, g: int, k: int)
    requires Valid(m) && 0 <= j < m.columns
    requires Rewriting(m, r, j, f, from, to, g, k)
    requires k < r.columnPointers[j + 1]
    requires from <= r.rowIndices[k] < to && f(r.rowIndices[k], j, r.values[k]) != 0
    ensures Rewriting(m, Overwrite(r, k, j, f(r.rowIndices[k], j, r.values[k])), j, f, from, to, g + 1, k + 1)
  {
    RewriteSplit(m, r, j, f, from, to, g, k);
    var col := Column(m, j);
    var done := MapSlots(col[..g], f, j, from, to);
    var rest := col[g + 1..];
    var x := col[g];
    var w := f(x.row, j, x.value);
    MapSlotsStep(col, g, f, j, from, to);
    assert MapSlots(col[..g + 1], f, j, from, to) == done + [Slot(x.row, w)];
    var cur := done + [x] + rest;
    assert cur[|done| := Slot(x.row, w)] == done + [Slot(x.row, w)] + rest;
  }

  /** Applying the function to the slot under the cursor: the slot is removed when
      the function yields zero, else overwritten; either way one more original slot is done. */
  lemma RewriteApply(m: Matrix, r: Matrix, j: int, f: (int, int, Byte) -> Byte, from: int, to: int, g: int, k: int)
    requires Valid(m) && 0 <= j < m.columns
    requires Rewriting(m, r, j, f, from, to, g, k)
    requires k < r.columnPointers[j + 1]
    requires from <= r.rowIndices[k] < to
    ensures var w := f(r.rowIndices[k], j, r.values[k]);
            w == 0 ==> Rewriting(m, Remove(r, k, j), j, f, from, to, g + 1, k)
    ensures var w := f(r.rowIndices[k], j, r.values[k]);
            w != 0 ==> Rewriting(m, Overwrite(r, k, j, w), j, f, from, to, g + 1, k + 1)
  {
    if f(r.rowIndices[k], j, r.values[k]) == 0 {
      RewriteRemove(m, r, j, f, from, to, g, k);
    } else {
      RewriteOverwrite(m, r, j, f, from, to, g, k);
    }
  }

  /** A slot below the range is stepped over unchanged. */
  lemma RewriteSkip(m: Matrix, r: Matrix, j: int, f: (int, int, Byte) -> Byte, from: int, to: int, g: int, k: int)
    requires Valid(m) && 0 <= j < m.columns
    requires Rewriting(m, r, j, f, from, to, g, k)
    requires k < r.columnPointers[j + 1]
    requires r.rowIndices[k] < from
    ensures Rewriting(m, r, j, f, from, to, g + 1, k + 1)
  {
    RewriteAt(m, r, j, f, from, to, g, k);
    var col := Column(m, j);
    assert col[g..] == [col[g]] + col[g + 1..];
    MapSlotsStep(col, g, f, j, from, to);
  }

  // ---------------------------------------------------------------------------
  // Visitors

  /** `eachNonZero`: visits exactly the stored triples, column-major, row-ascending. */
  method EachNonZero(m: Matrix) returns (visits: seq<Entry>)
    requires Valid(m)
    ensures visits == Entries(m)
  {
    visits := [];
    var nonZeroCount := 0;
    var j := 0;
    while nonZeroCount < m.cardinality
      invariant 0 <= j <= m.columns
      invariant nonZeroCount == m.columnPointers[j]
      invariant visits == EntriesUpTo(m, j)
      decreases m.columns - j
    {
      var k := m.columnPointers[j];
      while k < m.columnPointers[j + 1]
        invariant m.columnPointers[j] <= k <= m.columnPointers[j + 1]
        invariant nonZeroCount == k
        invariant visits == EntriesUpTo(m, j) + Tag(Column(m, j), j)[..k - m.columnPointers[j]]
      {
        visits := visits + [Entry(m.rowIndices[k], j, m.values[k])];
        k := k + 1;
        nonZeroCount := nonZeroCount + 1;
      }
      assert Tag(Column(m, j), j)[..k - m.columnPointers[j]] == Tag(Column(m, j), j);
      j := j + 1;
    }
    EmptyTail(m, j, m.columns);
  }

  /** The step shared by the dense visitors: whether offset `k` holds row `i`
      decides the value visited for `(i, j)`, and the cursor stays the lower bound of the next row. */
  lemma DenseStep(m: Matrix, i: int, j: int, k: int)
    requires Valid(m) && 0 <= i < m.rows && 0 <= j < m.columns
    requires m.columnPointers[j] <= k <= m.columnPointers[j + 1]
    requires forall t :: m.columnPointers[j] <= t < k ==> m.rowIndices[t] < i
    requires k < m.columnPointers[j + 1] ==> m.rowIndices[k] >= i
    ensures k < m.columnPointers[j + 1] && i == m.rowIndices[k] ==> Cell(m, i, j) == m.values[k]
    ensures !(k < m.columnPointers[j + 1] && i == m.rowIndices[k]) ==> Cell(m, i, j) == 0
    ensures k < m.columnPointers[j + 1] && i == m.rowIndices[k] ==>
              k + 1 < m.columnPointers[j + 1] ==> m.rowIndices[k + 1] >= i + 1
    ensures !(k < m.columnPointers[j + 1] && i == m.rowIndices[k]) ==>
              k < m.columnPointers[j + 1] ==> m.rowIndices[k] >= i + 1
  {
    ColumnRowsIncrease(m, j);
    if k < m.columnPointers[j + 1] && i == m.rowIndices[k] {
      CellAt(m, j, k);
    } else {
      CellNotStored(m, i, j);
    }
  }

  /** After the last row, the dense cursor has passed the whole column. */
  lemma DenseEnd(m: Matrix, j: int, k: int)
    requires Valid(m) && 0 <= j < m.columns
    requires m.columnPointers[j] <= k <= m.columnPointers[j + 1]
    requires k < m.columnPointers[j + 1] ==> m.rowIndices[k] >= m.rows
    ensures k == m.columnPointers[j + 1]
  {
    ColumnRowsIncrease(m, j);
  }

  /** `each`: visits every cell, zeros included, column-major, row-ascending, with its value. */
  method Each(m: Matrix) returns (visits: seq<Entry>)
    requires Valid(m)
    ensures visits == DenseUpTo(m, m.columns)
  {
    visits := [];
    var k := 0;
    for j := 0 to m.columns
      invariant k == m.columnPointers[j]
      invariant visits == DenseUpTo(m, j)
    {
      var valuesSoFar := m.columnPointers[j + 1];
      ColumnRowsIncrease(m, j);
      for i := 0 to m.rows
        invariant m.columnPointers[j] <= k <= m.columnPointers[j + 1]
        invariant forall t :: m.columnPointers[j] <= t < k ==> m.rowIndices[t] < i
        invariant k < m.columnPointers[j + 1] ==> m.rowIndices[k] >= i
        invariant visits == DenseUpTo(m, j) + DenseColumn(m, j)[..i]
      {
        DenseStep(m, i, j, k);
        assert DenseColumn(m, j)[..i + 1] == DenseColumn(m, j)[..i] + [Entry(i, j, Cell(m, i, j))];
        if k < valuesSoFar && i == m.rowIndices[k] {
          visits := visits + [Entry(i, j, m.values[k])];
          k := k + 1;
        } else {
          visits := visits + [Entry(i, j, 0)];
        }
      }
      DenseEnd(m, j, k);
      assert DenseColumn(m, j)[..m.rows] == DenseColumn(m, j);
    }
  }

  /** `eachInColumn(j)`: visits every cell of column `j`, zeros included, row-ascending. */
  method EachInColumn(m: Matrix, j: int) returns (visits: seq<Entry>)
    requires Valid(m) && 0 <= j < m.columns
    ensures visits == DenseColumn(m, j)
  {
    visits := [];
    var k := m.columnPointers[j];
    var valuesSoFar := m.columnPointers[j + 1];
    ColumnRowsIncrease(m, j);
    for i := 0 to m.rows
      invariant m.columnPointers[j] <= k <= m.columnPointers[j + 1]
      invariant forall t :: m.columnPointers[j] <= t < k ==> m.rowIndices[t] < i
      invariant k < m.columnPointers[j + 1] ==> m.rowIndices[k] >= i
      invariant visits == DenseColumn(m, j)[..i]
    {
      DenseStep(m, i, j, k);
      assert DenseColumn(m, j)[..i + 1] == DenseColumn(m, j)[..i] + [Entry(i, j, Cell(m, i, j))];
      if k < valuesSoFar && i == m.rowIndices[k] {
        visits := visits + [Entry(i, j, m.values[k])];
        k := k + 1;
      } else {
        visits := visits + [Entry(i, j, 0)];
      }
    }
    assert DenseColumn(m, j)[..m.rows] == DenseColumn(m, j);
  }

  /** `eachNonZeroInColumn(j)`: visits the stored triples of column `j`, row-ascending. */
  method EachNonZeroInColumn(m: Matrix, j: int) returns (visits: seq<Entry>)
    requires Valid(m) && 0 <= j < m.columns
    ensures visits == Tag(Column(m, j), j)
    ensures forall e :: e in visits <==> e.col == j && e.value != 0 && Cell(m, e.row, j) == e.value
  {
    visits := [];
    var k := m.columnPointers[j];
    while k < m.columnPointers[j + 1]
      invariant m.columnPointers[j] <= k <= m.columnPointers[j + 1]
      invariant visits == Tag(Column(m, j), j)[..k - m.columnPointers[j]]
    {
      visits := visits + [Entry(m.rowIndices[k], j, m.values[k])];
      k := k + 1;
    }
    forall e ensures e in visits <==> e.col == j && e.value != 0 && Cell(m, e.row, j) == e.value {
      ColumnEntriesAreCells(m, j, e);
    }
  }

  /** The stored triples of column `j` are exactly its non-zero cells. */
  lemma ColumnEntriesAreCells(m: Matrix, j: int, e: Entry)
    requires Valid(m) && 0 <= j < m.columns
    ensures e in Tag(Column(m, j), j) <==> e.col == j && e.value != 0 && Cell(m, e.row, j) == e.value
  {
    var col := Column(m, j);
    assert WellFormedColumn(col, m.rows);
    if e in Tag(col, j) {
      var t :| 0 <= t < |col| && Tag(col, j)[t] == e;
      assert col[t] == Slot(e.row, e.value);
      LookupMember(col, e.row, e.value);
    }
    if e.col == j && e.value != 0 && Cell(m, e.row, j) == e.value {
      var t := LookupNonZero(col, e.row);
      assert Tag(col, j)[t] == e;
    }
  }

  /** `eachNonZeroInColumn(j, fromRow, toRow)`: visits the stored triples of column `j`
      whose row lies in `[fromRow, toRow)`, stopping at the first row beyond. */
  method EachNonZeroInColumnRange(m: Matrix, j: int, fromRow: int, toRow: int) returns (visits: seq<Entry>)
    requires Valid(m) && 0 <= j < m.columns
    requires 0 <= fromRow <= toRow <= m.rows
    ensures visits == Tag(InRange(Column(m, j), fromRow, toRow), j)
  {
    var col := Column(m, j);
    var lo := m.columnPointers[j];
    assert WellFormedColumn(col, m.rows);
    visits := [];
    var k := lo;
    while k < m.columnPointers[j + 1]
      invariant lo <= k <= m.columnPointers[j + 1]
      invariant visits == Tag(InRange(col[..k - lo], fromRow, toRow), j)
    {
      var row := m.rowIndices[k];
      ColumnSlot(m, j, k);
      InRangeStep(col, k - lo, fromRow, toRow);
      if fromRow <= row {
        if row < toRow {
          TagAppend(InRange(col[..k - lo], fromRow, toRow), [col[k - lo]], j);
          visits := visits + [Entry(row, j, m.values[k])];
        } else {
          InRangeStop(col, k - lo, fromRow, toRow);
          return;
        }
      }
      k := k + 1;
    }
    assert col[..|col|] == col;
  }

  // ---------------------------------------------------------------------------
  // Updaters

  /** The abstract effect of rewriting column `j` with `MapSlots`: a stored cell in
      the row range becomes `f` of its value (removed when that is zero); every other
      cell of the column is unchanged. */
  lemma UpdatedCells(m: Matrix, r: Matrix, j: int, f: (int, int, Byte) -> Byte, from: int, to: int)
    requires Valid(m) && Valid(r) && r.rows == m.rows && r.columns == m.columns && 0 <= j < m.columns
    requires Column(r, j) == MapSlots(Column(m, j), f, j, from, to)
    ensures forall i :: Cell(r, i, j) ==
              if from <= i < to && Cell(m, i, j) != 0 then f(i, j, Cell(m, i, j)) else Cell(m, i, j)
  {
    assert WellFormedColumn(Column(m, j), m.rows);
    forall i ensures Cell(r, i, j) ==
        if from <= i < to && Cell(m, i, j) != 0 then f(i, j, Cell(m, i, j)) else Cell(m, i, j)
    {
      MapSlotsLookup(Column(m, j), f, j, from, to, i);
    }
  }

  /** Over the whole row range, only stored cells are rewritten, and those lie in range. */
  lemma UpdatedCellsAll(m: Matrix, r: Matrix, j: int, f: (int, int, Byte) -> Byte)
    requires Valid(m) && Valid(r) && r.rows == m.rows && r.columns == m.columns && 0 <= j < m.columns
    requires Column(r, j) == MapSlots(Column(m, j), f, j, 0, m.rows)
    ensures forall i :: Cell(r, i, j) == if Cell(m, i, j) != 0 then f(i, j, Cell(m, i, j)) else 0
  {
    UpdatedCells(m, r, j, f, 0, m.rows);
    forall i ensures Cell(r, i, j) == if Cell(m, i, j) != 0 then f(i, j, Cell(m, i, j)) else 0 {
      if Cell(m, i, j) != 0 {
        assert WellFormedColumn(Column(m, j), m.rows);
        var t := LookupNonZero(Column(m, j), i);
      }
    }
  }

  /** The rewrite of column `j`, as both `updateNonZeroInColumn(j, function)` and
      each column pass of `updateNonZero` perform it: after a removal the cursor `k`
      and the running count `count` step back together, so that the entry shifted
      into the removed one's place is not skipped. */
  method UpdateColumn(m: Matrix, j: int, f: (int, int, Byte) -> Byte, count: int)
    returns (r: Matrix, calls: seq<Entry>, count': int)
    requires Valid(m) && 0 <= j < m.columns
    requires count == m.columnPointers[j]
    ensures Valid(r) && r.rows == m.rows && r.columns == m.columns
    ensures calls == Tag(Column(m, j), j)
    ensures Column(r, j) == MapSlots(Column(m, j), f, j, 0, m.rows)
    ensures forall c :: 0 <= c < m.columns && c != j ==> Column(r, c) == Column(m, c)
    ensures forall c :: 0 <= c <= j ==> r.columnPointers[c] == m.columnPointers[c]
    ensures count' == r.columnPointers[j + 1]
  {
    ghost var col := Column(m, j);
    ghost var g := 0;
    RewriteStart(m, j, f, 0, m.rows);
    r := m;
    calls := [];
    count' := count;
    var k := m.columnPointers[j];
    while k < r.columnPointers[j + 1]
      invariant Rewriting(m, r, j, f, 0, m.rows, g, k)
      invariant count' == k
      invariant calls == Tag(col[..g], j)
      decreases r.columnPointers[j + 1] - k
    {
      ColumnStep(m, r, j, f, g, k, calls);
      var call;
      r, k, call := RewriteSlot(m, r, j, f, 0, m.rows, g, k);
      calls := calls + [call];
      count' := k;
      g := g + 1;
    }
    RewriteAt(m, r, j, f, 0, m.rows, g, k);
  }

  /** One step of the column updater: the slot under the cursor is visited and
      removed or overwritten, and one more original slot is done. */
  lemma ColumnStep(m: Matrix, r: Matrix, j: int, f: (int, int, Byte) -> Byte, g: int, k: int, calls: seq<Entry>)
    requires Valid(m) && 0 <= j < m.columns
    requires Rewriting(m, r, j, f, 0, m.rows, g, k)
    requires calls == Tag(Column(m, j)[..g], j)
    requires k < r.columnPointers[j + 1]
    ensures r.columnPointers[j] <= k && k < |r.rowIndices| && k < |r.values|
    ensures 0 <= r.rowIndices[k] < m.rows
    ensures calls + [Entry(r.rowIndices[k], j, r.values[k])] == Tag(Column(m, j)[..g + 1], j)
  {
    var col := Column(m, j);
    RewriteAt(m, r, j, f, 0, m.rows, g, k);
    assert WellFormedColumn(col, m.rows);
    TagStep(col, g, j);
  }

  /** One pass of the updaters' loop on a slot whose row lies in `[from, to)`: the
      function is evaluated on the slot, which is removed when it yields zero and
      overwritten otherwise. `k'` is the offset the next pass reads: the same offset
      after a removal (the Java code's `k--` then `k++`), the next one otherwise. */
  method RewriteSlot(m: Matrix, r: Matrix, j: int, f: (int, int, Byte) -> Byte, from: int, to: int, ghost g: int, k: int)
    returns (r': Matrix, k': int, call: Entry)
    requires Valid(m) && 0 <= j < m.columns
    requires Rewriting(m, r, j, f, from, to, g, k)
    requires k < r.columnPointers[j + 1] && from <= r.rowIndices[k] < to
    ensures Rewriting(m, r', j, f, from, to, g + 1, k')
    ensures call == Entry(r.rowIndices[k], j, r.values[k])
    ensures r'.columnPointers[j + 1] - k' == r.columnPointers[j + 1] - k - 1
  {
    RewriteAt(m, r, j, f, from, to, g, k);
    RewriteApply(m, r, j, f, from, to, g, k);
    var value := f(r.rowIndices[k], j, r.values[k]);
    call := Entry(r.rowIndices[k], j, r.values[k]);
    if value == 0 {
      r' := Remove(r, k, j);
      k' := k;
    } else {
      r' := Overwrite(r, k, j, value);
      k' := k + 1;
    }
  }

  /** `updateNonZeroInColumn(j, function)`: applies the function once to each stored
      entry of column `j`, in row order, removing the entries it maps to zero. */
  method UpdateNonZeroInColumn(m: Matrix, j: int, f: (int, int, Byte) -> Byte) returns (r: Matrix, calls: seq<Entry>)
    requires Valid(m) && 0 <= j < m.columns
    ensures Valid(r) && r.rows == m.rows && r.columns == m.columns
    ensures calls == Tag(Column(m, j), j)
    ensures forall c :: 0 <= c < m.columns && c != j ==> Column(r, c) == Column(m, c)
    ensures forall i :: Cell(r, i, j) == if Cell(m, i, j) != 0 then f(i, j, Cell(m, i, j)) else 0
  {
    var count;
    r, calls, count := UpdateColumn(m, j, f, m.columnPointers[j]);
    UpdatedCellsAll(m, r, j, f);
  }

  /** `updateNonZeroInColumn(j, function, fromRow, toRow)`: as above, restricted to
      the entries whose row lies in `[fromRow, toRow)`, stopping at the first row beyond. */
  method UpdateNonZeroInColumnRange(m: Matrix, j: int, f: (int, int, Byte) -> Byte, fromRow: int, toRow: int)
    returns (r: Matrix, calls: seq<Entry>)
    requires Valid(m) && 0 <= j < m.columns
    requires 0 <= fromRow <= toRow <= m.rows
    ensures Valid(r) && r.rows == m.rows && r.columns == m.columns
    ensures calls == Tag(InRange(Column(m, j), fromRow, toRow), j)
    ensures Column(r, j) == MapSlots(Column(m, j), f, j, fromRow, toRow)
    ensures forall c :: 0 <= c < m.columns && c != j ==> Column(r, c) == Column(m, c)
    ensures forall i :: Cell(r, i, j) ==
              if fromRow <= i < toRow && Cell(m, i, j) != 0 then f(i, j, Cell(m, i, j)) else Cell(m, i, j)
  {
    ghost var col := Column(m, j);
    ghost var g := 0;
    RewriteStart(m, j, f, fromRow, toRow);
    r := m;
    calls := [];
    var k := m.columnPointers[j];
    while k < r.columnPointers[j + 1]
      invariant Rewriting(m, r, j, f, fromRow, toRow, g, k)
      invariant calls == Tag(InRange(col[..g], fromRow, toRow), j)
      decreases r.columnPointers[j + 1] - k
    {
      RangeStep(m, r, j, f, fromRow, toRow, g, k, calls);
      var row := r.rowIndices[k];
      if fromRow <= row {
        if row < toRow {
          var call;
          r, k, call := RewriteSlot(m, r, j, f, fromRow, toRow, g, k);
          calls := calls + [call];
        } else {
          break;
        }
      } else {
        k := k + 1;
      }
      g := g + 1;
    }
    UpdateRangeEnd(m, r, j, f, fromRow, toRow, g, k, calls);
  }

  /** One step of the ranged updater, in each of its three outcomes: below the range
      the slot is stepped over, inside it the slot is visited and rewritten. */
  lemma RangeStep(m: Matrix, r: Matrix, j: int, f: (int, int, Byte) -> Byte, fromRow: int, toRow: int,
                  g: int, k: int, calls: seq<Entry>)
    requires Valid(m) && 0 <= j < m.columns
    requires Rewriting(m, r, j, f, fromRow, toRow, g, k)
    requires calls == Tag(InRange(Column(m, j)[..g], fromRow, toRow), j)
    requires k < r.columnPointers[j + 1]
    ensures 0 <= k < |r.rowIndices| && k < |r.values|
    ensures r.rowIndices[k] < fromRow ==>
              && Rewriting(m, r, j, f, fromRow, toRow, g + 1, k + 1)
              && calls == Tag(InRange(Column(m, j)[..g + 1], fromRow, toRow), j)
    ensures fromRow <= r.rowIndices[k] < toRow ==>
              calls + [Entry(r.rowIndices[k], j, r.values[k])] == Tag(InRange(Column(m, j)[..g + 1], fromRow, toRow), j)
  {
    var col := Column(m, j);
    RewriteAt(m, r, j, f, fromRow, toRow, g, k);
    InRangeStep(col, g, fromRow, toRow);
    if r.rowIndices[k] < fromRow {
      RewriteSkip(m, r, j, f, fromRow, toRow, g, k);
    } else if r.rowIndices[k] < toRow {
      TagAppend(InRange(col[..g], fromRow, toRow), [col[g]], j);
    }
  }

  /** Once the scan meets a row at or beyond `toRow`, nothing after it is visited or rewritten. */
  lemma UpdateStop(col: seq<Slot>, g: int, f: (int, int, Byte) -> Byte, j: int, fromRow: int, toRow: int)
    requires Sorted(col) && 0 <= g < |col| && col[g].row >= toRow
    ensures InRange(col, fromRow, toRow) == InRange(col[..g], fromRow, toRow)
    ensures MapSlots(col, f, j, fromRow, toRow) == MapSlots(col[..g], f, j, fromRow, toRow) + col[g..]
  {
    InRangeStop(col, g, fromRow, toRow);
    var tail := col[g..];
    assert col[..g] + tail == col;
    forall t | 0 <= t < |tail| ensures tail[t].row >= toRow {
      assert tail[t] == col[g + t];
    }
    MapSlotsBeyond(tail, f, j, fromRow, toRow);
    MapSlotsAppend(col[..g], tail, f, j, fromRow, toRow);
  }

  /** The ranged updater stops when the column is exhausted or the cursor reaches a
      row at or beyond `toRow`; either way the whole column has been rewritten. */
  lemma UpdateRangeEnd(m: Matrix, r: Matrix, j: int, f: (int, int, Byte) -> Byte, fromRow: int, toRow: int,
                       g: int, k: int, calls: seq<Entry>)
    requires Valid(m) && 0 <= j < m.columns
    requires Rewriting(m, r, j, f, fromRow, toRow, g, k)
    requires calls == Tag(InRange(Column(m, j)[..g], fromRow, toRow), j)
    requires k < r.columnPointers[j + 1] ==> r.rowIndices[k] >= toRow
    ensures Valid(r) && r.rows == m.rows && r.columns == m.columns
    ensures forall c :: 0 <= c < m.columns && c != j ==> Column(r, c) == Column(m, c)
    ensures calls == Tag(InRange(Column(m, j), fromRow, toRow), j)
    ensures Column(r, j) == MapSlots(Column(m, j), f, j, fromRow, toRow)
    ensures forall i :: Cell(r, i, j) ==
              if fromRow <= i < toRow && Cell(m, i, j) != 0 then f(i, j, Cell(m, i, j)) else Cell(m, i, j)
  {
    var col := Column(m, j);
    RewriteAt(m, r, j, f, fromRow, toRow, g, k);
    if k == r.columnPointers[j + 1] {
      assert col[..g] == col;
      assert col[g..] == [];
    } else {
      assert WellFormedColumn(col, m.rows);
      UpdateStop(col, g, f, j, fromRow, toRow);
    }
    UpdatedCells(m, r, j, f, fromRow, toRow);
  }

  /** `updateNonZero(function)`: applies the function once to every stored entry,
      column-major and row-ascending, removing the entries it maps to zero. The
      running count of visited entries moves with the cursor (both step back after a
      removal), so the scan ends although the live count shrinks under it. */
  method UpdateNonZero(m: Matrix, f: (int, int, Byte) -> Byte) returns (r: Matrix, calls: seq<Entry>)
    requires Valid(m)
    ensures Valid(r) && r.rows == m.rows && r.columns == m.columns
    ensures calls == Entries(m)
    ensures forall i, c :: 0 <= c < m.columns ==>
              Cell(r, i, c) == if Cell(m, i, c) != 0 then f(i, c, Cell(m, i, c)) else 0
  {
    r := m;
    calls := [];
    var nonZeroCount := 0;
    var j := 0;
    while nonZeroCount < r.cardinality
      invariant Valid(r) && r.rows == m.rows && r.columns == m.columns
      invariant 0 <= j <= m.columns
      invariant nonZeroCount == r.columnPointers[j]
      invariant forall c :: 0 <= c < j ==> Column(r, c) == MapSlots(Column(m, c), f, c, 0, m.rows)
      invariant forall c :: j <= c < m.columns ==> Column(r, c) == Column(m, c)
      invariant calls == EntriesUpTo(m, j)
      decreases m.columns - j
    {
      var cs;
      ghost var prev := r;
      r, cs, nonZeroCount := UpdateColumn(r, j, f, nonZeroCount);
      UpdateNonZeroStep(m, prev, r, j, f, calls, cs);
      calls := calls + cs;
      j := j + 1;
    }
    UpdateNonZeroEnd(m, r, j, f, calls);
  }

  /** One pass of `updateNonZero`'s loop rewrites column `j` and visits its entries. */
  lemma UpdateNonZeroStep(m: Matrix, prev: Matrix, r: Matrix, j: int, f: (int, int, Byte) -> Byte,
                          calls: seq<Entry>, cs: seq<Entry>)
    requires Valid(m) && Valid(prev) && Valid(r) && 0 <= j < m.columns
    requires prev.rows == m.rows && prev.columns == m.columns && r.rows == m.rows && r.columns == m.columns
    requires forall c :: 0 <= c < j ==> Column(prev, c) == MapSlots(Column(m, c), f, c, 0, m.rows)
    requires forall c :: j <= c < m.columns ==> Column(prev, c) == Column(m, c)
    requires calls == EntriesUpTo(m, j) && cs == Tag(Column(prev, j), j)
    requires Column(r, j) == MapSlots(Column(prev, j), f, j, 0, m.rows)
    requires forall c :: 0 <= c < m.columns && c != j ==> Column(r, c) == Column(prev, c)
    ensures forall c :: 0 <= c < j + 1 ==> Column(r, c) == MapSlots(Column(m, c), f, c, 0, m.rows)
    ensures forall c :: j + 1 <= c < m.columns ==> Column(r, c) == Column(m, c)
    ensures calls + cs == EntriesUpTo(m, j + 1)
  {
  }

  /** `updateNonZero`'s loop stops once the columns walked hold every entry: the
      columns left are empty, so every column has been rewritten. */
  lemma UpdateNonZeroEnd(m: Matrix, r: Matrix, j: int, f: (int, int, Byte) -> Byte, calls: seq<Entry>)
    requires Valid(m) && Valid(r) && r.rows == m.rows && r.columns == m.columns
    requires 0 <= j <= m.columns && r.columnPointers[j] >= r.cardinality
    requires forall c :: 0 <= c < j ==> Column(r, c) == MapSlots(Column(m, c), f, c, 0, m.rows)
    requires forall c :: j <= c < m.columns ==> Column(r, c) == Column(m, c)
    requires calls == EntriesUpTo(m, j)
    ensures calls == Entries(m)
    ensures forall i, c :: 0 <= c < m.columns ==>
              Cell(r, i, c) == if Cell(m, i, c) != 0 then f(i, c, Cell(m, i, c)) else 0
  {
    forall c | j <= c < m.columns ensures |Column(m, c)| == 0 {
      assert r.columnPointers[c] == r.columnPointers[c + 1];
    }
    EmptyTail(m, j, m.columns);
    forall c | 0 <= c < m.columns
      ensures Column(r, c) == MapSlots(Column(m, c), f, c, 0, m.rows)
    {
      if c >= j {
        assert Column(m, c) == [];
      }
    }
    forall i, c | 0 <= c < m.columns
      ensures Cell(r, i, c) == if Cell(m, i, c) != 0 then f(i, c, Cell(m, i, c)) else 0
    {
      UpdatedCellsAll(m, r, c, f);
    }
  }
}
