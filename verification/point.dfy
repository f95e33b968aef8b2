/** Point access and mutation: `safeGet`, `safeSet`, `safeUpdate`, `nonZeroAt`,
    the column counts, and the `insert`/`remove` primitives that shift the whole
    live buffer and patch the column pointers. */
module CcsPoint {
  import opened CcsStorage
  import opened CcsSearch
  import opened CcsCapacity

  /** The buffers after `arraycopy` moved `[k, cardinality)` one place right and
      `(i, v)` was written at `k`, with the pointers after column `j` bumped. */
  function ShiftIn(m: Matrix, k: int, i: int, j: int, v: Byte): Matrix
    requires Shaped(m) && 0 <= j < m.columns
    requires m.columnPointers[j] <= k <= m.columnPointers[j + 1]
    requires |m.values| > m.cardinality
  {
    m.(cardinality := m.cardinality + 1,
       values := seq(|m.values|, t requires 0 <= t < |m.values| =>
                       if t < k then m.values[t] else if t == k then v
                       else if t <= m.cardinality then m.values[t - 1] else m.values[t]),
       rowIndices := seq(|m.rowIndices|, t requires 0 <= t < |m.rowIndices| =>
                       if t < k then m.rowIndices[t] else if t == k then i
                       else if t <= m.cardinality then m.rowIndices[t - 1] else m.rowIndices[t]),
       columnPointers := seq(m.columns + 1, c requires 0 <= c <= m.columns =>
                       if c <= j then m.columnPointers[c] else m.columnPointers[c] + 1))
  }

  lemma ShiftInShaped(m: Matrix, k: int, i: int, j: int, v: Byte)
    requires Shaped(m) && 0 <= j < m.columns
    requires m.columnPointers[j] <= k <= m.columnPointers[j + 1]
    requires |m.values| > m.cardinality
    ensures Shaped(ShiftIn(m, k, i, j, v))
  {
  }

  /** Columns other than `j` read the same slots after the shift. */
  lemma ShiftInOther(m: Matrix, k: int, i: int, j: int, v: Byte, c: int)
    requires Shaped(m) && 0 <= j < m.columns
    requires m.columnPointers[j] <= k <= m.columnPointers[j + 1]
    requires |m.values| > m.cardinality
    requires 0 <= c < m.columns && c != j
    ensures Shaped(ShiftIn(m, k, i, j, v)) && Column(ShiftIn(m, k, i, j, v), c) == Column(m, c)
  {
    ShiftInShaped(m, k, i, j, v);
    var r := ShiftIn(m, k, i, j, v);
    if c < j {
      assert m.columnPointers[c + 1] <= m.columnPointers[j];
      forall t | 0 <= t < |Column(m, c)| ensures Column(r, c)[t] == Column(m, c)[t] {
        assert r.values[r.columnPointers[c] + t] == m.values[m.columnPointers[c] + t];
      }
    } else {
      assert m.columnPointers[j + 1] <= m.columnPointers[c];
      assert m.columnPointers[c + 1] <= m.cardinality;
      forall t | 0 <= t < |Column(m, c)| ensures Column(r, c)[t] == Column(m, c)[t] {
        assert r.values[r.columnPointers[c] + t] == m.values[m.columnPointers[c] + t];
      }
    }
  }

  /** Slot `(i, v)` enters column `j` at the position of `k`. */
  lemma ShiftInColumn(m: Matrix, k: int, i: int, j: int, v: Byte)
    requires Shaped(m) && 0 <= j < m.columns
    requires m.columnPointers[j] <= k <= m.columnPointers[j + 1]
    requires |m.values| > m.cardinality
    ensures Shaped(ShiftIn(m, k, i, j, v))
    ensures var p := k - m.columnPointers[j];
            Column(ShiftIn(m, k, i, j, v), j) == Column(m, j)[..p] + [Slot(i, v)] + Column(m, j)[p..]
  {
    ShiftInShaped(m, k, i, j, v);
    var r := ShiftIn(m, k, i, j, v);
    var p := k - m.columnPointers[j];
    var col := Column(m, j);
    var want := col[..p] + [Slot(i, v)] + col[p..];
    assert m.columnPointers[j + 1] <= m.cardinality;
    forall t | 0 <= t < |want| ensures Column(r, j)[t] == want[t] {
      if t < p {
        assert want[t] == col[t];
      } else if t == p {
        assert want[t] == Slot(i, v);
      } else {
        assert want[t] == col[t - 1];
      }
    }
  }

  /** What the shift does to the columns: slot `(i, v)` enters column `j` at the
      position of `k`; every other column is untouched. */
  lemma ShiftInColumns(m: Matrix, k: int, i: int, j: int, v: Byte)
    requires Shaped(m) && 0 <= j < m.columns
    requires m.columnPointers[j] <= k <= m.columnPointers[j + 1]
    requires |m.values| > m.cardinality
    ensures Shaped(ShiftIn(m, k, i, j, v))
    ensures forall c :: 0 <= c < m.columns && c != j ==> Column(ShiftIn(m, k, i, j, v), c) == Column(m, c)
    ensures var p := k - m.columnPointers[j];
            Column(ShiftIn(m, k, i, j, v), j) == Column(m, j)[..p] + [Slot(i, v)] + Column(m, j)[p..]
  {
    ShiftInShaped(m, k, i, j, v);
    forall c | 0 <= c < m.columns && c != j ensures Column(ShiftIn(m, k, i, j, v), c) == Column(m, c) {
      ShiftInOther(m, k, i, j, v, c);
    }
    ShiftInColumn(m, k, i, j, v);
  }

  /** The buffers `insert` shifts into: grown first when they are full. */
  function Widened(m: Matrix, i: int, j: int): (g: Matrix)
    requires Valid(m) && 0 <= i < m.rows && 0 <= j < m.columns
    requires Cell(m, i, j) == 0 && m.cardinality < IntMax
    ensures Valid(g) && SameContent(g, m) && |g.values| > g.cardinality
    ensures g.rows == m.rows && g.columns == m.columns
    ensures g.cardinality == m.cardinality && g.columnPointers == m.columnPointers
  {
    CardinalityBelowCells(m, i, j);
    if |m.values| < m.cardinality + 1 then Grown(m) else m
  }

  /** `insert(k, i, j, value)`: called with the located offset of an unstored cell;
      a zero value changes nothing, otherwise the buffers grow if full and the new
      entry lands in column `j` in row order. */
  function Insert(m: Matrix, k: int, i: int, j: int, v: Byte): (r: Matrix)
    requires Valid(m) && 0 <= i < m.rows && 0 <= j < m.columns
    requires k == Locate(m, i, j) && !(k < m.columnPointers[j + 1] && m.rowIndices[k] == i)
    requires m.cardinality < IntMax
    ensures Valid(r) && r.rows == m.rows && r.columns == m.columns
    ensures v == 0 ==> r == m
    ensures v != 0 ==> r.cardinality == m.cardinality + 1
    ensures v != 0 ==> forall c :: 0 <= c <= m.columns ==>
              r.columnPointers[c] == if c <= j then m.columnPointers[c] else m.columnPointers[c] + 1
    ensures forall c :: 0 <= c < m.columns && c != j ==> Column(r, c) == Column(m, c)
    ensures v != 0 ==> var p := k - m.columnPointers[j];
              Column(r, j) == Column(m, j)[..p] + [Slot(i, v)] + Column(m, j)[p..]
  {
    if v == 0 then m else InsertNonZero(m, k, i, j, v)
  }

  /** The non-zero branch of `insert`: grow the buffers if full, then shift the new
      entry in at offset `k`. */
  function InsertNonZero(m: Matrix, k: int, i: int, j: int, v: Byte): (r: Matrix)
    requires Valid(m) && 0 <= i < m.rows && 0 <= j < m.columns && v != 0
    requires k == Locate(m, i, j) && !(k < m.columnPointers[j + 1] && m.rowIndices[k] == i)
    requires m.cardinality < IntMax
    ensures Valid(r) && r.rows == m.rows && r.columns == m.columns
    ensures r.cardinality == m.cardinality + 1
    ensures forall c :: 0 <= c <= m.columns ==>
              r.columnPointers[c] == if c <= j then m.columnPointers[c] else m.columnPointers[c] + 1
    ensures forall c :: 0 <= c < m.columns && c != j ==> Column(r, c) == Column(m, c)
    ensures var p := k - m.columnPointers[j];
            Column(r, j) == Column(m, j)[..p] + [Slot(i, v)] + Column(m, j)[p..]
  {
    LocateMeaning(m, i, j);
    var g := Widened(m, i, j);
    ShiftInColumns(g, k, i, j, v);
    InsertKeepsValid(m, g, ShiftIn(g, k, i, j, v), k, i, j, v);
    ShiftIn(g, k, i, j, v)
  }

  /** `growup` as `insert` calls it: on a full buffer of a matrix with room left, it cannot fail. */
  function Grown(m: Matrix): (g: Matrix)
    requires Valid(m) && |m.values| == m.cardinality
    requires m.cardinality < Capacity(m)
    ensures Valid(g) && SameContent(g, m) && |g.values| > g.cardinality
    ensures g.rows == m.rows && g.columns == m.columns
    ensures g.cardinality == m.cardinality && g.columnPointers == m.columnPointers
  {
    match Growup(m)
    case Ok(g) => g
    case Fail(_) => assert false; m
  }

  lemma InsertKeepsValid(m: Matrix, g: Matrix, r: Matrix, k: int, i: int, j: int, v: Byte)
    requires Valid(m) && 0 <= i < m.rows && 0 <= j < m.columns && v != 0
    requires k == Locate(m, i, j) && !(k < m.columnPointers[j + 1] && m.rowIndices[k] == i)
    requires Valid(g) && SameContent(g, m) && |g.values| > g.cardinality
    requires g.cardinality == m.cardinality && g.columnPointers == m.columnPointers
    requires r == ShiftIn(g, k, i, j, v)
    ensures Valid(r)
  {
    ShiftInColumns(g, k, i, j, v);
    InsertedColumn(m, k, i, j, v);
    assert Shaped(r);
    forall c | 0 <= c < r.columns ensures WellFormedColumn(Column(r, c), r.rows) {
      if c != j {
        assert Column(r, c) == Column(g, c) == Column(m, c);
      } else {
        assert Column(r, j) == Column(m, j)[..k - m.columnPointers[j]] + [Slot(i, v)]
                               + Column(m, j)[k - m.columnPointers[j]..];
      }
    }
  }

  /** The column `insert` produces is well formed. */
  lemma InsertedColumn(m: Matrix, k: int, i: int, j: int, v: Byte)
    requires Valid(m) && 0 <= i < m.rows && 0 <= j < m.columns && v != 0
    requires k == Locate(m, i, j) && !(k < m.columnPointers[j + 1] && m.rowIndices[k] == i)
    ensures var p := k - m.columnPointers[j];
            WellFormedColumn(Column(m, j)[..p] + [Slot(i, v)] + Column(m, j)[p..], m.rows)
  {
    LocateMeaning(m, i, j);
    var p := k - m.columnPointers[j];
    var col := Column(m, j);
    assert WellFormedColumn(col, m.rows);
    assert forall t :: k <= t < m.columnPointers[j + 1] ==> m.rowIndices[t] > i;
    RowsAroundOffset(m, i, j, k);
    SortedInsert(col, p, Slot(i, v), m.rows);
  }

  /** Row facts about the buffer slice of column `j` restated on the column's slots. */
  lemma RowsAroundOffset(m: Matrix, i: int, j: int, k: int)
    requires Shaped(m) && 0 <= j < m.columns
    requires m.columnPointers[j] <= k <= m.columnPointers[j + 1]
    requires forall t :: m.columnPointers[j] <= t < k ==> m.rowIndices[t] < i
    requires forall t :: k <= t < m.columnPointers[j + 1] ==> m.rowIndices[t] > i
    ensures var p := k - m.columnPointers[j];
            forall s :: 0 <= s < |Column(m, j)| ==>
              (s < p ==> Column(m, j)[s].row < i) && (s >= p ==> Column(m, j)[s].row > i)
  {
  }

  /** Inserting a slot whose row falls strictly between its neighbours keeps a column well formed. */
  lemma SortedInsert(col: seq<Slot>, p: int, x: Slot, rows: int)
    requires WellFormedColumn(col, rows) && 0 <= p <= |col|
    requires 0 <= x.row < rows && x.value != 0
    requires forall s :: 0 <= s < |col| ==> (s < p ==> col[s].row < x.row) && (s >= p ==> col[s].row > x.row)
    ensures WellFormedColumn(col[..p] + [x] + col[p..], rows)
  {
    var want := col[..p] + [x] + col[p..];
    assert forall t :: 0 <= t < p ==> want[t] == col[t];
    assert want[p] == x;
    assert forall t :: p < t < |want| ==> want[t] == col[t - 1];
  }

  /** The buffers after `remove(k, j)`: the live tail from `k + 1` moved one place left,
      the pointers after column `j` lowered by one. */
  function Shrunk(m: Matrix, k: int, j: int): Matrix
    requires Shaped(m) && 0 <= j < m.columns
    requires m.columnPointers[j] <= k < m.columnPointers[j + 1]
  {
    m.(cardinality := m.cardinality - 1,
       values := seq(|m.values|, t requires 0 <= t < |m.values| =>
                   if t < k then m.values[t]
                   else if t < m.cardinality - 1 then m.values[t + 1] else m.values[t]),
       rowIndices := seq(|m.rowIndices|, t requires 0 <= t < |m.rowIndices| =>
                   if t < k then m.rowIndices[t]
                   else if t < m.cardinality - 1 then m.rowIndices[t + 1] else m.rowIndices[t]),
       columnPointers := seq(m.columns + 1, c requires 0 <= c <= m.columns =>
                   if c <= j then m.columnPointers[c] else m.columnPointers[c] - 1))
  }

  /** `remove(k, j)`: drop the entry at offset `k` of column `j`, shifting the rest of
      the live buffer left and lowering the pointers after column `j`. */
  function Remove(m: Matrix, k: int, j: int): (r: Matrix)
    requires Valid(m) && 0 <= j < m.columns
    requires m.columnPointers[j] <= k < m.columnPointers[j + 1]
    ensures Valid(r) && r.rows == m.rows && r.columns == m.columns
    ensures r.cardinality == m.cardinality - 1
    ensures forall c :: 0 <= c <= m.columns ==>
              r.columnPointers[c] == if c <= j then m.columnPointers[c] else m.columnPointers[c] - 1
    ensures forall c :: 0 <= c < m.columns && c != j ==> Column(r, c) == Column(m, c)
    ensures var p := k - m.columnPointers[j];
            Column(r, j) == Column(m, j)[..p] + Column(m, j)[p + 1..]
  {
    RemoveColumns(m, k, j);
    Shrunk(m, k, j)
  }

  lemma ShrunkShaped(m: Matrix, k: int, j: int)
    requires Shaped(m) && 0 <= j < m.columns
    requires m.columnPointers[j] <= k < m.columnPointers[j + 1]
    ensures Shaped(Shrunk(m, k, j))
  {
    assert m.columnPointers[j + 1] <= m.cardinality;
  }

  /** Columns other than `j` read the same slots after the shift. */
  lemma ShrunkOther(m: Matrix, k: int, j: int, c: int)
    requires Shaped(m) && 0 <= j < m.columns
    requires m.columnPointers[j] <= k < m.columnPointers[j + 1]
    requires 0 <= c < m.columns && c != j
    ensures Shaped(Shrunk(m, k, j)) && Column(Shrunk(m, k, j), c) == Column(m, c)
  {
    ShrunkShaped(m, k, j);
    var r := Shrunk(m, k, j);
    if c < j {
      assert m.columnPointers[c + 1] <= m.columnPointers[j];
      forall t | 0 <= t < |Column(m, c)| ensures Column(r, c)[t] == Column(m, c)[t] {
        assert r.values[r.columnPointers[c] + t] == m.values[m.columnPointers[c] + t];
      }
    } else {
      assert m.columnPointers[j + 1] <= m.columnPointers[c];
      assert m.columnPointers[c + 1] <= m.cardinality;
      forall t | 0 <= t < |Column(m, c)| ensures Column(r, c)[t] == Column(m, c)[t] {
        assert r.values[r.columnPointers[c] + t] == m.values[m.columnPointers[c] + t];
      }
    }
  }

  /** Column `j` loses exactly the slot at offset `k`. */
  lemma ShrunkColumn(m: Matrix, k: int, j: int)
    requires Shaped(m) && 0 <= j < m.columns
    requires m.columnPointers[j] <= k < m.columnPointers[j + 1]
    ensures Shaped(Shrunk(m, k, j))
    ensures var p := k - m.columnPointers[j];
            Column(Shrunk(m, k, j), j) == Column(m, j)[..p] + Column(m, j)[p + 1..]
  {
    ShrunkShaped(m, k, j);
    var r := Shrunk(m, k, j);
    var p := k - m.columnPointers[j];
    var col := Column(m, j);
    var want := col[..p] + col[p + 1..];
    assert m.columnPointers[j + 1] <= m.cardinality;
    forall t | 0 <= t < |want| ensures Column(r, j)[t] == want[t] {
      if t < p {
        assert want[t] == col[t];
      } else {
        assert want[t] == col[t + 1];
      }
    }
  }

  /** Deleting one slot keeps a column well-formed. */
  lemma DeleteWellFormed(col: seq<Slot>, p: int, rows: int)
    requires WellFormedColumn(col, rows) && 0 <= p < |col|
    ensures WellFormedColumn(col[..p] + col[p + 1..], rows)
  {
    var want := col[..p] + col[p + 1..];
    forall s, t | 0 <= s < t < |want| ensures want[s].row < want[t].row {
      var s' := if s < p then s else s + 1;
      var t' := if t < p then t else t + 1;
      assert want[s] == col[s'] && want[t] == col[t'];
    }
    forall t | 0 <= t < |want| ensures 0 <= want[t].row < rows && want[t].value != 0 {
      var t' := if t < p then t else t + 1;
      assert want[t] == col[t'];
    }
  }

  lemma RemoveColumns(m: Matrix, k: int, j: int)
    requires Valid(m) && 0 <= j < m.columns
    requires m.columnPointers[j] <= k < m.columnPointers[j + 1]
    ensures Valid(Shrunk(m, k, j))
    ensures forall c :: 0 <= c < m.columns && c != j ==> Column(Shrunk(m, k, j), c) == Column(m, c)
    ensures var p := k - m.columnPointers[j];
            Column(Shrunk(m, k, j), j) == Column(m, j)[..p] + Column(m, j)[p + 1..]
  {
    ShrunkShaped(m, k, j);
    var r := Shrunk(m, k, j);
    forall c | 0 <= c < m.columns && c != j ensures Column(r, c) == Column(m, c) {
      ShrunkOther(m, k, j, c);
    }
    ShrunkColumn(m, k, j);
    assert WellFormedColumn(Column(m, j), m.rows);
    DeleteWellFormed(Column(m, j), k - m.columnPointers[j], m.rows);
    forall c | 0 <= c < r.columns ensures WellFormedColumn(Column(r, c), r.rows) {
      if c != j {
        assert WellFormedColumn(Column(m, c), m.rows);
      }
    }
  }

  /** The in-place overwrite `values[k] = value` of a stored entry with a non-zero value. */
  function Overwrite(m: Matrix, k: int, j: int, w: Byte): (r: Matrix)
    requires Valid(m) && 0 <= j < m.columns
    requires m.columnPointers[j] <= k < m.columnPointers[j + 1] && w != 0
    ensures Valid(r) && r.rows == m.rows && r.columns == m.columns
    ensures r.cardinality == m.cardinality && r.columnPointers == m.columnPointers
    ensures forall c :: 0 <= c < m.columns && c != j ==> Column(r, c) == Column(m, c)
    ensures var p := k - m.columnPointers[j];
            Column(r, j) == Column(m, j)[p := Slot(m.rowIndices[k], w)]
  {
    OverwriteColumns(m, k, j, w);
    m.(values := m.values[k := w])
  }

  lemma OverwriteColumns(m: Matrix, k: int, j: int, w: Byte)
    requires Valid(m) && 0 <= j < m.columns
    requires m.columnPointers[j] <= k < m.columnPointers[j + 1] && w != 0
    ensures var r := m.(values := m.values[k := w]);
            && Valid(r)
            && (forall c :: 0 <= c < m.columns && c != j ==> Column(r, c) == Column(m, c))
            && Column(r, j) == Column(m, j)[k - m.columnPointers[j] := Slot(m.rowIndices[k], w)]
  {
    var r := m.(values := m.values[k := w]);
    forall c | 0 <= c < m.columns && c != j ensures Column(r, c) == Column(m, c) {
      OverwriteOther(m, k, j, w, c);
    }
    OverwriteColumn(m, k, j, w);
    assert forall c :: 0 <= c < r.columns ==> WellFormedColumn(Column(r, c), r.rows);
  }

  lemma OverwriteOther(m: Matrix, k: int, j: int, w: Byte, c: int)
    requires Shaped(m) && 0 <= j < m.columns && 0 <= c < m.columns && c != j
    requires m.columnPointers[j] <= k < m.columnPointers[j + 1]
    ensures Column(m.(values := m.values[k := w]), c) == Column(m, c)
  {
    if c < j {
      assert m.columnPointers[c + 1] <= m.columnPointers[j];
    } else {
      assert m.columnPointers[j + 1] <= m.columnPointers[c];
    }
  }

  lemma OverwriteColumn(m: Matrix, k: int, j: int, w: Byte)
    requires Valid(m) && 0 <= j < m.columns
    requires m.columnPointers[j] <= k < m.columnPointers[j + 1] && w != 0
    ensures Column(m.(values := m.values[k := w]), j) == Column(m, j)[k - m.columnPointers[j] := Slot(m.rowIndices[k], w)]
    ensures WellFormedColumn(Column(m.(values := m.values[k := w]), j), m.rows)
  {
    var r := m.(values := m.values[k := w]);
    var p := k - m.columnPointers[j];
    ColumnSlot(m, j, k);
    assert Column(r, j) == Column(m, j)[p := Slot(m.rowIndices[k], w)];
    assert WellFormedColumn(Column(m, j), m.rows);
  }

  /** `safeGet(i, j)`: the binary/linear search agrees with the reference reading of the column. */
  function SafeGet(m: Matrix, i: int, j: int): (r: Byte)
    requires Valid(m) && 0 <= i < m.rows && 0 <= j < m.columns
    ensures r == Cell(m, i, j)
  {
    var k := Locate(m, i, j);
    LocateMeaning(m, i, j);
    if k < m.columnPointers[j + 1] && m.rowIndices[k] == i then m.values[k] else 0
  }

  /** `nonZeroAt(i, j)`: whether the cell is stored, i.e. reads non-zero. */
  function NonZeroAt(m: Matrix, i: int, j: int): (r: bool)
    requires Valid(m) && 0 <= i < m.rows && 0 <= j < m.columns
    ensures r <==> Cell(m, i, j) != 0
  {
    var k := Locate(m, i, j);
    LocateMeaning(m, i, j);
    ColumnRowsIncrease(m, j);
    k < m.columnPointers[j + 1] && m.rowIndices[k] == i
  }

  /** The effect of a point write on the abstract matrix, given the column it leaves. */
  lemma PointWriteCells(m: Matrix, r: Matrix, i: int, j: int, v: Byte)
    requires Valid(m) && Valid(r) && r.rows == m.rows && r.columns == m.columns
    requires 0 <= i < m.rows && 0 <= j < m.columns
    requires forall c :: 0 <= c < m.columns && c != j ==> Column(r, c) == Column(m, c)
    requires forall i', w: Byte :: i' != i ==> (Slot(i', w) in Column(r, j) <==> Slot(i', w) in Column(m, j))
    requires v != 0 ==> Slot(i, v) in Column(r, j)
    requires v == 0 ==> forall w: Byte :: Slot(i, w) !in Column(r, j)
    ensures Cell(r, i, j) == v
    ensures forall i', j' :: 0 <= j' < m.columns && (i', j') != (i, j) ==> Cell(r, i', j') == Cell(m, i', j')
  {
    assert WellFormedColumn(Column(r, j), r.rows) && WellFormedColumn(Column(m, j), m.rows);
    if v != 0 {
      LookupMember(Column(r, j), i, v);
    } else {
      LookupAbsent(Column(r, j), i);
    }
    forall i', j' | 0 <= j' < m.columns && (i', j') != (i, j)
      ensures Cell(r, i', j') == Cell(m, i', j')
    {
      if j' == j {
        LookupAgree(Column(r, j), Column(m, j), i');
      }
    }
  }

  /** `safeSet(i, j, value)`: afterwards the cell reads `value`, every other cell
      reads as before, and the entry count moves by the change in storedness. */
  function SafeSet(m: Matrix, i: int, j: int, v: Byte): (r: Matrix)
    requires Valid(m) && 0 <= i < m.rows && 0 <= j < m.columns
    requires m.cardinality < IntMax
    ensures Valid(r) && r.rows == m.rows && r.columns == m.columns
    ensures Cell(r, i, j) == v
    ensures forall i', j' :: 0 <= j' < m.columns && (i', j') != (i, j) ==> Cell(r, i', j') == Cell(m, i', j')
    ensures r.cardinality == m.cardinality + (if Cell(m, i, j) == 0 && v != 0 then 1
                                               else if Cell(m, i, j) != 0 && v == 0 then -1 else 0)
    ensures Cell(m, i, j) == 0 && v == 0 ==> r == m
  {
    var k := Locate(m, i, j);
    LocateMeaning(m, i, j);
    var r := if k < m.columnPointers[j + 1] && m.rowIndices[k] == i then
               (if v == 0 then Remove(m, k, j) else Overwrite(m, k, j, v))
             else Insert(m, k, i, j, v);
    SafeSetEffect(m, i, j, v, k, r);
    r
  }

  lemma SafeSetEffect(m: Matrix, i: int, j: int, v: Byte, k: int, r: Matrix)
    requires Valid(m) && 0 <= i < m.rows && 0 <= j < m.columns
    requires m.cardinality < IntMax
    requires k == Locate(m, i, j)
    requires r == if k < m.columnPointers[j + 1] && m.rowIndices[k] == i then
                    (if v == 0 then Remove(m, k, j) else Overwrite(m, k, j, v))
                  else Insert(m, k, i, j, v)
    ensures Valid(r) && r.rows == m.rows && r.columns == m.columns
    ensures Cell(r, i, j) == v
    ensures forall i', j' :: 0 <= j' < m.columns && (i', j') != (i, j) ==> Cell(r, i', j') == Cell(m, i', j')
    ensures r.cardinality == m.cardinality + (if Cell(m, i, j) == 0 && v != 0 then 1
                                               else if Cell(m, i, j) != 0 && v == 0 then -1 else 0)
    ensures Cell(m, i, j) == 0 && v == 0 ==> r == m
  {
    LocateMeaning(m, i, j);
    ColumnRowsIncrease(m, j);
    if k < m.columnPointers[j + 1] && m.rowIndices[k] == i {
      if v == 0 {
        RemovedCells(m, i, j, k);
      } else {
        OverwrittenCells(m, i, j, k, v);
      }
    } else if v != 0 {
      InsertedCells(m, i, j, k, v);
    }
  }

  lemma RemovedCells(m: Matrix, i: int, j: int, k: int)
    requires Valid(m) && 0 <= i < m.rows && 0 <= j < m.columns
    requires m.columnPointers[j] <= k < m.columnPointers[j + 1] && m.rowIndices[k] == i
    ensures Cell(Remove(m, k, j), i, j) == 0
    ensures forall i', j' :: 0 <= j' < m.columns && (i', j') != (i, j) ==>
              Cell(Remove(m, k, j), i', j') == Cell(m, i', j')
  {
    var r := Remove(m, k, j);
    var col := Column(m, j);
    assert WellFormedColumn(col, m.rows);
    ColumnSlot(m, j, k);
    DeleteRow(col, k - m.columnPointers[j]);
    PointWriteCells(m, r, i, j, 0);
  }

  /** Deleting slot `p` of a sorted column drops its row and keeps every other slot. */
  lemma DeleteRow(col: seq<Slot>, p: int)
    requires Sorted(col) && 0 <= p < |col|
    ensures forall s: Slot :: s.row != col[p].row ==> (s in col[..p] + col[p + 1..] <==> s in col)
    ensures forall w: Byte :: Slot(col[p].row, w) !in col[..p] + col[p + 1..]
  {
    var d := col[..p] + col[p + 1..];
    assert col == col[..p] + [col[p]] + col[p + 1..];
    forall t | 0 <= t < |d| ensures d[t].row != col[p].row {
      var t' := if t < p then t else t + 1;
      assert d[t] == col[t'] && t' != p;
    }
  }

  lemma OverwrittenCells(m: Matrix, i: int, j: int, k: int, v: Byte)
    requires Valid(m) && 0 <= i < m.rows && 0 <= j < m.columns && v != 0
    requires m.columnPointers[j] <= k < m.columnPointers[j + 1] && m.rowIndices[k] == i
    ensures Cell(Overwrite(m, k, j, v), i, j) == v
    ensures forall i', j' :: 0 <= j' < m.columns && (i', j') != (i, j) ==>
              Cell(Overwrite(m, k, j, v), i', j') == Cell(m, i', j')
  {
    var r := Overwrite(m, k, j, v);
    var p := k - m.columnPointers[j];
    var col := Column(m, j);
    ColumnSlot(m, j, k);
    assert forall t :: 0 <= t < |col| && t != p ==> Column(r, j)[t] == col[t];
    forall i', w: Byte | i' != i ensures Slot(i', w) in Column(r, j) <==> Slot(i', w) in col {
    }
    assert Column(r, j)[p] == Slot(i, v);
    PointWriteCells(m, r, i, j, v);
  }

  lemma InsertedCells(m: Matrix, i: int, j: int, k: int, v: Byte)
    requires Valid(m) && 0 <= i < m.rows && 0 <= j < m.columns && v != 0
    requires k == Locate(m, i, j) && !(k < m.columnPointers[j + 1] && m.rowIndices[k] == i)
    requires m.cardinality < IntMax
    ensures Cell(Insert(m, k, i, j, v), i, j) == v
    ensures forall i', j' :: 0 <= j' < m.columns && (i', j') != (i, j) ==>
              Cell(Insert(m, k, i, j, v), i', j') == Cell(m, i', j')
  {
    var r := Insert(m, k, i, j, v);
    var p := k - m.columnPointers[j];
    var col := Column(m, j);
    assert Column(r, j) == col[..p] + [Slot(i, v)] + col[p..];
    SpliceMembers(col, p, Slot(i, v));
    PointWriteCells(m, r, i, j, v);
  }

  /** The slots of a column with `x` spliced in are `x` and the column's own. */
  lemma SpliceMembers(col: seq<Slot>, p: int, x: Slot)
    requires 0 <= p <= |col|
    ensures forall s :: s in col[..p] + [x] + col[p..] <==> s == x || s in col
  {
    assert col == col[..p] + col[p..];
  }

  /** `safeUpdate(i, j, function)`: the cell becomes `function(i, j, old value)`;
      every other cell keeps its value. */
  function SafeUpdate(m: Matrix, i: int, j: int, f: (int, int, Byte) -> Byte): (r: Matrix)
    requires Valid(m) && 0 <= i < m.rows && 0 <= j < m.columns
    requires m.cardinality < IntMax
    ensures Valid(r) && r.rows == m.rows && r.columns == m.columns
    ensures Cell(r, i, j) == f(i, j, Cell(m, i, j))
    ensures forall i', j' :: 0 <= j' < m.columns && (i', j') != (i, j) ==> Cell(r, i', j') == Cell(m, i', j')
  {
    var k := Locate(m, i, j);
    LocateMeaning(m, i, j);
    if k < m.columnPointers[j + 1] && m.rowIndices[k] == i then
      SafeSet(m, i, j, f(i, j, m.values[k]))
    else
      SafeSet(m, i, j, f(i, j, 0))
  }

  /** `nonZerosInColumn(j)`: the number of non-zero cells of column `j`. */
  function NonZerosInColumn(m: Matrix, j: int): (n: int)
    requires Valid(m) && 0 <= j < m.columns
    ensures n == |NonZeroRows(Column(m, j), 0, m.rows)|
  {
    var col := Column(m, j);
    assert WellFormedColumn(col, m.rows);
    InRangeCount(col, m.rows, 0, m.rows);
    InRangeMembers(col, 0, m.rows);
    InRangeSorted(col, 0, m.rows);
    assert InRange(col, 0, m.rows) == col by {
      InRangeAll(col, m.rows);
    }
    m.columnPointers[j + 1] - m.columnPointers[j]
  }

  /** Filtering a column whose rows all lie in `[0, rows)` to that range keeps every slot. */
  lemma {:induction false} InRangeAll(ps: seq<Slot>, rows: int)
    requires forall t :: 0 <= t < |ps| ==> 0 <= ps[t].row < rows
    ensures InRange(ps, 0, rows) == ps
    decreases |ps|
  {
    if |ps| > 0 {
      var init := ps[..|ps| - 1];
      var last := ps[|ps| - 1];
      assert InRange(init, 0, rows) == init by {
        assert forall t :: 0 <= t < |init| ==> init[t] == ps[t];
        InRangeAll(init, rows);
      }
      assert InRange(ps, 0, rows) == init + [last];
      assert init + [last] == ps;
    }
  }

  /** `nonZerosInColumn(j, fromRow, toRow)`: scans column `j`, stopping at the first
      row at or beyond `toRow`; counts the non-zero cells of rows `[fromRow, toRow)`. */
  method NonZerosInColumnRange(m: Matrix, j: int, fromRow: int, toRow: int) returns (n: int)
    requires Valid(m) && 0 <= j < m.columns
    requires 0 <= fromRow <= toRow <= m.rows
    ensures n == |NonZeroRows(Column(m, j), fromRow, toRow)|
  {
    var col := Column(m, j);
    var lo := m.columnPointers[j];
    assert WellFormedColumn(col, m.rows);
    n := 0;
    var k := lo;
    while k < m.columnPointers[j + 1]
      invariant lo <= k <= m.columnPointers[j + 1]
      invariant n == |InRange(col[..k - lo], fromRow, toRow)|
    {
      var row := m.rowIndices[k];
      ColumnSlot(m, j, k);
      InRangeStep(col, k - lo, fromRow, toRow);
      if fromRow <= row {
        if row < toRow {
          n := n + 1;
        } else {
          InRangeStop(col, k - lo, fromRow, toRow);
          break;
        }
      }
      k := k + 1;
    }
    assert col[..|col|] == col;
    InRangeCount(col, m.rows, fromRow, toRow);
  }
}
