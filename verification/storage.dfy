/** The storage core of a compressed-column-storage (CCS) byte matrix: the three
    parallel buffers, the invariants every public operation keeps, and the abstract
    views (columns, cells, column-major entries) every other module is specified
    against. */
module CcsStorage {

  /** A symbol of the 256-element field; 0 is the field's zero, the value never stored. */
  type Byte = b: int | 0 <= b < 256

  /** The largest Java `int`. */
  const IntMax: int := 0x7fff_ffff

  /** One stored entry as it sits in a column: its row and its value. */
  datatype Slot = Slot(row: int, value: Byte)

  /** A `(row, column, value)` triple, the argument of a visitor callback. */
  datatype Entry = Entry(row: int, col: int, value: Byte)

  /** The matrix: dimensions, live-entry count and the three buffers.
      `values` and `rowIndices` are parallel buffers whose first `cardinality`
      places are live; `columnPointers[j] .. columnPointers[j + 1]` is the slice
      of column `j`. */
  datatype Matrix = Matrix(rows: int, columns: int, cardinality: int,
                           values: seq<Byte>, rowIndices: seq<int>,
                           columnPointers: seq<int>)

  /** The exceptions the modelled code can raise. */
  datatype Failure = NegativeArraySize | EndOfStream | IndexOutOfBounds | CannotGrow | NoSelection

  datatype Result<T> = Ok(value: T) | Fail(failure: Failure)

  datatype Option<T> = None | Some(value: T)

  /** Sizes agree and the column pointers start at 0, never decrease and end at
      `cardinality`, which fits in the buffers. */
  predicate Shaped(m: Matrix) {
    && 0 <= m.rows && 0 <= m.columns
    && |m.rowIndices| == |m.values|
    && 0 <= m.cardinality <= |m.values|
    && |m.columnPointers| == m.columns + 1
    && m.columnPointers[0] == 0
    && m.columnPointers[m.columns] == m.cardinality
    && forall a, b :: 0 <= a <= b <= m.columns ==> m.columnPointers[a] <= m.columnPointers[b]
  }

  /** The stored entries of column `c`, in buffer order. */
  function Column(m: Matrix, c: int): (ps: seq<Slot>)
    requires Shaped(m) && 0 <= c < m.columns
    ensures |ps| == m.columnPointers[c + 1] - m.columnPointers[c]
  {
    var lo := m.columnPointers[c];
    seq(m.columnPointers[c + 1] - lo,
        t requires 0 <= t < m.columnPointers[c + 1] - lo => Slot(m.rowIndices[lo + t], m.values[lo + t]))
  }

  /** Rows strictly increase along `ps`. */
  predicate Sorted(ps: seq<Slot>) {
    forall s, t :: 0 <= s < t < |ps| ==> ps[s].row < ps[t].row
  }

  /** A column of a matrix with `rows` rows: rows in range, strictly increasing, no stored zero. */
  predicate WellFormedColumn(ps: seq<Slot>, rows: int) {
    && Sorted(ps)
    && forall t :: 0 <= t < |ps| ==> 0 <= ps[t].row < rows && ps[t].value != 0
  }

  /** All the CCS invariants. */
  predicate Valid(m: Matrix) {
    && Shaped(m)
    && forall c :: 0 <= c < m.columns ==> WellFormedColumn(Column(m, c), m.rows)
  }

  /** The reference reading of a column: the value stored for row `i`, else zero. */
  function Lookup(ps: seq<Slot>, i: int): Byte {
    if |ps| == 0 then 0
    else if ps[0].row == i then ps[0].value
    else Lookup(ps[1..], i)
  }

  /** The abstract matrix: the value at `(i, j)`, implicitly zero when nothing is stored. */
  function Cell(m: Matrix, i: int, j: int): Byte
    requires Shaped(m) && 0 <= j < m.columns
  {
    Lookup(Column(m, j), i)
  }

  /** Two matrices hold the same dimensions and the same stored columns. */
  predicate SameContent(a: Matrix, b: Matrix)
    requires Shaped(a) && Shaped(b)
  {
    && a.rows == b.rows && a.columns == b.columns
    && forall c :: 0 <= c < a.columns ==> Column(a, c) == Column(b, c)
  }

  /** The slots of a column labelled with their column number. */
  function Tag(ps: seq<Slot>, c: int): (es: seq<Entry>)
    ensures |es| == |ps|
  {
    seq(|ps|, t requires 0 <= t < |ps| => Entry(ps[t].row, c, ps[t].value))
  }

  /** The stored entries of the columns before `c`, column-major and row-ascending. */
  function EntriesUpTo(m: Matrix, c: int): seq<Entry>
    requires Shaped(m) && 0 <= c <= m.columns
  {
    if c == 0 then [] else EntriesUpTo(m, c - 1) + Tag(Column(m, c - 1), c - 1)
  }

  /** Every stored entry, column-major and row-ascending. */
  function Entries(m: Matrix): seq<Entry>
    requires Shaped(m)
  {
    EntriesUpTo(m, m.columns)
  }

  function Zeros<T>(n: nat, zero: T): (z: seq<T>)
    ensures |z| == n && forall t :: 0 <= t < n ==> z[t] == zero
  {
    seq(n, _ => zero)
  }

  function SlotValues(ps: seq<Slot>): (vs: seq<Byte>)
    ensures |vs| == |ps| && forall t :: 0 <= t < |ps| ==> vs[t] == ps[t].value
  {
    seq(|ps|, t requires 0 <= t < |ps| => ps[t].value)
  }

  function SlotRows(ps: seq<Slot>): (rs: seq<int>)
    ensures |rs| == |ps| && forall t :: 0 <= t < |ps| ==> rs[t] == ps[t].row
  {
    seq(|ps|, t requires 0 <= t < |ps| => ps[t].row)
  }

  /** The columns laid end to end, as the buffers hold them. */
  function Flat(cols: seq<seq<Slot>>): seq<Slot> {
    if |cols| == 0 then [] else Flat(cols[..|cols| - 1]) + cols[|cols| - 1]
  }

  /** The matrix whose columns are `cols`, with buffers of length `capacity`
      (zero past the live prefix, as freshly allocated Java arrays are). */
  function Assemble(rows: int, cols: seq<seq<Slot>>, capacity: int): Matrix
    requires capacity >= |Flat(cols)|
  {
    var flat := Flat(cols);
    Matrix(rows, |cols|, |flat|,
           SlotValues(flat) + Zeros(capacity - |flat|, 0 as Byte),
           SlotRows(flat) + Zeros(capacity - |flat|, 0),
           seq(|cols| + 1, c requires 0 <= c <= |cols| => |Flat(cols[..c])|))
  }

  // ---------------------------------------------------------------------------
  // Reading a column

  lemma {:induction false} LookupFound(ps: seq<Slot>, t: int, i: int)
    requires 0 <= t < |ps| && ps[t].row == i
    requires forall s :: 0 <= s < t ==> ps[s].row != i
    ensures Lookup(ps, i) == ps[t].value
    decreases t
  {
    if t > 0 {
      assert ps[0].row != i;
      LookupFound(ps[1..], t - 1, i);
    }
  }

  lemma {:induction false} LookupMissing(ps: seq<Slot>, i: int)
    requires forall t :: 0 <= t < |ps| ==> ps[t].row != i
    ensures Lookup(ps, i) == 0
    decreases |ps|
  {
    if |ps| > 0 {
      LookupMissing(ps[1..], i);
    }
  }

  /** In a sorted column, the value read for the row of slot `t` is that slot's value. */
  lemma LookupSorted(ps: seq<Slot>, t: int)
    requires Sorted(ps) && 0 <= t < |ps|
    ensures Lookup(ps, ps[t].row) == ps[t].value
  {
    LookupFound(ps, t, ps[t].row);
  }

  /** A non-zero read comes from a slot holding that row and value. */
  lemma LookupNonZero(ps: seq<Slot>, i: int) returns (t: int)
    requires Sorted(ps) && Lookup(ps, i) != 0
    ensures 0 <= t < |ps| && ps[t] == Slot(i, Lookup(ps, i))
  {
    if forall s :: 0 <= s < |ps| ==> ps[s].row != i {
      LookupMissing(ps, i);
      assert false;
    }
    t :| 0 <= t < |ps| && ps[t].row == i;
    LookupSorted(ps, t);
  }

  /** Sorted columns that hold the same slots for row `i` read the same for row `i`. */
  lemma LookupAgree(p: seq<Slot>, q: seq<Slot>, i: int)
    requires Sorted(p) && Sorted(q)
    requires forall v: Byte :: Slot(i, v) in p <==> Slot(i, v) in q
    ensures Lookup(p, i) == Lookup(q, i)
  {
    if Lookup(p, i) != 0 {
      var t := LookupNonZero(p, i);
      assert Slot(i, Lookup(p, i)) in q;
      var s :| 0 <= s < |q| && q[s] == Slot(i, Lookup(p, i));
      LookupSorted(q, s);
    } else if Lookup(q, i) != 0 {
      var t := LookupNonZero(q, i);
      assert Slot(i, Lookup(q, i)) in p;
      var s :| 0 <= s < |p| && p[s] == Slot(i, Lookup(q, i));
      LookupSorted(p, s);
    }
  }

  /** A sorted column holding slot `(i, v)` reads `v` for row `i`. */
  lemma LookupMember(p: seq<Slot>, i: int, v: Byte)
    requires Sorted(p) && Slot(i, v) in p
    ensures Lookup(p, i) == v
  {
    var s :| 0 <= s < |p| && p[s] == Slot(i, v);
    LookupSorted(p, s);
  }

  /** A column holding no slot for row `i` reads zero for it. */
  lemma LookupAbsent(p: seq<Slot>, i: int)
    requires forall v: Byte :: Slot(i, v) !in p
    ensures Lookup(p, i) == 0
  {
    forall t | 0 <= t < |p| ensures p[t].row != i {
      assert Slot(p[t].row, p[t].value) in p;
    }
    LookupMissing(p, i);
  }

  /** Reading `a + b` for a row that `a` does not hold reads `b`. */
  lemma {:induction false} LookupSkip(a: seq<Slot>, b: seq<Slot>, i: int)
    requires forall t :: 0 <= t < |a| ==> a[t].row != i
    ensures Lookup(a + b, i) == Lookup(b, i)
    decreases |a|
  {
    if |a| > 0 {
      assert (a + b)[1..] == a[1..] + b;
      LookupSkip(a[1..], b, i);
    } else {
      assert a + b == b;
    }
  }

  /** Reading `a + b` for a row that `b` does not hold reads `a`. */
  lemma {:induction false} LookupPrefix(a: seq<Slot>, b: seq<Slot>, i: int)
    requires forall t :: 0 <= t < |b| ==> b[t].row != i
    ensures Lookup(a + b, i) == Lookup(a, i)
    decreases |a|
  {
    if |a| > 0 {
      assert (a + b)[1..] == a[1..] + b;
      LookupPrefix(a[1..], b, i);
    } else {
      assert a + b == b;
      LookupMissing(b, i);
    }
  }

  /** The rows a column stores. */
  function RowSet(ps: seq<Slot>): set<int> {
    set t | 0 <= t < |ps| :: ps[t].row
  }

  /** A sorted column stores as many rows as it has slots. */
  lemma {:induction false} RowSetSize(ps: seq<Slot>)
    requires Sorted(ps)
    ensures |RowSet(ps)| == |ps|
    decreases |ps|
  {
    if |ps| > 0 {
      RowSetSize(ps[1..]);
      RowSetCons(ps);
    }
  }

  /** The rows of a non-empty sorted column: its first row, which no later slot
      repeats, and the rows of the rest. */
  lemma RowSetCons(ps: seq<Slot>)
    requires Sorted(ps) && |ps| > 0
    ensures RowSet(ps) == {ps[0].row} + RowSet(ps[1..])
    ensures ps[0].row !in RowSet(ps[1..])
  {
    var rest := ps[1..];
    forall x | x in RowSet(ps) ensures x in {ps[0].row} + RowSet(rest) {
      var t :| 0 <= t < |ps| && ps[t].row == x;
      if t > 0 { assert rest[t - 1].row == x; }
    }
    forall x | x in RowSet(rest) ensures x in RowSet(ps) {
      var t :| 0 <= t < |rest| && rest[t].row == x;
      assert ps[t + 1].row == x;
    }
    forall t | 0 <= t < |rest| ensures rest[t].row != ps[0].row {
      assert rest[t] == ps[t + 1];
    }
  }

  /** The slots of `ps` whose row lies in `[from, to)`, in order. */
  function InRange(ps: seq<Slot>, from: int, to: int): seq<Slot> {
    if |ps| == 0 then []
    else InRange(ps[..|ps| - 1], from, to)
         + (if from <= ps[|ps| - 1].row < to then [ps[|ps| - 1]] else [])
  }

  lemma InRangeStep(ps: seq<Slot>, n: int, from: int, to: int)
    requires 0 <= n < |ps|
    ensures InRange(ps[..n + 1], from, to)
            == InRange(ps[..n], from, to) + (if from <= ps[n].row < to then [ps[n]] else [])
  {
    assert ps[..n + 1][..n] == ps[..n];
  }

  lemma {:induction false} InRangeMembers(ps: seq<Slot>, from: int, to: int)
    ensures forall s :: s in InRange(ps, from, to) <==> s in ps && from <= s.row < to
    decreases |ps|
  {
    if |ps| > 0 {
      InRangeMembers(ps[..|ps| - 1], from, to);
      assert ps == ps[..|ps| - 1] + [ps[|ps| - 1]];
    }
  }

  lemma {:induction false} InRangeSorted(ps: seq<Slot>, from: int, to: int)
    requires Sorted(ps)
    ensures Sorted(InRange(ps, from, to))
    decreases |ps|
  {
    if |ps| > 0 {
      var init := ps[..|ps| - 1];
      InRangeSorted(init, from, to);
      InRangeMembers(init, from, to);
      var q := InRange(init, from, to);
      forall s | 0 <= s < |q| ensures q[s].row < ps[|ps| - 1].row {
        assert q[s] in init;
      }
    }
  }

  /** Past the first row at or beyond `to`, nothing is in range. */
  lemma {:induction false} InRangeBeyond(ps: seq<Slot>, from: int, to: int)
    requires forall t :: 0 <= t < |ps| ==> ps[t].row >= to
    ensures InRange(ps, from, to) == []
    decreases |ps|
  {
    if |ps| > 0 {
      InRangeBeyond(ps[..|ps| - 1], from, to);
    }
  }

  lemma {:induction false} InRangeAppend(a: seq<Slot>, b: seq<Slot>, from: int, to: int)
    ensures InRange(a + b, from, to) == InRange(a, from, to) + InRange(b, from, to)
    decreases |b|
  {
    if |b| > 0 {
      var b' := b[..|b| - 1];
      InRangeAppend(a, b', from, to);
      assert (a + b)[..|a + b| - 1] == a + b';
    } else {
      assert a + b == a;
    }
  }

  /** A sorted column filtered to rows below `to` ends before the first row at or beyond `to`. */
  lemma InRangeStop(ps: seq<Slot>, g: int, from: int, to: int)
    requires Sorted(ps) && 0 <= g < |ps| && ps[g].row >= to
    ensures InRange(ps, from, to) == InRange(ps[..g], from, to)
  {
    var tail := ps[g..];
    assert ps[..g] + tail == ps;
    forall t | 0 <= t < |tail| ensures tail[t].row >= to {
      assert tail[t] == ps[g + t];
    }
    InRangeBeyond(tail, from, to);
    InRangeAppend(ps[..g], tail, from, to);
    assert InRange(ps[..g], from, to) + [] == InRange(ps[..g], from, to);
  }

  /** The rows in `[from, to)` that a column reads as non-zero. */
  function NonZeroRows(ps: seq<Slot>, from: int, to: int): set<int> {
    set i | from <= i < to && Lookup(ps, i) != 0
  }

  /** The stored rows of a well-formed column within `[from, to)` are exactly the
      non-zero cells of that row range. */
  lemma InRangeCount(ps: seq<Slot>, rows: int, from: int, to: int)
    requires WellFormedColumn(ps, rows)
    ensures |InRange(ps, from, to)| == |NonZeroRows(ps, from, to)|
  {
    var q := InRange(ps, from, to);
    InRangeMembers(ps, from, to);
    InRangeSorted(ps, from, to);
    RowSetSize(q);
    var cells := NonZeroRows(ps, from, to);
    forall x | x in RowSet(q) ensures x in cells {
      var t :| 0 <= t < |q| && q[t].row == x;
      assert q[t] in ps;
      var s :| 0 <= s < |ps| && ps[s] == q[t];
      LookupSorted(ps, s);
    }
    forall x | x in cells ensures x in RowSet(q) {
      var s := LookupNonZero(ps, x);
      assert ps[s] in q;
      var t :| 0 <= t < |q| && q[t] == ps[s];
    }
    assert RowSet(q) == cells;
    assert |q| == |RowSet(q)| == |cells|;
  }

  lemma ColumnSlot(m: Matrix, j: int, t: int)
    requires Shaped(m) && 0 <= j < m.columns
    requires m.columnPointers[j] <= t < m.columnPointers[j + 1]
    ensures Column(m, j)[t - m.columnPointers[j]] == Slot(m.rowIndices[t], m.values[t])
  {
  }

  /** The offset `t` of column `j` holds the cell `(rowIndices[t], j)`. */
  lemma CellAt(m: Matrix, j: int, t: int)
    requires Valid(m) && 0 <= j < m.columns
    requires m.columnPointers[j] <= t < m.columnPointers[j + 1]
    ensures Cell(m, m.rowIndices[t], j) == m.values[t]
  {
    ColumnSlot(m, j, t);
    assert WellFormedColumn(Column(m, j), m.rows);
    LookupSorted(Column(m, j), t - m.columnPointers[j]);
  }

  /** A row stored nowhere in column `j` reads as zero. */
  lemma CellNotStored(m: Matrix, i: int, j: int)
    requires Shaped(m) && 0 <= j < m.columns
    requires forall t :: m.columnPointers[j] <= t < m.columnPointers[j + 1] ==> m.rowIndices[t] != i
    ensures Cell(m, i, j) == 0
  {
    var ps := Column(m, j);
    forall s | 0 <= s < |ps| ensures ps[s].row != i {
      ColumnSlot(m, j, m.columnPointers[j] + s);
    }
    LookupMissing(ps, i);
  }

  /** Column `j` of a valid matrix is strictly increasing in its row-index slice. */
  lemma ColumnRowsIncrease(m: Matrix, j: int)
    requires Valid(m) && 0 <= j < m.columns
    ensures forall s, t :: m.columnPointers[j] <= s < t < m.columnPointers[j + 1] ==>
                             m.rowIndices[s] < m.rowIndices[t]
    ensures forall t :: m.columnPointers[j] <= t < m.columnPointers[j + 1] ==>
                          0 <= m.rowIndices[t] < m.rows && m.values[t] != 0
  {
    var lo := m.columnPointers[j];
    var ps := Column(m, j);
    assert WellFormedColumn(ps, m.rows);
    forall s, t | lo <= s < t < m.columnPointers[j + 1]
      ensures m.rowIndices[s] < m.rowIndices[t]
    {
      assert ps[s - lo].row < ps[t - lo].row;
    }
    forall t | lo <= t < m.columnPointers[j + 1]
      ensures 0 <= m.rowIndices[t] < m.rows && m.values[t] != 0
    {
      assert ps[t - lo] == Slot(m.rowIndices[t], m.values[t]);
    }
  }

  /** Matrices that agree on shape, pointers and the live prefix of both buffers
      have the same columns. */
  lemma SameLivePrefix(a: Matrix, b: Matrix)
    requires Shaped(a) && Shaped(b)
    requires a.rows == b.rows && a.columns == b.columns
    requires a.columnPointers == b.columnPointers
    requires a.values[..a.cardinality] == b.values[..b.cardinality]
    requires a.rowIndices[..a.cardinality] == b.rowIndices[..b.cardinality]
    ensures SameContent(a, b)
  {
    forall c | 0 <= c < a.columns ensures Column(a, c) == Column(b, c) {
      var lo := a.columnPointers[c];
      forall t | 0 <= t < |Column(a, c)| ensures Column(a, c)[t] == Column(b, c)[t] {
        assert a.values[..a.cardinality][lo + t] == a.values[lo + t];
        assert b.values[..b.cardinality][lo + t] == b.values[lo + t];
        assert a.rowIndices[..a.cardinality][lo + t] == a.rowIndices[lo + t];
        assert b.rowIndices[..b.cardinality][lo + t] == b.rowIndices[lo + t];
      }
    }
  }

  // ---------------------------------------------------------------------------
  // How many entries fit

  /** A strictly increasing column whose rows lie in `[lo, hi)` has at most `hi - lo` slots. */
  lemma {:induction false} SortedFits(ps: seq<Slot>, lo: int, hi: int)
    requires lo <= hi && Sorted(ps)
    requires forall t :: 0 <= t < |ps| ==> lo <= ps[t].row < hi
    ensures |ps| <= hi - lo
    decreases |ps|
  {
    if |ps| > 0 {
      assert forall t :: 0 <= t < |ps[1..]| ==> ps[1..][t] == ps[t + 1];
      SortedFits(ps[1..], ps[0].row + 1, hi);
    }
  }

  /** ... and at most `hi - lo - 1` if one row `i` of that range is missing. */
  lemma {:induction false} SortedFitsAvoiding(ps: seq<Slot>, lo: int, hi: int, i: int)
    requires lo <= i < hi && Sorted(ps)
    requires forall t :: 0 <= t < |ps| ==> lo <= ps[t].row < hi && ps[t].row != i
    ensures |ps| <= hi - lo - 1
    decreases |ps|
  {
    if |ps| > 0 {
      assert forall t :: 0 <= t < |ps[1..]| ==> ps[1..][t] == ps[t + 1];
      if ps[0].row < i {
        SortedFitsAvoiding(ps[1..], ps[0].row + 1, hi, i);
      } else {
        SortedFits(ps, ps[0].row, hi);
      }
    }
  }

  lemma ColumnFits(m: Matrix, c: int)
    requires Valid(m) && 0 <= c < m.columns
    ensures m.columnPointers[c + 1] - m.columnPointers[c] <= m.rows
  {
    assert WellFormedColumn(Column(m, c), m.rows);
    SortedFits(Column(m, c), 0, m.rows);
  }

  lemma {:induction false} PointerGap(m: Matrix, a: int, b: int)
    requires Valid(m) && 0 <= a <= b <= m.columns
    ensures m.columnPointers[b] - m.columnPointers[a] <= (b - a) * m.rows
    decreases b - a
  {
    if a < b {
      PointerGap(m, a, b - 1);
      ColumnFits(m, b - 1);
      assert (b - a) * m.rows == (b - 1 - a) * m.rows + m.rows;
    }
  }

  /** A valid matrix never stores more entries than it has cells. */
  lemma CardinalityBound(m: Matrix)
    requires Valid(m)
    ensures m.cardinality <= m.rows * m.columns
  {
    PointerGap(m, 0, m.columns);
  }

  /** A valid matrix with an unstored cell stores fewer entries than it has cells. */
  lemma CardinalityBelowCells(m: Matrix, i: int, j: int)
    requires Valid(m) && 0 <= i < m.rows && 0 <= j < m.columns
    requires Cell(m, i, j) == 0
    ensures m.cardinality < m.rows * m.columns
  {
    var ps := Column(m, j);
    assert WellFormedColumn(ps, m.rows);
    forall t | 0 <= t < |ps| ensures ps[t].row != i {
      LookupSorted(ps, t);
    }
    SortedFitsAvoiding(ps, 0, m.rows, i);
    PointerGap(m, 0, j);
    PointerGap(m, j + 1, m.columns);
    assert m.columns * m.rows == j * m.rows + m.rows + (m.columns - (j + 1)) * m.rows;
  }

  // ---------------------------------------------------------------------------
  // Column-major entries

  lemma {:induction false} EntriesUpToLength(m: Matrix, c: int)
    requires Shaped(m) && 0 <= c <= m.columns
    ensures |EntriesUpTo(m, c)| == m.columnPointers[c]
    decreases c
  {
    if c > 0 {
      EntriesUpToLength(m, c - 1);
    }
  }

  /** The entry at buffer offset `t` of column `j` is `(rowIndices[t], j, values[t])`,
      in every prefix of the column-major listing long enough to hold it. */
  lemma {:induction false} EntryAtOffset(m: Matrix, c: int, j: int, t: int)
    requires Shaped(m) && 0 <= j < c <= m.columns
    requires m.columnPointers[j] <= t < m.columnPointers[j + 1]
    ensures t < |EntriesUpTo(m, c)|
    ensures EntriesUpTo(m, c)[t] == Entry(m.rowIndices[t], j, m.values[t])
    decreases c
  {
    EntriesUpToLength(m, c - 1);
    EntriesUpToLength(m, c);
    if c - 1 == j {
      ColumnSlot(m, j, t);
    } else {
      EntryAtOffset(m, c - 1, j, t);
    }
  }

  /** Every live offset belongs to exactly one column. */
  lemma ColumnOfOffset(m: Matrix, t: int) returns (j: int)
    requires Shaped(m) && 0 <= t < m.cardinality
    ensures 0 <= j < m.columns && m.columnPointers[j] <= t < m.columnPointers[j + 1]
  {
    j := m.columns - 1;
    while t < m.columnPointers[j]
      invariant 0 <= j < m.columns && t < m.columnPointers[j + 1]
      decreases j
    {
      j := j - 1;
    }
  }

  /** Traversal completeness: the column-major listing holds exactly the non-zero cells. */
  lemma EntriesAreCells(m: Matrix, e: Entry)
    requires Valid(m)
    ensures e in Entries(m) <==>
              0 <= e.col < m.columns && e.value != 0 && Cell(m, e.row, e.col) == e.value
  {
    EntriesUpToLength(m, m.columns);
    if e in Entries(m) {
      var t :| 0 <= t < |Entries(m)| && Entries(m)[t] == e;
      var j := ColumnOfOffset(m, t);
      EntryAtOffset(m, m.columns, j, t);
      CellAt(m, j, t);
      ColumnRowsIncrease(m, j);
    }
    if 0 <= e.col < m.columns && e.value != 0 && Cell(m, e.row, e.col) == e.value {
      var s := LookupNonZero(Column(m, e.col), e.row);
      var t := m.columnPointers[e.col] + s;
      ColumnSlot(m, e.col, t);
      EntryAtOffset(m, m.columns, e.col, t);
    }
  }

  // ---------------------------------------------------------------------------
  // Assembling a matrix from its columns

  lemma FlatStep(cols: seq<seq<Slot>>, c: int)
    requires 0 <= c < |cols|
    ensures Flat(cols[..c + 1]) == Flat(cols[..c]) + cols[c]
  {
    assert cols[..c + 1][..c] == cols[..c];
  }

  lemma {:induction false} FlatPrefix(cols: seq<seq<Slot>>, a: int, b: int)
    requires 0 <= a <= b <= |cols|
    ensures |Flat(cols[..a])| <= |Flat(cols[..b])|
    ensures Flat(cols[..b])[..|Flat(cols[..a])|] == Flat(cols[..a])
    decreases b - a
  {
    if a < b {
      FlatPrefix(cols, a, b - 1);
      FlatStep(cols, b - 1);
    }
  }

  /** The slice of the laid-out columns between two consecutive column starts is that column. */
  lemma FlatSlice(cols: seq<seq<Slot>>, c: int)
    requires 0 <= c < |cols|
    ensures |Flat(cols[..c])| + |cols[c]| <= |Flat(cols)|
    ensures Flat(cols)[|Flat(cols[..c])|..|Flat(cols[..c])| + |cols[c]|] == cols[c]
  {
    FlatStep(cols, c);
    FlatPrefix(cols, c + 1, |cols|);
    assert cols[..|cols|] == cols;
    var f := Flat(cols);
    var n := |Flat(cols[..c])|;
    assert f[..n + |cols[c]|] == Flat(cols[..c]) + cols[c];
    assert f[n..n + |cols[c]|] == f[..n + |cols[c]|][n..];
  }

  /** An assembled matrix has pointers at the column boundaries of the laid-out columns. */
  lemma AssembleShaped(rows: int, cols: seq<seq<Slot>>, capacity: int)
    requires capacity >= |Flat(cols)| && rows >= 0
    ensures Shaped(Assemble(rows, cols, capacity))
  {
    var m := Assemble(rows, cols, capacity);
    assert cols[..|cols|] == cols;
    assert cols[..0] == [];
    assert m.columnPointers[0] == 0;
    assert m.columnPointers[m.columns] == m.cardinality;
    forall a, b | 0 <= a <= b <= |cols|
      ensures m.columnPointers[a] <= m.columnPointers[b]
    {
      FlatPrefix(cols, a, b);
    }
  }

  /** The live prefix of an assembled matrix's buffers is the laid-out columns. */
  lemma AssembleBuffers(rows: int, cols: seq<seq<Slot>>, capacity: int, x: int)
    requires capacity >= |Flat(cols)| && 0 <= x < |Flat(cols)|
    ensures Assemble(rows, cols, capacity).values[x] == Flat(cols)[x].value
    ensures Assemble(rows, cols, capacity).rowIndices[x] == Flat(cols)[x].row
  {
  }

  /** Slot `t` of column `c` sits in the laid-out columns at that column's start plus `t`. */
  lemma FlatAt(cols: seq<seq<Slot>>, c: int, t: int)
    requires 0 <= c < |cols| && 0 <= t < |cols[c]|
    ensures |Flat(cols[..c])| + t < |Flat(cols)|
    ensures Flat(cols)[|Flat(cols[..c])| + t] == cols[c][t]
  {
    var lo := |Flat(cols[..c])|;
    FlatSlice(cols, c);
    assert Flat(cols)[lo + t] == Flat(cols)[lo..lo + |cols[c]|][t];
  }

  /** Reading slot `t` of a column from the buffers. */
  lemma ColumnAt(m: Matrix, c: int, lo: int, t: int, x: Slot)
    requires Shaped(m) && 0 <= c < m.columns
    requires m.columnPointers[c] == lo && 0 <= t && lo + t < m.columnPointers[c + 1]
    requires m.rowIndices[lo + t] == x.row && m.values[lo + t] == x.value
    ensures t < |Column(m, c)| && Column(m, c)[t] == x
  {
  }

  /** A matrix whose pointers sit at the column boundaries of `cols` and whose buffers
      start with the laid-out columns has `cols[c]` as column `c`. */
  lemma ColumnOfLaidOut(m: Matrix, cols: seq<seq<Slot>>, c: int)
    requires Shaped(m) && m.columns == |cols| && 0 <= c < |cols|
    requires forall d :: 0 <= d <= |cols| ==> m.columnPointers[d] == |Flat(cols[..d])|
    requires |Flat(cols)| <= |m.values|
    requires forall x :: 0 <= x < |Flat(cols)| ==> m.rowIndices[x] == Flat(cols)[x].row && m.values[x] == Flat(cols)[x].value
    ensures Column(m, c) == cols[c]
  {
    var lo := |Flat(cols[..c])|;
    assert m.columnPointers[c + 1] == lo + |cols[c]| by {
      FlatStep(cols, c);
    }
    forall t | 0 <= t < |cols[c]| ensures Column(m, c)[t] == cols[c][t] {
      FlatAt(cols, c, t);
      ColumnAt(m, c, lo, t, Flat(cols)[lo + t]);
    }
  }

  /** Column `c` of an assembled matrix is `cols[c]`. */
  lemma AssembleColumn(rows: int, cols: seq<seq<Slot>>, capacity: int, c: int)
    requires capacity >= |Flat(cols)| && rows >= 0 && 0 <= c < |cols|
    ensures Shaped(Assemble(rows, cols, capacity))
    ensures Column(Assemble(rows, cols, capacity), c) == cols[c]
  {
    AssembleShaped(rows, cols, capacity);
    var m := Assemble(rows, cols, capacity);
    forall x | 0 <= x < |Flat(cols)|
      ensures m.rowIndices[x] == Flat(cols)[x].row && m.values[x] == Flat(cols)[x].value
    {
      AssembleBuffers(rows, cols, capacity, x);
    }
    ColumnOfLaidOut(m, cols, c);
  }

  /** The columns of an assembled matrix are the columns it was assembled from. */
  lemma AssembleColumns(rows: int, cols: seq<seq<Slot>>, capacity: int)
    requires capacity >= |Flat(cols)| && rows >= 0
    ensures Shaped(Assemble(rows, cols, capacity))
    ensures forall c :: 0 <= c < |cols| ==> Column(Assemble(rows, cols, capacity), c) == cols[c]
  {
    AssembleShaped(rows, cols, capacity);
    forall c | 0 <= c < |cols| ensures Column(Assemble(rows, cols, capacity), c) == cols[c] {
      AssembleColumn(rows, cols, capacity, c);
    }
  }

  /** Assembling well-formed columns gives a valid matrix. */
  lemma AssembleValid(rows: int, cols: seq<seq<Slot>>, capacity: int)
    requires capacity >= |Flat(cols)| && rows >= 0
    requires forall c :: 0 <= c < |cols| ==> WellFormedColumn(cols[c], rows)
    ensures Valid(Assemble(rows, cols, capacity))
    ensures forall c :: 0 <= c < |cols| ==> Column(Assemble(rows, cols, capacity), c) == cols[c]
  {
    AssembleColumns(rows, cols, capacity);
  }
}
