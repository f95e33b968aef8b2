/** The record codec of `writeExternal` / `readExternal`: a header of three Java
    `int`s (rows, columns, cardinality), then one `(row, column, value)` record per
    stored entry, column-major and row-ascending. The decoder is modelled as the
    source writes it and with its column pointers filled forward. */
module CcsCodec {
  import opened CcsStorage
  import opened CcsCapacity
  import opened CcsTraversal

  /** The header and the records, in the order they are written. */
  datatype Stream = Stream(rows: int, columns: int, cardinality: int, records: seq<Entry>)

  /** A value a Java `int` can hold. */
  predicate Int32(x: int) {
    -0x8000_0000 <= x <= IntMax
  }

  function Max(a: int, b: int): int {
    if a < b then b else a
  }

  function Min(a: int, b: int): int {
    if a < b then a else b
  }

  /** What `writeExternal` emits for `m`. */
  function Written(m: Matrix): Stream
    requires Shaped(m)
  {
    Stream(m.rows, m.columns, m.cardinality, Entries(m))
  }

  /** `writeExternal`: the header, then the stored entries visited exactly as
      `eachNonZero` visits them. */
  method WriteExternal(m: Matrix) returns (s: Stream)
    requires Valid(m)
    ensures s == Written(m)
    ensures |s.records| == s.cardinality
  {
    var records := EachNonZero(m);
    EntriesUpToLength(m, m.columns);
    s := Stream(m.rows, m.columns, m.cardinality, records);
  }

  /** Java's wrap-around on values at most one 32-bit turn above the `int` range. */
  lemma Wrap32Near(x: int)
    requires -0x8000_0000 <= x < 0x1_8000_0000
    ensures Wrap32(x) == if x <= IntMax then x else x - 0x1_0000_0000
  {
    if x <= IntMax {
      assert 0 <= x + 0x8000_0000 < 0x1_0000_0000;
    } else {
      assert 0x1_0000_0000 <= x + 0x8000_0000 < 2 * 0x1_0000_0000;
    }
  }

  /** The record loop of `readExternal` from record `k`: each record stores its row
      and value at offset `k` and sets the pointer after its column to `k + 1`. */
  function ReadRecords(s: Stream, k: int, acc: Matrix): (r: Result<Matrix>)
    requires 0 <= k && |acc.columnPointers| == s.columns + 1
    requires |acc.values| == |acc.rowIndices|
    requires k < s.cardinality ==> s.cardinality <= |acc.values|
    ensures r.Ok? <==> || k >= s.cardinality
                       || (&& s.cardinality <= |s.records|
                           && forall t :: k <= t < s.cardinality ==> -1 <= s.records[t].col < s.columns)
    ensures r.Fail? ==> r.failure == EndOfStream || r.failure == IndexOutOfBounds
    ensures r.Fail? && s.cardinality <= |s.records| ==> r.failure == IndexOutOfBounds
    ensures r.Ok? ==> && r.value.rows == acc.rows && r.value.columns == acc.columns
                      && r.value.cardinality == acc.cardinality
                      && |r.value.columnPointers| == |acc.columnPointers|
                      && |r.value.values| == |acc.values| == |r.value.rowIndices|
    decreases s.cardinality - k
  {
    if k >= s.cardinality then Ok(acc)
    else if k >= |s.records| then Fail(EndOfStream)
    else
      var e := s.records[k];
      if e.col + 1 < 0 || e.col + 1 > s.columns then Fail(IndexOutOfBounds)
      else ReadRecords(s, k + 1, acc.(values := acc.values[k := e.value],
                                      rowIndices := acc.rowIndices[k := e.row],
                                      columnPointers := acc.columnPointers[e.col + 1 := k + 1]))
  }

  /** `readExternal` as the Java code writes it: buffers of `align(cardinality)` entries
      and `columns + 1` pointers (a negative length throws), then the record loop.
      Nothing is validated. */
  function ReadExternalAsWritten(s: Stream): (r: Result<Matrix>)
    requires Int32(s.columns) && Int32(s.cardinality)
    ensures r.Ok? <==> && Wrap32(Align(s.cardinality)) >= 0 && -1 <= s.columns < IntMax
                       && (|| s.cardinality <= 0
                           || (&& s.cardinality <= |s.records|
                               && forall t :: 0 <= t < s.cardinality ==> -1 <= s.records[t].col < s.columns))
    ensures r.Fail? && (Wrap32(Align(s.cardinality)) < 0 || s.columns < -1 || s.columns == IntMax) ==>
              r.failure == NegativeArraySize
    ensures r.Ok? ==> && r.value.rows == s.rows && r.value.columns == s.columns
                      && r.value.cardinality == s.cardinality
  {
    var size := Wrap32(Align(s.cardinality));
    Wrap32Near(s.columns + 1);
    Wrap32Near(Align(s.cardinality));
    if size < 0 || Wrap32(s.columns + 1) < 0 then Fail(NegativeArraySize)
    else ReadRecords(s, 0, Matrix(s.rows, s.columns, s.cardinality, Zeros(size, 0 as Byte), Zeros(size, 0),
                                  Zeros(s.columns + 1, 0)))
  }

  /** The largest of the first `c + 1` pointers. */
  function PrefixMax(p: seq<int>, c: int): (x: int)
    requires 0 <= c < |p|
    ensures forall d :: 0 <= d <= c ==> p[d] <= x
    ensures exists d :: 0 <= d <= c && x == p[d]
  {
    if c == 0 then p[0] else Max(PrefixMax(p, c - 1), p[c])
  }

  /** Each pointer raised to the largest pointer before it. */
  function FillForward(p: seq<int>): (f: seq<int>)
    ensures |f| == |p|
    ensures forall c :: 0 <= c < |p| ==> p[c] <= f[c]
    ensures forall a, b :: 0 <= a <= b < |p| ==> f[a] <= f[b]
    ensures |p| > 0 ==> f[0] == p[0]
  {
    seq(|p|, c requires 0 <= c < |p| => PrefixMax(p, c))
  }

  /** Non-decreasing pointers are left as they are. */
  lemma FillForwardSorted(p: seq<int>)
    requires forall a, b :: 0 <= a <= b < |p| ==> p[a] <= p[b]
    ensures FillForward(p) == p
  {
    forall c | 0 <= c < |p| ensures FillForward(p)[c] == p[c] {
      var d :| 0 <= d <= c && PrefixMax(p, c) == p[d];
    }
  }

  /** `readExternal` with the evident repair: after the record loop, the pointer of
      every column that received no record is filled forward from the column
      before it. */
  function ReadExternal(s: Stream): (r: Result<Matrix>)
    requires Int32(s.columns) && Int32(s.cardinality)
    ensures r.Ok? <==> ReadExternalAsWritten(s).Ok?
    ensures r.Fail? ==> r.failure == ReadExternalAsWritten(s).failure
    ensures r.Ok? ==> && r.value.rows == s.rows && r.value.columns == s.columns
                      && r.value.cardinality == s.cardinality
                      && forall a, b :: 0 <= a <= b < |r.value.columnPointers| ==>
                           r.value.columnPointers[a] <= r.value.columnPointers[b]
  {
    match ReadExternalAsWritten(s)
    case Fail(e) => Fail(e)
    case Ok(m) => Ok(m.(columnPointers := FillForward(m.columnPointers)))
  }

  // ---------------------------------------------------------------------------
  // Round trip

  /** The pointer after column `c - 1` once the first `k` records of `Written(m)`
      are read: the end of the last record read from that column, 0 if none was. */
  function PointerAfter(m: Matrix, k: int, c: int): int
    requires Shaped(m) && 1 <= c <= m.columns
  {
    var lo := m.columnPointers[c - 1];
    if lo < k && lo < m.columnPointers[c] then Min(m.columnPointers[c], k) else 0
  }

  /** The decoder's state after reading the first `k` records of `Written(m)`. */
  predicate Reading(m: Matrix, k: int, acc: Matrix) {
    && Shaped(m) && 0 <= k <= m.cardinality
    && acc.rows == m.rows && acc.columns == m.columns && acc.cardinality == m.cardinality
    && |acc.values| == |acc.rowIndices| == Align(m.cardinality)
    && |acc.columnPointers| == m.columns + 1
    && acc.columnPointers[0] == 0
    && (forall c :: 1 <= c <= m.columns ==> acc.columnPointers[c] == PointerAfter(m, k, c))
    && acc.values[..k] == m.values[..k]
    && acc.rowIndices[..k] == m.rowIndices[..k]
  }

  /** Reading record `k`, the entry at offset `k` of column `j`. */
  lemma ReadStep(m: Matrix, k: int, acc: Matrix, j: int)
    requires Valid(m) && Reading(m, k, acc) && k < m.cardinality
    requires 0 <= j < m.columns && m.columnPointers[j] <= k < m.columnPointers[j + 1]
    ensures Reading(m, k + 1, acc.(values := acc.values[k := m.values[k]],
                                   rowIndices := acc.rowIndices[k := m.rowIndices[k]],
                                   columnPointers := acc.columnPointers[j + 1 := k + 1]))
  {
    var next := acc.(values := acc.values[k := m.values[k]],
                     rowIndices := acc.rowIndices[k := m.rowIndices[k]],
                     columnPointers := acc.columnPointers[j + 1 := k + 1]);
    assert next.values[..k + 1] == acc.values[..k] + [m.values[k]];
    assert m.values[..k + 1] == m.values[..k] + [m.values[k]];
    assert next.rowIndices[..k + 1] == acc.rowIndices[..k] + [m.rowIndices[k]];
    assert m.rowIndices[..k + 1] == m.rowIndices[..k] + [m.rowIndices[k]];
    forall c | 1 <= c <= m.columns
      ensures next.columnPointers[c] == PointerAfter(m, k + 1, c)
    {
      if c < j + 1 {
        assert m.columnPointers[c] <= m.columnPointers[j];
      } else if c > j + 1 {
        assert m.columnPointers[j + 1] <= m.columnPointers[c - 1];
      }
    }
  }

  /** Reading the remaining records of `Written(m)` succeeds and completes the state. */
  lemma {:induction false} ReadFollows(m: Matrix, k: int, acc: Matrix)
    requires Valid(m) && Reading(m, k, acc)
    ensures |Entries(m)| == m.cardinality
    ensures ReadRecords(Written(m), k, acc).Ok?
    ensures Reading(m, m.cardinality, ReadRecords(Written(m), k, acc).value)
    decreases m.cardinality - k
  {
    EntriesUpToLength(m, m.columns);
    if k < m.cardinality {
      var j := ColumnOfOffset(m, k);
      EntryAtOffset(m, m.columns, j, k);
      ReadStep(m, k, acc, j);
      var next := acc.(values := acc.values[k := m.values[k]],
                       rowIndices := acc.rowIndices[k := m.rowIndices[k]],
                       columnPointers := acc.columnPointers[j + 1 := k + 1]);
      ReadFollows(m, k + 1, next);
      assert ReadRecords(Written(m), k, acc) == ReadRecords(Written(m), k + 1, next);
    }
  }

  /** Decoding `Written(m)` as the Java code does: the live buffers come back exactly,
      and the pointer after each column is its end if the column holds an entry, else 0. */
  lemma ReadWritten(m: Matrix)
    requires Valid(m) && m.columns < IntMax && m.cardinality <= IntMax - MinimumSize
    ensures ReadExternalAsWritten(Written(m)).Ok?
    ensures var r := ReadExternalAsWritten(Written(m)).value;
            && r.rows == m.rows && r.columns == m.columns && r.cardinality == m.cardinality
            && |r.values| == |r.rowIndices| == Align(m.cardinality)
            && r.values[..m.cardinality] == m.values[..m.cardinality]
            && r.rowIndices[..m.cardinality] == m.rowIndices[..m.cardinality]
            && |r.columnPointers| == m.columns + 1 && r.columnPointers[0] == 0
            && forall c :: 1 <= c <= m.columns ==>
                 r.columnPointers[c] == if m.columnPointers[c - 1] < m.columnPointers[c] then m.columnPointers[c] else 0
  {
    var s := Written(m);
    var size := Align(m.cardinality);
    Wrap32Near(size);
    Wrap32Near(m.columns + 1);
    var start := Matrix(s.rows, s.columns, s.cardinality, Zeros(size, 0 as Byte), Zeros(size, 0),
                        Zeros(s.columns + 1, 0));
    assert Reading(m, 0, start);
    ReadFollows(m, 0, start);
    var r := ReadExternalAsWritten(s).value;
    forall c | 1 <= c <= m.columns
      ensures r.columnPointers[c] == if m.columnPointers[c - 1] < m.columnPointers[c] then m.columnPointers[c] else 0
    {
      assert r.columnPointers[c] == PointerAfter(m, m.cardinality, c);
      assert m.columnPointers[c] <= m.cardinality;
    }
  }

  /** No empty column follows a non-empty one. */
  predicate NoGapAfterEntries(m: Matrix)
    requires Shaped(m)
  {
    forall c :: 0 <= c < m.columns && m.columnPointers[c] == m.columnPointers[c + 1] ==> m.columnPointers[c + 1] == 0
  }

  /** Round trip of the Java code's decoder: when no empty column follows a non-empty
      one, decoding what `writeExternal` wrote gives back a valid matrix with the
      same pointers and the same columns. */
  lemma RoundTripAsWritten(m: Matrix)
    requires Valid(m) && m.columns < IntMax && m.cardinality <= IntMax - MinimumSize
    requires NoGapAfterEntries(m)
    ensures ReadExternalAsWritten(Written(m)).Ok?
    ensures var r := ReadExternalAsWritten(Written(m)).value;
            Valid(r) && SameContent(r, m) && r.columnPointers == m.columnPointers
  {
    ReadWritten(m);
    var r := ReadExternalAsWritten(Written(m)).value;
    forall c | 0 <= c <= m.columns ensures r.columnPointers[c] == m.columnPointers[c] {
      if c > 0 && m.columnPointers[c - 1] == m.columnPointers[c] {
        assert m.columnPointers[c] == 0;
      }
    }
    assert r.columnPointers == m.columnPointers;
    SameBuffersValid(m, r);
  }

  /** The decoder leaves a column's pointer at its end when the column holds an
      entry and at 0 otherwise; the running maximum of those is the true pointer. */
  lemma {:induction false} PrefixMaxRestores(p: seq<int>, q: seq<int>, c: int)
    requires |p| == |q| && 0 <= c < |q| && p[0] == q[0] == 0
    requires forall a, b :: 0 <= a <= b < |q| ==> q[a] <= q[b]
    requires forall d :: 1 <= d < |q| ==> p[d] == if q[d - 1] < q[d] then q[d] else 0
    ensures PrefixMax(p, c) == q[c]
    decreases c
  {
    if c > 0 {
      PrefixMaxRestores(p, q, c - 1);
      assert q[0] <= q[c - 1];
    }
  }

  /** Filling forward the decoder's pointers restores the pointers of a valid matrix. */
  lemma FillForwardRestores(p: seq<int>, q: seq<int>)
    requires |p| == |q| >= 1 && p[0] == q[0] == 0
    requires forall a, b :: 0 <= a <= b < |q| ==> q[a] <= q[b]
    requires forall c :: 1 <= c < |q| ==> p[c] == if q[c - 1] < q[c] then q[c] else 0
    ensures FillForward(p) == q
  {
    forall c | 0 <= c < |q| ensures FillForward(p)[c] == q[c] {
      PrefixMaxRestores(p, q, c);
    }
  }

  /** Round trip of the repaired decoder, for every valid matrix whose sizes fit a
      Java `int`: decoding what `writeExternal` wrote gives back a valid matrix
      with the same pointers and the same columns. */
  lemma RoundTrip(m: Matrix)
    requires Valid(m) && m.columns < IntMax && m.cardinality <= IntMax - MinimumSize
    ensures ReadExternal(Written(m)).Ok?
    ensures var r := ReadExternal(Written(m)).value;
            Valid(r) && SameContent(r, m) && r.columnPointers == m.columnPointers
  {
    ReadWritten(m);
    var w := ReadExternalAsWritten(Written(m)).value;
    FillForwardRestores(w.columnPointers, m.columnPointers);
    var r := ReadExternal(Written(m)).value;
    assert r == w.(columnPointers := m.columnPointers);
    SameBuffersValid(m, r);
  }

  /** A matrix whose sizes, pointers and live prefixes are those of a valid matrix
      is valid and holds the same columns. */
  lemma SameBuffersValid(m: Matrix, r: Matrix)
    requires Valid(m)
    requires r.rows == m.rows && r.columns == m.columns && r.cardinality == m.cardinality
    requires |r.values| == |r.rowIndices| >= m.cardinality
    requires r.values[..m.cardinality] == m.values[..m.cardinality]
    requires r.rowIndices[..m.cardinality] == m.rowIndices[..m.cardinality]
    requires r.columnPointers == m.columnPointers
    ensures Valid(r) && SameContent(r, m)
  {
    SameLivePrefix(r, m);
    assert forall c :: 0 <= c < m.columns ==> Column(r, c) == Column(m, c);
  }

  /** Round trip under `get`: every cell reads back as written. */
  lemma RoundTripCells(m: Matrix)
    requires Valid(m) && m.columns < IntMax && m.cardinality <= IntMax - MinimumSize
    ensures ReadExternal(Written(m)).Ok? && Valid(ReadExternal(Written(m)).value)
    ensures forall i, j :: 0 <= j < m.columns ==> Cell(ReadExternal(Written(m)).value, i, j) == Cell(m, i, j)
  {
    RoundTrip(m);
  }

  /** A 1 x 2 matrix holding 5 at (0, 0) and nothing in column 1. */
  const Split: Matrix := Matrix(1, 2, 1, [5] + Zeros(31, 0 as Byte), Zeros(32, 0), [0, 1, 1])

  /** `Split` is valid and holds the single entry 5 at (0, 0). */
  lemma SplitEntries()
    ensures Valid(Split) && Entries(Split) == [Entry(0, 0, 5)]
  {
    assert Column(Split, 0) == [Slot(0, 5)];
    assert Column(Split, 1) == [];
    assert Valid(Split);
    assert Tag(Column(Split, 0), 0) == [Entry(0, 0, 5)];
    assert EntriesUpTo(Split, 1) == [] + Tag(Column(Split, 0), 0);
    assert Tag(Column(Split, 1), 1) == [];
  }

  /** Decoding `Split` as the Java code does leaves the final pointer at 0, so the
      pointers no longer end at the cardinality; the repaired decoder restores them. */
  lemma ReadLosesTrailingPointer()
    ensures Valid(Split) && Entries(Split) == [Entry(0, 0, 5)]
    ensures ReadExternalAsWritten(Written(Split)).Ok?
    ensures ReadExternalAsWritten(Written(Split)).value.columnPointers == [0, 1, 0]
    ensures !Shaped(ReadExternalAsWritten(Written(Split)).value)
    ensures ReadExternal(Written(Split)).value.columnPointers == [0, 1, 1]
  {
    SplitEntries();
    ReadWritten(Split);
    var w := ReadExternalAsWritten(Written(Split)).value;
    assert w.columnPointers == [0, 1, 0];
    assert w.columnPointers[2] != w.cardinality;
    RoundTrip(Split);
  }
}
