/** The locator: the hybrid binary/linear lower-bound search over a column's
    row-index slice (`searchForRowIndex`). */
module CcsSearch {
  import opened CcsStorage
  import opened CcsCapacity

  /** `rowIndices` strictly increases on `[left, right)`. */
  predicate StrictlyIncreasing(rowIndices: seq<int>, left: int, right: int)
    requires 0 <= left <= right <= |rowIndices|
  {
    forall s, t :: left <= s < t < right ==> rowIndices[s] < rowIndices[t]
  }

  /** The linear scan used for slices narrower than 8: step past every row below `i`. */
  function LinearScan(rowIndices: seq<int>, i: int, ii: int, right: int): (k: int)
    requires 0 <= ii <= right <= |rowIndices|
    ensures ii <= k <= right
    ensures forall t :: ii <= t < k ==> rowIndices[t] < i
    ensures k == right || rowIndices[k] >= i
    decreases right - ii
  {
    if ii < right && rowIndices[ii] < i then LinearScan(rowIndices, i, ii + 1, right) else ii
  }

  /** The lower bound of `i` in the sorted slice `[left, right)`: every offset before
      the result holds a smaller row, and the result is `right` or holds a row `>= i`. */
  function SearchForRowIndex(rowIndices: seq<int>, i: int, left: int, right: int): (k: int)
    requires 0 <= left <= right <= |rowIndices|
    requires StrictlyIncreasing(rowIndices, left, right)
    ensures left <= k <= right
    ensures forall t :: left <= t < k ==> rowIndices[t] < i
    ensures k == right || rowIndices[k] >= i
    decreases right - left
  {
    if left == right then left
    else if right - left < 8 then LinearScan(rowIndices, i, left, right)
    else
      var p := (left + right) / 2;
      if rowIndices[p] > i then SearchForRowIndex(rowIndices, i, left, p)
      else if rowIndices[p] < i then SearchForRowIndex(rowIndices, i, p + 1, right)
      else p
  }

  /** `searchForRowIndex` as the Java code computes it: the midpoint `(left + right) / 2`
      is `int` arithmetic, so once the sum passes the largest `int` the midpoint is
      negative and reading `rowIndices[p]` throws. That needs a slice ending beyond
      2^30 entries. */
  function SearchForRowIndexAsWritten(rowIndices: seq<int>, i: int, left: int, right: int): (r: Result<int>)
    requires 0 <= left <= right <= |rowIndices| <= IntMax
    ensures r.Fail? ==> r.failure == IndexOutOfBounds && IntMax < right + right
    ensures r.Ok? ==> left <= r.value <= right
    decreases right - left
  {
    if left == right then Ok(left)
    else if right - left < 8 then Ok(LinearScan(rowIndices, i, left, right))
    else
      var p := JavaDiv(Wrap32(left + right), 2);
      if p < 0 then Fail(IndexOutOfBounds)
      else
        Midpoint(left, right);
        if rowIndices[p] > i then SearchForRowIndexAsWritten(rowIndices, i, left, p)
        else if rowIndices[p] < i then SearchForRowIndexAsWritten(rowIndices, i, p + 1, right)
        else Ok(p)
  }

  /** The 32-bit midpoint of two offsets is the true midpoint while their sum fits in
      an `int`, and negative once it does not. */
  lemma Midpoint(left: int, right: int)
    requires 0 <= left <= right <= IntMax
    ensures left + right <= IntMax ==> JavaDiv(Wrap32(left + right), 2) == (left + right) / 2
    ensures left + right > IntMax ==> JavaDiv(Wrap32(left + right), 2) < 0
  {
    var x := left + right;
    if x <= IntMax {
      Wrap32InRange(x);
    } else {
      assert 0 <= x + 0x8000_0000 - 0x1_0000_0000 < 0x1_0000_0000;
      assert Wrap32(x) == x - 0x1_0000_0000;
    }
  }

  /** On slices ending at or below 2^30 the midpoint never wraps, and the Java search
      finds the lower bound of the corrected one. */
  lemma {:induction false} SearchAgrees(rowIndices: seq<int>, i: int, left: int, right: int)
    requires 0 <= left <= right <= |rowIndices| <= IntMax && right <= 0x4000_0000
    requires StrictlyIncreasing(rowIndices, left, right)
    ensures SearchForRowIndexAsWritten(rowIndices, i, left, right) == Ok(SearchForRowIndex(rowIndices, i, left, right))
    decreases right - left
  {
    if left != right && right - left >= 8 {
      var p := (left + right) / 2;
      Midpoint(left, right);
      if rowIndices[p] > i {
        SearchAgrees(rowIndices, i, left, p);
      } else if rowIndices[p] < i {
        SearchAgrees(rowIndices, i, p + 1, right);
      }
    }
  }

  /** A column whose stored entries sit at offsets `[1100000000, 1100000016)`: the
      Java search fails on the first midpoint, while the lower bound of row 0 is the
      first offset. */
  lemma SearchMidpointWraps()
    ensures var rowIndices := seq(1100000016, t => t);
            && StrictlyIncreasing(rowIndices, 1100000000, 1100000016)
            && SearchForRowIndexAsWritten(rowIndices, 0, 1100000000, 1100000016) == Fail(IndexOutOfBounds)
            && SearchForRowIndex(rowIndices, 0, 1100000000, 1100000016) == 1100000000
  {
    var rowIndices := seq(1100000016, t => t);
    Midpoint(1100000000, 1100000016);
  }

  /** The Java search as every point operation calls it agrees with `Locate` while
      the buffers hold at most 2^30 entries. */
  lemma LocateAgrees(m: Matrix, i: int, j: int)
    requires Valid(m) && 0 <= j < m.columns && |m.values| <= IntMax && m.cardinality <= 0x4000_0000
    ensures SearchForRowIndexAsWritten(m.rowIndices, i, m.columnPointers[j], m.columnPointers[j + 1]) ==
            Ok(Locate(m, i, j))
  {
    ColumnRowsIncrease(m, j);
    SearchAgrees(m.rowIndices, i, m.columnPointers[j], m.columnPointers[j + 1]);
  }

  /** The search as every point operation calls it: row `i` within column `j`. */
  function Locate(m: Matrix, i: int, j: int): (k: int)
    requires Valid(m) && 0 <= j < m.columns
    ensures m.columnPointers[j] <= k <= m.columnPointers[j + 1]
  {
    ColumnRowsIncrease(m, j);
    SearchForRowIndex(m.rowIndices, i, m.columnPointers[j], m.columnPointers[j + 1])
  }

  /** What the located offset says: the cell is stored exactly when the offset is
      inside the column and holds row `i`; rows before it are smaller, rows from it
      on are larger unless it is the match. */
  lemma LocateMeaning(m: Matrix, i: int, j: int)
    requires Valid(m) && 0 <= j < m.columns
    ensures var k := Locate(m, i, j);
            && (forall t :: m.columnPointers[j] <= t < k ==> m.rowIndices[t] < i)
            && (forall t :: k < t < m.columnPointers[j + 1] ==> m.rowIndices[t] > i)
            && (k < m.columnPointers[j + 1] ==> m.rowIndices[k] >= i)
            && (k < m.columnPointers[j + 1] && m.rowIndices[k] == i ==> Cell(m, i, j) == m.values[k])
            && (!(k < m.columnPointers[j + 1] && m.rowIndices[k] == i) ==> Cell(m, i, j) == 0)
  {
    var k := Locate(m, i, j);
    ColumnRowsIncrease(m, j);
    if k < m.columnPointers[j + 1] && m.rowIndices[k] == i {
      CellAt(m, j, k);
    } else {
      CellNotStored(m, i, j);
    }
  }
}
