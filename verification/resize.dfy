/** `copy` and `resize`: structural operations that always build fresh buffers.
    The truncating and column-growing branches are modelled twice, as the Java code
    writes them and as they are evidently meant; `Resize` is the corrected total
    operation and `ResizeAsWritten` the Java code's case analysis. */
module CcsResize {
  import opened CcsStorage
  import opened CcsCapacity
  import opened CcsBuild

  /** `copy`: the live prefix of both buffers in fresh buffers of `align(cardinality)`
      entries, with the same column pointers. */
  function Copy(m: Matrix): (r: Matrix)
    requires Valid(m)
    ensures Valid(r) && SameContent(r, m)
    ensures r.cardinality == m.cardinality && r.columnPointers == m.columnPointers
    ensures |r.values| == Align(m.cardinality)
  {
    var pad := Align(m.cardinality) - m.cardinality;
    var r := m.(values := m.values[..m.cardinality] + Zeros(pad, 0 as Byte),
                rowIndices := m.rowIndices[..m.cardinality] + Zeros(pad, 0));
    assert r.values[..r.cardinality] == m.values[..m.cardinality];
    assert r.rowIndices[..r.cardinality] == m.rowIndices[..m.cardinality];
    SameLivePrefix(r, m);
    r
  }

  /** A valid matrix reads zero outside its rows. */
  lemma CellBeyond(m: Matrix, i: int, c: int)
    requires Valid(m) && 0 <= c < m.columns && (i < 0 || i >= m.rows)
    ensures Cell(m, i, c) == 0
  {
    assert WellFormedColumn(Column(m, c), m.rows);
    LookupMissing(Column(m, c), i);
  }

  // ---------------------------------------------------------------------------
  // Truncation

  /** The head of a column that the truncating loop keeps: every slot up to the
      first one whose row is at or beyond `nr`. */
  function Leading(ps: seq<Slot>, nr: int): (q: seq<Slot>)
    ensures |q| <= |ps| && q == ps[..|q|]
    ensures forall t :: 0 <= t < |q| ==> q[t].row < nr
    ensures |q| < |ps| ==> ps[|q|].row >= nr
  {
    if |ps| == 0 || ps[0].row >= nr then []
    else [ps[0]] + Leading(ps[1..], nr)
  }

  /** In a sorted column the kept head reads as the column for rows below `nr`
      and as zero for the others. */
  lemma LeadingLookup(ps: seq<Slot>, nr: int, i: int)
    requires Sorted(ps)
    ensures Lookup(Leading(ps, nr), i) == if i < nr then Lookup(ps, i) else 0
  {
    var q := Leading(ps, nr);
    var n := |q|;
    assert ps == q + ps[n..];
    if i < nr {
      forall t | 0 <= t < |ps[n..]| ensures ps[n..][t].row != i {
        assert ps[n..][t] == ps[n + t];
        assert ps[n + t].row >= ps[n].row;
      }
      LookupPrefix(q, ps[n..], i);
    } else {
      LookupMissing(q, i);
    }
  }

  /** The columns a truncation to `nr x nc` keeps. */
  function Truncated(m: Matrix, nr: int, nc: int): (cs: seq<seq<Slot>>)
    requires Valid(m) && 0 <= nc <= m.columns
    ensures |cs| == nc && |Flat(cs)| <= m.cardinality
    ensures forall c :: 0 <= c < nc ==> WellFormedColumn(cs[c], nr)
  {
    var cs := seq(nc, c requires 0 <= c < nc => Leading(Column(m, c), nr));
    KeptColumns(m, nr, cs);
    FlatWithin(m, cs, nc);
    assert cs[..nc] == cs;
    cs
  }

  /** Kept column `c` is the kept head of column `c`. */
  lemma TruncatedAt(m: Matrix, nr: int, nc: int, c: int)
    requires Valid(m) && 0 <= c < nc <= m.columns
    ensures Truncated(m, nr, nc)[c] == Leading(Column(m, c), nr)
  {
  }

  lemma KeptColumns(m: Matrix, nr: int, cs: seq<seq<Slot>>)
    requires Valid(m) && |cs| <= m.columns
    requires forall c :: 0 <= c < |cs| ==> cs[c] == Leading(Column(m, c), nr)
    ensures forall c :: 0 <= c < |cs| ==>
              WellFormedColumn(cs[c], nr) && |cs[c]| <= m.columnPointers[c + 1] - m.columnPointers[c]
  {
    forall c | 0 <= c < |cs|
      ensures WellFormedColumn(cs[c], nr) && |cs[c]| <= m.columnPointers[c + 1] - m.columnPointers[c]
    {
      LeadingWellFormed(Column(m, c), m.rows, nr);
    }
  }

  /** The kept head of a well-formed column is a well-formed column of `nr` rows. */
  lemma LeadingWellFormed(ps: seq<Slot>, rows: int, nr: int)
    requires WellFormedColumn(ps, rows)
    ensures WellFormedColumn(Leading(ps, nr), nr)
  {
    var q := Leading(ps, nr);
    assert forall t :: 0 <= t < |q| ==> q[t] == ps[t];
  }

  /** Columns no longer than the matching columns of `m` lay out within `m`'s pointers. */
  lemma {:induction false} FlatWithin(m: Matrix, cs: seq<seq<Slot>>, j: int)
    requires Shaped(m) && 0 <= j <= |cs| <= m.columns
    requires forall c :: 0 <= c < |cs| ==> |cs[c]| <= m.columnPointers[c + 1] - m.columnPointers[c]
    ensures |Flat(cs[..j])| <= m.columnPointers[j]
    decreases j
  {
    if j > 0 {
      FlatWithin(m, cs, j - 1);
      FlatStep(cs, j - 1);
    } else {
      assert cs[..0] == [];
    }
  }

  /** The inner loop of the truncating branch: from offset `i` of column `j`, copy
      entries to the end of the live prefix of `acc` while their row is below `nr`. */
  function CopyLeading(m: Matrix, j: int, nr: int, i: int, acc: Matrix): (r: Matrix)
    requires Shaped(m) && 0 <= j < m.columns
    requires m.columnPointers[j] <= i <= m.columnPointers[j + 1]
    requires |acc.values| == |acc.rowIndices| && 0 <= acc.cardinality
    requires acc.cardinality + (m.columnPointers[j + 1] - i) <= |acc.values|
    ensures r.rows == acc.rows && r.columns == acc.columns && r.columnPointers == acc.columnPointers
    ensures |r.values| == |acc.values| == |r.rowIndices|
    ensures acc.cardinality <= r.cardinality <= acc.cardinality + (m.columnPointers[j + 1] - i)
    decreases m.columnPointers[j + 1] - i
  {
    if i < m.columnPointers[j + 1] && m.rowIndices[i] < nr then
      CopyLeading(m, j, nr, i + 1, Push(acc, Slot(m.rowIndices[i], m.values[i])))
    else acc
  }

  /** Stores `x` at the end of the live prefix of `acc`. */
  function Push(acc: Matrix, x: Slot): Matrix
    requires 0 <= acc.cardinality < |acc.values| == |acc.rowIndices|
  {
    acc.(cardinality := acc.cardinality + 1,
         values := acc.values[acc.cardinality := x.value],
         rowIndices := acc.rowIndices[acc.cardinality := x.row])
  }

  lemma PushLays(acc: Matrix, flat: seq<Slot>, x: Slot)
    requires Laid(acc.values, acc.rowIndices, flat) && acc.cardinality == |flat| < |acc.values|
    ensures Laid(Push(acc, x).values, Push(acc, x).rowIndices, flat + [x])
    ensures Push(acc, x).cardinality == |flat + [x]|
  {
    LaidAppend(acc.values, acc.rowIndices, flat, x);
  }

  /** One pass of the outer loop: record where column `j` starts, then copy its kept head. */
  function KeepColumn(m: Matrix, nr: int, j: int, acc: Matrix): (r: Matrix)
    requires Valid(m) && 0 <= j < m.columns
    requires j < |acc.columnPointers| && |acc.values| == |acc.rowIndices|
    requires 0 <= acc.cardinality <= m.columnPointers[j] && m.cardinality <= |acc.values|
    ensures r.rows == acc.rows && r.columns == acc.columns
    ensures r.columnPointers == acc.columnPointers[j := acc.cardinality]
    ensures |r.values| == |acc.values| == |r.rowIndices|
    ensures acc.cardinality <= r.cardinality <= m.columnPointers[j + 1]
  {
    CopyLeading(m, j, nr, m.columnPointers[j],
                acc.(columnPointers := acc.columnPointers[j := acc.cardinality]))
  }

  /** The outer loop, walking every column below `nc`. */
  function TruncateFrom(m: Matrix, nr: int, nc: int, j: int, acc: Matrix): Matrix
    requires Valid(m) && 0 <= j <= nc <= m.columns
    requires |acc.columnPointers| == nc + 1 && |acc.values| == |acc.rowIndices|
    requires 0 <= acc.cardinality <= m.columnPointers[j] && m.cardinality <= |acc.values|
    decreases nc - j
  {
    if j < nc then TruncateFrom(m, nr, nc, j + 1, KeepColumn(m, nr, j, acc))
    else acc.(columnPointers := acc.columnPointers[nc := acc.cardinality])
  }

  /** The outer loop as the Java code writes it: it also stops once as many entries
      have been kept as the matrix holds (the Java code's counter `k` always equals
      the number kept so far), leaving the pointers of the remaining columns at 0. */
  function TruncateFromAsWritten(m: Matrix, nr: int, nc: int, j: int, acc: Matrix): (r: Matrix)
    requires Valid(m) && 0 <= j <= nc <= m.columns
    requires |acc.columnPointers| == nc + 1 && |acc.values| == |acc.rowIndices|
    requires 0 <= acc.cardinality <= m.columnPointers[j] && m.cardinality <= |acc.values|
    ensures r.rows == acc.rows && r.columns == acc.columns && |r.columnPointers| == nc + 1
    decreases nc - j
  {
    if acc.cardinality < m.cardinality && j < nc then
      TruncateFromAsWritten(m, nr, nc, j + 1, KeepColumn(m, nr, j, acc))
    else acc.(columnPointers := acc.columnPointers[nc := acc.cardinality])
  }

  /** Freshly allocated `nr x nc` buffers of `align(cardinality)` entries. */
  function Fresh(m: Matrix, nr: int, nc: int): Matrix
    requires Valid(m) && 0 <= nc
  {
    Matrix(nr, nc, 0, Zeros(Align(m.cardinality), 0 as Byte), Zeros(Align(m.cardinality), 0), Zeros(nc + 1, 0))
  }

  /** Copying the kept head of the column slice `ps` that starts at offset `i`
      appends that head to the laid-out entries. */
  lemma {:induction false} CopyLeadingLays(m: Matrix, j: int, nr: int, i: int, acc: Matrix,
                                           flat: seq<Slot>, ps: seq<Slot>)
    requires Shaped(m) && 0 <= j < m.columns
    requires m.columnPointers[j] <= i <= m.columnPointers[j + 1]
    requires |ps| == m.columnPointers[j + 1] - i
    requires forall t :: 0 <= t < |ps| ==> ps[t] == Slot(m.rowIndices[i + t], m.values[i + t])
    requires Laid(acc.values, acc.rowIndices, flat) && acc.cardinality == |flat|
    requires acc.cardinality + |ps| <= |acc.values|
    ensures Laid(CopyLeading(m, j, nr, i, acc).values, CopyLeading(m, j, nr, i, acc).rowIndices,
                 flat + Leading(ps, nr))
    ensures CopyLeading(m, j, nr, i, acc).cardinality == |flat| + |Leading(ps, nr)|
    decreases |ps|
  {
    if i < m.columnPointers[j + 1] && m.rowIndices[i] < nr {
      var x := ps[0];
      assert x == Slot(m.rowIndices[i], m.values[i]);
      assert CopyLeading(m, j, nr, i, acc) == CopyLeading(m, j, nr, i + 1, Push(acc, x));
      PushLays(acc, flat, x);
      assert forall t :: 0 <= t < |ps[1..]| ==> ps[1..][t] == Slot(m.rowIndices[i + 1 + t], m.values[i + 1 + t]) by {
        assert forall t :: 0 <= t < |ps[1..]| ==> ps[1..][t] == ps[t + 1];
      }
      CopyLeadingLays(m, j, nr, i + 1, Push(acc, x), flat + [x], ps[1..]);
      LeadingTakes(ps, nr);
      Regroup(flat, x, Leading(ps[1..], nr));
    } else {
      assert Leading(ps, nr) == [] by {
        if |ps| > 0 {
          assert ps[0].row == m.rowIndices[i];
        }
      }
      assert CopyLeading(m, j, nr, i, acc) == acc;
      assert flat + [] == flat;
    }
  }

  /** A slot below `nr` at the head of a column is kept. */
  lemma LeadingTakes(ps: seq<Slot>, nr: int)
    requires |ps| > 0 && ps[0].row < nr
    ensures Leading(ps, nr) == [ps[0]] + Leading(ps[1..], nr)
  {
  }

  lemma Regroup<T>(front: seq<T>, x: T, back: seq<T>)
    ensures front + [x] + back == front + ([x] + back)
  {
  }

  /** Column `j` is the slice of the buffers from its start offset. */
  lemma ColumnFrom(m: Matrix, j: int)
    requires Shaped(m) && 0 <= j < m.columns
    ensures forall t :: 0 <= t < |Column(m, j)| ==>
              Column(m, j)[t] == Slot(m.rowIndices[m.columnPointers[j] + t], m.values[m.columnPointers[j] + t])
  {
  }

  /** One pass of the outer loop appends the next kept column to the laid-out entries. */
  lemma KeepColumnLays(m: Matrix, nr: int, nc: int, j: int, acc: Matrix)
    requires Valid(m) && 0 <= j < nc <= m.columns
    requires |acc.columnPointers| == nc + 1
    requires 0 <= acc.cardinality <= m.columnPointers[j] && m.cardinality <= |acc.values|
    requires Laid(acc.values, acc.rowIndices, Flat(Truncated(m, nr, nc)[..j]))
    requires acc.cardinality == |Flat(Truncated(m, nr, nc)[..j])|
    ensures Laid(KeepColumn(m, nr, j, acc).values, KeepColumn(m, nr, j, acc).rowIndices,
                 Flat(Truncated(m, nr, nc)[..j + 1]))
    ensures KeepColumn(m, nr, j, acc).cardinality == |Flat(Truncated(m, nr, nc)[..j + 1])|
  {
    var tc := Truncated(m, nr, nc);
    var col := Column(m, j);
    var start := acc.(columnPointers := acc.columnPointers[j := acc.cardinality]);
    assert start.cardinality + |col| <= |start.values| by {
      assert |col| == m.columnPointers[j + 1] - m.columnPointers[j];
      assert m.columnPointers[j + 1] <= m.cardinality;
    }
    ColumnFrom(m, j);
    CopyLeadingLays(m, j, nr, m.columnPointers[j], start, Flat(tc[..j]), col);
    TruncatedAt(m, nr, nc, j);
    FlatStep(tc, j);
  }

  /** One pass of the outer loop records where kept column `j` starts. */
  lemma KeepColumnPointers(m: Matrix, nr: int, nc: int, j: int, acc: Matrix)
    requires Valid(m) && 0 <= j < nc <= m.columns
    requires |acc.columnPointers| == nc + 1 && |acc.values| == |acc.rowIndices|
    requires 0 <= acc.cardinality <= m.columnPointers[j] && m.cardinality <= |acc.values|
    requires acc.cardinality == |Flat(Truncated(m, nr, nc)[..j])|
    requires forall c :: 0 <= c < j ==> acc.columnPointers[c] == |Flat(Truncated(m, nr, nc)[..c])|
    ensures forall c :: 0 <= c < j + 1 ==>
              KeepColumn(m, nr, j, acc).columnPointers[c] == |Flat(Truncated(m, nr, nc)[..c])|
  {
  }

  /** The outer loop, started on the laid-out first `j` kept columns, assembles all
      the kept columns. */
  lemma {:induction false} TruncateFromAssembles(m: Matrix, nr: int, nc: int, j: int, acc: Matrix)
    requires Valid(m) && 0 <= j <= nc <= m.columns
    requires |acc.columnPointers| == nc + 1 && acc.rows == nr && acc.columns == nc
    requires 0 <= acc.cardinality <= m.columnPointers[j] && m.cardinality <= |acc.values|
    requires Laid(acc.values, acc.rowIndices, Flat(Truncated(m, nr, nc)[..j]))
    requires acc.cardinality == |Flat(Truncated(m, nr, nc)[..j])|
    requires forall c :: 0 <= c < j ==> acc.columnPointers[c] == |Flat(Truncated(m, nr, nc)[..c])|
    ensures TruncateFrom(m, nr, nc, j, acc) == Assemble(nr, Truncated(m, nr, nc), |acc.values|)
    decreases nc - j
  {
    var tc := Truncated(m, nr, nc);
    if j < nc {
      KeepColumnLays(m, nr, nc, j, acc);
      KeepColumnPointers(m, nr, nc, j, acc);
      TruncateFromAssembles(m, nr, nc, j + 1, KeepColumn(m, nr, j, acc));
    } else {
      assert tc[..nc] == tc;
      Assembled(nr, tc, acc.cardinality, acc.values, acc.rowIndices,
                acc.columnPointers[nc := acc.cardinality]);
    }
  }

  /** The truncating branch of `resize` with its outer loop walking every kept column:
      a valid `nr x nc` matrix that reads as `m` on the kept rows and columns. */
  function Truncate(m: Matrix, nr: int, nc: int): (r: Matrix)
    requires Valid(m) && 0 <= nr && 0 <= nc <= m.columns
    ensures Valid(r) && r.rows == nr && r.columns == nc
    ensures forall i, c :: 0 <= c < nc ==> Cell(r, i, c) == if i < nr then Cell(m, i, c) else 0
    ensures |r.values| == Align(m.cardinality)
  {
    var tc := Truncated(m, nr, nc);
    var cap := Align(m.cardinality);
    LaidEmpty(cap);
    assert tc[..0] == [];
    TruncateFromAssembles(m, nr, nc, 0, Fresh(m, nr, nc));
    AssembleValid(nr, tc, cap);
    TruncatedCells(m, nr, nc, cap);
    TruncateFrom(m, nr, nc, 0, Fresh(m, nr, nc))
  }

  lemma TruncatedCells(m: Matrix, nr: int, nc: int, cap: int)
    requires Valid(m) && 0 <= nr && 0 <= nc <= m.columns && cap >= |Flat(Truncated(m, nr, nc))|
    ensures Valid(Assemble(nr, Truncated(m, nr, nc), cap))
    ensures forall i, c :: 0 <= c < nc ==>
              Cell(Assemble(nr, Truncated(m, nr, nc), cap), i, c) == if i < nr then Cell(m, i, c) else 0
  {
    AssembleValid(nr, Truncated(m, nr, nc), cap);
    forall i, c | 0 <= c < nc
      ensures Cell(Assemble(nr, Truncated(m, nr, nc), cap), i, c) == if i < nr then Cell(m, i, c) else 0
    {
      assert WellFormedColumn(Column(m, c), m.rows);
      LeadingLookup(Column(m, c), nr, i);
    }
  }

  /** The truncating branch exactly as the Java code writes it. */
  function TruncateAsWritten(m: Matrix, nr: int, nc: int): (r: Matrix)
    requires Valid(m) && 0 <= nr && 0 <= nc <= m.columns
    ensures r.rows == nr && r.columns == nc && |r.columnPointers| == nc + 1
  {
    TruncateFromAsWritten(m, nr, nc, 0, Fresh(m, nr, nc))
  }

  /** While fewer entries than the matrix holds have been kept, the Java code's extra
      stopping test is false, so both loops take the same step. */
  lemma TruncateStepAgrees(m: Matrix, nr: int, nc: int, j: int, acc: Matrix)
    requires Valid(m) && 0 <= j < nc <= m.columns
    requires |acc.columnPointers| == nc + 1 && |acc.values| == |acc.rowIndices|
    requires 0 <= acc.cardinality <= m.columnPointers[j] && m.cardinality <= |acc.values|
    requires acc.cardinality < m.cardinality
    ensures TruncateFromAsWritten(m, nr, nc, j, acc)
            == TruncateFromAsWritten(m, nr, nc, j + 1, KeepColumn(m, nr, j, acc))
    ensures TruncateFrom(m, nr, nc, j, acc) == TruncateFrom(m, nr, nc, j + 1, KeepColumn(m, nr, j, acc))
  {
  }

  /** The first `j` kept columns hold no more entries than the first `nc - 1`. */
  lemma KeptBelow(m: Matrix, nr: int, nc: int, j: int)
    requires Valid(m) && 0 <= j < nc <= m.columns
    requires |Flat(Truncated(m, nr, nc)[..nc - 1])| < m.cardinality
    ensures |Flat(Truncated(m, nr, nc)[..j])| < m.cardinality
  {
    FlatPrefix(Truncated(m, nr, nc), j, nc - 1);
  }

  lemma {:induction false} TruncateFromAgree(m: Matrix, nr: int, nc: int, j: int, acc: Matrix)
    requires Valid(m) && 0 <= j <= nc <= m.columns
    requires |acc.columnPointers| == nc + 1
    requires 0 <= acc.cardinality <= m.columnPointers[j] && m.cardinality <= |acc.values|
    requires Laid(acc.values, acc.rowIndices, Flat(Truncated(m, nr, nc)[..j]))
    requires acc.cardinality == |Flat(Truncated(m, nr, nc)[..j])|
    requires j == nc || |Flat(Truncated(m, nr, nc)[..nc - 1])| < m.cardinality
    ensures TruncateFromAsWritten(m, nr, nc, j, acc) == TruncateFrom(m, nr, nc, j, acc)
    decreases nc - j
  {
    if j < nc {
      KeptBelow(m, nr, nc, j);
      TruncateStepAgrees(m, nr, nc, j, acc);
      KeepColumnLays(m, nr, nc, j, acc);
      TruncateFromAgree(m, nr, nc, j + 1, KeepColumn(m, nr, j, acc));
    }
  }

  /** The Java code's early exit is harmless when the first `nc - 1` kept columns hold
      fewer entries than the matrix: the loop then reaches every kept column. */
  lemma TruncateAgrees(m: Matrix, nr: int, nc: int)
    requires Valid(m) && 0 <= nr && 0 <= nc <= m.columns
    requires nc == 0 || |Flat(Truncated(m, nr, nc)[..nc - 1])| < m.cardinality
    ensures TruncateAsWritten(m, nr, nc) == Truncate(m, nr, nc)
  {
    LaidEmpty(Align(m.cardinality));
    assert Truncated(m, nr, nc)[..0] == [];
    TruncateFromAgree(m, nr, nc, 0, Fresh(m, nr, nc));
  }

  /** A 1 x 4 matrix holding 7 at (0, 0) and 8 at (0, 1). */
  const Wide: Matrix := Matrix(1, 4, 2, [7, 8] + Zeros(30, 0 as Byte), Zeros(32, 0), [0, 1, 2, 2, 2])

  /** Shrinking `Wide` to 1 x 3 as the Java code does stops after column 1 and leaves
      the pointer of column 2 at 0, below that of column 1; the corrected loop keeps
      both entries. */
  lemma TruncateStopsEarly()
    ensures Valid(Wide)
    ensures TruncateAsWritten(Wide, 1, 3).columnPointers == [0, 1, 0, 2]
    ensures !Shaped(TruncateAsWritten(Wide, 1, 3))
    ensures Cell(Truncate(Wide, 1, 3), 0, 0) == 7 && Cell(Truncate(Wide, 1, 3), 0, 1) == 8
  {
    WideCells();
    WideTruncatedAsWritten();
    var r := TruncateAsWritten(Wide, 1, 3);
    assert r.columnPointers[1] > r.columnPointers[2];
  }

  /** `Wide` is valid and holds 7 at (0, 0) and 8 at (0, 1). */
  lemma WideCells()
    ensures Valid(Wide) && Cell(Wide, 0, 0) == 7 && Cell(Wide, 0, 1) == 8
  {
    assert Column(Wide, 0) == [Slot(0, 7)];
    assert Column(Wide, 1) == [Slot(0, 8)];
    assert Column(Wide, 2) == [] && Column(Wide, 3) == [];
  }

  /** The Java code's loop keeps both entries in its first two passes, then stops. */
  lemma WideTruncatedAsWritten()
    ensures Valid(Wide)
    ensures TruncateAsWritten(Wide, 1, 3).columnPointers == [0, 1, 0, 2]
  {
    WideCells();
    var acc0 := Fresh(Wide, 1, 3);
    var acc1 := KeepColumn(Wide, 1, 0, acc0);
    assert acc1.cardinality == 1;
    var acc2 := KeepColumn(Wide, 1, 1, acc1);
    assert acc2.cardinality == 2;
    assert acc2.columnPointers == [0, 1, 0, 0];
  }

  // ---------------------------------------------------------------------------
  // Growing the column count

  /** The column-growing branch of `resize` as the Java code writes it: the buffers
      copied, the old pointers kept and every new column's pointer set to
      `cardinality`; the row count becomes `nr` whatever rows are stored. */
  function ExtendColumnsAsWritten(m: Matrix, nr: int, nc: int): (r: Matrix)
    requires Valid(m) && 0 <= nr && m.columns <= nc
    ensures Shaped(r) && r.rows == nr && r.columns == nc && r.cardinality == m.cardinality
    ensures forall c :: 0 <= c < nc ==> Column(r, c) == if c < m.columns then Column(m, c) else []
    ensures Valid(r) <==> forall c, t :: 0 <= c < m.columns && 0 <= t < |Column(m, c)| ==> Column(m, c)[t].row < nr
  {
    PaddedShape(m, nr, nc);
    PaddedValid(m, nr, nc);
    Padded(m, nr, nc)
  }

  /** The copied buffers with `nc - columns` pointers equal to `cardinality` appended. */
  function Padded(m: Matrix, nr: int, nc: int): Matrix
    requires Valid(m) && m.columns <= nc
  {
    Copy(m).(rows := nr, columns := nc,
             columnPointers := m.columnPointers + Zeros(nc - m.columns, m.cardinality))
  }

  lemma PaddedShape(m: Matrix, nr: int, nc: int)
    requires Valid(m) && 0 <= nr && m.columns <= nc
    ensures Shaped(Padded(m, nr, nc))
    ensures Padded(m, nr, nc).cardinality == m.cardinality
    ensures forall c :: 0 <= c < nc ==> Column(Padded(m, nr, nc), c) == if c < m.columns then Column(m, c) else []
  {
    var r := Padded(m, nr, nc);
    assert forall c :: 0 <= c <= m.columns ==> r.columnPointers[c] == m.columnPointers[c];
    assert forall c :: m.columns <= c <= nc ==> r.columnPointers[c] == m.cardinality;
    assert forall c :: 0 <= c < m.columns ==> Column(r, c) == Column(Copy(m), c);
    assert forall c :: m.columns <= c < nc ==> Column(r, c) == [];
  }

  lemma PaddedValid(m: Matrix, nr: int, nc: int)
    requires Valid(m) && 0 <= nr && m.columns <= nc
    ensures Valid(Padded(m, nr, nc)) <==>
            forall c, t :: 0 <= c < m.columns && 0 <= t < |Column(m, c)| ==> Column(m, c)[t].row < nr
  {
    PaddedShape(m, nr, nc);
    assert forall c :: 0 <= c < m.columns ==> WellFormedColumn(Column(m, c), m.rows);
  }

  /** Growing the column count with the rows that fall outside dropped first: the
      old columns read as before on the kept rows, the new columns are empty. */
  function ExtendColumns(m: Matrix, nr: int, nc: int): (r: Matrix)
    requires Valid(m) && 0 <= nr && m.columns <= nc
    ensures Valid(r) && r.rows == nr && r.columns == nc
    ensures forall i, c :: 0 <= c < nc ==> Cell(r, i, c) == if i < nr && c < m.columns then Cell(m, i, c) else 0
  {
    var kept := KeptRows(m, nr);
    var r := ExtendColumnsAsWritten(kept, nr, nc);
    forall i, c | 0 <= c < nc
      ensures Cell(r, i, c) == if i < nr && c < m.columns then Cell(m, i, c) else 0
    {
      if c < m.columns {
        assert Column(r, c) == Column(kept, c);
        assert Cell(r, i, c) == Cell(kept, i, c);
        assert Cell(kept, i, c) == if i < nr then Cell(m, i, c) else 0;
      } else {
        assert Column(r, c) == [];
      }
    }
    r
  }

  /** The matrix with the rows at or beyond `nr` dropped, or `m` itself when it has
      no such rows. */
  function KeptRows(m: Matrix, nr: int): (k: Matrix)
    requires Valid(m) && 0 <= nr
    ensures Valid(k) && k.columns == m.columns
    ensures forall i, c :: 0 <= c < m.columns ==> Cell(k, i, c) == if i < nr then Cell(m, i, c) else 0
    ensures forall c, t :: 0 <= c < m.columns && 0 <= t < |Column(k, c)| ==> Column(k, c)[t].row < nr
  {
    var k := if nr < m.rows then Truncate(m, nr, m.columns) else m;
    forall c, t | 0 <= c < m.columns && 0 <= t < |Column(k, c)| ensures Column(k, c)[t].row < nr {
      assert WellFormedColumn(Column(k, c), k.rows);
    }
    forall i, c | 0 <= c < m.columns ensures Cell(k, i, c) == if i < nr then Cell(m, i, c) else 0 {
      if nr >= m.rows && i >= nr {
        CellBeyond(m, i, c);
      }
    }
    k
  }

  // ---------------------------------------------------------------------------
  // Resize

  /** `resize`, corrected: a valid `nr x nc` matrix reading as `m` on the rows and
      columns both keep and zero elsewhere. Rows growing while columns shrink is a
      truncation to the smaller column count. */
  function Resize(m: Matrix, nr: int, nc: int): (r: Matrix)
    requires Valid(m) && 0 <= nr && 0 <= nc
    ensures Valid(r) && r.rows == nr && r.columns == nc
    ensures forall i, c :: 0 <= c < nc ==> Cell(r, i, c) == if i < nr && c < m.columns then Cell(m, i, c) else 0
  {
    if nr == m.rows && nc == m.columns then
      var r := Copy(m);
      assert forall i, c :: 0 <= c < nc ==> Cell(r, i, c) == if i < nr then Cell(m, i, c) else 0 by {
        forall i, c | 0 <= c < nc ensures Cell(r, i, c) == if i < nr then Cell(m, i, c) else 0 {
          if i >= nr {
            CellBeyond(m, i, c);
          }
        }
      }
      r
    else if nc < m.columns || (nr <= m.rows && nc <= m.columns) then Truncate(m, nr, nc)
    else ExtendColumns(m, nr, nc)
  }

  /** `resize` with the Java code's case analysis: a copy, the early-exiting truncation,
      the column-growing branch that keeps every row, and for rows growing while
      columns shrink the pointer copy that overruns the new pointer array. */
  function ResizeAsWritten(m: Matrix, nr: int, nc: int): (r: Result<Matrix>)
    requires Valid(m) && 0 <= nr && 0 <= nc
    ensures r.Fail? <==> nr > m.rows && nc < m.columns
    ensures r.Fail? ==> r.failure == IndexOutOfBounds
    ensures r.Ok? ==> r.value.rows == nr && r.value.columns == nc
  {
    if nr == m.rows && nc == m.columns then Ok(Copy(m))
    else if m.rows >= nr && m.columns >= nc then Ok(TruncateAsWritten(m, nr, nc))
    else if nc < m.columns then Fail(IndexOutOfBounds)
    else Ok(ExtendColumnsAsWritten(m, nr, nc))
  }

  /** Where the Java code's cases are sound they compute the corrected resize: the same
      shape, neither dimension shrinking, or a truncation that does not stop early. */
  lemma ResizeAgrees(m: Matrix, nr: int, nc: int)
    requires Valid(m) && 0 <= nr && 0 <= nc
    requires || (nr >= m.rows && nc >= m.columns)
             || (nr <= m.rows && nc <= m.columns
                 && (nc == 0 || |Flat(Truncated(m, nr, nc)[..nc - 1])| < m.cardinality))
    ensures ResizeAsWritten(m, nr, nc) == Ok(Resize(m, nr, nc))
  {
    if !(nr == m.rows && nc == m.columns) && nr <= m.rows && nc <= m.columns {
      TruncateAgrees(m, nr, nc);
    }
  }

  /** A 2 x 1 matrix holding 9 at (1, 0). */
  const Tall: Matrix := Matrix(2, 1, 1, [9] + Zeros(31, 0 as Byte), [1] + Zeros(31, 0), [0, 1])

  /** Resizing `Tall` to 1 x 2 as the Java code does keeps the entry in row 1 of a
      one-row matrix; the corrected resize drops it. */
  lemma ExtendKeepsDroppedRows()
    ensures Valid(Tall)
    ensures ResizeAsWritten(Tall, 1, 2).Ok? && !Valid(ResizeAsWritten(Tall, 1, 2).value)
    ensures Resize(Tall, 1, 2).cardinality == 0
  {
    assert Column(Tall, 0) == [Slot(1, 9)];
    var r := ExtendColumnsAsWritten(Tall, 1, 2);
    assert Column(r, 0)[0].row == 1;
  }

  /** Growing the rows of `Wide` while shrinking its columns makes the Java code copy
      five pointers into an array of four; the corrected resize truncates the columns. */
  lemma RowsGrowColumnsShrink()
    ensures ResizeAsWritten(Wide, 2, 3) == Fail(IndexOutOfBounds)
    ensures Cell(Resize(Wide, 2, 3), 0, 0) == 7 && Cell(Resize(Wide, 2, 3), 0, 1) == 8
  {
    assert Column(Wide, 0) == [Slot(0, 7)];
    assert Column(Wide, 1) == [Slot(0, 8)];
    assert Column(Wide, 2) == [] && Column(Wide, 3) == [];
    assert Cell(Wide, 0, 0) == 7 && Cell(Wide, 0, 1) == 8;
  }
}
