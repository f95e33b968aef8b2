/** Buffer sizing: block alignment at construction (`align`) and the 1.5x growth
    policy capped at the dense size (`growup`). */
module CcsCapacity {
  import opened CcsStorage

  /** Buffers are allocated in blocks of this many entries. */
  const MinimumSize: int := 32

  /** Two's-complement wrap-around of a Java `int` result. */
  function Wrap32(x: int): (r: int)
    ensures -0x8000_0000 <= r <= IntMax
    ensures (r - x) % 0x1_0000_0000 == 0
  {
    (x + 0x8000_0000) % 0x1_0000_0000 - 0x8000_0000
  }

  /** A value already in the `int` range is its own wrap-around. */
  lemma Wrap32InRange(x: int)
    requires -0x8000_0000 <= x <= IntMax
    ensures Wrap32(x) == x
  {
    assert 0 <= x + 0x8000_0000 < 0x1_0000_0000;
  }

  /** A 32-bit counter incremented by one wraps as the unbounded count does. */
  lemma Wrap32Step(x: int)
    ensures Wrap32(Wrap32(x) + 1) == Wrap32(x + 1)
  {
    var a := x + 0x8000_0000;
    var q := a / 0x1_0000_0000;
    var r := a % 0x1_0000_0000;
    assert a == q * 0x1_0000_0000 + r && 0 <= r < 0x1_0000_0000;
    assert Wrap32(x) + 1 + 0x8000_0000 == r + 1;
    if r + 1 < 0x1_0000_0000 {
      assert a + 1 == q * 0x1_0000_0000 + (r + 1);
      assert (a + 1) % 0x1_0000_0000 == r + 1;
    } else {
      assert a + 1 == (q + 1) * 0x1_0000_0000;
      assert (a + 1) % 0x1_0000_0000 == 0;
      assert (r + 1) % 0x1_0000_0000 == 0;
    }
  }

  /** Java's `int` division by a positive divisor, truncating toward zero. */
  function JavaDiv(a: int, b: int): (q: int)
    requires b > 0
    ensures a >= 0 ==> q == a / b
    ensures a < 0 ==> q == -((-a) / b)
  {
    if a >= 0 then a / b else -((-a) / b)
  }

  /** `align(c)`: the buffer length used for `c` live entries. */
  function Align(c: int): (r: int)
    ensures c >= 0 ==> r % MinimumSize == 0 && c < r <= c + MinimumSize
    ensures c < 0 ==> r <= MinimumSize
  {
    (JavaDiv(c, MinimumSize) + 1) * MinimumSize
  }

  /** `capacity()`: the most entries the buffers may ever need, the dense element
      count capped at the largest `int`. */
  function Capacity(m: Matrix): int
    requires 0 <= m.rows && 0 <= m.columns
  {
    DenseCap(m.rows, m.columns)
  }

  /** The dense size `rows * columns`, capped at the largest `int` where the product would overflow. */
  function DenseCap(rows: int, columns: int): (r: int)
    requires rows >= 0 && columns >= 0
    ensures r == if rows * columns <= IntMax then rows * columns else IntMax
  {
    if rows == 0 then rows * columns
    else
      OverflowTest(rows, columns);
      if columns > IntMax / rows then IntMax else rows * columns
  }

  /** The Java code's overflow test `columns > MAX / rows` is exactly `rows * columns > MAX`. */
  lemma OverflowTest(rows: int, columns: int)
    requires rows > 0 && columns >= 0
    ensures columns > IntMax / rows <==> rows * columns > IntMax
  {
    var q := IntMax / rows;
    var r := IntMax % rows;
    assert IntMax == q * rows + r && 0 <= r < rows;
    if columns > q {
      var d := columns - (q + 1);
      assert rows * columns == q * rows + rows + rows * d by {
        Distribute(rows, q + 1, d);
      }
      NonNegativeProduct(rows, d);
    } else {
      var d := q - columns;
      assert q * rows == rows * columns + rows * d by {
        Distribute(rows, columns, d);
      }
      NonNegativeProduct(rows, d);
    }
  }

  lemma Distribute(a: int, b: int, d: int)
    ensures a * (b + d) == a * b + a * d
  {
  }

  lemma NonNegativeProduct(a: int, b: int)
    requires a >= 0 && b >= 0
    ensures a * b >= 0
  {
  }

  /** The new buffer length chosen by `growup`, computed without overflow. */
  function GrowthTarget(rows: int, columns: int, cardinality: int): int
    requires rows >= 0 && columns >= 0 && cardinality >= 0
  {
    var grown := cardinality * 3 / 2 + 1;
    var dense := DenseCap(rows, columns);
    if dense < grown then dense else grown
  }

  /** The new buffer length exactly as the Java code computes it, in 32-bit arithmetic. */
  function GrowthTargetAsWritten(rows: int, columns: int, cardinality: int): int
    requires rows >= 0 && columns >= 0 && cardinality >= 0
  {
    var grown := Wrap32(JavaDiv(Wrap32(cardinality * 3), 2) + 1);
    var dense := DenseCap(rows, columns);
    if dense < grown then dense else grown
  }

  /** Below a third of the largest `int` the 32-bit computation is the intended one. */
  lemma GrowthTargetsAgree(rows: int, columns: int, cardinality: int)
    requires rows >= 0 && columns >= 0 && 0 <= cardinality <= IntMax / 3
    ensures GrowthTargetAsWritten(rows, columns, cardinality) == GrowthTarget(rows, columns, cardinality)
  {
    var tripled := cardinality * 3;
    Wrap32InRange(tripled);
    Wrap32InRange(tripled / 2 + 1);
  }

  /** Above it, `cardinality * 3` wraps negative and the requested length is negative,
      while the intended target still grows the buffer. */
  lemma GrowthTargetOverflows()
    ensures GrowthTargetAsWritten(65536, 65536, 715827883) == -1073741822
    ensures GrowthTarget(65536, 65536, 715827883) == 1073741825
  {
  }

  /** The growth policy on a bare length: fails when the buffer already has the
      capped dense size, else yields the growth target. */
  function GrowLength(length: int, rows: int, columns: int, cardinality: int): (r: Result<int>)
    requires rows >= 0 && columns >= 0 && 0 <= cardinality <= IntMax
    requires cardinality <= rows * columns
    ensures r.Fail? <==> length == DenseCap(rows, columns)
    ensures r.Fail? ==> r.failure == CannotGrow
    ensures r.Ok? ==> cardinality <= r.value <= IntMax && r.value <= rows * columns
    ensures r.Ok? && cardinality < DenseCap(rows, columns) ==> cardinality < r.value
  {
    if length == DenseCap(rows, columns) then Fail(CannotGrow)
    else Ok(GrowthTarget(rows, columns, cardinality))
  }

  /** `growup`: reallocate a full buffer pair to the growth target, keeping the live entries. */
  function Growup(m: Matrix): (r: Result<Matrix>)
    requires Valid(m) && |m.values| == m.cardinality && m.cardinality <= IntMax
    ensures r.Fail? <==> |m.values| == Capacity(m)
    ensures r.Ok? ==> Valid(r.value) && SameContent(r.value, m)
    ensures r.Ok? ==> r.value.columnPointers == m.columnPointers && r.value.cardinality == m.cardinality
    ensures r.Ok? ==> r.value.values[..m.cardinality] == m.values[..m.cardinality]
    ensures r.Ok? ==> r.value.rowIndices[..m.cardinality] == m.rowIndices[..m.cardinality]
    ensures r.Ok? ==> |r.value.values| <= IntMax && |r.value.values| <= Capacity(m)
    ensures r.Ok? && m.cardinality < Capacity(m) ==> m.cardinality < |r.value.values|
  {
    CardinalityBound(m);
    match GrowLength(|m.values|, m.rows, m.columns, m.cardinality)
    case Fail(e) => Fail(e)
    case Ok(n) =>
      var g := m.(values := m.values[..m.cardinality] + Zeros(n - m.cardinality, 0 as Byte),
                  rowIndices := m.rowIndices[..m.cardinality] + Zeros(n - m.cardinality, 0));
      SameLivePrefix(g, m);
      assert g.values[..m.cardinality] == m.values[..m.cardinality];
      assert g.rowIndices[..m.cardinality] == m.rowIndices[..m.cardinality];
      assert forall c :: 0 <= c < g.columns ==> Column(g, c) == Column(m, c);
      Ok(g)
  }
}
