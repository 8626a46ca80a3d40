/**
 * Rectangular regions of a row-major light grid, shared by both parts of
 * 2015/day-06: the cell at column x and row y is stored at index
 * `y * width + x` (`get_index`), and an instruction changes every cell of
 * an inclusive rectangle from `start` to `end`.
 */
module GridRegion {
  import Bits

  /** A parsed corner; the parser reads only digits, so coordinates are never negative. */
  datatype Point = Point(x: nat, y: nat)

  /** `get_index`. */
  function Index(width: nat, x: nat, y: nat): nat
  {
    y * width + x
  }

  predicate InRectangle(start: Point, end: Point, x: nat, y: nat)
  {
    start.x <= x <= end.x && start.y <= y <= end.y
  }

  predicate Empty(start: Point, end: Point)
  {
    start.x > end.x || start.y > end.y
  }

  /** The rectangle is empty or lies inside a grid of the given size. */
  predicate Fits(width: nat, height: nat, start: Point, end: Point)
  {
    Empty(start, end) || (end.x < width && end.y < height)
  }

  /** The number of cells of the rectangle. */
  function Area(start: Point, end: Point): nat
  {
    if Empty(start, end) then 0 else (end.x - start.x + 1) * (end.y - start.y + 1)
  }

  /** Index i names a cell of the rectangle. */
  predicate Covers(width: nat, start: Point, end: Point, i: nat)
  {
    width > 0 && InRectangle(start, end, i % width, i / width)
  }

  /** The cells after one instruction: op on every covered cell, the rest as before. */
  function Applied<T>(s: seq<T>, width: nat, start: Point, end: Point, op: T -> T): (r: seq<T>)
    ensures |r| == |s|
    ensures forall i :: 0 <= i < |s| ==> r[i] == if Covers(width, start, end, i) then op(s[i]) else s[i]
  {
    seq(|s|, i requires 0 <= i < |s| => if Covers(width, start, end, i) then op(s[i]) else s[i])
  }

  /** Index i comes before column x of row y in row-major order. */
  predicate Before(width: nat, i: nat, x: nat, y: nat)
    requires width > 0
  {
    i / width < y || (i / width == y && i % width < x)
  }

  /**
   * t is s with op applied to the covered cells that come before column x
   * of row y: the state of `apply_to_region`'s nested loops.
   */
  ghost predicate AppliedUpTo<T>(t: seq<T>, s: seq<T>, width: nat, start: Point, end: Point, op: T -> T, x: nat, y: nat)
  {
    |t| == |s| &&
    forall i :: 0 <= i < |s| ==> t[i] == if Covers(width, start, end, i) && Before(width, i, x, y) then op(s[i]) else s[i]
  }

  /** Before the first covered row nothing has changed. */
  lemma AppliedNone<T>(s: seq<T>, width: nat, start: Point, end: Point, op: T -> T)
    ensures AppliedUpTo(s, s, width, start, end, op, 0, start.y)
  {
  }

  /** The columns left of start.x of a row hold no covered cell. */
  lemma RowStart<T>(t: seq<T>, s: seq<T>, width: nat, start: Point, end: Point, op: T -> T, y: nat)
    requires AppliedUpTo(t, s, width, start, end, op, 0, y)
    ensures AppliedUpTo(t, s, width, start, end, op, start.x, y)
  {
  }

  /** Past end.x a row holds no covered cell, so the next row starts. */
  lemma RowDone<T>(t: seq<T>, s: seq<T>, width: nat, start: Point, end: Point, op: T -> T, x: nat, y: nat)
    requires AppliedUpTo(t, s, width, start, end, op, x, y) && x > end.x
    ensures AppliedUpTo(t, s, width, start, end, op, 0, y + 1)
  {
    forall i | 0 <= i < |s|
      ensures t[i] == if Covers(width, start, end, i) && Before(width, i, 0, y + 1) then op(s[i]) else s[i]
    {
      if Covers(width, start, end, i) && i / width == y {
        assert Before(width, i, x, y);
      }
    }
  }

  /** Past end.y no covered cell is left: the whole rectangle has been applied. */
  lemma RowsDone<T>(t: seq<T>, s: seq<T>, width: nat, start: Point, end: Point, op: T -> T, y: nat)
    requires AppliedUpTo(t, s, width, start, end, op, 0, y) && y > end.y
    ensures t == Applied(s, width, start, end, op)
  {
  }

  /** One cell of the inner loop: the cell at (x, y) gets op and the position moves one column on. */
  lemma AppliedStep<T>(t: seq<T>, s: seq<T>, width: nat, height: nat, start: Point, end: Point, op: T -> T, x: nat, y: nat)
    requires AppliedUpTo(t, s, width, start, end, op, x, y) && |s| == width * height
    requires start.x <= x <= end.x < width && start.y <= y <= end.y < height
    ensures Index(width, x, y) < |t|
    ensures AppliedUpTo(t[Index(width, x, y) := op(t[Index(width, x, y)])], s, width, start, end, op, x + 1, y)
  {
    var idx := Index(width, x, y);
    IndexFacts(width, height, x, y);
    var u := t[idx := op(t[idx])];
    forall i | 0 <= i < |s|
      ensures u[i] == if Covers(width, start, end, i) && Before(width, i, x + 1, y) then op(s[i]) else s[i]
    {
      if i != idx && i / width == y && i % width == x {
        SameCell(width, i, x, y);
      }
    }
  }

  /** An index with column x and row y is the index of that cell. */
  lemma SameCell(width: nat, i: nat, x: nat, y: nat)
    requires width > 0 && i % width == x && i / width == y
    ensures i == Index(width, x, y)
  {
  }

  /** Column and row of an index, the inverse of `Index`. */
  lemma IndexCell(width: nat, x: nat, y: nat)
    requires x < width
    ensures Index(width, x, y) % width == x && Index(width, x, y) / width == y
  {
    Bits.DivUnique(y * width + x, width, y, x);
  }

  /** Every cell of a grid has its index inside the buffer. */
  lemma IndexInGrid(width: nat, height: nat, x: nat, y: nat)
    requires x < width && y < height
    ensures Index(width, x, y) < width * height
  {
    assert y * width + width == (y + 1) * width;
    assert (y + 1) * width <= height * width;
  }

  lemma IndexFacts(width: nat, height: nat, x: nat, y: nat)
    ensures x < width ==> Index(width, x, y) % width == x && Index(width, x, y) / width == y
    ensures x < width && y < height ==> Index(width, x, y) < width * height
  {
    if x < width {
      IndexCell(width, x, y);
      if y < height {
        IndexInGrid(width, height, x, y);
      }
    }
  }

  /** The number of covered indices below n. */
  function CoveredBelow(width: nat, start: Point, end: Point, n: nat): nat
  {
    if n == 0 then 0 else CoveredBelow(width, start, end, n - 1) + (if Covers(width, start, end, n - 1) then 1 else 0)
  }

  /** Columns start.x .. end.x below j. */
  function ColumnsBelow(start: Point, end: Point, j: nat): nat
  {
    if j == 0 then 0 else ColumnsBelow(start, end, j - 1) + (if start.x <= j - 1 <= end.x then 1 else 0)
  }

  lemma {:induction false} ColumnsBelowAll(start: Point, end: Point, j: nat)
    requires start.x <= end.x && end.x < j
    ensures ColumnsBelow(start, end, j) == end.x - start.x + 1
  {
    if j - 1 > end.x {
      ColumnsBelowAll(start, end, j - 1);
    } else {
      ColumnsBelowNone(start, end, start.x);
      ColumnsBelowRun(start, end, j - 1);
    }
  }

  lemma {:induction false} ColumnsBelowNone(start: Point, end: Point, j: nat)
    requires j <= start.x
    ensures ColumnsBelow(start, end, j) == 0
  {
    if j > 0 {
      ColumnsBelowNone(start, end, j - 1);
    }
  }

  lemma {:induction false} ColumnsBelowRun(start: Point, end: Point, j: nat)
    requires start.x <= j <= end.x + 1
    ensures ColumnsBelow(start, end, j) == j - start.x
  {
    if j > start.x {
      ColumnsBelowRun(start, end, j - 1);
    } else {
      ColumnsBelowNone(start, end, j);
    }
  }

  /** Within one row, the covered indices are the rectangle's columns when the row is in range. */
  lemma {:induction false} CoveredInRow(width: nat, start: Point, end: Point, r: nat, j: nat)
    requires width > 0 && j <= width
    ensures CoveredBelow(width, start, end, r * width + j)
      == CoveredBelow(width, start, end, r * width) + (if start.y <= r <= end.y then ColumnsBelow(start, end, j) else 0)
  {
    if j > 0 {
      CoveredInRow(width, start, end, r, j - 1);
      IndexCell(width, j - 1, r);
      assert r * width + j - 1 == Index(width, j - 1, r);
    }
  }

  /** The covered indices of the first h rows. */
  lemma {:induction false} CoveredRows(width: nat, start: Point, end: Point, h: nat)
    requires width > 0 && !Empty(start, end) && end.x < width
    ensures CoveredBelow(width, start, end, h * width)
      == (end.x - start.x + 1) * RowsBelow(start, end, h)
  {
    if h > 0 {
      var c := end.x - start.x + 1;
      CoveredRows(width, start, end, h - 1);
      assert (h - 1) * width + width == h * width;
      CoveredInRow(width, start, end, h - 1, width);
      ColumnsBelowAll(start, end, width);
      var inRow := if start.y <= h - 1 <= end.y then 1 else 0;
      assert RowsBelow(start, end, h) == RowsBelow(start, end, h - 1) + inRow;
      Distribute(c, RowsBelow(start, end, h - 1), inRow);
    }
  }

  lemma Distribute(c: int, a: int, b: int)
    ensures c * (a + b) == c * a + c * b
  {
  }

  /** Rows start.y .. end.y below h. */
  function RowsBelow(start: Point, end: Point, h: nat): nat
  {
    if h == 0 then 0 else RowsBelow(start, end, h - 1) + (if start.y <= h - 1 <= end.y then 1 else 0)
  }

  lemma {:induction false} RowsBelowAll(start: Point, end: Point, h: nat)
    requires start.y <= end.y && end.y < h
    ensures RowsBelow(start, end, h) == end.y - start.y + 1
  {
    if h - 1 > end.y {
      RowsBelowAll(start, end, h - 1);
    } else {
      RowsBelowRun(start, end, h - 1);
    }
  }

  lemma {:induction false} RowsBelowRun(start: Point, end: Point, h: nat)
    requires start.y <= h <= end.y + 1
    ensures RowsBelow(start, end, h) == h - start.y
  {
    if h > start.y {
      RowsBelowRun(start, end, h - 1);
    } else {
      RowsBelowNone(start, end, h);
    }
  }

  lemma {:induction false} RowsBelowNone(start: Point, end: Point, h: nat)
    requires h <= start.y
    ensures RowsBelow(start, end, h) == 0
  {
    if h > 0 {
      RowsBelowNone(start, end, h - 1);
    }
  }

  lemma {:induction false} NothingCovered(width: nat, start: Point, end: Point, n: nat)
    requires Empty(start, end)
    ensures CoveredBelow(width, start, end, n) == 0
  {
    if n > 0 {
      NothingCovered(width, start, end, n - 1);
    }
  }

  /** A rectangle that fits covers exactly its area of the grid's cells. */
  lemma CoveredArea(width: nat, height: nat, start: Point, end: Point)
    requires Fits(width, height, start, end)
    ensures CoveredBelow(width, start, end, width * height) == Area(start, end)
  {
    if Empty(start, end) {
      NothingCovered(width, start, end, width * height);
    } else {
      CoveredRows(width, start, end, height);
      RowsBelowAll(start, end, height);
      assert height * width == width * height;
    }
  }
}
