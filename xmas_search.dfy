/**
 * day-04 part 2: every cell holding 'X' is tried in the eight directions;
 * a direction counts when the next three cells along it hold 'M', 'A' and
 * 'S'.  The grid is given as its lines; a cell off the grid holds nothing.
 */
module XmasSearch {
  import opened Wrappers

  datatype Vec2 = Vec2(x: int, y: int)

  /** `DIRECTIONS`: the offsets 1, 2 and 3 steps along each of the eight directions. */
  const DIRECTIONS: seq<seq<Vec2>> := [
    [Vec2(0, -1), Vec2(0, -2), Vec2(0, -3)],
    [Vec2(0, 1), Vec2(0, 2), Vec2(0, 3)],
    [Vec2(1, 0), Vec2(2, 0), Vec2(3, 0)],
    [Vec2(-1, 0), Vec2(-2, 0), Vec2(-3, 0)],
    [Vec2(1, -1), Vec2(2, -2), Vec2(3, -3)],
    [Vec2(1, 1), Vec2(2, 2), Vec2(3, 3)],
    [Vec2(-1, -1), Vec2(-2, -2), Vec2(-3, -3)],
    [Vec2(-1, 1), Vec2(-2, 2), Vec2(-3, 3)]
  ]

  const MAS: seq<char> := ['M', 'A', 'S']

  function Add(a: Vec2, b: Vec2): Vec2
  {
    Vec2(a.x + b.x, a.y + b.y)
  }

  predicate InGrid(grid: seq<string>, p: Vec2)
  {
    0 <= p.y < |grid| && 0 <= p.x < |grid[p.y]|
  }

  /** `positions.get`: the character at p, None off the grid. */
  function Get(grid: seq<string>, p: Vec2): Option<char>
  {
    if InGrid(grid, p) then Some(grid[p.y][p.x]) else None
  }

  /** The `all` over one direction: each offset holds the letter of "MAS" at its index. */
  predicate Matches(grid: seq<string>, pos: Vec2, d: nat)
    requires d < 8
  {
    forall k :: 0 <= k < 3 ==> Get(grid, Add(pos, DIRECTIONS[d][k])) == Some(MAS[k])
  }

  /** The `map` over `DIRECTIONS`: which of the eight directions match. */
  function Hits(grid: seq<string>, pos: Vec2): seq<bool>
  {
    seq(8, d requires 0 <= d < 8 => Matches(grid, pos, d))
  }

  /** `filter(|b| *b).count()`. */
  function CountTrue(bs: seq<bool>): nat
  {
    if bs == [] then 0 else CountTrue(bs[..|bs| - 1]) + if bs[|bs| - 1] then 1 else 0
  }

  /** The number of directions matching from pos. */
  function XmasAt(grid: seq<string>, pos: Vec2): nat
  {
    CountTrue(Hits(grid, pos))
  }

  /** The matches in the first x cells of line y, counted from the 'X' cells only. */
  function RowSum(grid: seq<string>, y: nat, x: nat): nat
    requires y < |grid| && x <= |grid[y]|
  {
    if x == 0 then 0
    else RowSum(grid, y, x - 1) + CellMatches(grid, Vec2(x - 1, y))
  }

  /** The `filter` on 'X' cells, then the `map` to their number of matches. */
  function CellMatches(grid: seq<string>, p: Vec2): nat
    requires InGrid(grid, p)
  {
    if grid[p.y][p.x] == 'X' then XmasAt(grid, p) else 0
  }

  function RowsSum(grid: seq<string>, y: nat): nat
    requires y <= |grid|
  {
    if y == 0 then 0 else RowsSum(grid, y - 1) + RowSum(grid, y - 1, |grid[y - 1]|)
  }

  /** `process` after parsing: the `sum` over the 'X' cells of their matching directions. */
  function Total(grid: seq<string>): nat
  {
    RowsSum(grid, |grid|)
  }

  // ---------------------------------------------------------------------
  // The reference definition

  /** An occurrence: an 'X' at p followed along direction d by "MAS". */
  predicate Occ(grid: seq<string>, p: Vec2, d: int)
  {
    InGrid(grid, p) && 0 <= d < 8 && grid[p.y][p.x] == 'X' && Matches(grid, p, d)
  }

  ghost function Occurrences(grid: seq<string>): set<(Vec2, int)>
  {
    set y: int, x: int, d: int | 0 <= y < |grid| && 0 <= x < |grid[y]| && 0 <= d < 8 && Occ(grid, Vec2(x, y), d) :: (Vec2(x, y), d)
  }

  // ---------------------------------------------------------------------
  // Properties

  /** A direction matches exactly when the three cells along it lie on the grid and spell "MAS". */
  lemma MatchesSpells(grid: seq<string>, pos: Vec2, d: nat)
    requires d < 8
    ensures Matches(grid, pos, d) <==>
      forall k :: 0 <= k < 3 ==> InGrid(grid, Add(pos, DIRECTIONS[d][k])) && grid[Add(pos, DIRECTIONS[d][k]).y][Add(pos, DIRECTIONS[d][k]).x] == MAS[k]
  {
  }

  /** A direction running off the grid within three steps never matches. */
  lemma OffGrid(grid: seq<string>, pos: Vec2, d: nat, k: nat)
    requires d < 8 && k < 3 && !InGrid(grid, Add(pos, DIRECTIONS[d][k]))
    ensures !Matches(grid, pos, d)
  {
  }

  /** Each 'X' contributes one match at most per direction. */
  lemma {:induction false} CountTrueBound(bs: seq<bool>)
    ensures CountTrue(bs) <= |bs|
  {
    if bs != [] {
      CountTrueBound(bs[..|bs| - 1]);
    }
  }

  /** The total is the number of occurrences. */
  lemma TotalCountsOccurrences(grid: seq<string>)
    ensures Total(grid) == |Occurrences(grid)|
  {
    RowsCount(grid, |grid|);
    assert ByRows(grid, |grid|) == Occurrences(grid);
  }

  ghost function ByDirs(grid: seq<string>, p: Vec2, n: nat): set<(Vec2, int)>
  {
    set d | 0 <= d < n && Occ(grid, p, d) :: (p, d)
  }

  ghost function ByRow(grid: seq<string>, y: nat, x: nat): set<(Vec2, int)>
  {
    set x': int, d: int | 0 <= x' < x && 0 <= d < 8 && Occ(grid, Vec2(x', y), d) :: (Vec2(x', y), d)
  }

  ghost function ByRows(grid: seq<string>, y: nat): set<(Vec2, int)>
    requires y <= |grid|
  {
    set y': int, x: int, d: int | 0 <= y' < y && 0 <= x < |grid[y']| && 0 <= d < 8 && Occ(grid, Vec2(x, y'), d) :: (Vec2(x, y'), d)
  }

  /** Counting the true entries counts the indices holding true. */
  lemma {:induction false} CountTrueIndices(bs: seq<bool>, p: Vec2)
    ensures |set d | 0 <= d < |bs| && bs[d] :: (p, d)| == CountTrue(bs)
  {
    if bs != [] {
      var init := bs[..|bs| - 1];
      CountTrueIndices(init, p);
      var before := set d | 0 <= d < |init| && init[d] :: (p, d);
      var all := set d | 0 <= d < |bs| && bs[d] :: (p, d);
      if bs[|bs| - 1] {
        assert all == before + {(p, |bs| - 1)};
        assert (p, |bs| - 1) !in before;
      } else {
        assert all == before;
      }
    }
  }

  lemma DirsCount(grid: seq<string>, p: Vec2)
    requires InGrid(grid, p)
    ensures |ByDirs(grid, p, 8)| == CellMatches(grid, p)
  {
    if grid[p.y][p.x] == 'X' {
      var hits := Hits(grid, p);
      CountTrueIndices(hits, p);
      assert ByDirs(grid, p, 8) == set d | 0 <= d < |hits| && hits[d] :: (p, d);
    } else {
      assert ByDirs(grid, p, 8) == {};
    }
  }

  lemma {:induction false} DisjointCard<T>(a: set<T>, b: set<T>)
    requires a * b == {}
    ensures |a + b| == |a| + |b|
    decreases |b|
  {
    if b != {} {
      var x :| x in b;
      DisjointCard(a, b - {x});
      assert a + b == (a + (b - {x})) + {x};
      assert x !in a + (b - {x});
    }
  }

  lemma {:induction false} RowCount(grid: seq<string>, y: nat, x: nat)
    requires y < |grid| && x <= |grid[y]|
    ensures |ByRow(grid, y, x)| == RowSum(grid, y, x)
  {
    if x == 0 {
      assert ByRow(grid, y, x) == {};
    } else {
      RowCount(grid, y, x - 1);
      var p := Vec2(x - 1, y);
      var cell := ByDirs(grid, p, 8);
      RowSplit(grid, y, x);
      DisjointCard(ByRow(grid, y, x - 1), cell);
      DirsCount(grid, p);
    }
  }

  lemma {:induction false} RowsCount(grid: seq<string>, y: nat)
    requires y <= |grid|
    ensures |ByRows(grid, y)| == RowsSum(grid, y)
  {
    if y == 0 {
      assert ByRows(grid, y) == {};
    } else {
      RowsCount(grid, y - 1);
      RowCount(grid, y - 1, |grid[y - 1]|);
      RowsSplit(grid, y);
      DisjointCard(ByRows(grid, y - 1), ByRow(grid, y - 1, |grid[y - 1]|));
    }
  }

  lemma RowSplit(grid: seq<string>, y: nat, x: nat)
    requires y < |grid| && 0 < x <= |grid[y]|
    ensures ByRow(grid, y, x) == ByRow(grid, y, x - 1) + ByDirs(grid, Vec2(x - 1, y), 8)
    ensures ByRow(grid, y, x - 1) * ByDirs(grid, Vec2(x - 1, y), 8) == {}
  {
  }

  lemma RowsSplit(grid: seq<string>, y: nat)
    requires 0 < y <= |grid|
    ensures ByRows(grid, y) == ByRows(grid, y - 1) + ByRow(grid, y - 1, |grid[y - 1]|)
    ensures ByRows(grid, y - 1) * ByRow(grid, y - 1, |grid[y - 1]|) == {}
  {
  }

  /** At most eight matches per 'X'. */
  lemma {:induction false} RowBound(grid: seq<string>, y: nat, x: nat)
    requires y < |grid| && x <= |grid[y]|
    ensures RowSum(grid, y, x) <= 8 * x
  {
    if x > 0 {
      RowBound(grid, y, x - 1);
      CountTrueBound(Hits(grid, Vec2(x - 1, y)));
      assert CellMatches(grid, Vec2(x - 1, y)) <= 8;
    }
  }

  /** A line reading "XMASAMX" holds the word twice, once each way. */
  lemma BothWays(grid: seq<string>)
    requires grid == ["XMASAMX"]
    ensures Total(grid) == 2
  {
    OnlyDirection(grid, Vec2(0, 0), 2);
    OnlyDirection(grid, Vec2(6, 0), 3);
    LineSum(grid);
    assert RowsSum(grid, 1) == RowsSum(grid, 0) + RowSum(grid, 0, 7);
  }

  /** Only the two ends of the line hold 'X', and each counts one match. */
  lemma LineSum(grid: seq<string>)
    requires grid == ["XMASAMX"] && XmasAt(grid, Vec2(0, 0)) == 1 && XmasAt(grid, Vec2(6, 0)) == 1
    ensures RowSum(grid, 0, 7) == 2
  {
    assert RowSum(grid, 0, 1) == 1;
    forall x | 1 <= x < 6
      ensures CellMatches(grid, Vec2(x, 0)) == 0
    {
      assert grid[0][x] != 'X';
    }
    assert RowSum(grid, 0, 2) == 1;
    assert RowSum(grid, 0, 3) == 1;
    assert RowSum(grid, 0, 4) == 1;
    assert RowSum(grid, 0, 5) == 1;
    assert RowSum(grid, 0, 6) == 1;
  }

  /** From either end of the one line, "MAS" follows along direction e and along no other. */
  lemma OnlyDirection(grid: seq<string>, pos: Vec2, e: nat)
    requires grid == ["XMASAMX"] && ((pos == Vec2(0, 0) && e == 2) || (pos == Vec2(6, 0) && e == 3))
    ensures XmasAt(grid, pos) == 1
  {
    var hits := Hits(grid, pos);
    assert Matches(grid, pos, e) by {
      if e == 2 {
        assert Get(grid, Vec2(1, 0)) == Some('M') && Get(grid, Vec2(2, 0)) == Some('A') && Get(grid, Vec2(3, 0)) == Some('S');
      } else {
        assert Get(grid, Vec2(5, 0)) == Some('M') && Get(grid, Vec2(4, 0)) == Some('A') && Get(grid, Vec2(3, 0)) == Some('S');
      }
    }
    forall d | 0 <= d < 8 && d != e
      ensures !hits[d]
    {
      OffLine(grid, pos, d);
    }
    CountTrueOne(hits, e);
  }

  /** Off the horizontal directions the first step leaves the one line; the horizontal one the other way leaves it at an end. */
  lemma OffLine(grid: seq<string>, pos: Vec2, d: nat)
    requires grid == ["XMASAMX"] && (pos == Vec2(0, 0) || pos == Vec2(6, 0)) && d < 8
    requires pos == Vec2(0, 0) ==> d != 2
    requires pos == Vec2(6, 0) ==> d != 3
    ensures !Matches(grid, pos, d)
  {
    assert Get(grid, Add(pos, DIRECTIONS[d][0])) == None;
  }

  /** Exactly one true entry counts one. */
  lemma {:induction false} CountTrueOne(bs: seq<bool>, i: nat)
    requires i < |bs| && bs[i] && forall j :: 0 <= j < |bs| && j != i ==> !bs[j]
    ensures CountTrue(bs) == 1
  {
    var init := bs[..|bs| - 1];
    if i < |bs| - 1 {
      CountTrueOne(init, i);
    } else {
      CountTrueNone(init);
    }
  }

  lemma {:induction false} CountTrueNone(bs: seq<bool>)
    requires forall j :: 0 <= j < |bs| ==> !bs[j]
    ensures CountTrue(bs) == 0
  {
    if bs != [] {
      CountTrueNone(bs[..|bs| - 1]);
    }
  }
}
