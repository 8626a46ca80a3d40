/**
 * 2024/day-06 part 1: a guard starts facing north and walks forward,
 * turning right in front of an obstacle, until it stands outside the box
 * spanned by the obstacles; the answer is the number of distinct cells it
 * stood on, less the one outside cell it stepped onto last.
 */
module GuardPatrol {
  import opened Wrappers

  datatype Vec2 = Vec2(x: int, y: int)

  datatype Direction = North | South | East | West

  function TurnRight(d: Direction): Direction
  {
    match d
    case North => East
    case South => West
    case East => South
    case West => North
  }

  /** `to_ivec2`: the unit step, with north pointing to smaller y. */
  function Offset(d: Direction): Vec2
  {
    match d
    case North => Vec2(0, -1)
    case South => Vec2(0, 1)
    case East => Vec2(1, 0)
    case West => Vec2(-1, 0)
  }

  function Add(p: Vec2, v: Vec2): Vec2
  {
    Vec2(p.x + v.x, p.y + v.y)
  }

  /** The inclusive ranges `x_minmax` and `y_minmax`. */
  datatype Bounds = Bounds(xmin: int, xmax: int, ymin: int, ymax: int)

  predicate Inside(b: Bounds, p: Vec2)
  {
    b.xmin <= p.x <= b.xmax && b.ymin <= p.y <= b.ymax
  }

  function Min(xs: seq<int>): int
    requires |xs| > 0
  {
    if |xs| == 1 then xs[0] else if xs[0] <= Min(xs[1..]) then xs[0] else Min(xs[1..])
  }

  function Max(xs: seq<int>): int
    requires |xs| > 0
  {
    if |xs| == 1 then xs[0] else if xs[0] >= Max(xs[1..]) then xs[0] else Max(xs[1..])
  }

  /** The `minmax` of the obstacle coordinates; an empty obstacle map makes `unwrap` panic. */
  function BoundsOf(obstacles: seq<Vec2>): (b: Bounds)
    requires |obstacles| > 0
    ensures forall k :: 0 <= k < |obstacles| ==> Inside(b, obstacles[k])
  {
    MinMax(Xs(obstacles));
    MinMax(Ys(obstacles));
    Bounds(Min(Xs(obstacles)), Max(Xs(obstacles)), Min(Ys(obstacles)), Max(Ys(obstacles)))
  }

  /** The minimum and the maximum are elements, below and above every other. */
  lemma {:induction false} MinMax(xs: seq<int>)
    requires |xs| > 0
    ensures Min(xs) in xs && Max(xs) in xs
    ensures forall k :: 0 <= k < |xs| ==> Min(xs) <= xs[k] <= Max(xs)
  {
    if |xs| > 1 {
      MinMax(xs[1..]);
      assert forall k :: 1 <= k < |xs| ==> xs[k] == xs[1..][k - 1];
    }
  }

  function Xs(obstacles: seq<Vec2>): (xs: seq<int>)
    ensures |xs| == |obstacles| && forall k :: 0 <= k < |obstacles| ==> xs[k] == obstacles[k].x
  {
    seq(|obstacles|, k requires 0 <= k < |obstacles| => obstacles[k].x)
  }

  function Ys(obstacles: seq<Vec2>): (ys: seq<int>)
    ensures |ys| == |obstacles| && forall k :: 0 <= k < |obstacles| ==> ys[k] == obstacles[k].y
  {
    seq(|obstacles|, k requires 0 <= k < |obstacles| => obstacles[k].y)
  }

  datatype Guard = Guard(pos: Vec2, dir: Direction)

  /** One turn of the patrol loop: turn right in front of an obstacle, else step forward. */
  function Step(obstacles: seq<Vec2>, g: Guard): Guard
  {
    var next := Add(g.pos, Offset(g.dir));
    if next in obstacles then Guard(g.pos, TurnRight(g.dir)) else Guard(next, g.dir)
  }

  /** The guard after n turns of the loop. */
  function Run(obstacles: seq<Vec2>, g: Guard, n: nat): Guard
  {
    if n == 0 then g else Step(obstacles, Run(obstacles, g, n - 1))
  }

  /** The cells the guard stands on during the first n turns of the loop, its start included. */
  function Visited(obstacles: seq<Vec2>, g: Guard, n: nat): set<Vec2>
  {
    if n == 0 then {g.pos} else Visited(obstacles, g, n - 1) + {Run(obstacles, g, n).pos}
  }

  /** The loop condition fails for the first time after n turns. */
  ghost predicate FirstExit(obstacles: seq<Vec2>, b: Bounds, g: Guard, n: nat)
  {
    !Inside(b, Run(obstacles, g, n).pos) && forall k :: 0 <= k < n ==> Inside(b, Run(obstacles, g, k).pos)
  }

  /**
   * `process` after parsing, given at most `fuel` turns of the loop: the
   * size of `visited_pos` less one, or None when the guard is still inside
   * after `fuel` turns.
   */
  method Patrol(obstacles: seq<Vec2>, start: Vec2, fuel: nat) returns (result: Option<nat>)
    requires |obstacles| > 0
    ensures result.Some? ==> exists n :: 0 <= n <= fuel && FirstExit(obstacles, BoundsOf(obstacles), Guard(start, North), n) &&
                                         result.value == |Visited(obstacles, Guard(start, North), n)| - 1
    ensures result.None? ==> forall k :: 0 <= k <= fuel ==> Inside(BoundsOf(obstacles), Run(obstacles, Guard(start, North), k).pos)
  {
    var b := BoundsOf(obstacles);
    ghost var g0 := Guard(start, North);
    var pos, direction := start, North;
    var visited: set<Vec2> := {start};
    var i: nat := 0;
    while Inside(b, pos)
      invariant i <= fuel && Guard(pos, direction) == Run(obstacles, g0, i)
      invariant visited == Visited(obstacles, g0, i)
      invariant forall k :: 0 <= k < i ==> Inside(b, Run(obstacles, g0, k).pos)
      decreases fuel - i
    {
      if i == fuel {
        return None;
      }
      StepVisited(obstacles, g0, i);
      var next := Add(pos, Offset(direction));
      if next in obstacles {
        direction := TurnRight(direction);
        assert visited + {pos} == visited;
      } else {
        pos := next;
        visited := visited + {pos};
      }
      i := i + 1;
    }
    Exited(obstacles, b, g0, i, fuel);
    return Some(|visited| - 1);
  }

  /** The loop stopped outside the box after n turns: that is the first exit, and the start was counted. */
  lemma Exited(obstacles: seq<Vec2>, b: Bounds, g: Guard, n: nat, fuel: nat)
    requires n <= fuel && !Inside(b, Run(obstacles, g, n).pos)
    requires forall k :: 0 <= k < n ==> Inside(b, Run(obstacles, g, k).pos)
    ensures |Visited(obstacles, g, n)| >= 1
    ensures exists m :: 0 <= m <= fuel && FirstExit(obstacles, b, g, m) &&
                        |Visited(obstacles, g, n)| - 1 == |Visited(obstacles, g, m)| - 1
  {
    VisitedHasStart(obstacles, g, n);
    assert FirstExit(obstacles, b, g, n);
  }

  // ---------------------------------------------------------------------
  // Properties

  /** Turning right rotates the step a quarter turn clockwise (y grows downward). */
  lemma TurnRightRotates(d: Direction)
    ensures Offset(TurnRight(d)) == Vec2(-Offset(d).y, Offset(d).x)
    ensures TurnRight(TurnRight(TurnRight(TurnRight(d)))) == d
  {
  }

  /** One more turn of the loop adds the cell it ends on; the current cell is already there. */
  lemma StepVisited(obstacles: seq<Vec2>, g: Guard, n: nat)
    ensures Run(obstacles, g, n + 1) == Step(obstacles, Run(obstacles, g, n))
    ensures Visited(obstacles, g, n + 1) == Visited(obstacles, g, n) + {Run(obstacles, g, n + 1).pos}
    ensures Run(obstacles, g, n).pos in Visited(obstacles, g, n)
  {
  }

  lemma {:induction false} VisitedHasStart(obstacles: seq<Vec2>, g: Guard, n: nat)
    ensures g.pos in Visited(obstacles, g, n)
  {
    if n > 0 {
      VisitedHasStart(obstacles, g, n - 1);
    }
  }

  /** Each edge of the box passes through an obstacle: the box is the smallest holding them all. */
  lemma BoundsAttained(obstacles: seq<Vec2>)
    requires |obstacles| > 0
    ensures var b := BoundsOf(obstacles);
      (exists k :: 0 <= k < |obstacles| && obstacles[k].x == b.xmin) &&
      (exists k :: 0 <= k < |obstacles| && obstacles[k].x == b.xmax) &&
      (exists k :: 0 <= k < |obstacles| && obstacles[k].y == b.ymin) &&
      (exists k :: 0 <= k < |obstacles| && obstacles[k].y == b.ymax)
  {
    var xs, ys := Xs(obstacles), Ys(obstacles);
    MinMax(xs);
    MinMax(ys);
    var i0 :| 0 <= i0 < |xs| && xs[i0] == Min(xs);
    var i1 :| 0 <= i1 < |xs| && xs[i1] == Max(xs);
    var i2 :| 0 <= i2 < |ys| && ys[i2] == Min(ys);
    var i3 :| 0 <= i3 < |ys| && ys[i3] == Max(ys);
  }

  /** `Visited` holds exactly the cells of the first n turns. */
  lemma {:induction false} VisitedCells(obstacles: seq<Vec2>, g: Guard, n: nat, p: Vec2)
    ensures p in Visited(obstacles, g, n) <==> exists k :: 0 <= k <= n && Run(obstacles, g, k).pos == p
  {
    if n == 0 {
      if p == g.pos {
        assert Run(obstacles, g, 0).pos == p;
      }
    } else {
      VisitedCells(obstacles, g, n - 1, p);
      if p == Run(obstacles, g, n).pos {
        assert Run(obstacles, g, n).pos == p && p in Visited(obstacles, g, n);
      } else if k :| 0 <= k <= n && Run(obstacles, g, k).pos == p {
        assert k <= n - 1;
      }
    }
  }

  /**
   * Less one, the count is the number of distinct cells inside the box the
   * guard stood on: the cell outside it where the loop stops is always new.
   */
  lemma CountsInsideCells(obstacles: seq<Vec2>, b: Bounds, g: Guard, n: nat)
    requires FirstExit(obstacles, b, g, n) && n >= 1
    ensures |Visited(obstacles, g, n)| - 1 == |Visited(obstacles, g, n - 1)|
    ensures forall p :: p in Visited(obstacles, g, n - 1) ==> Inside(b, p)
  {
    var last := Run(obstacles, g, n).pos;
    forall p | p in Visited(obstacles, g, n - 1)
      ensures Inside(b, p)
    {
      VisitedCells(obstacles, g, n - 1, p);
    }
    assert last !in Visited(obstacles, g, n - 1);
  }

  /** A guard starting outside the box counts nothing. */
  lemma StartOutside(obstacles: seq<Vec2>, b: Bounds, g: Guard)
    requires FirstExit(obstacles, b, g, 0)
    ensures |Visited(obstacles, g, 0)| - 1 == 0
  {
  }
}
