/**
 * 2024/day-06 part 2: the guard's first walk now stops in front of the
 * first step that would leave the box; every cell it stood on, its start
 * excepted, is tried as one extra obstacle, and a try counts when the walk
 * then returns to a (cell, direction) state it had already recorded.
 */
module GuardLoops {
  import opened Wrappers
  import opened GuardPatrol

  /** The first walk's `break`: the cell ahead is free but outside the box. */
  predicate Leaves(obstacles: seq<Vec2>, b: Bounds, g: Guard)
  {
    var next := Add(g.pos, Offset(g.dir));
    next !in obstacles && !Inside(b, next)
  }

  /** The first walk breaks after n turns of its loop, and not before. */
  ghost predicate FirstLeave(obstacles: seq<Vec2>, b: Bounds, g: Guard, n: nat)
  {
    Leaves(obstacles, b, Run(obstacles, g, n)) && forall k :: 0 <= k < n ==> !Leaves(obstacles, b, Run(obstacles, g, k))
  }

  /**
   * Some state of the walk repeats, and up to the repetition the guard
   * stood only on cells inside the box or on its start.
   */
  ghost predicate Trapped(obstacles: seq<Vec2>, b: Bounds, g: Guard)
  {
    exists i: nat, j: nat :: i < j && Run(obstacles, g, i) == Run(obstacles, g, j) &&
                             forall m :: 0 <= m <= j ==> Inside(b, Run(obstacles, g, m).pos) || Run(obstacles, g, m).pos == g.pos
  }

  /** The guard stands outside the box at some point. */
  ghost predicate Escapes(obstacles: seq<Vec2>, b: Bounds, g: Guard)
  {
    exists j: nat :: !Inside(b, Run(obstacles, g, j).pos)
  }

  /**
   * The first `loop` of `process`, given at most `fuel` turns: the cells of
   * `visited_pos` when it breaks, or None when it has not broken by then.
   */
  method Route(obstacles: seq<Vec2>, b: Bounds, start: Vec2, fuel: nat) returns (cells: Option<set<Vec2>>)
    ensures cells.Some? ==> exists n :: 0 <= n < fuel && FirstLeave(obstacles, b, Guard(start, North), n) &&
                                        cells.value == Visited(obstacles, Guard(start, North), n)
    ensures cells.None? ==> forall k :: 0 <= k < fuel ==> !Leaves(obstacles, b, Run(obstacles, Guard(start, North), k))
  {
    ghost var g0 := Guard(start, North);
    var pos, direction := start, North;
    var visited: set<Vec2> := {start};
    var i: nat := 0;
    while i < fuel
      invariant Guard(pos, direction) == Run(obstacles, g0, i)
      invariant visited == Visited(obstacles, g0, i)
      invariant forall k :: 0 <= k < i ==> !Leaves(obstacles, b, Run(obstacles, g0, k))
    {
      StepVisited(obstacles, g0, i);
      var next := Add(pos, Offset(direction));
      if next in obstacles {
        direction := TurnRight(direction);
        assert visited + {pos} == visited;
      } else if Inside(b, next) {
        pos := next;
        visited := visited + {pos};
      } else {
        assert FirstLeave(obstacles, b, g0, i);
        return Some(visited);
      }
      i := i + 1;
    }
    return None;
  }

  /**
   * The `filter` closure for one candidate `wall`, given at most `fuel`
   * turns: true when the walk meets a recorded state again, false when it
   * steps outside the box, None when neither happens within `fuel` turns.
   */
  method Loops(obstacles: seq<Vec2>, b: Bounds, start: Vec2, wall: Vec2, fuel: nat) returns (r: Option<bool>)
    ensures r == Some(true) ==> Trapped(obstacles + [wall], b, Guard(start, North))
    ensures r == Some(false) ==> Escapes(obstacles + [wall], b, Guard(start, North))
  {
    ghost var walls := obstacles + [wall];
    ghost var g0 := Guard(start, North);
    var pos, direction := start, North;
    var seen: set<Guard> := {Guard(start, North)};
    var k: nat := 0;
    RecordedStart(walls, b, g0);
    while k < fuel
      invariant Guard(pos, direction) == Run(walls, g0, k)
      invariant Recorded(walls, b, g0, seen, k)
    {
      var next := Add(pos, Offset(direction));
      assert Run(walls, g0, k + 1) == Step(walls, Run(walls, g0, k));
      if next in obstacles || next == wall {
        direction := TurnRight(direction);
        RecordedTurn(walls, b, g0, seen, k);
      } else if Guard(next, direction) in seen {
        RepeatTrapped(walls, b, g0, seen, k);
        return Some(true);
      } else if Inside(b, next) {
        RecordedMove(walls, b, g0, seen, k);
        pos := next;
        seen := seen + {Guard(pos, direction)};
      } else {
        assert !Inside(b, Run(walls, g0, k + 1).pos);
        return Some(false);
      }
      k := k + 1;
    }
    return None;
  }

  /**
   * What `Loops` knows after k turns: every state in `seen` was reached
   * within them, and every cell stood on so far is inside the box or the start.
   */
  ghost predicate Recorded(walls: seq<Vec2>, b: Bounds, g0: Guard, seen: set<Guard>, k: nat)
  {
    (forall s :: s in seen ==> exists i :: 0 <= i <= k && Run(walls, g0, i) == s) &&
    (forall m :: 0 <= m <= k ==> Inside(b, Run(walls, g0, m).pos) || Run(walls, g0, m).pos == g0.pos)
  }

  lemma RecordedStart(walls: seq<Vec2>, b: Bounds, g0: Guard)
    ensures Recorded(walls, b, g0, {g0}, 0)
  {
    assert Run(walls, g0, 0) == g0;
  }

  /** A turn on the spot keeps what is recorded. */
  lemma RecordedTurn(walls: seq<Vec2>, b: Bounds, g0: Guard, seen: set<Guard>, k: nat)
    requires Recorded(walls, b, g0, seen, k) && Run(walls, g0, k + 1).pos == Run(walls, g0, k).pos
    ensures Recorded(walls, b, g0, seen, k + 1)
  {
    forall m | 0 <= m <= k + 1
      ensures Inside(b, Run(walls, g0, m).pos) || Run(walls, g0, m).pos == g0.pos
    {
      if m == k + 1 {
        assert Run(walls, g0, m).pos == Run(walls, g0, k).pos;
      }
    }
  }

  /** A step to a cell inside the box records the new state. */
  lemma RecordedMove(walls: seq<Vec2>, b: Bounds, g0: Guard, seen: set<Guard>, k: nat)
    requires Recorded(walls, b, g0, seen, k) && Inside(b, Run(walls, g0, k + 1).pos)
    ensures Recorded(walls, b, g0, seen + {Run(walls, g0, k + 1)}, k + 1)
  {
  }

  /** Meeting a recorded state again means the walk is trapped. */
  lemma RepeatTrapped(walls: seq<Vec2>, b: Bounds, g0: Guard, seen: set<Guard>, k: nat)
    requires Recorded(walls, b, g0, seen, k) && Run(walls, g0, k + 1) in seen
    ensures Trapped(walls, b, g0)
  {
    var i :| 0 <= i <= k && Run(walls, g0, i) == Run(walls, g0, k + 1);
    forall m | 0 <= m <= k + 1
      ensures Inside(b, Run(walls, g0, m).pos) || Run(walls, g0, m).pos == g0.pos
    {
      if m == k + 1 {
        assert Run(walls, g0, m) == Run(walls, g0, i);
      }
    }
    assert i < k + 1;
  }

  /**
   * The `filter(..).count()` over `candidates`: how many of them make
   * `Loops` true, with the ghost set of those candidates; None when some
   * try runs out of fuel.
   */
  method CountLoops(obstacles: seq<Vec2>, b: Bounds, start: Vec2, candidates: set<Vec2>, fuel: nat)
    returns (count: Option<nat>, ghost trapping: set<Vec2>)
    ensures count.Some? ==> count.value == |trapping| && trapping <= candidates
    ensures count.Some? ==> forall w :: w in trapping ==> Trapped(obstacles + [w], b, Guard(start, North))
    ensures count.Some? ==> forall w :: w in candidates && w !in trapping ==> Escapes(obstacles + [w], b, Guard(start, North))
  {
    var remaining := candidates;
    var c: nat := 0;
    trapping := {};
    while remaining != {}
      invariant remaining <= candidates && trapping <= candidates - remaining && c == |trapping|
      invariant forall w :: w in trapping ==> Trapped(obstacles + [w], b, Guard(start, North))
      invariant forall w :: w in candidates - remaining && w !in trapping ==> Escapes(obstacles + [w], b, Guard(start, North))
      decreases |remaining|
    {
      var wall :| wall in remaining;
      var r := Loops(obstacles, b, start, wall, fuel);
      if r.None? {
        return None, {};
      }
      if r.value {
        c := c + 1;
        trapping := trapping + {wall};
      }
      remaining := remaining - {wall};
    }
    return Some(c), trapping;
  }

  /**
   * `process` after parsing: the first walk, its cells less the start as
   * candidates, and the count of candidates that trap the guard.
   */
  method Process(obstacles: seq<Vec2>, start: Vec2, fuel: nat)
    returns (result: Option<nat>, ghost candidates: set<Vec2>, ghost trapping: set<Vec2>)
    requires |obstacles| > 0
    ensures result.Some? ==> exists n :: 0 <= n < fuel && FirstLeave(obstacles, BoundsOf(obstacles), Guard(start, North), n) &&
                                         candidates == Visited(obstacles, Guard(start, North), n) - {start}
    ensures result.Some? ==> result.value == |trapping| && trapping <= candidates
    ensures result.Some? ==> forall w :: w in trapping ==> Trapped(obstacles + [w], BoundsOf(obstacles), Guard(start, North))
    ensures result.Some? ==> forall w :: w in candidates && w !in trapping ==> Escapes(obstacles + [w], BoundsOf(obstacles), Guard(start, North))
  {
    var b := BoundsOf(obstacles);
    var cells := Route(obstacles, b, start, fuel);
    if cells.None? {
      return None, {}, {};
    }
    var tries := cells.value - {start};
    candidates := tries;
    result, trapping := CountLoops(obstacles, b, start, tries, fuel);
  }

  // ---------------------------------------------------------------------
  // Properties

  /** Running a + t turns is running t turns from where a turns left the guard. */
  lemma {:induction false} RunShift(obstacles: seq<Vec2>, g: Guard, a: nat, t: nat)
    ensures Run(obstacles, g, a + t) == Run(obstacles, Run(obstacles, g, a), t)
  {
    if t > 0 {
      RunShift(obstacles, g, a, t - 1);
    }
  }

  /** Once a state repeats, the walk repeats with that period forever. */
  lemma {:induction false} Periodic(obstacles: seq<Vec2>, g: Guard, i: nat, j: nat, n: nat)
    requires i < j && Run(obstacles, g, i) == Run(obstacles, g, j) && n >= i
    ensures Run(obstacles, g, n + (j - i)) == Run(obstacles, g, n)
  {
    RunShift(obstacles, g, i, n - i);
    RunShift(obstacles, g, j, n - i);
    assert n + (j - i) == j + (n - i);
  }

  /** A trapped guard never stands outside the box, except perhaps on its start. */
  lemma TrappedStaysInside(obstacles: seq<Vec2>, b: Bounds, g: Guard, n: nat)
    requires Trapped(obstacles, b, g)
    ensures Inside(b, Run(obstacles, g, n).pos) || Run(obstacles, g, n).pos == g.pos
  {
    var i: nat, j: nat :| i < j && Run(obstacles, g, i) == Run(obstacles, g, j) &&
                         forall m :: 0 <= m <= j ==> Inside(b, Run(obstacles, g, m).pos) || Run(obstacles, g, m).pos == g.pos;
    forall m | 0 <= m <= j ensures Kept(obstacles, b, g, m) {
    }
    KeptForever(obstacles, b, g, i, j, n);
  }

  /** After n turns the guard is inside the box or on its start. */
  ghost predicate Kept(obstacles: seq<Vec2>, b: Bounds, g: Guard, n: nat)
  {
    Inside(b, Run(obstacles, g, n).pos) || Run(obstacles, g, n).pos == g.pos
  }

  lemma {:induction false} KeptForever(obstacles: seq<Vec2>, b: Bounds, g: Guard, i: nat, j: nat, n: nat)
    requires i < j && Run(obstacles, g, i) == Run(obstacles, g, j)
    requires forall m :: 0 <= m <= j ==> Kept(obstacles, b, g, m)
    ensures Kept(obstacles, b, g, n)
    decreases n
  {
    if n > j {
      KeptForever(obstacles, b, g, i, j, n - (j - i));
      Periodic(obstacles, g, i, j, n - (j - i));
    }
  }

  /** From a start inside the box, no candidate is both counted and escaping: the count is exact. */
  lemma TrappedExcludesEscapes(obstacles: seq<Vec2>, b: Bounds, g: Guard)
    requires Inside(b, g.pos)
    ensures !(Trapped(obstacles, b, g) && Escapes(obstacles, b, g))
  {
    if Trapped(obstacles, b, g) && Escapes(obstacles, b, g) {
      var j: nat :| !Inside(b, Run(obstacles, g, j).pos);
      TrappedStaysInside(obstacles, b, g, j);
    }
  }

  /** From a start inside the box, the first walk records only cells inside it. */
  lemma {:induction false} RouteInside(obstacles: seq<Vec2>, b: Bounds, g: Guard, n: nat)
    requires Inside(b, g.pos) && forall k :: 0 <= k < n ==> !Leaves(obstacles, b, Run(obstacles, g, k))
    ensures forall p :: p in Visited(obstacles, g, n) ==> Inside(b, p)
  {
    if n > 0 {
      RouteInside(obstacles, b, g, n - 1);
      RouteStepInside(obstacles, b, g, n);
    }
  }

  lemma {:induction false} RouteStepInside(obstacles: seq<Vec2>, b: Bounds, g: Guard, n: nat)
    requires Inside(b, g.pos) && forall k :: 0 <= k < n ==> !Leaves(obstacles, b, Run(obstacles, g, k))
    ensures Inside(b, Run(obstacles, g, n).pos)
  {
    if n > 0 {
      RouteStepInside(obstacles, b, g, n - 1);
      assert !Leaves(obstacles, b, Run(obstacles, g, n - 1));
    }
  }

  /** The candidate wall is an obstacle like the others: the walk with it is the walk over the extended list. */
  lemma WallIsObstacle(obstacles: seq<Vec2>, wall: Vec2, p: Vec2)
    ensures p in obstacles + [wall] <==> p in obstacles || p == wall
  {
  }
}
