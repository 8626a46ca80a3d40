/**
 * 2024/day-14 part 2: robots move on a torus of `MAP_SIZE` cells, each by
 * its own velocity once per second, wrapping with `rem_euclid`.  The answer
 * is the first second after which no two robots share a cell.
 */
module RobotTree {
  import opened Wrappers
  import Bits

  datatype Vec2 = Vec2(x: int, y: int)

  datatype Robot = Robot(position: Vec2, velocity: Vec2)

  /** `MAP_SIZE` outside the test configuration. */
  const MAP_SIZE: Vec2 := Vec2(101, 103)

  predicate ValidSize(size: Vec2)
  {
    size.x > 0 && size.y > 0
  }

  predicate InBounds(p: Vec2, size: Vec2)
  {
    0 <= p.x < size.x && 0 <= p.y < size.y
  }

  /** One robot after one second: `(position + velocity).rem_euclid(MAP_SIZE)`. */
  function Move(r: Robot, size: Vec2): (r': Robot)
    requires ValidSize(size)
    ensures r'.velocity == r.velocity && InBounds(r'.position, size)
  {
    Robot(Vec2((r.position.x + r.velocity.x) % size.x, (r.position.y + r.velocity.y) % size.y), r.velocity)
  }

  /** Every robot after one second. */
  function StepAll(robots: seq<Robot>, size: Vec2): (r: seq<Robot>)
    requires ValidSize(size)
    ensures |r| == |robots| && forall k :: 0 <= k < |robots| ==> r[k] == Move(robots[k], size)
  {
    seq(|robots|, k requires 0 <= k < |robots| => Move(robots[k], size))
  }

  /** Every robot after n seconds. */
  function After(robots: seq<Robot>, size: Vec2, n: nat): (r: seq<Robot>)
    requires ValidSize(size)
    ensures |r| == |robots|
  {
    if n == 0 then robots else StepAll(After(robots, size, n - 1), size)
  }

  /** `tree_test`: the robots' positions are pairwise distinct. */
  predicate TreeTest(robots: seq<Robot>)
  {
    forall i, j :: 0 <= i < j < |robots| ==> robots[i].position != robots[j].position
  }

  /** `all_unique` as it consumes the iterator: each position is new among those before it. */
  function AllUnique(robots: seq<Robot>): bool
  {
    robots == [] || (AllUnique(robots[..|robots| - 1]) && forall k :: 0 <= k < |robots| - 1 ==> robots[k].position != robots[|robots| - 1].position)
  }

  /** The `iter_mut` loop: every robot moved once, in place. */
  method Step(robots: array<Robot>)
    modifies robots
    ensures robots[..] == StepAll(old(robots[..]), MAP_SIZE)
  {
    for k := 0 to robots.Length
      invariant forall m :: 0 <= m < robots.Length ==> robots[m] == if m < k then Move(old(robots[m]), MAP_SIZE) else old(robots[m])
    {
      robots[k] := Move(robots[k], MAP_SIZE);
    }
  }

  /**
   * The `loop` of `process`, given at most `fuel` seconds: the first second
   * after which `tree_test` holds, or None when none of the first `fuel` does.
   */
  method FindTree(robots: array<Robot>, fuel: nat) returns (steps: Option<nat>)
    modifies robots
    ensures steps.Some? ==> 1 <= steps.value <= fuel && TreeTest(After(old(robots[..]), MAP_SIZE, steps.value))
    ensures steps.Some? ==> forall j :: 1 <= j < steps.value ==> !TreeTest(After(old(robots[..]), MAP_SIZE, j))
    ensures steps.None? ==> forall j :: 1 <= j <= fuel ==> !TreeTest(After(old(robots[..]), MAP_SIZE, j))
    ensures robots[..] == After(old(robots[..]), MAP_SIZE, if steps.Some? then steps.value else fuel)
  {
    ghost var start := robots[..];
    var i := 0;
    while i < fuel
      invariant i <= fuel && robots[..] == After(start, MAP_SIZE, i)
      invariant forall j :: 1 <= j <= i ==> !TreeTest(After(start, MAP_SIZE, j))
    {
      Step(robots);
      i := i + 1;
      if TreeTest(robots[..]) {
        return Some(i);
      }
    }
    return None;
  }

  // ---------------------------------------------------------------------
  // Properties

  /** The recursive `all_unique` scan agrees with pairwise distinctness. */
  lemma {:induction false} AllUniqueIsTreeTest(robots: seq<Robot>)
    ensures AllUnique(robots) == TreeTest(robots)
  {
    if robots != [] {
      var init := robots[..|robots| - 1];
      AllUniqueIsTreeTest(init);
      assert forall i :: 0 <= i < |init| ==> init[i] == robots[i];
    }
  }

  lemma ModAddMultiple(x: int, q: int, m: int)
    requires m > 0
    ensures (x + q * m) % m == x % m
  {
    var r := x % m;
    assert x == m * (x / m) + r;
    assert x + q * m == m * (x / m + q) + r;
    Bits.DivUnique(x + q * m, m, x / m + q, r);
  }

  lemma ModAdd(a: int, b: int, m: int)
    requires m > 0
    ensures (a % m + b) % m == (a + b) % m
  {
    assert a % m + b == (a + b) + (-(a / m)) * m;
    ModAddMultiple(a + b, -(a / m), m);
  }

  /** One coordinate after n seconds, in closed form. */
  function Wrap(p: int, v: int, n: nat, m: int): int
    requires m > 0
  {
    (p + n * v) % m
  }

  /** One more second on one coordinate of the closed form. */
  lemma CoordinateStep(p: int, v: int, n: nat, m: int)
    requires m > 0 && n >= 1
    ensures (Wrap(p, v, n - 1, m) + v) % m == Wrap(p, v, n, m)
  {
    var a, b := p + (n - 1) * v, p + n * v;
    MulPred(n, v);
    assert a + v == b;
    ModAdd(a, v, m);
  }

  lemma MulPred(n: int, v: int)
    ensures (n - 1) * v + v == n * v
  {
  }

  /** A whole period later, one coordinate of the closed form is where it was. */
  lemma CoordinatePeriod(p: int, v: int, n: nat, m: int, h: nat)
    requires m > 0
    ensures Wrap(p, v, n + m * h, m) == Wrap(p, v, n, m)
  {
    var a := p + n * v;
    assert p + (n + m * h) * v == a + (h * v) * m by {
      assert (n + m * h) * v == n * v + (h * v) * m;
    }
    ModAddMultiple(a, h * v, m);
  }

  /** A robot after n >= 1 seconds, in closed form. */
  function Closed(r: Robot, size: Vec2, n: nat): Robot
    requires ValidSize(size)
  {
    Robot(Vec2(Wrap(r.position.x, r.velocity.x, n, size.x), Wrap(r.position.y, r.velocity.y, n, size.y)), r.velocity)
  }

  /** After n >= 1 seconds each robot sits at its start plus n times its velocity, wrapped. */
  lemma {:induction false} AfterClosedForm(robots: seq<Robot>, size: Vec2, n: nat, k: nat)
    requires ValidSize(size) && n >= 1 && k < |robots|
    ensures After(robots, size, n)[k] == Closed(robots[k], size, n)
  {
    if n > 1 {
      AfterClosedForm(robots, size, n - 1, k);
    }
    ClosedFormStep(robots[k], After(robots, size, n - 1)[k], size, n);
  }

  /** Moving the robot from its place after n - 1 seconds gives the closed form for n. */
  lemma ClosedFormStep(r: Robot, prev: Robot, size: Vec2, n: nat)
    requires ValidSize(size) && n >= 1
    requires if n == 1 then prev == r else prev == Closed(r, size, n - 1)
    ensures Move(prev, size) == Closed(r, size, n)
  {
    CoordinateStep(r.position.x, r.velocity.x, n, size.x);
    CoordinateStep(r.position.y, r.velocity.y, n, size.y);
  }

  /** Velocities never change and, from the first second on, every robot is on the map. */
  lemma VelocitiesKeptPositionsInside(robots: seq<Robot>, size: Vec2, n: nat, k: nat)
    requires ValidSize(size) && n >= 1 && k < |robots|
    ensures After(robots, size, n)[k].velocity == robots[k].velocity
    ensures InBounds(After(robots, size, n)[k].position, size)
  {
    AfterClosedForm(robots, size, n, k);
  }

  /** The motion repeats every width * height seconds. */
  lemma Periodic(robots: seq<Robot>, size: Vec2, n: nat)
    requires ValidSize(size) && n >= 1
    ensures After(robots, size, n + size.x * size.y) == After(robots, size, n)
  {
    var later := After(robots, size, n + size.x * size.y);
    var now := After(robots, size, n);
    forall k | 0 <= k < |robots|
      ensures later[k] == now[k]
    {
      var p, v := robots[k].position, robots[k].velocity;
      AfterClosedForm(robots, size, n, k);
      AfterClosedForm(robots, size, n + size.x * size.y, k);
      assert now[k] == Closed(robots[k], size, n);
      CoordinatePeriod(p.x, v.x, n, size.x, size.y);
      assert size.x * size.y == size.y * size.x;
      CoordinatePeriod(p.y, v.y, n, size.y, size.x);
    }
  }

  /**
   * If no second among the first width * height passes `tree_test`, none
   * ever does: `FindTree` with that much fuel decides whether `process`
   * stops at all.
   */
  lemma {:induction false} NeverTree(robots: seq<Robot>, size: Vec2, n: nat)
    requires ValidSize(size) && n >= 1
    requires forall j :: 1 <= j <= size.x * size.y ==> !TreeTest(After(robots, size, j))
    ensures !TreeTest(After(robots, size, n))
    decreases n
  {
    if n > size.x * size.y {
      NeverTree(robots, size, n - size.x * size.y);
      Periodic(robots, size, n - size.x * size.y);
    }
  }
}
