/**
 * day-14 part 1: the robots of the 101 by 103 map after 100 seconds, each
 * counted in the quadrant it stands in (robots on the middle row or column
 * count nowhere); the safety factor is the product of the four counts.
 */
module RobotQuadrants {
  import opened Wrappers
  import opened RobotTree

  const WIDTH: int := 101
  const HEIGHT: int := 103

  /** `(p + v * 100)` wrapped with `rem_euclid` on each axis. */
  function FinalPosition(r: Robot): Vec2
  {
    Vec2((r.position.x + r.velocity.x * 100) % WIDTH, (r.position.y + r.velocity.y * 100) % HEIGHT)
  }

  /** The quadrant of a position: None on the middle column or row, else 0 to 3 as the source numbers them. */
  function Quadrant(p: Vec2): Option<nat>
  {
    if p.x == WIDTH / 2 || p.y == HEIGHT / 2 then None
    else if p.x < WIDTH / 2 then (if p.y < HEIGHT / 2 then Some(0) else Some(1))
    else if p.y < HEIGHT / 2 then Some(2)
    else Some(3)
  }

  /** The `flat_map`: the quadrant of every robot that has one, in robot order. */
  function Classified(robots: seq<Robot>): seq<nat>
  {
    if robots == [] then []
    else Classified(robots[..|robots| - 1]) + (match Quadrant(FinalPosition(robots[|robots| - 1])) case Some(q) => [q] case None => [])
  }

  /** `filter(|&&i| i == q).count()`. */
  function Count(data: seq<nat>, q: nat): nat
  {
    if data == [] then 0 else Count(data[..|data| - 1], q) + (if data[|data| - 1] == q then 1 else 0)
  }

  /** The product of the four quadrant counts. */
  function SafetyFactor(robots: seq<Robot>): nat
  {
    var data := Classified(robots);
    Count(data, 0) * Count(data, 1) * Count(data, 2) * Count(data, 3)
  }

  // ---------------------------------------------------------------------
  // Properties

  /** The closed form after 100 seconds is where 100 single wrapped steps leave the robot. */
  lemma HundredSteps(robots: seq<Robot>, k: nat)
    requires k < |robots|
    ensures FinalPosition(robots[k]) == After(robots, Vec2(WIDTH, HEIGHT), 100)[k].position
    ensures InBounds(FinalPosition(robots[k]), Vec2(WIDTH, HEIGHT))
  {
    AfterClosedForm(robots, Vec2(WIDTH, HEIGHT), 100, k);
    FinalIsClosed(robots[k]);
  }

  lemma FinalIsClosed(r: Robot)
    ensures FinalPosition(r) == Closed(r, Vec2(WIDTH, HEIGHT), 100).position
  {
    assert r.velocity.x * 100 == 100 * r.velocity.x && r.velocity.y * 100 == 100 * r.velocity.y;
  }

  /** Swapping left and right exchanges quadrants 0 and 2, 1 and 3: the middle column is the true middle. */
  lemma MirrorColumns(p: Vec2)
    requires InBounds(p, Vec2(WIDTH, HEIGHT))
    ensures Quadrant(Vec2(WIDTH - 1 - p.x, p.y)) ==
      match Quadrant(p) case None => None case Some(q) => Some(if q < 2 then q + 2 else q - 2)
  {
  }

  /** Swapping top and bottom exchanges quadrants 0 and 1, 2 and 3: the middle row is the true middle. */
  lemma MirrorRows(p: Vec2)
    requires InBounds(p, Vec2(WIDTH, HEIGHT))
    ensures Quadrant(Vec2(p.x, HEIGHT - 1 - p.y)) ==
      match Quadrant(p) case None => None case Some(q) => Some(if q % 2 == 0 then q + 1 else q - 1)
  {
  }

  /** Exactly the robots off the middle lines are counted, each in one of the four quadrants. */
  lemma {:induction false} CountsPartition(robots: seq<Robot>)
    ensures Count(Classified(robots), 0) + Count(Classified(robots), 1) + Count(Classified(robots), 2) + Count(Classified(robots), 3)
      == |Classified(robots)|
    ensures |Classified(robots)| == |robots| - Excluded(robots)
  {
    if robots != [] {
      var init := robots[..|robots| - 1];
      CountsPartition(init);
      var data := Classified(robots);
      var q := Quadrant(FinalPosition(robots[|robots| - 1]));
      if q.Some? {
        assert data[..|data| - 1] == Classified(init);
      } else {
        assert data == Classified(init);
      }
    }
  }

  /** The robots on the middle column or row after 100 seconds. */
  function Excluded(robots: seq<Robot>): nat
  {
    if robots == [] then 0
    else Excluded(robots[..|robots| - 1]) + (if Quadrant(FinalPosition(robots[|robots| - 1])).None? then 1 else 0)
  }

  /** The twelve robots of the example. */
  const EXAMPLE: seq<Robot> := [
    Robot(Vec2(0, 4), Vec2(3, -3)),
    Robot(Vec2(6, 3), Vec2(-1, -3)),
    Robot(Vec2(10, 3), Vec2(-1, 2)),
    Robot(Vec2(2, 0), Vec2(2, -1)),
    Robot(Vec2(0, 0), Vec2(1, 3)),
    Robot(Vec2(3, 0), Vec2(-2, -2)),
    Robot(Vec2(7, 6), Vec2(-1, -3)),
    Robot(Vec2(3, 0), Vec2(-1, -2)),
    Robot(Vec2(9, 3), Vec2(2, 3)),
    Robot(Vec2(7, 3), Vec2(-1, 2)),
    Robot(Vec2(2, 4), Vec2(2, -3)),
    Robot(Vec2(9, 5), Vec2(-3, -3))]

  /** The example leaves 7, 3, 1 and 1 robots in the four quadrants: factor 21. */
  lemma ExampleFactor()
    ensures SafetyFactor(EXAMPLE) == 21
  {
    ExampleClassified();
    ExampleCounts();
  }

  lemma ExampleClassified()
    ensures Classified(EXAMPLE) == [2, 0, 1, 0, 3, 0, 0, 0, 1, 1, 0, 0]
  {
    var r0, r1, r2 := [Robot(Vec2(0, 4), Vec2(3, -3)), Robot(Vec2(6, 3), Vec2(-1, -3)), Robot(Vec2(10, 3), Vec2(-1, 2)), Robot(Vec2(2, 0), Vec2(2, -1))],
      [Robot(Vec2(0, 0), Vec2(1, 3)), Robot(Vec2(3, 0), Vec2(-2, -2)), Robot(Vec2(7, 6), Vec2(-1, -3)), Robot(Vec2(3, 0), Vec2(-1, -2))],
      [Robot(Vec2(9, 3), Vec2(2, 3)), Robot(Vec2(7, 3), Vec2(-1, 2)), Robot(Vec2(2, 4), Vec2(2, -3)), Robot(Vec2(9, 5), Vec2(-3, -3))];
    ExampleRobots0(r0);
    ExampleRobots1(r1);
    ExampleRobots2(r2);
    ClassifiedConcat(r0, r1);
    ClassifiedConcat(r0 + r1, r2);
    assert EXAMPLE == r0 + r1 + r2;
  }

  /** What one robot adds to the classified list. */
  function Tag(r: Robot): seq<nat>
  {
    match Quadrant(FinalPosition(r)) case Some(q) => [q] case None => []
  }

  /** Four robots are classified one after the other. */
  lemma ClassifiedFour(a: Robot, b: Robot, c: Robot, d: Robot)
    ensures Classified([a, b, c, d]) == Tag(a) + Tag(b) + Tag(c) + Tag(d)
  {
    ClassifiedSnoc([], a);
    assert [] + [a] == [a];
    ClassifiedSnoc([a], b);
    assert [a] + [b] == [a, b];
    ClassifiedSnoc([a, b], c);
    assert [a, b] + [c] == [a, b, c];
    ClassifiedSnoc([a, b, c], d);
    assert [a, b, c] + [d] == [a, b, c, d];
  }

  lemma ExampleRobots0(robots: seq<Robot>)
    requires robots == [Robot(Vec2(0, 4), Vec2(3, -3)), Robot(Vec2(6, 3), Vec2(-1, -3)), Robot(Vec2(10, 3), Vec2(-1, 2)), Robot(Vec2(2, 0), Vec2(2, -1))]
    ensures Classified(robots) == [2, 0, 1, 0]
  {
    ClassifiedFour(robots[0], robots[1], robots[2], robots[3]);
    assert Tag(robots[0]) == [2] && Tag(robots[1]) == [0] && Tag(robots[2]) == [1] && Tag(robots[3]) == [0];
  }

  lemma ExampleRobots1(robots: seq<Robot>)
    requires robots == [Robot(Vec2(0, 0), Vec2(1, 3)), Robot(Vec2(3, 0), Vec2(-2, -2)), Robot(Vec2(7, 6), Vec2(-1, -3)), Robot(Vec2(3, 0), Vec2(-1, -2))]
    ensures Classified(robots) == [3, 0, 0, 0]
  {
    ClassifiedFour(robots[0], robots[1], robots[2], robots[3]);
    assert Tag(robots[0]) == [3] && Tag(robots[1]) == [0] && Tag(robots[2]) == [0] && Tag(robots[3]) == [0];
  }

  lemma ExampleRobots2(robots: seq<Robot>)
    requires robots == [Robot(Vec2(9, 3), Vec2(2, 3)), Robot(Vec2(7, 3), Vec2(-1, 2)), Robot(Vec2(2, 4), Vec2(2, -3)), Robot(Vec2(9, 5), Vec2(-3, -3))]
    ensures Classified(robots) == [1, 1, 0, 0]
  {
    ClassifiedFour(robots[0], robots[1], robots[2], robots[3]);
    assert Tag(robots[0]) == [1] && Tag(robots[1]) == [1] && Tag(robots[2]) == [0] && Tag(robots[3]) == [0];
  }

  lemma ExampleCounts()
    ensures var data: seq<nat> := [2, 0, 1, 0, 3, 0, 0, 0, 1, 1, 0, 0];
      Count(data, 0) == 7 && Count(data, 1) == 3 && Count(data, 2) == 1 && Count(data, 3) == 1
  {
    ExampleCounts0();
    ExampleCounts1();
    var d0: seq<nat>, d1: seq<nat> := [2, 0, 1, 0, 3, 0], [0, 0, 1, 1, 0, 0];
    forall q | 0 <= q < 4
      ensures Count(d0 + d1, q) == Count(d0, q) + Count(d1, q)
    {
      CountConcat(d0, d1, q);
    }
    assert d0 + d1 == [2, 0, 1, 0, 3, 0, 0, 0, 1, 1, 0, 0];
  }

  lemma ExampleCounts0()
    ensures var data: seq<nat> := [2, 0, 1, 0, 3, 0];
      Count(data, 0) == 3 && Count(data, 1) == 1 && Count(data, 2) == 1 && Count(data, 3) == 1
  {
    var data: seq<nat> := [];
    CountSnoc(data, 2); data := data + [2];
    CountSnoc(data, 0); data := data + [0];
    CountSnoc(data, 1); data := data + [1];
    CountSnoc(data, 0); data := data + [0];
    CountSnoc(data, 3); data := data + [3];
    CountSnoc(data, 0); data := data + [0];
    assert data == [2, 0, 1, 0, 3, 0];
  }

  lemma ExampleCounts1()
    ensures var data: seq<nat> := [0, 0, 1, 1, 0, 0];
      Count(data, 0) == 4 && Count(data, 1) == 2 && Count(data, 2) == 0 && Count(data, 3) == 0
  {
    var data: seq<nat> := [];
    CountSnoc(data, 0); data := data + [0];
    CountSnoc(data, 0); data := data + [0];
    CountSnoc(data, 1); data := data + [1];
    CountSnoc(data, 1); data := data + [1];
    CountSnoc(data, 0); data := data + [0];
    CountSnoc(data, 0); data := data + [0];
    assert data == [0, 0, 1, 1, 0, 0];
  }

  lemma ClassifiedSnoc(robots: seq<Robot>, r: Robot)
    ensures Classified(robots + [r]) == Classified(robots) + Tag(r)
  {
    assert (robots + [r])[..|robots|] == robots;
  }

  lemma {:induction false} CountConcat(a: seq<nat>, b: seq<nat>, q: nat)
    ensures Count(a + b, q) == Count(a, q) + Count(b, q)
  {
    if b == [] {
      assert a + b == a;
    } else {
      var init := b[..|b| - 1];
      CountConcat(a, init, q);
      assert (a + b)[..|a + b| - 1] == a + init && (a + b)[|a + b| - 1] == b[|b| - 1];
    }
  }

  lemma {:induction false} ClassifiedConcat(a: seq<Robot>, b: seq<Robot>)
    ensures Classified(a + b) == Classified(a) + Classified(b)
  {
    if b == [] {
      assert a + b == a;
    } else {
      var init := b[..|b| - 1];
      ClassifiedConcat(a, init);
      assert (a + b)[..|a + b| - 1] == a + init && (a + b)[|a + b| - 1] == b[|b| - 1];
    }
  }

  lemma CountSnoc(data: seq<nat>, x: nat)
    ensures forall q :: Count(data + [x], q) == Count(data, q) + if x == q then 1 else 0
  {
    assert (data + [x])[..|data|] == data;
  }
}
