/**
 * 2015/day-03 part 2: Santa and Robo-Santa start at the origin and take
 * turns following the directions, Santa the even-numbered ones and
 * Robo-Santa the odd-numbered ones.  The answer is the number of houses
 * either of them visits, the origin included.
 */
module TwoWalkers {
  datatype Vec2 = Vec2(x: int, y: int)

  const Origin := Vec2(0, 0)

  function Add(a: Vec2, b: Vec2): Vec2
  {
    Vec2(a.x + b.x, a.y + b.y)
  }

  function Abs(n: int): nat
  {
    if n < 0 then -n else n
  }

  /** The direction a character of the input stands for (the parser's table); north is -y. */
  function Move(c: char): (v: Vec2)
    requires c in "^v<>"
    ensures Abs(v.x) + Abs(v.y) == 1
  {
    match c
    case '^' => Vec2(0, -1)
    case 'v' => Vec2(0, 1)
    case '<' => Vec2(-1, 0)
    case '>' => Vec2(1, 0)
  }

  function Moves(s: string): seq<Vec2>
    requires forall i :: 0 <= i < |s| ==> s[i] in "^v<>"
  {
    seq(|s|, i requires 0 <= i < |s| => Move(s[i]))
  }

  /** Where a walker stands after the given moves. */
  function Position(moves: seq<Vec2>): Vec2
  {
    if moves == [] then Origin else Add(Position(moves[..|moves| - 1]), moves[|moves| - 1])
  }

  /** Every house a walker passes, the origin included. */
  function Trail(moves: seq<Vec2>): set<Vec2>
  {
    if moves == [] then {Origin} else Trail(moves[..|moves| - 1]) + {Position(moves)}
  }

  /** The directions at even (parity 0) or odd (parity 1) positions, in order. */
  function Share(s: seq<Vec2>, parity: nat): seq<Vec2>
    requires parity < 2
  {
    if s == [] then []
    else if parity == 0 then [s[0]] + Share(s[1..], 1)
    else Share(s[1..], 0)
  }

  /** The houses visited by either walker. */
  function Visited(directions: seq<Vec2>): set<Vec2>
  {
    Trail(Share(directions, 0)) + Trail(Share(directions, 1))
  }

  lemma {:induction false} ShareSnoc(s: seq<Vec2>, d: Vec2, parity: nat)
    requires parity < 2
    ensures Share(s + [d], parity) == Share(s, parity) + (if |s| % 2 == parity then [d] else [])
  {
    if s == [] {
      assert Share([d], 1) == Share([], 0) == [];
    } else {
      assert (s + [d])[1..] == s[1..] + [d];
      ShareSnoc(s[1..], d, 1 - parity);
    }
  }

  lemma TrailSnoc(moves: seq<Vec2>, d: Vec2)
    ensures Position(moves + [d]) == Add(Position(moves), d)
    ensures Trail(moves + [d]) == Trail(moves) + {Add(Position(moves), d)}
  {
    assert (moves + [d])[..|moves|] == moves;
  }

  /** The next direction moves the walker whose turn it is; the other one keeps its moves. */
  lemma StepFacts(s: seq<Vec2>, d: Vec2)
    ensures |s| % 2 == 0 ==> Position(Share(s + [d], 0)) == Add(Position(Share(s, 0)), d) && Share(s + [d], 1) == Share(s, 1)
    ensures |s| % 2 == 1 ==> Position(Share(s + [d], 1)) == Add(Position(Share(s, 1)), d) && Share(s + [d], 0) == Share(s, 0)
  {
    ShareSnoc(s, d, 0);
    ShareSnoc(s, d, 1);
    TrailSnoc(Share(s, 0), d);
    TrailSnoc(Share(s, 1), d);
  }

  /**
   * One more direction moves the walker whose turn it is and adds the house
   * it reaches; the other walker stays put.
   */
  lemma {:induction false} VisitedSnoc(s: seq<Vec2>, d: Vec2)
    ensures |s| % 2 == 0 ==> Visited(s + [d]) == Visited(s) + {Add(Position(Share(s, 0)), d)}
    ensures |s| % 2 == 1 ==> Visited(s + [d]) == Visited(s) + {Add(Position(Share(s, 1)), d)}
  {
    ShareSnoc(s, d, 0);
    ShareSnoc(s, d, 1);
    if |s| % 2 == 0 {
      TrailSnoc(Share(s, 0), d);
      assert Share(s + [d], 1) == Share(s, 1);
    } else {
      TrailSnoc(Share(s, 1), d);
      assert Share(s + [d], 0) == Share(s, 0);
    }
  }

  lemma {:induction false} TrailHasOrigin(moves: seq<Vec2>)
    ensures Origin in Trail(moves)
  {
    if moves != [] {
      TrailHasOrigin(moves[..|moves| - 1]);
    }
  }

  /** The origin is always counted, and each direction adds at most one new house. */
  lemma {:induction false} VisitedBounds(s: seq<Vec2>)
    ensures Origin in Visited(s)
    ensures 1 <= |Visited(s)| <= |s| + 1
  {
    TrailHasOrigin(Share(s, 0));
    if s != [] {
      var init := s[..|s| - 1];
      assert s == init + [s[|s| - 1]];
      VisitedBounds(init);
      VisitedSnoc(init, s[|s| - 1]);
    }
  }

  /** The loop state of `process` after the directions `walked`. */
  ghost predicate Walking(walked: seq<Vec2>, santa: Vec2, robo: Vec2, visited: set<Vec2>)
  {
    santa == Position(Share(walked, 0)) && robo == Position(Share(walked, 1)) && visited == Visited(walked)
  }

  /** One turn of the loop in `process`: the walker whose turn it is moves and its new house is added. */
  lemma WalkStep(s: seq<Vec2>, d: Vec2, santa: Vec2, robo: Vec2, visited: set<Vec2>)
    requires Walking(s, santa, robo, visited)
    ensures |s| % 2 == 0 ==> Walking(s + [d], Add(santa, d), robo, visited + {Add(santa, d)})
    ensures |s| % 2 == 1 ==> Walking(s + [d], santa, Add(robo, d), visited + {Add(robo, d)})
  {
    VisitedSnoc(s, d);
    StepFacts(s, d);
  }

  /** `process`: both positions and the visited set updated direction by direction. */
  method CountHouses(directions: seq<Vec2>) returns (count: nat)
    ensures count == |Visited(directions)|
    ensures 1 <= count <= |directions| + 1
  {
    var santa := Origin;
    var robo := Origin;
    var visited := {Origin};
    ghost var walked: seq<Vec2> := [];
    for i := 0 to |directions|
      invariant walked == directions[..i]
      invariant Walking(walked, santa, robo, visited)
    {
      var d := directions[i];
      WalkStep(walked, d, santa, robo, visited);
      if i % 2 == 0 {
        santa := Add(santa, d);
        visited := visited + {santa};
      } else {
        robo := Add(robo, d);
        visited := visited + {robo};
      }
      walked := walked + [d];
    }
    assert walked == directions;
    count := |visited|;
    Bounded(directions, count);
  }

  lemma Bounded(directions: seq<Vec2>, count: nat)
    requires count == |Visited(directions)|
    ensures 1 <= count <= |directions| + 1
  {
    VisitedBounds(directions);
  }

  // ---------------------------------------------------------------------
  // The unit tests

  lemma UpDownExample(m: seq<Vec2>)
    requires m == Moves("^v")
    ensures |Visited(m)| == 3
  {
    var n, s := Vec2(0, -1), Vec2(0, 1);
    assert m == [n, s];
    assert Interleave([n], [s]) == [n, s];
    ShareInterleave([n], [s]);
    OneMove(n);
    OneMove(s);
    assert Visited(m) == {Origin, n, s};
  }

  /** Directions handed out alternately: a's to Santa, b's to Robo-Santa. */
  function Interleave(a: seq<Vec2>, b: seq<Vec2>): seq<Vec2>
    requires |a| == |b|
  {
    if a == [] then [] else [a[0], b[0]] + Interleave(a[1..], b[1..])
  }

  lemma {:induction false} ShareInterleave(a: seq<Vec2>, b: seq<Vec2>)
    requires |a| == |b|
    ensures Share(Interleave(a, b), 0) == a && Share(Interleave(a, b), 1) == b
  {
    if a != [] {
      ShareInterleave(a[1..], b[1..]);
      var s := Interleave(a, b);
      assert s[1..][1..] == Interleave(a[1..], b[1..]);
    }
  }

  lemma OneMove(a: Vec2)
    ensures Position([a]) == a && Trail([a]) == {Origin, a}
  {
    TrailSnoc([], a);
    assert [] + [a] == [a];
  }

  /** Going one way and straight back visits one house besides the origin. */
  lemma ThereAndBack(a: Vec2)
    ensures Trail([a, Vec2(-a.x, -a.y)]) == {Origin, a}
  {
    var b := Vec2(-a.x, -a.y);
    OneMove(a);
    TrailSnoc([a], b);
    assert [a] + [b] == [a, b];
  }

  /** Santa goes one way and back while Robo-Santa does the same along another line. */
  lemma SquareWalk(a: Vec2, b: Vec2)
    ensures Visited(Interleave([a, Vec2(-a.x, -a.y)], [b, Vec2(-b.x, -b.y)])) == {Origin, a, b}
  {
    ShareInterleave([a, Vec2(-a.x, -a.y)], [b, Vec2(-b.x, -b.y)]);
    ThereAndBack(a);
    ThereAndBack(b);
  }

  lemma SquareExample(m: seq<Vec2>)
    requires m == Moves("^>v<")
    ensures |Visited(m)| == 3
  {
    var n, e, s, w := Vec2(0, -1), Vec2(1, 0), Vec2(0, 1), Vec2(-1, 0);
    assert m == [n, e, s, w];
    assert Interleave([n, s], [e, w]) == [n, e, s, w] by {
      assert Interleave([s], [w]) == [s, w];
    }
    SquareWalk(Vec2(0, -1), Vec2(1, 0));
  }

  function Scale(d: Vec2, k: int): Vec2
  {
    Vec2(k * d.x, k * d.y)
  }

  /** One more step in the same direction from the end of a straight walk. */
  lemma Straighter(d: Vec2, k: nat, t: set<Vec2>)
    requires Position(seq(k, _ => d)) == Scale(d, k) && Trail(seq(k, _ => d)) == t
    ensures Position(seq(k + 1, _ => d)) == Scale(d, k + 1) && Trail(seq(k + 1, _ => d)) == t + {Scale(d, k + 1)}
  {
    TrailSnoc(seq(k, _ => d), d);
    assert seq(k, _ => d) + [d] == seq(k + 1, _ => d);
  }

  /** Five steps in the same direction from the origin reach five new houses. */
  lemma Straight(d: Vec2)
    ensures Trail(seq(5, _ => d)) == {Origin, Scale(d, 1), Scale(d, 2), Scale(d, 3), Scale(d, 4), Scale(d, 5)}
  {
    assert seq(0, _ => d) == [];
    Straighter(d, 0, {Origin});
    Straighter(d, 1, {Origin, Scale(d, 1)});
    Straighter(d, 2, {Origin, Scale(d, 1), Scale(d, 2)});
    Straighter(d, 3, {Origin, Scale(d, 1), Scale(d, 2), Scale(d, 3)});
    Straighter(d, 4, {Origin, Scale(d, 1), Scale(d, 2), Scale(d, 3), Scale(d, 4)});
  }

  /** Santa walks five houses one way and Robo-Santa five another. */
  lemma TwoLines(a: Vec2, b: Vec2)
    ensures Visited(Interleave(seq(5, _ => a), seq(5, _ => b)))
      == {Origin, Scale(a, 1), Scale(a, 2), Scale(a, 3), Scale(a, 4), Scale(a, 5),
          Scale(b, 1), Scale(b, 2), Scale(b, 3), Scale(b, 4), Scale(b, 5)}
  {
    ShareInterleave(seq(5, _ => a), seq(5, _ => b));
    Straight(a);
    Straight(b);
  }

  lemma {:induction false} InterleaveSame(a: Vec2, b: Vec2, k: nat)
    ensures Interleave(seq(k, _ => a), seq(k, _ => b)) == seq(2 * k, i => if i % 2 == 0 then a else b)
  {
    if k > 0 {
      InterleaveSame(a, b, k - 1);
      assert seq(k, _ => a)[1..] == seq(k - 1, _ => a);
      assert seq(k, _ => b)[1..] == seq(k - 1, _ => b);
    }
  }

  lemma UpDownMoves(m: seq<Vec2>)
    requires m == Moves("^v^v^v^v^v")
    ensures m == Interleave(seq(5, _ => Vec2(0, -1)), seq(5, _ => Vec2(0, 1)))
  {
    var n, s := Vec2(0, -1), Vec2(0, 1);
    InterleaveSame(n, s, 5);
    var alternating := seq(10, i => if i % 2 == 0 then n else s);
    assert |m| == 10;
    forall i | 0 <= i < 10
      ensures m[i] == alternating[i]
    {
    }
  }

  lemma UpDownFiveExample(m: seq<Vec2>)
    requires m == Moves("^v^v^v^v^v")
    ensures |Visited(m)| == 11
  {
    UpDownMoves(m);
    TwoLines(Vec2(0, -1), Vec2(0, 1));
  }
}
