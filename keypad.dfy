/**
 * day-21 part 1: a code is typed on the door's numeric pad by a robot,
 * which is steered from a directional pad by another robot, and so on up
 * to the human.  Between two keys an arm moves along one of at most two
 * L-shaped shortest paths that never pass over the pad's empty corner; the
 * cost of a key sequence at a given depth is the number of presses the
 * human makes, taking at each level the cheaper of the candidate paths.
 */
module Keypads {
  import opened Decimal

  datatype Vec2 = Vec2(x: int, y: int)

  /** The door pad (`NUMPAD`) and the robots' pads (`KEYPAD`). */
  datatype Pad = Numeric | Directional

  /** `NUMPAD`: 7 8 9 / 4 5 6 / 1 2 3 / (gap) 0 A, row 0 at the top. */
  const NUMPAD: map<char, Vec2> := map[
    '7' := Vec2(0, 0), '8' := Vec2(1, 0), '9' := Vec2(2, 0),
    '4' := Vec2(0, 1), '5' := Vec2(1, 1), '6' := Vec2(2, 1),
    '1' := Vec2(0, 2), '2' := Vec2(1, 2), '3' := Vec2(2, 2),
    '0' := Vec2(1, 3), 'A' := Vec2(2, 3)]

  /** `KEYPAD`: (gap) ^ A / < v >. */
  const KEYPAD: map<char, Vec2> := map[
    '^' := Vec2(1, 0), 'A' := Vec2(2, 0),
    '<' := Vec2(0, 1), 'v' := Vec2(1, 1), '>' := Vec2(2, 1)]

  function Keys(pad: Pad): map<char, Vec2>
  {
    if pad == Numeric then NUMPAD else KEYPAD
  }

  function Rows(pad: Pad): nat
  {
    if pad == Numeric then 4 else 2
  }

  /** The empty corner: bottom left on the door pad, top left on the others. */
  function Gap(pad: Pad): Vec2
  {
    if pad == Numeric then Vec2(0, 3) else Vec2(0, 0)
  }

  /** The cells an arm may stand on: the three-column box without its gap. */
  predicate OnPad(pad: Pad, p: Vec2)
  {
    0 <= p.x < 3 && 0 <= p.y < Rows(pad) && p != Gap(pad)
  }

  function Abs(n: int): nat
  {
    if n < 0 then -n else n
  }

  function Distance(a: Vec2, b: Vec2): nat
  {
    Abs(b.x - a.x) + Abs(b.y - a.y)
  }

  predicate IsArrow(c: char)
  {
    c == '<' || c == '>' || c == '^' || c == 'v'
  }

  predicate Arrows(path: string)
  {
    forall i :: 0 <= i < |path| ==> IsArrow(path[i])
  }

  /** The move an arrow makes; any other key leaves the arm where it is. */
  function Step(c: char): Vec2
  {
    if c == '>' then Vec2(1, 0)
    else if c == '<' then Vec2(-1, 0)
    else if c == 'v' then Vec2(0, 1)
    else if c == '^' then Vec2(0, -1)
    else Vec2(0, 0)
  }

  function Add(a: Vec2, b: Vec2): Vec2
  {
    Vec2(a.x + b.x, a.y + b.y)
  }

  /** Where the arm ends after the arrows of path, starting at p. */
  function Follow(p: Vec2, path: string): Vec2
    decreases |path|
  {
    if path == [] then p else Follow(Add(p, Step(path[0])), path[1..])
  }

  /** The arm stands on the pad at p and at every cell path leads it over. */
  predicate StaysOn(pad: Pad, p: Vec2, path: string)
    decreases |path|
  {
    OnPad(pad, p) && (path == [] || StaysOn(pad, Add(p, Step(path[0])), path[1..]))
  }

  /** `repeat(c).take(n)`. */
  function Repeat(c: char, n: nat): string
  {
    seq(n, i => c)
  }

  /** `horz` and `vert`: the arrows pointing along a difference. */
  function Horz(dx: int): char
  {
    if dx > 0 then '>' else '<'
  }

  function Vert(dy: int): char
  {
    if dy > 0 then 'v' else '^'
  }

  /** The L-shaped path moving vertically first. */
  function VertFirst(s: Vec2, e: Vec2): string
  {
    Repeat(Vert(e.y - s.y), Abs(e.y - s.y)) + Repeat(Horz(e.x - s.x), Abs(e.x - s.x))
  }

  /** The L-shaped path moving horizontally first. */
  function HorzFirst(s: Vec2, e: Vec2): string
  {
    Repeat(Horz(e.x - s.x), Abs(e.x - s.x)) + Repeat(Vert(e.y - s.y), Abs(e.y - s.y))
  }

  /** `get_numeric_shortest_path`. */
  function NumericPaths(from: char, to: char): seq<string>
    requires from in NUMPAD && to in NUMPAD
  {
    var s := NUMPAD[from];
    var e := NUMPAD[to];
    if (from == 'A' || from == '0') && (to == '7' || to == '4' || to == '1') then [VertFirst(s, e)]
    else if (to == 'A' || to == '0') && (from == '7' || from == '4' || from == '1') then [HorzFirst(s, e)]
    else if e.x != s.x && e.y != s.y then [VertFirst(s, e), HorzFirst(s, e)]
    else [HorzFirst(s, e)]
  }

  /**
   * `get_keypad_shortest_path` as written: its second guard asks for `to`
   * to be both '^' or 'A' and '<', so it never holds.
   */
  function KeypadPathsAsWritten(from: char, to: char): seq<string>
    requires from in KEYPAD && to in KEYPAD
  {
    var s := KEYPAD[from];
    var e := KEYPAD[to];
    if (from == '^' || from == 'A') && to == '<' then [VertFirst(s, e)]
    else if (to == '^' || to == 'A') && to == '<' then [HorzFirst(s, e)]
    else if e.x != s.x && e.y != s.y then [VertFirst(s, e), HorzFirst(s, e)]
    else [HorzFirst(s, e)]
  }

  /** `get_keypad_shortest_path` with the second guard as the first one mirrored: from '<' to '^' or 'A'. */
  function KeypadPaths(from: char, to: char): seq<string>
    requires from in KEYPAD && to in KEYPAD
  {
    var s := KEYPAD[from];
    var e := KEYPAD[to];
    if (from == '^' || from == 'A') && to == '<' then [VertFirst(s, e)]
    else if from == '<' && (to == '^' || to == 'A') then [HorzFirst(s, e)]
    else if e.x != s.x && e.y != s.y then [VertFirst(s, e), HorzFirst(s, e)]
    else [HorzFirst(s, e)]
  }

  function Paths(pad: Pad, from: char, to: char): seq<string>
    requires from in Keys(pad) && to in Keys(pad)
  {
    if pad == Numeric then NumericPaths(from, to) else KeypadPaths(from, to)
  }

  // ---------------------------------------------------------------------
  // Walking the pads

  /** The cell k presses of c away from p. */
  function Along(p: Vec2, c: char, k: int): Vec2
  {
    if c == '>' then Vec2(p.x + k, p.y)
    else if c == '<' then Vec2(p.x - k, p.y)
    else if c == 'v' then Vec2(p.x, p.y + k)
    else if c == '^' then Vec2(p.x, p.y - k)
    else p
  }

  lemma {:induction false} FollowConcat(p: Vec2, a: string, b: string)
    ensures Follow(p, a + b) == Follow(Follow(p, a), b)
    decreases |a|
  {
    if a != [] {
      assert (a + b)[0] == a[0] && (a + b)[1..] == a[1..] + b;
      FollowConcat(Add(p, Step(a[0])), a[1..], b);
    } else {
      assert a + b == b;
    }
  }

  lemma {:induction false} FollowRepeat(p: Vec2, c: char, n: nat)
    ensures Follow(p, Repeat(c, n)) == Along(p, c, n)
    decreases n
  {
    if n > 0 {
      assert Repeat(c, n)[1..] == Repeat(c, n - 1);
      FollowRepeat(Add(p, Step(c)), c, n - 1);
    }
  }

  lemma {:induction false} StaysConcat(pad: Pad, p: Vec2, a: string, b: string)
    ensures StaysOn(pad, p, a + b) <==> StaysOn(pad, p, a) && StaysOn(pad, Follow(p, a), b)
    decreases |a|
  {
    if a == [] {
      assert a + b == b;
      if StaysOn(pad, p, b) {
        assert OnPad(pad, p);
      }
    } else {
      assert (a + b)[0] == a[0] && (a + b)[1..] == a[1..] + b;
      StaysConcat(pad, Add(p, Step(a[0])), a[1..], b);
    }
  }

  lemma {:induction false} StaysRepeat(pad: Pad, p: Vec2, c: char, n: nat)
    ensures StaysOn(pad, p, Repeat(c, n)) <==> forall k :: 0 <= k <= n ==> OnPad(pad, Along(p, c, k))
    decreases n
  {
    assert Along(p, c, 0) == p;
    if n > 0 {
      var q := Add(p, Step(c));
      assert Repeat(c, n)[0] == c && Repeat(c, n)[1..] == Repeat(c, n - 1);
      StaysRepeat(pad, q, c, n - 1);
      assert forall k :: 1 <= k <= n ==> Along(p, c, k) == Along(q, c, k - 1);
      if forall k :: 0 <= k <= n ==> OnPad(pad, Along(p, c, k)) {
        assert forall k :: 0 <= k <= n - 1 ==> OnPad(pad, Along(q, c, k)) by {
          forall k | 0 <= k <= n - 1
            ensures OnPad(pad, Along(q, c, k))
          {
            assert Along(q, c, k) == Along(p, c, k + 1);
          }
        }
      }
    }
  }

  /** A difference is undone by its arrow repeated its absolute value of times. */
  lemma AlongVert(s: Vec2, e: Vec2, k: int)
    ensures Along(s, Vert(e.y - s.y), k) == Vec2(s.x, if e.y > s.y then s.y + k else s.y - k)
  {
  }

  lemma AlongHorz(s: Vec2, e: Vec2, k: int)
    ensures Along(s, Horz(e.x - s.x), k) == Vec2(if e.x > s.x then s.x + k else s.x - k, s.y)
  {
  }

  /** Both L-shaped paths lead from s to e and are as long as the distance. */
  lemma LShapes(s: Vec2, e: Vec2)
    ensures Follow(s, VertFirst(s, e)) == e && Follow(s, HorzFirst(s, e)) == e
    ensures |VertFirst(s, e)| == Distance(s, e) && |HorzFirst(s, e)| == Distance(s, e)
    ensures Arrows(VertFirst(s, e)) && Arrows(HorzFirst(s, e))
  {
    var v := Repeat(Vert(e.y - s.y), Abs(e.y - s.y));
    var h := Repeat(Horz(e.x - s.x), Abs(e.x - s.x));
    FollowConcat(s, v, h);
    FollowRepeat(s, Vert(e.y - s.y), Abs(e.y - s.y));
    AlongVert(s, e, Abs(e.y - s.y));
    var m := Vec2(s.x, e.y);
    FollowRepeat(m, Horz(e.x - s.x), Abs(e.x - s.x));
    AlongHorz(m, e, Abs(e.x - s.x));
    FollowConcat(s, h, v);
    FollowRepeat(s, Horz(e.x - s.x), Abs(e.x - s.x));
    AlongHorz(s, e, Abs(e.x - s.x));
    var n := Vec2(e.x, s.y);
    FollowRepeat(n, Vert(e.y - s.y), Abs(e.y - s.y));
    AlongVert(n, e, Abs(e.y - s.y));
  }

  /** A straight run from an on-pad cell stays on the pad unless it reaches the gap. */
  lemma ColumnRun(pad: Pad, s: Vec2, e: Vec2)
    requires OnPad(pad, s) && 0 <= e.y < Rows(pad) && !(s.x == 0 && e.y == Gap(pad).y)
    ensures StaysOn(pad, s, Repeat(Vert(e.y - s.y), Abs(e.y - s.y)))
  {
    var c := Vert(e.y - s.y);
    forall k | 0 <= k <= Abs(e.y - s.y)
      ensures OnPad(pad, Along(s, c, k))
    {
      AlongVert(s, e, k);
    }
    StaysRepeat(pad, s, c, Abs(e.y - s.y));
  }

  lemma RowRun(pad: Pad, s: Vec2, e: Vec2)
    requires OnPad(pad, s) && 0 <= e.x < 3 && !(s.y == Gap(pad).y && e.x == 0)
    ensures StaysOn(pad, s, Repeat(Horz(e.x - s.x), Abs(e.x - s.x)))
  {
    var c := Horz(e.x - s.x);
    forall k | 0 <= k <= Abs(e.x - s.x)
      ensures OnPad(pad, Along(s, c, k))
    {
      AlongHorz(s, e, k);
    }
    StaysRepeat(pad, s, c, Abs(e.x - s.x));
  }

  /** Moving vertically first avoids the gap exactly unless it starts in the gap's column and ends in its row. */
  lemma VertFirstSafe(pad: Pad, s: Vec2, e: Vec2)
    requires OnPad(pad, s) && OnPad(pad, e)
    ensures StaysOn(pad, s, VertFirst(s, e)) <==> !(s.x == 0 && e.y == Gap(pad).y)
  {
    if s.x == 0 && e.y == Gap(pad).y {
      VertFirstBlocked(pad, s, e);
    } else {
      VertFirstClear(pad, s, e);
    }
  }

  lemma VertFirstBlocked(pad: Pad, s: Vec2, e: Vec2)
    requires OnPad(pad, s) && OnPad(pad, e) && s.x == 0 && e.y == Gap(pad).y
    ensures !StaysOn(pad, s, VertFirst(s, e))
  {
    var c := Vert(e.y - s.y);
    var v := Repeat(c, Abs(e.y - s.y));
    var h := Repeat(Horz(e.x - s.x), Abs(e.x - s.x));
    assert VertFirst(s, e) == v + h;
    StaysConcat(pad, s, v, h);
    StaysRepeat(pad, s, c, Abs(e.y - s.y));
    AlongVert(s, e, Abs(e.y - s.y));
    assert !OnPad(pad, Along(s, c, Abs(e.y - s.y)));
  }

  lemma VertFirstClear(pad: Pad, s: Vec2, e: Vec2)
    requires OnPad(pad, s) && OnPad(pad, e) && !(s.x == 0 && e.y == Gap(pad).y)
    ensures StaysOn(pad, s, VertFirst(s, e))
  {
    var c := Vert(e.y - s.y);
    var v := Repeat(c, Abs(e.y - s.y));
    var h := Repeat(Horz(e.x - s.x), Abs(e.x - s.x));
    var m := Vec2(s.x, e.y);
    assert VertFirst(s, e) == v + h;
    StaysConcat(pad, s, v, h);
    FollowRepeat(s, c, Abs(e.y - s.y));
    AlongVert(s, e, Abs(e.y - s.y));
    assert Follow(s, v) == m;
    ColumnRun(pad, s, e);
    RowRun(pad, m, e);
  }

  /** Moving horizontally first avoids the gap exactly unless it starts in the gap's row and ends in its column. */
  lemma HorzFirstSafe(pad: Pad, s: Vec2, e: Vec2)
    requires OnPad(pad, s) && OnPad(pad, e)
    ensures StaysOn(pad, s, HorzFirst(s, e)) <==> !(s.y == Gap(pad).y && e.x == 0)
  {
    if s.y == Gap(pad).y && e.x == 0 {
      HorzFirstBlocked(pad, s, e);
    } else {
      HorzFirstClear(pad, s, e);
    }
  }

  lemma HorzFirstBlocked(pad: Pad, s: Vec2, e: Vec2)
    requires OnPad(pad, s) && OnPad(pad, e) && s.y == Gap(pad).y && e.x == 0
    ensures !StaysOn(pad, s, HorzFirst(s, e))
  {
    var c := Horz(e.x - s.x);
    var h := Repeat(c, Abs(e.x - s.x));
    var v := Repeat(Vert(e.y - s.y), Abs(e.y - s.y));
    assert HorzFirst(s, e) == h + v;
    StaysConcat(pad, s, h, v);
    StaysRepeat(pad, s, c, Abs(e.x - s.x));
    AlongHorz(s, e, Abs(e.x - s.x));
    assert !OnPad(pad, Along(s, c, Abs(e.x - s.x)));
  }

  lemma HorzFirstClear(pad: Pad, s: Vec2, e: Vec2)
    requires OnPad(pad, s) && OnPad(pad, e) && !(s.y == Gap(pad).y && e.x == 0)
    ensures StaysOn(pad, s, HorzFirst(s, e))
  {
    var c := Horz(e.x - s.x);
    var h := Repeat(c, Abs(e.x - s.x));
    var v := Repeat(Vert(e.y - s.y), Abs(e.y - s.y));
    var m := Vec2(e.x, s.y);
    assert HorzFirst(s, e) == h + v;
    StaysConcat(pad, s, h, v);
    FollowRepeat(s, c, Abs(e.x - s.x));
    AlongHorz(s, e, Abs(e.x - s.x));
    assert Follow(s, h) == m;
    RowRun(pad, s, e);
    ColumnRun(pad, m, e);
  }

  /** With no turn to make, both L-shaped paths are the same straight run. */
  lemma Straight(s: Vec2, e: Vec2)
    requires e.x == s.x || e.y == s.y
    ensures VertFirst(s, e) == HorzFirst(s, e)
  {
    assert Repeat(Horz(e.x - s.x), Abs(e.x - s.x)) == [] || Repeat(Vert(e.y - s.y), Abs(e.y - s.y)) == [];
  }

  /** Every key sits on its pad, and the guards' key tests are the gap's row and column. */
  lemma NumericKeys(c: char)
    requires c in NUMPAD
    ensures OnPad(Numeric, NUMPAD[c])
    ensures (c == 'A' || c == '0') <==> NUMPAD[c].y == 3
    ensures (c == '7' || c == '4' || c == '1') <==> NUMPAD[c].x == 0
  {
  }

  lemma DirectionalKeys(c: char)
    requires c in KEYPAD
    ensures OnPad(Directional, KEYPAD[c])
    ensures (c == '^' || c == 'A') <==> KEYPAD[c].y == 0
    ensures c == '<' <==> KEYPAD[c].x == 0
  {
  }

  lemma KeysOnPad(pad: Pad, c: char)
    requires c in Keys(pad)
    ensures OnPad(pad, Keys(pad)[c])
  {
    if pad == Numeric {
      NumericKeys(c);
    } else {
      DirectionalKeys(c);
    }
  }

  /** The candidate paths by position: the guards test the gap's row and column. */
  function Candidates(pad: Pad, s: Vec2, e: Vec2): seq<string>
  {
    if s.y == Gap(pad).y && e.x == 0 then [VertFirst(s, e)]
    else if s.x == 0 && e.y == Gap(pad).y then [HorzFirst(s, e)]
    else if e.x != s.x && e.y != s.y then [VertFirst(s, e), HorzFirst(s, e)]
    else [HorzFirst(s, e)]
  }

  /** The guards on key names are the tests on the gap's row and column of `Candidates`. */
  lemma PathsByPosition(pad: Pad, from: char, to: char)
    requires from in Keys(pad) && to in Keys(pad)
    ensures Paths(pad, from, to) == Candidates(pad, Keys(pad)[from], Keys(pad)[to])
  {
    if pad == Numeric {
      NumericKeys(from);
      NumericKeys(to);
    } else {
      DirectionalKeys(from);
      DirectionalKeys(to);
    }
  }

  lemma CandidatesExact(pad: Pad, s: Vec2, e: Vec2, p: string)
    requires OnPad(pad, s) && OnPad(pad, e)
    ensures p in Candidates(pad, s, e) <==> (p == VertFirst(s, e) || p == HorzFirst(s, e)) && StaysOn(pad, s, p)
  {
    VertFirstSafe(pad, s, e);
    HorzFirstSafe(pad, s, e);
    if e.x == s.x || e.y == s.y {
      Straight(s, e);
    }
  }

  /**
   * The candidate paths between two keys are exactly the L-shaped ones
   * whose arm never passes over the gap.
   */
  lemma PathsExact(pad: Pad, from: char, to: char, p: string)
    requires from in Keys(pad) && to in Keys(pad)
    ensures p in Paths(pad, from, to) <==>
      (p == VertFirst(Keys(pad)[from], Keys(pad)[to]) || p == HorzFirst(Keys(pad)[from], Keys(pad)[to])) &&
      StaysOn(pad, Keys(pad)[from], p)
  {
    KeysOnPad(pad, from);
    KeysOnPad(pad, to);
    PathsByPosition(pad, from, to);
    CandidatesExact(pad, Keys(pad)[from], Keys(pad)[to], p);
  }

  lemma CandidatesProps(pad: Pad, s: Vec2, e: Vec2)
    requires OnPad(pad, s) && OnPad(pad, e)
    ensures |Candidates(pad, s, e)| >= 1
    ensures forall p :: p in Candidates(pad, s, e) ==>
      Follow(s, p) == e && |p| == Distance(s, e) && Arrows(p) && StaysOn(pad, s, p)
  {
    LShapes(s, e);
    forall p | p in Candidates(pad, s, e)
      ensures StaysOn(pad, s, p)
    {
      CandidatesExact(pad, s, e, p);
    }
  }

  /** Every candidate path is a shortest arrow sequence from key to key that stays on the pad, and there is one. */
  lemma PathsProps(pad: Pad, from: char, to: char)
    requires from in Keys(pad) && to in Keys(pad)
    ensures |Paths(pad, from, to)| >= 1
    ensures forall p :: p in Paths(pad, from, to) ==>
      Follow(Keys(pad)[from], p) == Keys(pad)[to] && |p| == Distance(Keys(pad)[from], Keys(pad)[to]) &&
      Arrows(p) && StaysOn(pad, Keys(pad)[from], p)
  {
    KeysOnPad(pad, from);
    KeysOnPad(pad, to);
    PathsByPosition(pad, from, to);
    CandidatesProps(pad, Keys(pad)[from], Keys(pad)[to]);
  }

  /** No arrow sequence reaches a cell in fewer presses than its distance. */
  lemma {:induction false} FollowLowerBound(p: Vec2, path: string)
    ensures |path| >= Distance(p, Follow(p, path))
    decreases |path|
  {
    if path != [] {
      FollowLowerBound(Add(p, Step(path[0])), path[1..]);
    }
  }

  /** The keypad guard as written lets the arm pass over the gap, from '<' up first to 'A'. */
  lemma GapPathAsWritten()
    ensures "^>>" in KeypadPathsAsWritten('<', 'A')
    ensures !StaysOn(Directional, KEYPAD['<'], "^>>")
  {
    UpRightOffered();
    UpRightLeaves();
  }

  lemma UpRightOffered()
    ensures "^>>" in KeypadPathsAsWritten('<', 'A')
  {
    assert KEYPAD['<'] == Vec2(0, 1) && KEYPAD['A'] == Vec2(2, 0);
    assert KeypadPathsAsWritten('<', 'A')[0] == VertFirst(Vec2(0, 1), Vec2(2, 0));
    assert VertFirst(Vec2(0, 1), Vec2(2, 0)) == Repeat('^', 1) + Repeat('>', 2);
    assert Repeat('^', 1) == "^" && Repeat('>', 2) == ">>";
    assert "^" + ">>" == "^>>";
  }

  lemma UpRightLeaves()
    ensures !StaysOn(Directional, Vec2(0, 1), "^>>")
  {
    assert !OnPad(Directional, Add(Vec2(0, 1), Step('^')));
  }

  /** Away from the pairs the dead guard was meant for, the keypad paths are as written. */
  lemma AsWrittenAgrees(from: char, to: char)
    requires from in KEYPAD && to in KEYPAD && !(from == '<' && (to == '^' || to == 'A'))
    ensures KeypadPathsAsWritten(from, to) == KeypadPaths(from, to)
  {
  }

  /**
   * With one robot a transition costs the first candidate's length plus the
   * press, and the table as written puts a path of the same length first.
   */
  lemma FirstLengthAgrees(from: char, to: char)
    requires from in KEYPAD && to in KEYPAD
    ensures (if from == to then 1 else |KeypadPathsAsWritten(from, to)[0]| + 1) == KeyCost(from, to, 1)
  {
    LShapes(KEYPAD[from], KEYPAD[to]);
    KeyCostOne(from, to);
  }

  /**
   * With two robots a transition costs the cheapest candidate one robot
   * down; the extra candidate the dead guard lets through costs the same
   * as the one kept, so the table as written gives the same minimum.
   */
  lemma CheapestAgrees(from: char, to: char)
    requires from in KEYPAD && to in KEYPAD && from != to
    ensures forall i :: 0 <= i < |KeypadPathsAsWritten(from, to)| ==> Arrows(KeypadPathsAsWritten(from, to)[i])
    ensures Cheapest(KeypadPathsAsWritten(from, to), 1) == KeyCost(from, to, 2)
  {
    LShapes(KEYPAD[from], KEYPAD[to]);
    if from == '<' && to == '^' {
      LeftToUpCheapest();
    } else if from == '<' && to == 'A' {
      LeftToACheapest();
    } else {
      AsWrittenAgrees(from, to);
    }
  }

  /** From '<' to '^' both turns cost 7 presses one robot down. */
  lemma LeftToUpCheapest()
    ensures forall i :: 0 <= i < |KeypadPathsAsWritten('<', '^')| ==> Arrows(KeypadPathsAsWritten('<', '^')[i])
    ensures Cheapest(KeypadPathsAsWritten('<', '^'), 1) == KeyCost('<', '^', 2) == 7
  {
    LeftToUpPaths();
    CodeLenUpRight();
    CodeLenRightUp();
    assert ["^>", ">^"][1..] == [">^"];
  }

  /** From '<' to 'A' both turns cost 8 presses one robot down. */
  lemma LeftToACheapest()
    ensures forall i :: 0 <= i < |KeypadPathsAsWritten('<', 'A')| ==> Arrows(KeypadPathsAsWritten('<', 'A')[i])
    ensures Cheapest(KeypadPathsAsWritten('<', 'A'), 1) == KeyCost('<', 'A', 2) == 8
  {
    LeftToAPaths();
    CodeLenUpFirst();
    CodeLenRightFirst();
    assert ["^>>", ">>^"][1..] == [">>^"];
  }

  /** From '<' to '^' the guard as written offers both turns, the corrected one only right first. */
  lemma LeftToUpPaths()
    ensures KeypadPathsAsWritten('<', '^') == ["^>", ">^"] && KeypadPaths('<', '^') == [">^"]
  {
    var s, e := KEYPAD['<'], KEYPAD['^'];
    assert s == Vec2(0, 1) && e == Vec2(1, 0);
    assert KeypadPathsAsWritten('<', '^') == [VertFirst(s, e), HorzFirst(s, e)];
    assert KeypadPaths('<', '^') == [HorzFirst(s, e)];
    assert VertFirst(s, e) == "^>" && HorzFirst(s, e) == ">^" by {
      assert Repeat('>', 1) == ">" && Repeat('^', 1) == "^";
    }
  }

  /** From '<' to 'A' the guard as written offers both turns, the corrected one only right first. */
  lemma LeftToAPaths()
    ensures KeypadPathsAsWritten('<', 'A') == ["^>>", ">>^"] && KeypadPaths('<', 'A') == [">>^"]
  {
    var s, e := KEYPAD['<'], KEYPAD['A'];
    assert s == Vec2(0, 1) && e == Vec2(2, 0);
    assert KeypadPathsAsWritten('<', 'A') == [VertFirst(s, e), HorzFirst(s, e)];
    assert KeypadPaths('<', 'A') == [HorzFirst(s, e)];
    assert VertFirst(s, e) == "^>>" && HorzFirst(s, e) == ">>^" by {
      assert Repeat('>', 2) == ">>" && Repeat('^', 1) == "^";
    }
  }

  /** Typing "^>" with one robot: three presses and four cells of travel. */
  lemma CodeLenUpRight()
    ensures KeypadCodeLen("^>", 1) == 7
  {
    assert ['A'] + "^>" + ['A'] == "A^>A";
    PressesUpRight();
  }

  lemma PressesUpRight()
    ensures KeypadPresses("A^>A", 1) == 7
  {
    PressesOne("A^>A");
    TravelUpRight();
  }

  /** Typing ">^" with one robot: three presses and four cells of travel. */
  lemma CodeLenRightUp()
    ensures KeypadCodeLen(">^", 1) == 7
  {
    assert ['A'] + ">^" + ['A'] == "A>^A";
    PressesRightUp();
  }

  lemma PressesRightUp()
    ensures KeypadPresses("A>^A", 1) == 7
  {
    PressesOne("A>^A");
    TravelRightUp();
  }

  /** Typing "^>>" with one robot: four presses and four cells of travel. */
  lemma CodeLenUpFirst()
    ensures KeypadCodeLen("^>>", 1) == 8
  {
    assert ['A'] + "^>>" + ['A'] == "A^>>A";
    PressesUpFirst();
  }

  lemma PressesUpFirst()
    ensures KeypadPresses("A^>>A", 1) == 8
  {
    PressesOne("A^>>A");
    TravelUpFirst();
  }

  /** Typing ">>^" with one robot: four presses and four cells of travel. */
  lemma CodeLenRightFirst()
    ensures KeypadCodeLen(">>^", 1) == 8
  {
    assert ['A'] + ">>^" + ['A'] == "A>>^A";
    PressesRightFirst();
  }

  lemma PressesRightFirst()
    ensures KeypadPresses("A>>^A", 1) == 8
  {
    PressesOne("A>>^A");
    TravelRightFirst();
  }

  /** The arm's travel over the keys of "^>" typed from 'A'. */
  lemma TravelUpRight()
    ensures Travel(Directional, "A^>A") == 4
  {
    assert KEYPAD['A'] == Vec2(2, 0) && KEYPAD['^'] == Vec2(1, 0) && KEYPAD['>'] == Vec2(2, 1);
  }

  /** The arm's travel over the keys of ">^" typed from 'A'. */
  lemma TravelRightUp()
    ensures Travel(Directional, "A>^A") == 4
  {
    assert KEYPAD['A'] == Vec2(2, 0) && KEYPAD['^'] == Vec2(1, 0) && KEYPAD['>'] == Vec2(2, 1);
  }

  /** The arm's travel over the keys of "^>>" typed from 'A'. */
  lemma TravelUpFirst()
    ensures Travel(Directional, "A^>>A") == 4
  {
    assert KEYPAD['A'] == Vec2(2, 0) && KEYPAD['^'] == Vec2(1, 0) && KEYPAD['>'] == Vec2(2, 1);
  }

  /** The arm's travel over the keys of ">>^" typed from 'A'. */
  lemma TravelRightFirst()
    ensures Travel(Directional, "A>>^A") == 4
  {
    assert KEYPAD['A'] == Vec2(2, 0) && KEYPAD['^'] == Vec2(1, 0) && KEYPAD['>'] == Vec2(2, 1);
  }

  // ---------------------------------------------------------------------
  // The shortest-path tables

  /** The ordered pairs of two different keys of a pad. */
  function Pairs(ks: set<char>): set<(char, char)>
  {
    set a, b | a in ks && b in ks && a != b :: (a, b)
  }

  /** `NUMERIC_SHORTEST_PATH` and `KEYPAD_SHORTEST_PATH`. */
  function Table(pad: Pad): map<(char, char), seq<string>>
  {
    map p | p in Pairs(Keys(pad).Keys) :: Paths(pad, p.0, p.1)
  }

  /** The pairs of keys at positions a < b with a < i, or a == i and b < j, both ways round. */
  ghost function Covered(keys: seq<char>, i: nat, j: nat): set<(char, char)>
  {
    set a, b | 0 <= a < |keys| && 0 <= b < |keys| && a != b &&
      (Min(a, b) < i || (Min(a, b) == i && Max(a, b) < j)) :: (keys[a], keys[b])
  }

  function Min(a: int, b: int): int
  {
    if a < b then a else b
  }

  function Max(a: int, b: int): int
  {
    if a < b then b else a
  }

  predicate Distinct(keys: seq<char>)
  {
    forall a, b :: 0 <= a < b < |keys| ==> keys[a] != keys[b]
  }

  ghost predicate Filled(pad: Pad, keys: seq<char>, i: nat, j: nat, table: map<(char, char), seq<string>>)
  {
    (forall k :: 0 <= k < |keys| ==> keys[k] in Keys(pad)) &&
    table.Keys == Covered(keys, i, j) &&
    forall p :: p in table ==> p.0 in Keys(pad) && p.1 in Keys(pad) && table[p] == Paths(pad, p.0, p.1)
  }

  /**
   * The `Lazy` table: over every pair (from, to) of `tuple_combinations`
   * of the keys, insert the paths from `from` to `to` and from `to` to `from`.
   */
  method BuildTable(pad: Pad, keys: seq<char>) returns (table: map<(char, char), seq<string>>)
    requires Distinct(keys) && (forall k :: 0 <= k < |keys| ==> keys[k] in Keys(pad))
    requires forall c :: c in Keys(pad) ==> c in keys
    ensures table == Table(pad)
  {
    table := map[];
    CoveredNone(keys);
    for i := 0 to |keys|
      invariant Filled(pad, keys, i, i + 1, table)
    {
      table := InsertPairs(pad, keys, i, table);
    }
    CoveredAll(Keys(pad).Keys, keys);
    TableIs(pad, table);
  }

  /** The pairs `tuple_combinations` yields with key i first: (i, j) for every j after i. */
  method InsertPairs(pad: Pad, keys: seq<char>, i: nat, table0: map<(char, char), seq<string>>)
    returns (table: map<(char, char), seq<string>>)
    requires i < |keys| && Filled(pad, keys, i, i + 1, table0)
    ensures Filled(pad, keys, i + 1, i + 2, table)
  {
    table := table0;
    for j := i + 1 to |keys|
      invariant Filled(pad, keys, i, j, table)
    {
      FilledStep(pad, keys, i, j, table);
      table := table[(keys[i], keys[j]) := Paths(pad, keys[i], keys[j])];
      table := table[(keys[j], keys[i]) := Paths(pad, keys[j], keys[i])];
    }
    CoveredRow(keys, i);
  }

  /** Inserting the pair at i, j both ways round covers it. */
  lemma FilledStep(pad: Pad, keys: seq<char>, i: nat, j: nat, table: map<(char, char), seq<string>>)
    requires i < j < |keys| && Filled(pad, keys, i, j, table)
    ensures Filled(pad, keys, i, j + 1,
      table[(keys[i], keys[j]) := Paths(pad, keys[i], keys[j])][(keys[j], keys[i]) := Paths(pad, keys[j], keys[i])])
  {
    var a := (keys[i], keys[j]);
    var b := (keys[j], keys[i]);
    var t := table[a := Paths(pad, a.0, a.1)][b := Paths(pad, b.0, b.1)];
    CoveredStep(keys, i, j);
    assert t.Keys == table.Keys + {a, b};
    assert forall p :: p in t ==> p.0 in Keys(pad) && p.1 in Keys(pad) && t[p] == Paths(pad, p.0, p.1) by {
      forall p | p in t
        ensures p.0 in Keys(pad) && p.1 in Keys(pad) && t[p] == Paths(pad, p.0, p.1)
      {
        if p != a && p != b {
          assert p in table;
        }
      }
    }
  }

  lemma CoveredNone(keys: seq<char>)
    ensures Covered(keys, 0, 1) == {}
  {
  }

  lemma CoveredStep(keys: seq<char>, i: nat, j: nat)
    requires i < j < |keys|
    ensures Covered(keys, i, j + 1) == Covered(keys, i, j) + {(keys[i], keys[j]), (keys[j], keys[i])}
  {
    assert (keys[i], keys[j]) in Covered(keys, i, j + 1) by {
      assert Min(i, j) == i && Max(i, j) == j;
    }
    assert (keys[j], keys[i]) in Covered(keys, i, j + 1) by {
      assert Min(j, i) == i && Max(j, i) == j;
    }
  }

  lemma CoveredRow(keys: seq<char>, i: nat)
    requires i < |keys|
    ensures Covered(keys, i, |keys|) == Covered(keys, i + 1, i + 2)
  {
  }

  lemma CoveredAll(ks: set<char>, keys: seq<char>)
    requires Distinct(keys) && (forall k :: 0 <= k < |keys| ==> keys[k] in ks)
    requires forall c :: c in ks ==> c in keys
    ensures Covered(keys, |keys|, |keys| + 1) == Pairs(ks)
  {
    forall p | p in Pairs(ks)
      ensures p in Covered(keys, |keys|, |keys| + 1)
    {
      var a :| 0 <= a < |keys| && keys[a] == p.0;
      var b :| 0 <= b < |keys| && keys[b] == p.1;
      assert a != b;
    }
  }

  lemma TableIs(pad: Pad, table: map<(char, char), seq<string>>)
    requires table.Keys == Pairs(Keys(pad).Keys)
    requires forall p :: p in table ==> p.0 in Keys(pad) && p.1 in Keys(pad) && table[p] == Paths(pad, p.0, p.1)
    ensures table == Table(pad)
  {
  }

  // ---------------------------------------------------------------------
  // The presses, robot by robot

  /** `get_keypad_code_len`: the key sequence path, followed by 'A', typed from 'A' through depth robots. */
  function KeypadCodeLen(path: string, depth: nat): nat
    requires depth >= 1 && Arrows(path)
    decreases depth, 3, 0
  {
    KeypadPresses(['A'] + path + ['A'], depth)
  }

  /** The `tuple_windows` sum of the transition costs. */
  function KeypadPresses(keys: string, depth: nat): nat
    requires depth >= 1 && forall i :: 0 <= i < |keys| ==> keys[i] in KEYPAD
    decreases depth, 2, |keys|
  {
    if |keys| < 2 then 0 else KeyCost(keys[0], keys[1], depth) + KeypadPresses(keys[1..], depth)
  }

  /** One transition: a press of 'A' when the key repeats, else the cheapest candidate path one robot down. */
  function KeyCost(from: char, to: char, depth: nat): nat
    requires depth >= 1 && from in KEYPAD && to in KEYPAD
    decreases depth, 1, 0
  {
    if from == to then 1
    else
      var paths := KeypadPaths(from, to);
      PathsProps(Directional, from, to);
      if depth == 1 then |paths[0]| + 1 else Cheapest(paths, depth - 1)
  }

  /** `.min().unwrap()` over the candidate paths' costs at depth. */
  function Cheapest(paths: seq<string>, depth: nat): nat
    requires |paths| >= 1 && depth >= 1 && forall i :: 0 <= i < |paths| ==> Arrows(paths[i])
    decreases depth, 4, |paths|
  {
    var c := KeypadCodeLen(paths[0], depth);
    if |paths| == 1 then c
    else
      var rest := Cheapest(paths[1..], depth);
      if c <= rest then c else rest
  }

  /** Consecutive keys of the typed sequence, door pad lookups need two different keys. */
  predicate Typeable(keys: string)
  {
    (forall i :: 0 <= i < |keys| ==> keys[i] in NUMPAD) &&
    forall i :: 0 <= i < |keys| - 1 ==> keys[i] != keys[i + 1]
  }

  /** `get_numpad_code_len`: code typed on the door pad from 'A' through depth robots. */
  function NumpadCodeLen(code: string, depth: nat): nat
    requires depth >= 1 && Typeable(['A'] + code)
  {
    NumpadPresses(['A'] + code, depth)
  }

  function NumpadPresses(keys: string, depth: nat): nat
    requires depth >= 1 && Typeable(keys)
  {
    if |keys| < 2 then 0
    else
      PathsProps(Numeric, keys[0], keys[1]);
      Cheapest(NumericPaths(keys[0], keys[1]), depth) + NumpadPresses(keys[1..], depth)
  }

  /** A code the door accepts: door keys, no key twice in a row, a decimal number before its last key. */
  predicate ValidCode(code: string)
  {
    |code| >= 2 && Typeable(['A'] + code) && AllDigits(code[..|code| - 1])
  }

  /** `process`: the sum over the codes of presses at depth 2 times the code's numeric part. */
  function Complexity(codes: seq<string>): nat
    requires AllValid(codes)
  {
    if codes == [] then 0
    else
      var code := codes[|codes| - 1];
      assert ValidCode(code);
      Complexity(codes[..|codes| - 1]) + Times(NumpadCodeLen(code, 2), ParseNat(code[..|code| - 1]))
  }

  function Times(a: nat, b: nat): nat
  {
    a * b
  }

  // ---------------------------------------------------------------------
  // What the presses amount to

  /** The distance the arm on pad travels over keys, one key to the next. */
  function Travel(pad: Pad, keys: string): nat
    requires forall i :: 0 <= i < |keys| ==> keys[i] in Keys(pad)
  {
    if |keys| < 2 then 0 else Distance(Keys(pad)[keys[0]], Keys(pad)[keys[1]]) + Travel(pad, keys[1..])
  }

  /** Typed directly, a transition costs the arm's distance plus the press. */
  lemma KeyCostOne(from: char, to: char)
    requires from in KEYPAD && to in KEYPAD
    ensures KeyCost(from, to, 1) == Distance(KEYPAD[from], KEYPAD[to]) + 1
  {
    if from != to {
      PathsProps(Directional, from, to);
      assert KeypadPaths(from, to)[0] in KeypadPaths(from, to);
    }
  }

  lemma {:induction false} PressesOne(keys: string)
    requires forall i :: 0 <= i < |keys| ==> keys[i] in KEYPAD
    ensures KeypadPresses(keys, 1) == (if |keys| < 2 then 0 else |keys| - 1) + Travel(Directional, keys)
    decreases |keys|
  {
    if |keys| >= 2 {
      KeyCostOne(keys[0], keys[1]);
      PressesOne(keys[1..]);
    }
  }

  /** With one robot, the presses are one per key of path and its final 'A', plus the arm's travel from 'A' and back. */
  lemma CodeLenOne(path: string)
    requires Arrows(path)
    ensures KeypadCodeLen(path, 1) == |path| + 1 + Travel(Directional, ['A'] + path + ['A'])
  {
    PressesOne(['A'] + path + ['A']);
  }

  /** `.min()`: one of the candidates' costs, and no more than any of them. */
  lemma {:induction false} CheapestIs(paths: seq<string>, depth: nat) returns (k: nat)
    requires |paths| >= 1 && depth >= 1 && forall i :: 0 <= i < |paths| ==> Arrows(paths[i])
    ensures k < |paths| && Cheapest(paths, depth) == KeypadCodeLen(paths[k], depth)
    ensures forall i :: 0 <= i < |paths| ==> Cheapest(paths, depth) <= KeypadCodeLen(paths[i], depth)
    decreases |paths|
  {
    if |paths| == 1 {
      k := 0;
    } else {
      var j := CheapestIs(paths[1..], depth);
      k := if KeypadCodeLen(paths[0], depth) <= Cheapest(paths[1..], depth) then 0 else j + 1;
      forall i | 1 <= i < |paths|
        ensures Cheapest(paths[1..], depth) <= KeypadCodeLen(paths[i], depth)
      {
        assert paths[i] == paths[1..][i - 1];
      }
    }
  }

  /** One more robot in the chain never makes a transition cheaper. */
  lemma {:induction false} KeyCostMono(from: char, to: char, depth: nat)
    requires depth >= 1 && from in KEYPAD && to in KEYPAD
    ensures KeyCost(from, to, depth + 1) >= KeyCost(from, to, depth)
    decreases depth, 1, 0
  {
    if from != to {
      if depth == 1 {
        KeyCostMonoBase(from, to);
      } else {
        var paths := KeypadPaths(from, to);
        KeypadArrows(from, to);
        CheapestMono(paths, depth - 1);
        KeyCostMonoStep(from, to, depth, paths);
      }
    }
  }

  lemma KeyCostMonoStep(from: char, to: char, depth: nat, paths: seq<string>)
    requires depth >= 2 && from in KEYPAD && to in KEYPAD && from != to
    requires paths == KeypadPaths(from, to)
    requires |paths| >= 1 && forall i :: 0 <= i < |paths| ==> Arrows(paths[i])
    requires Cheapest(paths, depth) >= Cheapest(paths, depth - 1)
    ensures KeyCost(from, to, depth + 1) >= KeyCost(from, to, depth)
  {
  }

  /** The directional pad's candidate paths are non-empty runs of arrows. */
  lemma KeypadArrows(from: char, to: char)
    requires from in KEYPAD && to in KEYPAD
    ensures |KeypadPaths(from, to)| >= 1
    ensures forall i :: 0 <= i < |KeypadPaths(from, to)| ==> Arrows(KeypadPaths(from, to)[i])
  {
    PathsProps(Directional, from, to);
    assert Paths(Directional, from, to) == KeypadPaths(from, to);
    forall i | 0 <= i < |KeypadPaths(from, to)|
      ensures Arrows(KeypadPaths(from, to)[i])
    {
      assert KeypadPaths(from, to)[i] in Paths(Directional, from, to);
    }
  }

  /** With two robots a transition costs at least what it costs with one. */
  lemma KeyCostMonoBase(from: char, to: char)
    requires from in KEYPAD && to in KEYPAD && from != to
    ensures KeyCost(from, to, 2) >= KeyCost(from, to, 1)
  {
    var paths := KeypadPaths(from, to);
    PathsProps(Directional, from, to);
    var k := CheapestIs(paths, 1);
    CodeLenOne(paths[k]);
    assert paths[0] in paths && paths[k] in paths;
  }

  lemma {:induction false} PressesMono(keys: string, depth: nat)
    requires depth >= 1 && forall i :: 0 <= i < |keys| ==> keys[i] in KEYPAD
    ensures KeypadPresses(keys, depth + 1) >= KeypadPresses(keys, depth)
    decreases depth, 2, |keys|
  {
    if |keys| >= 2 {
      KeyCostMono(keys[0], keys[1], depth);
      PressesMono(keys[1..], depth);
    }
  }

  /** One more robot in the chain never makes a key sequence cheaper to type. */
  lemma {:induction false} CodeLenMono(path: string, depth: nat)
    requires depth >= 1 && Arrows(path)
    ensures KeypadCodeLen(path, depth + 1) >= KeypadCodeLen(path, depth)
    decreases depth, 3, 0
  {
    PressesMono(['A'] + path + ['A'], depth);
  }

  lemma {:induction false} CheapestMono(paths: seq<string>, depth: nat)
    requires |paths| >= 1 && depth >= 1 && forall i :: 0 <= i < |paths| ==> Arrows(paths[i])
    ensures Cheapest(paths, depth + 1) >= Cheapest(paths, depth)
    decreases depth, 4, |paths|
  {
    var k := CheapestIs(paths, depth + 1);
    var j := CheapestIs(paths, depth);
    CodeLenMono(paths[k], depth);
  }

  /** However many robots, a key sequence costs at least what it costs typed directly. */
  lemma {:induction false} CodeLenAtLeastOne(path: string, depth: nat)
    requires depth >= 1 && Arrows(path)
    ensures KeypadCodeLen(path, depth) >= |path| + 1 + Travel(Directional, ['A'] + path + ['A'])
    decreases depth
  {
    if depth > 1 {
      var below := depth - 1;
      CodeLenAtLeastOne(path, below);
      CodeLenMono(path, below);
      assert below + 1 == depth;
    } else {
      assert depth == 1;
      CodeLenOne(path);
    }
  }

  lemma {:induction false} NumpadPressesMono(keys: string, depth: nat)
    requires depth >= 1 && Typeable(keys)
    ensures NumpadPresses(keys, depth + 1) >= NumpadPresses(keys, depth)
    decreases |keys|
  {
    if |keys| >= 2 {
      PathsProps(Numeric, keys[0], keys[1]);
      CheapestMono(NumericPaths(keys[0], keys[1]), depth);
      NumpadPressesMono(keys[1..], depth);
    }
  }

  /** One more robot in the chain never makes a door code cheaper to type. */
  lemma NumpadMono(code: string, depth: nat)
    requires depth >= 1 && Typeable(['A'] + code)
    ensures NumpadCodeLen(code, depth + 1) >= NumpadCodeLen(code, depth)
  {
    NumpadPressesMono(['A'] + code, depth);
  }

  /** A door transition costs at least the arm's distance plus the press. */
  lemma DoorStepLower(from: char, to: char, depth: nat)
    requires depth >= 1 && from in NUMPAD && to in NUMPAD
    ensures |NumericPaths(from, to)| >= 1 && (forall i :: 0 <= i < |NumericPaths(from, to)| ==> Arrows(NumericPaths(from, to)[i]))
    ensures Cheapest(NumericPaths(from, to), depth) >= Distance(NUMPAD[from], NUMPAD[to]) + 1
  {
    var paths := NumericPaths(from, to);
    PathsProps(Numeric, from, to);
    var k := CheapestIs(paths, depth);
    assert paths[k] in paths;
    CodeLenAtLeastOne(paths[k], depth);
  }

  lemma {:induction false} NumpadPressesLower(keys: string, depth: nat)
    requires depth >= 1 && Typeable(keys)
    ensures NumpadPresses(keys, depth) >= (if |keys| < 2 then 0 else |keys| - 1) + Travel(Numeric, keys)
    decreases |keys|
  {
    if |keys| >= 2 {
      DoorStepLower(keys[0], keys[1], depth);
      NumpadPressesLower(keys[1..], depth);
    }
  }

  /**
   * However many robots, every key of the code costs at least the distance
   * the door arm travels to it plus its press.
   */
  lemma NumpadLower(code: string, depth: nat)
    requires depth >= 1 && Typeable(['A'] + code)
    ensures NumpadCodeLen(code, depth) >= |code| + Travel(Numeric, ['A'] + code)
  {
    NumpadPressesLower(['A'] + code, depth);
  }

  predicate AllValid(codes: seq<string>)
  {
    forall k :: 0 <= k < |codes| ==> ValidCode(codes[k])
  }

  /** The complexity of a list of codes is the sum over any split of it. */
  lemma {:induction false} ComplexityConcat(a: seq<string>, b: seq<string>)
    requires AllValid(a) && AllValid(b)
    ensures AllValid(a + b) && Complexity(a + b) == Complexity(a) + Complexity(b)
    decreases |b|
  {
    ValidConcat(a, b);
    if b == [] {
      assert a + b == a;
    } else {
      var init := b[..|b| - 1];
      assert AllValid(init);
      ComplexityConcat(a, init);
      assert (a + b)[..|a + b| - 1] == a + init;
      assert (a + b)[|a + b| - 1] == b[|b| - 1];
    }
  }

  lemma ValidConcat(a: seq<string>, b: seq<string>)
    requires AllValid(a) && AllValid(b)
    ensures AllValid(a + b)
  {
    forall k | 0 <= k < |a + b|
      ensures ValidCode((a + b)[k])
    {
      if k < |a| {
        assert (a + b)[k] == a[k];
      } else {
        assert (a + b)[k] == b[k - |a|];
      }
    }
  }
}
