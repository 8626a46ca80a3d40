/**
 * Orthogonal adjacency on the integer grid and the connected components it
 * induces, shared by the 2024/day-12 region flood fill and the day-12 part 2
 * side merging.  A flood from `pos` over a set `s` is described by the
 * invariant `Flooding`, which the recursive fills of both parts keep.
 */
module Adjacency {
  datatype Vec2 = Vec2(x: int, y: int)

  /** `dirs()`: right, left, down, up. */
  const DIRS: seq<Vec2> := [Vec2(1, 0), Vec2(-1, 0), Vec2(0, 1), Vec2(0, -1)]

  function Add(a: Vec2, b: Vec2): Vec2
  {
    Vec2(a.x + b.x, a.y + b.y)
  }

  function Abs(n: int): nat
  {
    if n < 0 then -n else n
  }

  /** a and b are orthogonal neighbours. */
  predicate Adjacent(a: Vec2, b: Vec2)
  {
    Abs(b.x - a.x) + Abs(b.y - a.y) == 1
  }

  /** The neighbours of a are exactly a plus one of the four directions. */
  lemma DirsAreNeighbours(a: Vec2, b: Vec2)
    ensures Adjacent(a, b) <==> exists i :: 0 <= i < 4 && b == Add(a, DIRS[i])
  {
    if Adjacent(a, b) {
      var i := if b.x == a.x + 1 then 0 else if b.x == a.x - 1 then 1 else if b.y == a.y + 1 then 2 else 3;
      assert b == Add(a, DIRS[i]);
    }
  }

  lemma NeighbourOf(a: Vec2, i: nat)
    requires i < 4
    ensures Adjacent(a, Add(a, DIRS[i])) && Adjacent(Add(a, DIRS[i]), a)
  {
  }

  /** A walk through s from neighbour to neighbour. */
  ghost predicate Path(s: set<Vec2>, path: seq<Vec2>)
  {
    |path| >= 1 && (forall i :: 0 <= i < |path| ==> path[i] in s) &&
    forall i :: 0 <= i < |path| - 1 ==> Adjacent(path[i], path[i + 1])
  }

  ghost predicate Linked(s: set<Vec2>, p: Vec2, q: Vec2)
  {
    exists path :: Path(s, path) && path[0] == p && path[|path| - 1] == q
  }

  /** The cells of s reachable from p inside s; empty when p is not in s. */
  ghost function Component(s: set<Vec2>, p: Vec2): set<Vec2>
  {
    set q | q in s && Linked(s, p, q)
  }

  /** No step leads from r to a cell of s outside r. */
  ghost predicate Closed(r: set<Vec2>, s: set<Vec2>)
  {
    forall x, y :: x in r && y in s && Adjacent(x, y) ==> y in r
  }

  lemma LinkedRefl(s: set<Vec2>, p: Vec2)
    requires p in s
    ensures Linked(s, p, p)
  {
    assert Path(s, [p]);
  }

  lemma LinkedMono(r: set<Vec2>, s: set<Vec2>, p: Vec2, q: Vec2)
    requires r <= s && Linked(r, p, q)
    ensures Linked(s, p, q)
  {
    var path :| Path(r, path) && path[0] == p && path[|path| - 1] == q;
    assert Path(s, path);
  }

  /** A step from p to a neighbour n linked to q links p to q. */
  lemma LinkedPrepend(s: set<Vec2>, p: Vec2, n: Vec2, q: Vec2)
    requires p in s && Adjacent(p, n) && Linked(s, n, q)
    ensures Linked(s, p, q)
  {
    var path :| Path(s, path) && path[0] == n && path[|path| - 1] == q;
    var longer := [p] + path;
    assert forall i :: 1 <= i < |longer| ==> longer[i] == path[i - 1];
    assert Path(s, longer);
  }

  /** A walk starting inside a closed r never leaves it. */
  lemma {:induction false} PathStaysIn(r: set<Vec2>, s: set<Vec2>, path: seq<Vec2>)
    requires Path(s, path) && path[0] in r && Closed(r, s)
    ensures Path(r, path)
  {
    if |path| > 1 {
      var init := path[..|path| - 1];
      assert Path(s, init);
      PathStaysIn(r, s, init);
      assert path[|path| - 2] == init[|path| - 2];
    }
  }

  /** Every cell of a walk is linked to its first cell. */
  lemma PrefixLinked(s: set<Vec2>, path: seq<Vec2>, k: nat)
    requires Path(s, path) && k < |path|
    ensures Linked(s, path[0], path[k])
  {
    var prefix := path[..k + 1];
    assert Path(s, prefix);
  }

  /** A walk read backwards links q to p. */
  lemma LinkedReverse(s: set<Vec2>, p: Vec2, q: Vec2)
    requires Linked(s, p, q)
    ensures Linked(s, q, p)
  {
    var path :| Path(s, path) && path[0] == p && path[|path| - 1] == q;
    var back := seq(|path|, i requires 0 <= i < |path| => path[|path| - 1 - i]);
    forall i | 0 <= i < |back| - 1
      ensures Adjacent(back[i], back[i + 1])
    {
      assert Adjacent(path[|path| - 2 - i], path[|path| - 1 - i]);
    }
    assert Path(s, back);
  }

  /** Walks from p to q and from q to r join into one from p to r. */
  lemma LinkedTrans(s: set<Vec2>, p: Vec2, q: Vec2, r: Vec2)
    requires Linked(s, p, q) && Linked(s, q, r)
    ensures Linked(s, p, r)
  {
    var first :| Path(s, first) && first[0] == p && first[|first| - 1] == q;
    var second :| Path(s, second) && second[0] == q && second[|second| - 1] == r;
    var joined := first + second[1..];
    forall i | 0 <= i < |joined| - 1
      ensures Adjacent(joined[i], joined[i + 1])
    {
      if i < |first| - 1 {
        assert joined[i] == first[i] && joined[i + 1] == first[i + 1];
      } else {
        assert joined[i] == second[i - |first| + 1] && joined[i + 1] == second[i - |first| + 2];
      }
    }
    assert Path(s, joined);
  }

  /** The component of p in s is connected within itself and closed in s. */
  lemma ComponentProps(s: set<Vec2>, p: Vec2)
    requires p in s
    ensures p in Component(s, p) && Component(s, p) <= s && Closed(Component(s, p), s)
    ensures forall q :: q in Component(s, p) ==> Linked(Component(s, p), p, q)
  {
    var c := Component(s, p);
    LinkedRefl(s, p);
    forall x, y | x in c && y in s && Adjacent(x, y)
      ensures y in c
    {
      var path :| Path(s, path) && path[0] == p && path[|path| - 1] == x;
      var longer := path + [y];
      assert forall i :: 0 <= i < |path| ==> longer[i] == path[i];
      assert Path(s, longer);
    }
    forall q | q in c
      ensures Linked(c, p, q)
    {
      var path :| Path(s, path) && path[0] == p && path[|path| - 1] == q;
      forall k | 0 <= k < |path|
        ensures path[k] in c
      {
        PrefixLinked(s, path, k);
      }
      assert Path(c, path);
    }
  }

  /** A connected set closed in s that holds p is the component of p. */
  lemma ComponentIs(s: set<Vec2>, p: Vec2, r: set<Vec2>)
    requires p in r && r <= s && Closed(r, s)
    requires forall q :: q in r ==> Linked(r, p, q)
    ensures r == Component(s, p)
  {
    forall q | q in r
      ensures q in Component(s, p)
    {
      LinkedMono(r, s, p, q);
    }
    forall q | q in Component(s, p)
      ensures q in r
    {
      var path :| Path(s, path) && path[0] == p && path[|path| - 1] == q;
      PathStaysIn(r, s, path);
    }
  }

  /** Every cell of a component has that same component. */
  lemma ComponentSame(s: set<Vec2>, p: Vec2, x: Vec2)
    requires x in Component(s, p)
    ensures Component(s, x) == Component(s, p)
  {
    var c := Component(s, p);
    ComponentProps(s, p);
    LinkedReverse(c, p, x);
    forall q | q in c
      ensures Linked(c, x, q)
    {
      LinkedTrans(c, x, p, q);
    }
    ComponentIs(s, x, c);
  }

  /** A component starting in a closed part of s stays in it. */
  lemma ComponentWithin(s: set<Vec2>, t: set<Vec2>, p: Vec2)
    requires t <= s && Closed(t, s) && p in t
    ensures Component(s, p) <= t
  {
    forall q | q in Component(s, p)
      ensures q in t
    {
      var path :| Path(s, path) && path[0] == p && path[|path| - 1] == q;
      PathStaysIn(t, s, path);
    }
  }

  lemma ComponentOutside(s: set<Vec2>, p: Vec2)
    requires p !in s
    ensures Component(s, p) == {}
  {
  }

  /** Removing a closed part of s leaves the components of the other cells as they were. */
  lemma RemoveClosed(s: set<Vec2>, t: set<Vec2>, p: Vec2)
    requires t <= s && Closed(t, s) && p in s - t
    ensures Component(s - t, p) == Component(s, p)
  {
    var c := Component(s - t, p);
    ComponentProps(s - t, p);
    forall x, y | x in c && y in s && Adjacent(x, y)
      ensures y in c
    {
      if y in t {
        assert Adjacent(y, x);
      }
    }
    forall q | q in c
      ensures Linked(c, p, q)
    {
    }
    ComponentIs(s, p, c);
  }

  /** The neighbours of pos in directions i to 3. */
  function Unexplored(pos: Vec2, i: nat): set<Vec2>
  {
    set j | i <= j < 4 :: Add(pos, DIRS[j])
  }

  /**
   * A flood of s from pos that has explored the directions before i: its
   * cells d are connected, and the only steps out of d into s start at pos
   * towards a direction not yet explored.
   */
  ghost predicate Flooding(s: set<Vec2>, pos: Vec2, i: nat, d: set<Vec2>)
  {
    pos in d && d <= s &&
    (forall x, y :: x in d && y in s && y !in d && Adjacent(x, y) ==> x == pos && y in Unexplored(pos, i)) &&
    forall q :: q in d ==> Linked(d, pos, q)
  }

  /** The flood begins with pos alone. */
  lemma FloodStart(s: set<Vec2>, pos: Vec2)
    requires pos in s
    ensures Flooding(s, pos, 0, {pos})
  {
    LinkedRefl({pos}, pos);
    forall x, y | x in {pos} && y in s && y !in {pos} && Adjacent(x, y)
      ensures y in Unexplored(pos, 0)
    {
      DirsAreNeighbours(pos, y);
    }
  }

  /** Flooding the neighbour in direction i over what is left adds its component and explores direction i. */
  lemma FloodStep(s: set<Vec2>, pos: Vec2, i: nat, d: set<Vec2>, r: set<Vec2>)
    requires i < 4 && Flooding(s, pos, i, d)
    requires r == Component(s - d, Add(pos, DIRS[i]))
    ensures Flooding(s, pos, i + 1, d + r)
  {
    var n := Add(pos, DIRS[i]);
    if n in s - d {
      ComponentProps(s - d, n);
    }
    forall x, y | x in d + r && y in s && y !in d + r && Adjacent(x, y)
      ensures x == pos && y in Unexplored(pos, i + 1)
    {
      if x in d {
        var j :| i <= j < 4 && y == Add(pos, DIRS[j]);
        if j == i {
          assert false;
        }
      }
    }
    forall q | q in d + r
      ensures Linked(d + r, pos, q)
    {
      if q in d {
        LinkedMono(d, d + r, pos, q);
      } else {
        NeighbourOf(pos, i);
        LinkedMono(r, d + r, n, q);
        LinkedPrepend(d + r, pos, n, q);
      }
    }
  }

  /** With every direction explored, the flood is the component of pos. */
  lemma FloodDone(s: set<Vec2>, pos: Vec2, d: set<Vec2>)
    requires Flooding(s, pos, 4, d)
    ensures d == Component(s, pos)
  {
    assert Closed(d, s);
    ComponentIs(s, pos, d);
  }
}
