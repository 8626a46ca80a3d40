/**
 * day-12 part 2: a region now costs its size times its number of sides.
 * The fence of a region is the list of (cell, direction) parts whose
 * neighbour in that direction lies outside the region; `get_fence` pops a
 * part, lets `reduce_fence` remove every part of the same direction that
 * is reachable from it through neighbouring cells, and counts one side per
 * pop.
 */
module GardenSides {
  import opened Wrappers
  import opened Adjacency
  import opened GardenGroups

  /** A fence part: a cell of the region and the direction in which it has no neighbour. */
  type Part = (Vec2, Vec2)

  /** The `filter`/`map` for one cell: the parts of p towards the directions of `dirs` leaving the group. */
  function PartsOf(group: seq<Vec2>, p: Vec2, dirs: seq<Vec2>): seq<Part>
  {
    if dirs == [] then []
    else PartsOf(group, p, dirs[..|dirs| - 1]) + if Add(p, dirs[|dirs| - 1]) in group then [] else [(p, dirs[|dirs| - 1])]
  }

  /** The `flat_map` over the cells of `cells`, each judged against `group`. */
  function FenceOf(group: seq<Vec2>, cells: seq<Vec2>): seq<Part>
  {
    if cells == [] then [] else FenceOf(group, cells[..|cells| - 1]) + PartsOf(group, cells[|cells| - 1], DIRS)
  }

  /** The initial `fence_parts` of `get_fence`. */
  function FenceParts(group: seq<Vec2>): seq<Part>
  {
    FenceOf(group, group)
  }

  /** The parts of one cell are those towards the directions of `dirs` that leave the group. */
  lemma {:induction false} PartsOfMembers(group: seq<Vec2>, p: Vec2, dirs: seq<Vec2>, e: Part)
    ensures e in PartsOf(group, p, dirs) <==> e.0 == p && e.1 in dirs && Add(p, e.1) !in group
  {
    if dirs != [] {
      PartsOfMembers(group, p, dirs[..|dirs| - 1], e);
      if e.1 in dirs && e.1 != dirs[|dirs| - 1] {
        var j :| 0 <= j < |dirs| && dirs[j] == e.1;
        assert dirs[..|dirs| - 1][j] == e.1;
      }
    }
  }

  /** Fence parts are the (cell, direction) pairs whose neighbour is outside the group. */
  lemma {:induction false} FenceMembers(group: seq<Vec2>, cells: seq<Vec2>, e: Part)
    ensures e in FenceOf(group, cells) <==> e.0 in cells && e.1 in DIRS && Add(e.0, e.1) !in group
  {
    if cells != [] {
      var last := cells[|cells| - 1];
      FenceMembers(group, cells[..|cells| - 1], e);
      PartsOfMembers(group, last, DIRS, e);
      if e.0 in cells && e.0 != last {
        var j :| 0 <= j < |cells| && cells[j] == e.0;
        assert cells[..|cells| - 1][j] == e.0;
      }
    }
  }

  lemma DistinctConcat<T>(a: seq<T>, b: seq<T>)
    requires Distinct(a) && Distinct(b) && forall x :: x in a ==> x !in b
    ensures Distinct(a + b)
  {
    forall i, j | 0 <= i < j < |a + b|
      ensures (a + b)[i] != (a + b)[j]
    {
      if i < |a| && j >= |a| {
        assert a[i] in a && b[j - |a|] in b;
        assert (a + b)[i] == a[i] && (a + b)[j] == b[j - |a|];
      } else if i >= |a| {
        assert (a + b)[i] == b[i - |a|] && (a + b)[j] == b[j - |a|];
      } else {
        assert (a + b)[i] == a[i] && (a + b)[j] == a[j];
      }
    }
  }

  lemma {:induction false} PartsOfDistinct(group: seq<Vec2>, p: Vec2, dirs: seq<Vec2>)
    requires Distinct(dirs)
    ensures Distinct(PartsOf(group, p, dirs))
  {
    if dirs != [] {
      var init := dirs[..|dirs| - 1];
      assert Distinct(init) by {
        assert forall i :: 0 <= i < |init| ==> init[i] == dirs[i];
      }
      PartsOfDistinct(group, p, init);
      forall x | x in PartsOf(group, p, init)
        ensures x != (p, dirs[|dirs| - 1])
      {
        PartsOfMembers(group, p, init, x);
        var j :| 0 <= j < |init| && init[j] == x.1;
        assert dirs[j] == x.1;
      }
      DistinctConcat(PartsOf(group, p, init), if Add(p, dirs[|dirs| - 1]) in group then [] else [(p, dirs[|dirs| - 1])]);
    }
  }

  /** Cells without repetitions give fence parts without repetitions. */
  lemma {:induction false} FenceDistinct(group: seq<Vec2>, cells: seq<Vec2>)
    requires Distinct(cells)
    ensures Distinct(FenceOf(group, cells))
  {
    if cells != [] {
      var init, last := cells[..|cells| - 1], cells[|cells| - 1];
      assert Distinct(init) by {
        assert forall i :: 0 <= i < |init| ==> init[i] == cells[i];
      }
      FenceDistinct(group, init);
      PartsOfDistinct(group, last, DIRS);
      forall x | x in FenceOf(group, init)
        ensures x !in PartsOf(group, last, DIRS)
      {
        FenceMembers(group, init, x);
        PartsOfMembers(group, last, DIRS, x);
        var j :| 0 <= j < |init| && init[j] == x.0;
        assert cells[j] == x.0;
      }
      DistinctConcat(FenceOf(group, init), PartsOf(group, last, DIRS));
    }
  }

  lemma FencePartsDistinct(group: seq<Vec2>)
    ensures Distinct(group) ==> Distinct(FenceParts(group))
  {
    if Distinct(group) {
      FenceDistinct(group, group);
    }
  }

  lemma {:induction false} PartsOfCount(group: seq<Vec2>, p: Vec2, dirs: seq<Vec2>)
    ensures |PartsOf(group, p, dirs)| == OpenSides(group, p, dirs)
  {
    if dirs != [] {
      PartsOfCount(group, p, dirs[..|dirs| - 1]);
    }
  }

  lemma {:induction false} FenceOfCount(group: seq<Vec2>, cells: seq<Vec2>)
    ensures |FenceOf(group, cells)| == OpenSum(group, cells)
  {
    if cells != [] {
      FenceOfCount(group, cells[..|cells| - 1]);
      PartsOfCount(group, cells[|cells| - 1], DIRS);
    }
  }

  /** There are as many fence parts as the part 1 perimeter counts, so at most four per cell. */
  lemma FencePartsCount(group: seq<Vec2>)
    ensures |FenceParts(group)| == Perimeter(group) && |FenceParts(group)| <= 4 * |group|
  {
    FenceOfCount(group, group);
    PerimeterBound(group);
  }

  /** `position`: the first index holding x, None when there is none. */
  function Position(parts: seq<Part>, x: Part): (r: Option<nat>)
    ensures r.Some? ==> r.value < |parts| && parts[r.value] == x && x !in parts[..r.value]
    ensures r.None? <==> x !in parts
  {
    if parts == [] then None
    else if parts[0] == x then Some(0)
    else match Position(parts[1..], x)
      case None => None
      case Some(k) =>
        assert parts[..k + 1] == [parts[0]] + parts[1..][..k];
        Some(k + 1)
  }

  /** The cells holding a part towards d. */
  ghost function Face(parts: seq<Part>, d: Vec2): set<Vec2>
  {
    set e | e in parts && e.1 == d :: e.0
  }

  /** rest is parts less some parts towards d, and no longer. */
  ghost predicate Kept(d: Vec2, parts: seq<Part>, rest: seq<Part>)
  {
    |rest| <= |parts| && (forall e :: e in rest ==> e in parts) &&
    forall e :: e in parts && e.1 != d ==> e in rest
  }

  /**
   * What `reduce_fence` removes on behalf of part: the cells towards the
   * same direction it took away, with part's own cell, form the component
   * of that cell among them.
   */
  ghost predicate Merged(part: Part, parts: seq<Part>, rest: seq<Part>)
  {
    var s := Face(parts, part.1) + {part.0};
    s - Face(rest, part.1) == Component(s, part.0)
  }

  /** The loop of `reduce_fence` after the directions before i: a flood over the cells of same-direction parts. */
  ghost predicate Reducing(part: Part, parts: seq<Part>, i: nat, rest: seq<Part>)
  {
    Kept(part.1, parts, rest) &&
    (Distinct(parts) && part !in parts ==>
       Distinct(rest) &&
       var s := Face(parts, part.1) + {part.0};
       Flooding(s, part.0, i, s - Face(rest, part.1)))
  }

  /**
   * `reduce_fence`: for each direction, removes the first part towards the
   * direction of `part` at the neighbouring cell, and reduces from it in
   * turn.  On a list without repetitions that no longer holds `part`, the
   * parts removed are exactly those of its side.
   */
  method ReduceFence(part: Part, parts: seq<Part>) returns (rest: seq<Part>)
    ensures Kept(part.1, parts, rest)
    ensures Distinct(parts) && part !in parts ==> Distinct(rest) && Merged(part, parts, rest)
    decreases |parts|
  {
    rest := parts;
    ReduceStart(part, parts);
    for i := 0 to 4
      invariant Reducing(part, parts, i, rest)
    {
      var p := Add(part.0, DIRS[i]);
      var index := Position(rest, (p, part.1));
      if index.Some? {
        var part2 := rest[index.value];
        var rest1 := rest[..index.value] + rest[index.value + 1..];
        var rest2 := ReduceFence(part2, rest1);
        ReduceStep(part, parts, i, rest, index.value, rest1, rest2);
        rest := rest2;
      } else {
        ReduceSkip(part, parts, i, rest);
      }
    }
    ReduceDone(part, parts, rest);
  }

  lemma FaceOf(parts: seq<Part>, d: Vec2, x: Vec2)
    ensures x in Face(parts, d) <==> (x, d) in parts
  {
    if (x, d) in parts {
      assert (x, d).0 == x;
    }
  }

  lemma ReduceStart(part: Part, parts: seq<Part>)
    ensures Reducing(part, parts, 0, parts)
  {
    if Distinct(parts) && part !in parts {
      var s := Face(parts, part.1) + {part.0};
      FaceOf(parts, part.1, part.0);
      assert s - Face(parts, part.1) == {part.0};
      FloodStart(s, part.0);
    }
  }

  /** Removing the element at k keeps the others, in order. */
  lemma Removed(rest: seq<Part>, k: nat, rest1: seq<Part>)
    requires k < |rest| && rest1 == rest[..k] + rest[k + 1..]
    ensures |rest1| == |rest| - 1 && forall e :: e in rest1 ==> e in rest
    ensures forall e :: e in rest && e != rest[k] ==> e in rest1
  {
    forall e | e in rest1
      ensures e in rest
    {
      var j :| 0 <= j < |rest1| && rest1[j] == e;
      if j < k {
        assert rest1[j] == rest[j];
      } else {
        assert rest1[j] == rest[j + 1];
      }
    }
    forall e | e in rest && e != rest[k]
      ensures e in rest1
    {
      var j :| 0 <= j < |rest| && rest[j] == e;
      if j < k {
        assert rest1[j] == e;
      } else {
        assert rest1[j - 1] == e;
      }
    }
  }

  /** Removing the element at k from a list without repetitions removes its one copy. */
  lemma Dropped(rest: seq<Part>, k: nat, rest1: seq<Part>)
    requires Distinct(rest) && k < |rest| && rest1 == rest[..k] + rest[k + 1..]
    ensures Distinct(rest1) && rest[k] !in rest1
  {
    forall i, j | 0 <= i < j < |rest1|
      ensures rest1[i] != rest1[j]
    {
      var i' := if i < k then i else i + 1;
      var j' := if j < k then j else j + 1;
      assert rest1[i] == rest[i'] && rest1[j] == rest[j'];
    }
    forall j | 0 <= j < |rest1|
      ensures rest1[j] != rest[k]
    {
      var j' := if j < k then j else j + 1;
      assert rest1[j] == rest[j'];
    }
  }

  lemma ReduceStep(part: Part, parts: seq<Part>, i: nat, rest: seq<Part>, k: nat, rest1: seq<Part>, rest2: seq<Part>)
    requires i < 4 && Reducing(part, parts, i, rest)
    requires k < |rest| && rest[k] == (Add(part.0, DIRS[i]), part.1) && rest1 == rest[..k] + rest[k + 1..]
    requires Kept(part.1, rest1, rest2)
    requires Distinct(rest1) && rest[k] !in rest1 ==> Distinct(rest2) && Merged(rest[k], rest1, rest2)
    ensures Reducing(part, parts, i + 1, rest2)
  {
    Removed(rest, k, rest1);
    if Distinct(parts) && part !in parts {
      Dropped(rest, k, rest1);
      FloodMore(part, parts, i, rest, rest1, rest2);
    }
  }

  /** The side reduced from the neighbour in direction i is what the flood adds. */
  lemma FloodMore(part: Part, parts: seq<Part>, i: nat, rest: seq<Part>, rest1: seq<Part>, rest2: seq<Part>)
    requires i < 4 && Kept(part.1, parts, rest) && part !in parts
    requires var s := Face(parts, part.1) + {part.0}; Flooding(s, part.0, i, s - Face(rest, part.1))
    requires (Add(part.0, DIRS[i]), part.1) in rest && (Add(part.0, DIRS[i]), part.1) !in rest1
    requires forall e :: e in rest1 <==> e in rest && e != (Add(part.0, DIRS[i]), part.1)
    requires Kept(part.1, rest1, rest2) && Merged((Add(part.0, DIRS[i]), part.1), rest1, rest2)
    ensures var s := Face(parts, part.1) + {part.0}; Flooding(s, part.0, i + 1, s - Face(rest2, part.1))
  {
    var d := part.1;
    var n := Add(part.0, DIRS[i]);
    var s := Face(parts, d) + {part.0};
    var f := Face(rest, d);
    FaceDrop(rest, rest1, n, d);
    assert f <= s;
    var r := f - Face(rest2, d);
    assert Face(rest2, d) <= Face(rest1, d);
    assert s - (s - f) == f;
    FloodStep(s, part.0, i, s - f, r);
    assert (s - f) + r == s - Face(rest2, d);
  }

  lemma FaceDrop(rest: seq<Part>, rest1: seq<Part>, n: Vec2, d: Vec2)
    requires (n, d) in rest && forall e :: e in rest1 <==> e in rest && e != (n, d)
    ensures Face(rest1, d) + {n} == Face(rest, d)
  {
    FaceOf(rest, d, n);
    forall x | x in Face(rest, d)
      ensures x in Face(rest1, d) + {n}
    {
      FaceOf(rest, d, x);
      FaceOf(rest1, d, x);
    }
  }

  lemma ReduceSkip(part: Part, parts: seq<Part>, i: nat, rest: seq<Part>)
    requires i < 4 && Reducing(part, parts, i, rest) && (Add(part.0, DIRS[i]), part.1) !in rest
    ensures Reducing(part, parts, i + 1, rest)
  {
    if Distinct(parts) && part !in parts {
      var n := Add(part.0, DIRS[i]);
      var s := Face(parts, part.1) + {part.0};
      var f := Face(rest, part.1);
      FaceOf(rest, part.1, n);
      assert f <= s;
      ComponentOutside(s - (s - f), n);
      FloodStep(s, part.0, i, s - f, {});
      assert (s - f) + {} == s - f;
    }
  }

  lemma ReduceDone(part: Part, parts: seq<Part>, rest: seq<Part>)
    requires Reducing(part, parts, 4, rest)
    ensures Distinct(parts) && part !in parts ==> Distinct(rest) && Merged(part, parts, rest)
  {
    if Distinct(parts) && part !in parts {
      var s := Face(parts, part.1) + {part.0};
      FloodDone(s, part.0, s - Face(rest, part.1));
    }
  }

  /** A side: a component of the cells holding a part towards one direction, with that direction. */
  ghost function SideOf(all: seq<Part>, e: Part): (set<Vec2>, Vec2)
  {
    (Component(Face(all, e.1), e.0), e.1)
  }

  /** The sides of the parts of `all` that `parts` no longer holds. */
  ghost function SidesFrom(all: seq<Part>, parts: seq<Part>): set<(set<Vec2>, Vec2)>
  {
    set e | e in all && e !in parts :: SideOf(all, e)
  }

  /** The sides of a fence. */
  ghost function Sides(all: seq<Part>): set<(set<Vec2>, Vec2)>
  {
    SidesFrom(all, [])
  }

  /** No part already taken away neighbours a remaining part towards the same direction. */
  ghost predicate Separated(all: seq<Part>, parts: seq<Part>)
  {
    forall a, b :: a in all && a !in parts && b in parts && a.1 == b.1 ==> !Adjacent(a.0, b.0)
  }

  /** The loop of `get_fence`: one side counted per part popped, each side taken away whole. */
  ghost predicate Fencing(all: seq<Part>, parts: seq<Part>, count: nat, sides: seq<(set<Vec2>, Vec2)>)
  {
    count == |sides| && |parts| + count <= |all| && (forall e :: e in parts ==> e in all) &&
    (Distinct(all) ==>
       Distinct(parts) && Separated(all, parts) && Distinct(sides) &&
       forall x :: x in sides <==> x in SidesFrom(all, parts))
  }

  /**
   * `get_fence`: pops parts until none is left, reducing the fence from
   * each; the count is at most the number of parts, and for a group
   * without repeated cells it is the number of sides.
   */
  method GetFence(group: seq<Vec2>) returns (count: nat)
    ensures count <= |FenceParts(group)|
    ensures Distinct(group) ==> count == |Sides(FenceParts(group))|
  {
    var parts := FenceParts(group);
    ghost var all := parts;
    ghost var sides: seq<(set<Vec2>, Vec2)> := [];
    FencePartsDistinct(group);
    count := 0;
    while |parts| > 0
      invariant Fencing(all, parts, count, sides)
      decreases |parts|
    {
      var part := parts[|parts| - 1];
      ghost var before := parts;
      parts := parts[..|parts| - 1];
      var rest := ReduceFence(part, parts);
      FenceStep(all, before, count, sides, rest);
      sides := sides + [SideOf(all, part)];
      parts := rest;
      count := count + 1;
    }
    FenceDone(all, count, sides);
  }

  lemma FenceStep(all: seq<Part>, parts: seq<Part>, count: nat, sides: seq<(set<Vec2>, Vec2)>, rest: seq<Part>)
    requires Fencing(all, parts, count, sides) && |parts| > 0
    requires Kept(parts[|parts| - 1].1, parts[..|parts| - 1], rest)
    requires Distinct(parts[..|parts| - 1]) && parts[|parts| - 1] !in parts[..|parts| - 1] ==>
               Distinct(rest) && Merged(parts[|parts| - 1], parts[..|parts| - 1], rest)
    ensures Fencing(all, rest, count + 1, sides + [SideOf(all, parts[|parts| - 1])])
  {
    var k := |parts| - 1;
    var part, init := parts[k], parts[..k];
    assert init == parts[..k] + parts[k + 1..];
    Removed(parts, k, init);
    if Distinct(all) {
      Dropped(parts, k, init);
      var d, q := part.1, part.0;
      assert q in Face(parts, d);
      FaceDrop(parts, init, q, d);
      SideCells(all, parts, rest, part);
      FenceSeparated(all, parts, rest, part);
      FenceSides(all, parts, count, sides, rest, part);
    }
  }

  /**
   * The cells towards d taken away on behalf of the popped part are its
   * component among all the cells of parts towards d.
   */
  lemma SideCells(all: seq<Part>, parts: seq<Part>, rest: seq<Part>, part: Part)
    requires part in parts && (forall e :: e in parts ==> e in all) && Separated(all, parts)
    requires Kept(part.1, parts, rest) && part !in rest
    requires Face(parts, part.1) - Face(rest, part.1) == Component(Face(parts, part.1), part.0)
    ensures forall x :: x in Component(Face(all, part.1), part.0) <==> (x, part.1) in parts && (x, part.1) !in rest
  {
    var d, q := part.1, part.0;
    var fa, fp := Face(all, d), Face(parts, d);
    FaceOf(parts, d, q);
    forall x | x in fp
      ensures x in fa
    {
      FaceOf(parts, d, x);
      FaceOf(all, d, x);
    }
    var t := fa - fp;
    forall x, y | x in t && y in fa && Adjacent(x, y)
      ensures y in t
    {
      FaceOf(all, d, x);
      FaceOf(parts, d, x);
      FaceOf(parts, d, y);
    }
    assert fa - t == fp;
    RemoveClosed(fa, t, q);
    forall x
      ensures x in Component(fa, q) <==> (x, d) in parts && (x, d) !in rest
    {
      FaceOf(parts, d, x);
      FaceOf(rest, d, x);
    }
  }

  /** No part still left neighbours, towards the same direction, a part taken away. */
  lemma FenceSeparated(all: seq<Part>, parts: seq<Part>, rest: seq<Part>, part: Part)
    requires part in parts && (forall e :: e in parts ==> e in all) && Separated(all, parts)
    requires Kept(part.1, parts, rest)
    requires forall x :: x in Component(Face(all, part.1), part.0) <==> (x, part.1) in parts && (x, part.1) !in rest
    ensures Separated(all, rest)
  {
    var d, q := part.1, part.0;
    var fa := Face(all, d);
    FaceOf(all, d, q);
    ComponentProps(fa, q);
    forall a, b | a in all && a !in rest && b in rest && a.1 == b.1
      ensures !Adjacent(a.0, b.0)
    {
      if a in parts {
        assert a.0 in Component(fa, q);
        FaceOf(all, d, b.0);
        assert b.0 !in Component(fa, q);
      }
    }
  }

  /** The popped part brings one new side, the one of every part taken away with it. */
  lemma FenceSides(all: seq<Part>, parts: seq<Part>, count: nat, sides: seq<(set<Vec2>, Vec2)>, rest: seq<Part>, part: Part)
    requires Distinct(all) && Fencing(all, parts, count, sides) && part in parts
    requires Kept(part.1, parts, rest) && Distinct(rest)
    requires forall x :: x in Component(Face(all, part.1), part.0) <==> (x, part.1) in parts && (x, part.1) !in rest
    ensures Distinct(sides + [SideOf(all, part)])
    ensures forall x :: x in sides + [SideOf(all, part)] <==> x in SidesFrom(all, rest)
  {
    var side := SideOf(all, part);
    forall k | 0 <= k < |sides|
      ensures sides[k] != side
    {
      assert sides[k] in sides;
      SideIsNew(all, parts, part, sides[k]);
    }
    var sides' := sides + [side];
    assert forall k :: 0 <= k < |sides| ==> sides'[k] == sides[k];
    forall x | x in SidesFrom(all, rest)
      ensures x in sides'
    {
      var e :| e in all && e !in rest && x == SideOf(all, e);
      if e in parts {
        SideOfTaken(all, parts, rest, part, e);
      } else {
        assert x in SidesFrom(all, parts);
      }
    }
    forall x | x in sides'
      ensures x in SidesFrom(all, rest)
    {
      if x in sides {
        var e :| e in all && e !in parts && x == SideOf(all, e);
      } else {
        assert part !in rest by {
          FaceOf(all, part.1, part.0);
          ComponentProps(Face(all, part.1), part.0);
        }
      }
    }
  }

  /** A side counted earlier belongs to a part taken away earlier, so it is not the popped part's side. */
  lemma SideIsNew(all: seq<Part>, parts: seq<Part>, part: Part, x: (set<Vec2>, Vec2))
    requires part in parts && (forall e :: e in parts ==> e in all) && Separated(all, parts)
    requires x in SidesFrom(all, parts)
    ensures x != SideOf(all, part)
  {
    var e :| e in all && e !in parts && x == SideOf(all, e);
    var d, q := part.1, part.0;
    if e.1 == d {
      var fa := Face(all, d);
      var t := fa - Face(parts, d);
      FaceOf(all, d, q);
      FaceOf(parts, d, q);
      FaceOf(all, d, e.0);
      FaceOf(parts, d, e.0);
      forall a, b | a in t && b in fa && Adjacent(a, b)
        ensures b in t
      {
        FaceOf(all, d, a);
        FaceOf(parts, d, a);
        FaceOf(parts, d, b);
      }
      ComponentWithin(fa, t, e.0);
      ComponentProps(fa, q);
    }
  }

  /** Every part taken away with the popped one has its side. */
  lemma SideOfTaken(all: seq<Part>, parts: seq<Part>, rest: seq<Part>, part: Part, e: Part)
    requires Kept(part.1, parts, rest) && e in parts && e !in rest
    requires forall x :: x in Component(Face(all, part.1), part.0) <==> (x, part.1) in parts && (x, part.1) !in rest
    ensures SideOf(all, e) == SideOf(all, part)
  {
    assert e.1 == part.1 && e.0 in Component(Face(all, part.1), part.0);
    ComponentSame(Face(all, part.1), part.0, e.0);
  }

  lemma FenceDone(all: seq<Part>, count: nat, sides: seq<(set<Vec2>, Vec2)>)
    requires Fencing(all, [], count, sides)
    ensures count <= |all|
    ensures Distinct(all) ==> count == |Sides(all)|
  {
    if Distinct(all) {
      DistinctCard(sides, Sides(all));
    }
  }

  /** A list without repetitions has as many elements as the set of them. */
  lemma {:induction false} DistinctCard<T>(xs: seq<T>, s: set<T>)
    requires Distinct(xs) && forall x :: x in xs <==> x in s
    ensures |xs| == |s|
  {
    if xs != [] {
      var last := xs[|xs| - 1];
      var init := xs[..|xs| - 1];
      forall x | x in init
        ensures x in s - {last}
      {
        var j :| 0 <= j < |init| && init[j] == x;
        assert xs[j] == x;
      }
      forall x | x in s - {last}
        ensures x in init
      {
        var j :| 0 <= j < |xs| && xs[j] == x;
        assert j < |xs| - 1 && init[j] == x;
      }
      DistinctCard(init, s - {last});
    }
  }

  /** Size times number of sides, summed over the groups. */
  ghost function SidesPrice(groups: seq<seq<Vec2>>): nat
  {
    if groups == [] then 0
    else SidesPrice(groups[..|groups| - 1]) + |groups[|groups| - 1]| * |Sides(FenceParts(groups[|groups| - 1]))|
  }

  /**
   * `process` after parsing: split the garden, then price each group by its
   * sides.
   */
  method Process(plants: map<Vec2, char>) returns (price: nat, ghost groups: seq<seq<Vec2>>)
    ensures forall k :: 0 <= k < |groups| ==> IsRegion(plants, groups[k])
    ensures Partition(groups, plants.Keys)
    ensures price == SidesPrice(groups) && price <= Price(groups)
  {
    var split := SplitIntoGroups(plants);
    groups := split;
    assert forall k :: 0 <= k < |split| ==> Distinct(split[k]);
    price := PriceBySides(split);
  }

  /**
   * The `map`/`sum` of `process`: size times `get_fence`, summed.  A side
   * merges at least one fence part, so this never exceeds the part 1 price
   * of the same groups.
   */
  method PriceBySides(groups: seq<seq<Vec2>>) returns (price: nat)
    ensures (forall k :: 0 <= k < |groups| ==> Distinct(groups[k])) ==> price == SidesPrice(groups)
    ensures price <= Price(groups)
  {
    price := 0;
    ghost var exact := true;
    for k := 0 to |groups|
      invariant exact == (forall j :: 0 <= j < k ==> Distinct(groups[j]))
      invariant exact ==> price == SidesPrice(groups[..k])
      invariant price <= Price(groups[..k])
    {
      var sides := GetFence(groups[k]);
      PriceStep(groups, k, sides);
      exact := exact && Distinct(groups[k]);
      price := price + |groups[k]| * sides;
    }
    assert groups[..|groups|] == groups;
  }

  lemma PriceStep(groups: seq<seq<Vec2>>, k: nat, sides: nat)
    requires k < |groups| && sides <= |FenceParts(groups[k])|
    requires Distinct(groups[k]) ==> sides == |Sides(FenceParts(groups[k]))|
    ensures Distinct(groups[k]) ==> SidesPrice(groups[..k + 1]) == SidesPrice(groups[..k]) + |groups[k]| * sides
    ensures Price(groups[..k + 1]) == Price(groups[..k]) + |groups[k]| * Perimeter(groups[k])
    ensures |groups[k]| * sides <= |groups[k]| * Perimeter(groups[k])
  {
    assert groups[..k + 1][..k] == groups[..k];
    FencePartsCount(groups[k]);
    MulMono(|groups[k]|, sides, Perimeter(groups[k]));
  }

  lemma MulMono(a: nat, b: nat, c: nat)
    requires b <= c
    ensures a * b <= a * c
  {
    assert a * c == a * b + a * (c - b);
  }
}
