/**
 * 2024/day-12 part 1: the garden map is split into regions, each the
 * orthogonally connected cells of one plant, by repeatedly flooding from an
 * arbitrary remaining cell and removing what the flood collects.  A region
 * costs its size times its perimeter.  The day-12 part 2 file carries the
 * same `split_into_groups` and `collect_groups`.
 */
module GardenGroups {
  import opened Adjacency

  /** Every key of a is a key of b with the same plant. */
  predicate SubMap(a: map<Vec2, char>, b: map<Vec2, char>)
  {
    a.Keys <= b.Keys && forall p :: p in a ==> a[p] == b[p]
  }

  /** The cells holding plant c. */
  function Cells(plants: map<Vec2, char>, c: char): set<Vec2>
  {
    set p | p in plants && plants[p] == c
  }

  predicate Distinct<T(==)>(s: seq<T>)
  {
    forall i, j :: 0 <= i < j < |s| ==> s[i] != s[j]
  }

  /**
   * grown is group followed by the cells of r, each once: what
   * `collect_groups` pushes onto its `group`.
   */
  ghost predicate Extends(group: seq<Vec2>, grown: seq<Vec2>, r: set<Vec2>)
  {
    |grown| >= |group| && grown[..|group|] == group &&
    Distinct(grown[|group|..]) && forall p :: p in grown[|group|..] <==> p in r
  }

  /**
   * `collect_groups`: removes from `plants` the region of plant c around
   * pos (nothing when pos holds another plant or none) and appends its
   * cells to `group`, each once.
   */
  method CollectGroups(pos: Vec2, c: char, plants: map<Vec2, char>, group: seq<Vec2>)
    returns (left: map<Vec2, char>, grown: seq<Vec2>)
    ensures SubMap(left, plants) && plants.Keys - left.Keys == Component(Cells(plants, c), pos)
    ensures Extends(group, grown, plants.Keys - left.Keys)
    ensures pos in plants && plants[pos] == c ==> |grown| > |group| && grown[|group|] == pos
    decreases |plants.Keys|
  {
    if pos in plants && plants[pos] == c {
      left := plants - {pos};
      grown := group + [pos];
      CollectStart(pos, c, plants, group);
      for i := 0 to 4
        invariant Collecting(pos, c, plants, group, i, left, grown)
      {
        CollectingSmaller(pos, c, plants, group, i, left, grown);
        var left', grown' := CollectGroups(Add(pos, DIRS[i]), c, left, grown);
        CollectStep(pos, c, plants, group, i, left, grown, left', grown');
        left, grown := left', grown';
      }
      CollectDone(pos, c, plants, group, left, grown);
    } else {
      left, grown := plants, group;
      ComponentOutside(Cells(plants, c), pos);
      assert grown[|group|..] == [];
    }
  }

  /** The loop of `collect_groups` after the directions before i. */
  ghost predicate Collecting(pos: Vec2, c: char, plants: map<Vec2, char>, group: seq<Vec2>, i: nat,
                             left: map<Vec2, char>, grown: seq<Vec2>)
  {
    SubMap(left, plants) && pos !in left && |grown| > |group| && grown[|group|] == pos &&
    Flooding(Cells(plants, c), pos, i, plants.Keys - left.Keys) && Extends(group, grown, plants.Keys - left.Keys)
  }

  lemma CollectStart(pos: Vec2, c: char, plants: map<Vec2, char>, group: seq<Vec2>)
    requires pos in plants && plants[pos] == c
    ensures Collecting(pos, c, plants, group, 0, plants - {pos}, group + [pos])
  {
    FloodStart(Cells(plants, c), pos);
    assert plants.Keys - (plants - {pos}).Keys == {pos};
    assert (group + [pos])[|group|..] == [pos];
  }

  lemma CollectingSmaller(pos: Vec2, c: char, plants: map<Vec2, char>, group: seq<Vec2>, i: nat,
                          left: map<Vec2, char>, grown: seq<Vec2>)
    requires Collecting(pos, c, plants, group, i, left, grown)
    ensures |left.Keys| < |plants.Keys|
  {
    assert pos in plants;
    SubsetCard(left.Keys, plants.Keys - {pos});
  }

  /** Flooding the neighbour in direction i keeps the loop's invariant for i + 1. */
  lemma CollectStep(pos: Vec2, c: char, plants: map<Vec2, char>, group: seq<Vec2>, i: nat,
                    left: map<Vec2, char>, grown: seq<Vec2>, left': map<Vec2, char>, grown': seq<Vec2>)
    requires i < 4 && Collecting(pos, c, plants, group, i, left, grown)
    requires SubMap(left', left) && left.Keys - left'.Keys == Component(Cells(left, c), Add(pos, DIRS[i]))
    requires Extends(grown, grown', left.Keys - left'.Keys)
    ensures Collecting(pos, c, plants, group, i + 1, left', grown')
  {
    var d, r := plants.Keys - left.Keys, left.Keys - left'.Keys;
    CellsOfSubMap(plants, left, c);
    FloodStep(Cells(plants, c), pos, i, d, r);
    Appended(group, grown, grown', d, r);
    assert grown'[|group|] == grown'[..|grown|][|group|];
    assert plants.Keys - left'.Keys == d + r;
  }

  lemma CollectDone(pos: Vec2, c: char, plants: map<Vec2, char>, group: seq<Vec2>, left: map<Vec2, char>, grown: seq<Vec2>)
    requires Collecting(pos, c, plants, group, 4, left, grown)
    ensures SubMap(left, plants) && plants.Keys - left.Keys == Component(Cells(plants, c), pos)
    ensures Extends(group, grown, plants.Keys - left.Keys)
  {
    FloodDone(Cells(plants, c), pos, plants.Keys - left.Keys);
  }

  /** What a map keeps of the cells of plant c is those cells less what it lost. */
  lemma CellsOfSubMap(plants: map<Vec2, char>, sub: map<Vec2, char>, c: char)
    requires SubMap(sub, plants)
    ensures Cells(sub, c) == Cells(plants, c) - (plants.Keys - sub.Keys)
  {
  }

  lemma SubsetCard<T>(a: set<T>, b: set<T>)
    requires a <= b
    ensures |a| <= |b|
  {
    assert b == a + (b - a);
    assert a * (b - a) == {};
  }

  /** Appending distinct new cells, all outside the earlier ones, keeps the tail distinct. */
  lemma Appended(group: seq<Vec2>, had: seq<Vec2>, grown: seq<Vec2>, d: set<Vec2>, r: set<Vec2>)
    requires Extends(group, had, d) && Extends(had, grown, r) && d * r == {}
    ensures Extends(group, grown, d + r)
  {
    var old_tail, new_tail, tail := had[|group|..], grown[|had|..], grown[|group|..];
    assert tail == old_tail + new_tail;
    assert grown[..|group|] == had[..|group|];
    forall i, j | 0 <= i < j < |tail|
      ensures tail[i] != tail[j]
    {
      if j < |old_tail| {
        assert tail[i] == old_tail[i] && tail[j] == old_tail[j];
        assert old_tail[i] != old_tail[j];
      } else if i < |old_tail| {
        assert tail[i] == old_tail[i] && old_tail[i] in old_tail;
        assert tail[i] in d;
        assert tail[j] == new_tail[j - |old_tail|] && new_tail[j - |old_tail|] in new_tail;
        assert tail[j] in r;
        assert tail[i] !in d * r;
      } else {
        assert tail[i] == new_tail[i - |old_tail|] && tail[j] == new_tail[j - |old_tail|];
        assert new_tail[i - |old_tail|] != new_tail[j - |old_tail|];
      }
    }
  }

  /**
   * The cells removed so far form whole regions: no remaining cell next to
   * one of them holds the same plant.
   */
  ghost predicate WholeRegions(plants: map<Vec2, char>, d: set<Vec2>)
  {
    d <= plants.Keys &&
    forall x, y :: x in d && y in plants && y !in d && Adjacent(x, y) ==> plants[y] != plants[x]
  }

  /** g lists, each once, the cells of the region of the plant of its first cell. */
  ghost predicate IsRegion(plants: map<Vec2, char>, g: seq<Vec2>)
  {
    |g| > 0 && Distinct(g) && g[0] in plants &&
    forall p :: p in g <==> p in Component(Cells(plants, plants[g[0]]), g[0])
  }

  /** The groups hold the cells of d, each in exactly one group. */
  ghost predicate Partition(groups: seq<seq<Vec2>>, d: set<Vec2>)
  {
    (forall p :: p in d <==> exists k :: 0 <= k < |groups| && p in groups[k]) &&
    forall k, l, p :: 0 <= k < l < |groups| && p in groups[k] ==> p !in groups[l]
  }

  /** The loop of `split_into_groups`: the groups so far are whole regions partitioning the removed cells. */
  ghost predicate Splitting(plants: map<Vec2, char>, left: map<Vec2, char>, groups: seq<seq<Vec2>>)
  {
    SubMap(left, plants) && WholeRegions(plants, plants.Keys - left.Keys) &&
    (forall k :: 0 <= k < |groups| ==> IsRegion(plants, groups[k])) && Partition(groups, plants.Keys - left.Keys)
  }

  /**
   * `split_into_groups`: floods from some remaining cell until none is
   * left.  Each group is the region of the plant of its first cell, and
   * together the groups hold every cell exactly once.
   */
  method SplitIntoGroups(plants: map<Vec2, char>) returns (groups: seq<seq<Vec2>>)
    ensures forall k :: 0 <= k < |groups| ==> IsRegion(plants, groups[k])
    ensures Partition(groups, plants.Keys)
  {
    var left := plants;
    groups := [];
    while left != map[]
      invariant Splitting(plants, left, groups)
      decreases |left.Keys|
    {
      var pos :| pos in left;
      var left', group := CollectGroups(pos, left[pos], left, []);
      assert group[0..] == group;
      SplitStep(plants, left, groups, pos, left', group);
      left, groups := left', groups + [group];
    }
    assert plants.Keys - left.Keys == plants.Keys;
  }

  /** Collecting the region of a remaining cell keeps the loop's invariant and shrinks the map. */
  lemma SplitStep(plants: map<Vec2, char>, left: map<Vec2, char>, groups: seq<seq<Vec2>>, pos: Vec2,
                  left': map<Vec2, char>, group: seq<Vec2>)
    requires Splitting(plants, left, groups) && pos in left
    requires SubMap(left', left) && left.Keys - left'.Keys == Component(Cells(left, left[pos]), pos)
    requires Extends([], group, left.Keys - left'.Keys) && |group| > 0 && group[0] == pos
    ensures Splitting(plants, left', groups + [group]) && |left'.Keys| < |left.Keys|
  {
    var c, r := left[pos], left.Keys - left'.Keys;
    var d := plants.Keys - left.Keys;
    NewRegion(plants, left, pos, r, group);
    RegionsGrow(plants, left, r, c, pos);
    KeysShrink(plants, left, left', pos);
    PartitionGrows(groups, d, group, r);
    RegionsAppend(plants, groups, group);
  }

  /** Removing pos and more from a sub-map of the garden: the removed cells add up and the map shrinks. */
  lemma KeysShrink(plants: map<Vec2, char>, left: map<Vec2, char>, left': map<Vec2, char>, pos: Vec2)
    requires SubMap(left, plants) && SubMap(left', left) && pos in left && pos !in left'
    ensures SubMap(left', plants) && |left'.Keys| < |left.Keys|
    ensures plants.Keys - left'.Keys == (plants.Keys - left.Keys) + (left.Keys - left'.Keys)
    ensures (plants.Keys - left.Keys) * (left.Keys - left'.Keys) == {}
  {
    SubsetCard(left'.Keys, left.Keys - {pos});
  }

  lemma RegionsAppend(plants: map<Vec2, char>, groups: seq<seq<Vec2>>, group: seq<Vec2>)
    requires (forall k :: 0 <= k < |groups| ==> IsRegion(plants, groups[k])) && IsRegion(plants, group)
    ensures forall k :: 0 <= k < |groups + [group]| ==> IsRegion(plants, (groups + [group])[k])
  {
    var groups' := groups + [group];
    assert forall k :: 0 <= k < |groups| ==> groups'[k] == groups[k];
  }

  /** The collected group is the region of its first cell in the whole garden. */
  lemma NewRegion(plants: map<Vec2, char>, left: map<Vec2, char>, pos: Vec2, r: set<Vec2>, group: seq<Vec2>)
    requires SubMap(left, plants) && WholeRegions(plants, plants.Keys - left.Keys) && pos in left
    requires r == Component(Cells(left, left[pos]), pos)
    requires Extends([], group, r) && |group| > 0 && group[0] == pos
    ensures IsRegion(plants, group)
  {
    SameRegion(plants, left, pos);
    ComponentProps(Cells(left, left[pos]), pos);
    assert group[0..] == group;
  }

  lemma PartitionGrows(groups: seq<seq<Vec2>>, d: set<Vec2>, group: seq<Vec2>, r: set<Vec2>)
    requires Partition(groups, d) && d * r == {} && forall p :: p in group <==> p in r
    ensures Partition(groups + [group], d + r)
  {
    var groups' := groups + [group];
    assert forall k :: 0 <= k < |groups| ==> groups'[k] == groups[k];
    assert groups'[|groups|] == group;
    forall k, l, p | 0 <= k < l < |groups'| && p in groups'[k]
      ensures p !in groups'[l]
    {
      if l == |groups| {
        assert p in d;
        assert p !in d * r;
      }
    }
    forall p | p in d + r
      ensures exists k :: 0 <= k < |groups'| && p in groups'[k]
    {
      if p in r {
        assert p in groups'[|groups|];
      }
    }
  }

  /** The region of a remaining cell is the same in the remaining map as in the whole garden. */
  lemma SameRegion(plants: map<Vec2, char>, left: map<Vec2, char>, pos: Vec2)
    requires SubMap(left, plants) && WholeRegions(plants, plants.Keys - left.Keys) && pos in left
    ensures Component(Cells(left, left[pos]), pos) == Component(Cells(plants, plants[pos]), pos)
  {
    var c, d := plants[pos], plants.Keys - left.Keys;
    var s := Cells(plants, c);
    CellsOfSubMap(plants, left, c);
    forall x, y | x in d * s && y in s && Adjacent(x, y)
      ensures y in d * s
    {
    }
    assert Cells(left, c) == s - d * s;
    RemoveClosed(s, d * s, pos);
  }

  /** Removing one more whole region keeps the removed cells whole regions. */
  lemma RegionsGrow(plants: map<Vec2, char>, left: map<Vec2, char>, r: set<Vec2>, c: char, pos: Vec2)
    requires SubMap(left, plants) && WholeRegions(plants, plants.Keys - left.Keys)
    requires pos in left && c == left[pos] && r == Component(Cells(left, c), pos)
    ensures WholeRegions(plants, (plants.Keys - left.Keys) + r)
  {
    ComponentProps(Cells(left, c), pos);
    var d := plants.Keys - left.Keys;
    forall x, y | x in d + r && y in plants && y !in d + r && Adjacent(x, y)
      ensures plants[y] != plants[x]
    {
      if x in r {
        assert y !in Cells(left, c);
      }
    }
  }

  /** The number of directions from p whose neighbour is not in the group. */
  function OpenSides(group: seq<Vec2>, p: Vec2, dirs: seq<Vec2>): nat
  {
    if dirs == [] then 0
    else OpenSides(group, p, dirs[..|dirs| - 1]) + if Add(p, dirs[|dirs| - 1]) in group then 0 else 1
  }

  /** The open sides of the cells of `cells`, each judged against `group`, summed. */
  function OpenSum(group: seq<Vec2>, cells: seq<Vec2>): nat
  {
    if cells == [] then 0 else OpenSum(group, cells[..|cells| - 1]) + OpenSides(group, cells[|cells| - 1], DIRS)
  }

  /** `get_perimeter`: the open sides of every cell of the group, summed. */
  function Perimeter(group: seq<Vec2>): nat
  {
    OpenSum(group, group)
  }

  /** `process` after parsing: size times perimeter, summed over the groups. */
  function Price(groups: seq<seq<Vec2>>): nat
  {
    if groups == [] then 0 else Price(groups[..|groups| - 1]) + |groups[|groups| - 1]| * Perimeter(groups[|groups| - 1])
  }

  /** `process` after parsing: split the garden, then price the groups. */
  method Process(plants: map<Vec2, char>) returns (price: nat, ghost groups: seq<seq<Vec2>>)
    ensures forall k :: 0 <= k < |groups| ==> IsRegion(plants, groups[k])
    ensures Partition(groups, plants.Keys)
    ensures price == Price(groups)
  {
    var split := SplitIntoGroups(plants);
    groups := split;
    price := Price(split);
  }

  // ---------------------------------------------------------------------
  // Properties

  /** A cell has at most as many open sides as directions looked at. */
  lemma {:induction false} OpenSidesBound(group: seq<Vec2>, p: Vec2, dirs: seq<Vec2>)
    ensures OpenSides(group, p, dirs) <= |dirs|
  {
    if dirs != [] {
      OpenSidesBound(group, p, dirs[..|dirs| - 1]);
    }
  }

  lemma {:induction false} OpenSumBound(group: seq<Vec2>, cells: seq<Vec2>)
    ensures OpenSum(group, cells) <= 4 * |cells|
  {
    if cells != [] {
      OpenSumBound(group, cells[..|cells| - 1]);
      OpenSidesBound(group, cells[|cells| - 1], DIRS);
    }
  }

  /** The perimeter is at most four per cell. */
  lemma PerimeterBound(group: seq<Vec2>)
    ensures Perimeter(group) <= 4 * |group|
  {
    OpenSumBound(group, group);
  }
}
