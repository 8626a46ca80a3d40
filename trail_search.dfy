/**
 * 2024/day-10 part 1: on a height map, a hiking trail climbs by exactly one
 * per orthogonal step.  `search_path` explores from a trailhead round by
 * round and counts the height-9 cells it reaches; `process` sums that
 * score over every height-0 cell.
 */
module TrailSearch {
  datatype Vec2 = Vec2(x: int, y: int)

  const DIRECTIONS: seq<Vec2> := [Vec2(1, 0), Vec2(-1, 0), Vec2(0, 1), Vec2(0, -1)]

  function Add(a: Vec2, b: Vec2): Vec2
  {
    Vec2(a.x + b.x, a.y + b.y)
  }

  function Sub(a: Vec2, b: Vec2): Vec2
  {
    Vec2(a.x - b.x, a.y - b.y)
  }

  /** b is on the map and exactly one higher than a. */
  predicate Climbs(heights: map<Vec2, nat>, a: Vec2, b: Vec2)
  {
    a in heights && b in heights && heights[b] == heights[a] + 1
  }

  /** The `flat_map` of one round: neighbours one higher than a frontier cell, not yet seen and not in the frontier. */
  function Newer(heights: map<Vec2, nat>, visited: set<Vec2>, frontier: set<Vec2>): set<Vec2>
  {
    set l, d | l in frontier && d in DIRECTIONS && Add(l, d) !in visited && Add(l, d) !in frontier && Climbs(heights, l, Add(l, d)) :: Add(l, d)
  }

  /** Every neighbour one higher than a cell of s, with no cell excluded. */
  function Next(heights: map<Vec2, nat>, s: set<Vec2>): set<Vec2>
  {
    set l, d | l in s && d in DIRECTIONS && Climbs(heights, l, Add(l, d)) :: Add(l, d)
  }

  /** The cells n climbing steps from the start. */
  function Layer(heights: map<Vec2, nat>, start: Vec2, n: nat): set<Vec2>
  {
    if n == 0 then {start} else Next(heights, Layer(heights, start, n - 1))
  }

  /** The cells 1 to n climbing steps from the start. */
  function Upto(heights: map<Vec2, nat>, start: Vec2, n: nat): set<Vec2>
  {
    if n == 0 then {} else Upto(heights, start, n - 1) + Layer(heights, start, n)
  }

  /** The cells at least one climbing step from the start. */
  ghost function Reachable(heights: map<Vec2, nat>, start: Vec2): set<Vec2>
  {
    set p | p in heights.Keys && exists n: nat :: n >= 1 && p in Layer(heights, start, n)
  }

  /** The height-9 cells of s. */
  function Peaks(heights: map<Vec2, nat>, s: set<Vec2>): set<Vec2>
  {
    set p | p in s && p in heights && heights[p] == 9
  }

  /**
   * `search_path`: the number of height-9 cells reachable from `start` by
   * climbing steps.
   */
  method SearchPath(heights: map<Vec2, nat>, start: Vec2) returns (score: nat)
    requires start in heights
    ensures score == |Peaks(heights, Reachable(heights, start))|
  {
    var visited: set<Vec2> := {};
    var frontier: set<Vec2> := {start};
    ghost var r: nat := 0;
    while frontier != {}
      invariant frontier == Layer(heights, start, r) && visited == Upto(heights, start, r)
      decreases Unseen(heights, start, r), if frontier == {} then 0 else 1
    {
      var newer := Newer(heights, visited, frontier);
      Round(heights, start, r);
      visited := visited + newer;
      frontier := newer;
      r := r + 1;
    }
    ReachableIsUpto(heights, start, r);
    score := |Peaks(heights, visited)|;
  }

  ghost function Unseen(heights: map<Vec2, nat>, start: Vec2, r: nat): nat
  {
    |heights.Keys - Upto(heights, start, r)|
  }

  /** The trailheads: every height-0 cell. */
  function Trailheads(heights: map<Vec2, nat>): set<Vec2>
  {
    set p | p in heights && heights[p] == 0
  }

  /** The score of each trailhead of `order`, summed. */
  ghost function TotalScore(heights: map<Vec2, nat>, order: seq<Vec2>): nat
  {
    if order == [] then 0
    else TotalScore(heights, order[..|order| - 1]) + |Peaks(heights, Reachable(heights, order[|order| - 1]))|
  }

  /**
   * `process` after parsing: the scores of all trailheads summed, taken in
   * the ghost `order` the map happens to yield them, each exactly once.
   */
  method Process(heights: map<Vec2, nat>) returns (total: nat, ghost order: seq<Vec2>)
    ensures (forall p :: p in order <==> p in Trailheads(heights)) && |order| == |Trailheads(heights)|
    ensures total == TotalScore(heights, order)
  {
    var remaining := Trailheads(heights);
    total, order := 0, [];
    while remaining != {}
      invariant remaining <= Trailheads(heights)
      invariant forall p :: p in order <==> p in Trailheads(heights) - remaining
      invariant |order| + |remaining| == |Trailheads(heights)|
      invariant total == TotalScore(heights, order)
      decreases |remaining|
    {
      var p :| p in remaining;
      var score := SearchPath(heights, p);
      assert (order + [p])[..|order|] == order;
      total, order := total + score, order + [p];
      remaining := remaining - {p};
    }
  }

  // ---------------------------------------------------------------------
  // Properties

  /** One round of the loop: the next layer, the cells seen so far, and less left unseen when it is not empty. */
  lemma Round(heights: map<Vec2, nat>, start: Vec2, r: nat)
    requires start in heights
    ensures Newer(heights, Upto(heights, start, r), Layer(heights, start, r)) == Layer(heights, start, r + 1)
    ensures Upto(heights, start, r + 1) == Upto(heights, start, r) + Layer(heights, start, r + 1) <= heights.Keys
    ensures Layer(heights, start, r + 1) != {} ==> Unseen(heights, start, r + 1) < Unseen(heights, start, r)
  {
    LayerStep(heights, start, r);
    LayerOnMap(heights, start, r + 1);
    UptoHeights(heights, start, r);
    var newer := Layer(heights, start, r + 1);
    if newer != {} {
      Shrinks(heights.Keys, Upto(heights, start, r), newer);
    }
  }

  /** Seeing a non-empty set of unseen cells on the map leaves fewer unseen. */
  lemma Shrinks(keys: set<Vec2>, visited: set<Vec2>, newer: set<Vec2>)
    requires newer <= keys && newer != {} && newer * visited == {}
    ensures |keys - (visited + newer)| < |keys - visited|
  {
    var p :| p in newer;
    var smaller := (keys - visited) - {p};
    assert keys - (visited + newer) <= smaller;
    SubsetCard(keys - (visited + newer), smaller);
    assert |smaller| == |keys - visited| - 1;
  }

  lemma SubsetCard<T>(a: set<T>, b: set<T>)
    requires a <= b
    ensures |a| <= |b|
  {
    assert b == a + (b - a);
    assert a * (b - a) == {};
  }

  /** Layer n lies on the map at height n above the start. */
  lemma {:induction false} LayerHeights(heights: map<Vec2, nat>, start: Vec2, n: nat)
    requires start in heights
    ensures forall p :: p in Layer(heights, start, n) ==> p in heights && heights[p] == heights[start] + n
  {
    if n > 0 {
      LayerHeights(heights, start, n - 1);
    }
  }

  lemma LayerOnMap(heights: map<Vec2, nat>, start: Vec2, n: nat)
    requires start in heights
    ensures Layer(heights, start, n) <= heights.Keys
  {
    LayerHeights(heights, start, n);
  }

  /** The cells 1 to n steps away stand 1 to n above the start. */
  lemma {:induction false} UptoHeights(heights: map<Vec2, nat>, start: Vec2, n: nat)
    requires start in heights
    ensures forall p :: p in Upto(heights, start, n) ==> p in heights && heights[start] < heights[p] <= heights[start] + n
  {
    if n > 0 {
      UptoHeights(heights, start, n - 1);
      LayerHeights(heights, start, n);
    }
  }

  /** Filtering out seen and frontier cells loses nothing: a round yields exactly the next layer. */
  lemma LayerStep(heights: map<Vec2, nat>, start: Vec2, n: nat)
    requires start in heights
    ensures Newer(heights, Upto(heights, start, n), Layer(heights, start, n)) == Layer(heights, start, n + 1)
  {
    var visited, frontier := Upto(heights, start, n), Layer(heights, start, n);
    LayerHeights(heights, start, n);
    LayerHeights(heights, start, n + 1);
    UptoHeights(heights, start, n);
    forall p | p in Layer(heights, start, n + 1)
      ensures p in Newer(heights, visited, frontier)
    {
      var l, d :| l in frontier && d in DIRECTIONS && Climbs(heights, l, Add(l, d)) && Add(l, d) == p;
      assert p !in visited && p !in frontier;
    }
  }

  /** Once a layer is empty, so is every later one. */
  lemma {:induction false} EmptyStays(heights: map<Vec2, nat>, start: Vec2, r: nat, n: nat)
    requires Layer(heights, start, r) == {} && n >= r
    ensures Layer(heights, start, n) == {}
    decreases n
  {
    if n > r {
      EmptyStays(heights, start, r, n - 1);
    }
  }

  /** A cell of layer k, for 1 <= k <= n, is within n steps. */
  lemma {:induction false} LayerInUpto(heights: map<Vec2, nat>, start: Vec2, n: nat, k: nat, p: Vec2)
    requires 1 <= k <= n && p in Layer(heights, start, k)
    ensures p in Upto(heights, start, n)
  {
    if k < n {
      LayerInUpto(heights, start, n - 1, k, p);
    }
  }

  /** A cell within n steps lies in one of the layers 1 to n. */
  lemma {:induction false} UptoInLayer(heights: map<Vec2, nat>, start: Vec2, n: nat, p: Vec2) returns (k: nat)
    requires p in Upto(heights, start, n)
    ensures 1 <= k <= n && p in Layer(heights, start, k)
  {
    if p in Layer(heights, start, n) {
      k := n;
    } else {
      k := UptoInLayer(heights, start, n - 1, p);
    }
  }

  /** With layer r empty, the loop has seen every reachable cell. */
  lemma ReachableIsUpto(heights: map<Vec2, nat>, start: Vec2, r: nat)
    requires start in heights && Layer(heights, start, r) == {}
    ensures Reachable(heights, start) == Upto(heights, start, r)
  {
    UptoHeights(heights, start, r);
    forall p | p in Reachable(heights, start)
      ensures p in Upto(heights, start, r)
    {
      var n: nat :| n >= 1 && p in Layer(heights, start, n);
      if n >= r {
        EmptyStays(heights, start, r, n);
        assert false;
      }
      LayerInUpto(heights, start, r, n, p);
    }
    forall p | p in Upto(heights, start, r)
      ensures p in Reachable(heights, start)
    {
      var k := UptoInLayer(heights, start, r, p);
    }
  }

  /** From a height-0 trailhead, the score counts exactly the cells nine climbing steps away. */
  lemma TrailheadScore(heights: map<Vec2, nat>, start: Vec2)
    requires start in heights && heights[start] == 0
    ensures Peaks(heights, Reachable(heights, start)) == Layer(heights, start, 9)
  {
    LayerHeights(heights, start, 9);
    forall p | p in Peaks(heights, Reachable(heights, start))
      ensures p in Layer(heights, start, 9)
    {
      var n: nat :| n >= 1 && p in Layer(heights, start, n);
      LayerHeights(heights, start, n);
    }
  }

  /** One step of a hiking trail: to an orthogonal neighbour exactly one higher. */
  predicate TrailStep(heights: map<Vec2, nat>, a: Vec2, b: Vec2)
  {
    Sub(b, a) in DIRECTIONS && Climbs(heights, a, b)
  }

  /** A hiking trail: every consecutive pair of cells is a trail step. */
  predicate Hike(heights: map<Vec2, nat>, path: seq<Vec2>)
  {
    forall i :: 0 <= i < |path| - 1 ==> TrailStep(heights, path[i], path[i + 1])
  }

  /** Layer n holds exactly the ends of the hiking trails of n steps from the start. */
  lemma LayerIsHikes(heights: map<Vec2, nat>, start: Vec2, n: nat, p: Vec2)
    ensures p in Layer(heights, start, n) <==>
      exists path :: |path| == n + 1 && path[0] == start && path[n] == p && Hike(heights, path)
  {
    if p in Layer(heights, start, n) {
      LayerHasHike(heights, start, n, p);
    }
    if path :| |path| == n + 1 && path[0] == start && path[n] == p && Hike(heights, path) {
      HikeInLayer(heights, start, path);
    }
  }

  lemma {:induction false} LayerHasHike(heights: map<Vec2, nat>, start: Vec2, n: nat, p: Vec2)
    requires p in Layer(heights, start, n)
    ensures exists path :: |path| == n + 1 && path[0] == start && path[n] == p && Hike(heights, path)
  {
    if n == 0 {
      assert [start][0] == start && Hike(heights, [start]);
    } else {
      var l, d :| l in Layer(heights, start, n - 1) && d in DIRECTIONS && Climbs(heights, l, Add(l, d)) && Add(l, d) == p;
      LayerHasHike(heights, start, n - 1, l);
      var path :| |path| == n && path[0] == start && path[n - 1] == l && Hike(heights, path);
      var longer := path + [p];
      assert Sub(p, l) == d;
      assert forall i :: 0 <= i < n ==> longer[i] == path[i];
      assert TrailStep(heights, longer[n - 1], longer[n]);
      assert Hike(heights, longer);
    }
  }

  lemma {:induction false} HikeInLayer(heights: map<Vec2, nat>, start: Vec2, path: seq<Vec2>)
    requires |path| >= 1 && path[0] == start && Hike(heights, path)
    ensures path[|path| - 1] in Layer(heights, start, |path| - 1)
  {
    var n := |path| - 1;
    if n > 0 {
      var l, p := path[n - 1], path[n];
      var shorter := path[..n];
      assert Hike(heights, shorter);
      HikeInLayer(heights, start, shorter);
      assert TrailStep(heights, l, p);
      var d := Sub(p, l);
      assert Add(l, d) == p;
    }
  }
}
