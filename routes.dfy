/**
 * 2015/day-09 part 2: a map of distances between cities, and the longest
 * (or, with `min`, the shortest) route that visits every city once.
 *
 * `RouteMap` keeps the source's nested map, written by `AddRoute`.  The
 * rest reads it: `Distance`, `PathLength` and `FindPathLength`, which runs
 * over `Permutations` of the cities in whatever order the map lists them.
 * `FindPathLengthIs` proves that result is the best over every ordering
 * of the cities, so the listing order does not matter.
 */
module Routes {
  import opened Wrappers

  /** `routes`: for each city, the distance to each city a route reaches. */
  type Table = map<string, map<string, nat>>

  /** `get_distance`. */
  function Distance(routes: Table, from: string, to: string): (r: Option<nat>)
    ensures r.Some? <==> from in routes && to in routes[from]
  {
    if from in routes && to in routes[from] then Some(routes[from][to]) else None
  }

  /** The inner map of `from`, empty when `entry(..).or_default()` would create it. */
  function Inner(routes: Table, from: string): map<string, nat>
  {
    if from in routes then routes[from] else map[]
  }

  /**
   * The table after `add_route(from, to, distance)`: both directions hold
   * the distance, every other pair keeps its value, and both cities
   * become keys.
   */
  function WithRoute(routes: Table, from: string, to: string, distance: nat): (r: Table)
    ensures Distance(r, from, to) == Some(distance) && Distance(r, to, from) == Some(distance)
    ensures forall a, b :: !(a == from && b == to) && !(a == to && b == from) ==> Distance(r, a, b) == Distance(routes, a, b)
    ensures r.Keys == routes.Keys + {from, to}
  {
    var first := routes[from := Inner(routes, from)[to := distance]];
    first[to := Inner(first, to)[from := distance]]
  }

  /** Every recorded distance is recorded the same both ways. */
  ghost predicate Symmetric(routes: Table)
  {
    forall a, b :: Distance(routes, a, b) == Distance(routes, b, a)
  }

  /** The table `parse` builds from the route lines, one `add_route` each. */
  function Built(lines: seq<(string, string, nat)>): Table
  {
    if lines == [] then map[]
    else
      var l := lines[|lines| - 1];
      WithRoute(Built(lines[..|lines| - 1]), l.0, l.1, l.2)
  }

  /** The cities of the built map are exactly the ends of the lines, and every distance is recorded both ways. */
  lemma BuiltIs(lines: seq<(string, string, nat)>)
    ensures forall c :: c in Built(lines).Keys <==> exists i :: 0 <= i < |lines| && (lines[i].0 == c || lines[i].1 == c)
    ensures Symmetric(Built(lines))
  {
    BuiltCities(lines);
    BuiltSymmetric(lines);
  }

  lemma {:induction false} BuiltCities(lines: seq<(string, string, nat)>)
    ensures forall c :: c in Built(lines).Keys <==> exists i :: 0 <= i < |lines| && (lines[i].0 == c || lines[i].1 == c)
  {
    if lines != [] {
      var init, l := lines[..|lines| - 1], lines[|lines| - 1];
      BuiltCities(init);
      assert lines == init + [l];
      CitiesStep(init, l, Built(init).Keys, Built(lines).Keys);
    }
  }

  /** One more line adds its two ends to the cities. */
  lemma CitiesStep(init: seq<(string, string, nat)>, l: (string, string, nat), before: set<string>, after: set<string>)
    requires forall c :: c in before <==> exists i :: 0 <= i < |init| && (init[i].0 == c || init[i].1 == c)
    requires after == before + {l.0, l.1}
    ensures forall c :: c in after <==> exists i :: 0 <= i < |init + [l]| && ((init + [l])[i].0 == c || (init + [l])[i].1 == c)
  {
    var lines := init + [l];
    forall c
      ensures c in after <==> exists i :: 0 <= i < |lines| && (lines[i].0 == c || lines[i].1 == c)
    {
      if c == l.0 || c == l.1 {
        assert lines[|lines| - 1] == l;
      } else if c in before {
        var i :| 0 <= i < |init| && (init[i].0 == c || init[i].1 == c);
        assert lines[i] == init[i];
      }
    }
  }

  lemma {:induction false} BuiltSymmetric(lines: seq<(string, string, nat)>)
    ensures Symmetric(Built(lines))
  {
    if lines != [] {
      var init, l := lines[..|lines| - 1], lines[|lines| - 1];
      BuiltSymmetric(init);
      WithRouteSymmetric(Built(init), l.0, l.1, l.2);
    }
  }

  /** Recording one route keeps every distance the same both ways. */
  lemma WithRouteSymmetric(routes: Table, from: string, to: string, distance: nat)
    requires Symmetric(routes)
    ensures Symmetric(WithRoute(routes, from, to, distance))
  {
    var r := WithRoute(routes, from, to, distance);
    forall a, b
      ensures Distance(r, a, b) == Distance(r, b, a)
    {
      assert Distance(routes, a, b) == Distance(routes, b, a);
    }
  }

  /** The route table, written in place by `add_route`. */
  class RouteMap {
    var routes: Table

    /** `RouteMap::new`: no routes. */
    constructor ()
      ensures routes == map[]
    {
      routes := map[];
    }

    /** `add_route`: both directions get the distance; nothing else changes. */
    method AddRoute(from: string, to: string, distance: nat)
      modifies this
      ensures routes == WithRoute(old(routes), from, to, distance)
      ensures Symmetric(old(routes)) ==> Symmetric(routes)
    {
      var forward := Inner(routes, from);
      routes := routes[from := forward[to := distance]];
      var backward := Inner(routes, to);
      routes := routes[to := backward[from := distance]];
    }
  }

  // ---------------------------------------------------------------------
  // Path lengths

  /** The sum of the first k legs of the path, or None if one of them has no route. */
  function Legs(routes: Table, path: seq<string>, k: nat): Option<nat>
    requires k < |path|
  {
    if k == 0 then Some(0)
    else match (Legs(routes, path, k - 1), Distance(routes, path[k - 1], path[k]))
      case (Some(total), Some(d)) => Some(total + d)
      case _ => None
  }

  /** `calculate_path_length`: the legs summed over `windows(2)`, None as soon as one is missing. */
  function PathLength(routes: Table, path: seq<string>): Option<nat>
  {
    if |path| < 2 then Some(0) else Legs(routes, path, |path| - 1)
  }

  lemma {:induction false} LegsDefined(routes: Table, path: seq<string>, k: nat)
    requires k < |path|
    ensures Legs(routes, path, k).Some? <==> forall i :: 0 <= i < k ==> Distance(routes, path[i], path[i + 1]).Some?
  {
    if k > 0 {
      LegsDefined(routes, path, k - 1);
    }
  }

  /** A path has a length iff every leg has a route; a single city is a path of length 0. */
  lemma PathLengthDefined(routes: Table, path: seq<string>)
    ensures PathLength(routes, path).Some? <==> forall i :: 0 <= i < |path| - 1 ==> Distance(routes, path[i], path[i + 1]).Some?
    ensures |path| < 2 ==> PathLength(routes, path) == Some(0)
  {
    if |path| >= 2 {
      LegsDefined(routes, path, |path| - 1);
    }
  }

  function Reverse<T>(s: seq<T>): (r: seq<T>)
    ensures |r| == |s| && forall i :: 0 <= i < |s| ==> r[i] == s[|s| - 1 - i]
  {
    if s == [] then [] else Reverse(s[1..]) + [s[0]]
  }

  /** The first k legs of the reversed path are the last k legs of the path, walked back. */
  lemma {:induction false} LegsReversed(routes: Table, path: seq<string>, k: nat)
    requires Symmetric(routes) && k < |path|
    ensures match (Legs(routes, Reverse(path), k), Legs(routes, path, |path| - 1))
      case (Some(back), Some(total)) =>
        var rest := Legs(routes, path, |path| - 1 - k);
        rest.Some? && back + rest.value == total
      case (None, Some(_)) => false
      case _ => true
  {
    var n := |path|;
    var rev := Reverse(path);
    if k > 0 {
      LegsReversed(routes, path, k - 1);
      assert Distance(routes, rev[k - 1], rev[k]) == Distance(routes, path[n - k], path[n - 1 - k]);
      assert Distance(routes, path[n - 1 - k], path[n - k]) == Distance(routes, path[n - k], path[n - 1 - k]);
    }
  }

  /** Walking a path backwards costs the same on a table whose distances go both ways. */
  lemma ReversedLength(routes: Table, path: seq<string>)
    requires Symmetric(routes)
    ensures PathLength(routes, Reverse(path)) == PathLength(routes, path)
  {
    var n := |path|;
    if n >= 2 {
      LegsReversed(routes, path, n - 1);
      LegsReversed(routes, Reverse(path), n - 1);
      assert Reverse(Reverse(path)) == path;
    }
  }

  // ---------------------------------------------------------------------
  // Every ordering of the cities

  /** s without its entry at i. */
  function Remove<T>(s: seq<T>, i: nat): (r: seq<T>)
    requires i < |s|
    ensures |r| == |s| - 1
  {
    s[..i] + s[i + 1..]
  }

  function Prepend<T>(x: T, ps: seq<seq<T>>): (r: seq<seq<T>>)
    ensures |r| == |ps| && forall k :: 0 <= k < |ps| ==> r[k] == [x] + ps[k]
  {
    seq(|ps|, k requires 0 <= k < |ps| => [x] + ps[k])
  }

  /** x is one of ps with `y` put in front. */
  lemma PrependIn<T>(y: T, ps: seq<seq<T>>, x: seq<T>)
    ensures x in Prepend(y, ps) <==> |x| > 0 && x[0] == y && x[1..] in ps
  {
    if |x| > 0 && x[0] == y && x[1..] in ps {
      var k :| 0 <= k < |ps| && ps[k] == x[1..];
      assert Prepend(y, ps)[k] == x;
    }
  }

  /**
   * `permutations(len)` of itertools: each entry first, then every
   * ordering of the others (the same order itertools hands them out).
   */
  function Permutations<T>(s: seq<T>): seq<seq<T>>
    decreases |s|, 1, 0
  {
    if s == [] then [[]] else StartingFrom(s, 0)
  }

  /** The permutations whose first entry is s[j] for some j >= i. */
  function StartingFrom<T>(s: seq<T>, i: nat): seq<seq<T>>
    requires i <= |s|
    decreases |s|, 0, |s| - i
  {
    if i == |s| then [] else Prepend(s[i], Permutations(Remove(s, i))) + StartingFrom(s, i + 1)
  }

  lemma {:induction false} StartingFromIn<T>(s: seq<T>, i: nat, x: seq<T>)
    requires i <= |s|
    ensures x in StartingFrom(s, i) <==> exists j :: i <= j < |s| && |x| > 0 && x[0] == s[j] && x[1..] in Permutations(Remove(s, j))
    decreases |s| - i
  {
    if i < |s| {
      StartingFromIn(s, i + 1, x);
      PrependIn(s[i], Permutations(Remove(s, i)), x);
    }
  }

  lemma RemoveMultiset<T>(s: seq<T>, i: nat)
    requires i < |s|
    ensures multiset(s) == multiset(Remove(s, i)) + multiset{s[i]}
  {
    assert s == s[..i] + [s[i]] + s[i + 1..];
  }

  /** Putting s[j] in front of a rearrangement of the rest rearranges s. */
  lemma ConsMultiset<T>(s: seq<T>, j: nat, p: seq<T>)
    requires j < |s| && |p| > 0 && p[0] == s[j] && multiset(p[1..]) == multiset(Remove(s, j))
    ensures multiset(p) == multiset(s)
  {
    RemoveMultiset(s, j);
    assert p == [p[0]] + p[1..];
  }

  /** Every permutation rearranges the input. */
  lemma {:induction false} PermutationsSound<T>(s: seq<T>, p: seq<T>)
    requires p in Permutations(s)
    ensures multiset(p) == multiset(s)
    decreases |s|
  {
    if s != [] {
      StartingFromIn(s, 0, p);
      var j :| 0 <= j < |s| && |p| > 0 && p[0] == s[j] && p[1..] in Permutations(Remove(s, j));
      PermutationsSound(Remove(s, j), p[1..]);
      ConsMultiset(s, j, p);
    }
  }

  lemma MultisetCancel<T>(a: multiset<T>, b: multiset<T>, x: T)
    requires a + multiset{x} == b + multiset{x}
    ensures a == b
  {
    forall y
      ensures a[y] == b[y]
    {
      assert (a + multiset{x})[y] == (b + multiset{x})[y];
    }
  }

  /** Every rearrangement of the input is among the permutations. */
  lemma {:induction false} PermutationsComplete<T>(s: seq<T>, q: seq<T>)
    requires multiset(q) == multiset(s)
    ensures q in Permutations(s)
    decreases |s|
  {
    assert |q| == |multiset(q)| == |s|;
    if s != [] {
      assert q[0] in multiset(s);
      var j :| 0 <= j < |s| && s[j] == q[0];
      RemoveMultiset(s, j);
      assert q == [q[0]] + q[1..];
      assert multiset(q) == multiset{q[0]} + multiset(q[1..]);
      MultisetCancel(multiset(q[1..]), multiset(Remove(s, j)), q[0]);
      PermutationsComplete(Remove(s, j), q[1..]);
      StartingFromIn(s, 0, q);
    }
  }

  // ---------------------------------------------------------------------
  // The best route

  /** `u32::min` or `u32::max`, as `reduce` is told. */
  function Pick(min: bool, a: nat, b: nat): nat
  {
    if min then (if a <= b then a else b) else (if a >= b then a else b)
  }

  /** a is at least as good as b for the chosen direction. */
  predicate Better(min: bool, a: nat, b: nat)
  {
    if min then a <= b else a >= b
  }

  /** `filter_map(calculate_path_length).reduce(..)` over a list of paths. */
  function Reduce(routes: Table, paths: seq<seq<string>>, min: bool): Option<nat>
  {
    if paths == [] then None
    else match (Reduce(routes, paths[..|paths| - 1], min), PathLength(routes, paths[|paths| - 1]))
      case (None, last) => last
      case (best, None) => best
      case (Some(best), Some(last)) => Some(Pick(min, best, last))
  }

  /** None iff no path has a length; otherwise the best of the lengths, reached by one of the paths. */
  lemma {:induction false} ReduceIs(routes: Table, paths: seq<seq<string>>, min: bool)
    ensures Reduce(routes, paths, min) == None <==> forall p :: p in paths ==> PathLength(routes, p) == None
    ensures Reduce(routes, paths, min).Some? ==>
      (exists p :: p in paths && PathLength(routes, p) == Reduce(routes, paths, min)) &&
      forall p :: p in paths && PathLength(routes, p).Some? ==> Better(min, Reduce(routes, paths, min).value, PathLength(routes, p).value)
  {
    if paths != [] {
      var init := paths[..|paths| - 1];
      var last := paths[|paths| - 1];
      ReduceIs(routes, init, min);
      assert paths == init + [last];
      assert forall p :: p in paths <==> p in init || p == last;
    }
  }

  /** `find_path_length(min)`, given the cities in the order `cities()` lists them. */
  function FindPathLength(routes: Table, cities: seq<string>, min: bool): Option<nat>
  {
    Reduce(routes, Permutations(cities), min)
  }

  /** The cities listed once each: what `routes.keys().collect()` gives, in some order. */
  ghost predicate Listing(order: seq<string>, cities: set<string>)
  {
    (forall i, j :: 0 <= i < j < |order| ==> order[i] != order[j]) &&
    forall c :: c in cities <==> c in order
  }

  lemma {:induction false} ListingCount(order: seq<string>, cities: set<string>, c: string)
    requires Listing(order, cities)
    ensures multiset(order)[c] == if c in cities then 1 else 0
    decreases |order|
  {
    if order != [] {
      var rest := order[1..];
      assert order == [order[0]] + rest;
      assert forall i :: 0 <= i < |rest| ==> rest[i] == order[i + 1];
      ListingCount(rest, cities - {order[0]}, c);
    }
  }

  /** Two listings of the same cities rearrange each other. */
  lemma ListingsAgree(a: seq<string>, b: seq<string>, cities: set<string>)
    requires Listing(a, cities) && Listing(b, cities)
    ensures multiset(a) == multiset(b)
  {
    forall c
      ensures multiset(a)[c] == multiset(b)[c]
    {
      ListingCount(a, cities, c);
      ListingCount(b, cities, c);
    }
  }

  /** A permutation of a listing is a listing. */
  lemma RearrangedListing(a: seq<string>, p: seq<string>, cities: set<string>)
    requires Listing(a, cities) && multiset(p) == multiset(a)
    ensures Listing(p, cities)
  {
    forall c
      ensures c in cities <==> c in p
    {
      ListingCount(a, cities, c);
      assert c in p <==> c in multiset(p);
    }
    forall i, j | 0 <= i < j < |p|
      ensures p[i] != p[j]
    {
      if p[i] == p[j] {
        RepeatedCount(p, i, j);
        ListingCount(a, cities, p[i]);
        assert false;
      }
    }
  }

  lemma RepeatedCount(p: seq<string>, i: nat, j: nat)
    requires i < j < |p| && p[i] == p[j]
    ensures multiset(p)[p[i]] >= 2
  {
    assert p == p[..i] + [p[i]] + p[i + 1..j] + [p[j]] + p[j + 1..];
  }

  /**
   * The answer does not depend on the order the map lists its cities in:
   * it is None iff no ordering of all the cities has a route for every
   * leg, and otherwise the best length over all such orderings.
   */
  lemma FindPathLengthIs(routes: Table, order: seq<string>, min: bool)
    requires Listing(order, routes.Keys)
    ensures var r := FindPathLength(routes, order, min);
      (r == None <==> forall q :: Listing(q, routes.Keys) ==> PathLength(routes, q) == None) &&
      (r.Some? ==> exists q :: Listing(q, routes.Keys) && PathLength(routes, q) == r) &&
      (r.Some? ==> forall q :: Listing(q, routes.Keys) && PathLength(routes, q).Some? ==> Better(min, r.value, PathLength(routes, q).value))
  {
    var perms := Permutations(order);
    ReduceIs(routes, perms, min);
    forall q | Listing(q, routes.Keys)
      ensures q in perms
    {
      ListingsAgree(q, order, routes.Keys);
      PermutationsComplete(order, q);
    }
    forall p | p in perms
      ensures Listing(p, routes.Keys)
    {
      PermutationsSound(order, p);
      RearrangedListing(order, p, routes.Keys);
    }
  }

  /** So two listings of the cities give the same answer. */
  lemma OrderIrrelevant(routes: Table, a: seq<string>, b: seq<string>, min: bool)
    requires Listing(a, routes.Keys) && Listing(b, routes.Keys)
    ensures FindPathLength(routes, a, min) == FindPathLength(routes, b, min)
  {
    FindPathLengthIs(routes, a, min);
    FindPathLengthIs(routes, b, min);
    var ra, rb := FindPathLength(routes, a, min), FindPathLength(routes, b, min);
    if ra.Some? && rb.Some? {
      var qa :| Listing(qa, routes.Keys) && PathLength(routes, qa) == ra;
      var qb :| Listing(qb, routes.Keys) && PathLength(routes, qb) == rb;
      assert Better(min, ra.value, rb.value) && Better(min, rb.value, ra.value);
    }
  }

  /** The three example cities, and the table their route lines build. */
  lemma LondonTable(routes: Table)
    requires routes == Built([("London", "Dublin", 464), ("London", "Belfast", 518), ("Dublin", "Belfast", 141)])
    ensures routes == LONDON_TABLE
  {
    var l1, l2, l3 := ("London", "Dublin", 464), ("London", "Belfast", 518), ("Dublin", "Belfast", 141);
    BuiltSnoc([], l1);
    assert [] + [l1] == [l1];
    var first := Built([l1]);
    LondonFirst(first);
    BuiltSnoc([l1], l2);
    assert [l1] + [l2] == [l1, l2];
    var second := Built([l1, l2]);
    LondonSecond(second);
    BuiltSnoc([l1, l2], l3);
    assert [l1, l2] + [l3] == [l1, l2, l3];
    LondonThird(routes);
  }

  lemma BuiltSnoc(init: seq<(string, string, nat)>, l: (string, string, nat))
    ensures Built(init + [l]) == WithRoute(Built(init), l.0, l.1, l.2)
  {
    assert (init + [l])[..|init|] == init;
  }

  lemma LondonFirst(t: Table)
    requires t == WithRoute(map[], "London", "Dublin", 464)
    ensures t == map["London" := map["Dublin" := 464], "Dublin" := map["London" := 464]]
  {
  }

  lemma LondonSecond(t: Table)
    requires t == WithRoute(map["London" := map["Dublin" := 464], "Dublin" := map["London" := 464]], "London", "Belfast", 518)
    ensures t == map["London" := map["Dublin" := 464, "Belfast" := 518], "Dublin" := map["London" := 464], "Belfast" := map["London" := 518]]
  {
  }

  lemma LondonThird(t: Table)
    requires t == WithRoute(map["London" := map["Dublin" := 464, "Belfast" := 518], "Dublin" := map["London" := 464], "Belfast" := map["London" := 518]], "Dublin", "Belfast", 141)
    ensures t == LONDON_TABLE
  {
  }

  lemma PrependOne<T>(x: T, a: seq<T>)
    ensures Prepend(x, [a]) == [[x] + a]
  {
  }

  lemma PrependTwo<T>(x: T, a: seq<T>, b: seq<T>)
    ensures Prepend(x, [a, b]) == [[x] + a, [x] + b]
  {
  }

  lemma SinglePermutations<T>(x: T)
    ensures Permutations([x]) == [[x]]
  {
    var s := [x];
    var e: seq<T> := [];
    assert Remove(s, 0) == e;
    assert Permutations(e) == [e];
    PrependOne(x, e);
    assert [x] + e == [x];
    assert StartingFrom(s, 1) == [];
    assert StartingFrom(s, 0) == Prepend(x, [e]) + StartingFrom(s, 1);
  }

  lemma PairPermutations<T>(x: T, y: T)
    ensures Permutations([x, y]) == [[x, y], [y, x]]
  {
    var s := [x, y];
    assert Remove(s, 0) == [y] && Remove(s, 1) == [x];
    SinglePermutations(x);
    SinglePermutations(y);
    PrependOne(y, [x]);
    PrependOne(x, [y]);
    assert StartingFrom(s, 2) == [];
    assert StartingFrom(s, 1) == Prepend(y, [[x]]) + StartingFrom(s, 2);
    assert StartingFrom(s, 0) == Prepend(x, [[y]]) + StartingFrom(s, 1);
    assert [x] + [y] == [x, y] && [y] + [x] == [y, x];
    assert Permutations(s) == StartingFrom(s, 0);
  }

  /** The six orderings of three entries, in the order itertools lists them. */
  lemma TriplePermutations<T>(x: T, y: T, z: T)
    ensures Permutations([x, y, z]) == [[x, y, z], [x, z, y], [y, x, z], [y, z, x], [z, x, y], [z, y, x]]
  {
    var s := [x, y, z];
    assert Remove(s, 0) == [y, z] && Remove(s, 1) == [x, z] && Remove(s, 2) == [x, y];
    PairPermutations(y, z);
    PairPermutations(x, z);
    PairPermutations(x, y);
    PrependTwo(z, [x, y], [y, x]);
    PrependTwo(y, [x, z], [z, x]);
    PrependTwo(x, [y, z], [z, y]);
    assert StartingFrom(s, 3) == [];
    assert StartingFrom(s, 2) == Prepend(z, [[x, y], [y, x]]) + StartingFrom(s, 3);
    assert StartingFrom(s, 1) == Prepend(y, [[x, z], [z, x]]) + StartingFrom(s, 2);
    assert StartingFrom(s, 0) == Prepend(x, [[y, z], [z, y]]) + StartingFrom(s, 1);
    assert [x] + [y, z] == [x, y, z] && [x] + [z, y] == [x, z, y];
    assert [y] + [x, z] == [y, x, z] && [y] + [z, x] == [y, z, x];
    assert [z] + [x, y] == [z, x, y] && [z] + [y, x] == [z, y, x];
    assert Permutations(s) == StartingFrom(s, 0);
  }

  const LONDON_TABLE: Table := map["London" := map["Dublin" := 464, "Belfast" := 518], "Dublin" := map["London" := 464, "Belfast" := 141], "Belfast" := map["London" := 518, "Dublin" := 141]]

  lemma LondonLegs(routes: Table, a: string, b: string, c: string)
    requires routes == LONDON_TABLE
    requires {a, b, c} == {"London", "Dublin", "Belfast"} && a != b && b != c && a != c
    ensures PathLength(routes, [a, b, c]) == Some(routes[a][b] + routes[b][c])
  {
    var p := [a, b, c];
    assert Legs(routes, p, 1) == Some(routes[a][b]);
  }

  lemma LondonReduce(routes: Table, perms: seq<seq<string>>)
    requires routes == LONDON_TABLE
    requires perms == [["London", "Dublin", "Belfast"], ["London", "Belfast", "Dublin"], ["Dublin", "London", "Belfast"],
                       ["Dublin", "Belfast", "London"], ["Belfast", "London", "Dublin"], ["Belfast", "Dublin", "London"]]
    ensures Reduce(routes, perms, false) == Some(982)
  {
    LondonLegs(routes, "London", "Dublin", "Belfast");
    LondonLegs(routes, "London", "Belfast", "Dublin");
    LondonLegs(routes, "Dublin", "London", "Belfast");
    LondonLegs(routes, "Dublin", "Belfast", "London");
    LondonLegs(routes, "Belfast", "London", "Dublin");
    LondonLegs(routes, "Belfast", "Dublin", "London");
    assert Reduce(routes, perms[..1], false) == Some(605);
    assert perms[..2][..1] == perms[..1];
    assert Reduce(routes, perms[..2], false) == Some(659);
    assert perms[..3][..2] == perms[..2];
    assert Reduce(routes, perms[..3], false) == Some(982);
    assert perms[..4][..3] == perms[..3];
    assert Reduce(routes, perms[..4], false) == Some(982);
    assert perms[..5][..4] == perms[..4];
    assert Reduce(routes, perms[..5], false) == Some(982);
    assert perms[..5] == perms[..6][..5] && perms[..6] == perms;
  }

  /** The example table's cities, listed in the order of its lines. */
  lemma LondonListed(routes: Table, listed: seq<string>)
    requires routes == LONDON_TABLE && listed == ["London", "Dublin", "Belfast"]
    ensures Listing(listed, routes.Keys)
  {
    assert routes.Keys == {"London", "Dublin", "Belfast"};
  }

  lemma LondonListedAnswer(routes: Table, listed: seq<string>)
    requires routes == LONDON_TABLE && listed == ["London", "Dublin", "Belfast"]
    ensures FindPathLength(routes, listed, false) == Some(982)
  {
    TriplePermutations("London", "Dublin", "Belfast");
    LondonReduce(routes, Permutations(listed));
  }

  /** London, Dublin and Belfast: the longest route is 982, whichever order the map lists the cities in. */
  lemma LondonExample(routes: Table, order: seq<string>)
    requires routes == Built([("London", "Dublin", 464), ("London", "Belfast", 518), ("Dublin", "Belfast", 141)])
    requires Listing(order, routes.Keys)
    ensures FindPathLength(routes, order, false) == Some(982)
  {
    LondonTable(routes);
    var listed := ["London", "Dublin", "Belfast"];
    LondonListed(routes, listed);
    LondonListedAnswer(routes, listed);
    OrderIrrelevant(routes, order, listed, false);
  }
}
