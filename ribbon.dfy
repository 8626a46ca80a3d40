/**
 * 2015/day-02 part 2: the ribbon for a present is its volume (the bow)
 * plus the smallest perimeter of any face, found by sorting the three
 * sides and taking the two shortest.
 */
module Ribbon {
  datatype Present = Present(l: nat, w: nat, h: nat)

  /** `volume`. */
  function Volume(p: Present): nat
  {
    p.l * p.w * p.h
  }

  /** `sides.sort()` on a three-element array: ascending, and the same three values. */
  function Sort3(a: nat, b: nat, c: nat): (r: (nat, nat, nat))
    ensures r.0 <= r.1 <= r.2
    ensures multiset{r.0, r.1, r.2} == multiset{a, b, c}
  {
    if a <= b then
      if b <= c then (a, b, c)
      else if a <= c then (a, c, b)
      else (c, a, b)
    else
      if a <= c then (b, a, c)
      else if b <= c then (b, c, a)
      else (c, b, a)
  }

  /** `smallest_perim`: twice the two shortest sides. */
  function SmallestPerim(p: Present): nat
  {
    var sides := Sort3(p.l, p.w, p.h);
    2 * (sides.0 + sides.1)
  }

  /** The faces' perimeters. */
  function Perimeters(p: Present): set<nat>
  {
    {2 * (p.l + p.w), 2 * (p.w + p.h), 2 * (p.l + p.h)}
  }

  /** Three sorted values that are a rearrangement of a, b, c: the two smallest are two of a, b, c. */
  lemma SortedPick(a: nat, b: nat, c: nat, r: (nat, nat, nat))
    requires r.0 <= r.1 <= r.2
    requires multiset{r.0, r.1, r.2} == multiset{a, b, c}
    ensures r.0 + r.1 in {a + b, b + c, a + c}
    ensures r.0 + r.1 <= a + b && r.0 + r.1 <= b + c && r.0 + r.1 <= a + c
  {
    assert r.0 in multiset{a, b, c} && r.1 in multiset{a, b, c} && r.2 in multiset{a, b, c};
    assert a in multiset{r.0, r.1, r.2} && b in multiset{r.0, r.1, r.2} && c in multiset{r.0, r.1, r.2};
    assert r.0 + r.1 + r.2 == a + b + c by {
      SumOfThree(r.0, r.1, r.2, a, b, c);
    }
  }

  /** Rearrangements of three values have the same sum. */
  lemma SumOfThree(x: nat, y: nat, z: nat, a: nat, b: nat, c: nat)
    requires multiset{x, y, z} == multiset{a, b, c}
    ensures x + y + z == a + b + c
  {
    var m := multiset{a, b, c};
    assert x in m;
    if x == a {
      assert multiset{y, z} == multiset{b, c} by { assert multiset{x, y, z} - multiset{x} == m - multiset{a}; }
      assert y in multiset{b, c};
    } else if x == b {
      assert multiset{y, z} == multiset{a, c} by { assert multiset{x, y, z} - multiset{x} == m - multiset{b}; }
      assert y in multiset{a, c};
    } else {
      assert multiset{y, z} == multiset{a, b} by { assert multiset{x, y, z} - multiset{x} == m - multiset{c}; }
      assert y in multiset{a, b};
    }
  }

  /** The smallest perimeter is the perimeter of some face and no face has a smaller one. */
  lemma SmallestPerimIsMinimum(p: Present)
    ensures SmallestPerim(p) in Perimeters(p)
    ensures forall q :: q in Perimeters(p) ==> SmallestPerim(p) <= q
  {
    SortedPick(p.l, p.w, p.h, Sort3(p.l, p.w, p.h));
  }

  /** Presents with the same faces need the same smallest perimeter. */
  lemma SameFaces(p: Present, q: Present)
    requires Perimeters(p) == Perimeters(q)
    ensures SmallestPerim(p) == SmallestPerim(q)
  {
    SmallestPerimIsMinimum(p);
    SmallestPerimIsMinimum(q);
  }

  /** The order in which the sides are listed does not matter: swapping the first two. */
  lemma SwapLengthWidth(p: Present)
    ensures SmallestPerim(p) == SmallestPerim(Present(p.w, p.l, p.h))
  {
    var q := Present(p.w, p.l, p.h);
    assert Perimeters(q) == Perimeters(p) by {
      assert Perimeters(q) == {2 * (p.l + p.w), 2 * (p.l + p.h), 2 * (p.w + p.h)};
    }
    SameFaces(p, q);
  }

  /** Swapping the last two. */
  lemma SwapWidthHeight(p: Present)
    ensures SmallestPerim(p) == SmallestPerim(Present(p.l, p.h, p.w))
  {
    var q := Present(p.l, p.h, p.w);
    assert Perimeters(q) == Perimeters(p) by {
      assert Perimeters(q) == {2 * (p.l + p.h), 2 * (p.w + p.h), 2 * (p.l + p.w)};
    }
    SameFaces(p, q);
  }

  /** Since any rearrangement of the sides is a chain of these two swaps, `smallest_perim` ignores their order. */
  lemma SmallestPerimSymmetric(p: Present)
    ensures SmallestPerim(p) == SmallestPerim(Present(p.w, p.l, p.h))
    ensures SmallestPerim(p) == SmallestPerim(Present(p.l, p.h, p.w))
    ensures SmallestPerim(p) == SmallestPerim(Present(p.h, p.w, p.l))
  {
    SwapLengthWidth(p);
    SwapWidthHeight(p);
    // (l, w, h) -> (w, l, h) -> (w, h, l) -> (h, w, l)
    SwapWidthHeight(Present(p.w, p.l, p.h));
    SwapLengthWidth(Present(p.w, p.h, p.l));
  }

  /** The ribbon one present needs. */
  function Ribbon(p: Present): nat
  {
    Volume(p) + SmallestPerim(p)
  }

  /** `process`: the ribbon for every present, summed. */
  function TotalRibbon(presents: seq<Present>): nat
  {
    if presents == [] then 0 else Ribbon(presents[0]) + TotalRibbon(presents[1..])
  }

  /** The total over two lists of presents is the sum of their totals. */
  lemma {:induction false} TotalRibbonConcat(a: seq<Present>, b: seq<Present>)
    ensures TotalRibbon(a + b) == TotalRibbon(a) + TotalRibbon(b)
  {
    if a != [] {
      assert (a + b)[1..] == a[1..] + b;
      TotalRibbonConcat(a[1..], b);
    } else {
      assert a + b == b;
    }
  }

  // ---------------------------------------------------------------------
  // The unit tests

  lemma VolumeExamples()
    ensures Volume(Present(2, 3, 4)) == 24 && Volume(Present(1, 1, 10)) == 10
  {
  }

  lemma PerimExamples()
    ensures SmallestPerim(Present(2, 3, 4)) == 10
    ensures SmallestPerim(Present(1, 1, 10)) == 4
    ensures SmallestPerim(Present(4, 3, 9)) == 14
  {
  }

  lemma RibbonExamples()
    ensures TotalRibbon([Present(2, 3, 4)]) == 34
    ensures TotalRibbon([Present(1, 1, 10)]) == 14
    ensures TotalRibbon([Present(2, 3, 4), Present(1, 1, 10)]) == 48
  {
    TotalRibbonConcat([Present(2, 3, 4)], [Present(1, 1, 10)]);
    assert [Present(2, 3, 4)] + [Present(1, 1, 10)] == [Present(2, 3, 4), Present(1, 1, 10)];
  }
}
