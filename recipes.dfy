/**
 * 2015/day-15 part 2: a cookie is 100 teaspoons of ingredients; each
 * property is summed over the ingredients times their amounts, the score
 * is the product of the four summed properties (each floored at 0), and
 * only cookies of exactly 500 calories count.
 *
 * `FindBestScore` keeps the source's nested loops over the amounts for
 * two, three or four ingredients; `IsBest` says what it finds: the best
 * score over every 500-calorie mix of 100 teaspoons, or 0.
 */
module Recipes {
  import opened Wrappers

  /** `Ingredient`; the source's fields are `i32`. */
  datatype Ingredient = Ingredient(name: string, capacity: int, durability: int, flavor: int, texture: int, calories: int)

  /** The four scored properties. */
  datatype Props = Props(capacity: int, durability: int, flavor: int, texture: int)

  function Add(a: Props, b: Props): Props
  {
    Props(a.capacity + b.capacity, a.durability + b.durability, a.flavor + b.flavor, a.texture + b.texture)
  }

  /** `calculate_property_total`: each property of one teaspoon, times the amount. */
  function PropertyTotal(ing: Ingredient, quantity: int): Props
  {
    Props(ing.capacity * quantity, ing.durability * quantity, ing.flavor * quantity, ing.texture * quantity)
  }

  /** `zip` stops at the shorter list. */
  function Zipped(ings: seq<Ingredient>, quantities: seq<int>): nat
  {
    if |ings| < |quantities| then |ings| else |quantities|
  }

  /** The property sums over the first k zipped pairs: the `fold` of `calculate_score`. */
  function TotalsUpTo(ings: seq<Ingredient>, quantities: seq<int>, k: nat): Props
    requires k <= |ings| && k <= |quantities|
  {
    if k == 0 then Props(0, 0, 0, 0) else Add(TotalsUpTo(ings, quantities, k - 1), PropertyTotal(ings[k - 1], quantities[k - 1]))
  }

  function Totals(ings: seq<Ingredient>, quantities: seq<int>): Props
  {
    TotalsUpTo(ings, quantities, Zipped(ings, quantities))
  }

  function CaloriesUpTo(ings: seq<Ingredient>, quantities: seq<int>, k: nat): int
    requires k <= |ings| && k <= |quantities|
  {
    if k == 0 then 0 else CaloriesUpTo(ings, quantities, k - 1) + ings[k - 1].calories * quantities[k - 1]
  }

  /** `calculate_total_calories`: calories times amount, summed over the zipped pairs. */
  function TotalCalories(ings: seq<Ingredient>, quantities: seq<int>): int
  {
    CaloriesUpTo(ings, quantities, Zipped(ings, quantities))
  }

  function Floor0(x: int): nat
  {
    if x < 0 then 0 else x
  }

  /** `calculate_score`: the product of the four summed properties, each floored at 0. */
  function Score(ings: seq<Ingredient>, quantities: seq<int>): nat
  {
    var t := Totals(ings, quantities);
    Floor0(t.capacity) * Floor0(t.durability) * Floor0(t.flavor) * Floor0(t.texture)
  }

  lemma ProductPositive(a: nat, b: nat, c: nat, d: nat)
    ensures a * b * c * d > 0 <==> a > 0 && b > 0 && c > 0 && d > 0
  {
    if a > 0 && b > 0 && c > 0 && d > 0 {
      assert a * b > 0;
      assert a * b * c > 0;
    }
  }

  /** A score is positive iff every summed property is: one bad property spoils the cookie. */
  lemma ScorePositive(ings: seq<Ingredient>, quantities: seq<int>)
    ensures var t := Totals(ings, quantities);
      Score(ings, quantities) > 0 <==> t.capacity > 0 && t.durability > 0 && t.flavor > 0 && t.texture > 0
  {
    var t := Totals(ings, quantities);
    ProductPositive(Floor0(t.capacity), Floor0(t.durability), Floor0(t.flavor), Floor0(t.texture));
  }

  /** The summed properties are the amount-weighted sums over the ingredients, in the listed order. */
  lemma {:induction false} TotalsSnoc(ings: seq<Ingredient>, quantities: seq<int>, ing: Ingredient, q: int)
    requires |ings| == |quantities|
    ensures Totals(ings + [ing], quantities + [q]) == Add(Totals(ings, quantities), PropertyTotal(ing, q))
    ensures TotalCalories(ings + [ing], quantities + [q]) == TotalCalories(ings, quantities) + ing.calories * q
  {
    var n := |ings|;
    TotalsPrefix(ings + [ing], quantities + [q], ings, quantities, n);
    CaloriesPrefix(ings + [ing], quantities + [q], ings, quantities, n);
  }

  lemma {:induction false} TotalsPrefix(ings: seq<Ingredient>, quantities: seq<int>, ings2: seq<Ingredient>, quantities2: seq<int>, k: nat)
    requires k <= |ings| && k <= |quantities| && k <= |ings2| && k <= |quantities2|
    requires ings[..k] == ings2[..k] && quantities[..k] == quantities2[..k]
    ensures TotalsUpTo(ings, quantities, k) == TotalsUpTo(ings2, quantities2, k)
  {
    if k > 0 {
      assert ings[..k - 1] == ings[..k][..k - 1] && ings2[..k - 1] == ings2[..k][..k - 1];
      assert quantities[..k - 1] == quantities[..k][..k - 1] && quantities2[..k - 1] == quantities2[..k][..k - 1];
      assert ings[k - 1] == ings[..k][k - 1] && ings2[k - 1] == ings2[..k][k - 1];
      assert quantities[k - 1] == quantities[..k][k - 1] && quantities2[k - 1] == quantities2[..k][k - 1];
      TotalsPrefix(ings, quantities, ings2, quantities2, k - 1);
    }
  }

  lemma {:induction false} CaloriesPrefix(ings: seq<Ingredient>, quantities: seq<int>, ings2: seq<Ingredient>, quantities2: seq<int>, k: nat)
    requires k <= |ings| && k <= |quantities| && k <= |ings2| && k <= |quantities2|
    requires ings[..k] == ings2[..k] && quantities[..k] == quantities2[..k]
    ensures CaloriesUpTo(ings, quantities, k) == CaloriesUpTo(ings2, quantities2, k)
  {
    if k > 0 {
      assert ings[..k - 1] == ings[..k][..k - 1] && ings2[..k - 1] == ings2[..k][..k - 1];
      assert quantities[..k - 1] == quantities[..k][..k - 1] && quantities2[..k - 1] == quantities2[..k][..k - 1];
      assert ings[k - 1] == ings[..k][k - 1] && ings2[k - 1] == ings2[..k][k - 1];
      assert quantities[k - 1] == quantities[..k][k - 1] && quantities2[k - 1] == quantities2[..k][k - 1];
      CaloriesPrefix(ings, quantities, ings2, quantities2, k - 1);
    }
  }

  // ---------------------------------------------------------------------
  // What the search looks for

  function Sum(qs: seq<int>): int
  {
    if qs == [] then 0 else qs[0] + Sum(qs[1..])
  }

  /** n amounts, none negative, making 100 teaspoons. */
  ghost predicate Mix(qs: seq<int>, n: nat)
  {
    |qs| == n && (forall k :: 0 <= k < n ==> qs[k] >= 0) && Sum(qs) == 100
  }

  /** A cookie of exactly 500 calories. */
  predicate Qualifies(ings: seq<Ingredient>, qs: seq<int>)
  {
    TotalCalories(ings, qs) == 500
  }

  /**
   * best is the highest score of a 500-calorie mix of n amounts, or 0 when
   * no such mix scores above 0.
   */
  ghost predicate IsBest(ings: seq<Ingredient>, n: nat, best: int)
  {
    best >= 0 &&
    (forall qs :: Mix(qs, n) && Qualifies(ings, qs) ==> Score(ings, qs) <= best) &&
    (best == 0 || exists qs :: Mix(qs, n) && Qualifies(ings, qs) && Score(ings, qs) == best)
  }

  /** The best score is unique: two answers for the same ingredients agree. */
  lemma IsBestUnique(ings: seq<Ingredient>, n: nat, a: int, b: int)
    requires IsBest(ings, n, a) && IsBest(ings, n, b)
    ensures a == b
  {
    if a != 0 {
      var qs :| Mix(qs, n) && Qualifies(ings, qs) && Score(ings, qs) == a;
    }
    if b != 0 {
      var qs :| Mix(qs, n) && Qualifies(ings, qs) && Score(ings, qs) == b;
    }
  }

  // ---------------------------------------------------------------------
  // The loops' progress: the amounts tried so far are those before a cursor

  /** qs comes before the cursor in the loops' order (lexicographic on the cursor's length). */
  predicate Before(qs: seq<int>, cur: seq<int>)
    decreases |cur|
  {
    cur != [] && qs != [] && (qs[0] < cur[0] || (qs[0] == cur[0] && Before(qs[1..], cur[1..])))
  }

  /** Extending the cursor by a: before it are those before the shorter cursor, and those that match it and then go below a. */
  lemma {:induction false} BeforeSnoc(qs: seq<int>, p: seq<int>, a: int)
    requires |p| < |qs|
    ensures Before(qs, p + [a]) <==> Before(qs, p) || (qs[..|p|] == p && qs[|p|] < a)
    decreases |p|
  {
    if p != [] {
      assert (p + [a])[1..] == p[1..] + [a];
      BeforeSnoc(qs[1..], p[1..], a);
      assert qs[..|p|] == p <==> qs[0] == p[0] && qs[1..][..|p| - 1] == p[1..];
    } else {
      assert qs[..0] == p;
    }
  }

  /** The amounts the loops have tried, best scoring at most `best`, one of them reaching it when it is not 0. */
  ghost predicate BestBefore(ings: seq<Ingredient>, n: nat, best: int, cur: seq<int>)
  {
    best >= 0 &&
    (forall qs :: Mix(qs, n) && Before(qs, cur) && Qualifies(ings, qs) ==> Score(ings, qs) <= best) &&
    (best == 0 || exists qs :: Mix(qs, n) && Before(qs, cur) && Qualifies(ings, qs) && Score(ings, qs) == best)
  }

  /** `max_score` after trying qs. */
  function Tried(ings: seq<Ingredient>, best: int, qs: seq<int>): int
  {
    if Qualifies(ings, qs) then (var score := Score(ings, qs); if score > best then score else best) else best
  }

  /** Trying qs moves the cursor past it. */
  lemma Visit(ings: seq<Ingredient>, n: nat, best: int, cur: seq<int>, next: seq<int>, qs0: seq<int>)
    requires BestBefore(ings, n, best, cur) && Mix(qs0, n)
    requires forall qs :: Mix(qs, n) ==> (Before(qs, next) <==> Before(qs, cur) || qs == qs0)
    ensures BestBefore(ings, n, Tried(ings, best, qs0), next)
  {
  }

  /** A cursor move that passes no mix. */
  lemma Skip(ings: seq<Ingredient>, n: nat, best: int, cur: seq<int>, next: seq<int>)
    requires BestBefore(ings, n, best, cur)
    requires forall qs :: Mix(qs, n) ==> (Before(qs, next) <==> Before(qs, cur))
    ensures BestBefore(ings, n, best, next)
  {
  }

  /** Before any amount is tried. */
  lemma Start(ings: seq<Ingredient>, n: nat)
    requires n > 0
    ensures BestBefore(ings, n, 0, [0])
  {
    forall qs | Mix(qs, n)
      ensures !Before(qs, [0])
    {
      assert qs[0] >= 0;
    }
  }

  /** Every mix comes before [101], so having passed it the best is the best overall. */
  lemma Finish(ings: seq<Ingredient>, n: nat, best: int)
    requires n > 0 && BestBefore(ings, n, best, [101])
    ensures IsBest(ings, n, best)
  {
    forall qs | Mix(qs, n)
      ensures Before(qs, [101])
    {
      MixBound(qs, n);
    }
  }

  lemma {:induction false} SumNonNegative(qs: seq<int>)
    requires forall k :: 0 <= k < |qs| ==> qs[k] >= 0
    ensures Sum(qs) >= 0
  {
    if qs != [] {
      SumNonNegative(qs[1..]);
    }
  }

  lemma MixBound(qs: seq<int>, n: nat)
    requires Mix(qs, n) && n > 0
    ensures qs[0] <= 100
  {
    SumNonNegative(qs[1..]);
  }

  lemma SumTwo(qs: seq<int>)
    requires |qs| == 2
    ensures Sum(qs) == qs[0] + qs[1]
  {
    assert qs[1..][1..] == [];
    assert Sum(qs[1..]) == qs[1] + Sum(qs[1..][1..]);
  }

  lemma SumThree(qs: seq<int>)
    requires |qs| == 3
    ensures Sum(qs) == qs[0] + qs[1] + qs[2]
  {
    SumTwo(qs[1..]);
  }

  lemma SumFour(qs: seq<int>)
    requires |qs| == 4
    ensures Sum(qs) == qs[0] + qs[1] + qs[2] + qs[3]
  {
    SumThree(qs[1..]);
  }

  // ---------------------------------------------------------------------
  // Cursor moves of each loop nest

  /** Two ingredients: [i] to [i + 1] passes exactly [i, 100 - i]. */
  lemma Step2(qs: seq<int>, i: int)
    requires Mix(qs, 2) && 0 <= i <= 100
    ensures Before(qs, [i + 1]) <==> Before(qs, [i]) || qs == [i, 100 - i]
  {
    SumTwo(qs);
    assert [i + 1] == [] + [i + 1] && [i] == [] + [i];
    BeforeSnoc(qs, [], i + 1);
    BeforeSnoc(qs, [], i);
  }

  /** Entering an inner loop at amount 0 passes nothing. */
  lemma Enter(qs: seq<int>, p: seq<int>)
    requires |p| < |qs| && qs[|p|] >= 0
    ensures Before(qs, p + [0]) <==> Before(qs, p)
  {
    BeforeSnoc(qs, p, 0);
  }

  /** The innermost step: p + [a] to p + [a + 1] passes the mixes that match p and then hold a. */
  lemma Advance(qs: seq<int>, p: seq<int>, a: int)
    requires |p| < |qs|
    ensures Before(qs, p + [a + 1]) <==> Before(qs, p + [a]) || (qs[..|p|] == p && qs[|p|] == a)
  {
    BeforeSnoc(qs, p, a + 1);
    BeforeSnoc(qs, p, a);
  }

  /** Leaving an inner loop whose last amount c is past every value the next amount can take: the outer cursor moves on by one. */
  lemma Carry(qs: seq<int>, p: seq<int>, a: int, c: int)
    requires |p| + 1 < |qs|
    requires qs[..|p|] == p && qs[|p|] == a ==> qs[|p| + 1] < c
    ensures Before(qs, p + [a] + [c]) <==> Before(qs, p + [a + 1])
  {
    BeforeSnoc(qs, p + [a], c);
    Advance(qs, p, a);
    assert qs[..|p| + 1] == p + [a] <==> qs[..|p|] == p && qs[|p|] == a by {
      assert qs[..|p| + 1] == qs[..|p|] + [qs[|p|]];
    }
  }

  lemma Step3(qs: seq<int>, i: int, j: int)
    requires Mix(qs, 3) && 0 <= i && 0 <= j && i + j <= 100
    ensures Before(qs, [i, j + 1]) <==> Before(qs, [i, j]) || qs == [i, j, 100 - i - j]
  {
    SumThree(qs);
    assert [i, j + 1] == [i] + [j + 1] && [i, j] == [i] + [j];
    Advance(qs, [i], j);
    assert qs[..1] == [i] <==> qs[0] == i;
  }

  lemma Carry3(qs: seq<int>, i: int)
    requires Mix(qs, 3) && 0 <= i <= 100
    ensures Before(qs, [i, 101 - i]) <==> Before(qs, [i + 1])
  {
    SumThree(qs);
    assert [i, 101 - i] == [] + [i] + [101 - i] && [i + 1] == [] + [i + 1];
    assert qs[..0] == [];
    Carry(qs, [], i, 101 - i);
  }

  lemma Step4(qs: seq<int>, i: int, j: int, k: int)
    requires Mix(qs, 4) && 0 <= i && 0 <= j && 0 <= k && i + j + k <= 100
    ensures Before(qs, [i, j, k + 1]) <==> Before(qs, [i, j, k]) || qs == [i, j, k, 100 - i - j - k]
  {
    SumFour(qs);
    assert [i, j, k + 1] == [i, j] + [k + 1] && [i, j, k] == [i, j] + [k];
    Advance(qs, [i, j], k);
    assert qs[..2] == [i, j] <==> qs[0] == i && qs[1] == j;
  }

  lemma Carry4Inner(qs: seq<int>, i: int, j: int)
    requires Mix(qs, 4) && 0 <= i && 0 <= j && i + j <= 100
    ensures Before(qs, [i, j, 101 - i - j]) <==> Before(qs, [i, j + 1])
  {
    SumFour(qs);
    assert [i, j, 101 - i - j] == [i] + [j] + [101 - i - j] && [i, j + 1] == [i] + [j + 1];
    assert qs[..1] == [i] <==> qs[0] == i;
    Carry(qs, [i], j, 101 - i - j);
  }

  lemma Carry4Outer(qs: seq<int>, i: int)
    requires Mix(qs, 4) && 0 <= i <= 100
    ensures Before(qs, [i, 101 - i]) <==> Before(qs, [i + 1])
  {
    SumFour(qs);
    assert [i, 101 - i] == [] + [i] + [101 - i] && [i + 1] == [] + [i + 1];
    assert qs[..0] == [];
    Carry(qs, [], i, 101 - i);
  }

  // ---------------------------------------------------------------------
  // The same moves, applied to what the loops have found

  lemma EnterOuter(ings: seq<Ingredient>, n: nat, best: int, i: int)
    requires n >= 2 && BestBefore(ings, n, best, [i])
    ensures BestBefore(ings, n, best, [i, 0])
  {
    forall qs | Mix(qs, n)
      ensures Before(qs, [i, 0]) <==> Before(qs, [i])
    {
      assert [i, 0] == [i] + [0];
      Enter(qs, [i]);
    }
    Skip(ings, n, best, [i], [i, 0]);
  }

  lemma EnterInner(ings: seq<Ingredient>, best: int, i: int, j: int)
    requires BestBefore(ings, 4, best, [i, j])
    ensures BestBefore(ings, 4, best, [i, j, 0])
  {
    forall qs | Mix(qs, 4)
      ensures Before(qs, [i, j, 0]) <==> Before(qs, [i, j])
    {
      assert [i, j, 0] == [i, j] + [0];
      Enter(qs, [i, j]);
    }
    Skip(ings, 4, best, [i, j], [i, j, 0]);
  }

  lemma Tried2(ings: seq<Ingredient>, best: int, i: int)
    requires 0 <= i <= 100 && BestBefore(ings, 2, best, [i])
    ensures BestBefore(ings, 2, Tried(ings, best, [i, 100 - i]), [i + 1])
  {
    var quantities := [i, 100 - i];
    SumTwo(quantities);
    forall qs | Mix(qs, 2)
      ensures Before(qs, [i + 1]) <==> Before(qs, [i]) || qs == quantities
    {
      Step2(qs, i);
    }
    Visit(ings, 2, best, [i], [i + 1], quantities);
  }

  lemma Tried3(ings: seq<Ingredient>, best: int, i: int, j: int)
    requires 0 <= i && 0 <= j && i + j <= 100 && BestBefore(ings, 3, best, [i, j])
    ensures BestBefore(ings, 3, Tried(ings, best, [i, j, 100 - i - j]), [i, j + 1])
  {
    var quantities := [i, j, 100 - i - j];
    SumThree(quantities);
    forall qs | Mix(qs, 3)
      ensures Before(qs, [i, j + 1]) <==> Before(qs, [i, j]) || qs == quantities
    {
      Step3(qs, i, j);
    }
    Visit(ings, 3, best, [i, j], [i, j + 1], quantities);
  }

  lemma Tried4(ings: seq<Ingredient>, best: int, i: int, j: int, k: int)
    requires 0 <= i && 0 <= j && 0 <= k && i + j + k <= 100 && BestBefore(ings, 4, best, [i, j, k])
    ensures BestBefore(ings, 4, Tried(ings, best, [i, j, k, 100 - i - j - k]), [i, j, k + 1])
  {
    var quantities := [i, j, k, 100 - i - j - k];
    SumFour(quantities);
    forall qs | Mix(qs, 4)
      ensures Before(qs, [i, j, k + 1]) <==> Before(qs, [i, j, k]) || qs == quantities
    {
      Step4(qs, i, j, k);
    }
    Visit(ings, 4, best, [i, j, k], [i, j, k + 1], quantities);
  }

  lemma Done3(ings: seq<Ingredient>, best: int, i: int)
    requires 0 <= i <= 100 && BestBefore(ings, 3, best, [i, 101 - i])
    ensures BestBefore(ings, 3, best, [i + 1])
  {
    forall qs | Mix(qs, 3)
      ensures Before(qs, [i, 101 - i]) <==> Before(qs, [i + 1])
    {
      Carry3(qs, i);
    }
    Skip(ings, 3, best, [i, 101 - i], [i + 1]);
  }

  lemma Done4Inner(ings: seq<Ingredient>, best: int, i: int, j: int)
    requires 0 <= i && 0 <= j && i + j <= 100 && BestBefore(ings, 4, best, [i, j, 101 - i - j])
    ensures BestBefore(ings, 4, best, [i, j + 1])
  {
    forall qs | Mix(qs, 4)
      ensures Before(qs, [i, j, 101 - i - j]) <==> Before(qs, [i, j + 1])
    {
      Carry4Inner(qs, i, j);
    }
    Skip(ings, 4, best, [i, j, 101 - i - j], [i, j + 1]);
  }

  lemma Done4Outer(ings: seq<Ingredient>, best: int, i: int)
    requires 0 <= i <= 100 && BestBefore(ings, 4, best, [i, 101 - i])
    ensures BestBefore(ings, 4, best, [i + 1])
  {
    forall qs | Mix(qs, 4)
      ensures Before(qs, [i, 101 - i]) <==> Before(qs, [i + 1])
    {
      Carry4Outer(qs, i);
    }
    Skip(ings, 4, best, [i, 101 - i], [i + 1]);
  }

  // ---------------------------------------------------------------------
  // `find_best_score_with_calories`

  /** One body of the loops: score the amounts if they make 500 calories, and keep the larger. */
  method Try(ings: seq<Ingredient>, maxScore: int, quantities: seq<int>) returns (r: int)
    ensures r == Tried(ings, maxScore, quantities)
  {
    r := maxScore;
    if TotalCalories(ings, quantities) == 500 {
      var score := Score(ings, quantities);
      if score > r {
        r := score;
      }
    }
  }

  /** The arm for two ingredients. */
  method Best2(ings: seq<Ingredient>) returns (maxScore: int)
    ensures IsBest(ings, 2, maxScore)
  {
    maxScore := 0;
    Start(ings, 2);
    for i := 0 to 101
      invariant BestBefore(ings, 2, maxScore, [i])
    {
      var quantities := [i, 100 - i];
      Tried2(ings, maxScore, i);
      maxScore := Try(ings, maxScore, quantities);
    }
    Finish(ings, 2, maxScore);
  }

  /** The arm for three ingredients. */
  method Best3(ings: seq<Ingredient>) returns (maxScore: int)
    ensures IsBest(ings, 3, maxScore)
  {
    maxScore := 0;
    Start(ings, 3);
    for i := 0 to 101
      invariant BestBefore(ings, 3, maxScore, [i])
    {
      EnterOuter(ings, 3, maxScore, i);
      for j := 0 to 101 - i
        invariant BestBefore(ings, 3, maxScore, [i, j])
      {
        var k := 100 - i - j;
        var quantities := [i, j, k];
        Tried3(ings, maxScore, i, j);
        maxScore := Try(ings, maxScore, quantities);
      }
      Done3(ings, maxScore, i);
    }
    Finish(ings, 3, maxScore);
  }

  /** The arm for four ingredients. */
  method Best4(ings: seq<Ingredient>) returns (maxScore: int)
    ensures IsBest(ings, 4, maxScore)
  {
    maxScore := 0;
    Start(ings, 4);
    for i := 0 to 101
      invariant BestBefore(ings, 4, maxScore, [i])
    {
      EnterOuter(ings, 4, maxScore, i);
      for j := 0 to 101 - i
        invariant BestBefore(ings, 4, maxScore, [i, j])
      {
        EnterInner(ings, maxScore, i, j);
        for k := 0 to 101 - i - j
          invariant BestBefore(ings, 4, maxScore, [i, j, k])
        {
          var l := 100 - i - j - k;
          var quantities := [i, j, k, l];
          Tried4(ings, maxScore, i, j, k);
          maxScore := Try(ings, maxScore, quantities);
        }
        Done4Inner(ings, maxScore, i, j);
      }
      Done4Outer(ings, maxScore, i);
    }
    Finish(ings, 4, maxScore);
  }

  /**
   * `find_best_score_with_calories`: the best score over the 500-calorie
   * mixes of 100 teaspoons for two, three or four ingredients; any other
   * count panics, which is None here.
   */
  method FindBestScore(ings: seq<Ingredient>) returns (r: Option<int>)
    ensures r == None <==> |ings| != 2 && |ings| != 3 && |ings| != 4
    ensures r.Some? ==> IsBest(ings, |ings|, r.value)
  {
    match |ings|
    case 2 =>
      var best := Best2(ings);
      r := Some(best);
    case 3 =>
      var best := Best3(ings);
      r := Some(best);
    case 4 =>
      var best := Best4(ings);
      r := Some(best);
    case _ =>
      r := None;
  }

  /** Butterscotch and Cinnamon: 40 and 60 teaspoons make 500 calories and score 57600000. */
  lemma ButterscotchCinnamon(ings: seq<Ingredient>)
    requires ings == [Ingredient("Butterscotch", -1, -2, 6, 3, 8), Ingredient("Cinnamon", 2, 3, -2, -1, 3)]
    ensures Qualifies(ings, [40, 60]) && Score(ings, [40, 60]) == 57600000
  {
    var qs := [40, 60];
    assert TotalsUpTo(ings, qs, 1) == Props(-40, -80, 240, 120);
    assert Totals(ings, qs) == Props(80, 100, 120, 60);
    assert CaloriesUpTo(ings, qs, 1) == 320;
  }
}
