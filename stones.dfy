/**
 * The engraved stones of 2024/day-11 and day-11.  On every blink each stone
 * changes by the first rule that applies: 0 becomes 1, a stone with an even
 * number of digits splits into its left and right halves, and any other
 * stone is multiplied by 2024.  Part 1 blinks the whole row 25 times and
 * counts the stones; part 2 counts the stones one stone makes after 75
 * blinks with a memo table.
 */
module Stones {
  import opened Decimal
  import Bits

  /** The digit count used by both parts: `checked_ilog10().unwrap_or(0) + 1`, one for 0. */
  predicate EvenDigits(n: nat)
  {
    NumDigits(n) % 2 == 0
  }

  /** `split_num_digits`: quotient and remainder by 10 to the half digit count. */
  function SplitDigits(n: nat): (nat, nat)
  {
    Bits.DivNat(n, Pow10(NumDigits(n) / 2));
    (High(n, NumDigits(n) / 2), n % Pow10(NumDigits(n) / 2))
  }

  /** The halves put back together give the number: hi * 10^k + lo with lo below 10^k. */
  lemma SplitRejoins(n: nat)
    ensures SplitDigits(n).0 * Pow10(NumDigits(n) / 2) + SplitDigits(n).1 == n
    ensures SplitDigits(n).1 < Pow10(NumDigits(n) / 2)
  {
    var d := Pow10(NumDigits(n) / 2);
    assert SplitDigits(n) == (n / d, n % d);
    Rejoin(n, d, n / d, n % d);
  }

  /** Quotient times divisor plus remainder is the number. */
  lemma Rejoin(n: int, d: int, hi: int, lo: int)
    requires n >= 0 && d >= 1 && hi == n / d && lo == n % d
    ensures hi * d + lo == n && 0 <= lo < d
  {
  }

  /** Dividing by 10m is dividing by 10 and then by m. */
  lemma DivTen(n: nat, m: nat)
    requires m >= 1
    ensures n / (10 * m) == (n / 10) / m
  {
    var q, r := (n / 10) / m, (n / 10) % m;
    assert n / 10 == m * q + r;
    assert n == (10 * m) * q + (10 * r + n % 10);
    Bits.DivUnique(n, 10 * m, q, 10 * r + n % 10);
  }

  /** n without its k low digits. */
  function High(n: nat, k: nat): nat
  {
    Bits.DivNat(n, Pow10(k));
    n / Pow10(k)
  }

  /** Dropping k of the low digits of a number with more than k digits leaves the rest. */
  lemma {:induction false} DropDigits(n: nat, k: nat)
    requires k < NumDigits(n)
    ensures NumDigits(High(n, k)) == NumDigits(n) - k
  {
    if k > 0 {
      assert n >= 10 && NumDigits(n) == 1 + NumDigits(n / 10);
      DropDigits(n / 10, k - 1);
      DivTen(n, Pow10(k - 1));
    }
  }

  /** Splitting a positive number with 2k digits leaves exactly k digits on the left and at most k on the right. */
  lemma SplitHalves(n: nat)
    requires n > 0 && EvenDigits(n)
    ensures NumDigits(SplitDigits(n).0) == NumDigits(n) / 2
    ensures NumDigits(SplitDigits(n).1) <= NumDigits(n) / 2
  {
    var k := NumDigits(n) / 2;
    DropDigits(n, k);
    if k >= 1 {
      SplitRejoins(n);
      RightHalf(SplitDigits(n).1, k);
    }
  }

  lemma {:induction false} RightHalf(r: nat, k: nat)
    requires k >= 1 && r < Pow10(k)
    ensures NumDigits(r) <= k
    decreases k
  {
    if r >= 10 {
      assert k > 1;
      RightHalf(r / 10, k - 1);
    }
  }

  /** One stone after a blink. */
  function Blink(n: nat): seq<nat>
  {
    if n == 0 then [1]
    else if EvenDigits(n) then [SplitDigits(n).0, SplitDigits(n).1]
    else [n * 2024]
  }

  /** A blink leaves one stone or two, and two exactly when the stone is not 0 and has an even digit count. */
  lemma BlinkSize(n: nat)
    ensures 1 <= |Blink(n)| <= 2
    ensures |Blink(n)| == 2 <==> n != 0 && EvenDigits(n)
  {
  }

  /** A `flat_map` over a row: every stone replaced by what `f` makes of it, in order. */
  function FlatMap(f: nat -> seq<nat>, stones: seq<nat>): seq<nat>
  {
    if stones == [] then [] else FlatMap(f, stones[..|stones| - 1]) + f(stones[|stones| - 1])
  }

  /** `successors(...).nth(n)` over a `flat_map`: the row after n rounds. */
  function Iterate(f: nat -> seq<nat>, stones: seq<nat>, n: nat): seq<nat>
  {
    if n == 0 then stones else FlatMap(f, Iterate(f, stones, n - 1))
  }

  /** One blink of the whole row. */
  function BlinkAll(stones: seq<nat>): seq<nat>
  {
    FlatMap(Blink, stones)
  }

  /** The row after n blinks. */
  function Blinks(stones: seq<nat>, n: nat): seq<nat>
  {
    Iterate(Blink, stones, n)
  }

  /** When each stone becomes one or two stones, a round never shrinks the row and at most doubles it. */
  lemma {:induction false} FlatMapLength(f: nat -> seq<nat>, stones: seq<nat>)
    requires forall x :: 1 <= |f(x)| <= 2
    ensures |stones| <= |FlatMap(f, stones)| <= 2 * |stones|
  {
    if stones != [] {
      FlatMapLength(f, stones[..|stones| - 1]);
    }
  }

  lemma {:induction false} IterateLength(f: nat -> seq<nat>, stones: seq<nat>, n: nat)
    requires forall x :: 1 <= |f(x)| <= 2
    ensures |stones| <= |Iterate(f, stones, n)|
  {
    if n > 0 {
      IterateLength(f, stones, n - 1);
      FlatMapLength(f, Iterate(f, stones, n - 1));
    }
  }

  /** Every stone becomes one or two. */
  lemma BlinkSizes()
    ensures forall x :: 1 <= |Blink(x)| <= 2
  {
    forall x {
      BlinkSize(x);
    }
  }

  /** A blink never shrinks the row and at most doubles it. */
  lemma BlinkAllLength(stones: seq<nat>)
    ensures |stones| <= |BlinkAll(stones)| <= 2 * |stones|
  {
    BlinkSizes();
    FlatMapLength(Blink, stones);
  }

  lemma BlinksLength(stones: seq<nat>, n: nat)
    ensures |stones| <= |Blinks(stones, n)|
  {
    BlinkSizes();
    IterateLength(Blink, stones, n);
  }

  /** Part 1 `process`: the number of stones after 25 blinks. */
  function StonesAfter25(stones: seq<nat>): nat
  {
    |Blinks(stones, 25)|
  }

  /** Stones change independently: a round over a row is the round over each part of it. */
  lemma {:induction false} FlatMapConcat(f: nat -> seq<nat>, a: seq<nat>, b: seq<nat>)
    ensures FlatMap(f, a + b) == FlatMap(f, a) + FlatMap(f, b)
    decreases |b|
  {
    if b == [] {
      assert a + b == a;
    } else {
      assert (a + b)[..|a + b| - 1] == a + b[..|b| - 1];
      FlatMapConcat(f, a, b[..|b| - 1]);
    }
  }

  lemma {:induction false} IterateConcat(f: nat -> seq<nat>, a: seq<nat>, b: seq<nat>, n: nat)
    ensures Iterate(f, a + b, n) == Iterate(f, a, n) + Iterate(f, b, n)
  {
    if n > 0 {
      IterateConcat(f, a, b, n - 1);
      FlatMapConcat(f, Iterate(f, a, n - 1), Iterate(f, b, n - 1));
    }
  }

  lemma {:induction false} IterateNothing(f: nat -> seq<nat>, n: nat)
    ensures Iterate(f, [], n) == []
  {
    if n > 0 {
      IterateNothing(f, n - 1);
    }
  }

  /** n rounds are one round followed by n - 1 more. */
  lemma {:induction false} IterateFirst(f: nat -> seq<nat>, stones: seq<nat>, n: nat)
    requires n > 0
    ensures Iterate(f, stones, n) == Iterate(f, FlatMap(f, stones), n - 1)
  {
    if n > 1 {
      IterateFirst(f, stones, n - 1);
    }
  }

  // ---------------------------------------------------------------------
  // Part 2

  /** `get_stone_count` without its memo table: the stones one stone becomes after the given blinks. */
  function Count(n: nat, depth: nat): nat
    decreases depth
  {
    if depth == 0 then 1
    else if n == 0 then Count(1, depth - 1)
    else if EvenDigits(n) then Count(SplitDigits(n).0, depth - 1) + Count(SplitDigits(n).1, depth - 1)
    else Count(n * 2024, depth - 1)
  }

  /** The recursive count is the length of the blinked row of one stone, so it is at least one. */
  lemma {:induction false} CountIsLength(n: nat, depth: nat)
    ensures Count(n, depth) == |Blinks([n], depth)|
    decreases depth
  {
    if depth > 0 {
      BlinkSize(n);
      var r := Blink(n);
      CountIsLength(r[0], depth - 1);
      if |r| == 2 {
        CountIsLength(r[1], depth - 1);
      }
      LengthStep(n, depth, r);
    }
  }

  lemma LengthStep(n: nat, depth: nat, r: seq<nat>)
    requires depth > 0 && r == Blink(n)
    requires Count(r[0], depth - 1) == |Blinks([r[0]], depth - 1)|
    requires |r| == 2 ==> Count(r[1], depth - 1) == |Blinks([r[1]], depth - 1)|
    ensures Count(n, depth) == |Blinks([n], depth)|
  {
    BlinkSize(n);
    OneStone(n, depth);
    CountStep(n, depth);
    RowLength(r, depth - 1);
  }

  /** Every stone is still there, as one stone or more, after any number of blinks. */
  lemma CountPositive(n: nat, depth: nat)
    ensures Count(n, depth) >= 1
  {
    CountIsLength(n, depth);
    BlinksLength([n], depth);
  }

  /** One more blink of a stone is the following blinks of what it becomes. */
  lemma OneStone(n: nat, depth: nat)
    requires depth > 0
    ensures |Blinks([n], depth)| == |Blinks(Blink(n), depth - 1)|
  {
    IterateFirst(Blink, [n], depth);
    assert [n][..0] == [];
    assert FlatMap(Blink, [n]) == [] + Blink(n) == Blink(n);
  }

  /** The recursion of `get_stone_count` follows the blink rule. */
  lemma CountStep(n: nat, depth: nat)
    requires depth > 0
    ensures |Blink(n)| == 1 ==> Count(n, depth) == Count(Blink(n)[0], depth - 1)
    ensures |Blink(n)| == 2 ==> Count(n, depth) == Count(Blink(n)[0], depth - 1) + Count(Blink(n)[1], depth - 1)
  {
  }

  /** The stones of a row of one or two stones after some blinks. */
  lemma RowLength(row: seq<nat>, depth: nat)
    requires 1 <= |row| <= 2
    ensures |row| == 1 ==> |Blinks(row, depth)| == |Blinks([row[0]], depth)|
    ensures |row| == 2 ==> |Blinks(row, depth)| == |Blinks([row[0]], depth)| + |Blinks([row[1]], depth)|
  {
    if |row| == 2 {
      assert row == [row[0]] + [row[1]];
      IterateConcat(Blink, [row[0]], [row[1]], depth);
    } else {
      assert row == [row[0]];
    }
  }

  /** Every memo entry holds the count for its stone and depth. */
  ghost predicate MemoValid(mem: map<(nat, nat), nat>)
  {
    forall key :: key in mem ==> mem[key] == Count(key.0, key.1)
  }

  /** `get_stone_count`: answers a cached key from the table, and otherwise recurses and caches the result. */
  method StoneCount(num: nat, depth: nat, mem: map<(nat, nat), nat>) returns (result: nat, mem': map<(nat, nat), nat>)
    requires MemoValid(mem)
    ensures result == Count(num, depth)
    ensures MemoValid(mem') && mem.Keys <= mem'.Keys && (num, depth) in mem'
    decreases depth
  {
    var key := (num, depth);
    if key in mem {
      result, mem' := mem[key], mem;
    } else {
      if depth == 0 {
        result, mem' := 1, mem;
      } else if num == 0 {
        result, mem' := StoneCount(1, depth - 1, mem);
      } else if EvenDigits(num) {
        var (a, b) := SplitDigits(num);
        var left, right;
        left, mem' := StoneCount(a, depth - 1, mem);
        right, mem' := StoneCount(b, depth - 1, mem');
        result := left + right;
      } else {
        result, mem' := StoneCount(num * 2024, depth - 1, mem);
      }
      mem' := mem'[key := result];
    }
  }

  lemma RowStep(nums: seq<nat>, k: nat, depth: nat)
    requires k < |nums|
    ensures |Blinks(nums[..k + 1], depth)| == |Blinks(nums[..k], depth)| + |Blinks([nums[k]], depth)|
  {
    assert nums[..k + 1] == nums[..k] + [nums[k]];
    IterateConcat(Blink, nums[..k], [nums[k]], depth);
  }

  /** Part 2 `process`: the stones of the whole row after 75 blinks, one shared memo table for all stones. */
  method TotalStones(nums: seq<nat>) returns (total: nat)
    ensures total == |Blinks(nums, 75)|
  {
    var mem: map<(nat, nat), nat> := map[];
    total := 0;
    IterateNothing(Blink, 75);
    for k := 0 to |nums|
      invariant MemoValid(mem)
      invariant total == |Blinks(nums[..k], 75)|
    {
      var count;
      count, mem := StoneCount(nums[k], 75, mem);
      CountIsLength(nums[k], 75);
      RowStep(nums, k, 75);
      total := total + count;
    }
    assert nums[..|nums|] == nums;
  }

  // ---------------------------------------------------------------------
  // The unit test's first blink

  /** "125 17": 125 has three digits and becomes 253000; 17 splits into 1 and 7. */
  lemma FirstBlinkExample()
    ensures BlinkAll([125, 17]) == [253000, 1, 7]
  {
    assert NumDigits(125) == 3;
    assert NumDigits(17) == 2;
    assert [125, 17][..1] == [125];
    assert [125][..0] == [];
  }
}
