/**
 * The register-A search of day-17/src/part2.rs.  The program is the opcode
 * machine of `OpcodeMachine`, its expected output is the program text
 * itself, and the search pins bits of A that every good candidate shares:
 *
 *  - `InsertOneAtIndex` / `InsertZeroAtIndex` splice one bit into a word;
 *  - `CommonBitIndices` finds the bits a list of candidates agrees on;
 *  - `Program.Solve` runs the machine while its outputs match the expected
 *    list and returns how many matched (`MatchRun` is its meaning);
 *  - `Process` is the search loop, which returns the match count once a
 *    candidate reproduces the whole program.
 */
module SeedSearch {
  import opened Bits
  import opened OpcodeMachine
  import opened Decimal

  // ---------------------------------------------------------------------
  // Bit insertion

  /** Bit k of a word after bit b has been put in at position i. */
  function BitAfterInsert(n: Word, i: nat, b: nat, k: nat): nat
  {
    if k >= 64 then 0 else if k < i then Bit(n, k) else if k == i then b else Bit(n, k - 1)
  }

  /** The word `((n >> i) << (i + 1)) | (b << i) | (n & !(!0 << i))` in 64 bits. */
  lemma InsertedBits(n: Word, i: nat, b: nat)
    requires i < 64 && b <= 1
    ensures var x := ((n / Pow2(i)) * Pow2(i + 1) + b * Pow2(i) + n % Pow2(i)) % WORD;
      x < WORD && forall k: nat :: Bit(x, k) == BitAfterInsert(n, i, b, k)
  {
    SpreadValue(n, i, b);
    Pow2Word();
    var x := ((n / Pow2(i)) * Pow2(i + 1) + b * Pow2(i) + n % Pow2(i)) % WORD;
    assert x == Spread(n, i, b) % WORD;
    forall k: nat ensures Bit(x, k) == BitAfterInsert(n, i, b, k) {
      BitMod(Spread(n, i, b), 64, k);
      SpreadBit(n, i, b, k);
    }
  }

  /**
   * `insert_one_at_index`: bits below `index` stay, bit `index` becomes 1 and
   * the bits from `index` up move one place higher; bit 63 falls off the word.
   * An index of 64 or more overflows the shift `!0 << index` and panics.
   */
  function InsertOneAtIndex(n: Word, index: nat): (r: Word)
    requires index < 64
    ensures forall k: nat :: Bit(r, k) == BitAfterInsert(n, index, 1, k)
  {
    InsertedBits(n, index, 1);
    ((n / Pow2(index)) * Pow2(index + 1) + 1 * Pow2(index) + n % Pow2(index)) % WORD
  }

  /** `insert_zero_at_index`: the same, with a 0 put in at `index`. */
  function InsertZeroAtIndex(n: Word, index: nat): (r: Word)
    requires index < 64
    ensures forall k: nat :: Bit(r, k) == BitAfterInsert(n, index, 0, k)
  {
    InsertedBits(n, index, 0);
    ((n / Pow2(index)) * Pow2(index + 1) + 0 * Pow2(index) + n % Pow2(index)) % WORD
  }

  /** The unit tests: inserting at bit 2 of 0b1001011101. */
  lemma InsertExamples()
    ensures InsertOneAtIndex(0x25D, 2) == 0x4BD    // 0b1001011101 -> 0b10010111101
    ensures InsertZeroAtIndex(0x25D, 2) == 0x4B9   // 0b1001011101 -> 0b10010111001
  {
  }

  // ---------------------------------------------------------------------
  // Common bits

  datatype BitValue = One | Zero

  /** Every number has bit i set. */
  predicate AllSet(nums: seq<Word>, i: nat)
  {
    forall j :: 0 <= j < |nums| ==> Bit(nums[j], i) == 1
  }

  /** Every number has bit i clear. */
  predicate AllClear(nums: seq<Word>, i: nat)
  {
    forall j :: 0 <= j < |nums| ==> Bit(nums[j], i) == 0
  }

  /** Some number has a bit set above position i. */
  predicate BelowTopBit(nums: seq<Word>, i: nat)
  {
    exists j :: i < j < 64 && !AllClear(nums, j)
  }

  predicate IndicesIncrease(s: seq<(nat, BitValue)>)
  {
    forall k, l :: 0 <= k < l < |s| ==> s[k].0 < s[l].0
  }

  predicate IndicesAscend(s: seq<(nat, BitValue)>)
  {
    forall k, l :: 0 <= k < l < |s| ==> s[k].0 <= s[l].0
  }

  function Reverse(s: seq<nat>): (r: seq<nat>)
    ensures |r| == |s| && forall k :: 0 <= k < |s| ==> r[k] == s[|s| - 1 - k]
  {
    if s == [] then [] else Reverse(s[1..]) + [s[0]]
  }

  /** Put x before the first entry with a larger index. */
  function InsertByIndex(x: (nat, BitValue), s: seq<(nat, BitValue)>): (r: seq<(nat, BitValue)>)
    requires IndicesAscend(s)
    ensures IndicesAscend(r)
    ensures forall e :: e in r <==> e == x || e in s
  {
    if s == [] || x.0 <= s[0].0 then [x] + s
    else
      var rest := InsertByIndex(x, s[1..]);
      assert forall e :: e in rest ==> e.0 >= s[0].0;
      [s[0]] + rest
  }

  lemma {:induction false} InsertByIndexCounts(x: (nat, BitValue), s: seq<(nat, BitValue)>)
    requires IndicesAscend(s)
    ensures multiset(InsertByIndex(x, s)) == multiset(s) + multiset{x}
  {
    if s != [] && x.0 > s[0].0 {
      InsertByIndexCounts(x, s[1..]);
      assert s == [s[0]] + s[1..];
    }
  }

  lemma {:induction false} InsertByIndexStrict(x: (nat, BitValue), s: seq<(nat, BitValue)>)
    requires IndicesIncrease(s) && forall e :: e in s ==> e.0 != x.0
    ensures IndicesIncrease(InsertByIndex(x, s))
  {
    if s != [] && x.0 > s[0].0 {
      InsertByIndexStrict(x, s[1..]);
      var rest := InsertByIndex(x, s[1..]);
      forall e | e in rest ensures e.0 > s[0].0 {
        if e != x {
          var k :| 0 <= k < |s[1..]| && s[1..][k] == e;
          assert s[k + 1] == e;
        }
      }
    }
  }

  /** `sort_by_key(|e| e.0)`: a sorted rearrangement; strictly sorted when no index repeats. */
  method SortByIndex(s: seq<(nat, BitValue)>) returns (r: seq<(nat, BitValue)>)
    ensures IndicesAscend(r) && multiset(r) == multiset(s)
    ensures forall e :: e in r <==> e in s
    ensures DistinctIndices(s) ==> IndicesIncrease(r)
  {
    r := [];
    var i := 0;
    while i < |s|
      invariant i <= |s|
      invariant IndicesAscend(r) && multiset(r) == multiset(s[..i])
      invariant forall e :: e in r <==> e in s[..i]
      invariant DistinctIndices(s) ==> IndicesIncrease(r)
    {
      assert s[..i + 1] == s[..i] + [s[i]];
      if DistinctIndices(s) {
        forall e | e in r ensures e.0 != s[i].0 {
          var k :| 0 <= k < i && s[k] == e;
        }
        InsertByIndexStrict(s[i], r);
      }
      InsertByIndexCounts(s[i], r);
      r := InsertByIndex(s[i], r);
      i := i + 1;
    }
    assert s[..i] == s;
  }

  predicate DistinctIndices(s: seq<(nat, BitValue)>)
  {
    forall k, l :: 0 <= k < l < |s| ==> s[k].0 != s[l].0
  }

  /** The first loop of `common_bit_indices`: the common ones, and the common zeros in ascending order. */
  method ScanBits(nums: seq<Word>) returns (ones: seq<(nat, BitValue)>, zeroes: seq<nat>)
    ensures forall e :: e in ones <==> e.0 < 64 && e.1 == One && AllSet(nums, e.0)
    ensures IndicesIncrease(ones)
    ensures forall z: nat :: z in zeroes <==> z < 64 && AllClear(nums, z)
    ensures forall k, l :: 0 <= k < l < |zeroes| ==> zeroes[k] < zeroes[l]
  {
    ones, zeroes := [], [];
    var bitIndex := 0;
    while bitIndex < 64
      invariant bitIndex <= 64
      invariant forall e :: e in ones <==> e.0 < bitIndex && e.1 == One && AllSet(nums, e.0)
      invariant IndicesIncrease(ones)
      invariant forall k :: 0 <= k < |ones| ==> ones[k].0 < bitIndex
      invariant forall z: nat :: z in zeroes <==> z < bitIndex && AllClear(nums, z)
      invariant forall k, l :: 0 <= k < l < |zeroes| ==> zeroes[k] < zeroes[l]
      invariant forall k :: 0 <= k < |zeroes| ==> zeroes[k] < bitIndex
    {
      if AllSet(nums, bitIndex) {
        ones := ones + [(bitIndex, One)];
      }
      if AllClear(nums, bitIndex) {
        zeroes := zeroes + [bitIndex];
      }
      bitIndex := bitIndex + 1;
    }
  }

  /**
   * The second loop of `common_bit_indices`: walking down from bit 63, drop
   * the leading entries of the descending zero list while they are exactly
   * 63, 62, ...; what is left are the common zeros below the top set bit.
   */
  method DropTopZeroes(nums: seq<Word>, descending: seq<nat>) returns (zeroes: seq<nat>)
    requires forall z: nat :: z in descending <==> z < 64 && AllClear(nums, z)
    requires forall k, l :: 0 <= k < l < |descending| ==> descending[k] > descending[l]
    ensures forall z: nat :: z in zeroes <==> z < 64 && AllClear(nums, z) && BelowTopBit(nums, z)
    ensures forall k, l :: 0 <= k < l < |zeroes| ==> zeroes[k] > zeroes[l]
  {
    zeroes := descending;
    var top := 64;
    while top > 0
      invariant top <= 64
      invariant forall j :: top <= j < 64 ==> AllClear(nums, j)
      invariant forall z: nat :: z in zeroes <==> z < top && AllClear(nums, z)
      invariant forall k, l :: 0 <= k < l < |zeroes| ==> zeroes[k] > zeroes[l]
    {
      if zeroes != [] && zeroes[0] == top - 1 {
        zeroes := zeroes[1..];
        top := top - 1;
      } else {
        // the walk stops at a bit that some number sets
        if zeroes != [] {
          assert zeroes[0] in zeroes;
        }
        assert !AllClear(nums, top - 1);
        break;
      }
    }
  }

  /**
   * `common_bit_indices`: (i, One) for every bit all numbers set, (i, Zero)
   * for every bit all numbers clear below the highest bit any number sets;
   * sorted by index.
   */
  method CommonBitIndices(nums: seq<Word>) returns (r: seq<(nat, BitValue)>)
    ensures IndicesIncrease(r)
    ensures forall i: nat :: (i, One) in r <==> i < 64 && AllSet(nums, i)
    ensures forall i: nat :: (i, Zero) in r <==> i < 64 && AllClear(nums, i) && BelowTopBit(nums, i)
    ensures forall e :: e in r ==> e.0 < 64
  {
    var ones, ascending := ScanBits(nums);
    var descending := Reverse(ascending);
    forall z: nat ensures z in descending <==> z in ascending {
      if z in ascending {
        var k :| 0 <= k < |ascending| && ascending[k] == z;
        assert descending[|ascending| - 1 - k] == z;
      }
    }
    var zeroes := DropTopZeroes(nums, descending);

    var result := ones;
    var j := 0;
    while j < |zeroes|
      invariant j <= |zeroes|
      invariant forall e :: e in result <==> e in ones || (e.1 == Zero && e.0 in zeroes[..j])
      invariant |result| == |ones| + j && result[..|ones|] == ones
      invariant forall a :: 0 <= a < j ==> result[|ones| + a] == (zeroes[a], Zero)
    {
      result := result + [(zeroes[j], Zero)];
      assert zeroes[..j + 1] == zeroes[..j] + [zeroes[j]];
      j := j + 1;
    }
    assert zeroes[..j] == zeroes;

    // A common zero below the top bit means some number exists, so it is not a common one.
    forall i: nat | (i, Zero) in result ensures !AllSet(nums, i) {
      var top :| i < top < 64 && !AllClear(nums, top);
      assert |nums| > 0 && Bit(nums[0], i) == 0;
    }
    assert DistinctIndices(result) by {
      forall k, l | 0 <= k < l < |result| ensures result[k].0 != result[l].0 {
        ExclusiveEntries(ones, zeroes, result, k, l, nums);
      }
    }
    r := SortByIndex(result);
  }

  lemma ExclusiveEntries(ones: seq<(nat, BitValue)>, zeroes: seq<nat>, result: seq<(nat, BitValue)>, k: nat, l: nat, nums: seq<Word>)
    requires IndicesIncrease(ones) && forall e :: e in ones ==> e.1 == One && AllSet(nums, e.0)
    requires forall a, b :: 0 <= a < b < |zeroes| ==> zeroes[a] > zeroes[b]
    requires forall e :: e in result <==> e in ones || (e.1 == Zero && e.0 in zeroes)
    requires forall i: nat :: (i, Zero) in result ==> !AllSet(nums, i)
    requires |result| == |ones| + |zeroes|
    requires result[..|ones|] == ones
    requires forall a :: 0 <= a < |zeroes| ==> result[|ones| + a] == (zeroes[a], Zero)
    requires 0 <= k < l < |result|
    ensures result[k].0 != result[l].0
  {
    if l < |ones| {
      assert result[k] == ones[k] && result[l] == ones[l];
    } else if k < |ones| {
      assert result[k] == ones[k];
      assert result[l] == (zeroes[l - |ones|], Zero);
      assert (result[l].0, Zero) in result;
      assert ones[k] in ones;
    } else {
      assert result[k] == (zeroes[k - |ones|], Zero) && result[l] == (zeroes[l - |ones|], Zero);
    }
  }

  lemma SameEntriesBothEmpty<T>(r: seq<T>, t: seq<T>)
    requires forall e :: e in r <==> e in t
    ensures r == [] <==> t == []
  {
    if t != [] {
      assert t[0] in r;
    }
    if r != [] {
      assert r[0] in t;
    }
  }

  /** Two strictly sorted lists with the same entries are the same list. */
  lemma {:induction false} IncreasingUnique(r: seq<(nat, BitValue)>, t: seq<(nat, BitValue)>)
    requires IndicesIncrease(r) && IndicesIncrease(t)
    requires forall e :: e in r <==> e in t
    ensures r == t
    decreases |r|
  {
    if r == [] || t == [] {
      SameEntriesBothEmpty(r, t);
    } else {
      SameHeads(r, t);
      SameTails(r, t);
      IncreasingUnique(r[1..], t[1..]);
      assert r == [r[0]] + r[1..] && t == [t[0]] + t[1..];
    }
  }

  /** Two strictly sorted lists with the same entries start with the same entry. */
  lemma SameHeads(r: seq<(nat, BitValue)>, t: seq<(nat, BitValue)>)
    requires IndicesIncrease(r) && IndicesIncrease(t) && r != [] && t != []
    requires forall e :: e in r <==> e in t
    ensures r[0] == t[0]
  {
    assert r[0] in t && t[0] in r;
    var i :| 0 <= i < |t| && t[i] == r[0];
    var j :| 0 <= j < |r| && r[j] == t[0];
    assert i == 0;
  }

  /** With the same first entry, the rests have the same entries too. */
  lemma SameTails(r: seq<(nat, BitValue)>, t: seq<(nat, BitValue)>)
    requires IndicesIncrease(r) && IndicesIncrease(t) && r != [] && t != [] && r[0] == t[0]
    requires forall e :: e in r <==> e in t
    ensures IndicesIncrease(r[1..]) && IndicesIncrease(t[1..])
    ensures forall e :: e in r[1..] <==> e in t[1..]
  {
    forall e ensures e in r[1..] <==> e in t[1..] {
      if e in r[1..] {
        var k :| 0 <= k < |r[1..]| && r[1..][k] == e;
        assert r[k + 1] == e && e in t && e != t[0];
        var m :| 0 <= m < |t| && t[m] == e;
        assert t[1..][m - 1] == e;
      }
      if e in t[1..] {
        var k :| 0 <= k < |t[1..]| && t[1..][k] == e;
        assert t[k + 1] == e && e in r && e != r[0];
        var m :| 0 <= m < |r| && r[m] == e;
        assert r[1..][m - 1] == e;
      }
    }
  }

  /** The numbers of the unit test: 0b101, 0b10010101 and 0b1111101. */
  const ExampleNums: seq<Word> := [5, 149, 125]

  lemma ExampleHighBits(i: nat)
    requires 8 <= i
    ensures AllClear(ExampleNums, i) && !AllSet(ExampleNums, i)
  {
    assert Pow2(8) == 256;
    BitAbove(5, 8, i);
    BitAbove(149, 8, i);
    BitAbove(125, 8, i);
    assert ExampleNums[0] == 5 && ExampleNums[1] == 149 && ExampleNums[2] == 125;
    assert Bit(ExampleNums[0], i) == 0;
  }

  /** Bit 7 is the highest bit any of the numbers sets. */
  lemma ExampleTopBit(i: nat)
    ensures BelowTopBit(ExampleNums, i) <==> i < 7
  {
    assert !AllClear(ExampleNums, 7) by {
      assert Bit(ExampleNums[1], 7) == 1;
    }
    forall j | 8 <= j < 64 ensures AllClear(ExampleNums, j) {
      ExampleHighBits(j);
    }
  }

  lemma ExampleLowBits()
    ensures AllSet(ExampleNums, 0) && AllSet(ExampleNums, 2) && AllClear(ExampleNums, 1)
    ensures forall i :: 3 <= i < 8 ==> !AllSet(ExampleNums, i) && !AllClear(ExampleNums, i)
    ensures !AllClear(ExampleNums, 0) && !AllClear(ExampleNums, 2) && !AllSet(ExampleNums, 1)
  {
    var n := ExampleNums;
    assert n[0] == 5 && n[1] == 149 && n[2] == 125;
    assert Bit(n[0], 0) == 1 && Bit(n[0], 1) == 0 && Bit(n[0], 2) == 1;
    assert Bit(5, 3) == 0 && Bit(5, 4) == 0 && Bit(5, 5) == 0 && Bit(5, 6) == 0 && Bit(5, 7) == 0;
    assert Bit(125, 3) == 1 && Bit(125, 4) == 1 && Bit(125, 5) == 1 && Bit(125, 6) == 1 && Bit(149, 7) == 1;
    forall i | 3 <= i < 8 ensures !AllSet(n, i) && !AllClear(n, i) {
      assert i == 3 || i == 4 || i == 5 || i == 6 || i == 7;
    }
  }

  /** The unit test: the numbers share bit 0 and bit 2 set and bit 1 clear. */
  method CommonBitsExample() returns (r: seq<(nat, BitValue)>)
    ensures r == [(0, One), (1, Zero), (2, One)]
  {
    r := CommonBitIndices(ExampleNums);
    var t := [(0, One), (1, Zero), (2, One)];
    ExampleLowBits();
    forall e ensures e in r <==> e in t {
      ExampleTopBit(e.0);
      if e.0 >= 8 {
        ExampleHighBits(e.0);
      }
      assert e.1 == One || e.1 == Zero;
    }
    IncreasingUnique(r, t);
  }

  // ---------------------------------------------------------------------
  // The matching run

  /** How a matching run ends: with the number of outputs that matched, or not at all. */
  datatype MatchOutcome = Matched(count: nat, regs: Registers) | MatchPanicked | MatchOutOfFuel

  /**
   * `solve` of part 2 from machine m, with `oidx` outputs matched so far: it
   * runs `Step` like part 1, but stops at the first output that is not the
   * next expected value (or comes after all of them) and returns the count.
   */
  function MatchRun(prog: seq<Instruction>, expected: seq<nat>, m: Machine, oidx: nat, fuel: nat): MatchOutcome
    decreases fuel
  {
    if m.idx >= |prog| then Matched(oidx, m.regs)
    else if fuel == 0 then MatchOutOfFuel
    else match Step(prog, m)
      case Panic => MatchPanicked
      case Next(m', out) =>
        if out == [] then MatchRun(prog, expected, m', oidx, fuel - 1)
        else if oidx < |expected| && expected[oidx] == out[0] then MatchRun(prog, expected, m', oidx + 1, fuel - 1)
        else Matched(if oidx > |expected| then oidx + 1 else oidx, m'.regs)
  }

  /** Length of the longest common prefix. */
  function CommonPrefix(a: seq<nat>, b: seq<nat>): nat
  {
    if a == [] || b == [] || a[0] != b[0] then 0 else 1 + CommonPrefix(a[1..], b[1..])
  }

  /** The prefixes of that length agree and the elements right after them differ. */
  lemma {:induction false} CommonPrefixIs(a: seq<nat>, b: seq<nat>)
    ensures var r := CommonPrefix(a, b);
      r <= |a| && r <= |b| && a[..r] == b[..r] && (r < |a| && r < |b| ==> a[r] != b[r])
  {
    if a != [] && b != [] && a[0] == b[0] {
      CommonPrefixIs(a[1..], b[1..]);
      var rest := CommonPrefix(a[1..], b[1..]);
      assert a[..rest + 1] == [a[0]] + a[1..][..rest];
      assert b[..rest + 1] == [b[0]] + b[1..][..rest];
    }
  }

  /** The count never passes the number of expected values, so the branch `oidx > expected.len()` is dead. */
  lemma {:induction false} MatchBound(prog: seq<Instruction>, expected: seq<nat>, m: Machine, oidx: nat, fuel: nat)
    requires oidx <= |expected|
    ensures var r := MatchRun(prog, expected, m, oidx, fuel);
      r.Matched? ==> oidx <= r.count <= |expected|
    decreases fuel
  {
    if m.idx < |prog| && fuel > 0 {
      match Step(prog, m)
      case Panic =>
      case Next(m', out) =>
        if out == [] {
          MatchBound(prog, expected, m', oidx, fuel - 1);
        } else if oidx < |expected| && expected[oidx] == out[0] {
          MatchBound(prog, expected, m', oidx + 1, fuel - 1);
        }
    }
  }

  /**
   * When the plain run of part 1 halts, the matching run counts exactly the
   * outputs that agree with the rest of the expected list.
   */
  lemma {:induction false} MatchAgreesWithRun(prog: seq<Instruction>, expected: seq<nat>, m: Machine, oidx: nat, fuel: nat)
    requires oidx <= |expected| && Run(prog, m, fuel).Halted?
    ensures var r := MatchRun(prog, expected, m, oidx, fuel);
      r.Matched? && r.count == oidx + CommonPrefix(Run(prog, m, fuel).outputs, expected[oidx..])
    decreases fuel
  {
    if m.idx < |prog| {
      match Step(prog, m)
      case Next(m', out) =>
        var outs := Run(prog, m', fuel - 1).outputs;
        assert Run(prog, m, fuel).outputs == out + outs;
        if out == [] {
          assert out + outs == outs;
          MatchAgreesWithRun(prog, expected, m', oidx, fuel - 1);
        } else if oidx < |expected| && expected[oidx] == out[0] {
          MatchAgreesWithRun(prog, expected, m', oidx + 1, fuel - 1);
          assert (out + outs)[1..] == outs;
          assert expected[oidx..][1..] == expected[oidx + 1..];
        }
    }
  }

  /** The answer of the search: every expected value matched. */
  predicate Reproduces(prog: seq<Instruction>, expected: seq<nat>, regs: Registers, fuel: nat)
  {
    var r := MatchRun(prog, expected, Machine(regs, 0), 0, fuel);
    r.Matched? && r.count == |expected|
  }

  /** A halting run reproduces the expected list exactly when its outputs begin with it. */
  lemma ReproducesIffPrefix(prog: seq<Instruction>, expected: seq<nat>, regs: Registers, fuel: nat)
    requires Run(prog, Machine(regs, 0), fuel).Halted?
    ensures var outs := Run(prog, Machine(regs, 0), fuel).outputs;
      Reproduces(prog, expected, regs, fuel) <==> |expected| <= |outs| && outs[..|expected|] == expected
  {
    MatchAgreesWithRun(prog, expected, Machine(regs, 0), 0, fuel);
    CommonPrefixIs(Run(prog, Machine(regs, 0), fuel).outputs, expected);
    assert expected[0..] == expected;
  }

  /** The instruction pairs of a flat list: `chunks(2)`, which panics on an odd length. */
  function Pairs(s: seq<Word>): (r: seq<Instruction>)
    requires |s| % 2 == 0
    ensures |r| == |s| / 2
    ensures forall i :: 0 <= i < |r| ==> r[i] == Instruction(s[2 * i], s[2 * i + 1])
  {
    if s == [] then [] else [Instruction(s[0], s[1])] + Pairs(s[2..])
  }

  class Program {
    var registerA: Word
    var registerB: Word
    var registerC: Word
    var instructions: seq<Instruction>
    var origB: Word
    var origC: Word
    var expected: seq<nat>

    /**
     * `Program::new` on the numbers of the puzzle text: three registers, then
     * the program, which is both the instruction pairs and the expected output.
     */
    constructor (data: seq<Word>)
      requires |data| >= 3 && (|data| - 3) % 2 == 0
      ensures registerA == data[0] && registerB == data[1] && registerC == data[2]
      ensures origB == data[1] && origC == data[2]
      ensures instructions == Pairs(data[3..]) && expected == data[3..]
    {
      registerA, registerB, registerC := data[0], data[1], data[2];
      instructions := Pairs(data[3..]);
      origB, origC := data[1], data[2];
      expected := data[3..];
    }

    function Regs(): Registers
      reads this
    {
      Registers(registerA, registerB, registerC)
    }

    /** `solve`: run from pair 0 while the outputs match `expected`; the registers end as the run leaves them. */
    method Solve(fuel: nat) returns (r: MatchOutcome)
      modifies this`registerA, this`registerB, this`registerC
      ensures r == MatchRun(instructions, expected, Machine(old(Regs()), 0), 0, fuel)
      ensures r.Matched? ==> Regs() == r.regs
    {
      ghost var start := Machine(Regs(), 0);
      var idx: nat := 0;
      var oidx: nat := 0;
      var left := fuel;
      while idx < |instructions|
        invariant MatchRun(instructions, expected, start, 0, fuel) == MatchRun(instructions, expected, Machine(Regs(), idx), oidx, left)
        decreases left
      {
        if left == 0 {
          return MatchOutOfFuel;
        }
        ghost var before := Machine(Regs(), idx);
        var instruction := instructions[idx];
        idx := idx + 1;
        var combo := Combo(Regs(), instruction.operand);
        var literal := instruction.operand;
        ghost var out: seq<nat> := [];
        match instruction.opcode {
          case 0 =>
            if combo >= 64 { return MatchPanicked; }
            ShiftRightBelow(registerA, combo);
            registerA := ShiftRight(registerA, combo);
          case 6 =>
            if combo >= 64 { return MatchPanicked; }
            ShiftRightBelow(registerA, combo);
            registerB := ShiftRight(registerA, combo);
          case 7 =>
            if combo >= 64 { return MatchPanicked; }
            ShiftRightBelow(registerA, combo);
            registerC := ShiftRight(registerA, combo);
          case 1 => registerB := XorWord(registerB, literal);
          case 2 => registerB := combo % 8;
          case 3 =>
            if registerA != 0 {
              idx := literal / 2;
            }
          case 4 => registerB := XorWord(registerB, registerC);
          case 5 =>
            var o := combo % 8;
            out := [o];
            assert Step(instructions, before) == Next(Machine(Regs(), idx), out);
            if oidx < |expected| && expected[oidx] == o {
              oidx := oidx + 1;
            } else {
              if oidx > |expected| {
                oidx := oidx + 1;
              }
              return Matched(oidx, Regs());
            }
          case _ => return MatchPanicked;
        }
        assert Step(instructions, before) == Next(Machine(Regs(), idx), out);
        left := left - 1;
      }
      r := Matched(oidx, Regs());
    }

    /** `reset`: put B and C back to their values from the puzzle text. */
    method Reset()
      modifies this`registerB, this`registerC
      ensures registerB == origB && registerC == origC
    {
      registerB := origB;
      registerC := origC;
    }
  }

  // ---------------------------------------------------------------------
  // The search

  /** How many low values of A each round tries. */
  const Candidates: nat := 1_000_000

  /** The guaranteed bits put into a candidate, in list order. */
  method ApplyBits(a: Word, bits: seq<(nat, BitValue)>) returns (r: Word)
    requires forall e :: e in bits ==> e.0 < 64
    ensures r == ApplyAll(a, bits)
  {
    r := a;
    var i := 0;
    while i < |bits|
      invariant i <= |bits|
      invariant ApplyAll(a, bits) == ApplyAll(r, bits[i..])
    {
      assert bits[i] in bits;
      assert bits[i..] == [bits[i]] + bits[i + 1..];
      var (index, bit) := bits[i];
      r := match bit
        case One => InsertOneAtIndex(r, index)
        case Zero => InsertZeroAtIndex(r, index);
      i := i + 1;
    }
  }

  function ApplyAll(a: Word, bits: seq<(nat, BitValue)>): Word
    requires forall e :: e in bits ==> e.0 < 64
    decreases |bits|
  {
    if bits == [] then a
    else
      assert bits[0] in bits;
      var a' := match bits[0].1
        case One => InsertOneAtIndex(a, bits[0].0)
        case Zero => InsertZeroAtIndex(a, bits[0].0);
      ApplyAll(a', bits[1..])
  }

  /**
   * Every guaranteed bit is in the candidate: inserting bits at increasing
   * positions leaves each earlier one where it was put.
   */
  lemma {:induction false} ApplyAllKeepsBits(a: Word, bits: seq<(nat, BitValue)>, k: nat)
    requires IndicesIncrease(bits) && forall e :: e in bits ==> e.0 < 64
    requires (k, One) in bits || (k, Zero) in bits
    ensures Bit(ApplyAll(a, bits), k) == if (k, One) in bits then 1 else 0
    decreases |bits|
  {
    assert bits[0] in bits;
    var a' := match bits[0].1
      case One => InsertOneAtIndex(a, bits[0].0)
      case Zero => InsertZeroAtIndex(a, bits[0].0);
    if bits[0].0 == k {
      ApplyAllKeepsBelow(a', bits[1..], k);
      assert (k, One) in bits <==> bits[0].1 == One by {
        forall j | 0 < j < |bits| ensures bits[j].0 != k {
        }
      }
    } else {
      var j :| 0 < j < |bits| && bits[j].0 == k;
      assert bits[1..][j - 1] == bits[j];
      ApplyAllKeepsBits(a', bits[1..], k);
      assert (k, One) in bits <==> (k, One) in bits[1..];
    }
  }

  /** Inserting bits strictly above position k leaves bit k alone. */
  lemma {:induction false} ApplyAllKeepsBelow(a: Word, bits: seq<(nat, BitValue)>, k: nat)
    requires IndicesIncrease(bits) && forall e :: e in bits ==> e.0 < 64 && e.0 > k
    ensures Bit(ApplyAll(a, bits), k) == Bit(a, k)
    decreases |bits|
  {
    if bits != [] {
      assert bits[0] in bits;
      var a' := match bits[0].1
        case One => InsertOneAtIndex(a, bits[0].0)
        case Zero => InsertZeroAtIndex(a, bits[0].0);
      assert Bit(a', k) == Bit(a, k);
      ApplyAllKeepsBelow(a', bits[1..], k);
    }
  }

  /**
   * `process`: for growing thresholds, try the first million candidates with
   * the guaranteed bits put in; a candidate whose run matches more than the
   * threshold is kept, and one that matches the whole program ends the search
   * with the match count.  The bits all kept candidates share become the next
   * round's guaranteed bits.
   */
  method Process(data: seq<Word>, fuel: nat) returns (answer: Answer)
    requires |data| >= 3 && (|data| - 3) % 2 == 0
    ensures answer.Text? && answer.s != "No Result" ==> answer.s == NatToString(|data| - 3)
    ensures answer.Text? && answer.s != "No Result" ==>
      exists a: Word :: Reproduces(Pairs(data[3..]), data[3..], Registers(a, data[1], data[2]), fuel)
    ensures answer == Crashed ==>
      exists a: Word :: MatchRun(Pairs(data[3..]), data[3..], Machine(Registers(a, data[1], data[2]), 0), 0, fuel) == MatchPanicked
    ensures answer == Unfinished ==>
      exists a: Word :: MatchRun(Pairs(data[3..]), data[3..], Machine(Registers(a, data[1], data[2]), 0), 0, fuel) == MatchOutOfFuel
    ensures |data| - 3 <= 1 ==> answer == Text("No Result")
  {
    var prog := new Program(data);
    var goal := |prog.expected|;
    var guaranteed: seq<(nat, BitValue)> := [];
    var min := 1;
    while min < goal
      invariant prog.instructions == Pairs(data[3..]) && prog.expected == data[3..]
      invariant prog.origB == data[1] && prog.origC == data[2]
      invariant forall e :: e in guaranteed ==> e.0 < 64
    {
      var potential: seq<Word> := [];
      var candidate := 0;
      while candidate < Candidates
        invariant prog.instructions == Pairs(data[3..]) && prog.expected == data[3..]
        invariant prog.origB == data[1] && prog.origC == data[2]
      {
        var a := ApplyBits(candidate, guaranteed);
        prog.registerA := a;
        prog.Reset();
        var result := prog.Solve(fuel);
        match result {
          case MatchPanicked => return Crashed;
          case MatchOutOfFuel => return Unfinished;
          case Matched(count, _) =>
            if count > min {
              potential := potential + [a];
              if count == goal {
                return Text(NatToString(count));
              }
            }
        }
        candidate := candidate + 1;
      }
      guaranteed := CommonBitIndices(potential);
      min := min + 1;
    }
    answer := Text("No Result");
  }
}
