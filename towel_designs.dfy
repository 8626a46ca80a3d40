/**
 * 2024/day-19 part 1: a design is possible when it can be laid out as a
 * row of towels taken from the available patterns (each usable any number
 * of times).  `validate_design` tries the towels in order: a towel equal to
 * the design settles it, a towel that is a proper prefix leaves the rest of
 * the design to check, and results are remembered per design.
 */
module TowelDesigns {
  /** The parser reads every towel with `alpha1`, so none is empty. */
  predicate NonEmptyTowels(towels: seq<string>)
  {
    forall k :: 0 <= k < |towels| ==> |towels[k]| > 0
  }

  /** `strip_prefix` succeeds. */
  predicate StartsWith(design: string, towel: string)
  {
    |towel| <= |design| && design[..|towel|] == towel
  }

  /** `validate_design` without the memo table. */
  predicate Possible(design: string, towels: seq<string>)
    requires NonEmptyTowels(towels)
    decreases |design|, |towels| + 1
  {
    PossibleFrom(design, towels, 0)
  }

  /** The `any` over towels k, k + 1, ... */
  predicate PossibleFrom(design: string, towels: seq<string>, k: nat)
    requires NonEmptyTowels(towels) && k <= |towels|
    decreases |design|, |towels| - k
  {
    k < |towels| &&
    ((if design == towels[k] then true
      else if StartsWith(design, towels[k]) then Possible(design[|towels[k]|..], towels)
      else false)
     || PossibleFrom(design, towels, k + 1))
  }

  /** Towels laid side by side. */
  function Concat(parts: seq<string>): string
  {
    if parts == [] then [] else parts[0] + Concat(parts[1..])
  }

  ghost predicate AllTowels(parts: seq<string>, towels: seq<string>)
  {
    forall i :: 0 <= i < |parts| ==> parts[i] in towels
  }

  /** The design is a row of one or more towels. */
  ghost predicate Composed(design: string, towels: seq<string>)
  {
    exists parts :: |parts| >= 1 && AllTowels(parts, towels) && Concat(parts) == design
  }

  /** Memo entries agree with recomputation. */
  ghost predicate MemoValid(mem: map<string, bool>, towels: seq<string>)
    requires NonEmptyTowels(towels)
  {
    forall d :: d in mem ==> mem[d] == Possible(d, towels)
  }

  /** `validate_design`, threading the memo table through the recursive calls. */
  method ValidateDesign(design: string, towels: seq<string>, mem: map<string, bool>) returns (result: bool, mem': map<string, bool>)
    requires NonEmptyTowels(towels) && MemoValid(mem, towels)
    ensures result == Possible(design, towels)
    ensures MemoValid(mem', towels) && mem.Keys <= mem'.Keys && design in mem'
    decreases |design|
  {
    if design in mem {
      return mem[design], mem;
    }
    mem' := mem;
    result := false;
    var k := 0;
    while k < |towels|
      invariant k <= |towels| && MemoValid(mem', towels) && mem.Keys <= mem'.Keys
      invariant Possible(design, towels) == PossibleFrom(design, towels, k)
    {
      var towel := towels[k];
      var hit: bool;
      if design == towel {
        hit := true;
      } else if StartsWith(design, towel) {
        hit, mem' := ValidateDesign(design[|towel|..], towels, mem');
      } else {
        hit := false;
      }
      if hit {
        result := true;
        break;
      }
      k := k + 1;
    }
    mem' := mem'[design := result];
  }

  /** The number of possible designs. */
  function PossibleCount(designs: seq<string>, towels: seq<string>): (n: nat)
    requires NonEmptyTowels(towels)
    ensures n <= |designs|
  {
    if designs == [] then 0
    else PossibleCount(designs[..|designs| - 1], towels) + (if Possible(designs[|designs| - 1], towels) then 1 else 0)
  }

  /** `process`: each design checked with a fresh memo table, the possible ones counted. */
  method Process(towels: seq<string>, designs: seq<string>) returns (count: nat)
    requires NonEmptyTowels(towels)
    ensures count == PossibleCount(designs, towels)
  {
    count := 0;
    for i := 0 to |designs|
      invariant count == PossibleCount(designs[..i], towels)
    {
      var ok, _ := ValidateDesign(designs[i], towels, map[]);
      assert designs[..i + 1][..i] == designs[..i];
      if ok {
        count := count + 1;
      }
    }
    assert designs[..|designs|] == designs;
  }

  // ---------------------------------------------------------------------
  // Properties

  lemma {:induction false} ConcatPrepend(part: string, parts: seq<string>)
    ensures Concat([part] + parts) == part + Concat(parts)
  {
    assert ([part] + parts)[1..] == parts;
  }

  /** A found towel at index m makes the `any` from any earlier start succeed. */
  lemma {:induction false} PossibleFromEarlier(design: string, towels: seq<string>, k: nat, m: nat)
    requires NonEmptyTowels(towels) && k <= m <= |towels| && PossibleFrom(design, towels, m)
    ensures PossibleFrom(design, towels, k)
    decreases m - k
  {
    if k < m {
      PossibleFromEarlier(design, towels, k + 1, m);
    }
  }

  /** Possible designs are rows of towels. */
  lemma {:induction false} PossibleIsComposed(design: string, towels: seq<string>)
    requires NonEmptyTowels(towels) && Possible(design, towels)
    ensures Composed(design, towels)
    decreases |design|, |towels| + 1
  {
    PossibleFromIsComposed(design, towels, 0);
  }

  lemma {:induction false} PossibleFromIsComposed(design: string, towels: seq<string>, k: nat)
    requires NonEmptyTowels(towels) && k <= |towels| && PossibleFrom(design, towels, k)
    ensures Composed(design, towels)
    decreases |design|, |towels| - k
  {
    var towel := towels[k];
    if design == towel {
      assert Concat([towel]) == towel by { ConcatPrepend(towel, []); }
      assert AllTowels([towel], towels);
    } else if StartsWith(design, towel) && Possible(design[|towel|..], towels) {
      PossibleIsComposed(design[|towel|..], towels);
      var parts :| |parts| >= 1 && AllTowels(parts, towels) && Concat(parts) == design[|towel|..];
      ConcatPrepend(towel, parts);
      assert design == towel + design[|towel|..];
      assert AllTowels([towel] + parts, towels);
    } else {
      PossibleFromIsComposed(design, towels, k + 1);
    }
  }

  /** Any row of towels is a possible design. */
  lemma {:induction false} ComposedIsPossible(parts: seq<string>, towels: seq<string>)
    requires NonEmptyTowels(towels) && |parts| >= 1 && AllTowels(parts, towels)
    ensures Possible(Concat(parts), towels)
    decreases |parts|
  {
    var design := Concat(parts);
    var m :| 0 <= m < |towels| && towels[m] == parts[0];
    ConcatPrepend(parts[0], parts[1..]);
    assert [parts[0]] + parts[1..] == parts;
    if |parts| > 1 {
      assert AllTowels(parts[1..], towels);
      ComposedIsPossible(parts[1..], towels);
      assert design[|towels[m]|..] == Concat(parts[1..]);
    }
    assert PossibleFrom(design, towels, m);
    PossibleFromEarlier(design, towels, 0, m);
  }

  /** `validate_design` holds exactly for designs that are rows of towels. */
  lemma PossibleIffComposed(design: string, towels: seq<string>)
    requires NonEmptyTowels(towels)
    ensures Possible(design, towels) <==> Composed(design, towels)
  {
    if Possible(design, towels) {
      PossibleIsComposed(design, towels);
    }
    if Composed(design, towels) {
      var parts :| |parts| >= 1 && AllTowels(parts, towels) && Concat(parts) == design;
      ComposedIsPossible(parts, towels);
    }
  }

  /** The empty design is never possible. */
  lemma {:induction false} EmptyImpossible(towels: seq<string>, k: nat)
    requires NonEmptyTowels(towels) && k <= |towels|
    ensures !PossibleFrom([], towels, k)
    decreases |towels| - k
  {
    if k < |towels| {
      EmptyImpossible(towels, k + 1);
    }
  }

  /** The count of a list of designs is the sum over its parts. */
  lemma {:induction false} PossibleCountConcat(a: seq<string>, b: seq<string>, towels: seq<string>)
    requires NonEmptyTowels(towels)
    ensures PossibleCount(a + b, towels) == PossibleCount(a, towels) + PossibleCount(b, towels)
  {
    if b != [] {
      PossibleCountConcat(a, b[..|b| - 1], towels);
      assert (a + b)[..|a + b| - 1] == a + b[..|b| - 1];
    } else {
      assert a + b == a;
    }
  }
}

/**
 * 2024/day-19 part 2: the number of different rows of towels that make a
 * design, by the same recursion as part 1 with a sum in place of `any`.
 */
module TowelArrangements {
  import opened TowelDesigns

  /** `count_valid_designs` without the memo table. */
  function Arrangements(design: string, towels: seq<string>): nat
    requires NonEmptyTowels(towels)
    decreases |design|, |towels| + 1
  {
    ArrangementsFrom(design, towels, 0)
  }

  /** The `sum` over towels k, k + 1, ... */
  function ArrangementsFrom(design: string, towels: seq<string>, k: nat): nat
    requires NonEmptyTowels(towels) && k <= |towels|
    decreases |design|, |towels| - k
  {
    if k == |towels| then 0
    else
      (if design == towels[k] then 1
       else if StartsWith(design, towels[k]) then Arrangements(design[|towels[k]|..], towels)
       else 0)
      + ArrangementsFrom(design, towels, k + 1)
  }

  ghost predicate MemoValid(mem: map<string, nat>, towels: seq<string>)
    requires NonEmptyTowels(towels)
  {
    forall d :: d in mem ==> mem[d] == Arrangements(d, towels)
  }

  /** `count_valid_designs`, threading the memo table through the recursive calls. */
  method CountValidDesigns(design: string, towels: seq<string>, mem: map<string, nat>) returns (result: nat, mem': map<string, nat>)
    requires NonEmptyTowels(towels) && MemoValid(mem, towels)
    ensures result == Arrangements(design, towels)
    ensures MemoValid(mem', towels) && mem.Keys <= mem'.Keys && design in mem'
    decreases |design|
  {
    if design in mem {
      return mem[design], mem;
    }
    mem' := mem;
    result := 0;
    var k := 0;
    while k < |towels|
      invariant k <= |towels| && MemoValid(mem', towels) && mem.Keys <= mem'.Keys
      invariant Arrangements(design, towels) == result + ArrangementsFrom(design, towels, k)
    {
      var towel := towels[k];
      var ways: nat;
      if design == towel {
        ways := 1;
      } else if StartsWith(design, towel) {
        ways, mem' := CountValidDesigns(design[|towel|..], towels, mem');
      } else {
        ways := 0;
      }
      result := result + ways;
      k := k + 1;
    }
    mem' := mem'[design := result];
  }

  /** The arrangements of all designs. */
  function TotalArrangements(designs: seq<string>, towels: seq<string>): nat
    requires NonEmptyTowels(towels)
  {
    if designs == [] then 0
    else TotalArrangements(designs[..|designs| - 1], towels) + Arrangements(designs[|designs| - 1], towels)
  }

  /** `process`: each design counted with a fresh memo table, the counts summed. */
  method Process(towels: seq<string>, designs: seq<string>) returns (count: nat)
    requires NonEmptyTowels(towels)
    ensures count == TotalArrangements(designs, towels)
  {
    count := 0;
    for i := 0 to |designs|
      invariant count == TotalArrangements(designs[..i], towels)
    {
      var ways, _ := CountValidDesigns(designs[i], towels, map[]);
      assert designs[..i + 1][..i] == designs[..i];
      count := count + ways;
    }
    assert designs[..|designs|] == designs;
  }

  // ---------------------------------------------------------------------
  // Properties

  /** A design has an arrangement exactly when part 1 finds it possible. */
  lemma ArrangedIffPossible(design: string, towels: seq<string>)
    requires NonEmptyTowels(towels)
    ensures Arrangements(design, towels) > 0 <==> Possible(design, towels)
    decreases |design|, |towels| + 1
  {
    ArrangedFromIffPossibleFrom(design, towels, 0);
  }

  lemma {:induction false} ArrangedFromIffPossibleFrom(design: string, towels: seq<string>, k: nat)
    requires NonEmptyTowels(towels) && k <= |towels|
    ensures ArrangementsFrom(design, towels, k) > 0 <==> PossibleFrom(design, towels, k)
    decreases |design|, |towels| - k
  {
    if k < |towels| {
      var towel := towels[k];
      if design != towel && StartsWith(design, towel) {
        ArrangedIffPossible(design[|towel|..], towels);
      }
      ArrangedFromIffPossibleFrom(design, towels, k + 1);
    }
  }

  /** The empty design has no arrangement. */
  lemma {:induction false} EmptyHasNone(towels: seq<string>, k: nat)
    requires NonEmptyTowels(towels) && k <= |towels|
    ensures ArrangementsFrom([], towels, k) == 0
    decreases |towels| - k
  {
    if k < |towels| {
      EmptyHasNone(towels, k + 1);
    }
  }

  /** Every possible design counts at least once, so the part 2 total bounds part 1's count. */
  lemma {:induction false} TotalBoundsPossible(designs: seq<string>, towels: seq<string>)
    requires NonEmptyTowels(towels)
    ensures PossibleCount(designs, towels) <= TotalArrangements(designs, towels)
  {
    if designs != [] {
      TotalBoundsPossible(designs[..|designs| - 1], towels);
      ArrangedIffPossible(designs[|designs| - 1], towels);
    }
  }
}
