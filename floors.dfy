/**
 * 2015/day-01: Santa follows a string of parentheses, one floor up for
 * `(` and one down for `)`.  Part 1 is the final floor, part 2 the first
 * 1-based position at which he stands on floor -1.  Any other character
 * is unreachable in the source, so both parts ask for parentheses only.
 */
module Floors {
  predicate Parens(s: string)
  {
    forall i :: 0 <= i < |s| ==> s[i] == '(' || s[i] == ')'
  }

  function Delta(c: char): int
    requires c == '(' || c == ')'
  {
    if c == '(' then 1 else -1
  }

  /** The floor after following every character of s. */
  function Floor(s: string): int
    requires Parens(s)
  {
    if s == [] then 0 else Floor(s[..|s| - 1]) + Delta(s[|s| - 1])
  }

  /** How many times c occurs in s. */
  function Occurrences(s: string, c: char): nat
  {
    if s == [] then 0 else (if s[0] == c then 1 else 0) + Occurrences(s[1..], c)
  }

  lemma {:induction false} OccurrencesSnoc(s: string, c: char, d: char)
    ensures Occurrences(s + [d], c) == Occurrences(s, c) + (if d == c then 1 else 0)
  {
    if s != [] {
      assert (s + [d])[1..] == s[1..] + [d];
      OccurrencesSnoc(s[1..], c, d);
    }
  }

  lemma PrefixParens(s: string, k: nat)
    requires Parens(s) && k <= |s|
    ensures Parens(s[..k])
  {
  }

  /** Extending a prefix by one character moves one floor. */
  lemma FloorStep(s: string, i: nat)
    requires i < |s| && Parens(s[..i + 1])
    ensures Parens(s[..i]) && Floor(s[..i + 1]) == Floor(s[..i]) + Delta(s[i])
  {
    assert s[..i + 1][..i] == s[..i];
  }

  /** The floor is the number of `(` minus the number of `)`. */
  lemma {:induction false} FloorIsDifference(s: string)
    requires Parens(s)
    ensures Floor(s) == Occurrences(s, '(') - Occurrences(s, ')')
  {
    if s != [] {
      var init := s[..|s| - 1];
      FloorIsDifference(init);
      assert s == init + [s[|s| - 1]];
      OccurrencesSnoc(init, '(', s[|s| - 1]);
      OccurrencesSnoc(init, ')', s[|s| - 1]);
    }
  }

  /** Following two strings one after the other adds their floors. */
  lemma {:induction false} FloorConcat(a: string, b: string)
    requires Parens(a) && Parens(b)
    ensures Parens(a + b) && Floor(a + b) == Floor(a) + Floor(b)
    decreases |b|
  {
    if b == [] {
      assert a + b == a;
    } else {
      var b' := b[..|b| - 1];
      assert (a + b)[..|a + b| - 1] == a + b';
      FloorConcat(a, b');
    }
  }

  /** Part 1, `process`: one counter updated character by character. */
  method FinalFloor(input: string) returns (count: int)
    requires Parens(input)
    ensures count == Occurrences(input, '(') - Occurrences(input, ')')
  {
    count := 0;
    for i := 0 to |input|
      invariant count == Floor(input[..i])
    {
      FloorStep(input, i);
      if input[i] == '(' {
        count := count + 1;
      } else {
        count := count - 1;
      }
    }
    assert input[..|input|] == input;
    FloorIsDifference(input);
  }

  /** Some prefix of s of length at least `from` + 1 is made of parentheses and ends on floor -1. */
  predicate ReachesBasement(s: string, from: nat)
  {
    exists k :: from < k <= |s| && Parens(s[..k]) && Floor(s[..k]) == -1
  }

  /**
   * Part 2, the `scan` from position i with the running floor: the first
   * 1-based position after i at which the floor is -1.
   */
  function ScanFrom(s: string, i: nat, count: int): (r: nat)
    requires i <= |s| && Parens(s[..i]) && count == Floor(s[..i])
    requires ReachesBasement(s, i)
    ensures i < r <= |s| && Parens(s[..r]) && Floor(s[..r]) == -1
    ensures forall j :: i < j < r ==> Floor(s[..j]) != -1
    decreases |s| - i
  {
    var k :| i < k <= |s| && Parens(s[..k]) && Floor(s[..k]) == -1;
    assert s[..i + 1] == s[..k][..i + 1];
    PrefixParens(s[..k], i + 1);
    FloorStep(s, i);
    var next := count + Delta(s[i]);
    if next == -1 then i + 1
    else
      assert k != i + 1;
      ScanFrom(s, i + 1, next)
  }

  /** Part 2, `process`: the first position on floor -1; the source panics when there is none. */
  function FirstBasement(s: string): (r: nat)
    requires ReachesBasement(s, 0)
    ensures 1 <= r <= |s| && Parens(s[..r]) && Floor(s[..r]) == -1
    ensures forall j :: 0 < j < r ==> Floor(s[..j]) != -1
  {
    assert s[..0] == [];
    ScanFrom(s, 0, 0)
  }

  // ---------------------------------------------------------------------
  // The unit tests

  /** The floor of a parenthesis string, read off its counts. */
  lemma FloorByCounts(s: string, up: nat, down: nat)
    requires Parens(s) && Occurrences(s, '(') == up && Occurrences(s, ')') == down
    ensures Floor(s) == up - down
  {
    FloorIsDifference(s);
  }

  lemma GroundFloorExamples()
    ensures Floor("(())") == 0 && Floor("()()") == 0
  {
    FloorByCounts("(())", 2, 2);
    FloorByCounts("()()", 2, 2);
  }

  lemma ThirdFloorExamples()
    ensures Floor("(((") == 3 && Floor("(()(()(") == 3 && Floor("))(((((") == 3
  {
    ThirdFloorA();
    ThirdFloorB();
    ThirdFloorC();
  }

  lemma BelowGroundExamples()
    ensures Floor("())") == -1 && Floor("))(") == -1
    ensures Floor(")))") == -3 && Floor(")())())") == -3
  {
    BelowGroundA();
    BelowGroundB();
    BelowGroundC();
    BelowGroundD();
  }

  lemma ThirdFloorA()
    ensures Floor("(((") == 3
  {
    FloorByCounts("(((", 3, 0);
  }

  lemma ThirdFloorB()
    ensures Floor("(()(()(") == 3
  {
    FloorByCounts("(()(()(", 5, 2);
  }

  lemma ThirdFloorC()
    ensures Floor("))(((((") == 3
  {
    FloorByCounts("))(((((", 5, 2);
  }

  lemma BelowGroundA()
    ensures Floor("())") == -1
  {
    FloorByCounts("())", 1, 2);
  }

  lemma BelowGroundB()
    ensures Floor("))(") == -1
  {
    FloorByCounts("))(", 1, 2);
  }

  lemma BelowGroundC()
    ensures Floor(")))") == -3
  {
    FloorByCounts(")))", 0, 3);
  }

  lemma BelowGroundD()
    ensures Floor(")())())") == -3
  {
    FloorByCounts(")())())", 2, 5);
  }

  lemma BasementExamples()
    ensures ReachesBasement(")", 0) && FirstBasement(")") == 1
    ensures ReachesBasement("()())", 0) && FirstBasement("()())") == 5
  {
    assert ")"[..1] == ")";
    var s := "()())";
    assert s[..5] == s;
    assert s[..1] == "(" && s[..2] == "()" && s[..3] == "()(" && s[..4] == "()()";
    FloorByCounts(s, 2, 3);
    FloorByCounts(s[..1], 1, 0);
    FloorByCounts(s[..2], 1, 1);
    FloorByCounts(s[..3], 2, 1);
    FloorByCounts(s[..4], 2, 2);
  }
}
