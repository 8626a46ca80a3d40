/**
 * The look-and-say generator of 2015/day-10/src/part2.rs.  A string is cut
 * into runs of equal characters (`consecutive_groups`), each run is spoken
 * as its length in decimal followed by the character (`generate_string`),
 * and `look_and_say` repeats that a given number of times.
 *
 * `Groups` is the reference cutting into runs, `Expand` its inverse and
 * `Speak` the spoken form; the methods keep the source's loops and are
 * proved to compute them.
 */
module LookAndSay {
  import opened Decimal

  /** A run: a character and how many times it repeats. */
  type Group = (char, nat)

  function Repeat(c: char, n: nat): (r: string)
    ensures |r| == n && forall i :: 0 <= i < n ==> r[i] == c
  {
    if n == 0 then [] else Repeat(c, n - 1) + [c]
  }

  /** Writing every run out again. */
  function Expand(groups: seq<Group>): string
  {
    if groups == [] then [] else Expand(groups[..|groups| - 1]) + Repeat(groups[|groups| - 1].0, groups[|groups| - 1].1)
  }

  /** Every count is at least one and neighbouring runs hold different characters. */
  predicate WellFormed(groups: seq<Group>)
  {
    (forall k :: 0 <= k < |groups| ==> groups[k].1 >= 1) &&
    (forall k :: 0 <= k < |groups| - 1 ==> groups[k].0 != groups[k + 1].0)
  }

  /** The length of the run of s[0] at the start of s. */
  function RunLength(s: string): (n: nat)
    requires s != []
    ensures 1 <= n <= |s| && forall i :: 0 <= i < n ==> s[i] == s[0]
    ensures n < |s| ==> s[n] != s[0]
  {
    if |s| == 1 || s[1] != s[0] then 1 else 1 + RunLength(s[1..])
  }

  /** The runs of s, first to last. */
  function Groups(s: string): seq<Group>
    decreases |s|
  {
    if s == [] then [] else [(s[0], RunLength(s))] + Groups(s[RunLength(s)..])
  }

  lemma {:induction false} ExpandCons(g: Group, groups: seq<Group>)
    ensures Expand([g] + groups) == Repeat(g.0, g.1) + Expand(groups)
    decreases |groups|
  {
    if groups != [] {
      var all := [g] + groups;
      assert all[..|all| - 1] == [g] + groups[..|groups| - 1];
      ExpandCons(g, groups[..|groups| - 1]);
    }
  }

  lemma {:induction false} ExpandSnoc(groups: seq<Group>, g: Group)
    ensures Expand(groups + [g]) == Expand(groups) + Repeat(g.0, g.1)
  {
    assert (groups + [g])[..|groups|] == groups;
  }

  /** Writing the runs out gives back the string: `Expand` undoes `Groups`. */
  lemma {:induction false} GroupsExpand(s: string)
    ensures Expand(Groups(s)) == s
    decreases |s|
  {
    if s != [] {
      var n := RunLength(s);
      GroupsExpand(s[n..]);
      ExpandCons((s[0], n), Groups(s[n..]));
      assert s == Repeat(s[0], n) + s[n..];
    }
  }

  lemma {:induction false} GroupsWellFormed(s: string)
    ensures WellFormed(Groups(s))
    ensures s != [] ==> Groups(s) != [] && Groups(s)[0].0 == s[0]
    decreases |s|
  {
    if s != [] {
      var n := RunLength(s);
      GroupsWellFormed(s[n..]);
    }
  }

  /** Runs are determined by the string: two well-formed groupings of the same string are equal. */
  lemma {:induction false} GroupsUnique(g: seq<Group>, s: string)
    requires WellFormed(g) && Expand(g) == s
    ensures g == Groups(s)
    decreases |g|
  {
    if g != [] {
      var rest := g[1..];
      assert g == [g[0]] + rest;
      ExpandCons(g[0], rest);
      var n := g[0].1;
      assert s[..n] == Repeat(g[0].0, n);
      assert WellFormed(rest);
      // the run of s[0] ends exactly where the first group ends
      if rest != [] {
        ExpandCons(rest[0], rest[1..]);
        assert rest == [rest[0]] + rest[1..];
        assert s[n] == Expand(rest)[0] == rest[0].0;
      }
      RunLengthAt(s, n);
      GroupsUnique(rest, s[n..]);
      assert s[n..] == Expand(rest);
    } else {
      assert s == [];
    }
  }

  /** A run of exactly n copies of s[0] has length n. */
  lemma {:induction false} RunLengthAt(s: string, n: nat)
    requires 1 <= n <= |s| && forall i :: 0 <= i < n ==> s[i] == s[0]
    requires n < |s| ==> s[n] != s[0]
    ensures RunLength(s) == n
    decreases n
  {
    if n > 1 {
      RunLengthAt(s[1..], n - 1);
    }
  }

  /** The spoken form of some runs: each count in decimal followed by its character. */
  function Speak(groups: seq<Group>): string
  {
    if groups == [] then [] else Speak(groups[..|groups| - 1]) + NatToString(groups[|groups| - 1].1) + [groups[|groups| - 1].0]
  }

  /** One round of look-and-say. */
  function Generate(s: string): string
  {
    Speak(Groups(s))
  }

  /** `look_and_say(s, n)`: n rounds. */
  function LookAndSayN(s: string, n: nat): string
  {
    if n == 0 then s else Generate(LookAndSayN(s, n - 1))
  }

  // ---------------------------------------------------------------------
  // Reading a spoken form back

  /** Pairs of a digit count and a character, read back from a spoken form whose counts are single digits. */
  function Hear(s: string): seq<Group>
    decreases |s|
  {
    if |s| < 2 || !IsDigit(s[0]) then [] else [(s[1], DigitValue(s[0]))] + Hear(s[2..])
  }

  lemma {:induction false} SpeakCons(g: Group, groups: seq<Group>)
    ensures Speak([g] + groups) == NatToString(g.1) + [g.0] + Speak(groups)
    decreases |groups|
  {
    if groups != [] {
      var all := [g] + groups;
      assert all[..|all| - 1] == [g] + groups[..|groups| - 1];
      SpeakCons(g, groups[..|groups| - 1]);
    }
  }

  /** When every run is shorter than ten, speaking can be undone, and each run takes two characters. */
  lemma {:induction false} HearSpeak(groups: seq<Group>)
    requires forall k :: 0 <= k < |groups| ==> 1 <= groups[k].1 <= 9
    ensures Hear(Speak(groups)) == groups
    ensures |Speak(groups)| == 2 * |groups|
    decreases |groups|
  {
    if groups != [] {
      var rest := groups[1..];
      assert groups == [groups[0]] + rest;
      SpeakCons(groups[0], rest);
      HearSpeak(rest);
      var spoken := Speak(groups);
      assert spoken[2..] == Speak(rest);
      assert spoken[0] == DigitChar(groups[0].1);
    }
  }

  // ---------------------------------------------------------------------
  // The loops as the source writes them

  /** `consecutive_groups`: take a character, then count how many copies follow it. */
  method ConsecutiveGroups(input: string) returns (groups: seq<Group>)
    ensures Expand(groups) == input && WellFormed(groups)
    ensures groups == Groups(input)
  {
    groups := [];
    var i := 0;
    while i < |input|
      invariant Grouped(input, groups, i)
    {
      var current := input[i];
      var count := 1;
      ghost var start := i;
      i := i + 1;
      while i < |input| && input[i] == current
        invariant i <= |input| && 1 <= count && i == start + count
        invariant forall k :: start <= k < i ==> input[k] == current
      {
        count := count + 1;
        i := i + 1;
      }
      GroupedStep(input, groups, start, count);
      groups := groups + [(current, count)];
    }
    assert input[..i] == input;
    GroupsUnique(groups, input);
  }

  /** The outer loop of `consecutive_groups` after `i` characters: the runs spell them out. */
  predicate Grouped(input: string, groups: seq<Group>, i: nat)
  {
    i <= |input| && Expand(groups) == input[..i] && WellFormed(groups) &&
    (groups != [] && i < |input| ==> groups[|groups| - 1].0 != input[i])
  }

  /** A maximal run starting at `start` extends the runs found so far. */
  lemma GroupedStep(input: string, groups: seq<Group>, start: nat, count: nat)
    requires Grouped(input, groups, start) && start < |input| && 1 <= count && start + count <= |input|
    requires forall k :: start <= k < start + count ==> input[k] == input[start]
    requires start + count == |input| || input[start + count] != input[start]
    ensures Grouped(input, groups + [(input[start], count)], start + count)
  {
    var end := start + count;
    assert input[start..end] == Repeat(input[start], count);
    ExpandSnoc(groups, (input[start], count));
    assert input[..end] == input[..start] + input[start..end];
  }

  /** `generate_string`: push each run's count and character. */
  method GenerateString(input: string) returns (result: string)
    ensures result == Generate(input)
  {
    var groups := ConsecutiveGroups(input);
    result := [];
    for k := 0 to |groups|
      invariant result == Speak(groups[..k])
    {
      assert groups[..k + 1][..k] == groups[..k];
      result := result + NatToString(groups[k].1) + [groups[k].0];
    }
    assert groups[..|groups|] == groups;
  }

  /** `look_and_say`: replace the string by its spoken form, `iterations` times. */
  method LookAndSay(input: string, iterations: nat) returns (current: string)
    ensures current == LookAndSayN(input, iterations)
  {
    current := input;
    for k := 0 to iterations
      invariant current == LookAndSayN(input, k)
    {
      current := GenerateString(current);
    }
  }

  /** `process`: the length after fifty rounds. */
  method Process(input: string) returns (length: nat)
    ensures length == |LookAndSayN(input, 50)|
  {
    var result := LookAndSay(input, 50);
    length := |result|;
  }

  // ---------------------------------------------------------------------
  // The unit tests

  lemma GroupsExample()
    ensures Groups("111221") == [('1', 3), ('2', 2), ('1', 1)]
  {
    assert RunLength("111221") == 3;
    assert "111221"[3..] == "221";
    assert RunLength("221") == 2;
    assert "221"[2..] == "1";
  }

  lemma GenerateOne()
    ensures Generate("1") == "11"
  {
    assert Groups("1") == [('1', 1)];
  }

  lemma GenerateOneOne()
    ensures Generate("11") == "21"
  {
    assert RunLength("11") == 2;
    assert Groups("11") == [('1', 2)];
  }

  lemma GenerateTwoOne()
    ensures Generate("21") == "1211"
  {
    assert "21"[1..] == "1";
    var g := [('2', 1), ('1', 1)];
    assert Groups("21") == g;
    assert g[..1] == [('2', 1)];
    assert Speak(g[..1]) == "12";
  }

  lemma GenerateOneTwoOneOne()
    ensures Generate("1211") == "111221"
  {
    assert "1211"[1..] == "211" && "211"[1..] == "11";
    assert RunLength("1211") == 1 && RunLength("211") == 1;
    GenerateOneOne();
    assert Groups("1211") == [('1', 1), ('2', 1), ('1', 2)];
    var g := [('1', 1), ('2', 1), ('1', 2)];
    assert g[..2] == [('1', 1), ('2', 1)];
    assert g[..2][..1] == [('1', 1)];
    assert Speak(g[..2][..1]) == "11";
    assert Speak(g[..2]) == "1112";
  }

  lemma GenerateThreeRuns()
    ensures Generate("111221") == "312211"
  {
    GroupsExample();
    var g := [('1', 3), ('2', 2), ('1', 1)];
    assert g[..2] == [('1', 3), ('2', 2)];
    assert g[..2][..1] == [('1', 3)];
    assert Speak(g[..2][..1]) == "31";
    assert Speak(g[..2]) == "3122";
  }

  lemma LookAndSayExample()
    ensures LookAndSayN("1", 4) == "111221"
  {
    GenerateOne();
    GenerateOneOne();
    GenerateTwoOne();
    GenerateOneTwoOneOne();
  }
}
