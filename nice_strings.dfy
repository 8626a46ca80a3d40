/**
 * 2015/day-05 part 2: a line is nice when some two-letter pair appears
 * twice without overlapping, and some letter repeats with exactly one
 * letter between.  The answer counts the nice lines.
 *
 * The predicates below follow the source's `windows`/`any` pipelines as
 * recursive searches; `PairTwice` and `RepeatWithGap` state the rules
 * directly and the lemmas show the searches decide them.
 */
module NiceStrings {
  predicate PairAt(s: string, a: nat, b: nat)
  {
    a + 2 <= b && b + 1 < |s| && s[a] == s[b] && s[a + 1] == s[b + 1]
  }

  /** Rule 1, stated directly: the windows starting at i and at some j >= i + 2 are equal. */
  predicate PairTwice(s: string)
  {
    exists i, j :: 0 <= i < |s| && 0 <= j < |s| && PairAt(s, i, j)
  }

  /** Rule 2, stated directly. */
  predicate RepeatWithGap(s: string)
  {
    exists i :: 0 <= i && i + 2 < |s| && s[i] == s[i + 2]
  }

  predicate Nice(s: string)
  {
    PairTwice(s) && RepeatWithGap(s)
  }

  /** `windows(2).skip(i + 2).any(...)`: some window from j on equals the window at i. */
  predicate LaterPair(s: string, i: nat, j: nat)
    requires i + 1 < |s|
    decreases |s| - j
  {
    j + 1 < |s| && ((s[j] == s[i] && s[j + 1] == s[i + 1]) || LaterPair(s, i, j + 1))
  }

  /** The window at i appears again from i + 2 on. */
  predicate Recurs(s: string, i: nat)
  {
    i + 1 < |s| && LaterPair(s, i, i + 2)
  }

  /** `windows(2).enumerate().any(...)` from window i on. */
  predicate PairFrom(s: string, i: nat)
    decreases |s| - i
  {
    i + 1 < |s| && (Recurs(s, i) || PairFrom(s, i + 1))
  }

  /** `windows(3).any(|win| win[0] == win[2])` from window i on. */
  predicate GapFrom(s: string, i: nat)
    decreases |s| - i
  {
    i + 2 < |s| && (s[i] == s[i + 2] || GapFrom(s, i + 1))
  }

  /** The filter pipeline of `process`. */
  predicate NiceLine(s: string)
  {
    PairFrom(s, 0) && GapFrom(s, 0)
  }

  lemma {:induction false} LaterPairIff(s: string, i: nat, j: nat)
    requires i + 1 < |s|
    ensures LaterPair(s, i, j) <==> exists k :: j <= k && k + 1 < |s| && s[k] == s[i] && s[k + 1] == s[i + 1]
    decreases |s| - j
  {
    if j + 1 < |s| {
      LaterPairIff(s, i, j + 1);
      if s[j] == s[i] && s[j + 1] == s[i + 1] {
      } else {
        forall k | j <= k && k + 1 < |s| && s[k] == s[i] && s[k + 1] == s[i + 1]
          ensures j + 1 <= k
        {
        }
      }
    }
  }

  lemma RecursIff(s: string, i: nat)
    ensures Recurs(s, i) <==> exists b :: PairAt(s, i, b)
  {
    if i + 1 < |s| {
      LaterPairIff(s, i, i + 2);
      if Recurs(s, i) {
        var b :| i + 2 <= b && b + 1 < |s| && s[b] == s[i] && s[b + 1] == s[i + 1];
        assert PairAt(s, i, b);
      }
    }
  }

  lemma {:induction false} PairFromIff(s: string, i: nat)
    ensures PairFrom(s, i) <==> exists a, b :: i <= a && PairAt(s, a, b)
    decreases |s| - i
  {
    if i + 1 < |s| {
      PairFromIff(s, i + 1);
      RecursIff(s, i);
      if exists a, b :: i <= a && PairAt(s, a, b) {
        var a, b :| i <= a && PairAt(s, a, b);
        if a != i {
          assert i + 1 <= a;
        }
      }
    }
  }

  lemma {:induction false} GapFromIff(s: string, i: nat)
    ensures GapFrom(s, i) <==> exists k :: i <= k && k + 2 < |s| && s[k] == s[k + 2]
    decreases |s| - i
  {
    if i + 2 < |s| {
      GapFromIff(s, i + 1);
      if exists k :: i <= k && k + 2 < |s| && s[k] == s[k + 2] {
        var k :| i <= k && k + 2 < |s| && s[k] == s[k + 2];
        if k != i {
          assert i + 1 <= k;
        }
      }
    }
  }

  /** The source's pipeline keeps exactly the nice lines. */
  lemma NiceLineIsNice(s: string)
    ensures NiceLine(s) <==> Nice(s)
  {
    PairFromIff(s, 0);
    GapFromIff(s, 0);
  }

  /** `process`: the number of nice lines. */
  function CountNice(lines: seq<string>): (n: nat)
    ensures n <= |lines|
  {
    if lines == [] then 0 else (if NiceLine(lines[0]) then 1 else 0) + CountNice(lines[1..])
  }

  lemma {:induction false} CountNiceConcat(a: seq<string>, b: seq<string>)
    ensures CountNice(a + b) == CountNice(a) + CountNice(b)
  {
    if a == [] {
      assert a + b == b;
    } else {
      assert (a + b)[1..] == a[1..] + b;
      CountNiceConcat(a[1..], b);
    }
  }

  // ---------------------------------------------------------------------
  // The unit tests

  lemma NiceExamples()
    ensures Nice("qjhvhtzxzqqjkmpb") && Nice("xxyxx")
  {
    var s := "qjhvhtzxzqqjkmpb";
    assert PairAt(s, 0, 10);
    assert s[6] == s[8];
    var t := "xxyxx";
    assert PairAt(t, 0, 3);
    assert t[1] == t[3];
  }

  /** "uurcxstgmygtbstg" has the pair "tg" twice but no letter repeating with one between. */
  lemma NoGapExample()
    ensures PairTwice("uurcxstgmygtbstg") && !RepeatWithGap("uurcxstgmygtbstg")
  {
    var s := "uurcxstgmygtbstg";
    assert PairAt(s, 6, 14);
    assert !GapFrom(s, 0);
    GapFromIff(s, 0);
  }

  /** No window of "ieodomkazucvgmuy" recurs further on: checked a few windows at a time. */
  lemma NoPairWindows0()
    ensures forall i :: 0 <= i < 4 ==> !Recurs("ieodomkazucvgmuy", i)
  {
    var s := "ieodomkazucvgmuy";
    assert !LaterPair(s, 0, 9);
    assert !Recurs(s, 0);
    assert !LaterPair(s, 1, 9);
    assert !Recurs(s, 1);
    assert !LaterPair(s, 2, 9);
    assert !Recurs(s, 2);
    assert !LaterPair(s, 3, 9);
    assert !Recurs(s, 3);
  }

  lemma NoPairWindows4()
    ensures forall i :: 4 <= i < 8 ==> !Recurs("ieodomkazucvgmuy", i)
  {
    var s := "ieodomkazucvgmuy";
    assert !Recurs(s, 4);
    assert !Recurs(s, 5);
    assert !Recurs(s, 6);
    assert !Recurs(s, 7);
  }

  lemma NoPairWindows8()
    ensures forall i :: 8 <= i < 12 ==> !Recurs("ieodomkazucvgmuy", i)
  {
    var s := "ieodomkazucvgmuy";
    assert !Recurs(s, 8);
    assert !Recurs(s, 9);
    assert !Recurs(s, 10);
    assert !Recurs(s, 11);
  }

  lemma NoPairWindows12()
    ensures forall i :: 12 <= i < 15 ==> !Recurs("ieodomkazucvgmuy", i)
  {
    var s := "ieodomkazucvgmuy";
    assert !Recurs(s, 12);
    assert !Recurs(s, 13);
    assert !Recurs(s, 14);
  }

  /** "ieodomkazucvgmuy" repeats "odo" but has no pair twice. */
  lemma NoPairExample()
    ensures !PairTwice("ieodomkazucvgmuy") && RepeatWithGap("ieodomkazucvgmuy")
  {
    var s := "ieodomkazucvgmuy";
    assert s[2] == s[4];
    NoPairWindows0();
    NoPairWindows4();
    NoPairWindows8();
    NoPairWindows12();
    NoPairFrom(s, 0);
    PairFromIff(s, 0);
  }

  lemma {:induction false} NoPairFrom(s: string, i: nat)
    requires forall k :: i <= k < |s| - 1 ==> !Recurs(s, k)
    ensures !PairFrom(s, i)
    decreases |s| - i
  {
    if i + 1 < |s| {
      NoPairFrom(s, i + 1);
    }
  }

  lemma CountExample()
    ensures CountNice(["qjhvhtzxzqqjkmpb", "xxyxx", "uurcxstgmygtbstg", "ieodomkazucvgmuy"]) == 2
  {
    NiceExamples();
    NoGapExample();
    NoPairExample();
    NiceLineIsNice("qjhvhtzxzqqjkmpb");
    NiceLineIsNice("xxyxx");
    NiceLineIsNice("uurcxstgmygtbstg");
    NiceLineIsNice("ieodomkazucvgmuy");
  }
}
