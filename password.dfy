/**
 * The password odometer of 2015/day-11/src/part1.rs.  A password is eight
 * lowercase letters kept in a byte array that `increment` and
 * `skip_forbidden` rewrite in place; `next_password` alternates a pass of
 * `skip_forbidden` over every position with `increment` until the three
 * rules hold.
 *
 * The rules and the two rewrites are specified as functions on the letter
 * sequence; `Value` reads that sequence as a base-26 number, in which
 * `increment` adds one (wrapping at "zzzzzzzz") and `skip_forbidden` jumps
 * over a block of passwords that all contain a forbidden letter.  From this
 * `NextPassword` is proved to return the first valid password at or after
 * its input in that order.
 */
module PasswordRules {
  import opened Bits
  import opened Wrappers

  predicate Letter(c: char)
  {
    'a' <= c <= 'z'
  }

  predicate Lowercase(s: string)
  {
    forall i :: 0 <= i < |s| ==> Letter(s[i])
  }

  /** What `from_str` accepts: exactly eight lowercase ASCII letters. */
  predicate Acceptable(s: string)
  {
    |s| == 8 && Lowercase(s)
  }

  predicate Forbidden(c: char)
  {
    c == 'i' || c == 'o' || c == 'l'
  }

  /** Rule 1: three consecutive letters going up by one. */
  predicate HasStraight(s: string)
  {
    exists i :: 0 <= i && i + 2 < |s| && s[i] as int + 1 == s[i + 1] as int && s[i + 1] as int + 1 == s[i + 2] as int
  }

  /** Rule 2 is that this does not hold. */
  predicate HasForbidden(s: string)
  {
    exists i :: 0 <= i < |s| && Forbidden(s[i])
  }

  /** Letters i and i + 1 are equal. */
  predicate PairAt(s: string, i: int)
  {
    0 <= i && i + 1 < |s| && s[i] == s[i + 1]
  }

  /** Rule 3: two pairs of equal neighbours that do not overlap (the letters may be the same). */
  predicate TwoPairs(s: string)
  {
    exists i, j :: 0 <= i && i + 2 <= j < |s| && PairAt(s, i) && PairAt(s, j)
  }

  predicate ValidPassword(s: string)
  {
    HasStraight(s) && !HasForbidden(s) && TwoPairs(s)
  }

  // ---------------------------------------------------------------------
  // Pairs, counted the way `has_two_pairs` counts them

  /** The pairs a left-to-right scan from i finds, skipping both letters of each pair it takes. */
  function GreedyPairs(s: string, i: nat): nat
    decreases |s| - i
  {
    if i + 1 >= |s| then 0
    else if s[i] == s[i + 1] then 1 + GreedyPairs(s, i + 2)
    else GreedyPairs(s, i + 1)
  }

  lemma {:induction false} GreedyFindsPair(s: string, k: nat, i: nat)
    requires k <= i && PairAt(s, i)
    ensures GreedyPairs(s, k) >= 1
    decreases i - k
  {
    if s[k] != s[k + 1] {
      GreedyFindsPair(s, k + 1, i);
    }
  }

  lemma {:induction false} GreedyFindsTwo(s: string, k: nat, i: nat, j: nat)
    requires k <= i && i + 2 <= j && PairAt(s, i) && PairAt(s, j)
    ensures GreedyPairs(s, k) >= 2
    decreases i - k
  {
    if s[k] == s[k + 1] {
      GreedyFindsPair(s, k + 2, j);
    } else {
      GreedyFindsTwo(s, k + 1, i, j);
    }
  }

  lemma {:induction false} GreedySound(s: string, k: nat)
    ensures GreedyPairs(s, k) >= 1 ==> exists i :: k <= i && PairAt(s, i)
    ensures GreedyPairs(s, k) >= 2 ==> exists i, j :: k <= i && i + 2 <= j < |s| && PairAt(s, i) && PairAt(s, j)
    decreases |s| - k
  {
    if k + 1 < |s| {
      if s[k] == s[k + 1] {
        GreedySound(s, k + 2);
        assert PairAt(s, k);
        if GreedyPairs(s, k) >= 2 {
          var j :| k + 2 <= j && PairAt(s, j);
          assert k <= k && k + 2 <= j && PairAt(s, k) && PairAt(s, j);
        }
      } else {
        GreedySound(s, k + 1);
      }
    }
  }

  /** The greedy count reaches two exactly when two non-overlapping pairs exist. */
  lemma GreedyTwoPairs(s: string)
    ensures GreedyPairs(s, 0) >= 2 <==> TwoPairs(s)
  {
    GreedySound(s, 0);
    if TwoPairs(s) {
      var i, j :| 0 <= i && i + 2 <= j < |s| && PairAt(s, i) && PairAt(s, j);
      GreedyFindsTwo(s, 0, i, j);
    }
  }

  // ---------------------------------------------------------------------
  // The two rewrites, as functions on the letters

  /** `increment`: the rightmost letter that is not 'z' goes up by one; the 'z's after it become 'a'. */
  function Incremented(s: string): (r: string)
    requires Lowercase(s)
    ensures |r| == |s| && Lowercase(r)
    decreases |s|
  {
    if s == [] then []
    else if s[|s| - 1] == 'z' then Incremented(s[..|s| - 1]) + ['a']
    else s[..|s| - 1] + [(s[|s| - 1] as int + 1) as char]
  }

  function As(n: nat): (r: string)
    ensures |r| == n && forall i :: 0 <= i < n ==> r[i] == 'a'
  {
    if n == 0 then [] else As(n - 1) + ['a']
  }

  /** The letter `skip_forbidden` puts in place of a forbidden one. */
  function NextAllowed(c: char): (d: char)
    requires Forbidden(c)
    ensures d as int == c as int + 1 && Letter(d) && !Forbidden(d)
  {
    if c == 'i' then 'j' else if c == 'l' then 'm' else 'p'
  }

  /** `skip_forbidden(p)`: a forbidden letter at p is replaced by the next one and everything after it by 'a'. */
  function Skipped(s: string, p: nat): (r: string)
    requires Lowercase(s) && p < |s|
    ensures |r| == |s| && Lowercase(r)
  {
    if Forbidden(s[p]) then s[..p] + [NextAllowed(s[p])] + As(|s| - p - 1) else s
  }

  /** Skipping keeps what comes before p and leaves no forbidden letter at p or after it. */
  lemma SkippedShape(s: string, p: nat)
    requires Lowercase(s) && p < |s|
    ensures Skipped(s, p)[..p] == s[..p] && !Forbidden(Skipped(s, p)[p])
    ensures Forbidden(s[p]) ==> forall q :: p < q < |s| ==> Skipped(s, p)[q] == 'a'
    ensures !Forbidden(s[p]) ==> Skipped(s, p) == s
  {
    if Forbidden(s[p]) {
      var r := Skipped(s, p);
      assert r[p] == NextAllowed(s[p]);
      forall q | p < q < |s| ensures r[q] == 'a' {
        assert r[q] == As(|s| - p - 1)[q - p - 1];
      }
    }
  }

  // ---------------------------------------------------------------------
  // Passwords as base-26 numbers

  function Pow26(k: nat): (r: nat)
    ensures r >= 1
  {
    if k == 0 then 1 else 26 * Pow26(k - 1)
  }

  function Ord(c: char): nat
    requires Letter(c)
  {
    c as int - 'a' as int
  }

  /** The password read as a base-26 numeral, 'a' being 0 and the last letter least significant. */
  function Value(s: string): nat
    requires Lowercase(s)
    decreases |s|
  {
    if s == [] then 0 else Value(s[..|s| - 1]) * 26 + Ord(s[|s| - 1])
  }

  lemma {:induction false} ValueBound(s: string)
    requires Lowercase(s)
    ensures Value(s) < Pow26(|s|)
    decreases |s|
  {
    if s != [] {
      ValueBound(s[..|s| - 1]);
    }
  }

  lemma {:induction false} ValueConcat(a: string, b: string)
    requires Lowercase(a) && Lowercase(b)
    ensures Value(a + b) == Value(a) * Pow26(|b|) + Value(b)
    decreases |b|
  {
    if b == [] {
      assert a + b == a;
    } else {
      var b' := b[..|b| - 1];
      var c := Ord(b[|b| - 1]);
      assert (a + b)[..|a + b| - 1] == a + b';
      assert (a + b)[|a + b| - 1] == b[|b| - 1];
      assert Value(a + b) == Value(a + b') * 26 + c;
      assert Value(b) == Value(b') * 26 + c;
      assert Pow26(|b|) == 26 * Pow26(|b'|);
      ValueConcat(a, b');
      Shift26(Value(a), Pow26(|b'|), Value(b'), c);
    }
  }

  lemma Shift26(x: int, y: int, z: int, c: int)
    ensures (x * y + z) * 26 + c == x * (26 * y) + (z * 26 + c)
  {
  }

  lemma {:induction false} ValueInjective(a: string, b: string)
    requires Lowercase(a) && Lowercase(b) && |a| == |b| && Value(a) == Value(b)
    ensures a == b
    decreases |a|
  {
    if a != [] {
      var a', b' := a[..|a| - 1], b[..|b| - 1];
      LastLetter(a);
      LastLetter(b);
      ValueInjective(a', b');
      assert a == a' + [a[|a| - 1]] && b == b' + [b[|b| - 1]];
    }
  }

  /** The last letter is the value's last base-26 digit; the rest is the quotient. */
  lemma LastLetter(s: string)
    requires Lowercase(s) && s != []
    ensures Lowercase(s[..|s| - 1])
    ensures Value(s) / 26 == Value(s[..|s| - 1]) && Value(s) % 26 == Ord(s[|s| - 1])
  {
    DivUnique(Value(s), 26, Value(s[..|s| - 1]), Ord(s[|s| - 1]));
  }

  lemma {:induction false} ValueOfAs(n: nat)
    ensures Value(As(n)) == 0
  {
    if n > 0 {
      ValueOfAs(n - 1);
      assert As(n)[..n - 1] == As(n - 1);
    }
  }

  /** `increment` is the odometer: one more, modulo 26^length. */
  lemma {:induction false} IncrementValue(s: string)
    requires Lowercase(s)
    ensures Value(Incremented(s)) == (Value(s) + 1) % Pow26(|s|)
    decreases |s|
  {
    if s != [] {
      var pre := s[..|s| - 1];
      var r := Incremented(s);
      ValueBound(pre);
      if s[|s| - 1] == 'z' {
        assert r[..|r| - 1] == Incremented(pre) && r[|r| - 1] == 'a';
        IncrementValue(pre);
        CarryValue(Value(pre) + 1, Pow26(|pre|));
      } else {
        assert r[..|r| - 1] == pre && Ord(r[|r| - 1]) == Ord(s[|s| - 1]) + 1;
        NoCarryValue(Value(pre), Ord(s[|s| - 1]), Pow26(|pre|));
      }
    }
  }

  lemma CarryValue(x: int, p: int)
    requires 1 <= x <= p
    ensures (x % p) * 26 == (x * 26) % (26 * p)
  {
    if x < p {
      DivUnique(x, p, 0, x);
      DivUnique(x * 26, 26 * p, 0, x * 26);
    } else {
      DivUnique(x * 26, 26 * p, 1, 0);
    }
  }

  lemma NoCarryValue(v: int, o: int, p: int)
    requires 0 <= v < p && 0 <= o < 25
    ensures v * 26 + o + 1 == (v * 26 + o + 1) % (26 * p)
  {
    assert v * 26 + o + 1 < 26 * p by {
      assert v * 26 <= (p - 1) * 26;
    }
    DivUnique(v * 26 + o + 1, 26 * p, 0, v * 26 + o + 1);
  }

  /** Putting the next letter in place of the last one adds one. */
  lemma ValueBump(s: string, p: nat)
    requires Lowercase(s) && p < |s| && Forbidden(s[p])
    ensures Value(s[..p] + [NextAllowed(s[p])]) == Value(s[..p + 1]) + 1
  {
    var r := s[..p] + [NextAllowed(s[p])];
    assert r[..p] == s[..p] && s[..p + 1][..p] == s[..p];
  }

  /** The values that share the leading block h of a numeral in base P. */
  lemma SameBlock(v: int, th: int, tl: int, h: int, p: int)
    requires p > 0 && v == th * p + tl && 0 <= tl < p && h * p <= v < h * p + p
    ensures th == h
  {
    DivUnique(v, p, th, tl);
    DivUnique(v, p, h, v - h * p);
  }

  /**
   * Every password from s up to (not including) `Skipped(s, p)` has the same
   * letter as s at p, so when that letter is forbidden none of them is valid.
   */
  lemma SkippedOnlyForbidden(s: string, p: nat, t: string)
    requires Lowercase(s) && Lowercase(t) && |t| == |s| && p < |s| && Forbidden(s[p])
    requires Value(s) <= Value(t) < Value(Skipped(s, p))
    ensures HasForbidden(t)
  {
    SkippedStart(s, p);
    ValueSplitAt(s, p);
    ValueSplitAt(t, p);
    SameBlock(Value(t), Value(t[..p + 1]), Value(t[p + 1..]), Value(s[..p + 1]), Pow26(|s| - p - 1));
    ValueInjective(t[..p + 1], s[..p + 1]);
    assert t[p] == t[..p + 1][p];
  }

  /** The letters up to p are the leading digit block of the numeral. */
  lemma ValueSplitAt(t: string, p: nat)
    requires Lowercase(t) && p < |t|
    ensures Value(t) == Value(t[..p + 1]) * Pow26(|t| - p - 1) + Value(t[p + 1..])
    ensures Value(t[p + 1..]) < Pow26(|t| - p - 1)
  {
    assert t == t[..p + 1] + t[p + 1..];
    ValueConcat(t[..p + 1], t[p + 1..]);
    ValueBound(t[p + 1..]);
  }

  /** With h the value of the letters up to p, `Skipped(s, p)` is the first numeral of block h + 1 (blocks of size 26^(|s|-p-1)). */
  lemma SkippedStart(s: string, p: nat)
    requires Lowercase(s) && p < |s| && Forbidden(s[p])
    ensures Value(Skipped(s, p)) == Value(s[..p + 1]) * Pow26(|s| - p - 1) + Pow26(|s| - p - 1)
  {
    var k := |s| - p - 1;
    var rHead := s[..p] + [NextAllowed(s[p])];
    ValueBump(s, p);
    assert Skipped(s, p) == rHead + As(k);
    ValueConcat(rHead, As(k));
    ValueOfAs(k);
    MulSucc(Value(s[..p + 1]), Pow26(k));
  }

  lemma MulSucc(h: int, p: int)
    ensures (h + 1) * p == h * p + p
  {
  }

  /** Skipping never goes backwards in the odometer order. */
  lemma SkippedValue(s: string, p: nat)
    requires Lowercase(s) && p < |s|
    ensures Value(s) <= Value(Skipped(s, p))
  {
    if Forbidden(s[p]) {
      SkippedStart(s, p);
      ValueSplitAt(s, p);
    }
  }

  // ---------------------------------------------------------------------
  // The password as the source keeps it

  class Password {
    var letters: array<char>

    predicate Valid()
      reads this, letters
    {
      Acceptable(letters[..])
    }

    constructor (s: string)
      requires Acceptable(s)
      ensures Valid() && letters[..] == s && fresh(letters)
    {
      letters := new char[8](i requires 0 <= i < 8 => s[i]);
    }

    /** `from_str`: eight lowercase letters, or an error. */
    static method FromStr(s: string) returns (p: Option<Password>)
      ensures p.Some? <==> Acceptable(s)
      ensures p.Some? ==> fresh(p.value) && fresh(p.value.letters) && p.value.Valid() && p.value.letters[..] == s
    {
      if |s| != 8 {
        return None;
      }
      var i := 0;
      while i < 8
        invariant i <= 8 && forall k :: 0 <= k < i ==> Letter(s[k])
      {
        if !Letter(s[i]) {
          return None;
        }
        i := i + 1;
      }
      var password := new Password(s);
      p := Some(password);
    }

    /** `has_increasing_straight`: rule 1, by trying the six starting positions. */
    method HasIncreasingStraight() returns (b: bool)
      requires Valid()
      ensures b == HasStraight(letters[..])
    {
      for i := 0 to 6
        invariant forall k :: 0 <= k < i ==>
          !(letters[k] as int + 1 == letters[k + 1] as int && letters[k + 1] as int + 1 == letters[k + 2] as int)
      {
        if letters[i] as int + 1 == letters[i + 1] as int && letters[i + 1] as int + 1 == letters[i + 2] as int {
          assert letters[..][i] == letters[i];
          return true;
        }
      }
      return false;
    }

    /** `has_two_pairs`: rule 3, counting pairs left to right and stepping over each pair found. */
    method HasTwoPairs() returns (b: bool)
      requires Valid()
      ensures b == TwoPairs(letters[..])
    {
      ghost var s := letters[..];
      var pairs := 0;
      var i := 0;
      while i < 7
        invariant i <= 8
        invariant pairs + GreedyPairs(s, i) == GreedyPairs(s, 0)
      {
        if letters[i] == letters[i + 1] {
          pairs := pairs + 1;
          i := i + 2;
        } else {
          i := i + 1;
        }
      }
      GreedyTwoPairs(s);
      b := pairs >= 2;
    }

    /** `is_valid`: all three rules. */
    method IsValid() returns (b: bool)
      requires Valid()
      ensures b == ValidPassword(letters[..])
    {
      var straight := HasIncreasingStraight();
      var forbidden := exists k :: 0 <= k < 8 && Forbidden(letters[k]);
      assert forbidden == HasForbidden(letters[..]) by {
        if HasForbidden(letters[..]) {
          var k :| 0 <= k < 8 && Forbidden(letters[..][k]);
          assert Forbidden(letters[k]);
        }
      }
      var pairs := HasTwoPairs();
      b := straight && !forbidden && pairs;
    }

    /** `increment`: walk from the last letter, turning 'z' into 'a' until a letter can go up. */
    method Increment()
      requires Valid()
      modifies letters
      ensures Valid() && letters[..] == Incremented(old(letters[..]))
    {
      ghost var s := letters[..];
      var i := 8;
      assert s[..8] == s;
      while i > 0
        invariant i <= 8
        invariant letters[..i] == s[..i] && letters[i..] == As(8 - i) && Lowercase(letters[..])
        invariant Incremented(s) == Incremented(s[..i]) + As(8 - i)
      {
        i := i - 1;
        var current := letters[i];
        assert s[..i + 1][..i] == s[..i] && s[..i + 1][i] == current;
        letters[i] := if current == 'z' then 'a' else (current as int + 1) as char;
        assert letters[i + 1..] == As(7 - i);
        if current != 'z' {
          assert letters[..] == s[..i] + [letters[i]] + As(7 - i);
          return;
        }
        AsCons(7 - i);
        assert letters[i..] == [letters[i]] + letters[i + 1..];
      }
      assert letters[..] == letters[0..];
    }

    /** `skip_forbidden(position)`. */
    method SkipForbidden(position: nat)
      requires Valid() && position < 8
      modifies letters
      ensures Valid() && letters[..] == Skipped(old(letters[..]), position)
    {
      ghost var s := letters[..];
      var c := letters[position];
      if Forbidden(c) {
        letters[position] := NextAllowed(c);
        for i := position + 1 to 8
          invariant letters[..position] == s[..position] && letters[position] == NextAllowed(c)
          invariant forall k :: position < k < i ==> letters[k] == 'a'
        {
          letters[i] := 'a';
        }
        assert letters[..] == s[..position] + [NextAllowed(c)] + As(8 - position - 1);
      }
    }

    function ToString(): string
      reads this, letters
    {
      letters[..]
    }
  }

  lemma AsCons(n: nat)
    ensures As(n + 1) == ['a'] + As(n)
  {
  }

  // ---------------------------------------------------------------------
  // The search

  /** t is one of the passwords the odometer passes going from `from` up to `to`, wrapping after "zzzzzzzz". */
  predicate Passed(from: string, t: string, to: string)
    requires Lowercase(from) && Lowercase(t) && Lowercase(to)
  {
    if Value(from) <= Value(to) then Value(from) <= Value(t) < Value(to)
    else Value(t) >= Value(from) || Value(t) < Value(to)
  }

  /**
   * What the search knows about the password `cur` it has reached from
   * `input`: every password it went past is invalid.  Before the odometer
   * wraps those are the ones from `input` up to `cur`; after it, the ones from
   * `input` to the end and from the start up to `cur`.
   */
  ghost predicate Searched(input: string, cur: string, wrapped: bool)
    requires Acceptable(input) && Acceptable(cur)
  {
    if !wrapped then
      Value(input) <= Value(cur) &&
      forall t :: Acceptable(t) && Value(input) <= Value(t) < Value(cur) ==> !ValidPassword(t)
    else
      forall t :: Acceptable(t) && (Value(t) >= Value(input) || Value(t) < Value(cur)) ==> !ValidPassword(t)
  }

  /** A `skip_forbidden` keeps the search sound. */
  lemma SkipKeepsSearch(input: string, before: string, pos: nat, wrapped: bool)
    requires Acceptable(input) && Acceptable(before) && pos < 8 && Searched(input, before, wrapped)
    ensures Searched(input, Skipped(before, pos), wrapped)
  {
    var after := Skipped(before, pos);
    SkippedValue(before, pos);
    if Forbidden(before[pos]) {
      forall t | Acceptable(t) && Value(before) <= Value(t) < Value(after) ensures HasForbidden(t) {
        SkippedOnlyForbidden(before, pos, t);
      }
    }
  }

  /** The loop of `skip_forbidden_chars` after `pos` positions: the search is sound and those positions hold allowed letters. */
  ghost predicate Skipping(input: string, s: string, pos: nat, wrapped: bool)
  {
    Acceptable(input) && Acceptable(s) && Searched(input, s, wrapped) &&
    forall q :: 0 <= q < pos && q < |s| ==> !Forbidden(s[q])
  }

  lemma SkippingStep(input: string, before: string, pos: nat, wrapped: bool)
    requires pos < 8 && Skipping(input, before, pos, wrapped)
    ensures Skipping(input, Skipped(before, pos), pos + 1, wrapped)
  {
    SkipKeepsSearch(input, before, pos, wrapped);
    SkippedShape(before, pos);
    var after := Skipped(before, pos);
    forall q | 0 <= q < pos ensures after[q] == before[q] {
      assert after[..pos][q] == before[..pos][q];
    }
  }

  /** Moving past an invalid password with `increment` keeps the search sound; "zzzzzzzz" wraps to "aaaaaaaa". */
  lemma IncrementKeepsSearch(input: string, before: string, wrapped: bool)
    requires Acceptable(input) && Acceptable(before) && Searched(input, before, wrapped) && !ValidPassword(before)
    requires !wrapped || Value(before) + 1 < Pow26(8)
    ensures Searched(input, Incremented(before), wrapped || Value(before) + 1 == Pow26(8))
  {
    var after := Incremented(before);
    IncrementValue(before);
    ValueBound(before);
    var v := Value(before);
    forall t | Acceptable(t) && Value(t) == v ensures !ValidPassword(t) {
      ValueInjective(t, before);
    }
    if v + 1 == Pow26(8) {
      DivUnique(v + 1, Pow26(8), 1, 0);
      WrapSearch(input, before, after);
    } else {
      DivUnique(v + 1, Pow26(8), 0, v + 1);
      AdvanceSearch(input, before, after, wrapped);
    }
  }

  /** One step past an invalid password, without wrapping. */
  lemma AdvanceSearch(input: string, before: string, after: string, wrapped: bool)
    requires Acceptable(input) && Acceptable(before) && Acceptable(after) && Searched(input, before, wrapped)
    requires forall t :: Acceptable(t) && Value(t) == Value(before) ==> !ValidPassword(t)
    requires Value(after) == Value(before) + 1
    ensures Searched(input, after, wrapped)
  {
  }

  /** The step from "zzzzzzzz" to "aaaaaaaa": everything from the input on has been passed. */
  lemma WrapSearch(input: string, before: string, after: string)
    requires Acceptable(input) && Acceptable(before) && Acceptable(after) && Searched(input, before, false)
    requires forall t :: Acceptable(t) && Value(t) == Value(before) ==> !ValidPassword(t)
    requires Value(before) + 1 == Pow26(8) && Value(after) == 0
    ensures Searched(input, after, true)
  {
    forall t | Acceptable(t) && Value(t) >= Value(input) ensures !ValidPassword(t) {
      ValueBound(t);
    }
  }

  /** The odometer cannot wrap a second time: the search would have passed "abcdffaa", which is valid. */
  lemma NoSecondWrap(input: string, cur: string)
    requires Acceptable(input) && Acceptable(cur) && Value(cur) + 1 == Pow26(8)
    ensures !Searched(input, cur, true)
  {
    var v := "abcdffaa";
    ValidExample();
    ValueBound(v);
    assert Value(v) < Pow26(8) - 1;
  }

  /** The search ends at the first valid password it reaches. */
  lemma FoundIsNext(input: string, cur: string, wrapped: bool)
    requires Acceptable(input) && Acceptable(cur) && Searched(input, cur, wrapped)
    ensures forall t :: Acceptable(t) && Passed(input, t, cur) ==> !ValidPassword(t)
  {
  }

  /** The `for pos in 0..8` pass of `next_password`: afterwards no forbidden letter is left. */
  method SkipPass(password: Password, ghost input: string, ghost wrapped: bool)
    requires password.Valid() && Acceptable(input) && Searched(input, password.letters[..], wrapped)
    modifies password.letters
    ensures password.Valid() && Searched(input, password.letters[..], wrapped)
    ensures !HasForbidden(password.letters[..])
  {
    for pos := 0 to 8
      invariant password.Valid() && Skipping(input, password.letters[..], pos, wrapped)
    {
      ghost var before := password.letters[..];
      password.SkipForbidden(pos);
      SkippingStep(input, before, pos, wrapped);
    }
    forall i | 0 <= i < 8 ensures !Forbidden(password.letters[..][i]) {
    }
  }

  /**
   * `next_password`: the first valid password at or after the input in
   * odometer order (the input itself when it is already valid), or None when
   * `fuel` rounds of the loop are not enough.  A malformed input panics.
   */
  method NextPassword(input: string, fuel: nat) returns (r: Option<string>)
    requires Acceptable(input)
    ensures r.Some? ==> Acceptable(r.value) && ValidPassword(r.value)
    ensures r.Some? ==> forall t :: Acceptable(t) && Passed(input, t, r.value) ==> !ValidPassword(t)
  {
    var p := Password.FromStr(input);
    var password := p.value;
    ghost var wrapped := false;
    var left := fuel;
    while left > 0
      invariant password.Valid() && Searched(input, password.letters[..], wrapped)
      modifies password.letters
    {
      SkipPass(password, input, wrapped);
      var valid := password.IsValid();
      if valid {
        FoundIsNext(input, password.letters[..], wrapped);
        return Some(password.ToString());
      }
      ghost var before := password.letters[..];
      ValueBound(before);
      if wrapped && Value(before) + 1 == Pow26(8) {
        NoSecondWrap(input, before);
        assert false;
      }
      password.Increment();
      IncrementKeepsSearch(input, before, wrapped);
      wrapped := wrapped || Value(before) + 1 == Pow26(8);
      left := left - 1;
    }
    return None;
  }

  // ---------------------------------------------------------------------
  // The unit tests

  lemma ValidExample()
    ensures ValidPassword("abcdffaa")
  {
    var s := "abcdffaa";
    assert s[0] as int + 1 == s[1] as int && s[1] as int + 1 == s[2] as int;
    assert PairAt(s, 4) && PairAt(s, 6);
    assert !HasForbidden(s) by {
      forall i | 0 <= i < 8 ensures !Forbidden(s[i]) {
        assert s[i] in "abcdf";
      }
    }
  }

  lemma InvalidExamples()
    ensures !ValidPassword("hijklmmn")
    ensures !ValidPassword("abbceffg")
    ensures !ValidPassword("abbcegjk")
  {
    assert Forbidden("hijklmmn"[1]);
    assert !HasStraight("abbceffg");
    GreedyTwoPairs("abbcegjk");
    assert GreedyPairs("abbcegjk", 0) == 1;
  }

  /** `has_increasing_straight` on three letters, the other five bytes left zero. */
  lemma StraightExamples()
    ensures HasStraight("abc" + ZEROS)
    ensures HasStraight("xyz" + ZEROS)
    ensures !HasStraight("abd" + ZEROS)
  {
    assert ("abc" + ZEROS)[0] == 'a' && ("abc" + ZEROS)[1] == 'b' && ("abc" + ZEROS)[2] == 'c';
    assert ("xyz" + ZEROS)[0] == 'x' && ("xyz" + ZEROS)[1] == 'y' && ("xyz" + ZEROS)[2] == 'z';
    var s := "abd" + ZEROS;
    forall i | 0 <= i && i + 2 < |s|
      ensures !(s[i] as int + 1 == s[i + 1] as int && s[i + 1] as int + 1 == s[i + 2] as int)
    {
      assert i == 0 || s[i + 2] == 0 as char;
    }
  }

  /** `has_two_pairs` on four letters, the other bytes left as their indices 4 to 7. */
  lemma PairExamples()
    ensures TwoPairs("aabb" + RAMP)
    ensures TwoPairs("aaaa" + RAMP)
    ensures !TwoPairs("aaca" + RAMP)
  {
    assert PairAt("aabb" + RAMP, 0) && PairAt("aabb" + RAMP, 2);
    assert PairAt("aaaa" + RAMP, 0) && PairAt("aaaa" + RAMP, 2);
    var s := "aaca" + RAMP;
    forall j | 1 <= j && j + 1 < |s| ensures !PairAt(s, j) {
      assert s[j] != s[j + 1];
    }
  }

  const ZEROS: string := [0 as char, 0 as char, 0 as char, 0 as char, 0 as char]
  const RAMP: string := [4 as char, 5 as char, 6 as char, 7 as char]

  lemma IncrementExamples()
    ensures Incremented("aaaaaaaa") == "aaaaaaab"
    ensures Incremented("aaaaaaaz") == "aaaaaaba"
  {
  }
}
