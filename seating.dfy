/**
 * 2015/day-13 part 2: guests round a table gain or lose happiness from
 * each neighbour; "Me" joins with no preference either way, and the
 * answer is the best total over the seatings that keep the first guest
 * fixed, enumerated with Heap's algorithm.
 */
module Seating {
  /** `Relationship`: the happiness `person` feels sitting next to `neighbor`. */
  datatype Relationship = Relationship(person: string, neighbor: string, happiness: int)

  /** The verb of a relationship line. */
  datatype Verb = Gain | Lose

  type Table = map<(string, string), int>

  const ME: string := "Me"

  /** `parse_relationship`: the amount times +1 for "gain" and -1 for "lose". */
  function Signed(verb: Verb, amount: nat): int
  {
    amount * match verb { case Gain => 1 case Lose => -1 }
  }

  lemma SignedIs(verb: Verb, amount: nat)
    ensures verb == Gain ==> Signed(verb, amount) == amount
    ensures verb == Lose ==> Signed(verb, amount) == -(amount as int)
  {
  }

  /** `get_happiness`: the recorded value, 0 for a pair never mentioned. */
  function Get(table: Table, a: string, b: string): (r: int)
    ensures (a, b) !in table ==> r == 0
  {
    if (a, b) in table then table[(a, b)] else 0
  }

  /** Everyone named on either side of some relationship. */
  function Names(rels: seq<Relationship>): set<string>
  {
    if rels == [] then {} else Names(rels[..|rels| - 1]) + {rels[|rels| - 1].person, rels[|rels| - 1].neighbor}
  }

  /** The map `from_relationships` builds: a later line for the same pair overwrites an earlier one. */
  function Recorded(rels: seq<Relationship>): Table
  {
    if rels == [] then map[]
    else
      var r := rels[|rels| - 1];
      Recorded(rels[..|rels| - 1])[(r.person, r.neighbor) := r.happiness]
  }

  lemma {:induction false} NamesIs(rels: seq<Relationship>, p: string)
    ensures p in Names(rels) <==> exists i :: 0 <= i < |rels| && (rels[i].person == p || rels[i].neighbor == p)
  {
    if rels != [] {
      var init := rels[..|rels| - 1];
      NamesIs(init, p);
      assert forall i :: 0 <= i < |init| ==> rels[i] == init[i];
    }
  }

  /** A pair is recorded iff some line names it, and its value is the one on the last such line. */
  lemma {:induction false} RecordedIs(rels: seq<Relationship>, a: string, b: string)
    ensures (a, b) in Recorded(rels) <==> exists i :: 0 <= i < |rels| && rels[i].person == a && rels[i].neighbor == b
    ensures forall i :: (0 <= i < |rels| && rels[i].person == a && rels[i].neighbor == b &&
      (forall j :: i < j < |rels| ==> (rels[j].person, rels[j].neighbor) != (a, b))) ==> Recorded(rels)[(a, b)] == rels[i].happiness
  {
    if rels != [] {
      var init := rels[..|rels| - 1];
      RecordedIs(init, a, b);
      assert forall i :: 0 <= i < |init| ==> rels[i] == init[i];
    }
  }

  /** The table after `add_self` has seen the guests `ps`. */
  function WithMe(table: Table, ps: seq<string>): Table
  {
    if ps == [] then table
    else
      var p := ps[|ps| - 1];
      WithMe(table, ps[..|ps| - 1])[(ME, p) := 0][(p, ME) := 0]
  }

  /** After `add_self` Me is indifferent to every earlier guest and they to Me, and no other pair changes. */
  lemma {:induction false} WithMeIs(table: Table, ps: seq<string>)
    ensures forall p :: p in ps ==> Get(WithMe(table, ps), ME, p) == 0 && Get(WithMe(table, ps), p, ME) == 0
    ensures forall a, b :: a != ME && b != ME ==> Get(WithMe(table, ps), a, b) == Get(table, a, b)
    ensures forall k :: k in WithMe(table, ps) <==> k in table || (k.0 == ME && k.1 in ps) || (k.1 == ME && k.0 in ps)
  {
    if ps != [] {
      WithMeIs(table, ps[..|ps| - 1]);
      assert ps == ps[..|ps| - 1] + [ps[|ps| - 1]];
    }
  }

  // ---------------------------------------------------------------------
  // Happiness of one seating

  /** What the pair at seats i and i+1 (round the table) contributes: both directions. */
  function Term(table: Table, arr: seq<string>, i: nat): int
    requires i < |arr|
  {
    var next := arr[(i + 1) % |arr|];
    Get(table, arr[i], next) + Get(table, next, arr[i])
  }

  /** The loop total after the first k seats. */
  function Around(table: Table, arr: seq<string>, k: nat): int
    requires k <= |arr|
  {
    if k == 0 then 0 else Around(table, arr, k - 1) + Term(table, arr, k - 1)
  }

  /** Rust's `/` on `i32` rounds toward zero. */
  function Quot(x: int, d: nat): int
    requires d > 0
  {
    if x >= 0 then x / d else -((-x) / d)
  }

  /** `calculate_happiness` as a value: the round-the-table total, halved for two guests who are each other's only neighbour twice. */
  function HappinessOf(table: Table, arr: seq<string>): int
  {
    if |arr| < 2 then 0
    else if |arr| == 2 then Quot(Around(table, arr, 2), 2)
    else Around(table, arr, |arr|)
  }

  /** Two guests count each direction once. */
  lemma TwoSeats(table: Table, arr: seq<string>)
    requires |arr| == 2
    ensures HappinessOf(table, arr) == Get(table, arr[0], arr[1]) + Get(table, arr[1], arr[0])
  {
    var x := Get(table, arr[0], arr[1]) + Get(table, arr[1], arr[0]);
    assert Around(table, arr, 1) == Term(table, arr, 0) == x;
    assert Term(table, arr, 1) == x;
    assert Around(table, arr, 2) == x + x;
  }

  /** One seat along: the same seating seen from the second guest. */
  function Rotate(arr: seq<string>): seq<string>
    requires arr != []
  {
    arr[1..] + [arr[0]]
  }

  /** Seat k-1 of the rotated table is seat k of the original, with the same right-hand neighbour. */
  lemma TermRotated(table: Table, arr: seq<string>, k: nat)
    requires 0 < k < |arr|
    ensures Term(table, Rotate(arr), k - 1) == Term(table, arr, k)
  {
    var r := Rotate(arr);
    var n := |arr|;
    assert r[k - 1] == arr[k];
    if k < n - 1 {
      assert k % n == k && (k + 1) % n == k + 1;
      assert r[k] == arr[k + 1];
    } else {
      assert k % n == k && (k + 1) % n == 0;
      assert r[k] == arr[0];
    }
  }

  lemma {:induction false} AroundRotated(table: Table, arr: seq<string>, k: nat)
    requires k < |arr|
    ensures Around(table, Rotate(arr), k) + Term(table, arr, 0) == Around(table, arr, k + 1)
  {
    if k > 0 {
      AroundRotated(table, arr, k - 1);
      TermRotated(table, arr, k);
    }
  }

  /** Where the table starts does not matter, which is why the first guest can stay fixed. */
  lemma RotateInvariant(table: Table, arr: seq<string>)
    requires arr != []
    ensures HappinessOf(table, Rotate(arr)) == HappinessOf(table, arr)
  {
    if |arr| > 2 {
      RotateRound(table, arr);
    } else if |arr| == 2 {
      TwoSeats(table, arr);
      TwoSeats(table, Rotate(arr));
    }
  }

  lemma RotateRound(table: Table, arr: seq<string>)
    requires |arr| > 2
    ensures Around(table, Rotate(arr), |arr|) == Around(table, arr, |arr|)
  {
    var n := |arr|;
    AroundRotated(table, arr, n - 1);
    LastTermRotated(table, arr);
  }

  /** The last seat of the rotated table is the first guest, beside the second. */
  lemma LastTermRotated(table: Table, arr: seq<string>)
    requires |arr| > 2
    ensures Term(table, Rotate(arr), |arr| - 1) == Term(table, arr, 0)
  {
    var n := |arr|;
    var r := Rotate(arr);
    assert (n - 1 + 1) % n == 0 && 1 % n == 1;
    assert r[n - 1] == arr[0] && r[0] == arr[1];
  }

  /** Starting the table at any seat gives the same total. */
  lemma {:induction false} RotateBy(table: Table, arr: seq<string>, j: nat)
    requires j < |arr|
    ensures HappinessOf(table, arr[j..] + arr[..j]) == HappinessOf(table, arr)
    decreases j
  {
    if j > 0 {
      RotateBy(table, arr, j - 1);
      var r := arr[j - 1..] + arr[..j - 1];
      RotateInvariant(table, r);
      assert Rotate(r) == arr[j..] + arr[..j];
    } else {
      assert arr[0..] + arr[..0] == arr;
    }
  }

  /** Every seating, started at the first guest's seat, is one a listing of all first-guest seatings holds. */
  lemma RotationListed(people: seq<string>, listing: seq<seq<string>>, t: seq<string>)
    requires |people| >= 1 && multiset(t) == multiset(people)
    requires forall u :: |u| == |people| && u[0] == people[0] && multiset(u) == multiset(people) ==> u in listing
    ensures exists j :: 0 <= j < |t| && t[j..] + t[..j] in listing
  {
    assert people[0] in multiset(people);
    var j :| 0 <= j < |t| && t[j] == people[0];
    var u := t[j..] + t[..j];
    assert t == t[..j] + t[j..];
    assert multiset(u) == multiset(t);
    assert |u| == |multiset(u)| == |people|;
    assert u[0] == people[0];
  }

  // ---------------------------------------------------------------------
  // Heap's algorithm

  function Fact(n: nat): nat
  {
    if n == 0 then 1 else n * Fact(n - 1)
  }

  /** s rearranges the first n entries of t and keeps the rest. */
  ghost predicate Rearranged(s: seq<string>, t: seq<string>, n: nat)
  {
    |s| == |t| && n <= |t| && multiset(s) == multiset(t) && s[n..] == t[n..]
  }

  /** `arr.swap(i, j)`. */
  method Swap(arr: array<string>, i: nat, j: nat)
    requires i < arr.Length && j < arr.Length
    modifies arr
    ensures arr[..] == Swapped(old(arr[..]), i, j)
  {
    ghost var before := arr[..];
    arr[i], arr[j] := arr[j], arr[i];
    assert arr[..] == before[i := before[j]][j := before[i]];
  }

  /** The entries i and j of a exchanged. */
  function Swapped(a: seq<string>, i: nat, j: nat): seq<string>
    requires i < |a| && j < |a|
  {
    a[i := a[j]][j := a[i]]
  }

  /** The entry that round i - 1 of a call on n entries swaps with entry n - 1: the round's own index when n is even, else 0. */
  function Pivot(n: nat, i: nat): nat
    requires 0 < i <= n
  {
    if n % 2 == 0 then i - 1 else 0
  }

  /**
   * Where the entry at position k at the start of round i of a call on n
   * entries came from.  For odd n the first n entries are rotated right by
   * i; for even n, round i (0 < i < n) starts with the last entry in front,
   * entries 0 .. i - 2 after it, i .. n - 2 in place and entry i - 1 last,
   * and after the last round the first n entries are rotated right by one.
   */
  function Src(n: nat, i: nat, k: nat): (j: nat)
    requires i <= n
    ensures k < n ==> j < n
    ensures k >= n ==> j == k
  {
    if k >= n || n <= 1 || i == 0 then k
    else if n % 2 == 1 then (if k < i then n - i + k else k - i)
    else if k == 0 then n - 1
    else if i == n then k - 1
    else if k < i then k - 1
    else if k < n - 1 then k
    else i - 1
  }

  /**
   * The array a call on n entries leaves behind: as it found it for odd n,
   * the first n entries rotated right by one for even n.
   */
  function After(s: seq<string>, n: nat): (r: seq<string>)
    requires n <= |s|
    ensures |r| == |s|
  {
    if n <= 1 || n % 2 == 1 then s else [s[n - 1]] + s[..n - 1] + s[n..]
  }

  /** The array when round i of a call on n >= 2 entries begins, or after the last round. */
  function Reached(s: seq<string>, n: nat, i: nat): (r: seq<string>)
    requires n <= |s| && i <= n
    ensures |r| == |s|
  {
    if i == 0 then s else if i < n then Start(s, n, i) else After(s, n)
  }

  /**
   * The array at the start of round i of `generate_permutations(arr, n)`
   * begun on s; round n is the array the call leaves behind.
   */
  function Start(s: seq<string>, n: nat, i: nat): (r: seq<string>)
    requires n <= |s| && i <= n
    ensures |r| == |s|
  {
    seq(|s|, k requires 0 <= k < |s| => s[Src(n, i, k)])
  }

  /** The rows `generate_permutations(arr, n)` appends when begun on s. */
  function Heap(s: seq<string>, n: nat): seq<seq<string>>
    requires n <= |s|
    decreases n, n + 1
  {
    if n == 0 then [] else if n == 1 then [s] else Rounds(s, n, n)
  }

  /** The rows of the first i rounds: each round appends what the call on n - 1 entries does. */
  function Rounds(s: seq<string>, n: nat, i: nat): seq<seq<string>>
    requires 2 <= n <= |s| && i <= n
    decreases n, i
  {
    if i == 0 then [] else Rounds(s, n, i - 1) + Heap(Start(s, n, i - 1), n - 1)
  }

  /**
   * `generate_permutations`: appends one copy of `arr` for each
   * rearrangement of its first n entries, swapping in place.
   */
  method Permutations(arr: array<string>, n: nat, results: seq<seq<string>>) returns (out: seq<seq<string>>)
    requires n <= arr.Length
    modifies arr
    ensures out == results + Heap(old(arr[..]), n)
    ensures arr[..] == After(old(arr[..]), n)
    decreases n, 1
  {
    if n == 0 {
      // the loop below would run no round
      assert results + [] == results;
      return results;
    }
    if n == 1 {
      out := results + [arr[..]];
      return;
    }
    ghost var start := arr[..];
    out := results;
    for i := 0 to n
      invariant arr[..] == Reached(start, n, i)
      invariant out == results + Rounds(start, n, i)
    {
      out := Round(arr, n, i, out, start, results);
    }
  }

  /**
   * One pass of the loop in `generate_permutations`: the call on the
   * first n - 1 entries, then the swap that brings the next entry last.
   */
  method Round(arr: array<string>, n: nat, i: nat, before: seq<seq<string>>,
               ghost start: seq<string>, ghost results: seq<seq<string>>) returns (out: seq<seq<string>>)
    requires 2 <= n <= arr.Length && |start| == arr.Length && i < n
    requires arr[..] == Reached(start, n, i) && before == results + Rounds(start, n, i)
    modifies arr
    ensures arr[..] == Reached(start, n, i + 1)
    ensures out == results + Rounds(start, n, i + 1)
    decreases n, 0
  {
    var next := n - 1;
    ghost var pre := arr[..];
    out := Permutations(arr, next, before);
    ghost var inner := arr[..];
    // even n swaps entry i with the last, odd n always entry 0
    var pivot := if n % 2 == 0 then i else 0;
    Swap(arr, pivot, next);
    NextRound(start, n, i, results, before, out, pre, inner, arr[..]);
  }

  /** A call on at most one entry, or before its first round, has moved nothing. */
  lemma Unmoved(s: seq<string>, n: nat, i: nat)
    requires n <= |s| && i <= n && (n <= 1 || i == 0)
    ensures Start(s, n, i) == s
  {
  }

  /** What one round of the loop in `Permutations` does to the rows and to the array. */
  lemma NextRound(s: seq<string>, n: nat, i: nat, results: seq<seq<string>>, before: seq<seq<string>>,
                  out: seq<seq<string>>, pre: seq<string>, inner: seq<string>, post: seq<string>)
    requires 2 <= n <= |s| && i < n
    requires pre == Reached(s, n, i)
    requires before == results + Rounds(s, n, i)
    requires out == before + Heap(pre, n - 1) && inner == After(pre, n - 1)
    requires post == Swapped(inner, Pivot(n, i + 1), n - 1)
    ensures post == Reached(s, n, i + 1)
    ensures out == results + Rounds(s, n, i + 1)
  {
    if i == 0 {
      Unmoved(s, n, 0);
    }
    FinalIs(pre, n - 1);
    RoundStep(s, n, i);
    if i + 1 == n {
      FinalIs(s, n);
    }
    assert Rounds(s, n, i + 1) == Rounds(s, n, i) + Heap(pre, n - 1);
    Appended(results, Rounds(s, n, i), Heap(pre, n - 1), before, out);
  }

  /** Appending the rows of one more round to the rows listed so far. */
  lemma Appended(results: seq<seq<string>>, rounds: seq<seq<string>>, heap: seq<seq<string>>,
                 before: seq<seq<string>>, out: seq<seq<string>>)
    requires before == results + rounds && out == before + heap
    ensures out == results + (rounds + heap)
  {
  }

  /**
   * One round of the loop: the call on n - 1 entries, then the swap, leads
   * from the start of round i to the start of round i + 1.
   */
  lemma RoundStep(s: seq<string>, n: nat, i: nat)
    requires 2 <= n <= |s| && i < n
    ensures Swapped(Start(Start(s, n, i), n - 1, n - 1), Pivot(n, i + 1), n - 1) == Start(s, n, i + 1)
  {
    var a := Start(s, n, i);
    var b := Start(a, n - 1, n - 1);
    var l := Swapped(b, Pivot(n, i + 1), n - 1);
    var r := Start(s, n, i + 1);
    forall k | 0 <= k < |s|
      ensures l[k] == r[k]
    {
      RoundStepAt(n, i, k);
    }
  }

  /** `RoundStep` one position at a time, on the positions alone. */
  lemma RoundStepAt(n: nat, i: nat, k: nat)
    requires 2 <= n && i < n
    ensures var p := Pivot(n, i + 1);
      Src(n, i + 1, k) == Src(n, i, Src(n - 1, n - 1, if k == p then n - 1 else if k == n - 1 then p else k))
  {
  }

  /** The net effect of a call: nothing for odd n, the first n entries rotated right by one for even n. */
  lemma FinalIs(s: seq<string>, n: nat)
    requires n <= |s|
    ensures Start(s, n, n) == After(s, n)
  {
    var r := After(s, n);
    forall k | 0 <= k < |s|
      ensures Start(s, n, n)[k] == r[k]
    {
      if n > 1 && n % 2 == 0 && 0 < k < n {
        assert r[k] == s[..n - 1][k - 1];
      }
    }
  }

  /** A rearrangement of the first n - 1 entries is one of the first n. */
  lemma RearrangedWiden(x: seq<string>, y: seq<string>, n: nat)
    requires 1 <= n <= |y| && Rearranged(x, y, n - 1)
    ensures Rearranged(x, y, n)
  {
    assert x[n..] == x[n - 1..][1..] && y[n..] == y[n - 1..][1..];
  }

  lemma RearrangedTrans(x: seq<string>, y: seq<string>, z: seq<string>, n: nat)
    requires Rearranged(x, y, n) && Rearranged(y, z, n)
    ensures Rearranged(x, z, n)
  {
  }

  /** A rearrangement of the first n entries permutes those entries among themselves. */
  lemma RearrangedPrefix(x: seq<string>, y: seq<string>, n: nat)
    requires Rearranged(x, y, n)
    ensures multiset(x[..n]) == multiset(y[..n])
  {
    assert x == x[..n] + x[n..] && y == y[..n] + y[n..];
    Cancel(multiset(x[..n]), multiset(y[..n]), multiset(x[n..]));
  }

  lemma Cancel(a: multiset<string>, b: multiset<string>, c: multiset<string>)
    requires a + c == b + c
    ensures a == b
  {
    forall e
      ensures a[e] == b[e]
    {
      assert (a + c)[e] == (b + c)[e];
    }
  }

  /** Every round starts from a rearrangement of the first n entries. */
  lemma StartRearranged(s: seq<string>, n: nat, i: nat)
    requires n <= |s| && i <= n
    ensures Rearranged(Start(s, n, i), s, n)
  {
    if n <= 1 || i == 0 {
      assert Start(s, n, i) == s;
    } else if n % 2 == 1 {
      StartOdd(s, n, i);
      RotatedRearranged(s, n, i);
    } else if i < n {
      StartEven(s, n, i);
      EvenRearranged(s, n, i);
    } else {
      FinalIs(s, n);
      AfterRearranged(s, n);
    }
  }

  /** For odd n, round i starts from the first n entries rotated right by i. */
  lemma StartOdd(s: seq<string>, n: nat, i: nat)
    requires n % 2 == 1 && 1 < n <= |s| && 0 < i <= n
    ensures Start(s, n, i) == s[n - i..n] + s[..n - i] + s[n..]
  {
    var r := s[n - i..n] + s[..n - i] + s[n..];
    forall k | 0 <= k < |s|
      ensures Start(s, n, i)[k] == r[k]
    {
      if k < i {
        assert r[k] == s[n - i..n][k];
      } else if k < n {
        assert r[k] == s[..n - i][k - i];
      }
    }
  }

  /** For even n, round i (0 < i < n) starts with the last entry in front and entry i - 1 last. */
  lemma StartEven(s: seq<string>, n: nat, i: nat)
    requires n % 2 == 0 && 1 < n <= |s| && 0 < i < n
    ensures Start(s, n, i) == [s[n - 1]] + s[..i - 1] + s[i..n - 1] + [s[i - 1]] + s[n..]
  {
    var r := [s[n - 1]] + s[..i - 1] + s[i..n - 1] + [s[i - 1]] + s[n..];
    forall k | 0 <= k < |s|
      ensures Start(s, n, i)[k] == r[k]
    {
      if 0 < k < i {
        assert r[k] == s[..i - 1][k - 1];
      } else if i <= k < n - 1 {
        assert r[k] == s[i..n - 1][k - i];
      }
    }
  }

  lemma RotatedRearranged(s: seq<string>, n: nat, i: nat)
    requires i <= n <= |s|
    ensures Rearranged(s[n - i..n] + s[..n - i] + s[n..], s, n)
  {
    assert s == s[..n - i] + s[n - i..n] + s[n..];
  }

  lemma EvenRearranged(s: seq<string>, n: nat, i: nat)
    requires 1 <= i < n <= |s|
    ensures Rearranged([s[n - 1]] + s[..i - 1] + s[i..n - 1] + [s[i - 1]] + s[n..], s, n)
  {
    assert s == s[..n - 1] + [s[n - 1]] + s[n..];
    assert s[..n - 1] == s[..i - 1] + [s[i - 1]] + s[i..n - 1];
  }

  /** What a call on an even number of entries leaves is a rearrangement too. */
  lemma AfterRearranged(s: seq<string>, n: nat)
    requires n <= |s|
    ensures Rearranged(After(s, n), s, n)
  {
    if n >= 2 && n % 2 == 0 {
      assert s == s[..n - 1] + [s[n - 1]] + s[n..];
    }
  }

  /** Every appended row rearranges the first n entries and keeps the rest. */
  lemma {:induction false} HeapSound(s: seq<string>, n: nat)
    requires n <= |s|
    ensures forall x :: x in Heap(s, n) ==> Rearranged(x, s, n)
    decreases n, n + 1
  {
    if n >= 2 {
      RoundsSound(s, n, n);
    }
  }

  lemma {:induction false} RoundsSound(s: seq<string>, n: nat, i: nat)
    requires 2 <= n <= |s| && i <= n
    ensures forall x :: x in Rounds(s, n, i) ==> Rearranged(x, s, n)
    decreases n, i
  {
    if i > 0 {
      var a := Start(s, n, i - 1);
      RoundsSound(s, n, i - 1);
      HeapSound(a, n - 1);
      StartRearranged(s, n, i - 1);
      forall x | x in Heap(a, n - 1)
        ensures Rearranged(x, s, n)
      {
        RearrangedWiden(x, a, n);
        RearrangedTrans(x, a, s, n);
      }
    }
  }

  /** n! rows: n rounds of (n - 1)! each. */
  lemma {:induction false} HeapLength(s: seq<string>, n: nat)
    requires 1 <= n <= |s|
    ensures |Heap(s, n)| == Fact(n)
    decreases n, n + 1
  {
    if n >= 2 {
      RoundsLength(s, n, n);
    }
  }

  lemma {:induction false} RoundsLength(s: seq<string>, n: nat, i: nat)
    requires 2 <= n <= |s| && i <= n
    ensures |Rounds(s, n, i)| == i * Fact(n - 1)
    decreases n, i
  {
    if i > 0 {
      RoundsLength(s, n, i - 1);
      HeapLength(Start(s, n, i - 1), n - 1);
      assert i * Fact(n - 1) == (i - 1) * Fact(n - 1) + Fact(n - 1);
    }
  }

  /** Every one of the first n entries is the last entry at the start of some round. */
  lemma LastOfRound(s: seq<string>, n: nat, j: nat)
    requires 2 <= n <= |s| && j < n
    ensures exists i :: 0 <= i < n && Start(s, n, i)[n - 1] == s[j]
  {
    var i := if n % 2 == 1 then n - 1 - j else if j == n - 1 then 0 else j + 1;
    assert Src(n, i, n - 1) == j;
    assert Start(s, n, i)[n - 1] == s[j];
  }

  /** The rows of round i are among those of the first k rounds when i < k. */
  lemma {:induction false} RoundsContain(s: seq<string>, n: nat, i: nat, k: nat, x: seq<string>)
    requires 2 <= n <= |s| && i < k <= n && x in Heap(Start(s, n, i), n - 1)
    ensures x in Rounds(s, n, k)
    decreases k
  {
    if k > i + 1 {
      RoundsContain(s, n, i, k - 1, x);
    }
  }

  /** Every rearrangement of the first n entries is appended. */
  lemma {:induction false} HeapComplete(s: seq<string>, n: nat, t: seq<string>)
    requires 1 <= n <= |s| && Rearranged(t, s, n)
    ensures t in Heap(s, n)
    decreases n
  {
    if n == 1 {
      SameAfterFirst(t, s);
    } else {
      RearrangedPrefix(t, s, n);
      assert t[n - 1] == t[..n][n - 1];
      assert t[n - 1] in multiset(s[..n]);
      var j :| 0 <= j < n && s[..n][j] == t[n - 1];
      LastOfRound(s, n, j);
      var i :| 0 <= i < n && Start(s, n, i)[n - 1] == s[j];
      var a := Start(s, n, i);
      StartRearranged(s, n, i);
      assert t[n - 1..] == [t[n - 1]] + t[n..] && a[n - 1..] == [a[n - 1]] + a[n..];
      HeapComplete(a, n - 1, t);
      RoundsContain(s, n, i, n, t);
    }
  }

  /** Rearranging only the first entry changes nothing. */
  lemma SameAfterFirst(t: seq<string>, s: seq<string>)
    requires Rearranged(t, s, 1)
    ensures t == s
  {
    assert t == [t[0]] + t[1..] && s == [s[0]] + s[1..];
    assert multiset(t) == multiset{t[0]} + multiset(t[1..]);
    assert multiset(s) == multiset{s[0]} + multiset(s[1..]);
    Cancel(multiset{t[0]}, multiset{s[0]}, multiset(t[1..]));
    assert t[0] in multiset{s[0]};
  }

  /** No two of the first n entries are equal. */
  ghost predicate DistinctPrefix(s: seq<string>, n: nat)
    requires n <= |s|
  {
    forall a, b :: 0 <= a < b < n ==> s[a] != s[b]
  }

  /** No row appears twice. */
  ghost predicate NoRepeats(rows: seq<seq<string>>)
  {
    forall a, b :: 0 <= a < b < |rows| ==> rows[a] != rows[b]
  }

  /** A round's starting array takes each of the first n entries from a different place. */
  lemma SrcInjective(n: nat, i: nat, a: nat, b: nat)
    requires i <= n && a < b < n
    ensures Src(n, i, a) != Src(n, i, b)
  {
  }

  /** Different rounds bring different entries last. */
  lemma SrcLastInjective(n: nat, i: nat, j: nat)
    requires 2 <= n && i < j < n
    ensures Src(n, i, n - 1) != Src(n, j, n - 1)
  {
  }

  lemma StartDistinct(s: seq<string>, n: nat, i: nat)
    requires n <= |s| && i <= n && DistinctPrefix(s, n)
    ensures DistinctPrefix(Start(s, n, i), n)
  {
    forall a, b | 0 <= a < b < n
      ensures Start(s, n, i)[a] != Start(s, n, i)[b]
    {
      SrcInjective(n, i, a, b);
    }
  }

  /** A row of the first i rounds ends its first n entries with the entry one of those rounds brought last. */
  lemma {:induction false} RowTag(s: seq<string>, n: nat, i: nat, x: seq<string>)
    requires 2 <= n <= |s| && i <= n && x in Rounds(s, n, i)
    ensures |x| == |s| && exists j :: 0 <= j < i && x[n - 1] == Start(s, n, j)[n - 1]
    decreases i
  {
    RoundsSound(s, n, i);
    assert Rearranged(x, s, n);
    var a := Start(s, n, i - 1);
    if x in Heap(a, n - 1) {
      HeapSound(a, n - 1);
      assert Rearranged(x, a, n - 1);
      assert x[n - 1] == x[n - 1..][0] && a[n - 1] == a[n - 1..][0];
    } else {
      RowTag(s, n, i - 1, x);
    }
  }

  lemma JoinedDistinct(xs: seq<seq<string>>, ys: seq<seq<string>>)
    requires NoRepeats(xs) && NoRepeats(ys)
    requires forall a, b :: 0 <= a < |xs| && 0 <= b < |ys| ==> xs[a] != ys[b]
    ensures NoRepeats(xs + ys)
  {
    forall a, b | 0 <= a < b < |xs + ys|
      ensures (xs + ys)[a] != (xs + ys)[b]
    {
      if a >= |xs| {
        assert (xs + ys)[a] == ys[a - |xs|] && (xs + ys)[b] == ys[b - |xs|];
      } else if b >= |xs| {
        assert (xs + ys)[b] == ys[b - |xs|];
      }
    }
  }

  /** When the first n entries are all different, no row is appended twice. */
  lemma {:induction false} HeapDistinct(s: seq<string>, n: nat)
    requires n <= |s| && DistinctPrefix(s, n)
    ensures NoRepeats(Heap(s, n))
    decreases n, n + 1
  {
    if n >= 2 {
      RoundsDistinct(s, n, n);
    }
  }

  lemma {:induction false} RoundsDistinct(s: seq<string>, n: nat, i: nat)
    requires 2 <= n <= |s| && i <= n && DistinctPrefix(s, n)
    ensures NoRepeats(Rounds(s, n, i))
    decreases n, i
  {
    if i > 0 {
      var a := Start(s, n, i - 1);
      RoundsDistinct(s, n, i - 1);
      StartDistinct(s, n, i - 1);
      HeapDistinct(a, n - 1);
      var xs, ys := Rounds(s, n, i - 1), Heap(a, n - 1);
      forall p, q | 0 <= p < |xs| && 0 <= q < |ys|
        ensures xs[p] != ys[q]
      {
        var x, y := xs[p], ys[q];
        RowTag(s, n, i - 1, x);
        var j :| 0 <= j < i - 1 && x[n - 1] == Start(s, n, j)[n - 1];
        SrcLastInjective(n, j, i - 1);
        HeapSound(a, n - 1);
        assert Rearranged(y, a, n - 1);
        assert y[n - 1] == y[n - 1..][0] && a[n - 1] == a[n - 1..][0];
      }
      JoinedDistinct(Rounds(s, n, i - 1), Heap(a, n - 1));
    }
  }

  /** The first guest in front of each row Heap's algorithm lists for the others. */
  ghost predicate Listing(people: seq<string>, perms: seq<seq<string>>, listing: seq<seq<string>>)
  {
    |people| >= 1 && perms == Heap(people[1..], |people| - 1) &&
    |listing| == |perms| && forall k :: 0 <= k < |perms| ==> listing[k] == [people[0]] + perms[k]
  }

  /** (n - 1)! seatings for n >= 2 guests, none for one. */
  lemma ListingCount(people: seq<string>, perms: seq<seq<string>>, listing: seq<seq<string>>)
    requires Listing(people, perms, listing)
    ensures |people| < 2 ==> listing == []
    ensures |people| >= 2 ==> |listing| == Fact(|people| - 1)
  {
    if |people| >= 2 {
      HeapLength(people[1..], |people| - 1);
    }
  }

  /** Each listed seating puts the first guest first and seats every guest once. */
  lemma ListingSound(people: seq<string>, perms: seq<seq<string>>, listing: seq<seq<string>>)
    requires Listing(people, perms, listing)
    ensures forall k :: 0 <= k < |listing| ==>
      |listing[k]| == |people| && listing[k][0] == people[0] && multiset(listing[k]) == multiset(people)
  {
    var rest := people[1..];
    assert people == [people[0]] + rest;
    HeapSound(rest, |rest|);
    forall k | 0 <= k < |listing|
      ensures |listing[k]| == |people| && multiset(listing[k]) == multiset(people)
    {
      assert perms[k] in perms;
    }
  }

  /** Every seating with the first guest first is listed. */
  lemma ListingComplete(people: seq<string>, perms: seq<seq<string>>, listing: seq<seq<string>>)
    requires |people| >= 2 && Listing(people, perms, listing)
    ensures forall t :: |t| == |people| && t[0] == people[0] && multiset(t) == multiset(people) ==> t in listing
  {
    var rest := people[1..];
    forall t | |t| == |people| && t[0] == people[0] && multiset(t) == multiset(people)
      ensures t in listing
    {
      assert t == [people[0]] + t[1..] && people == [people[0]] + rest;
      assert multiset(t) == multiset(t[1..]) + multiset{people[0]};
      assert multiset(people) == multiset(rest) + multiset{people[0]};
      Cancel(multiset(t[1..]), multiset(rest), multiset{people[0]});
      HeapComplete(rest, |rest|, t[1..]);
      var k :| 0 <= k < |perms| && perms[k] == t[1..];
      assert listing[k] == t;
    }
  }

  /** Different guests give different seatings. */
  lemma ListingDistinct(people: seq<string>, perms: seq<seq<string>>, listing: seq<seq<string>>)
    requires Listing(people, perms, listing) && DistinctPrefix(people, |people|)
    ensures NoRepeats(listing)
  {
    var rest := people[1..];
    forall a, b | 0 <= a < b < |rest|
      ensures rest[a] != rest[b]
    {
      assert rest[a] == people[a + 1] && rest[b] == people[b + 1];
    }
    HeapDistinct(rest, |rest|);
    forall a, b | 0 <= a < b < |listing|
      ensures listing[a] != listing[b]
    {
      assert listing[a][1..] == perms[a] && listing[b][1..] == perms[b];
    }
  }

  /** What `generate_arrangements` promises of its listing. */
  lemma ListingFacts(people: seq<string>, perms: seq<seq<string>>, listing: seq<seq<string>>)
    requires Listing(people, perms, listing)
    ensures |people| < 2 ==> listing == []
    ensures |people| >= 2 ==> |listing| == Fact(|people| - 1)
    ensures forall k :: 0 <= k < |listing| ==>
      |listing[k]| == |people| && listing[k][0] == people[0] && multiset(listing[k]) == multiset(people)
    ensures |people| >= 2 ==> forall t :: |t| == |people| && t[0] == people[0] && multiset(t) == multiset(people) ==> t in listing
    ensures DistinctPrefix(people, |people|) ==> NoRepeats(listing)
  {
    ListingCount(people, perms, listing);
    ListingSound(people, perms, listing);
    if |people| >= 2 {
      ListingComplete(people, perms, listing);
    }
    if DistinctPrefix(people, |people|) {
      ListingDistinct(people, perms, listing);
    }
  }

  /** The guests and what each feels about each neighbour. */
  class Arrangement {
    var relationships: Table
    var people: seq<string>

    /** `from_relationships`: the table, and every guest once, in the order the set hands them out. */
    constructor FromRelationships(rels: seq<Relationship>)
      ensures relationships == Recorded(rels)
      ensures forall i, j :: 0 <= i < j < |people| ==> people[i] != people[j]
      ensures forall p :: p in people <==> p in Names(rels)
    {
      var table: Table := map[];
      var names: set<string> := {};
      for k := 0 to |rels|
        invariant table == Recorded(rels[..k])
        invariant names == Names(rels[..k])
      {
        assert rels[..k + 1][..k] == rels[..k];
        table := table[(rels[k].person, rels[k].neighbor) := rels[k].happiness];
        names := names + {rels[k].person, rels[k].neighbor};
      }
      assert rels[..|rels|] == rels;
      var ps: seq<string> := [];
      var rest := names;
      while rest != {}
        invariant forall i, j :: 0 <= i < j < |ps| ==> ps[i] != ps[j]
        invariant forall p :: p in names <==> p in ps || p in rest
        invariant forall p :: p in ps ==> p !in rest
        decreases |rest|
      {
        var p :| p in rest;
        ps := ps + [p];
        rest := rest - {p};
      }
      relationships := table;
      people := ps;
    }

    /** `add_self`: Me joins at the end, indifferent to everyone. */
    method AddSelf()
      modifies this
      ensures relationships == WithMe(old(relationships), old(people))
      ensures people == old(people) + [ME]
    {
      var ps := people;
      for k := 0 to |ps|
        invariant relationships == WithMe(old(relationships), ps[..k])
        invariant people == old(people)
      {
        assert ps[..k + 1][..k] == ps[..k];
        relationships := relationships[(ME, ps[k]) := 0];
        relationships := relationships[(ps[k], ME) := 0];
      }
      assert ps[..|ps|] == ps;
      people := people + [ME];
    }

    /** `generate_arrangements`: the first guest, then every order of the others, each exactly as often as Heap's algorithm lists it. */
    method GenerateArrangements() returns (arrangements: seq<seq<string>>)
      ensures |people| < 2 ==> arrangements == []
      ensures |people| >= 2 ==> |arrangements| == Fact(|people| - 1)
      ensures forall k :: 0 <= k < |arrangements| ==>
        |arrangements[k]| == |people| && arrangements[k][0] == people[0] && multiset(arrangements[k]) == multiset(people)
      ensures |people| >= 2 ==> forall t :: |t| == |people| && t[0] == people[0] && multiset(t) == multiset(people) ==> t in arrangements
      ensures DistinctPrefix(people, |people|) ==> NoRepeats(arrangements)
    {
      if |people| == 0 {
        return [];
      }
      var first := people[0];
      var rest := people[1..];
      var others := new string[|rest|](k requires 0 <= k < |rest| => rest[k]);
      assert others[..] == rest;
      var perms := Permutations(others, others.Length, []);
      assert perms == Heap(rest, |rest|) by {
        assert [] + Heap(rest, |rest|) == Heap(rest, |rest|);
      }
      arrangements := seq(|perms|, k requires 0 <= k < |perms| => [first] + perms[k]);
      ListingFacts(people, perms, arrangements);
    }

    /** `calculate_happiness`. */
    method CalculateHappiness(arrangement: seq<string>) returns (total: int)
      ensures total == HappinessOf(relationships, arrangement)
    {
      var n := |arrangement|;
      if n < 2 {
        return 0;
      }
      total := 0;
      for i := 0 to n
        invariant total == Around(relationships, arrangement, i)
      {
        var current := arrangement[i];
        var next := arrangement[(i + 1) % n];
        total := total + Get(relationships, current, next);
        total := total + Get(relationships, next, current);
      }
      if n == 2 {
        return Quot(total, 2);
      }
    }

    /**
     * `find_optimal_happiness`: the best total over the arrangements, or 0
     * when there are none; with two or more guests, no seating of them does better.
     */
    method FindOptimal() returns (best: int, ghost arrangements: seq<seq<string>>)
      ensures |people| < 2 ==> arrangements == [] && best == 0
      ensures |people| >= 2 ==> |arrangements| == Fact(|people| - 1)
      ensures forall k :: 0 <= k < |arrangements| ==>
        |arrangements[k]| == |people| && arrangements[k][0] == people[0] && multiset(arrangements[k]) == multiset(people)
      ensures forall k :: 0 <= k < |arrangements| ==> HappinessOf(relationships, arrangements[k]) <= best
      ensures arrangements != [] ==> exists k :: 0 <= k < |arrangements| && best == HappinessOf(relationships, arrangements[k])
      ensures |people| >= 2 ==> forall t :: multiset(t) == multiset(people) ==> HappinessOf(relationships, t) <= best
    {
      var all := GenerateArrangements();
      arrangements := all;
      best := 0;
      for k := 0 to |all|
        invariant k == 0 ==> best == 0
        invariant forall j :: 0 <= j < k ==> HappinessOf(relationships, all[j]) <= best
        invariant k > 0 ==> exists j :: 0 <= j < k && best == HappinessOf(relationships, all[j])
      {
        var h := CalculateHappiness(all[k]);
        if k == 0 || h > best {
          best := h;
        }
      }
      if |people| >= 2 {
        forall t | multiset(t) == multiset(people)
          ensures HappinessOf(relationships, t) <= best
        {
          RotationListed(people, all, t);
          var j :| 0 <= j < |t| && t[j..] + t[..j] in all;
          var k :| 0 <= k < |all| && all[k] == t[j..] + t[..j];
          RotateBy(relationships, t, j);
        }
      }
    }
  }
}
