/**
 * 2024/day-24 part 2: the wires of a ripple-carry adder whose gates were
 * swapped are found by local rules.  Every gate's inputs are recorded with
 * the gate's operation; a gate is then flagged by a rule for its
 * operation, and the flagged outputs are sorted and joined with commas.
 */
module GateFlags {
  datatype Op = And | Or | Xor

  /** `Gate`: the two inputs, the output wire and the operation. */
  datatype Gate = Gate(left: string, right: string, output: string, op: Op)

  /** `connection_cache`: each gate's inputs, paired with its operation. */
  function Connections(gates: seq<Gate>): set<(string, Op)>
  {
    if gates == [] then {}
    else
      var g := gates[|gates| - 1];
      Connections(gates[..|gates| - 1]) + {(g.left, g.op), (g.right, g.op)}
  }

  /** The reference: some gate of operation op reads wire w. */
  predicate Feeds(gates: seq<Gate>, w: string, op: Op)
  {
    exists i :: 0 <= i < |gates| && gates[i].op == op && (gates[i].left == w || gates[i].right == w)
  }

  /** `starts_with(c)`. */
  predicate StartsWith(s: string, c: char)
  {
    |s| > 0 && s[0] == c
  }

  /** The three guards of the `match`, reading the cache. */
  predicate Flagged(g: Gate, cache: set<(string, Op)>)
  {
    match g.op
    case And => g.left != "x00" && g.right != "x00" && (g.output, Or) !in cache
    case Xor =>
      ((StartsWith(g.left, 'x') || StartsWith(g.right, 'x')) && g.left != "x00" && g.right != "x00" &&
       (g.output, Xor) !in cache) ||
      (!StartsWith(g.output, 'z') && !StartsWith(g.left, 'x') && !StartsWith(g.right, 'x'))
    case Or => StartsWith(g.output, 'z') && g.output != "z45"
  }

  /**
   * The rules in terms of the circuit: an AND gate off the first bit must
   * feed an OR gate; an XOR gate on the inputs off the first bit must feed
   * an XOR gate, and one not on the inputs must drive an output bit; an OR
   * gate must not drive an output bit other than the last carry z45.
   */
  predicate Suspicious(gates: seq<Gate>, g: Gate)
  {
    match g.op
    case And => g.left != "x00" && g.right != "x00" && !Feeds(gates, g.output, Or)
    case Xor =>
      ((StartsWith(g.left, 'x') || StartsWith(g.right, 'x')) && g.left != "x00" && g.right != "x00" &&
       !Feeds(gates, g.output, Xor)) ||
      (!StartsWith(g.output, 'z') && !StartsWith(g.left, 'x') && !StartsWith(g.right, 'x'))
    case Or => StartsWith(g.output, 'z') && g.output != "z45"
  }

  /** The `filter_map`: the outputs of the flagged gates, in gate order. */
  function Suspects(gates: seq<Gate>, cache: set<(string, Op)>): seq<string>
  {
    if gates == [] then []
    else (if Flagged(gates[0], cache) then [gates[0].output] else []) + Suspects(gates[1..], cache)
  }

  // ---------------------------------------------------------------------
  // `results.sort()`: `str` order, character by character

  predicate Below(a: string, b: string)
  {
    if a == [] then true
    else if b == [] then false
    else if a[0] != b[0] then a[0] < b[0]
    else Below(a[1..], b[1..])
  }

  lemma {:induction false} BelowTotal(a: string, b: string)
    ensures Below(a, b) || Below(b, a)
    decreases |a|
  {
    if a != [] && b != [] && a[0] == b[0] {
      BelowTotal(a[1..], b[1..]);
    }
  }

  lemma {:induction false} BelowTrans(a: string, b: string, c: string)
    requires Below(a, b) && Below(b, c)
    ensures Below(a, c)
    decreases |a|
  {
    if a != [] && b != [] && c != [] && a[0] == b[0] && b[0] == c[0] {
      BelowTrans(a[1..], b[1..], c[1..]);
    }
  }

  lemma {:induction false} BelowAntisym(a: string, b: string)
    requires Below(a, b) && Below(b, a)
    ensures a == b
    decreases |a|
  {
    if a != [] && b != [] {
      BelowAntisym(a[1..], b[1..]);
      assert a == [a[0]] + a[1..] && b == [b[0]] + b[1..];
    }
  }

  predicate Sorted(s: seq<string>)
  {
    forall i, j :: 0 <= i < j < |s| ==> Below(s[i], s[j])
  }

  function Insert(x: string, s: seq<string>): seq<string>
  {
    if s == [] then [x]
    else if Below(x, s[0]) then [x] + s
    else [s[0]] + Insert(x, s[1..])
  }

  function Sort(s: seq<string>): seq<string>
  {
    if s == [] then [] else Insert(s[0], Sort(s[1..]))
  }

  lemma {:induction false} InsertProps(x: string, s: seq<string>)
    requires Sorted(s)
    ensures Sorted(Insert(x, s)) && multiset(Insert(x, s)) == multiset(s) + multiset{x}
    decreases |s|
  {
    if s != [] && !Below(x, s[0]) {
      assert Sorted(s[1..]);
      InsertProps(x, s[1..]);
      var r := Insert(x, s[1..]);
      assert s == [s[0]] + s[1..];
      BelowTotal(x, s[0]);
      forall k | 0 <= k < |r|
        ensures Below(s[0], r[k])
      {
        assert r[k] in multiset(s[1..]) + multiset{x};
        if r[k] != x {
          assert r[k] in s[1..];
        }
      }
      SortedCons(s[0], r);
    } else if s != [] {
      forall k | 0 <= k < |s|
        ensures Below(x, s[k])
      {
        if k > 0 {
          BelowTrans(x, s[0], s[k]);
        }
      }
      SortedCons(x, s);
    }
  }

  lemma SortedCons(h: string, t: seq<string>)
    requires Sorted(t) && forall k :: 0 <= k < |t| ==> Below(h, t[k])
    ensures Sorted([h] + t)
  {
    forall i, j | 0 <= i < j < |t| + 1
      ensures Below(([h] + t)[i], ([h] + t)[j])
    {
      if i > 0 {
        assert ([h] + t)[i] == t[i - 1];
      }
      assert ([h] + t)[j] == t[j - 1];
    }
  }

  /** The sort returns its input in ascending order. */
  lemma {:induction false} SortProps(s: seq<string>)
    ensures Sorted(Sort(s)) && multiset(Sort(s)) == multiset(s)
    decreases |s|
  {
    if s != [] {
      SortProps(s[1..]);
      InsertProps(s[0], Sort(s[1..]));
      assert s == [s[0]] + s[1..];
    }
  }

  /** Two ascending arrangements of the same strings are the same. */
  lemma {:induction false} SortedUnique(a: seq<string>, b: seq<string>)
    requires Sorted(a) && Sorted(b) && multiset(a) == multiset(b)
    ensures a == b
    decreases |a|
  {
    if a == [] {
      assert |b| == |multiset(b)|;
    } else {
      assert |b| == |multiset(b)| == |multiset(a)| == |a|;
      SameHead(a, b);
      SameTail(a, b);
      SortedUnique(a[1..], b[1..]);
      assert a == [a[0]] + a[1..] && b == [b[0]] + b[1..];
    }
  }

  lemma SameTail(a: seq<string>, b: seq<string>)
    requires Sorted(a) && Sorted(b) && multiset(a) == multiset(b) && a != [] && b != [] && a[0] == b[0]
    ensures Sorted(a[1..]) && Sorted(b[1..]) && multiset(a[1..]) == multiset(b[1..])
  {
    assert a == [a[0]] + a[1..] && b == [b[0]] + b[1..];
    assert multiset(a) == multiset{a[0]} + multiset(a[1..]);
    assert multiset(b) == multiset{b[0]} + multiset(b[1..]);
    var m := multiset{a[0]};
    assert m + multiset(a[1..]) == m + multiset(b[1..]);
    assert multiset(a[1..]) == (m + multiset(a[1..])) - m;
    assert multiset(b[1..]) == (m + multiset(b[1..])) - m;
  }

  /** The head of an ascending arrangement is its least element. */
  lemma SameHead(a: seq<string>, b: seq<string>)
    requires Sorted(a) && Sorted(b) && multiset(a) == multiset(b) && a != [] && b != []
    ensures a[0] == b[0]
  {
    assert a[0] in multiset(b) && b[0] in multiset(a);
    assert a[0] in b && b[0] in a;
    var j :| 0 <= j < |b| && b[j] == a[0];
    var i :| 0 <= i < |a| && a[i] == b[0];
    if i != 0 && j != 0 {
      BelowAntisym(a[0], b[0]);
    }
  }

  // ---------------------------------------------------------------------
  // `results.join(",")`

  function Join(xs: seq<string>): string
  {
    if xs == [] then "" else if |xs| == 1 then xs[0] else xs[0] + "," + Join(xs[1..])
  }

  /** Cutting a string at every comma, as `split(',')` does. */
  function Split(s: string): (r: seq<string>)
    ensures |r| >= 1
  {
    if s == [] then [""]
    else
      var rest := Split(s[1..]);
      if s[0] == ',' then [""] + rest else [[s[0]] + rest[0]] + rest[1..]
  }

  predicate NoComma(x: string)
  {
    forall i :: 0 <= i < |x| ==> x[i] != ','
  }

  lemma {:induction false} SplitPlain(x: string, rest: string)
    requires NoComma(x)
    ensures Split(x + rest) == [x + Split(rest)[0]] + Split(rest)[1..]
    decreases |x|
  {
    if x != [] {
      assert (x + rest)[0] == x[0] && (x + rest)[1..] == x[1..] + rest;
      SplitPlain(x[1..], rest);
      var r := Split(x[1..] + rest);
      assert Split(x + rest) == [[x[0]] + r[0]] + r[1..];
      assert [x[0]] + (x[1..] + Split(rest)[0]) == x + Split(rest)[0];
    } else {
      assert x + rest == rest;
      assert x + Split(rest)[0] == Split(rest)[0];
      assert [Split(rest)[0]] + Split(rest)[1..] == Split(rest);
    }
  }

  /** Joined words free of commas split back into the words. */
  lemma {:induction false} SplitJoin(xs: seq<string>)
    requires xs != [] && forall k :: 0 <= k < |xs| ==> NoComma(xs[k])
    ensures Split(Join(xs)) == xs
    decreases |xs|
  {
    if |xs| == 1 {
      SplitPlain(xs[0], "");
      assert xs[0] + "" == xs[0] && Split("") == [""];
    } else {
      SplitJoin(xs[1..]);
      var tail := "," + Join(xs[1..]);
      assert xs[0] + "," + Join(xs[1..]) == xs[0] + tail;
      SplitPlain(xs[0], tail);
      assert tail[0] == ',' && tail[1..] == Join(xs[1..]);
      assert Split(tail) == [""] + xs[1..];
      assert Join(xs) == xs[0] + tail;
      assert xs[0] + "" == xs[0];
      assert xs == [xs[0]] + xs[1..];
    }
  }

  /** `process` after parsing. */
  function Answer(gates: seq<Gate>): string
  {
    Join(Sort(Suspects(gates, Connections(gates))))
  }

  // ---------------------------------------------------------------------
  // Properties

  /** The cache holds exactly the (wire, operation) pairs of the wires some gate of that operation reads. */
  lemma {:induction false} ConnectionsMembers(gates: seq<Gate>, w: string, op: Op)
    ensures (w, op) in Connections(gates) <==> Feeds(gates, w, op)
    decreases |gates|
  {
    if gates != [] {
      var init := gates[..|gates| - 1];
      ConnectionsMembers(init, w, op);
      assert forall i :: 0 <= i < |init| ==> gates[i] == init[i];
    }
  }

  /** With the cache of the whole circuit, the match's guards are the rules. */
  lemma FlaggedIsSuspicious(gates: seq<Gate>, g: Gate)
    ensures Flagged(g, Connections(gates)) <==> Suspicious(gates, g)
  {
    ConnectionsMembers(gates, g.output, Or);
    ConnectionsMembers(gates, g.output, Xor);
  }

  lemma {:induction false} SuspectsMembers(all: seq<Gate>, gates: seq<Gate>, o: string)
    ensures o in Suspects(gates, Connections(all)) <==>
      exists i :: 0 <= i < |gates| && gates[i].output == o && Suspicious(all, gates[i])
    decreases |gates|
  {
    if gates != [] {
      SuspectsMembers(all, gates[1..], o);
      FlaggedIsSuspicious(all, gates[0]);
      if exists i :: 0 <= i < |gates| && gates[i].output == o && Suspicious(all, gates[i]) {
        var i :| 0 <= i < |gates| && gates[i].output == o && Suspicious(all, gates[i]);
        if i > 0 {
          assert gates[1..][i - 1] == gates[i];
        }
      }
      if exists i :: 0 <= i < |gates[1..]| && gates[1..][i].output == o && Suspicious(all, gates[1..][i]) {
        var i :| 0 <= i < |gates[1..]| && gates[1..][i].output == o && Suspicious(all, gates[1..][i]);
        assert gates[i + 1] == gates[1..][i];
      }
    }
  }

  /** A wire is in the answer exactly when it is the output of a gate breaking its rule. */
  lemma AnswerMembers(gates: seq<Gate>, o: string)
    ensures o in Sort(Suspects(gates, Connections(gates))) <==>
      exists i :: 0 <= i < |gates| && gates[i].output == o && Suspicious(gates, gates[i])
  {
    var s := Suspects(gates, Connections(gates));
    SortProps(s);
    assert o in Sort(s) <==> o in multiset(Sort(s));
    SuspectsMembers(gates, gates, o);
  }

  /** With wire names free of commas, the answer splits back into the flagged outputs, sorted. */
  lemma AnswerSplits(gates: seq<Gate>)
    requires forall i :: 0 <= i < |gates| ==> NoComma(gates[i].output)
    requires Suspects(gates, Connections(gates)) != []
    ensures Split(Answer(gates)) == Sort(Suspects(gates, Connections(gates)))
    ensures Sorted(Split(Answer(gates)))
  {
    var s := Suspects(gates, Connections(gates));
    SortProps(s);
    forall k | 0 <= k < |Sort(s)|
      ensures NoComma(Sort(s)[k])
    {
      assert Sort(s)[k] in multiset(s);
      SuspectsMembers(gates, gates, Sort(s)[k]);
    }
    assert |Sort(s)| == |multiset(s)| == |s|;
    SplitJoin(Sort(s));
  }

  lemma {:induction false} SuspectsConcat(a: seq<Gate>, b: seq<Gate>, cache: set<(string, Op)>)
    ensures Suspects(a + b, cache) == Suspects(a, cache) + Suspects(b, cache)
    decreases |a|
  {
    if a == [] {
      assert a + b == b;
    } else {
      assert (a + b)[0] == a[0] && (a + b)[1..] == a[1..] + b;
      SuspectsConcat(a[1..], b, cache);
    }
  }

  /** The flagged outputs, counted with repetition, do not depend on the order of the gates. */
  lemma {:induction false} SuspectsPermuted(a: seq<Gate>, b: seq<Gate>, cache: set<(string, Op)>)
    requires multiset(a) == multiset(b)
    ensures multiset(Suspects(a, cache)) == multiset(Suspects(b, cache))
    decreases |a|
  {
    if a == [] {
      assert |b| == |multiset(b)|;
    } else {
      assert a[0] in multiset(b);
      var k :| 0 <= k < |b| && b[k] == a[0];
      var rest := RemoveAt(b, k);
      assert a == [a[0]] + a[1..];
      assert multiset(a[1..]) == multiset(rest);
      SuspectsPermuted(a[1..], rest, cache);
      SuspectsAround(b, k, cache);
    }
  }

  /** b without its element at k, counted: one copy of b[k] fewer. */
  lemma RemoveAt(b: seq<Gate>, k: nat) returns (rest: seq<Gate>)
    requires k < |b|
    ensures rest == b[..k] + b[k + 1..] && multiset(rest) == multiset(b) - multiset{b[k]}
  {
    rest := b[..k] + b[k + 1..];
    assert b == b[..k] + [b[k]] + b[k + 1..];
  }

  lemma SuspectsAround(b: seq<Gate>, k: nat, cache: set<(string, Op)>)
    requires k < |b|
    ensures multiset(Suspects(b, cache)) ==
      multiset(Suspects(b[..k] + b[k + 1..], cache)) + multiset(Suspects([b[k]], cache))
  {
    var front, back := b[..k], b[k + 1..];
    assert b == front + ([b[k]] + back);
    SuspectsConcat(front, [b[k]] + back, cache);
    SuspectsConcat([b[k]], back, cache);
    SuspectsConcat(front, back, cache);
    var sf, sk, sb := Suspects(front, cache), Suspects([b[k]], cache), Suspects(back, cache);
    assert Suspects(b, cache) == sf + (sk + sb);
    assert Suspects(front + back, cache) == sf + sb;
    assert multiset(sf + (sk + sb)) == multiset(sf) + multiset(sk) + multiset(sb);
    assert multiset(sf + sb) == multiset(sf) + multiset(sb);
  }

  lemma ConnectionsPermuted(a: seq<Gate>, b: seq<Gate>)
    requires multiset(a) == multiset(b)
    ensures Connections(a) == Connections(b)
  {
    forall p: (string, Op)
      ensures p in Connections(a) <==> p in Connections(b)
    {
      var (w, op) := p;
      ConnectionsMembers(a, w, op);
      ConnectionsMembers(b, w, op);
      if Feeds(a, w, op) {
        var i :| 0 <= i < |a| && a[i].op == op && (a[i].left == w || a[i].right == w);
        assert a[i] in multiset(b);
      }
      if Feeds(b, w, op) {
        var i :| 0 <= i < |b| && b[i].op == op && (b[i].left == w || b[i].right == w);
        assert b[i] in multiset(a);
      }
    }
  }

  /** The answer does not depend on the order in which the gates are listed. */
  lemma OrderIrrelevant(a: seq<Gate>, b: seq<Gate>)
    requires multiset(a) == multiset(b)
    ensures Answer(a) == Answer(b)
  {
    ConnectionsPermuted(a, b);
    var cache := Connections(a);
    SuspectsPermuted(a, b, cache);
    SortProps(Suspects(a, cache));
    SortProps(Suspects(b, cache));
    SortedUnique(Sort(Suspects(a, cache)), Sort(Suspects(b, cache)));
  }
}
