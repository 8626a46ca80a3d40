/**
 * 2015/day-08: the difference between the length of string literals in code
 * and the strings they denote (part 1), and the extra length needed to
 * quote and escape them again (part 2).  The input is its raw bytes, one
 * literal per line, each line ended by a newline.
 */
module EscapeLength {
  import opened Bits

  const NEWLINE: Byte := 10
  const QUOTE: Byte := 34
  const SLASH: Byte := 92
  const ESCAPE: Byte := 120

  // ---------------------------------------------------------------------
  // Part 1: the `(flag, count)` fold

  /** The fold's accumulator: whether the previous byte opened an escape, and the running difference. */
  datatype Scan = Scan(escaped: bool, count: nat)

  /** One step of the fold of 2015/day-08/src/part1.rs. */
  function Step(s: Scan, b: Byte): Scan
  {
    if s.escaped && b == ESCAPE then Scan(false, s.count + 3)
    else if s.escaped then Scan(false, s.count + 1)
    else if b == SLASH then Scan(true, s.count)
    else if b == NEWLINE then Scan(false, s.count + 2)
    else Scan(false, s.count)
  }

  /** The fold over the bytes, from accumulator s. */
  function Fold(s: Scan, bytes: seq<Byte>): Scan
    decreases |bytes|
  {
    if bytes == [] then s else Fold(Step(s, bytes[0]), bytes[1..])
  }

  /** The answer of part 1. */
  function Difference(input: seq<Byte>): nat
  {
    Fold(Scan(false, 0), input).count
  }

  /** Each step adds between 0 and 3 to the count, and only a backslash outside an escape opens one. */
  lemma StepBounds(s: Scan, b: Byte)
    ensures s.count <= Step(s, b).count <= s.count + 3
    ensures Step(s, b).escaped <==> !s.escaped && b == SLASH
    ensures !s.escaped && b == SLASH ==> Step(s, b).count == s.count
  {
  }

  /** The count never decreases along the fold, and grows by at most three per byte. */
  lemma {:induction false} FoldBounds(s: Scan, bytes: seq<Byte>)
    ensures s.count <= Fold(s, bytes).count <= s.count + 3 * |bytes|
    decreases |bytes|
  {
    if bytes != [] {
      StepBounds(s, bytes[0]);
      FoldBounds(Step(s, bytes[0]), bytes[1..]);
    }
  }

  lemma {:induction false} FoldConcat(s: Scan, a: seq<Byte>, b: seq<Byte>)
    ensures Fold(s, a + b) == Fold(Fold(s, a), b)
    decreases |a|
  {
    if a == [] {
      assert a + b == b;
    } else {
      assert (a + b)[1..] == a[1..] + b;
      FoldConcat(Step(s, a[0]), a[1..], b);
    }
  }

  lemma FoldOne(s: Scan, b: Byte)
    ensures Fold(s, [b]) == Step(s, b)
  {
    assert [b][1..] == [];
  }

  /** One character of a string literal as written in code. */
  datatype Token = Plain(b: Byte) | EscapedSlash | EscapedQuote | Hex(hi: Byte, lo: Byte)

  predicate IsHexDigit(b: Byte)
  {
    48 <= b <= 57 || 97 <= b <= 102
  }

  predicate TokenOk(t: Token)
  {
    match t
    case Plain(b) => b != QUOTE && b != SLASH && b != NEWLINE
    case Hex(hi, lo) => IsHexDigit(hi) && IsHexDigit(lo)
    case _ => true
  }

  /** The bytes that spell a token: `\\`, `\"`, `\xHH` or the byte itself. */
  function Spell(t: Token): seq<Byte>
  {
    match t
    case Plain(b) => [b]
    case EscapedSlash => [SLASH, SLASH]
    case EscapedQuote => [SLASH, QUOTE]
    case Hex(hi, lo) => [SLASH, ESCAPE, hi, lo]
  }

  function SpellAll(ts: seq<Token>): (r: seq<Byte>)
    ensures |r| >= |ts|
  {
    if ts == [] then [] else Spell(ts[0]) + SpellAll(ts[1..])
  }

  /** A string literal in code: the spelled tokens between two quotes. */
  function Literal(ts: seq<Token>): seq<Byte>
  {
    [QUOTE] + SpellAll(ts) + [QUOTE]
  }

  /** One input line: a literal and its newline. */
  function Line(ts: seq<Token>): seq<Byte>
  {
    Literal(ts) + [NEWLINE]
  }

  /** Code length minus memory length of one literal: each token is one character in memory. */
  function Overhead(ts: seq<Token>): nat
  {
    |Literal(ts)| - |ts|
  }

  /** Outside an escape, a token adds its extra bytes to the count and leaves no escape open. */
  lemma FoldToken(c: nat, t: Token)
    requires TokenOk(t)
    ensures Fold(Scan(false, c), Spell(t)) == Scan(false, c + |Spell(t)| - 1)
  {
    match t
    case Plain(b) =>
    case EscapedSlash =>
      FoldConcat(Scan(false, c), [SLASH], [SLASH]);
      FoldOne(Scan(false, c), SLASH);
      FoldOne(Scan(true, c), SLASH);
      assert Spell(t) == [SLASH] + [SLASH];
    case EscapedQuote =>
      FoldConcat(Scan(false, c), [SLASH], [QUOTE]);
      FoldOne(Scan(false, c), SLASH);
      FoldOne(Scan(true, c), QUOTE);
      assert Spell(t) == [SLASH] + [QUOTE];
    case Hex(hi, lo) =>
      assert Spell(t) == [SLASH, ESCAPE] + [hi, lo];
      FoldConcat(Scan(false, c), [SLASH, ESCAPE], [hi, lo]);
      FoldConcat(Scan(false, c), [SLASH], [ESCAPE]);
      assert [SLASH] + [ESCAPE] == [SLASH, ESCAPE];
      FoldOne(Scan(false, c), SLASH);
      FoldOne(Scan(true, c), ESCAPE);
      FoldConcat(Scan(false, c + 3), [hi], [lo]);
      assert [hi] + [lo] == [hi, lo];
      FoldOne(Scan(false, c + 3), hi);
      FoldOne(Scan(false, c + 3), lo);
  }

  lemma {:induction false} FoldTokens(c: nat, ts: seq<Token>)
    requires forall k :: 0 <= k < |ts| ==> TokenOk(ts[k])
    ensures Fold(Scan(false, c), SpellAll(ts)) == Scan(false, c + |SpellAll(ts)| - |ts|)
    decreases |ts|
  {
    if ts != [] {
      FoldConcat(Scan(false, c), Spell(ts[0]), SpellAll(ts[1..]));
      FoldToken(c, ts[0]);
      FoldTokens(c + |Spell(ts[0])| - 1, ts[1..]);
    }
  }

  /** A whole line adds exactly its literal's code-minus-memory length and closes every escape. */
  lemma LineDifference(c: nat, ts: seq<Token>)
    requires forall k :: 0 <= k < |ts| ==> TokenOk(ts[k])
    ensures Fold(Scan(false, c), Line(ts)) == Scan(false, c + Overhead(ts))
  {
    var body := SpellAll(ts);
    assert Line(ts) == [QUOTE] + (body + ([QUOTE] + [NEWLINE]));
    FoldConcat(Scan(false, c), [QUOTE], body + ([QUOTE] + [NEWLINE]));
    FoldConcat(Scan(false, c), body, [QUOTE] + [NEWLINE]);
    FoldTokens(c, ts);
    FoldOne(Scan(false, c), QUOTE);
    var x := c + |body| - |ts|;
    FoldConcat(Scan(false, x), [QUOTE], [NEWLINE]);
    FoldOne(Scan(false, x), QUOTE);
    FoldOne(Scan(false, x), NEWLINE);
  }

  /** A file of lines. */
  function File(lines: seq<seq<Token>>): seq<Byte>
  {
    if lines == [] then [] else Line(lines[0]) + File(lines[1..])
  }

  function TotalOverhead(lines: seq<seq<Token>>): nat
  {
    if lines == [] then 0 else Overhead(lines[0]) + TotalOverhead(lines[1..])
  }

  predicate WellFormedFile(lines: seq<seq<Token>>)
  {
    forall i, k :: 0 <= i < |lines| && 0 <= k < |lines[i]| ==> TokenOk(lines[i][k])
  }

  lemma {:induction false} FoldFile(c: nat, lines: seq<seq<Token>>)
    requires WellFormedFile(lines)
    ensures Fold(Scan(false, c), File(lines)) == Scan(false, c + TotalOverhead(lines))
    decreases |lines|
  {
    if lines != [] {
      assert forall k :: 0 <= k < |lines[0]| ==> TokenOk(lines[0][k]);
      FoldConcat(Scan(false, c), Line(lines[0]), File(lines[1..]));
      LineDifference(c, lines[0]);
      assert WellFormedFile(lines[1..]) by {
        forall i, k | 0 <= i < |lines[1..]| && 0 <= k < |lines[1..][i]|
          ensures TokenOk(lines[1..][i][k])
        {
          assert lines[1..][i] == lines[i + 1];
        }
      }
      FoldFile(c + Overhead(lines[0]), lines[1..]);
    }
  }

  /** The documented meaning of part 1: the code length minus the memory length, summed over the lines. */
  lemma DifferenceIsOverhead(lines: seq<seq<Token>>)
    requires WellFormedFile(lines)
    ensures Difference(File(lines)) == TotalOverhead(lines)
  {
    FoldFile(0, lines);
  }

  // ---------------------------------------------------------------------
  // Part 2: the per-byte cost sum

  /** What one byte adds in 2015/day-08/src/part2.rs. */
  function Cost(b: Byte): nat
  {
    if b == QUOTE || b == SLASH then 1 else if b == NEWLINE then 2 else 0
  }

  /** The answer of part 2. */
  function Extra(input: seq<Byte>): nat
  {
    if input == [] then 0 else Cost(input[0]) + Extra(input[1..])
  }

  lemma {:induction false} ExtraConcat(a: seq<Byte>, b: seq<Byte>)
    ensures Extra(a + b) == Extra(a) + Extra(b)
  {
    if a == [] {
      assert a + b == b;
    } else {
      assert (a + b)[1..] == a[1..] + b;
      ExtraConcat(a[1..], b);
    }
  }

  /** Quoting a line again: a backslash before each quote and backslash, and quotes around it. */
  function EscapeAll(line: seq<Byte>): seq<Byte>
  {
    if line == [] then []
    else (if line[0] == QUOTE || line[0] == SLASH then [SLASH, line[0]] else [line[0]]) + EscapeAll(line[1..])
  }

  function Requote(line: seq<Byte>): seq<Byte>
  {
    [QUOTE] + EscapeAll(line) + [QUOTE]
  }

  /** The line's bytes as the tokens of its re-quoted literal. */
  function Tokens(line: seq<Byte>): seq<Token>
  {
    if line == [] then []
    else [if line[0] == QUOTE then EscapedQuote else if line[0] == SLASH then EscapedSlash else Plain(line[0])] + Tokens(line[1..])
  }

  lemma {:induction false} EscapeIsSpell(line: seq<Byte>)
    ensures EscapeAll(line) == SpellAll(Tokens(line))
    ensures |Tokens(line)| == |line|
    ensures forall k :: 0 <= k < |line| ==> Tokens(line)[k].Plain? ==> Tokens(line)[k].b == line[k]
  {
    if line != [] {
      EscapeIsSpell(line[1..]);
      var ts := Tokens(line);
      assert ts[1..] == Tokens(line[1..]);
    }
  }

  /** Re-quoting writes the line as a literal that denotes it, one well-formed token per byte. */
  lemma RequoteIsLiteral(line: seq<Byte>)
    requires NEWLINE !in line
    ensures Requote(line) == Literal(Tokens(line))
    ensures |Tokens(line)| == |line| && forall k :: 0 <= k < |line| ==> TokenOk(Tokens(line)[k])
  {
    EscapeIsSpell(line);
    forall k | 0 <= k < |line|
      ensures TokenOk(Tokens(line)[k])
    {
      TokenAt(line, k);
    }
  }

  lemma {:induction false} TokenAt(line: seq<Byte>, k: nat)
    requires k < |line|
    ensures |Tokens(line)| == |line|
    ensures Tokens(line)[k] == if line[k] == QUOTE then EscapedQuote else if line[k] == SLASH then EscapedSlash else Plain(line[k])
  {
    EscapeIsSpell(line);
    if k > 0 {
      TokenAt(line[1..], k - 1);
      assert Tokens(line)[1..] == Tokens(line[1..]);
    }
  }

  lemma {:induction false} EscapeAllExtra(line: seq<Byte>)
    requires NEWLINE !in line
    ensures |EscapeAll(line)| == |line| + Extra(line)
  {
    if line != [] {
      assert NEWLINE !in line[1..];
      EscapeAllExtra(line[1..]);
    }
  }

  /** The documented meaning of part 2: a line's cost is the growth of re-quoting it. */
  lemma RequoteGrowth(line: seq<Byte>)
    requires NEWLINE !in line
    ensures Extra(line + [NEWLINE]) == |Requote(line)| - |line|
  {
    ExtraConcat(line, [NEWLINE]);
    EscapeAllExtra(line);
  }

  /** The two parts agree: part 1 on the re-quoted line measures exactly what part 2 counts on the line. */
  lemma PartsAgree(line: seq<Byte>)
    requires NEWLINE !in line
    ensures Difference(Requote(line) + [NEWLINE]) == Extra(line + [NEWLINE])
  {
    RequoteIsLiteral(line);
    var ts := Tokens(line);
    assert Requote(line) + [NEWLINE] == Line(ts);
    LineDifference(0, ts);
    RequoteGrowth(line);
  }

  /** The costs named in the source: quote and backslash 1, newline 2, everything else (`x` too) 0. */
  lemma CostTable()
    ensures Cost(QUOTE) == 1 && Cost(SLASH) == 1 && Cost(NEWLINE) == 2 && Cost(ESCAPE) == 0
  {
  }
}
