/**
 * 2015/day-12 part 2: the sum of every number in a JSON-like document,
 * leaving out each object that has the string "red" among its values.
 * The document grammar is the small recursive-descent parser of
 * 2015/day-12/src/part2.rs; `Print` writes a value back in that grammar and
 * the round trip `ParseVal(Print(v) + rest) == Some((v, rest))` ties the two.
 */
module JsonSum {
  import opened Wrappers
  import opened Decimal

  /** `JsonVal`: numbers are `i64` in the source, unbounded here. */
  datatype Json = Number(n: int) | Array(items: seq<Json>) | Object(members: seq<(string, Json)>) | Str(s: string)

  // ---------------------------------------------------------------------
  // The sum

  /** Some member of the object has the value "red" (a key "red" does not count). */
  predicate HasRed(ms: seq<(string, Json)>)
  {
    exists k :: 0 <= k < |ms| && ms[k].1 == Str("red")
  }

  /** `JsonVal::sum`. */
  function Sum(v: Json): int
    decreases v
  {
    match v
    case Number(n) => n
    case Array(items) => SumItems(items)
    case Object(ms) => if HasRed(ms) then 0 else SumMembers(ms)
    case Str(_) => 0
  }

  function SumItems(items: seq<Json>): int
    decreases items
  {
    if items == [] then 0 else Sum(items[0]) + SumItems(items[1..])
  }

  function SumMembers(ms: seq<(string, Json)>): int
    decreases ms
  {
    if ms == [] then 0 else (assert ms[0].1 < ms[0]; Sum(ms[0].1)) + SumMembers(ms[1..])
  }

  /** The reference without the red rule: every number counts. */
  function Total(v: Json): int
    decreases v
  {
    match v
    case Number(n) => n
    case Array(items) => TotalItems(items)
    case Object(ms) => TotalMembers(ms)
    case Str(_) => 0
  }

  function TotalItems(items: seq<Json>): int
    decreases items
  {
    if items == [] then 0 else Total(items[0]) + TotalItems(items[1..])
  }

  function TotalMembers(ms: seq<(string, Json)>): int
    decreases ms
  {
    if ms == [] then 0 else (assert ms[0].1 < ms[0]; Total(ms[0].1)) + TotalMembers(ms[1..])
  }

  /** No object anywhere in v has a "red" value. */
  predicate RedFree(v: Json)
    decreases v
  {
    match v
    case Number(_) => true
    case Str(_) => true
    case Array(items) => forall k :: 0 <= k < |items| ==> RedFree(items[k])
    case Object(ms) => !HasRed(ms) && forall k :: 0 <= k < |ms| ==> (assert ms[k].1 < ms[k]; RedFree(ms[k].1))
  }

  /** Without any red object the sum is the plain total of every number. */
  lemma {:induction false} RedFreeSumIsTotal(v: Json)
    requires RedFree(v)
    ensures Sum(v) == Total(v)
    decreases v
  {
    match v
    case Number(_) =>
    case Str(_) =>
    case Array(items) => RedFreeItems(items);
    case Object(ms) => RedFreeMembers(ms);
  }

  lemma {:induction false} RedFreeItems(items: seq<Json>)
    requires forall k :: 0 <= k < |items| ==> RedFree(items[k])
    ensures SumItems(items) == TotalItems(items)
    decreases items
  {
    if items != [] {
      RedFreeSumIsTotal(items[0]);
      RedFreeItems(items[1..]);
    }
  }

  lemma {:induction false} RedFreeMembers(ms: seq<(string, Json)>)
    requires forall k :: 0 <= k < |ms| ==> RedFree(ms[k].1)
    ensures SumMembers(ms) == TotalMembers(ms)
    decreases ms
  {
    if ms != [] {
      assert ms[0].1 < ms[0];
      RedFreeSumIsTotal(ms[0].1);
      RedFreeMembers(ms[1..]);
    }
  }

  /** The sum of an array is additive over splitting its items. */
  lemma {:induction false} SumItemsConcat(a: seq<Json>, b: seq<Json>)
    ensures SumItems(a + b) == SumItems(a) + SumItems(b)
  {
    if a == [] {
      assert a + b == b;
    } else {
      assert (a + b)[1..] == a[1..] + b;
      SumItemsConcat(a[1..], b);
    }
  }

  /** A "red" string inside an array has no effect: only objects are red. */
  lemma RedInArray(a: seq<Json>, b: seq<Json>)
    ensures Sum(Array(a + [Str("red")] + b)) == Sum(Array(a + b))
  {
    SumItemsConcat(a + [Str("red")], b);
    SumItemsConcat(a, [Str("red")]);
    SumItemsConcat(a, b);
    assert SumItems([Str("red")]) == 0;
  }

  /** An object with a "red" value counts nothing, whatever else it holds. */
  lemma RedObject(ms: seq<(string, Json)>, key: string)
    ensures Sum(Object(ms + [(key, Str("red"))])) == 0
  {
    var all := ms + [(key, Str("red"))];
    assert all[|ms|].1 == Str("red");
  }

  // ---------------------------------------------------------------------
  // The grammar

  /** Length of the run of decimal digits at the start of s (`digit1`). */
  function DigitRun(s: string): (k: nat)
    ensures k <= |s| && AllDigits(s[..k])
    ensures k < |s| ==> !IsDigit(s[k])
  {
    if s == [] || !IsDigit(s[0]) then 0 else 1 + DigitRun(s[1..])
  }

  /** Length of the run without a double quote at the start of s (`is_not("\"")`). */
  function QuoteFree(s: string): (k: nat)
    ensures k <= |s| && '"' !in s[..k]
    ensures k < |s| ==> s[k] == '"'
  {
    if s == [] || s[0] == '"' then 0 else 1 + QuoteFree(s[1..])
  }

  /** `parse_num`: an optional '-' and at least one digit. */
  function ParseNum(s: string): (r: Option<(Json, string)>)
    ensures r.Some? ==> |r.value.1| < |s| && (s[0] == '-' || IsDigit(s[0]))
  {
    var negative := s != [] && s[0] == '-';
    var body := if negative then s[1..] else s;
    var k := DigitRun(body);
    if k == 0 then None
    else
      var magnitude: int := ParseNat(body[..k]);
      Some((Number(if negative then -magnitude else magnitude), body[k..]))
  }

  /** `parse_string`: a quote, a non-empty run without quotes, a quote. */
  function ParseStr(s: string): (r: Option<(string, string)>)
    ensures r.Some? ==> |r.value.1| < |s| && s[0] == '"'
  {
    if s == [] || s[0] != '"' then None
    else
      var k := QuoteFree(s[1..]);
      if k == 0 || k + 1 >= |s| then None else Some((s[1..k + 1], s[k + 2..]))
  }

  /** `parse_val`: the first of number, array, object and string that parses. */
  function ParseVal(s: string): (r: Option<(Json, string)>)
    ensures r.Some? ==> |r.value.1| < |s|
    ensures r.Some? ==> s[0] == '-' || IsDigit(s[0]) || s[0] == '[' || s[0] == '{' || s[0] == '"'
    decreases |s|, 1
  {
    var n := ParseNum(s);
    if n.Some? then n
    else
      var a := ParseArray(s);
      if a.Some? then a
      else
        var o := ParseObject(s);
        if o.Some? then o
        else
          match ParseStr(s)
          case None => None
          case Some((str, rest)) => Some((Str(str), rest))
  }

  /** `parse_array`: '[' then values separated by ',' then ']'. */
  function ParseArray(s: string): (r: Option<(Json, string)>)
    ensures r.Some? ==> |r.value.1| < |s| && s[0] == '['
    decreases |s|, 0
  {
    if s == [] || s[0] != '[' then None
    else
      var (items, rest) := ParseItems(s[1..]);
      if rest != [] && rest[0] == ']' then Some((Array(items), rest[1..])) else None
  }

  /** `separated_list0(char(','), parse_val)`: never fails, stops before whatever does not parse. */
  function ParseItems(t: string): (r: (seq<Json>, string))
    ensures |r.1| <= |t|
    decreases |t|, 2
  {
    match ParseVal(t)
    case None => ([], t)
    case Some((v, rest)) =>
      var (vs, rest') := ParseMoreItems(rest);
      ([v] + vs, rest')
  }

  /** The items after the first: each is a ',' and a value; a ',' without a value is left unread. */
  function ParseMoreItems(t: string): (r: (seq<Json>, string))
    ensures |r.1| <= |t|
    decreases |t|, 2
  {
    if t == [] || t[0] != ',' then ([], t)
    else
      match ParseVal(t[1..])
      case None => ([], t)
      case Some((v, rest)) =>
        var (vs, rest') := ParseMoreItems(rest);
        ([v] + vs, rest')
  }

  /** `parse_obj`: '{' then `key:value` pairs separated by ',' then '}'. */
  function ParseObject(s: string): (r: Option<(Json, string)>)
    ensures r.Some? ==> |r.value.1| < |s| && s[0] == '{'
    decreases |s|, 0
  {
    if s == [] || s[0] != '{' then None
    else
      var (ms, rest) := ParseMembers(s[1..]);
      if rest != [] && rest[0] == '}' then Some((Object(ms), rest[1..])) else None
  }

  /** `separated_pair(parse_string, char(':'), parse_val)`. */
  function ParsePair(t: string): (r: Option<((string, Json), string)>)
    ensures r.Some? ==> |r.value.1| < |t|
    decreases |t|, 2
  {
    match ParseStr(t)
    case None => None
    case Some((key, rest)) =>
      if rest == [] || rest[0] != ':' then None
      else
        match ParseVal(rest[1..])
        case None => None
        case Some((v, rest')) => Some(((key, v), rest'))
  }

  function ParseMembers(t: string): (r: (seq<(string, Json)>, string))
    ensures |r.1| <= |t|
    decreases |t|, 3
  {
    match ParsePair(t)
    case None => ([], t)
    case Some((m, rest)) =>
      var (ms, rest') := ParseMoreMembers(rest);
      ([m] + ms, rest')
  }

  function ParseMoreMembers(t: string): (r: (seq<(string, Json)>, string))
    ensures |r.1| <= |t|
    decreases |t|, 3
  {
    if t == [] || t[0] != ',' then ([], t)
    else
      match ParsePair(t[1..])
      case None => ([], t)
      case Some((m, rest)) =>
        var (ms, rest') := ParseMoreMembers(rest);
        ([m] + ms, rest')
  }

  /** `process`: parse one value, ignore what follows it, and sum. */
  function Process(input: string): Option<int>
  {
    match ParseVal(input)
    case None => None
    case Some((v, _)) => Some(Sum(v))
  }

  // ---------------------------------------------------------------------
  // Printing and the round trip

  /** Values the grammar can spell: strings and keys are non-empty and hold no quote. */
  predicate WellFormed(v: Json)
    decreases v
  {
    match v
    case Number(_) => true
    case Str(s) => GoodString(s)
    case Array(items) => forall k :: 0 <= k < |items| ==> WellFormed(items[k])
    case Object(ms) => forall k :: 0 <= k < |ms| ==> GoodString(ms[k].0) && (assert ms[k].1 < ms[k]; WellFormed(ms[k].1))
  }

  predicate GoodString(s: string)
  {
    s != [] && '"' !in s
  }

  function PrintStr(s: string): string
  {
    "\"" + s + "\""
  }

  function Print(v: Json): string
    decreases v
  {
    match v
    case Number(n) => IntToString(n)
    case Str(s) => PrintStr(s)
    case Array(items) => "[" + PrintItems(items) + "]"
    case Object(ms) => "{" + PrintMembers(ms) + "}"
  }

  function PrintItems(items: seq<Json>): string
    decreases items
  {
    if items == [] then "" else Print(items[0]) + PrintMoreItems(items[1..])
  }

  function PrintMoreItems(items: seq<Json>): string
    decreases items
  {
    if items == [] then "" else "," + Print(items[0]) + PrintMoreItems(items[1..])
  }

  function PrintMember(m: (string, Json)): string
  {
    PrintStr(m.0) + ":" + Print(m.1)
  }

  function PrintMembers(ms: seq<(string, Json)>): string
    decreases ms
  {
    if ms == [] then "" else PrintMember(ms[0]) + PrintMoreMembers(ms[1..])
  }

  function PrintMoreMembers(ms: seq<(string, Json)>): string
    decreases ms
  {
    if ms == [] then "" else "," + PrintMember(ms[0]) + PrintMoreMembers(ms[1..])
  }

  /** What may follow a number without being read as more of it. */
  predicate NotDigit(rest: string)
  {
    rest == [] || !IsDigit(rest[0])
  }

  /** A closing bracket or brace: no value starts there. */
  predicate Closes(rest: string)
  {
    rest != [] && (rest[0] == ']' || rest[0] == '}')
  }

  lemma {:induction false} DigitRunOf(d: string, rest: string)
    requires AllDigits(d) && NotDigit(rest)
    ensures DigitRun(d + rest) == |d|
  {
    if d != [] {
      assert (d + rest)[1..] == d[1..] + rest;
      DigitRunOf(d[1..], rest);
    } else {
      assert d + rest == rest;
    }
  }

  lemma {:induction false} QuoteFreeOf(s: string, rest: string)
    requires '"' !in s
    ensures QuoteFree(s + "\"" + rest) == |s|
  {
    if s != [] {
      assert (s + "\"" + rest)[1..] == s[1..] + "\"" + rest;
      QuoteFreeOf(s[1..], rest);
    } else {
      assert s + "\"" + rest == "\"" + rest;
    }
  }

  lemma NatRound(m: nat, rest: string)
    requires NotDigit(rest)
    ensures DigitRun(NatToString(m) + rest) == |NatToString(m)|
    ensures (NatToString(m) + rest)[..|NatToString(m)|] == NatToString(m)
    ensures (NatToString(m) + rest)[|NatToString(m)|..] == rest
    ensures ParseNat(NatToString(m)) == m
  {
    DigitRunOf(NatToString(m), rest);
    ParseNatToString(m);
  }

  lemma NumRound(n: int, rest: string)
    requires NotDigit(rest)
    ensures ParseNum(IntToString(n) + rest) == Some((Number(n), rest))
  {
    if n < 0 {
      NegativeRound(-n, rest);
      assert IntToString(n) + rest == "-" + NatToString(-n) + rest;
    } else {
      NonNegativeRound(n, rest);
    }
  }

  lemma NonNegativeRound(m: nat, rest: string)
    requires NotDigit(rest)
    ensures ParseNum(NatToString(m) + rest) == Some((Number(m), rest))
  {
    var digits := NatToString(m);
    NatRound(m, rest);
    assert (digits + rest)[0] == digits[0];
    assert IsDigit(digits[0]);
  }

  lemma NegativeRound(m: nat, rest: string)
    requires NotDigit(rest)
    ensures ParseNum("-" + NatToString(m) + rest) == Some((Number(-(m as int)), rest))
  {
    NatRound(m, rest);
    MinusDigits(NatToString(m), rest, m);
  }

  /** A '-' followed by a run of digits worth m, then text that is not a digit. */
  lemma MinusDigits(digits: string, rest: string, m: nat)
    requires digits != [] && AllDigits(digits) && ParseNat(digits) == m
    requires DigitRun(digits + rest) == |digits|
    requires (digits + rest)[..|digits|] == digits && (digits + rest)[|digits|..] == rest
    ensures ParseNum("-" + digits + rest) == Some((Number(-(m as int)), rest))
  {
    var s := "-" + digits + rest;
    assert s[0] == '-';
    assert s[1..] == digits + rest;
  }

  lemma StrRound(str: string, rest: string)
    requires GoodString(str)
    ensures ParseStr(PrintStr(str) + rest) == Some((str, rest))
  {
    var s := PrintStr(str) + rest;
    assert s[1..] == str + "\"" + rest;
    QuoteFreeOf(str, rest);
    assert s[1..|str| + 1] == str;
    assert s[|str| + 2..] == rest;
  }

  /** Parsing undoes printing, whatever non-digit text follows. */
  lemma {:induction false} ValRound(v: Json, rest: string)
    requires WellFormed(v) && NotDigit(rest)
    ensures ParseVal(Print(v) + rest) == Some((v, rest))
    decreases v
  {
    var s := Print(v) + rest;
    match v
    case Number(n) =>
      NumRound(n, rest);
    case Str(str) =>
      StrRound(str, rest);
    case Array(items) =>
      ItemsRound(items, "]" + rest);
      ArrayStep(items, PrintItems(items), rest);
    case Object(ms) =>
      MembersRound(ms, "}" + rest);
      ObjectStep(ms, PrintMembers(ms), rest);
  }

  /** A bracketed list whose inside parses back to its items. */
  lemma ArrayStep(items: seq<Json>, inner: string, rest: string)
    requires ParseItems(inner + ("]" + rest)) == (items, "]" + rest)
    ensures ParseVal("[" + inner + "]" + rest) == Some((Array(items), rest))
  {
    var s := "[" + inner + "]" + rest;
    assert s[0] == '[';
    assert s[1..] == inner + ("]" + rest);
    assert ("]" + rest)[1..] == rest;
  }

  /** A braced object whose inside parses back to its members. */
  lemma ObjectStep(ms: seq<(string, Json)>, inner: string, rest: string)
    requires ParseMembers(inner + ("}" + rest)) == (ms, "}" + rest)
    ensures ParseVal("{" + inner + "}" + rest) == Some((Object(ms), rest))
  {
    var s := "{" + inner + "}" + rest;
    assert s[0] == '{';
    assert s[1..] == inner + ("}" + rest);
    assert ("}" + rest)[1..] == rest;
  }

  lemma {:induction false} ItemsRound(items: seq<Json>, rest: string)
    requires forall k :: 0 <= k < |items| ==> WellFormed(items[k])
    requires Closes(rest)
    ensures ParseItems(PrintItems(items) + rest) == (items, rest)
    decreases items
  {
    if items == [] {
      assert PrintItems(items) + rest == rest;
    } else {
      var head, tail := Print(items[0]), PrintMoreItems(items[1..]);
      assert PrintItems(items) == head + tail;
      MoreItemsStart(items[1..], rest);
      ValRound(items[0], tail + rest);
      MoreItemsRound(items[1..], rest);
      ItemsStep(head, tail, rest, items[0], items[1..]);
      assert [items[0]] + items[1..] == items;
    }
  }

  /** The first item of a list, then the rest of it. */
  lemma ItemsStep(head: string, tail: string, rest: string, v: Json, vs: seq<Json>)
    requires ParseVal(head + (tail + rest)) == Some((v, tail + rest))
    requires ParseMoreItems(tail + rest) == (vs, rest)
    ensures ParseItems(head + tail + rest) == ([v] + vs, rest)
  {
    assert head + tail + rest == head + (tail + rest);
  }

  lemma MoreItemsStart(items: seq<Json>, rest: string)
    requires Closes(rest)
    ensures NotDigit(PrintMoreItems(items) + rest)
  {
    if items != [] {
      assert (PrintMoreItems(items) + rest)[0] == ',';
    }
  }

  lemma {:induction false} MoreItemsRound(items: seq<Json>, rest: string)
    requires forall k :: 0 <= k < |items| ==> WellFormed(items[k])
    requires Closes(rest)
    ensures ParseMoreItems(PrintMoreItems(items) + rest) == (items, rest)
    decreases items
  {
    if items == [] {
      assert PrintMoreItems(items) + rest == rest;
    } else {
      var head, tail := Print(items[0]), PrintMoreItems(items[1..]);
      assert PrintMoreItems(items) == "," + head + tail;
      MoreItemsStart(items[1..], rest);
      ValRound(items[0], tail + rest);
      MoreItemsRound(items[1..], rest);
      MoreItemsStep(head, tail, rest, items[0], items[1..]);
      assert [items[0]] + items[1..] == items;
    }
  }

  lemma MoreItemsStep(head: string, tail: string, rest: string, v: Json, vs: seq<Json>)
    requires ParseVal(head + (tail + rest)) == Some((v, tail + rest))
    requires ParseMoreItems(tail + rest) == (vs, rest)
    ensures ParseMoreItems("," + head + tail + rest) == ([v] + vs, rest)
  {
    CommaSplit(head, tail, rest);
    MoreItemsCons("," + head + tail + rest, v, tail + rest);
  }

  /** One step of `ParseMoreItems`: a comma, then a value, then the rest of the list. */
  lemma MoreItemsCons(t: string, v: Json, rest: string)
    requires t != [] && t[0] == ',' && ParseVal(t[1..]) == Some((v, rest))
    ensures ParseMoreItems(t) == ([v] + ParseMoreItems(rest).0, ParseMoreItems(rest).1)
  {
  }

  lemma {:induction false} PairRound(m: (string, Json), rest: string)
    requires GoodString(m.0) && WellFormed(m.1) && NotDigit(rest)
    ensures ParsePair(PrintMember(m) + rest) == Some((m, rest))
    decreases m
  {
    var after := ":" + Print(m.1) + rest;
    assert PrintMember(m) + rest == PrintStr(m.0) + after;
    StrRound(m.0, after);
    assert after[1..] == Print(m.1) + rest;
    ValRound(m.1, rest);
  }

  lemma {:induction false} MembersRound(ms: seq<(string, Json)>, rest: string)
    requires forall k :: 0 <= k < |ms| ==> GoodString(ms[k].0) && WellFormed(ms[k].1)
    requires Closes(rest)
    ensures ParseMembers(PrintMembers(ms) + rest) == (ms, rest)
    decreases ms
  {
    if ms == [] {
      assert PrintMembers(ms) + rest == rest;
      assert ParseStr(rest) == None;
    } else {
      var head, tail := PrintMember(ms[0]), PrintMoreMembers(ms[1..]);
      assert PrintMembers(ms) == head + tail;
      MoreMembersStart(ms[1..], rest);
      PairRound(ms[0], tail + rest);
      MoreMembersRound(ms[1..], rest);
      MembersStep(head, tail, rest, ms[0], ms[1..]);
      assert [ms[0]] + ms[1..] == ms;
    }
  }

  /** The first pair of an object, then the rest of it. */
  lemma MembersStep(head: string, tail: string, rest: string, m: (string, Json), ms: seq<(string, Json)>)
    requires ParsePair(head + (tail + rest)) == Some((m, tail + rest))
    requires ParseMoreMembers(tail + rest) == (ms, rest)
    ensures ParseMembers(head + tail + rest) == ([m] + ms, rest)
  {
    assert head + tail + rest == head + (tail + rest);
  }

  lemma MoreMembersStart(ms: seq<(string, Json)>, rest: string)
    requires Closes(rest)
    ensures NotDigit(PrintMoreMembers(ms) + rest)
  {
    if ms != [] {
      assert (PrintMoreMembers(ms) + rest)[0] == ',';
    }
  }

  lemma {:induction false} MoreMembersRound(ms: seq<(string, Json)>, rest: string)
    requires forall k :: 0 <= k < |ms| ==> GoodString(ms[k].0) && WellFormed(ms[k].1)
    requires Closes(rest)
    ensures ParseMoreMembers(PrintMoreMembers(ms) + rest) == (ms, rest)
    decreases ms
  {
    if ms == [] {
      assert PrintMoreMembers(ms) + rest == rest;
    } else {
      var head, tail := PrintMember(ms[0]), PrintMoreMembers(ms[1..]);
      assert PrintMoreMembers(ms) == "," + head + tail;
      MoreMembersStart(ms[1..], rest);
      PairRound(ms[0], tail + rest);
      MoreMembersRound(ms[1..], rest);
      MoreMembersStep(head, tail, rest, ms[0], ms[1..]);
      assert [ms[0]] + ms[1..] == ms;
    }
  }

  lemma MoreMembersStep(head: string, tail: string, rest: string, m: (string, Json), ms: seq<(string, Json)>)
    requires ParsePair(head + (tail + rest)) == Some((m, tail + rest))
    requires ParseMoreMembers(tail + rest) == (ms, rest)
    ensures ParseMoreMembers("," + head + tail + rest) == ([m] + ms, rest)
  {
    CommaSplit(head, tail, rest);
    MoreMembersCons("," + head + tail + rest, m, tail + rest);
  }

  /** One step of `ParseMoreMembers`: a comma, then a pair, then the rest of the object. */
  lemma MoreMembersCons(t: string, m: (string, Json), rest: string)
    requires t != [] && t[0] == ',' && ParsePair(t[1..]) == Some((m, rest))
    ensures ParseMoreMembers(t) == ([m] + ParseMoreMembers(rest).0, ParseMoreMembers(rest).1)
  {
  }

  lemma CommaSplit(head: string, tail: string, rest: string)
    ensures var t := "," + head + tail + rest; t != [] && t[0] == ',' && t[1..] == head + (tail + rest)
  {
  }

  /** The answer on a printed document is the sum of the document. */
  lemma ProcessPrinted(v: Json)
    requires WellFormed(v)
    ensures Process(Print(v)) == Some(Sum(v))
  {
    ValRound(v, "");
    assert Print(v) + "" == Print(v);
  }

  // ---------------------------------------------------------------------
  // The unit tests of 2015/day-12/src/part2.rs

  /** The numbers of the unit tests, printed. */
  lemma PrintDigits()
    ensures Print(Number(1)) == "1" && Print(Number(2)) == "2" && Print(Number(3)) == "3"
    ensures Print(Number(4)) == "4" && Print(Number(5)) == "5" && Print(Number(-1)) == "-1"
  {
    assert NatToString(1) == "1";
  }

  lemma FlatPrinted(v: Json)
    requires v == Array([Number(1), Number(2), Number(3)])
    ensures Print(v) == "[1,2,3]" && WellFormed(v)
  {
    PrintDigits();
    PrintTriple(Number(1), Number(2), Number(3));
  }

  lemma ExampleFlat(doc: string)
    requires doc == "[1,2,3]"
    ensures Process(doc) == Some(6)
  {
    var v := Array([Number(1), Number(2), Number(3)]);
    FlatPrinted(v);
    assert v.items[1..] == [Number(2), Number(3)] && v.items[1..][1..] == [Number(3)];
    ProcessPrinted(v);
  }

  lemma TwoKeysPrinted(v: Json)
    requires v == Object([("a", Number(2)), ("b", Number(4))])
    ensures Print(v) == "{\"a\":2,\"b\":4}" && WellFormed(v)
  {
    PrintDigits();
    PrintMemberPair(("a", Number(2)), ("b", Number(4)));
    assert PrintMember(("a", Number(2))) == "\"a\":2";
    assert PrintMember(("b", Number(4))) == "\"b\":4";
  }

  lemma TwoKeysSum(v: Json)
    requires v == Object([("a", Number(2)), ("b", Number(4))])
    ensures Sum(v) == 6
  {
    assert !HasRed(v.members) by {
      assert v.members[0].1 != Str("red") && v.members[1].1 != Str("red");
    }
    assert v.members[1..] == [("b", Number(4))];
  }

  lemma ExampleTwoKeys(doc: string)
    requires doc == "{\"a\":2,\"b\":4}"
    ensures Process(doc) == Some(6)
  {
    var v := Object([("a", Number(2)), ("b", Number(4))]);
    TwoKeysPrinted(v);
    TwoKeysSum(v);
    ProcessPrinted(v);
  }

  lemma ExampleNested(doc: string)
    requires doc == "[[[3]]]"
    ensures Process(doc) == Some(3)
  {
    var v := Array([Array([Array([Number(3)])])]);
    PrintDigits();
    PrintSingle(Number(3));
    PrintSingle(Array([Number(3)]));
    PrintSingle(Array([Array([Number(3)])]));
    assert Print(v) == "[[[3]]]";
    ProcessPrinted(v);
  }

  lemma InnerObjectPrinted(inner: Json, v: Json)
    requires inner == Object([("b", Number(4))])
    requires v == Object([("a", inner), ("c", Number(-1))])
    ensures Print(v) == "{\"a\":{\"b\":4},\"c\":-1}"
  {
    InnerObjectMembers(inner);
    PrintMemberPair(("a", inner), ("c", Number(-1)));
  }

  lemma InnerObjectMembers(inner: Json)
    requires inner == Object([("b", Number(4))])
    ensures PrintMember(("a", inner)) == "\"a\":{\"b\":4}"
    ensures PrintMember(("c", Number(-1))) == "\"c\":-1"
  {
    PrintDigits();
    PrintSingleMember(("b", Number(4)));
    assert Print(inner) == "{\"b\":4}";
  }

  lemma InnerObjectWellFormed(inner: Json, v: Json)
    requires inner == Object([("b", Number(4))])
    requires v == Object([("a", inner), ("c", Number(-1))])
    ensures WellFormed(v)
  {
    assert WellFormed(inner);
  }

  lemma InnerObjectSum(inner: Json, v: Json)
    requires inner == Object([("b", Number(4))])
    requires v == Object([("a", inner), ("c", Number(-1))])
    ensures Sum(v) == 3
  {
    assert !HasRed(inner.members) by {
      assert inner.members[0].1 != Str("red");
    }
    assert Sum(inner) == 4;
    assert !HasRed(v.members) by {
      assert v.members[0].1 != Str("red") && v.members[1].1 != Str("red");
    }
    assert v.members[1..] == [("c", Number(-1))] && v.members[1..][1..] == [];
    assert SumMembers(v.members[1..]) == -1;
    assert SumMembers(v.members) == Sum(inner) + SumMembers(v.members[1..]);
  }

  lemma ExampleInnerObject(doc: string)
    requires doc == "{\"a\":{\"b\":4},\"c\":-1}"
    ensures Process(doc) == Some(3)
  {
    var inner := Object([("b", Number(4))]);
    var v := Object([("a", inner), ("c", Number(-1))]);
    InnerObjectPrinted(inner, v);
    InnerObjectWellFormed(inner, v);
    InnerObjectSum(inner, v);
    ProcessPrinted(v);
  }

  lemma CancelPrinted(list: Json, v: Json)
    requires list == Array([Number(-1), Number(1)])
    requires v == Object([("a", list)])
    ensures Print(v) == "{\"a\":[-1,1]}" && WellFormed(v)
  {
    PrintDigits();
    PrintPair(Number(-1), Number(1));
    assert Print(list) == "[-1,1]";
    PrintSingleMember(("a", list));
  }

  lemma ExampleCancel(doc: string)
    requires doc == "{\"a\":[-1,1]}"
    ensures Process(doc) == Some(0)
  {
    var list := Array([Number(-1), Number(1)]);
    var v := Object([("a", list)]);
    CancelPrinted(list, v);
    assert list.items[1..] == [Number(1)] && list.items[1..][1..] == [];
    assert SumItems(list.items[1..]) == 1;
    assert Sum(list) == 0;
    assert !HasRed(v.members) by {
      assert v.members[0].1 != Str("red");
    }
    assert v.members[1..] == [];
    assert Sum(v) == SumMembers(v.members) == Sum(list) + 0;
    ProcessPrinted(v);
  }

  lemma CancelObjectPrinted(inner: Json, v: Json)
    requires inner == Object([("a", Number(1))])
    requires v == Array([Number(-1), inner])
    ensures Print(v) == "[-1,{\"a\":1}]" && WellFormed(v)
  {
    PrintDigits();
    PrintSingleMember(("a", Number(1)));
    assert Print(inner) == "{\"a\":1}";
    PrintPair(Number(-1), inner);
  }

  lemma CancelObjectSum(inner: Json, v: Json)
    requires inner == Object([("a", Number(1))])
    requires v == Array([Number(-1), inner])
    ensures Sum(v) == 0
  {
    assert !HasRed(inner.members) by {
      assert inner.members[0].1 != Str("red");
    }
    assert Sum(inner) == 1;
    assert v.items[1..] == [inner] && v.items[1..][1..] == [];
    assert SumItems([inner]) == 1;
    assert Sum(v) == Sum(Number(-1)) + SumItems(v.items[1..]);
  }

  lemma ExampleCancelObject(doc: string)
    requires doc == "[-1,{\"a\":1}]"
    ensures Process(doc) == Some(0)
  {
    var inner := Object([("a", Number(1))]);
    var v := Array([Number(-1), inner]);
    CancelObjectPrinted(inner, v);
    CancelObjectSum(inner, v);
    ProcessPrinted(v);
  }

  lemma ExampleEmptyArray(doc: string)
    requires doc == "[]"
    ensures Process(doc) == Some(0)
  {
    var v := Array([]);
    assert Print(v) == "[]";
    ProcessPrinted(v);
  }

  lemma ExampleEmptyObject(doc: string)
    requires doc == "{}"
    ensures Process(doc) == Some(0)
  {
    var v := Object([]);
    assert Print(v) == "{}";
    ProcessPrinted(v);
  }

  lemma RedInsidePrinted(inner: Json, v: Json)
    requires inner == Object([("c", Str("red")), ("b", Number(2))])
    requires v == Array([Number(1), inner, Number(3)])
    ensures Print(v) == "[1,{\"c\":\"red\",\"b\":2},3]"
  {
    InnerRedPrinted(inner);
    PrintTriple(Number(1), inner, Number(3));
    PrintDigits();
  }

  lemma InnerRedPrinted(inner: Json)
    requires inner == Object([("c", Str("red")), ("b", Number(2))])
    ensures Print(inner) == "{\"c\":\"red\",\"b\":2}"
  {
    PrintMemberPair(("c", Str("red")), ("b", Number(2)));
    assert PrintMember(("c", Str("red"))) == "\"c\":\"red\"";
    assert PrintMember(("b", Number(2))) == "\"b\":2";
  }

  lemma RedInsideWellFormed(inner: Json, v: Json)
    requires inner == Object([("c", Str("red")), ("b", Number(2))])
    requires v == Array([Number(1), inner, Number(3)])
    ensures WellFormed(v)
  {
    assert WellFormed(inner);
  }

  lemma RedInsideSum(inner: Json, v: Json)
    requires inner == Object([("c", Str("red")), ("b", Number(2))])
    requires v == Array([Number(1), inner, Number(3)])
    ensures Sum(v) == 4
  {
    assert inner.members[0].1 == Str("red");
    assert Sum(inner) == 0;
    assert v.items[1..] == [inner, Number(3)] && v.items[1..][1..] == [Number(3)];
    assert SumItems([Number(3)]) == 3;
    assert SumItems([inner, Number(3)]) == 3;
    assert SumItems(v.items) == 1 + SumItems([inner, Number(3)]);
  }

  lemma ExampleRedInside(doc: string)
    requires doc == "[1,{\"c\":\"red\",\"b\":2},3]"
    ensures Process(doc) == Some(4)
  {
    var inner := Object([("c", Str("red")), ("b", Number(2))]);
    var v := Array([Number(1), inner, Number(3)]);
    RedInsidePrinted(inner, v);
    RedInsideWellFormed(inner, v);
    RedInsideSum(inner, v);
    ProcessPrinted(v);
  }

  lemma PrintSingle(a: Json)
    ensures PrintItems([a]) == Print(a)
    ensures Print(Array([a])) == "[" + Print(a) + "]"
  {
    assert [a][1..] == [];
  }

  lemma PrintSingleMember(m: (string, Json))
    ensures PrintMembers([m]) == PrintMember(m)
    ensures Print(Object([m])) == "{" + PrintMember(m) + "}"
  {
    assert [m][1..] == [];
  }

  lemma PrintPair(a: Json, b: Json)
    ensures PrintItems([a, b]) == Print(a) + "," + Print(b)
  {
    assert [a, b][1..] == [b];
    assert [b][1..] == [];
    assert PrintMoreItems([b]) == "," + Print(b) + "";
    assert "," + Print(b) + "" == "," + Print(b);
  }

  lemma PrintTriple(a: Json, b: Json, c: Json)
    ensures PrintItems([a, b, c]) == Print(a) + "," + Print(b) + "," + Print(c)
  {
    assert [a, b, c][1..] == [b, c];
    assert [b, c][1..] == [c];
    assert [c][1..] == [];
    assert PrintMoreItems([c]) == "," + Print(c) + "";
    assert "," + Print(c) + "" == "," + Print(c);
    assert PrintMoreItems([b, c]) == "," + Print(b) + ("," + Print(c));
  }

  lemma PrintMemberPair(a: (string, Json), b: (string, Json))
    ensures PrintMembers([a, b]) == PrintMember(a) + "," + PrintMember(b)
  {
    assert [a, b][1..] == [b];
    assert [b][1..] == [];
    assert PrintMoreMembers([b]) == "," + PrintMember(b) + "";
    assert "," + PrintMember(b) + "" == "," + PrintMember(b);
  }

  lemma PrintMemberTriple(a: (string, Json), b: (string, Json), c: (string, Json))
    ensures PrintMembers([a, b, c]) == PrintMember(a) + "," + PrintMember(b) + "," + PrintMember(c)
  {
    assert [a, b, c][1..] == [b, c];
    assert [b, c][1..] == [c];
    assert [c][1..] == [];
    assert PrintMoreMembers([c]) == "," + PrintMember(c) + "";
    assert "," + PrintMember(c) + "" == "," + PrintMember(c);
    assert PrintMoreMembers([b, c]) == "," + PrintMember(b) + ("," + PrintMember(c));
  }

  lemma PrintFour(list: Json)
    requires list == Array([Number(1), Number(2), Number(3), Number(4)])
    ensures Print(list) == "[1,2,3,4]"
  {
    PrintDigits();
    assert PrintMoreItems([Number(4)]) == ",4";
    assert PrintMoreItems([Number(3), Number(4)]) == ",3,4";
    assert PrintMoreItems([Number(2), Number(3), Number(4)]) == ",2,3,4";
  }

  lemma RedTopMembers(list: Json)
    requires list == Array([Number(1), Number(2), Number(3), Number(4)])
    ensures PrintMember(("d", Str("red"))) == "\"d\":\"red\""
    ensures PrintMember(("e", list)) == "\"e\":[1,2,3,4]"
    ensures PrintMember(("f", Number(5))) == "\"f\":5"
  {
    PrintFour(list);
  }

  /** The document of the last unit test of part 2, printed. */
  lemma RedTopPrinted(list: Json, v: Json)
    requires list == Array([Number(1), Number(2), Number(3), Number(4)])
    requires v == Object([("d", Str("red")), ("e", list), ("f", Number(5))])
    ensures Print(v) == "{\"d\":\"red\",\"e\":[1,2,3,4],\"f\":5}"
  {
    RedTopMembers(list);
    PrintObjectTriple(("d", Str("red")), ("e", list), ("f", Number(5)));
  }

  lemma PrintObjectTriple(a: (string, Json), b: (string, Json), c: (string, Json))
    ensures Print(Object([a, b, c])) == "{" + PrintMember(a) + "," + PrintMember(b) + "," + PrintMember(c) + "}"
  {
    PrintMemberTriple(a, b, c);
  }

  lemma RedTopWellFormed(list: Json, v: Json)
    requires list == Array([Number(1), Number(2), Number(3), Number(4)])
    requires v == Object([("d", Str("red")), ("e", list), ("f", Number(5))])
    ensures WellFormed(v)
  {
    assert WellFormed(list);
  }

  lemma ExampleRedTop(doc: string)
    requires doc == "{\"d\":\"red\",\"e\":[1,2,3,4],\"f\":5}"
    ensures Process(doc) == Some(0)
  {
    var list := Array([Number(1), Number(2), Number(3), Number(4)]);
    var v := Object([("d", Str("red")), ("e", list), ("f", Number(5))]);
    RedTopPrinted(list, v);
    RedTopWellFormed(list, v);
    assert v.members[0].1 == Str("red");
    assert Sum(v) == 0;
    ProcessPrinted(v);
  }

  lemma RedStringPrinted(v: Json)
    requires v == Array([Number(1), Str("red"), Number(5)])
    ensures Print(v) == "[1,\"red\",5]" && WellFormed(v)
  {
    PrintDigits();
    PrintTriple(Number(1), Str("red"), Number(5));
    assert Print(Str("red")) == "\"red\"";
  }

  lemma ExampleRedString(doc: string)
    requires doc == "[1,\"red\",5]"
    ensures Process(doc) == Some(6)
  {
    var v := Array([Number(1), Str("red"), Number(5)]);
    RedStringPrinted(v);
    assert v.items[1..] == [Str("red"), Number(5)] && v.items[1..][1..] == [Number(5)];
    ProcessPrinted(v);
  }
}
