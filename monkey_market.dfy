/**
 * The buyers' pseudo-random secrets of day-22.  Each secret is mixed with
 * itself times 64, pruned to 24 bits, mixed with itself divided by 32,
 * pruned, mixed with itself times 2048 and pruned again (`process_secret`).
 * Part 1 sums every buyer's 2000th secret; part 2 reads the last digit of
 * each secret as a price and looks for the run of four price changes that
 * earns the most bananas over all buyers.
 *
 * Secrets are unsigned machine words; the model keeps them as `nat` and
 * `Mix` is the bitwise exclusive or of `Bits`.
 */
module MonkeyMarket {
  import opened Bits
  import opened Wrappers

  /** `prune` reduces modulo 2^24. */
  const MODULUS: nat := 16777216

  /** `mix`: bitwise exclusive or. */
  function Mix(secret: nat, value: nat): nat
  {
    Xor(secret, value)
  }

  /** `prune`: the remainder modulo 2^24. */
  function Prune(secret: nat): (r: nat)
    ensures r < MODULUS
  {
    secret % MODULUS
  }

  /** Each bit of a mix is the exclusive or of the operands' bits. */
  lemma MixBit(secret: nat, value: nat, k: nat)
    ensures Bit(Mix(secret, value), k) == (Bit(secret, k) + Bit(value, k)) % 2
  {
    XorBit(secret, value, k);
  }

  /** Pruning keeps the low 24 bits and clears the rest. */
  lemma PruneBit(secret: nat, k: nat)
    ensures Bit(Prune(secret), k) == if k < 24 then Bit(secret, k) else 0
  {
    Modulus24();
    BitMod(secret, 24, k);
  }

  /** One step of the generator, the closure given to `successors`. */
  function Next(secret: nat): (r: nat)
    ensures r < MODULUS
  {
    var s1 := Prune(Mix(secret, secret * 64));
    var s2 := Prune(Mix(s1, s1 / 32));
    Prune(Mix(s2, s2 * 2048))
  }

  /** The secret after n steps, `process_secret(seed).nth(n)`. */
  function Nth(seed: nat, n: nat): (r: nat)
    ensures n >= 1 ==> r < MODULUS
  {
    if n == 0 then seed else Next(Nth(seed, n - 1))
  }

  lemma Modulus24()
    ensures Pow2(24) == MODULUS
  {
    assert Pow2(12) == 4096;
    Pow2Add(12, 12);
  }

  // ---------------------------------------------------------------------
  // The generator permutes the 24-bit secrets

  /** Mixing with a left shift by d, then pruning. */
  function MixUp(s: nat, d: nat): nat
  {
    Prune(Mix(s, s * Pow2(d)))
  }

  /** Mixing with a right shift by d, then pruning. */
  function MixDown(s: nat, d: nat): nat
  {
    DivNat(s, Pow2(d));
    Prune(Mix(s, s / Pow2(d)))
  }

  lemma NextInStages(s: nat)
    ensures Next(s) == MixUp(MixDown(MixUp(s, 6), 5), 11)
  {
    assert Pow2(5) == 32 && Pow2(6) == 64;
    assert Pow2(11) == 2048;
  }

  lemma {:induction false} MixUpBit(s: nat, d: nat, k: nat)
    requires k < 24
    ensures Bit(MixUp(s, d), k) == (Bit(s, k) + if k < d then 0 else Bit(s, k - d)) % 2
  {
    PruneBit(Mix(s, s * Pow2(d)), k);
    MixBit(s, s * Pow2(d), k);
    BitOfProduct(s, d, k);
  }

  lemma {:induction false} MixDownBit(s: nat, d: nat, k: nat)
    requires s < MODULUS && k < 24
    ensures Bit(MixDown(s, d), k) == (Bit(s, k) + if k + d < 24 then Bit(s, k + d) else 0) % 2
  {
    MixDownAnyBit(s, d, k);
    if k + d >= 24 {
      Modulus24();
      BitAbove(s, 24, k + d);
    }
  }

  lemma MixDownAnyBit(s: nat, d: nat, k: nat)
    requires k < 24
    ensures Bit(MixDown(s, d), k) == (Bit(s, k) + Bit(s, k + d)) % 2
  {
    DivNat(s, Pow2(d));
    var q: nat := s / Pow2(d);
    PruneBit(Mix(s, q), k);
    MixBit(s, q, k);
    BitOfQuotient(s, d, k);
  }

  /** Bits 0 .. k of two secrets with the same MixUp agree: each is recovered from the lower ones. */
  lemma {:induction false} MixUpBitsAgree(s: nat, t: nat, d: nat, k: nat)
    requires MixUp(s, d) == MixUp(t, d) && d >= 1 && k < 24
    ensures forall j :: 0 <= j <= k ==> Bit(s, j) == Bit(t, j)
  {
    if k > 0 {
      MixUpBitsAgree(s, t, d, k - 1);
    }
    MixUpBit(s, d, k);
    MixUpBit(t, d, k);
  }

  /** Bits k .. 23 of two secrets with the same MixDown agree: each is recovered from the higher ones. */
  lemma {:induction false} MixDownBitsAgree(s: nat, t: nat, d: nat, k: nat)
    requires s < MODULUS && t < MODULUS
    requires MixDown(s, d) == MixDown(t, d) && d >= 1 && k < 24
    ensures forall j :: k <= j < 24 ==> Bit(s, j) == Bit(t, j)
    decreases 24 - k
  {
    if k < 23 {
      MixDownBitsAgree(s, t, d, k + 1);
    }
    MixDownBit(s, d, k);
    MixDownBit(t, d, k);
  }

  lemma MixUpInjective(s: nat, t: nat, d: nat)
    requires s < MODULUS && t < MODULUS && d >= 1
    requires MixUp(s, d) == MixUp(t, d)
    ensures s == t
  {
    MixUpBitsAgree(s, t, d, 23);
    Modulus24();
    BitsDetermine(s, t, 24);
  }

  lemma MixDownInjective(s: nat, t: nat, d: nat)
    requires s < MODULUS && t < MODULUS && d >= 1
    requires MixDown(s, d) == MixDown(t, d)
    ensures s == t
  {
    MixDownBitsAgree(s, t, d, 0);
    Modulus24();
    BitsDetermine(s, t, 24);
  }

  /** Two different 24-bit secrets never have the same successor: a step permutes the secrets below 2^24. */
  lemma NextInjective(s: nat, t: nat)
    requires s < MODULUS && t < MODULUS
    requires Next(s) == Next(t)
    ensures s == t
  {
    NextInStages(s);
    NextInStages(t);
    MixUpInjective(MixDown(MixUp(s, 6), 5), MixDown(MixUp(t, 6), 5), 11);
    MixDownInjective(MixUp(s, 6), MixUp(t, 6), 5);
    MixUpInjective(s, t, 6);
  }

  // ---------------------------------------------------------------------
  // Part 1

  /** `process`: the sum of every buyer's 2000th secret. */
  function SumOfSecrets(seeds: seq<nat>): (total: nat)
    ensures total <= |seeds| * (MODULUS - 1)
  {
    if seeds == [] then 0 else SumOfSecrets(seeds[..|seeds| - 1]) + Nth(seeds[|seeds| - 1], 2000)
  }

  /** The sum over two lists of buyers is the sum of the two sums. */
  lemma {:induction false} SumOfSecretsConcat(a: seq<nat>, b: seq<nat>)
    ensures SumOfSecrets(a + b) == SumOfSecrets(a) + SumOfSecrets(b)
    decreases |b|
  {
    if b == [] {
      assert a + b == a;
    } else {
      assert (a + b)[..|a + b| - 1] == a + b[..|b| - 1];
      SumOfSecretsConcat(a, b[..|b| - 1]);
    }
  }

  lemma MixExample()
    ensures Mix(42, 15) == 37
  {
    assert Xor(5, 1) == 4;
    assert Xor(21, 7) == 18;
  }

  lemma PruneExample()
    ensures Prune(100000000) == 16113920
  {
  }

  // ---------------------------------------------------------------------
  // Part 2

  /** A buyer's price: the last decimal digit of a secret. */
  function Price(secret: nat): (p: nat)
    ensures p <= 9
  {
    secret % 10
  }

  /** `cost_and_change(seed).take(n)`: each later price with its change from the price before it. */
  function CostAndChange(seed: nat, n: nat): (r: seq<(nat, int)>)
    ensures |r| == n
    ensures forall i :: 0 <= i < n ==> r[i].0 <= 9 && -9 <= r[i].1 <= 9
    ensures n > 0 ==> r[0].0 - r[0].1 == Price(seed)
    ensures forall i :: 0 < i < n ==> r[i].0 - r[i].1 == r[i - 1].0
  {
    seq(n, i requires 0 <= i => PriceChange(seed, i))
  }

  /** The price after step i + 1 and its change from the price after step i. */
  function PriceChange(seed: nat, i: nat): (pc: (nat, int))
    ensures pc.0 == Price(Nth(seed, i + 1)) && pc.0 - pc.1 == Price(Nth(seed, i))
  {
    (Price(Nth(seed, i + 1)), Price(Nth(seed, i + 1)) - Price(Nth(seed, i)))
  }

  /** Four consecutive changes, `[a.1, b.1, c.1, d.1]`. */
  type Key = (int, int, int, int)

  /** `tuple_windows` over four pairs: each window's changes with the price at its end. */
  function Windows(pairs: seq<(nat, int)>): (ws: seq<(Key, nat)>)
    ensures |ws| == if |pairs| < 4 then 0 else |pairs| - 3
    ensures forall i :: 0 <= i < |ws| ==> ws[i] == Window(pairs, i)
  {
    if |pairs| < 4 then [] else seq(|pairs| - 3, i requires 0 <= i < |pairs| - 3 => Window(pairs, i))
  }

  function Window(pairs: seq<(nat, int)>, i: nat): (Key, nat)
    requires i + 3 < |pairs|
  {
    ((pairs[i].1, pairs[i + 1].1, pairs[i + 2].1, pairs[i + 3].1), pairs[i + 3].0)
  }

  /** The price at the first window with the given changes, if any. */
  function First(ws: seq<(Key, nat)>, key: Key): Option<nat>
  {
    if ws == [] then None
    else
      var earlier := First(ws[..|ws| - 1], key);
      if earlier.Some? then earlier
      else if ws[|ws| - 1].0 == key then Some(ws[|ws| - 1].1)
      else None
  }

  /** `First` finds exactly the earliest window with the key, and nothing when no window has it. */
  lemma {:induction false} FirstIsEarliest(ws: seq<(Key, nat)>, key: Key)
    ensures First(ws, key).None? <==> forall i :: 0 <= i < |ws| ==> ws[i].0 != key
    ensures First(ws, key).Some? ==> exists i :: 0 <= i < |ws| && ws[i] == (key, First(ws, key).value) && forall j :: 0 <= j < i ==> ws[j].0 != key
  {
    if ws != [] {
      var init := ws[..|ws| - 1];
      FirstIsEarliest(init, key);
      if First(init, key).Some? {
        var i :| 0 <= i < |init| && init[i] == (key, First(init, key).value) && forall j :: 0 <= j < i ==> init[j].0 != key;
        assert ws[i] == init[i];
      }
    }
  }

  function Lookup(m: map<Key, nat>, key: Key): Option<nat>
  {
    if key in m then Some(m[key]) else None
  }

  function Get(m: map<Key, nat>, key: Key): nat
  {
    if key in m then m[key] else 0
  }

  /** The per-buyer fold: `entry(key).or_insert(price)` for every window, so a key keeps its first price. */
  method FirstPrices(pairs: seq<(nat, int)>) returns (m: map<Key, nat>)
    ensures forall key :: Lookup(m, key) == First(Windows(pairs), key)
  {
    var ws := Windows(pairs);
    m := map[];
    for i := 0 to |ws|
      invariant forall key :: Lookup(m, key) == First(ws[..i], key)
    {
      assert ws[..i + 1][..i] == ws[..i];
      var key := (pairs[i].1, pairs[i + 1].1, pairs[i + 2].1, pairs[i + 3].1);
      if key !in m {
        m := m[key := pairs[i + 3].0];
      }
      assert ws[i] == (key, pairs[i + 3].0);
    }
    assert ws[..|ws|] == ws;
  }

  /** The merge loop: every key of the buyer's map adds its price to the running total. */
  method Merge(total: map<Key, nat>, inner: map<Key, nat>) returns (merged: map<Key, nat>)
    ensures merged.Keys == total.Keys + inner.Keys
    ensures forall key :: Get(merged, key) == Get(total, key) + Get(inner, key)
  {
    merged := total;
    var rest := inner.Keys;
    while rest != {}
      invariant MergedExcept(total, inner, merged, rest)
      decreases |rest|
    {
      var key :| key in rest;
      MergeStep(total, inner, merged, rest, key);
      merged := merged[key := if key in merged then merged[key] + inner[key] else inner[key]];
      rest := rest - {key};
    }
    assert inner.Keys - rest == inner.Keys;
  }

  /** The merge has added every entry of the buyer's map except those in rest. */
  ghost predicate MergedExcept(total: map<Key, nat>, inner: map<Key, nat>, merged: map<Key, nat>, rest: set<Key>)
  {
    rest <= inner.Keys &&
    merged.Keys == total.Keys + (inner.Keys - rest) &&
    forall k :: Get(merged, k) == Get(total, k) + (if k in rest then 0 else Get(inner, k))
  }

  /** One entry of the merge: `and_modify` adds the price to an existing total, `or_insert` starts a new one. */
  lemma MergeStep(total: map<Key, nat>, inner: map<Key, nat>, merged: map<Key, nat>, rest: set<Key>, key: Key)
    requires key in rest && MergedExcept(total, inner, merged, rest)
    ensures MergedExcept(total, inner, merged[key := if key in merged then merged[key] + inner[key] else inner[key]], rest - {key})
  {
    var merged' := merged[key := if key in merged then merged[key] + inner[key] else inner[key]];
    forall k ensures Get(merged', k) == Get(total, k) + (if k in rest - {key} then 0 else Get(inner, k)) {
      if k != key {
        assert Get(merged', k) == Get(merged, k);
      }
    }
  }

  /** The price a buyer sells at for a key: at the first of its 2000 prices' windows with those changes. */
  function FirstSale(seed: nat, key: Key): Option<nat>
  {
    First(Windows(CostAndChange(seed, 2000)), key)
  }

  /** What one buyer pays for a key: the price at its first occurrence, or nothing. */
  function Gain(seed: nat, key: Key): (g: nat)
    ensures g <= 9
  {
    var first := FirstSale(seed, key);
    if first.Some? then (FirstIsEarliest(Windows(CostAndChange(seed, 2000)), key); first.value) else 0
  }

  /** The per-buyer closure of the fold: the buyer's 2000 price changes and their first-price map. */
  method BuyerMap(seed: nat) returns (inner: map<Key, nat>)
    ensures forall key :: Lookup(inner, key) == FirstSale(seed, key)
    ensures FirstKey(seed) in inner
  {
    inner := FirstPrices(CostAndChange(seed, 2000));
    FirstKeyPaid(seed, inner);
  }

  /** The bananas all buyers pay for a key. */
  function Bananas(seeds: seq<nat>, key: Key): (total: nat)
    ensures total <= 9 * |seeds|
  {
    if seeds == [] then 0 else Bananas(seeds[..|seeds| - 1], key) + Gain(seeds[|seeds| - 1], key)
  }

  /** `values().max().unwrap()`: the largest value of a map, which must not be empty. */
  method MaxValue(m: map<Key, nat>) returns (best: nat)
    requires m != map[]
    ensures best in m.Values
    ensures forall key :: key in m ==> m[key] <= best
  {
    var key0 :| key0 in m;
    best := m[key0];
    var rest := m.Keys - {key0};
    while rest != {}
      invariant rest <= m.Keys && best in m.Values
      invariant forall key :: key in m && key !in rest ==> m[key] <= best
      decreases |rest|
    {
      var key :| key in rest;
      if m[key] > best {
        best := m[key];
      }
      rest := rest - {key};
    }
  }

  /** Part 2 `process`: the most bananas any key of four changes earns over all buyers. */
  method BestBananas(seeds: seq<nat>) returns (best: nat)
    requires |seeds| >= 1
    ensures exists key: Key :: Bananas(seeds, key) == best
    ensures forall key: Key :: Bananas(seeds, key) <= best
  {
    var total: map<Key, nat> := map[];
    var key0 := FirstKey(seeds[0]);
    for k := 0 to |seeds|
      invariant TotalsOf(seeds[..k], total)
      invariant k > 0 ==> key0 in total
    {
      var inner := BuyerMap(seeds[k]);
      var merged := Merge(total, inner);
      TotalsStep(seeds, k, total, inner, merged);
      total := merged;
    }
    assert seeds[..|seeds|] == seeds;
    best := MaxValue(total);
    BestOfTotals(seeds, total, best);
  }

  /** The changes of a buyer's first window. */
  function FirstKey(seed: nat): Key
  {
    Windows(CostAndChange(seed, 2000))[0].0
  }

  /** Every buyer's map holds at least the key of its first window. */
  lemma FirstKeyPaid(seed: nat, inner: map<Key, nat>)
    requires forall key :: Lookup(inner, key) == First(Windows(CostAndChange(seed, 2000)), key)
    ensures FirstKey(seed) in inner
  {
    var ws := Windows(CostAndChange(seed, 2000));
    FirstIsEarliest(ws, ws[0].0);
    assert Lookup(inner, ws[0].0).Some?;
  }

  /** total holds, for every key, what the given buyers pay for it. */
  ghost predicate TotalsOf(seeds: seq<nat>, total: map<Key, nat>)
  {
    forall key :: Get(total, key) == Bananas(seeds, key)
  }

  lemma TotalsStep(seeds: seq<nat>, k: nat, total: map<Key, nat>, inner: map<Key, nat>, merged: map<Key, nat>)
    requires k < |seeds| && TotalsOf(seeds[..k], total)
    requires forall key :: Lookup(inner, key) == FirstSale(seeds[k], key)
    requires forall key :: Get(merged, key) == Get(total, key) + Get(inner, key)
    ensures TotalsOf(seeds[..k + 1], merged)
  {
    assert seeds[..k + 1][..k] == seeds[..k];
    forall key ensures Get(merged, key) == Bananas(seeds[..k + 1], key) {
      assert Lookup(inner, key) == FirstSale(seeds[k], key);
    }
  }

  lemma BestOfTotals(seeds: seq<nat>, total: map<Key, nat>, best: nat)
    requires TotalsOf(seeds, total)
    requires best in total.Values && forall key :: key in total ==> total[key] <= best
    ensures exists key: Key :: Bananas(seeds, key) == best
    ensures forall key: Key :: Bananas(seeds, key) <= best
  {
    var top :| top in total && total[top] == best;
    assert Get(total, top) == Bananas(seeds, top);
    forall key: Key ensures Bananas(seeds, key) <= best {
      assert Get(total, key) == Bananas(seeds, key);
    }
  }

  /** The buyers' totals add up over two lists of buyers. */
  lemma {:induction false} BananasConcat(a: seq<nat>, b: seq<nat>, key: Key)
    ensures Bananas(a + b, key) == Bananas(a, key) + Bananas(b, key)
    decreases |b|
  {
    if b == [] {
      assert a + b == a;
    } else {
      assert (a + b)[..|a + b| - 1] == a + b[..|b| - 1];
      BananasConcat(a, b[..|b| - 1], key);
    }
  }
}
