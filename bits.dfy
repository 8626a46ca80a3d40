/**
 * Unsigned machine words viewed as natural numbers: powers of two, single
 * bits, exclusive or and logical right shift.  The solutions store registers,
 * secrets and bit masks in `usize`/`u64`; the model keeps them as `nat` and
 * bounds them by `WORD` (2^64) where the width matters.
 */
module Bits {

  /** 2^64: every `usize`/`u64` value is below it. */
  const WORD: nat := 0x1_0000_0000_0000_0000

  /** An 8-bit unsigned byte, `u8`. */
  type Byte = n: nat | n < 256

  /** A 64-bit unsigned word. */
  type Word = n: nat | n < 0x1_0000_0000_0000_0000

  function Pow2(k: nat): (r: nat)
    ensures r >= 1
  {
    if k == 0 then 1 else 2 * Pow2(k - 1)
  }

  lemma {:induction false} Pow2Add(a: nat, b: nat)
    ensures Pow2(a + b) == Pow2(a) * Pow2(b)
  {
    if a > 0 {
      Pow2Add(a - 1, b);
      assert Pow2(a + b) == 2 * Pow2(a - 1 + b);
    }
  }

  lemma {:induction false} Pow2Monotone(a: nat, b: nat)
    requires a <= b
    ensures Pow2(a) <= Pow2(b)
  {
    if a < b {
      Pow2Monotone(a, b - 1);
    }
  }

  /** The word bound is 2^64. */
  lemma Pow2Word()
    ensures Pow2(64) == WORD
  {
    assert Pow2(8) == 256;
    Pow2Add(8, 8);
    assert Pow2(16) == 0x1_0000;
    Pow2Add(16, 16);
    assert Pow2(32) == 0x1_0000_0000;
    Pow2Add(32, 32);
  }

  /** Bit k of n: `(n >> k) & 1`. */
  function Bit(n: nat, k: nat): (r: nat)
    ensures r <= 1
  {
    if k == 0 then n % 2 else Bit(n / 2, k - 1)
  }

  /** Bitwise exclusive or of two naturals, least significant bit first. */
  function Xor(a: nat, b: nat): nat
    decreases a + b
  {
    if a == 0 then b
    else if b == 0 then a
    else 2 * Xor(a / 2, b / 2) + (a % 2 + b % 2) % 2
  }

  lemma MulSmall(d: int, x: int)
    requires d > 0 && -d < d * x < d
    ensures x == 0
  {
  }

  /** Dividing a natural by a positive number gives a natural quotient and a smaller natural remainder. */
  lemma DivNat(n: int, d: int)
    requires n >= 0 && d > 0
    ensures n / d >= 0 && 0 <= n % d < d
  {
  }

  /** Quotient and remainder are determined by `n == d * q + r` with `0 <= r < d`. */
  lemma DivUnique(n: int, d: int, q: int, r: int)
    requires d > 0 && n == d * q + r && 0 <= r < d
    ensures n / d == q && n % d == r
  {
    var q', r' := n / d, n % d;
    assert d * (q - q') == r' - r;
    MulSmall(d, q - q');
  }

  /** Dividing by 2m is halving and dividing by m; the remainder keeps the halved remainder and the low bit. */
  lemma DivDiv(n: nat, m: nat)
    requires m >= 1
    ensures n / (2 * m) == (n / 2) / m
    ensures n % (2 * m) == 2 * ((n / 2) % m) + n % 2
  {
    var q, r := (n / 2) / m, (n / 2) % m;
    assert n / 2 == m * q + r;
    assert n == (2 * m) * q + (2 * r + n % 2);
    DivUnique(n, 2 * m, q, 2 * r + n % 2);
  }

  /** Dividing by 2^(k+1) is halving and then dividing by 2^k. */
  lemma HalfShift(n: nat, k: nat)
    ensures n / Pow2(k + 1) == (n / 2) / Pow2(k)
  {
    DivDiv(n, Pow2(k));
  }

  lemma BitOfZero(k: nat)
    ensures Bit(0, k) == 0
  {
  }

  /** Each bit of `Xor(a, b)` is the sum modulo 2 of the operands' bits. */
  lemma {:induction false} XorBit(a: nat, b: nat, k: nat)
    ensures Bit(Xor(a, b), k) == (Bit(a, k) + Bit(b, k)) % 2
    decreases k
  {
    if a == 0 {
      BitOfZero(k);
    } else if b == 0 {
      BitOfZero(k);
    } else {
      var x := Xor(a / 2, b / 2);
      var c := (a % 2 + b % 2) % 2;
      assert Xor(a, b) == 2 * x + c;
      DivUnique(Xor(a, b), 2, x, c);
      if k > 0 {
        XorBit(a / 2, b / 2, k - 1);
      }
    }
  }

  /** Exclusive or of two k-bit numbers is a k-bit number. */
  lemma {:induction false} XorBelow(a: nat, b: nat, k: nat)
    requires a < Pow2(k) && b < Pow2(k)
    ensures Xor(a, b) < Pow2(k)
    decreases k
  {
    if a != 0 && b != 0 {
      assert k > 0;
      XorBelow(a / 2, b / 2, k - 1);
    }
  }

  /** Exclusive or of two words, a word. */
  function XorWord(a: Word, b: Word): (r: Word)
    ensures forall k: nat :: Bit(r, k) == (Bit(a, k) + Bit(b, k)) % 2
  {
    Pow2Word();
    XorBelow(a, b, 64);
    forall k: nat ensures Bit(Xor(a, b), k) == (Bit(a, k) + Bit(b, k)) % 2 {
      XorBit(a, b, k);
    }
    Xor(a, b)
  }

  /** Logical right shift by k: halve k times, dropping the low bit each time. */
  function ShiftRight(n: nat, k: nat): nat
  {
    if k == 0 then n else ShiftRight(n / 2, k - 1)
  }

  /** A right shift by k truncates a division by 2^k. */
  lemma {:induction false} ShiftRightIsDivision(n: nat, k: nat)
    ensures ShiftRight(n, k) == n / Pow2(k)
  {
    if k > 0 {
      ShiftRightIsDivision(n / 2, k - 1);
      HalfShift(n, k - 1);
    }
  }

  /** Bit k is the remainder of a division by 2^k, the documented reading of `(n >> k) & 1`. */
  lemma {:induction false} BitIsDivision(n: nat, k: nat)
    ensures Bit(n, k) == (n / Pow2(k)) % 2
  {
    if k > 0 {
      BitIsDivision(n / 2, k - 1);
      HalfShift(n, k - 1);
    }
  }

  /** A number below 2^k has no bit at k or above. */
  lemma {:induction false} BitAbove(n: nat, k: nat, j: nat)
    requires n < Pow2(k) && k <= j
    ensures Bit(n, j) == 0
    decreases j
  {
    if j == 0 {
    } else if k == 0 {
      BitOfZero(j);
    } else {
      BitAbove(n / 2, k - 1, j - 1);
    }
  }

  /** Reducing modulo 2^m keeps the bits below m and clears the rest. */
  lemma {:induction false} BitMod(x: nat, m: nat, k: nat)
    ensures Bit(x % Pow2(m), k) == if k < m then Bit(x, k) else 0
    decreases m
  {
    if m == 0 {
      BitOfZero(k);
    } else {
      DivDiv(x, Pow2(m - 1));
      var y := x % Pow2(m);
      assert y == 2 * ((x / 2) % Pow2(m - 1)) + x % 2;
      DivUnique(y, 2, (x / 2) % Pow2(m - 1), x % 2);
      if k > 0 {
        BitMod(x / 2, m - 1, k - 1);
      }
    }
  }

  /** n with bit b put in at position i: the bits from i upwards move up by one. */
  function Spread(n: nat, i: nat, b: nat): nat
    requires b <= 1
  {
    if i == 0 then 2 * n + b else 2 * Spread(n / 2, i - 1, b) + n % 2
  }

  lemma {:induction false} SpreadBit(n: nat, i: nat, b: nat, k: nat)
    requires b <= 1
    ensures Bit(Spread(n, i, b), k) == if k < i then Bit(n, k) else if k == i then b else Bit(n, k - 1)
    decreases i
  {
    var s := Spread(n, i, b);
    if i == 0 {
      DivUnique(s, 2, n, b);
    } else {
      DivUnique(s, 2, Spread(n / 2, i - 1, b), n % 2);
      if k > 0 {
        SpreadBit(n / 2, i - 1, b, k - 1);
      }
    }
  }

  /** Spread is the mask arithmetic `(n >> i) << (i + 1) | b << i | n & (2^i - 1)`. */
  lemma {:induction false} SpreadValue(n: nat, i: nat, b: nat)
    requires b <= 1
    ensures Spread(n, i, b) == (n / Pow2(i)) * Pow2(i + 1) + b * Pow2(i) + n % Pow2(i)
    decreases i
  {
    if i > 0 {
      var p := Pow2(i - 1);
      SpreadValue(n / 2, i - 1, b);
      DivDiv(n, p);
      SpreadCombine(Spread(n, i, b), Spread(n / 2, i - 1, b), (n / 2) / p, p, b, (n / 2) % p, n % 2);
    }
  }

  lemma SpreadCombine(s: int, t: int, q: int, p: int, b: int, r: int, low: int)
    requires s == 2 * t + low && t == q * (2 * p) + b * p + r
    ensures s == q * (2 * (2 * p)) + b * (2 * p) + (2 * r + low)
  {
    assert 2 * (q * (2 * p)) == q * (2 * (2 * p));
  }

  lemma ShiftRightBelow(n: nat, k: nat)
    ensures ShiftRight(n, k) <= n
  {
    ShiftRightIsDivision(n, k);
  }
  /** Numbers below 2^n with the same bits below n are equal. */
  lemma {:induction false} BitsDetermine(x: nat, y: nat, n: nat)
    requires x < Pow2(n) && y < Pow2(n)
    requires forall k :: 0 <= k < n ==> Bit(x, k) == Bit(y, k)
    ensures x == y
    decreases n
  {
    if n > 0 {
      forall k | 0 <= k < n - 1
        ensures Bit(x / 2, k) == Bit(y / 2, k)
      {
        assert Bit(x, k + 1) == Bit(y, k + 1);
      }
      BitsDetermine(x / 2, y / 2, n - 1);
      assert Bit(x, 0) == Bit(y, 0);
    }
  }

  /** Multiplying by 2^d moves every bit up by d and leaves zeroes below. */
  lemma {:induction false} BitOfProduct(s: nat, d: nat, k: nat)
    ensures Bit(s * Pow2(d), k) == if k < d then 0 else Bit(s, k - d)
    decreases d
  {
    if d > 0 {
      var m := s * Pow2(d - 1);
      assert s * Pow2(d) == 2 * m;
      DivUnique(2 * m, 2, m, 0);
      if k > 0 {
        BitOfProduct(s, d - 1, k - 1);
      }
    }
  }

  /** A right shift by d moves every bit down by d. */
  lemma {:induction false} BitOfShift(s: nat, d: nat, k: nat)
    ensures Bit(ShiftRight(s, d), k) == Bit(s, k + d)
    decreases d
  {
    if d > 0 {
      BitOfShift(s / 2, d - 1, k);
    }
  }

  /** Dividing by 2^d moves every bit down by d. */
  lemma BitOfQuotient(s: nat, d: nat, k: nat)
    ensures s / Pow2(d) >= 0 && Bit(s / Pow2(d), k) == Bit(s, k + d)
  {
    ShiftRightIsDivision(s, d);
    BitOfShift(s, d, k);
  }
}
