/**
 * day-13 part 1: a claw machine has two buttons, each moving the claw by a
 * fixed vector, and a prize position.  `count_tokens` solves the two linear
 * equations by Cramer's rule with Rust's truncating integer division, keeps
 * the answer only when it really reaches the prize, and charges 3 tokens
 * per A press and 1 per B press.
 */
module ClawMachine {
  import opened Wrappers
  import Bits

  datatype Vec2 = Vec2(x: int, y: int)

  datatype Equation = Equation(a: Vec2, b: Vec2, prize: Vec2)

  const USIZE_MODULUS: int := 0x1_0000_0000_0000_0000

  function Abs(n: int): nat
  {
    if n < 0 then -n else n
  }

  /** Rust's `/` on `isize`: the quotient rounded toward zero. */
  function TruncDiv(n: int, d: int): int
    requires d != 0
  {
    if d > 0 then (if n >= 0 then n / d else -((-n) / d))
    else (if n >= 0 then -(n / (-d)) else (-n) / (-d))
  }

  /** The determinant `ax * by - ay * bx`; the machine divides by it. */
  function Det(e: Equation): int
  {
    e.a.x * e.b.y - e.a.y * e.b.x
  }

  /** a presses of A and b presses of B land exactly on the prize. */
  predicate Reaches(e: Equation, a: int, b: int)
  {
    e.prize.x == a * e.a.x + b * e.b.x && e.prize.y == a * e.a.y + b * e.b.y
  }

  /** The two Cramer quotients, as the machine computes them. */
  function Presses(e: Equation): (int, int)
    requires Det(e) != 0
  {
    (TruncDiv(e.b.y * e.prize.x - e.b.x * e.prize.y, Det(e)),
     TruncDiv(e.a.y * e.prize.x - e.a.x * e.prize.y, e.a.y * e.b.x - e.a.x * e.b.y))
  }

  /** `count_tokens` as written: the presses are not checked for sign and `as usize` wraps a negative cost. */
  function CountTokensAsWritten(e: Equation): Option<nat>
    requires Det(e) != 0
  {
    var (a, b) := Presses(e);
    if Reaches(e, a, b) then Some((3 * a + b) % USIZE_MODULUS) else None
  }

  /** `count_tokens` with the evident intent: only a solution with no negative press count wins the prize. */
  function CountTokens(e: Equation): Option<nat>
    requires Det(e) != 0
  {
    var (a, b) := Presses(e);
    if Reaches(e, a, b) && a >= 0 && b >= 0 then Some(3 * a + b) else None
  }

  /** The sum in `process` over the machines that can be won. */
  function TotalTokens(machines: seq<Equation>): nat
    requires forall k :: 0 <= k < |machines| ==> Det(machines[k]) != 0
  {
    if machines == [] then 0
    else TotalTokens(machines[..|machines| - 1]) + (match CountTokens(machines[|machines| - 1]) case Some(c) => c case None => 0)
  }

  // ---------------------------------------------------------------------
  // Properties

  /** Truncating division leaves a remainder smaller than the divisor and of the dividend's sign. */
  lemma TruncDivRemainder(n: int, d: int)
    requires d != 0
    ensures var r := n - TruncDiv(n, d) * d;
      Abs(r) < Abs(d) && (r == 0 || (r < 0) == (n < 0))
  {
    var an: int, ad: int := Abs(n), Abs(d);
    var p: int, m: int := an / ad, an % ad;
    EuclidPositive(an, ad);
    var pd := p * ad;
    assert an == pd + m;
    var q := TruncDiv(n, d);
    if n >= 0 && d > 0 {
      assert q * d == pd;
    } else if n < 0 && d < 0 {
      assert q * d == p * (-ad) == -pd;
    } else if n >= 0 {
      assert q * d == (-p) * (-ad) == pd;
    } else {
      assert q * d == (-p) * ad == -pd;
    }
  }

  lemma EuclidPositive(n: nat, d: nat)
    requires d > 0
    ensures n == (n / d) * d + n % d && n % d < d
  {
  }

  /** Dividing an exact multiple truncates nothing. */
  lemma TruncDivExact(a: int, d: int)
    requires d != 0
    ensures TruncDiv(a * d, d) == a
  {
    var n := a * d;
    if d > 0 && a >= 0 {
      Bits.DivUnique(n, d, a, 0);
    } else if d > 0 {
      assert -n == d * (-a);
      Bits.DivUnique(-n, d, -a, 0);
    } else if a >= 0 {
      assert n <= 0;
      if a == 0 {
        assert n == 0;
      } else {
        assert -n == (-d) * a;
        Bits.DivUnique(-n, -d, a, 0);
      }
    } else {
      assert n == (-d) * (-a);
      Bits.DivUnique(n, -d, -a, 0);
    }
  }

  /** Any solution makes the Cramer numerators exact multiples of the determinant. */
  lemma Numerators(e: Equation, a: int, b: int)
    requires Reaches(e, a, b)
    ensures e.b.y * e.prize.x - e.b.x * e.prize.y == a * Det(e)
    ensures e.a.y * e.prize.x - e.a.x * e.prize.y == b * (e.a.y * e.b.x - e.a.x * e.b.y)
  {
    var ax, ay, bx, bY := e.a.x, e.a.y, e.b.x, e.b.y;
    calc {
      bY * e.prize.x - bx * e.prize.y;
      bY * (a * ax + b * bx) - bx * (a * ay + b * bY);
      a * (ax * bY - ay * bx);
    }
    calc {
      ay * e.prize.x - ax * e.prize.y;
      ay * (a * ax + b * bx) - ax * (a * ay + b * bY);
      b * (ay * bx - ax * bY);
    }
  }

  /** When the buttons are independent, any integer solution is the one the machine computes. */
  lemma CramerFindsSolution(e: Equation, a: int, b: int)
    requires Det(e) != 0 && Reaches(e, a, b)
    ensures Presses(e) == (a, b)
  {
    Numerators(e, a, b);
    TruncDivExact(a, Det(e));
    TruncDivExact(b, e.a.y * e.b.x - e.a.x * e.b.y);
  }

  /** The machine is won exactly when some press counts reach the prize, and it then costs 3a + b for those counts. */
  lemma CountTokensIffSolution(e: Equation)
    requires Det(e) != 0
    ensures CountTokens(e).Some? <==> exists a: nat, b: nat :: Reaches(e, a, b)
    ensures forall a: nat, b: nat :: Reaches(e, a, b) ==> CountTokens(e) == Some(3 * a + b)
  {
    forall a: nat, b: nat | Reaches(e, a, b)
      ensures CountTokens(e) == Some(3 * a + b)
    {
      CramerFindsSolution(e, a, b);
    }
    if CountTokens(e).Some? {
      var (a, b) := Presses(e);
      assert Reaches(e, a as nat, b as nat);
    }
  }

  /** The as-written machine pays out a wrapped cost for a solution with a negative press count. */
  lemma NegativePressesAccepted()
    ensures CountTokensAsWritten(Equation(Vec2(2, 1), Vec2(1, 1), Vec2(1, 5))) == Some(USIZE_MODULUS - 3)
    ensures CountTokens(Equation(Vec2(2, 1), Vec2(1, 1), Vec2(1, 5))) == None
  {
    var e := Equation(Vec2(2, 1), Vec2(1, 1), Vec2(1, 5));
    CramerFindsSolution(e, -4, 9);
  }

  /** The four machines of the example cost 480 tokens in all. */
  lemma ExampleTotal()
    ensures TotalTokens([
      Equation(Vec2(94, 34), Vec2(22, 67), Vec2(8400, 5400)),
      Equation(Vec2(26, 66), Vec2(67, 21), Vec2(12748, 12176)),
      Equation(Vec2(17, 86), Vec2(84, 37), Vec2(7870, 6450)),
      Equation(Vec2(69, 23), Vec2(27, 71), Vec2(18641, 10279))]) == 480
  {
    var e0 := Equation(Vec2(94, 34), Vec2(22, 67), Vec2(8400, 5400));
    var e1 := Equation(Vec2(26, 66), Vec2(67, 21), Vec2(12748, 12176));
    var e2 := Equation(Vec2(17, 86), Vec2(84, 37), Vec2(7870, 6450));
    var e3 := Equation(Vec2(69, 23), Vec2(27, 71), Vec2(18641, 10279));
    CramerFindsSolution(e0, 80, 40);
    CramerFindsSolution(e2, 38, 86);
    Unreachable(e1);
    Unreachable(e3);
    var m := [e0, e1, e2, e3];
    assert m[..3] == [e0, e1, e2] && m[..3][..2] == [e0, e1] && m[..3][..2][..1] == [e0];
    assert TotalTokens([e0]) == 280;
  }

  /** The machine is lost when the computed presses miss the prize. */
  lemma Unreachable(e: Equation)
    requires Det(e) != 0 && !Reaches(e, Presses(e).0, Presses(e).1)
    ensures CountTokens(e) == None
  {
  }
}
