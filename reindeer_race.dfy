/**
 * 2015/day-14: each reindeer flies at its speed for its endurance in
 * seconds, rests, and repeats.  Part 1 asks for the farthest distance
 * after the race; part 2 gives a point each second to every reindeer in
 * the lead and asks for the highest score.
 */
module ReindeerRace {
  /** `Reindeer`; the speeds and times are `u32` in the source. */
  datatype Reindeer = Reindeer(name: string, speed: nat, endurance: nat, rest: nat)

  /** Both parts divide by the cycle length, so it must not be zero. */
  predicate Cycles(r: Reindeer)
  {
    r.endurance + r.rest > 0
  }

  function Cycle(r: Reindeer): nat
  {
    r.endurance + r.rest
  }

  /** In the second starting at t the reindeer is in the flying part of its cycle. */
  predicate Flying(r: Reindeer, t: nat)
    requires Cycles(r)
  {
    t % Cycle(r) < r.endurance
  }

  /** The reference: the distance covered in the first t seconds, second by second. */
  function Flown(r: Reindeer, t: nat): nat
    requires Cycles(r)
  {
    if t == 0 then 0 else Flown(r, t - 1) + if Flying(r, t - 1) then r.speed else 0
  }

  /** Part 1 `distance_over_duration` as written: counts one more full flight when the remainder is past the endurance. */
  function OverDuration(r: Reindeer, duration: nat): nat
    requires Cycles(r)
  {
    var cycles := duration / Cycle(r) + if duration % Cycle(r) > r.endurance then 1 else 0;
    cycles * (r.endurance * r.speed)
  }

  /** Part 2 `distance_at_second`: full cycles, plus the flying part of the one under way. */
  function DistanceAt(r: Reindeer, second: nat): nat
    requires Cycles(r)
  {
    var cycle := Cycle(r);
    (second / cycle) * (r.endurance * r.speed) + Min(second % cycle, r.endurance) * r.speed
  }

  function Min(a: nat, b: nat): nat
  {
    if a < b then a else b
  }

  /** `.max().unwrap_or(0)`. */
  function MaxOr0(s: seq<nat>): nat
  {
    if s == [] then 0 else var m := MaxOr0(s[..|s| - 1]); if s[|s| - 1] > m then s[|s| - 1] else m
  }

  predicate AllCycle(deer: seq<Reindeer>)
  {
    forall i :: 0 <= i < |deer| ==> Cycles(deer[i])
  }

  /** Where each reindeer is at second t: the `positions` of part 2, the distances of part 1. */
  function Positions(deer: seq<Reindeer>, t: nat): (r: seq<nat>)
    requires AllCycle(deer)
    ensures |r| == |deer|
  {
    seq(|deer|, i requires 0 <= i < |deer| => DistanceAt(deer[i], t))
  }

  /** Part 1 `process`, with the distance the reindeer has really flown. */
  function Farthest(deer: seq<Reindeer>, duration: nat): nat
    requires AllCycle(deer)
  {
    MaxOr0(Positions(deer, duration))
  }

  // ---------------------------------------------------------------------
  // Distances

  lemma {:induction false} MulBound(a: int, c: int)
    requires c > 0
    ensures a >= 1 ==> a * c >= c
    ensures a <= -1 ==> a * c <= -c
    decreases if a < 0 then -a else a
  {
    if a > 1 {
      MulBound(a - 1, c);
      assert a * c == (a - 1) * c + c;
    } else if a < -1 {
      MulBound(a + 1, c);
      assert a * c == (a + 1) * c - c;
    }
  }

  /** Quotient and remainder are the only ones of their kind. */
  lemma DivModUnique(n: nat, c: nat, q: int, m: int)
    requires c > 0 && 0 <= m < c && n == q * c + m
    ensures n / c == q && n % c == m
  {
    var q2, m2 := n / c, n % c;
    assert n == q2 * c + m2;
    assert (q2 - q) * c == m - m2;
    MulBound(q2 - q, c);
  }

  lemma DivModNext(t: nat, c: nat)
    requires c > 0
    ensures t % c == c - 1 ==> (t + 1) / c == t / c + 1 && (t + 1) % c == 0
    ensures t % c != c - 1 ==> (t + 1) / c == t / c && (t + 1) % c == t % c + 1
  {
    var q, m := t / c, t % c;
    assert t == q * c + m;
    if m == c - 1 {
      assert t + 1 == (q + 1) * c + 0;
      DivModUnique(t + 1, c, q + 1, 0);
    } else {
      DivModUnique(t + 1, c, q, m + 1);
    }
  }

  /** Each second adds the speed while flying and nothing while resting. */
  lemma DistanceStep(r: Reindeer, t: nat)
    requires Cycles(r)
    ensures DistanceAt(r, t + 1) == DistanceAt(r, t) + if Flying(r, t) then r.speed else 0
  {
    var c := Cycle(r);
    var k := r.endurance * r.speed;
    DivModNext(t, c);
    if t % c == c - 1 {
      assert (t / c + 1) * k == (t / c) * k + k;
      if r.rest == 0 {
        assert Min(t % c, r.endurance) * r.speed + r.speed == k;
      } else {
        assert Min(t % c, r.endurance) == r.endurance;
      }
    } else {
      if t % c < r.endurance {
        assert Min(t % c + 1, r.endurance) * r.speed == Min(t % c, r.endurance) * r.speed + r.speed;
      }
    }
  }

  /** `distance_at_second` is the distance flown second by second. */
  lemma {:induction false} DistanceIsFlown(r: Reindeer, t: nat)
    requires Cycles(r)
    ensures DistanceAt(r, t) == Flown(r, t)
  {
    if t > 0 {
      DistanceIsFlown(r, t - 1);
      DistanceStep(r, t - 1);
    }
  }

  /** A reindeer never goes back. */
  lemma {:induction false} DistanceMono(r: Reindeer, s: nat, t: nat)
    requires Cycles(r) && s <= t
    ensures DistanceAt(r, s) <= DistanceAt(r, t)
    decreases t - s
  {
    if s < t {
      DistanceStep(r, s);
      DistanceMono(r, s + 1, t);
    }
  }

  /** The part 1 formula is right exactly when the race ends on a cycle boundary, after a flight, or for a reindeer that does not move. */
  lemma OverDurationAgrees(r: Reindeer, d: nat)
    requires Cycles(r)
    ensures OverDuration(r, d) == DistanceAt(r, d) <==> (d % Cycle(r) == 0 || d % Cycle(r) > r.endurance || r.speed == 0)
  {
    var c := Cycle(r);
    var k := r.endurance * r.speed;
    var m := d % c;
    if m == 0 {
      assert Min(m, r.endurance) == 0;
    } else if m > r.endurance {
      assert (d / c + 1) * k == (d / c) * k + k;
    } else {
      assert Min(m, r.endurance) == m;
      assert OverDuration(r, d) == (d / c) * k;
      assert DistanceAt(r, d) == (d / c) * k + m * r.speed;
      assert m * r.speed == 0 <==> r.speed == 0;
    }
  }

  const COMET := Reindeer("Comet", 14, 10, 127)
  const DANCER := Reindeer("Dancer", 16, 11, 162)

  /** Comet, at the end of its first flight, has flown 140 km, but the part 1 formula gives 0. */
  lemma FlightDropped()
    ensures OverDuration(COMET, 10) == 0 && DistanceAt(COMET, 10) == 140
  {
  }

  /** A race ending during a flight loses the flight's share too. */
  lemma PartialFlightDropped()
    ensures OverDuration(COMET, 9) == 0 && DistanceAt(COMET, 9) == 126
  {
  }

  /** The sample: after 1000 seconds both formulas give Comet 1120 and Dancer 1056, and Comet leads. */
  lemma SampleDistances()
    ensures OverDuration(COMET, 1000) == DistanceAt(COMET, 1000) == 1120
    ensures OverDuration(DANCER, 1000) == DistanceAt(DANCER, 1000) == 1056
    ensures Farthest([COMET, DANCER], 1000) == 1120
  {
    var p := Positions([COMET, DANCER], 1000);
    assert p[0] == 1120 && p[1] == 1056;
    assert p == [1120, 1056];
    assert p[..1] == [1120] && p[..1][..0] == [];
    assert MaxOr0(p[..1]) == 1120;
    assert MaxOr0(p) == 1120;
  }

  const JEFF := Reindeer("Jeff", 10, 25, 75)

  /** Jeff flies 10 km/s for 25 seconds and rests 75: ten whole cycles in 1000 seconds, 2500 km. */
  lemma JeffSample()
    ensures OverDuration(JEFF, 1000) == DistanceAt(JEFF, 1000) == 2500
  {
  }

  /** Comet rests until second 137, then flies again: 140, 154 and 168 km at seconds 137, 138 and 139. */
  lemma CometResumes()
    ensures DistanceAt(COMET, 137) == 140 && DistanceAt(COMET, 138) == 154 && DistanceAt(COMET, 139) == 168
  {
  }

  /** The maximum is one of the values, or 0 for none, and no value exceeds it. */
  lemma {:induction false} MaxOr0Is(s: seq<nat>)
    ensures s == [] ==> MaxOr0(s) == 0
    ensures s != [] ==> MaxOr0(s) in s
    ensures forall i :: 0 <= i < |s| ==> s[i] <= MaxOr0(s)
  {
    if s != [] {
      MaxOr0Is(s[..|s| - 1]);
      if |s| > 1 {
        assert MaxOr0(s[..|s| - 1]) in s[..|s| - 1];
      }
    }
  }

  /** The farthest distance is some reindeer's distance, and nobody is farther. */
  lemma FarthestIs(deer: seq<Reindeer>, duration: nat)
    requires AllCycle(deer)
    ensures deer != [] ==> exists i :: 0 <= i < |deer| && Farthest(deer, duration) == Flown(deer[i], duration)
    ensures forall i :: 0 <= i < |deer| ==> Flown(deer[i], duration) <= Farthest(deer, duration)
  {
    var p := Positions(deer, duration);
    MaxOr0Is(p);
    forall i | 0 <= i < |deer|
      ensures p[i] == Flown(deer[i], duration)
    {
      DistanceIsFlown(deer[i], duration);
    }
    if deer != [] {
      var i :| 0 <= i < |p| && p[i] == MaxOr0(p);
    }
  }

  // ---------------------------------------------------------------------
  // Part 2: points

  /** Reindeer i is in the lead, possibly shared, at second t. */
  predicate Leads(deer: seq<Reindeer>, i: nat, t: nat)
    requires AllCycle(deer) && i < |deer|
  {
    DistanceAt(deer[i], t) == MaxOr0(Positions(deer, t))
  }

  /** The points reindeer i collects over seconds 1 to t. */
  function Points(deer: seq<Reindeer>, i: nat, t: nat): nat
    requires AllCycle(deer) && i < |deer|
  {
    if t == 0 then 0 else Points(deer, i, t - 1) + if Leads(deer, i, t) then 1 else 0
  }

  /** `Race`: the reindeer, each with its score. */
  class Race {
    const deer: seq<Reindeer>
    var scores: seq<nat>

    /** `Race::new`: every score starts at zero. */
    constructor (deer: seq<Reindeer>)
      ensures this.deer == deer && scores == seq(|deer|, i => 0)
    {
      this.deer := deer;
      scores := seq(|deer|, i => 0);
    }

    /** One second of the race: a point to every reindeer in the lead. */
    method Award(sec: nat)
      requires AllCycle(deer) && |scores| == |deer|
      modifies this
      ensures |scores| == |deer|
      ensures forall i :: 0 <= i < |deer| ==> scores[i] == old(scores[i]) + if Leads(deer, i, sec) then 1 else 0
    {
      var positions := Positions(deer, sec);
      var maxDist := MaxOr0(positions);
      for i := 0 to |deer|
        invariant |scores| == |deer|
        invariant forall j :: 0 <= j < i ==> scores[j] == old(scores[j]) + if Leads(deer, j, sec) then 1 else 0
        invariant forall j :: i <= j < |deer| ==> scores[j] == old(scores[j])
      {
        if positions[i] == maxDist {
          scores := scores[i := scores[i] + 1];
        }
      }
    }

    /** `Race::run`: seconds 1 to duration in turn, then the best score. */
    method Run(duration: nat) returns (best: nat)
      requires AllCycle(deer) && |scores| == |deer|
      modifies this
      ensures |scores| == |deer|
      ensures forall i :: 0 <= i < |deer| ==> scores[i] == old(scores[i]) + Points(deer, i, duration)
      ensures best == MaxOr0(scores)
    {
      assert forall i :: 0 <= i < |deer| ==> Points(deer, i, 0) == 0;
      for sec := 1 to duration + 1
        invariant |scores| == |deer|
        invariant forall i :: 0 <= i < |deer| ==> scores[i] == old(scores[i]) + Points(deer, i, sec - 1)
      {
        Award(sec);
      }
      best := MaxOr0(scores);
    }
  }

  /** Every second some reindeer leads. */
  lemma LeaderExists(deer: seq<Reindeer>, t: nat)
    requires AllCycle(deer) && deer != []
    ensures exists i :: 0 <= i < |deer| && Leads(deer, i, t)
  {
    var p := Positions(deer, t);
    MaxOr0Is(p);
    var i :| 0 <= i < |p| && p[i] == MaxOr0(p);
    assert Leads(deer, i, t);
  }

  /** Nobody scores more than one point a second. */
  lemma {:induction false} PointsBound(deer: seq<Reindeer>, i: nat, t: nat)
    requires AllCycle(deer) && i < |deer|
    ensures Points(deer, i, t) <= t
  {
    if t > 0 {
      PointsBound(deer, i, t - 1);
    }
  }

  /** The points handed out over the first k reindeer. */
  function Tally(deer: seq<Reindeer>, k: nat, t: nat): nat
    requires AllCycle(deer) && k <= |deer|
  {
    if k == 0 then 0 else Tally(deer, k - 1, t) + Points(deer, k - 1, t)
  }

  function Leaders(deer: seq<Reindeer>, k: nat, t: nat): nat
    requires AllCycle(deer) && k <= |deer|
  {
    if k == 0 then 0 else Leaders(deer, k - 1, t) + if Leads(deer, k - 1, t) then 1 else 0
  }

  lemma {:induction false} TallyStep(deer: seq<Reindeer>, k: nat, t: nat)
    requires AllCycle(deer) && k <= |deer| && t > 0
    ensures Tally(deer, k, t) == Tally(deer, k, t - 1) + Leaders(deer, k, t)
  {
    if k > 0 {
      TallyStep(deer, k - 1, t);
    }
  }

  lemma {:induction false} LeadersCount(deer: seq<Reindeer>, k: nat, t: nat, i: nat)
    requires AllCycle(deer) && i < k <= |deer| && Leads(deer, i, t)
    ensures Leaders(deer, k, t) >= 1
  {
    if i < k - 1 {
      LeadersCount(deer, k - 1, t, i);
    }
  }

  /** At least one point is handed out each second, so the scores add up to at least the duration. */
  lemma {:induction false} TallyAtLeast(deer: seq<Reindeer>, t: nat)
    requires AllCycle(deer) && deer != []
    ensures Tally(deer, |deer|, t) >= t
  {
    if t > 0 {
      TallyAtLeast(deer, t - 1);
      TallyStep(deer, |deer|, t);
      LeaderExists(deer, t);
      var i :| 0 <= i < |deer| && Leads(deer, i, t);
      LeadersCount(deer, |deer|, t, i);
    }
  }
}
