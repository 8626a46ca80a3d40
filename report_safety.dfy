/**
 * The report-safety rule of 2024/day-02 part 1, checked in two ways.
 * A report is safe when every pair of neighbouring levels differs by one
 * to three and all the differences have the same sign.
 *
 * `CheckSafety` is the version in 2024/day-02/src/part1.rs: it walks the
 * windows once, fixing the direction at the first one and returning the
 * first violation it meets.  `IsSafeReport` is the version in
 * day-02/src/part1.rs: it compares every window with the sign of the first.
 * Both are proved to decide `Safe`.
 */
module ReportSafety {
  import opened Wrappers

  type Report = seq<int>

  function Abs(n: int): nat
  {
    if n < 0 then -n else n
  }

  /** `signum`. */
  function Sign(n: int): int
  {
    if n < 0 then -1 else if n == 0 then 0 else 1
  }

  /** The difference of window k, `a - b`. */
  function Diff(r: Report, k: nat): int
    requires k + 1 < |r|
  {
    r[k] - r[k + 1]
  }

  predicate InRange(d: int)
  {
    1 <= Abs(d) <= 3
  }

  /** The rule, stated directly. */
  predicate Safe(r: Report)
  {
    (forall k :: 0 <= k < |r| - 1 ==> InRange(Diff(r, k))) &&
    ((forall k :: 0 <= k < |r| - 1 ==> Diff(r, k) > 0) || (forall k :: 0 <= k < |r| - 1 ==> Diff(r, k) < 0))
  }

  // ---------------------------------------------------------------------
  // 2024/day-02: `check_safety`

  /** The direction fixed by the first window: `a - b` negative is `Decreasing`. */
  datatype Direction = Increasing | Decreasing

  datatype Reason = SwitchedToIncreasing | SwitchedToDecreasing | OutOfRange(d: nat) | NoChange

  /** `Ok(())`, or the window and the reason of the first violation. */
  datatype Outcome = Fine | Unsafe(a: int, b: int, why: Reason)

  function DirectionOf(d: int): Direction
    requires d != 0
  {
    if d < 0 then Decreasing else Increasing
  }

  /** Every window before i is in range and has the direction of window 0. */
  predicate SafeSoFar(r: Report, i: nat)
    requires i < |r| || i == 0
  {
    (forall k :: 0 <= k < i ==> InRange(Diff(r, k))) &&
    (i > 0 ==> forall k :: 0 <= k < i ==> Sign(Diff(r, k)) == Sign(Diff(r, 0)))
  }

  lemma SafeIffSoFar(r: Report)
    requires |r| >= 1
    ensures Safe(r) <==> SafeSoFar(r, |r| - 1)
  {
    if |r| >= 2 && SafeSoFar(r, |r| - 1) {
      if Diff(r, 0) > 0 {
        assert forall k :: 0 <= k < |r| - 1 ==> Diff(r, k) > 0 by {
          forall k | 0 <= k < |r| - 1
            ensures Diff(r, k) > 0
          {
            assert Sign(Diff(r, k)) == 1;
          }
        }
      } else {
        assert forall k :: 0 <= k < |r| - 1 ==> Diff(r, k) < 0 by {
          forall k | 0 <= k < |r| - 1
            ensures Diff(r, k) < 0
          {
            assert Sign(Diff(r, k)) == -1;
          }
        }
      }
    }
  }

  /** A window out of range, or with a sign other than the first window's, makes a report unsafe. */
  lemma Violation(r: Report, i: nat)
    requires i + 1 < |r|
    requires !InRange(Diff(r, i)) || Sign(Diff(r, i)) != Sign(Diff(r, 0))
    ensures !Safe(r)
  {
  }

  /** `check_safety`: one pass over the windows with the direction found so far. */
  method CheckSafety(r: Report) returns (result: Outcome)
    ensures result == Fine <==> Safe(r)
    ensures result.Unsafe? ==> exists k :: 0 <= k < |r| - 1 && r[k] == result.a && r[k + 1] == result.b
  {
    if |r| < 2 {
      return Fine;
    }
    var direction: Option<Direction> := None;
    var i := 0;
    while i < |r| - 1
      invariant 0 <= i <= |r| - 1
      invariant SafeSoFar(r, i)
      invariant i == 0 <==> direction == None
      invariant i > 0 ==> direction == Some(DirectionOf(Diff(r, 0)))
    {
      var a, b := r[i], r[i + 1];
      var diff := a - b;
      match Sign(diff) {
        case -1 =>
          match direction {
            case Some(Increasing) =>
              Violation(r, i);
              return Unsafe(a, b, SwitchedToIncreasing);
            case Some(Decreasing) =>
              if !InRange(diff) {
                Violation(r, i);
                return Unsafe(a, b, OutOfRange(Abs(diff)));
              }
            case None =>
              if !InRange(diff) {
                Violation(r, i);
                return Unsafe(a, b, OutOfRange(Abs(diff)));
              }
              direction := Some(Decreasing);
          }
        case 1 =>
          match direction {
            case Some(Increasing) =>
              if !InRange(diff) {
                Violation(r, i);
                return Unsafe(a, b, OutOfRange(Abs(diff)));
              }
            case Some(Decreasing) =>
              Violation(r, i);
              return Unsafe(a, b, SwitchedToDecreasing);
            case None =>
              if !InRange(diff) {
                Violation(r, i);
                return Unsafe(a, b, OutOfRange(Abs(diff)));
              }
              direction := Some(Increasing);
          }
        case 0 =>
          Violation(r, i);
          return Unsafe(a, b, NoChange);
      }
      i := i + 1;
    }
    SafeIffSoFar(r);
    return Fine;
  }

  /** 2024/day-02 `process`: the safe reports counted with `check_safety`. */
  method CountSafeReports(reports: seq<Report>) returns (count: nat)
    ensures count == CountSafe(reports)
  {
    count := 0;
    for i := 0 to |reports|
      invariant count == CountSafe(reports[..i])
    {
      var outcome := CheckSafety(reports[i]);
      CountSafeSnoc(reports[..i], reports[i]);
      assert reports[..i + 1] == reports[..i] + [reports[i]];
      if outcome == Fine {
        count := count + 1;
      }
    }
    assert reports[..|reports|] == reports;
  }

  /** The number of safe reports. */
  function CountSafe(reports: seq<Report>): (n: nat)
    ensures n <= |reports|
  {
    if reports == [] then 0 else CountSafe(reports[..|reports| - 1]) + (if Safe(reports[|reports| - 1]) then 1 else 0)
  }

  lemma CountSafeSnoc(reports: seq<Report>, r: Report)
    ensures CountSafe(reports + [r]) == CountSafe(reports) + (if Safe(r) then 1 else 0)
  {
    assert (reports + [r])[..|reports|] == reports;
  }

  // ---------------------------------------------------------------------
  // day-02: `is_safe_report`

  /** `windows(2).map(..).all(..)` from window k on, against the sign `sig` of the first window. */
  predicate AllWindows(r: Report, k: nat, sig: int)
    decreases |r| - k
  {
    k + 1 >= |r| || (InRange(Diff(r, k)) && Sign(Diff(r, k)) == sig && AllWindows(r, k + 1, sig))
  }

  /** `is_safe_report`; the source indexes `input[1]`, so a report needs two levels. */
  predicate IsSafeReport(r: Report)
    requires |r| >= 2
  {
    AllWindows(r, 0, Sign(r[0] - r[1]))
  }

  lemma {:induction false} AllWindowsIff(r: Report, k: nat, sig: int)
    ensures AllWindows(r, k, sig) <==> forall j :: k <= j < |r| - 1 ==> InRange(Diff(r, j)) && Sign(Diff(r, j)) == sig
    decreases |r| - k
  {
    if k + 1 < |r| {
      AllWindowsIff(r, k + 1, sig);
    }
  }

  /** `is_safe_report` decides the rule. */
  lemma IsSafeReportIsSafe(r: Report)
    requires |r| >= 2
    ensures IsSafeReport(r) <==> Safe(r)
  {
    AllWindowsIff(r, 0, Sign(r[0] - r[1]));
    SafeIffSoFar(r);
  }

  /** day-02 `process`: the safe reports counted with `is_safe_report`. */
  function CountSafeWindows(reports: seq<Report>): nat
    requires forall i :: 0 <= i < |reports| ==> |reports[i]| >= 2
  {
    if reports == [] then 0
    else CountSafeWindows(reports[..|reports| - 1]) + (if IsSafeReport(reports[|reports| - 1]) then 1 else 0)
  }

  /** On reports of at least two levels the two solutions give the same count. */
  lemma {:induction false} CountsAgree(reports: seq<Report>)
    requires forall i :: 0 <= i < |reports| ==> |reports[i]| >= 2
    ensures CountSafeWindows(reports) == CountSafe(reports)
  {
    if reports != [] {
      CountsAgree(reports[..|reports| - 1]);
      IsSafeReportIsSafe(reports[|reports| - 1]);
    }
  }

  // ---------------------------------------------------------------------
  // The unit tests

  lemma SampleReports()
    ensures Safe([7, 6, 4, 2, 1]) && Safe([1, 3, 6, 7, 9])
    ensures !Safe([1, 2, 7, 8, 9]) && !Safe([9, 7, 6, 2, 1])
    ensures !Safe([1, 3, 2, 4, 5]) && !Safe([8, 6, 4, 4, 1])
  {
    assert !InRange(Diff([1, 2, 7, 8, 9], 1));
    assert !InRange(Diff([9, 7, 6, 2, 1], 2));
    assert Diff([1, 3, 2, 4, 5], 0) < 0 && Diff([1, 3, 2, 4, 5], 1) > 0;
    assert !InRange(Diff([8, 6, 4, 4, 1], 2));
  }

  lemma SampleCount()
    ensures CountSafe([[7, 6, 4, 2, 1], [1, 2, 7, 8, 9], [9, 7, 6, 2, 1], [1, 3, 2, 4, 5], [8, 6, 4, 4, 1], [1, 3, 6, 7, 9]]) == 2
  {
    SampleReports();
    var a, b, c, d, e, f := [7, 6, 4, 2, 1], [1, 2, 7, 8, 9], [9, 7, 6, 2, 1], [1, 3, 2, 4, 5], [8, 6, 4, 4, 1], [1, 3, 6, 7, 9];
    CountSafeSnoc([], a);
    CountSafeSnoc([a], b);
    CountSafeSnoc([a, b], c);
    CountSafeSnoc([a, b, c], d);
    CountSafeSnoc([a, b, c, d], e);
    CountSafeSnoc([a, b, c, d, e], f);
    assert [] + [a] == [a] && [a] + [b] == [a, b] && [a, b] + [c] == [a, b, c];
    assert [a, b, c] + [d] == [a, b, c, d] && [a, b, c, d] + [e] == [a, b, c, d, e];
    assert [a, b, c, d, e] + [f] == [a, b, c, d, e, f];
  }
}
