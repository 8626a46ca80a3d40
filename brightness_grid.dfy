/**
 * 2015/day-06 part 2: the same grid, but every light has a brightness.
 * Turning on adds one, turning off takes one away but never below zero,
 * toggling adds two; the answer is the total brightness.
 */
module BrightnessGrid {
  import opened GridRegion

  datatype Instruction = TurnOn(start: Point, end: Point) | TurnOff(start: Point, end: Point) | Toggle(start: Point, end: Point)

  /** The operation `apply_instruction` hands to `apply_to_region`. */
  function Operation(ins: Instruction): nat -> nat
  {
    match ins
    case TurnOn(_, _) => (b: nat) => b + 1
    case TurnOff(_, _) => (b: nat) => SaturatingDecrement(b)
    case Toggle(_, _) => (b: nat) => b + 2
  }

  /** `saturating_sub(1)`. */
  function SaturatingDecrement(b: nat): (r: nat)
    ensures b == 0 ==> r == 0
    ensures b > 0 ==> r + 1 == b
  {
    if b == 0 then 0 else b - 1
  }

  /** The lights after one instruction. */
  function Execute(s: seq<nat>, width: nat, ins: Instruction): seq<nat>
  {
    Applied(s, width, ins.start, ins.end, Operation(ins))
  }

  /** The lights after every instruction in order. */
  function ExecuteAll(s: seq<nat>, width: nat, instructions: seq<Instruction>): seq<nat>
    decreases |instructions|
  {
    if instructions == [] then s
    else ExecuteAll(Execute(s, width, instructions[0]), width, instructions[1..])
  }

  /** The total brightness. */
  function Total(s: seq<nat>): nat
  {
    if s == [] then 0 else Total(s[..|s| - 1]) + s[|s| - 1]
  }

  class Grid {
    var lights: array<nat>
    const width: nat
    const height: nat

    ghost predicate Valid()
      reads this
    {
      lights.Length == width * height
    }

    /** `Grid::new`: width * height lights, all at brightness 0. */
    constructor(width: nat, height: nat)
      ensures Valid() && fresh(lights)
      ensures this.width == width && this.height == height
      ensures forall i :: 0 <= i < lights.Length ==> lights[i] == 0
    {
      this.width := width;
      this.height := height;
      lights := new nat[width * height](i => 0);
    }

    /** `get_index`: row-major position of column x in row y. */
    function GetIndex(x: nat, y: nat): (i: nat)
      ensures x < width ==> i % width == x && i / width == y
      ensures x < width && y < height ==> i < width * height
    {
      IndexFacts(width, height, x, y);
      Index(width, x, y)
    }

    /** `apply_to_region`: op on every light of the inclusive rectangle, row by row. */
    method ApplyToRegion(start: Point, end: Point, op: nat -> nat)
      requires Valid() && Fits(width, height, start, end)
      modifies lights
      ensures lights[..] == Applied(old(lights[..]), width, start, end, op)
    {
      var y := start.y;
      AppliedNone(lights[..], width, start, end, op);
      while y <= end.y
        invariant start.y <= y && (start.y <= end.y ==> y <= end.y + 1)
        invariant AppliedUpTo(lights[..], old(lights[..]), width, start, end, op, 0, y)
      {
        var x := start.x;
        RowStart(lights[..], old(lights[..]), width, start, end, op, y);
        while x <= end.x
          invariant start.x <= x && (start.x <= end.x ==> x <= end.x + 1)
          invariant AppliedUpTo(lights[..], old(lights[..]), width, start, end, op, x, y)
        {
          var idx := GetIndex(x, y);
          AppliedStep(lights[..], old(lights[..]), width, height, start, end, op, x, y);
          ghost var before := lights[..];
          lights[idx] := op(lights[idx]);
          assert lights[..] == before[idx := op(before[idx])];
          x := x + 1;
        }
        RowDone(lights[..], old(lights[..]), width, start, end, op, x, y);
        y := y + 1;
      }
      if start.y <= end.y {
        RowsDone(lights[..], old(lights[..]), width, start, end, op, y);
      } else {
        assert lights[..] == Applied(old(lights[..]), width, start, end, op);
      }
    }

    /** `apply_instruction`. */
    method ApplyInstruction(ins: Instruction)
      requires Valid() && Fits(width, height, ins.start, ins.end)
      modifies lights
      ensures lights[..] == Execute(old(lights[..]), width, ins)
    {
      match ins
      case TurnOn(start, end) => ApplyToRegion(start, end, (b: nat) => b + 1);
      case TurnOff(start, end) => ApplyToRegion(start, end, (b: nat) => SaturatingDecrement(b));
      case Toggle(start, end) => ApplyToRegion(start, end, (b: nat) => b + 2);
    }

    /** `count_lit`: the sum of every brightness. */
    function CountLit(): nat
      requires Valid()
      reads this, lights
    {
      Total(lights[..])
    }
  }

  /** `process`: a 1000 by 1000 grid, every instruction in order, then the count. */
  method Process(instructions: seq<Instruction>) returns (count: nat)
    requires forall k :: 0 <= k < |instructions| ==> Fits(1000, 1000, instructions[k].start, instructions[k].end)
    ensures count == Total(ExecuteAll(seq(1000 * 1000, i => 0), 1000, instructions))
  {
    var grid := new Grid(1000, 1000);
    assert grid.lights[..] == seq(1000 * 1000, i => 0);
    for k := 0 to |instructions|
      invariant grid.Valid() && grid.width == 1000 && grid.height == 1000 && fresh(grid.lights)
      invariant ExecuteAll(grid.lights[..], 1000, instructions[k..])
        == ExecuteAll(seq(1000 * 1000, i => 0), 1000, instructions)
    {
      assert instructions[k..][1..] == instructions[k + 1..];
      grid.ApplyInstruction(instructions[k]);
    }
    assert instructions[|instructions|..] == [];
    count := grid.CountLit();
  }

  // ---------------------------------------------------------------------
  // Properties of one instruction

  /** Brightness that grows by k on covered cells and nowhere else grows in total by k per covered cell. */
  lemma {:induction false} TotalCellwise(a: seq<nat>, b: seq<nat>, k: nat, width: nat, start: Point, end: Point, n: nat)
    requires |a| == |b| && n <= |a|
    requires forall i :: 0 <= i < |a| ==> a[i] == if Covers(width, start, end, i) then b[i] + k else b[i]
    ensures Total(a[..n]) == Total(b[..n]) + k * CoveredBelow(width, start, end, n)
  {
    if n > 0 {
      TotalCellwise(a, b, k, width, start, end, n - 1);
      assert a[..n][..n - 1] == a[..n - 1];
      assert b[..n][..n - 1] == b[..n - 1];
      var c := if Covers(width, start, end, n - 1) then 1 else 0;
      assert k * (CoveredBelow(width, start, end, n - 1) + c) == k * CoveredBelow(width, start, end, n - 1) + k * c;
    }
  }

  /** Adding k to every covered cell adds k times the area to the total. */
  lemma AddedTotal(s: seq<nat>, a: seq<nat>, k: nat, width: nat, height: nat, start: Point, end: Point)
    requires |s| == width * height && Fits(width, height, start, end)
    requires |a| == |s| && forall i :: 0 <= i < |a| ==> a[i] == if Covers(width, start, end, i) then s[i] + k else s[i]
    ensures Total(a) == Total(s) + k * Area(start, end)
  {
    TotalCellwise(a, s, k, width, start, end, |s|);
    assert a[..|s|] == a && s[..|s|] == s;
    CoveredArea(width, height, start, end);
  }

  /** Turning a rectangle on adds its area to the total brightness. */
  lemma OnTotal(s: seq<nat>, width: nat, height: nat, start: Point, end: Point)
    requires |s| == width * height && Fits(width, height, start, end)
    ensures Total(Execute(s, width, TurnOn(start, end))) == Total(s) + Area(start, end)
  {
    AddedTotal(s, Execute(s, width, TurnOn(start, end)), 1, width, height, start, end);
  }

  /** Toggling a rectangle adds twice its area to the total brightness. */
  lemma ToggleTotal(s: seq<nat>, width: nat, height: nat, start: Point, end: Point)
    requires |s| == width * height && Fits(width, height, start, end)
    ensures Total(Execute(s, width, Toggle(start, end))) == Total(s) + 2 * Area(start, end)
  {
    AddedTotal(s, Execute(s, width, Toggle(start, end)), 2, width, height, start, end);
  }

  /** Turning off undoes turning on; brightness never drops below zero. */
  lemma OffUndoesOn(s: seq<nat>, width: nat, start: Point, end: Point)
    ensures Execute(Execute(s, width, TurnOn(start, end)), width, TurnOff(start, end)) == s
  {
    var on := Execute(s, width, TurnOn(start, end));
    var back := Execute(on, width, TurnOff(start, end));
    forall i | 0 <= i < |s|
      ensures back[i] == s[i]
    {
      if Covers(width, start, end, i) {
        assert on[i] == s[i] + 1;
      }
    }
  }

  /** Turning off never raises the total. */
  lemma {:induction false} OffLowers(a: seq<nat>, width: nat, start: Point, end: Point, n: nat)
    requires n <= |a|
    ensures Total(Execute(a, width, TurnOff(start, end))[..n]) <= Total(a[..n])
  {
    if n > 0 {
      OffLowers(a, width, start, end, n - 1);
      var off := Execute(a, width, TurnOff(start, end));
      assert off[..n][..n - 1] == off[..n - 1];
      assert a[..n][..n - 1] == a[..n - 1];
    }
  }
}
