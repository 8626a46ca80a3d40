/**
 * 2015/day-06 part 1: a grid of lights that are on or off, stored row by
 * row in one buffer.  Each instruction turns a rectangle on, off, or
 * toggles it; the answer is the number of lights left on.
 */
module LightGrid {
  import opened GridRegion

  datatype Instruction = TurnOn(start: Point, end: Point) | TurnOff(start: Point, end: Point) | Toggle(start: Point, end: Point)

  /** The operation `apply_instruction` hands to `apply_to_region`. */
  function Operation(ins: Instruction): bool -> bool
  {
    match ins
    case TurnOn(_, _) => (b: bool) => true
    case TurnOff(_, _) => (b: bool) => false
    case Toggle(_, _) => (b: bool) => !b
  }

  /** The lights after one instruction. */
  function Execute(s: seq<bool>, width: nat, ins: Instruction): seq<bool>
  {
    Applied(s, width, ins.start, ins.end, Operation(ins))
  }

  /** The lights after every instruction in order. */
  function ExecuteAll(s: seq<bool>, width: nat, instructions: seq<Instruction>): seq<bool>
    decreases |instructions|
  {
    if instructions == [] then s
    else ExecuteAll(Execute(s, width, instructions[0]), width, instructions[1..])
  }

  /** The number of lights that are on. */
  function Lit(s: seq<bool>): (n: nat)
    ensures n <= |s|
  {
    if s == [] then 0 else Lit(s[..|s| - 1]) + (if s[|s| - 1] then 1 else 0)
  }

  class Grid {
    var lights: array<bool>
    const width: nat
    const height: nat

    ghost predicate Valid()
      reads this
    {
      lights.Length == width * height
    }

    /** `Grid::new`: width * height lights, all off. */
    constructor(width: nat, height: nat)
      ensures Valid() && fresh(lights)
      ensures this.width == width && this.height == height
      ensures forall i :: 0 <= i < lights.Length ==> !lights[i]
    {
      this.width := width;
      this.height := height;
      lights := new bool[width * height](i => false);
    }

    /** `get_index`: row-major position of column x in row y. */
    function GetIndex(x: nat, y: nat): (i: nat)
      ensures x < width ==> i % width == x && i / width == y
      ensures x < width && y < height ==> i < width * height
    {
      IndexFacts(width, height, x, y);
      Index(width, x, y)
    }

    /** `apply_to_region`: op on every light of the inclusive rectangle, row by row. */
    method ApplyToRegion(start: Point, end: Point, op: bool -> bool)
      requires Valid() && Fits(width, height, start, end)
      modifies lights
      ensures lights[..] == Applied(old(lights[..]), width, start, end, op)
    {
      var y := start.y;
      AppliedNone(lights[..], width, start, end, op);
      while y <= end.y
        invariant start.y <= y && (start.y <= end.y ==> y <= end.y + 1)
        invariant AppliedUpTo(lights[..], old(lights[..]), width, start, end, op, 0, y)
      {
        var x := start.x;
        RowStart(lights[..], old(lights[..]), width, start, end, op, y);
        while x <= end.x
          invariant start.x <= x && (start.x <= end.x ==> x <= end.x + 1)
          invariant AppliedUpTo(lights[..], old(lights[..]), width, start, end, op, x, y)
        {
          var idx := GetIndex(x, y);
          AppliedStep(lights[..], old(lights[..]), width, height, start, end, op, x, y);
          ghost var before := lights[..];
          lights[idx] := op(lights[idx]);
          assert lights[..] == before[idx := op(before[idx])];
          x := x + 1;
        }
        RowDone(lights[..], old(lights[..]), width, start, end, op, x, y);
        y := y + 1;
      }
      if start.y <= end.y {
        RowsDone(lights[..], old(lights[..]), width, start, end, op, y);
      } else {
        assert lights[..] == Applied(old(lights[..]), width, start, end, op);
      }
    }

    /** `apply_instruction`. */
    method ApplyInstruction(ins: Instruction)
      requires Valid() && Fits(width, height, ins.start, ins.end)
      modifies lights
      ensures lights[..] == Execute(old(lights[..]), width, ins)
    {
      match ins
      case TurnOn(start, end) => ApplyToRegion(start, end, (b: bool) => true);
      case TurnOff(start, end) => ApplyToRegion(start, end, (b: bool) => false);
      case Toggle(start, end) => ApplyToRegion(start, end, (b: bool) => !b);
    }

    /** `count_lit`: the lights that are on, never more than the grid holds. */
    function CountLit(): (n: nat)
      requires Valid()
      reads this, lights
      ensures n <= width * height
    {
      Lit(lights[..])
    }
  }

  /** `process`: a 1000 by 1000 grid, every instruction in order, then the count. */
  method Process(instructions: seq<Instruction>) returns (count: nat)
    requires forall k :: 0 <= k < |instructions| ==> Fits(1000, 1000, instructions[k].start, instructions[k].end)
    ensures count == Lit(ExecuteAll(seq(1000 * 1000, i => false), 1000, instructions))
  {
    var grid := new Grid(1000, 1000);
    assert grid.lights[..] == seq(1000 * 1000, i => false);
    for k := 0 to |instructions|
      invariant grid.Valid() && grid.width == 1000 && grid.height == 1000 && fresh(grid.lights)
      invariant ExecuteAll(grid.lights[..], 1000, instructions[k..])
        == ExecuteAll(seq(1000 * 1000, i => false), 1000, instructions)
    {
      assert instructions[k..][1..] == instructions[k + 1..];
      grid.ApplyInstruction(instructions[k]);
    }
    assert instructions[|instructions|..] == [];
    count := grid.CountLit();
  }

  // ---------------------------------------------------------------------
  // Properties of one instruction

  /** Toggling the same rectangle twice restores every light. */
  lemma ToggleTwice(s: seq<bool>, width: nat, start: Point, end: Point)
    ensures Execute(Execute(s, width, Toggle(start, end)), width, Toggle(start, end)) == s
  {
  }

  /** Turning on, or off, twice is the same as once. */
  lemma OnOffIdempotent(s: seq<bool>, width: nat, start: Point, end: Point)
    ensures Execute(Execute(s, width, TurnOn(start, end)), width, TurnOn(start, end)) == Execute(s, width, TurnOn(start, end))
    ensures Execute(Execute(s, width, TurnOff(start, end)), width, TurnOff(start, end)) == Execute(s, width, TurnOff(start, end))
  {
  }

  /** Lights that differ only on covered cells, where a is on and b is off, differ in count by the covered number. */
  lemma {:induction false} LitCellwise(a: seq<bool>, b: seq<bool>, width: nat, start: Point, end: Point, n: nat)
    requires |a| == |b| && n <= |a|
    requires forall i :: 0 <= i < |a| ==> if Covers(width, start, end, i) then a[i] && !b[i] else a[i] == b[i]
    ensures Lit(a[..n]) == Lit(b[..n]) + CoveredBelow(width, start, end, n)
  {
    if n > 0 {
      LitCellwise(a, b, width, start, end, n - 1);
      assert a[..n][..n - 1] == a[..n - 1];
      assert b[..n][..n - 1] == b[..n - 1];
    }
  }

  /** After turning a rectangle on there are exactly its area more lights on than after turning it off. */
  lemma OnMinusOff(s: seq<bool>, width: nat, height: nat, start: Point, end: Point)
    requires |s| == width * height && Fits(width, height, start, end)
    ensures Lit(Execute(s, width, TurnOn(start, end))) == Lit(Execute(s, width, TurnOff(start, end))) + Area(start, end)
  {
    var on := Execute(s, width, TurnOn(start, end));
    var off := Execute(s, width, TurnOff(start, end));
    LitCellwise(on, off, width, start, end, |s|);
    assert on[..|s|] == on && off[..|s|] == off;
    CoveredArea(width, height, start, end);
  }

  /** Turning a rectangle on in a dark grid lights exactly its area. */
  lemma OnInDarkGrid(width: nat, height: nat, start: Point, end: Point)
    requires Fits(width, height, start, end)
    ensures Lit(Execute(seq(width * height, i => false), width, TurnOn(start, end))) == Area(start, end)
  {
    var dark := seq(width * height, i => false);
    OnMinusOff(dark, width, height, start, end);
    var off := Execute(dark, width, TurnOff(start, end));
    assert off == dark;
    NoneLit(dark);
  }

  lemma {:induction false} NoneLit(s: seq<bool>)
    requires forall i :: 0 <= i < |s| ==> !s[i]
    ensures Lit(s) == 0
  {
    if s != [] {
      NoneLit(s[..|s| - 1]);
    }
  }
}
