/**
 * The 3-bit opcode machine of 2024/day-17/src/part1_2.rs: three word
 * registers, a list of (opcode, operand) pairs, and an interpreter loop that
 * runs until the pair index leaves the program.
 *
 * `Step` and `Run` are the meaning of the program as values; the class
 * `Program` keeps the registers as fields and its `Solve` runs the source's
 * loop over them, proved to produce what `Run` describes.
 */
module OpcodeMachine {
  import opened Bits
  import opened Decimal
  import opened Wrappers

  datatype Instruction = Instruction(opcode: Word, operand: Word)

  datatype Registers = Registers(a: Word, b: Word, c: Word)

  /** The machine between two instructions: registers and the index of the next pair. */
  datatype Machine = Machine(regs: Registers, idx: nat)

  datatype StepResult =
    | Halt                                    // no pair at idx: the loop ends
    | Panic                                   // unknown opcode, or a shift by 64 or more
    | Next(machine: Machine, out: seq<nat>)   // out holds the value emitted by `out`, if any

  /** What a run ends in. */
  datatype Outcome = Halted(regs: Registers, outputs: seq<nat>) | Panicked | OutOfFuel

  /**
   * `combo_operand`: operands 4, 5 and 6 name registers A, B and C; any other
   * operand stands for itself (7 included, which the source does not reject).
   */
  function Combo(regs: Registers, operand: Word): Word
  {
    match operand
    case 4 => regs.a
    case 5 => regs.b
    case 6 => regs.c
    case _ => operand
  }

  /** `a >> k` on a `usize`; a shift by 64 or more panics in a debug build. */
  function Shift(a: Word, k: Word): (r: Option<Word>)
    ensures r.Some? <==> k < 64
    ensures r.Some? ==> r.value == a / Pow2(k)
  {
    if k < 64 then ShiftRightBelow(a, k); ShiftRightIsDivision(a, k); Some(ShiftRight(a, k)) else None
  }

  /** One iteration of the `while let` loop of `solve`. */
  function Step(prog: seq<Instruction>, m: Machine): StepResult
  {
    if m.idx >= |prog| then Halt
    else
      var ins := prog[m.idx];
      var next := m.idx + 1;
      var combo := Combo(m.regs, ins.operand);
      var literal := ins.operand;
      var r := m.regs;
      match ins.opcode
      case 0 => (match Shift(r.a, combo)
                 case Some(v) => Next(Machine(r.(a := v), next), [])
                 case None => Panic)
      case 6 => (match Shift(r.a, combo)
                 case Some(v) => Next(Machine(r.(b := v), next), [])
                 case None => Panic)
      case 7 => (match Shift(r.a, combo)
                 case Some(v) => Next(Machine(r.(c := v), next), [])
                 case None => Panic)
      case 1 => Next(Machine(r.(b := XorWord(r.b, literal)), next), [])
      case 2 => Next(Machine(r.(b := combo % 8), next), [])
      case 3 => if r.a != 0 then Next(Machine(r, literal / 2), []) else Next(Machine(r, next), [])
      case 4 => Next(Machine(r.(b := XorWord(r.b, r.c)), next), [])
      case 5 => Next(Machine(r, next), [combo % 8])
      case _ => Panic
  }

  /** The run from m when at most `fuel` more instructions may execute. */
  function Run(prog: seq<Instruction>, m: Machine, fuel: nat): Outcome
    decreases fuel
  {
    if m.idx >= |prog| then Halted(m.regs, [])
    else if fuel == 0 then OutOfFuel
    else match Step(prog, m)
      case Panic => Panicked
      case Next(m', out) => Emit(out, Run(prog, m', fuel - 1))
  }

  /** Prefix the outputs of a halted run. */
  function Emit(out: seq<nat>, o: Outcome): Outcome
  {
    if o.Halted? then Halted(o.regs, out + o.outputs) else o
  }

  lemma RunStep(prog: seq<Instruction>, m: Machine, fuel: nat)
    requires m.idx < |prog| && fuel > 0 && Step(prog, m).Next?
    ensures Run(prog, m, fuel) == Emit(Step(prog, m).out, Run(prog, Step(prog, m).machine, fuel - 1))
  {
  }

  lemma EmitEmit(a: seq<nat>, b: seq<nat>, o: Outcome)
    ensures Emit(a, Emit(b, o)) == Emit(a + b, o)
  {
    if o.Halted? {
      assert a + (b + o.outputs) == (a + b) + o.outputs;
    }
  }

  /** One executed instruction moves its outputs from the rest of the run to what is already emitted. */
  lemma Advance(prog: seq<Instruction>, whole: Outcome, emitted: seq<nat>, out: seq<nat>, before: Machine, after: Machine, fuel: nat)
    requires before.idx < |prog| && fuel > 0 && Step(prog, before) == Next(after, out)
    requires whole == Emit(emitted, Run(prog, before, fuel))
    ensures whole == Emit(emitted + out, Run(prog, after, fuel - 1))
  {
    RunStep(prog, before, fuel);
    EmitEmit(emitted, out, Run(prog, after, fuel - 1));
  }

  /** The text `solve` returns: each output in decimal, joined by ",". */
  function Join(outputs: seq<nat>): string
  {
    JoinFrom(outputs, 0)
  }

  /** The joined text of `outputs[i..]`. */
  function JoinFrom(outputs: seq<nat>, i: nat): string
    decreases |outputs| - i
  {
    if i >= |outputs| then ""
    else if i == |outputs| - 1 then NatToString(outputs[i])
    else NatToString(outputs[i]) + "," + JoinFrom(outputs, i + 1)
  }

  // ---------------------------------------------------------------------
  // Properties of the instruction set

  /** adv, bdv and cdv divide A by 2^combo, as the instruction documentation says; bdv and cdv keep A. */
  lemma DivisionInstructions(prog: seq<Instruction>, m: Machine)
    requires m.idx < |prog| && prog[m.idx].opcode in {0, 6, 7}
    ensures var combo := Combo(m.regs, prog[m.idx].operand);
      var s := Step(prog, m);
      (combo < 64 <==> s.Next?) &&
      (s.Next? ==>
        var q := m.regs.a / Pow2(combo);
        s.out == [] && s.machine.idx == m.idx + 1 &&
        s.machine.regs == match prog[m.idx].opcode
          case 0 => m.regs.(a := q)
          case 6 => m.regs.(b := q)
          case _ => m.regs.(c := q))
  {
  }

  /** bxl and bxc xor into B bit by bit; bst keeps the low three bits of the combo operand. */
  lemma XorAndStoreInstructions(prog: seq<Instruction>, m: Machine)
    requires m.idx < |prog| && prog[m.idx].opcode in {1, 2, 4}
    ensures var ins := prog[m.idx];
      var s := Step(prog, m);
      s.Next? && s.out == [] && s.machine.idx == m.idx + 1 &&
      s.machine.regs.a == m.regs.a && s.machine.regs.c == m.regs.c &&
      var b := s.machine.regs.b;
      (ins.opcode == 2 ==> b == Combo(m.regs, ins.operand) % 8 && b < 8) &&
      (ins.opcode == 1 ==> forall k: nat :: Bit(b, k) == (Bit(m.regs.b, k) + Bit(ins.operand, k)) % 2) &&
      (ins.opcode == 4 ==> forall k: nat :: Bit(b, k) == (Bit(m.regs.b, k) + Bit(m.regs.c, k)) % 2)
  {
  }

  /** jnz moves to pair literal/2 when A is not zero and to the next pair otherwise; registers are kept. */
  lemma JumpInstruction(prog: seq<Instruction>, m: Machine)
    requires m.idx < |prog| && prog[m.idx].opcode == 3
    ensures var s := Step(prog, m);
      s.Next? && s.out == [] && s.machine.regs == m.regs &&
      s.machine.idx == (if m.regs.a != 0 then prog[m.idx].operand / 2 else m.idx + 1)
  {
  }

  /** The loop ends exactly when the pair index is past the program; opcodes above 7 panic. */
  lemma HaltAndPanic(prog: seq<Instruction>, m: Machine)
    ensures Step(prog, m).Halt? <==> m.idx >= |prog|
    ensures m.idx < |prog| && prog[m.idx].opcode > 7 ==> Step(prog, m).Panic?
  {
  }

  /** Every value a halted run emits is a 3-bit number. */
  lemma {:induction false} OutputsBelowEight(prog: seq<Instruction>, m: Machine, fuel: nat)
    requires Run(prog, m, fuel).Halted?
    ensures forall i :: 0 <= i < |Run(prog, m, fuel).outputs| ==> Run(prog, m, fuel).outputs[i] < 8
    decreases fuel
  {
    if m.idx < |prog| {
      match Step(prog, m)
      case Next(m', out) =>
        OutputsBelowEight(prog, m', fuel - 1);
    }
  }

  /** `jnz 0` alone spins forever when A is not zero: no fuel is ever enough. */
  lemma {:induction false} JumpToSelfSpins(a: Word, b: Word, c: Word, fuel: nat)
    requires a != 0
    ensures Run([Instruction(3, 0)], Machine(Registers(a, b, c), 0), fuel) == OutOfFuel
    decreases fuel
  {
    if fuel > 0 {
      JumpToSelfSpins(a, b, c, fuel - 1);
    }
  }

  /** Each 3-bit output is one digit, at an even position of the joined text, between commas. */
  lemma JoinLayout(outputs: seq<nat>)
    requires forall i :: 0 <= i < |outputs| ==> outputs[i] < 8
    ensures |Join(outputs)| == if outputs == [] then 0 else 2 * |outputs| - 1
    ensures forall j :: 0 <= j < |Join(outputs)| ==>
      Join(outputs)[j] == if j % 2 == 0 then DigitChar(outputs[j / 2]) else ','
  {
    JoinFromLayout(outputs, 0);
  }

  /** s spells outputs[k..] as single digits at even positions with commas between. */
  predicate Spaced(s: string, outputs: seq<nat>, k: nat)
    requires k <= |outputs| && forall i :: k <= i < |outputs| ==> outputs[i] < 8
  {
    |s| == (if k == |outputs| then 0 else 2 * (|outputs| - k) - 1) &&
    forall j :: 0 <= j < |s| ==> s[j] == if j % 2 == 0 then DigitChar(outputs[k + j / 2]) else ','
  }

  lemma {:induction false} JoinFromLayout(outputs: seq<nat>, k: nat)
    requires k <= |outputs|
    requires forall i :: k <= i < |outputs| ==> outputs[i] < 8
    ensures Spaced(JoinFrom(outputs, k), outputs, k)
    decreases |outputs| - k
  {
    if k < |outputs| - 1 {
      JoinFromLayout(outputs, k + 1);
      JoinFromCons(outputs, k);
      LayoutStep(outputs, k, JoinFrom(outputs, k + 1));
    }
  }

  /** One more digit and comma in front keep the layout. */
  lemma LayoutStep(outputs: seq<nat>, k: nat, rest: string)
    requires k + 1 < |outputs| && forall i :: k <= i < |outputs| ==> outputs[i] < 8
    requires Spaced(rest, outputs, k + 1)
    ensures Spaced([DigitChar(outputs[k]), ','] + rest, outputs, k)
  {
    var s := [DigitChar(outputs[k]), ','] + rest;
    assert s[0] == DigitChar(outputs[k]) && s[1] == ',';
    forall j | 2 <= j < |s|
      ensures s[j] == if j % 2 == 0 then DigitChar(outputs[k + j / 2]) else ','
    {
      assert s[j] == rest[j - 2];
      assert (j - 2) / 2 == j / 2 - 1 && (j - 2) % 2 == j % 2;
    }
  }

  /** Reading every other character back as a digit recovers the outputs. */
  function ParseOutputs(s: string): seq<nat>
    decreases |s|
  {
    if s == [] then []
    else (if IsDigit(s[0]) then [DigitValue(s[0])] else []) + (if |s| >= 2 then ParseOutputs(s[2..]) else [])
  }

  lemma JoinRoundTrip(outputs: seq<nat>)
    requires forall i :: 0 <= i < |outputs| ==> outputs[i] < 8
    ensures ParseOutputs(Join(outputs)) == outputs
  {
    JoinFromRoundTrip(outputs, 0);
  }

  lemma {:induction false} JoinFromRoundTrip(outputs: seq<nat>, k: nat)
    requires k <= |outputs|
    requires forall i :: k <= i < |outputs| ==> outputs[i] < 8
    ensures ParseOutputs(JoinFrom(outputs, k)) == outputs[k..]
    decreases |outputs| - k
  {
    if k == |outputs| {
      assert outputs[k..] == [];
    } else if k == |outputs| - 1 {
      LastOutput(outputs[k]);
      assert outputs[k..] == [outputs[k]];
    } else {
      JoinFromRoundTrip(outputs, k + 1);
      JoinFromCons(outputs, k);
      ParseStep(outputs[k], JoinFrom(outputs, k + 1));
      assert outputs[k..] == [outputs[k]] + outputs[k + 1..];
    }
  }

  /** Before the last output, the text is its digit, a comma and the rest. */
  lemma JoinFromCons(outputs: seq<nat>, k: nat)
    requires k + 1 < |outputs| && outputs[k] < 8
    ensures JoinFrom(outputs, k) == [DigitChar(outputs[k]), ','] + JoinFrom(outputs, k + 1)
  {
  }

  /** The last output reads back from its single digit. */
  lemma LastOutput(d: nat)
    requires d < 8
    ensures ParseOutputs(NatToString(d)) == [d]
  {
  }

  /** A digit and a comma in front read back as one more output. */
  lemma ParseStep(d: nat, rest: string)
    requires d < 8
    ensures ParseOutputs([DigitChar(d), ','] + rest) == [d] + ParseOutputs(rest)
  {
    var s := [DigitChar(d), ','] + rest;
    assert s[2..] == rest;
  }

  /** The program of the unit test, `0,1,5,4,3,0`: halve A, print A mod 8, repeat while A is not zero. */
  const Sample: seq<Instruction> := [Instruction(0, 1), Instruction(5, 4), Instruction(3, 0)]

  lemma SampleIteration(x: Word, fuel: nat)
    requires fuel >= 3
    ensures Run(Sample, Machine(Registers(x, 0, 0), 0), fuel) ==
      if x / 2 != 0 then Emit([(x / 2) % 8], Run(Sample, Machine(Registers(x / 2, 0, 0), 0), fuel - 3))
      else Halted(Registers(0, 0, 0), [0])
  {
    ShiftRightIsDivision(x, 1);
    var m1 := Machine(Registers(x / 2, 0, 0), 1);
    var m2 := Machine(Registers(x / 2, 0, 0), 2);
    assert Step(Sample, Machine(Registers(x, 0, 0), 0)) == Next(m1, []);
    assert Step(Sample, m1) == Next(m2, [(x / 2) % 8]);
    var m3 := Machine(Registers(x / 2, 0, 0), if x / 2 != 0 then 0 else 3);
    assert Step(Sample, m2) == Next(m3, []);
    RunStep(Sample, Machine(Registers(x, 0, 0), 0), fuel);
    RunStep(Sample, m1, fuel - 1);
    RunStep(Sample, m2, fuel - 2);
    EmitEmit([(x / 2) % 8], [], Run(Sample, m3, fuel - 3));
  }

  /** What the sample prints from A = x: the low three bits of each successive halving, down to 0. */
  function HalvingDigits(x: nat): (out: seq<nat>)
    ensures |out| >= 1
    decreases x
  {
    if x / 2 == 0 then [0] else [(x / 2) % 8] + HalvingDigits(x / 2)
  }

  /** The sample program halts from any A, printing `HalvingDigits(A)` and leaving every register 0. */
  lemma {:induction false} SampleOutputs(x: Word, fuel: nat)
    requires fuel >= 3 * |HalvingDigits(x)|
    ensures Run(Sample, Machine(Registers(x, 0, 0), 0), fuel) == Halted(Registers(0, 0, 0), HalvingDigits(x))
    decreases x
  {
    SampleIteration(x, fuel);
    if x / 2 != 0 {
      SampleOutputs(x / 2, fuel - 3);
    }
  }

  // ---------------------------------------------------------------------
  // The interpreter as the source writes it

  datatype Answer = Text(s: string) | Crashed | Unfinished

  class Program {
    var registerA: Word
    var registerB: Word
    var registerC: Word
    var instructions: seq<Instruction>

    constructor (a: Word, b: Word, c: Word, instructions: seq<Instruction>)
      ensures registerA == a && registerB == b && registerC == c && this.instructions == instructions
    {
      registerA, registerB, registerC := a, b, c;
      this.instructions := instructions;
    }

    function Regs(): Registers
      reads this
    {
      Registers(registerA, registerB, registerC)
    }

    /**
     * `solve`: run the loop from pair 0, for at most `fuel` instructions, and
     * join the outputs.  The registers are left as the run leaves them.
     */
    method Solve(fuel: nat) returns (answer: Answer)
      modifies this
      ensures instructions == old(instructions)
      ensures match Run(instructions, Machine(old(Regs()), 0), fuel)
        case Halted(regs, outputs) => answer == Text(Join(outputs)) && Regs() == regs
        case Panicked => answer == Crashed
        case OutOfFuel => answer == Unfinished
    {
      ghost var start := Machine(Regs(), 0);
      var idx: nat := 0;
      var outputs: seq<nat> := [];
      var left := fuel;
      while idx < |instructions|
        invariant instructions == old(instructions)
        invariant Run(instructions, start, fuel) == Emit(outputs, Run(instructions, Machine(Regs(), idx), left))
        decreases left
      {
        if left == 0 {
          answer := Unfinished;
          return;
        }
        ghost var before := Machine(Regs(), idx);
        ghost var emitted := outputs;
        var instruction := instructions[idx];
        idx := idx + 1;
        var combo := Combo(Regs(), instruction.operand);
        var literal := instruction.operand;
        match instruction.opcode {
          case 0 =>
            if combo >= 64 { answer := Crashed; return; }
            ShiftRightBelow(registerA, combo);
            registerA := ShiftRight(registerA, combo);
          case 6 =>
            if combo >= 64 { answer := Crashed; return; }
            ShiftRightBelow(registerA, combo);
            registerB := ShiftRight(registerA, combo);
          case 7 =>
            if combo >= 64 { answer := Crashed; return; }
            ShiftRightBelow(registerA, combo);
            registerC := ShiftRight(registerA, combo);
          case 1 => registerB := XorWord(registerB, literal);
          case 2 => registerB := combo % 8;
          case 3 =>
            if registerA != 0 {
              idx := literal / 2;
            }
          case 4 => registerB := XorWord(registerB, registerC);
          case 5 => outputs := outputs + [combo % 8];
          case _ => answer := Crashed; return;
        }
        ghost var out := outputs[|emitted|..];
        assert outputs == emitted + out;
        assert Step(instructions, before) == Next(Machine(Regs(), idx), out);
        Advance(instructions, Run(instructions, start, fuel), emitted, out, before, Machine(Regs(), idx), left);
        left := left - 1;
      }
      assert outputs + [] == outputs;
      answer := Text(Join(outputs));
    }
  }
  /** Running the sample program from A = x, with enough fuel, prints `HalvingDigits(x)`. */
  method RunSample(x: Word) returns (answer: Answer)
    ensures answer == Text(Join(HalvingDigits(x)))
  {
    var program := new Program(x, 0, 0, Sample);
    SampleOutputs(x, 3 * |HalvingDigits(x)|);
    answer := program.Solve(3 * |HalvingDigits(x)|);
  }

  /** The unit test: A = 729 prints "4,6,3,5,6,3,5,2,1,0". */
  lemma SampleText()
    ensures Join(HalvingDigits(729)) == "4,6,3,5,6,3,5,2,1,0"
  {
    SampleDigits();
    SampleJoin(HalvingDigits(729));
  }

  lemma SampleDigits()
    ensures HalvingDigits(729) == [4, 6, 3, 5, 6, 3, 5, 2, 1, 0]
  {
  }

  lemma SampleJoin(o: seq<nat>)
    requires o == [4, 6, 3, 5, 6, 3, 5, 2, 1, 0]
    ensures Join(o) == "4,6,3,5,6,3,5,2,1,0"
  {
    SampleJoinHead(o);
    SampleJoinMiddle(o);
    SampleJoinTail(o);
  }

  lemma SampleJoinHead(o: seq<nat>)
    requires o == [4, 6, 3, 5, 6, 3, 5, 2, 1, 0]
    ensures JoinFrom(o, 0) == "4,6," + JoinFrom(o, 2)
  {
    assert JoinFrom(o, 1) == "6," + JoinFrom(o, 2);
  }

  lemma SampleJoinMiddle(o: seq<nat>)
    requires o == [4, 6, 3, 5, 6, 3, 5, 2, 1, 0]
    ensures JoinFrom(o, 2) == "3,5,6," + JoinFrom(o, 5)
  {
    assert JoinFrom(o, 4) == "6," + JoinFrom(o, 5);
    assert JoinFrom(o, 3) == "5,6," + JoinFrom(o, 5);
  }

  lemma SampleJoinTail(o: seq<nat>)
    requires o == [4, 6, 3, 5, 6, 3, 5, 2, 1, 0]
    ensures JoinFrom(o, 5) == "3,5,2,1,0"
  {
    assert JoinFrom(o, 9) == "0";
    assert JoinFrom(o, 8) == "1,0";
    assert JoinFrom(o, 7) == "2,1,0";
    assert JoinFrom(o, 6) == "5,2,1,0";
  }
}
