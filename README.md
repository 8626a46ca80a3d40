# Advent of Code 2015 and 2024 solutions, modelled in Dafny

This project models the puzzle solutions of an Advent of Code repository
written in Rust. Each day's `process` parses the puzzle text and runs a small
algorithm over it. The model takes the parsed values (instruction lists,
grids, number lists, gates, reindeer, ingredients) as inputs. It states each
algorithm in the form its Rust code has:

- Iterator pipelines and recursion become functions.
- Loops that update variables become methods with loop invariants.
- Objects whose methods update their fields become classes: the light grids,
  the opcode machine, the password, the route map, the seating arrangement
  and the reindeer race.

Each modelled operation is then related by lemmas to a partner: an independent
description of what the puzzle asks, an inverse, or an invariant it keeps. The
"states" column of the table below says, member by member, what is proved.

One Dafny file models one source file, or the two parts of one day:

| file | day | models |
|---|---|---|
| floors.dfy | 2015 day 1 | floor counter and first basement position |
| ribbon.dfy | 2015 day 2 | presents: volume, smallest perimeter, ribbon |
| two_walkers.dfy | 2015 day 3 | Santa and Robo-Santa visiting houses in turn |
| nice_strings.dfy | 2015 day 5 | the two window rules for nice strings |
| light_grid.dfy, brightness_grid.dfy, grid_region.dfy | 2015 day 6 | the 1000 by 1000 light grid, on/off and brightness |
| escape_length.dfy | 2015 day 8 | string literal lengths, decoding and re-encoding |
| routes.dfy | 2015 day 9 | longest route through all cities |
| look_and_say.dfy | 2015 day 10 | look-and-say sequence |
| password.dfy | 2015 day 11 | next valid password |
| json_sum.dfy | 2015 day 12 | JSON numbers, ignoring objects with "red" |
| seating.dfy | 2015 day 13 | optimal seating around a table |
| reindeer_race.dfy | 2015 day 14 | reindeer distances and the points race |
| recipes.dfy | 2015 day 15 | best cookie score at 500 calories |
| report_safety.dfy | 2024 day 2 | safe reactor reports |
| xmas_search.dfy | 2024 day 4 | XMAS in eight directions |
| guard_patrol.dfy, guard_loops.dfy | 2024 day 6 | guard patrol and loop-making obstructions |
| antinodes.dfy | 2024 day 8 | antenna antinodes |
| block_compaction.dfy, file_compaction.dfy | 2024 day 9 | disk compaction, by block and by whole file |
| trail_search.dfy | 2024 day 10 | trailhead scores |
| stones.dfy | 2024 day 11 | blinking stones, 25 and 75 blinks |
| adjacency.dfy, garden_groups.dfy, garden_sides.dfy | 2024 day 12 | garden regions, perimeter and sides |
| claw_machine.dfy | 2024 day 13 | claw machine token cost |
| robot_quadrants.dfy, robot_tree.dfy | 2024 day 14 | robots on a torus: safety factor and the tree search |
| opcode_machine.dfy, seed_search.dfy | 2024 day 17 | three-bit computer and the search for its seed |
| towel_designs.dfy | 2024 day 19 | towel designs: possible and arrangement count |
| keypad.dfy | 2024 day 21 | chained keypad robots |
| monkey_market.dfy | 2024 day 22 | monkey market secrets and best price sequence |
| gate_flags.dfy | 2024 day 24 | miswired adder gates |

`wrappers.dfy` (Option), `bits.dfy` (powers of two, bitwise exclusive or,
shifts) and `decimal.dfy` (decimal digits and their text) are shared helpers.

Conventions:

- Rust's `usize` and `u32` are modelled as unbounded naturals. Where the
  width matters it is written out: 64-bit shifts in day 17, the 24-bit prune
  in day 22, and the `as usize` wrap in day 13.
- Where the source iterates a `HashMap` or `HashSet`, the model either fixes
  one order or proves that the answer does not depend on it.
- Loops that need not end take a `fuel` bound. The methods report `None`
  when it runs out.

## Model

| member | source | states |
|---|---|---|
| OpcodeMachine.Shift | 2024/day-17/src/part1_2.rs:79-87 | `a >> k` is defined exactly when k < 64 and then equals a divided by 2^k |
| OpcodeMachine.RunStep | 2024/day-17/src/part1_2.rs:71-101 | a run from a pair that steps normally is that step's output followed by the run from the next machine |
| OpcodeMachine.DivisionInstructions | 2024/day-17/src/part1_2.rs:79-87 | adv, bdv and cdv store A / 2^combo into A, B or C respectively and leave the other registers alone; the pair index advances by one |
| OpcodeMachine.XorAndStoreInstructions | 2024/day-17/src/part1_2.rs:88-95 | bxl xors the literal into B, bst stores the combo operand mod 8, bxc xors C into B; A and C are kept |
| OpcodeMachine.JumpInstruction | 2024/day-17/src/part1_2.rs:90-94 | jnz moves to pair literal/2 when A is non-zero and to the next pair otherwise, keeping every register |
| OpcodeMachine.HaltAndPanic | 2024/day-17/src/part1_2.rs:71-99 | the loop stops exactly when the pair index is past the end of the program; an opcode above 7 panics |
| OpcodeMachine.OutputsBelowEight | 2024/day-17/src/part1_2.rs:96-98 | every value a halted run outputs is below 8 |
| OpcodeMachine.JumpToSelfSpins | 2024/day-17/src/part1_2.rs:71-94 | the one-pair program `jnz 0` never halts while A is non-zero, however much fuel is given |
| OpcodeMachine.JoinLayout | 2024/day-17/src/part1_2.rs:103-107 | joining 3-bit outputs gives 2n-1 characters: digit k at position 2k and commas in between |
| OpcodeMachine.JoinRoundTrip | 2024/day-17/src/part1_2.rs:103-107 | reading every other character of the joined text back as a digit gives the outputs again |
| OpcodeMachine.SampleOutputs | 2024/day-17/src/part1_2.rs:119-124 | the test program `0,1,5,4,3,0` halts from any A, printing the low three bits of each successive halving of A, and leaves every register 0 |
| OpcodeMachine.Program.constructor | 2024/day-17/src/part1_2.rs:50-55 | the program holds the three registers and the instruction pairs it is given |
| OpcodeMachine.Program.Solve | 2024/day-17/src/part1_2.rs:67-110 | the answer is the joined output list of the run, a panic or out-of-fuel exactly as the run ends; the registers end as the run leaves them |
| OpcodeMachine.RunSample | 2024/day-17/src/part1_2.rs:117-126 | running the test program from A = x prints the joined halving digits of x |
| OpcodeMachine.SampleText | 2024/day-17/src/part1_2.rs:119-124 | from A = 729 the test program prints "4,6,3,5,6,3,5,2,1,0" |
| OpcodeMachine.Step | 2024/day-17/src/part1_2.rs:71-99 | one instruction; HaltAndPanic shows it halts exactly past the program's end and panics on an opcode above 7, DivisionInstructions / XorAndStoreInstructions / JumpInstruction what each opcode does |
| OpcodeMachine.Run | 2024/day-17/src/part1_2.rs:67-101 | the program run with fuel; RunStep shows it is the step's output followed by the rest of the run, OutputsBelowEight that every output is below 8, and SampleOutputs its outputs on the sample program |
| SeedSearch.InsertOneAtIndex | day-17/src/part2.rs:168-174 | bits below the index stay, the index bit becomes 1, the bits from the index up move one place higher and bit 63 falls off |
| SeedSearch.InsertZeroAtIndex | day-17/src/part2.rs:175-181 | the same with a 0 put in at the index |
| SeedSearch.InsertExamples | day-17/src/part2.rs:258-275 | inserting at bit 2 of 0b1001011101 gives 0b10010111101 (a one) and 0b10010111001 (a zero) |
| SeedSearch.SortByIndex | day-17/src/part2.rs:225 | the result is a rearrangement of its input sorted by bit index, strictly sorted when no index repeats |
| SeedSearch.ScanBits | day-17/src/part2.rs:195-209 | collects exactly the bits every number sets (strictly ascending) and exactly the bits every number clears (ascending) |
| SeedSearch.DropTopZeroes | day-17/src/part2.rs:211-219 | from the descending list of common zeros, keeps exactly those below the highest bit any number sets, still descending |
| SeedSearch.CommonBitIndices | day-17/src/part2.rs:189-227 | (i, One) is in the result iff every number sets bit i; (i, Zero) iff every number clears bit i and some number sets a higher bit; strictly sorted by index |
| SeedSearch.IncreasingUnique | day-17/src/part2.rs:225-226 | two strictly index-sorted lists with the same entries are equal, so the sorted result is determined by its entries |
| SeedSearch.ExampleTopBit | day-17/src/part2.rs:247 | bit 7 is the highest bit any of 0b101, 0b10010101 and 0b1111101 sets |
| SeedSearch.CommonBitsExample | day-17/src/part2.rs:245-256 | the common bits of 0b101, 0b10010101 and 0b1111101 are exactly [(0, One), (1, Zero), (2, One)] |
| SeedSearch.CommonPrefixIs | day-17/src/part2.rs:100-111 | the length of the longest common prefix of two lists: the prefixes agree and the next elements differ |
| SeedSearch.MatchBound | day-17/src/part2.rs:107-109 | the matched count never exceeds the expected list's length, so the branch for a count past the end is dead |
| SeedSearch.MatchAgreesWithRun | day-17/src/part2.rs:66-118 | when the part-1 run halts, the matching run counts exactly the common prefix of its outputs and the rest of the expected list |
| SeedSearch.ReproducesIffPrefix | day-17/src/part2.rs:152-158 | a halting run matches every expected value exactly when its outputs begin with the expected list |
| SeedSearch.Pairs | day-17/src/part2.rs:42-45 | splits the flat number list into consecutive (opcode, operand) pairs |
| SeedSearch.Program.constructor | day-17/src/part2.rs:27-55 | registers from the first three numbers, B and C remembered, and the rest kept both as instruction pairs and as the expected output |
| SeedSearch.Program.Solve | day-17/src/part2.rs:66-118 | the outcome is the matching run from pair 0 on the current registers; after a match the registers are those the run leaves |
| SeedSearch.Program.Reset | day-17/src/part2.rs:120-123 | B and C go back to their original values; A and the program are kept |
| SeedSearch.ApplyBits | day-17/src/part2.rs:139-148 | puts the guaranteed bits into a candidate in list order |
| SeedSearch.ApplyAllKeepsBits | day-17/src/part2.rs:139-148 | every guaranteed bit ends up in the candidate with its value when the bits are sorted by index |
| SeedSearch.ApplyAllKeepsBelow | day-17/src/part2.rs:139-148 | inserting bits strictly above position k leaves bit k of the candidate alone |
| SeedSearch.Process | day-17/src/part2.rs:126-166 | any answer other than "No Result" is the program length, reached by a candidate whose run reproduces the whole program; a program of at most one number answers "No Result" |
| Adjacency.DirsAreNeighbours | 2024/day-12/src/part1.rs:7-14 | the four directions of `dirs()` reach exactly the orthogonal neighbours of a cell |
| Adjacency.LinkedReverse | 2024/day-12/src/part1.rs:65-80 | being joined by a walk through the plot is symmetric |
| Adjacency.LinkedTrans | 2024/day-12/src/part1.rs:65-80 | walks through the plot compose: being joined is transitive |
| Adjacency.PathStaysIn | 2024/day-12/src/part1.rs:65-80 | a walk that starts inside a part of the plot with no step leading out never leaves it |
| Adjacency.ComponentProps | 2024/day-12/src/part1.rs:65-80 | the region of a cell holds the cell, lies in the plot, is connected within itself and has no step leading out |
| Adjacency.ComponentIs | 2024/day-12/src/part1.rs:65-80 | any connected part of the plot holding the cell and closed against steps out is exactly its region |
| Adjacency.ComponentSame | 2024/day-12/src/part1.rs:51-63 | every cell of a region has that same region |
| Adjacency.RemoveClosed | 2024/day-12/src/part1.rs:51-63 | taking a closed part out of the plot leaves the regions of the other cells unchanged |
| Adjacency.FloodStep | 2024/day-12/src/part1.rs:76-78 | flooding the neighbour in one direction over what is left adds that neighbour's region and keeps the flood connected |
| Adjacency.FloodDone | 2024/day-12/src/part1.rs:71-80 | once all four directions are flooded, the flooded cells are exactly the region of the start cell |
| GardenGroups.CollectGroups | 2024/day-12/src/part1.rs:65-80 | removes from the map exactly the region of plant c around pos (nothing when pos holds another plant or none) and appends its cells to the group once each, pos first |
| GardenGroups.SplitIntoGroups | 2024/day-12/src/part1.rs:51-63 | every group lists, once each, the cells of one region, and together the groups hold every cell of the garden exactly once |
| GardenGroups.Process | 2024/day-12/src/part1.rs:16-37 | the price is size times perimeter summed over a partition of the garden into its regions |
| GardenGroups.PerimeterBound | 2024/day-12/src/part1.rs:39-49 | a region's perimeter is at most four per cell |
| GardenGroups.Perimeter | 2024/day-12/src/part1.rs:39-49 | the number of exposed cell sides of a region; PerimeterBound shows it is at most four per cell |
| GardenSides.FenceMembers | day-12/src/part2.rs:39-48 | the fence parts are exactly the (cell, direction) pairs whose neighbour lies outside the group |
| GardenSides.FencePartsDistinct | day-12/src/part2.rs:39-48 | a group without repeated cells has no repeated fence parts |
| GardenSides.FencePartsCount | day-12/src/part2.rs:39-48 | there are as many fence parts as the part-1 perimeter counts |
| GardenSides.Position | day-12/src/part2.rs:62-64 | `position` finds the first index holding the part, and None exactly when the part is absent |
| GardenSides.ReduceFence | day-12/src/part2.rs:59-70 | only parts facing the same direction are removed; on a list without repeats, the removed cells with the part's own cell form the part's connected side |
| GardenSides.GetFence | day-12/src/part2.rs:39-57 | the count is at most the number of fence parts, and for a group without repeated cells it is exactly the number of sides |
| GardenSides.FenceDone | day-12/src/part2.rs:52-56 | when every part has been popped, one side was counted per pop, and each side was counted once |
| GardenSides.Process | day-12/src/part2.rs:16-37 | the price is size times number of sides over a partition of the garden into regions, never above the part-1 price |
| GardenSides.PriceBySides | day-12/src/part2.rs:31-34 | size times `get_fence` summed over the groups, never above the part-1 price of the same groups |
| GridRegion.Applied | 2015/day-06/src/part1.rs:54-64 | one instruction applies the operation to every cell of its rectangle and leaves the other cells alone |
| GridRegion.IndexFacts | 2015/day-06/src/part1.rs:42-44 | `get_index` is inverted by mod and div of the width, and every cell of the grid has its index inside the buffer |
| GridRegion.CoveredArea | 2015/day-06/src/part1.rs:54-64 | a rectangle that fits in the grid covers exactly its area of cells |
| LightGrid.Lit | 2015/day-06/src/part1.rs:66-68 | the number of lights that are on, never more than there are lights |
| LightGrid.Grid.constructor | 2015/day-06/src/part1.rs:34-40 | a grid of width times height lights, all off |
| LightGrid.Grid.GetIndex | 2015/day-06/src/part1.rs:42-44 | the row-major index: mod and div by the width give back column and row, and every cell's index is inside the buffer |
| LightGrid.Grid.ApplyToRegion | 2015/day-06/src/part1.rs:54-64 | the lights become the operation applied to every light of the inclusive rectangle, the rest unchanged |
| LightGrid.Grid.ApplyInstruction | 2015/day-06/src/part1.rs:46-52 | turn on sets, turn off clears and toggle flips the lights of the rectangle |
| LightGrid.Grid.CountLit | 2015/day-06/src/part1.rs:66-68 | the count of lights on, at most width times height |
| LightGrid.Process | 2015/day-06/src/part1.rs:12-25 | the answer is the number of lights on after every instruction in order on a dark 1000 by 1000 grid |
| LightGrid.ToggleTwice | 2015/day-06/src/part1.rs:50 | toggling the same rectangle twice restores every light |
| LightGrid.OnOffIdempotent | 2015/day-06/src/part1.rs:48-49 | turning a rectangle on (or off) twice is the same as doing it once |
| LightGrid.OnMinusOff | 2015/day-06/src/part1.rs:48-49 | after turning a rectangle on, exactly its area more lights are on than after turning it off |
| LightGrid.OnInDarkGrid | 2015/day-06/src/part1.rs:34-49 | turning a rectangle on in a dark grid lights exactly its area |
| BrightnessGrid.SaturatingDecrement | 2015/day-06/src/part2.rs:50 | `saturating_sub(1)`: 0 stays 0, anything else drops by one |
| BrightnessGrid.Grid.constructor | 2015/day-06/src/part2.rs:34-40 | a grid of width times height lights, all at brightness 0 |
| BrightnessGrid.Grid.GetIndex | 2015/day-06/src/part2.rs:42-44 | the row-major index: mod and div by the width give back column and row, and every cell's index is inside the buffer |
| BrightnessGrid.Grid.ApplyToRegion | 2015/day-06/src/part2.rs:56-66 | the lights become the operation applied to every light of the inclusive rectangle, the rest unchanged |
| BrightnessGrid.Grid.ApplyInstruction | 2015/day-06/src/part2.rs:46-54 | turn on adds 1, toggle adds 2 and turn off subtracts 1 down to 0 on the rectangle |
| BrightnessGrid.Process | 2015/day-06/src/part2.rs:12-25 | the answer is the total brightness after every instruction in order on a 1000 by 1000 grid at 0 |
| BrightnessGrid.AddedTotal | 2015/day-06/src/part2.rs:56-70 | adding k to every cell of a rectangle adds k times its area to the total |
| BrightnessGrid.OnTotal | 2015/day-06/src/part2.rs:48 | turning a rectangle on adds its area to the total brightness |
| BrightnessGrid.ToggleTotal | 2015/day-06/src/part2.rs:52 | toggling a rectangle adds twice its area to the total brightness |
| BrightnessGrid.OffUndoesOn | 2015/day-06/src/part2.rs:48-51 | turning a rectangle off right after turning it on restores every brightness |
| BrightnessGrid.OffLowers | 2015/day-06/src/part2.rs:49-51 | turning off never raises the total brightness |
| LightGrid.LitCellwise | 2015/day-06/src/part1.rs:54-68 | grids that differ only on the covered cells, lit in one and dark in the other, differ in count by the number of covered cells |
| LightGrid.NoneLit | 2015/day-06/src/part1.rs:34-40 | a dark grid has no light on |
| BrightnessGrid.TotalCellwise | 2015/day-06/src/part2.rs:56-70 | raising every covered cell by k raises the total by k per covered cell |
| BrightnessGrid.Grid.CountLit | 2015/day-06/src/part2.rs:68-70 | `count_lit`, the sum of every brightness; Process's contract shows the answer is this total after every instruction, and OnTotal / ToggleTotal / OffLowers how each instruction changes it |
| Floors.FloorIsDifference | 2015/day-01/src/part1.rs:4-11 | the floor reached is the number of `(` minus the number of `)` |
| Floors.FloorConcat | 2015/day-01/src/part1.rs:4-11 | following two instruction strings one after the other adds their floors |
| Floors.FinalFloor | 2015/day-01/src/part1.rs:1-14 | the counter updated character by character ends at the count of `(` minus the count of `)` |
| Floors.GroundFloorExamples | 2015/day-01/src/part1.rs:23-24 | "(())" and "()()" end on floor 0 |
| Floors.ThirdFloorExamples | 2015/day-01/src/part1.rs:25-27 | "(((", "(()(()(" and "))(((((" end on floor 3 |
| Floors.BelowGroundExamples | 2015/day-01/src/part1.rs:28-31 | "())" and "))(" end on floor -1, ")))" and ")())())" on floor -3 |
| Floors.ScanFrom | 2015/day-01/src/part2.rs:4-17 | the scan from position i returns the first 1-based position after i at which the running floor is -1 |
| Floors.FirstBasement | 2015/day-01/src/part2.rs:1-20 | the first position at which the floor is -1: the floor there is -1 and at no earlier position |
| Floors.BasementExamples | 2015/day-01/src/part2.rs:29-30 | ")" first enters the basement at position 1 and "()())" at position 5 |
| Ribbon.Sort3 | 2015/day-02/src/part2.rs:34-35 | sorting three sides gives them in ascending order, as a rearrangement of the same values |
| Ribbon.SmallestPerimIsMinimum | 2015/day-02/src/part2.rs:33-38 | `smallest_perim` is the perimeter of some face and no face has a smaller perimeter |
| Ribbon.SmallestPerimSymmetric | 2015/day-02/src/part2.rs:33-38 | `smallest_perim` does not depend on the order in which the sides are listed |
| Ribbon.TotalRibbonConcat | 2015/day-02/src/part2.rs:12-15 | the ribbon for two lists of presents is the sum of their ribbons |
| Ribbon.VolumeExamples | 2015/day-02/src/part2.rs:77-83 | 2x3x4 has volume 24 and 1x1x10 volume 10 |
| Ribbon.PerimExamples | 2015/day-02/src/part2.rs:85-92 | the smallest perimeters of 2x3x4, 1x1x10 and 4x3x9 are 10, 4 and 14 |
| Ribbon.RibbonExamples | 2015/day-02/src/part2.rs:64-75 | 2x3x4 needs 34 feet, 1x1x10 needs 14, and both together 48 |
| Ribbon.Volume | 2015/day-02/src/part2.rs:27-30 | `volume`, the product of the three sides; VolumeExamples gives 24 for 2x3x4 and 10 for 1x1x10 |
| Ribbon.TotalRibbon | 2015/day-02/src/part2.rs:8-16 | `process`, volume plus smallest perimeter summed over the presents; TotalRibbonConcat shows it adds up over any split of the list, RibbonExamples gives 34, 14 and 48 on the samples |
| NiceStrings.NiceLineIsNice | 2015/day-05/src/part2.rs:4-18 | the two `windows` filters keep a line exactly when some pair of letters appears twice without overlapping and some letter repeats with one letter between |
| NiceStrings.CountNice | 2015/day-05/src/part2.rs:1-21 | the count of nice lines, at most the number of lines |
| NiceStrings.CountNiceConcat | 2015/day-05/src/part2.rs:4-18 | the count over two lists of lines is the sum of their counts |
| NiceStrings.NiceExamples | 2015/day-05/src/part2.rs:29-30 | "qjhvhtzxzqqjkmpb" and "xxyxx" are nice |
| NiceStrings.NoGapExample | 2015/day-05/src/part2.rs:31 | "uurcxstgmygtbstg" has a pair twice but no letter repeating with one between |
| NiceStrings.NoPairExample | 2015/day-05/src/part2.rs:32 | "ieodomkazucvgmuy" has a letter repeating with one between but no pair twice |
| NiceStrings.CountExample | 2015/day-05/src/part2.rs:33-39 | of the four test lines exactly two are nice |
| TwoWalkers.Move | 2015/day-03/src/part2.rs:37-49 | each of `^v<>` stands for a unit step in one axis direction, north being -y |
| TwoWalkers.VisitedSnoc | 2015/day-03/src/part2.rs:20-30 | one more direction moves the walker whose turn it is (Santa on even positions, Robo-Santa on odd) and adds the house it reaches |
| TwoWalkers.VisitedBounds | 2015/day-03/src/part2.rs:16-32 | the origin is always visited and each direction adds at most one new house |
| TwoWalkers.CountHouses | 2015/day-03/src/part2.rs:12-35 | the answer is the number of houses either walker visits, between 1 and the number of directions plus one |
| TwoWalkers.ShareInterleave | 2015/day-03/src/part2.rs:20-27 | directions handed out alternately give Santa exactly the even ones and Robo-Santa the odd ones |
| TwoWalkers.UpDownExample | 2015/day-03/src/part2.rs:58 | "^v" visits 3 houses |
| TwoWalkers.SquareExample | 2015/day-03/src/part2.rs:59 | "^>v<" visits 3 houses |
| TwoWalkers.UpDownFiveExample | 2015/day-03/src/part2.rs:60 | "^v^v^v^v^v" visits 11 houses |
| EscapeLength.StepBounds | 2015/day-08/src/part1.rs:23-29 | each step adds between 0 and 3 to the count, and only a backslash outside an escape opens one |
| EscapeLength.FoldBounds | 2015/day-08/src/part1.rs:21-29 | the count never decreases along the fold and grows by at most three per byte |
| EscapeLength.FoldConcat | 2015/day-08/src/part1.rs:21-29 | folding over two byte strings is folding over the first and then the second |
| EscapeLength.FoldToken | 2015/day-08/src/part1.rs:23-28 | outside an escape, one escape sequence (or plain byte) adds its extra bytes to the count and leaves no escape open |
| EscapeLength.LineDifference | 2015/day-08/src/part1.rs:11-14 | a whole line adds exactly its literal's code length minus its memory length and closes every escape |
| EscapeLength.DifferenceIsOverhead | 2015/day-08/src/part1.rs:11-14 | on a file of well-formed literals the answer is the total code length minus memory length |
| EscapeLength.ExtraConcat | 2015/day-08/src/part2.rs:17-24 | the part-2 count over two byte strings is the sum of their counts |
| EscapeLength.RequoteIsLiteral | 2015/day-08/src/part2.rs:7-9 | re-quoting a line writes a literal that denotes that line, one well-formed token per byte |
| EscapeLength.RequoteGrowth | 2015/day-08/src/part2.rs:7-9 | a line's part-2 cost is exactly how much longer re-quoting makes it |
| EscapeLength.PartsAgree | 2015/day-08/src/part2.rs:16-27 | part 1 on the re-quoted line counts exactly what part 2 counts on the line |
| EscapeLength.CostTable | 2015/day-08/src/part2.rs:11-23 | quote and backslash cost 1, newline 2, and every other byte (`x` included) 0 |
| EscapeLength.Step | 2015/day-08/src/part1.rs:23-28 | one byte of the scan; StepBounds shows it adds 0 to 3 to the count, and enters the escaped state exactly on an unescaped backslash |
| EscapeLength.Fold | 2015/day-08/src/part1.rs:21-29 | the fold over a line's bytes; FoldConcat shows it runs piece by piece, FoldBounds bounds it by three per byte, and LineDifference / FoldFile that on a printed line or file it counts exactly the escaping overhead |
| LookAndSay.RunLength | 2015/day-10/src/part2.rs:37-47 | the run of the first character at the start of a string: every character in it is that character and the next one differs |
| LookAndSay.GroupsExpand | 2015/day-10/src/part2.rs:33-52 | writing the runs out again gives back the string |
| LookAndSay.GroupsWellFormed | 2015/day-10/src/part2.rs:33-52 | every run has a count of at least one and neighbouring runs hold different characters |
| LookAndSay.GroupsUnique | 2015/day-10/src/part2.rs:33-52 | the runs are determined by the string: any well-formed grouping that writes out to it is the same |
| LookAndSay.HearSpeak | 2015/day-10/src/part2.rs:21-31 | when every run is shorter than ten, the spoken form can be read back into the runs and takes two characters per run |
| LookAndSay.ConsecutiveGroups | 2015/day-10/src/part2.rs:33-52 | the runs of the input, well formed and writing out to the input |
| LookAndSay.GroupedStep | 2015/day-10/src/part2.rs:33-52 | a maximal run starting where the found runs end extends them: the runs still spell out the input so far and stay well formed |
| LookAndSay.GenerateString | 2015/day-10/src/part2.rs:21-31 | one round of look-and-say: each run's count in decimal followed by its character |
| LookAndSay.LookAndSay | 2015/day-10/src/part2.rs:11-19 | the string after the given number of rounds |
| LookAndSay.Process | 2015/day-10/src/part2.rs:3-9 | the length of the string after fifty rounds |
| LookAndSay.GroupsExample | 2015/day-10/src/part2.rs:70-76 | the runs of "111221" are ('1', 3), ('2', 2), ('1', 1) |
| LookAndSay.GenerateOne | 2015/day-10/src/part2.rs:60 | "1" becomes "11" |
| LookAndSay.GenerateOneOne | 2015/day-10/src/part2.rs:61 | "11" becomes "21" |
| LookAndSay.GenerateTwoOne | 2015/day-10/src/part2.rs:62 | "21" becomes "1211" |
| LookAndSay.GenerateOneTwoOneOne | 2015/day-10/src/part2.rs:63 | "1211" becomes "111221" |
| LookAndSay.GenerateThreeRuns | 2015/day-10/src/part2.rs:64 | "111221" becomes "312211" |
| LookAndSay.LookAndSayExample | 2015/day-10/src/part2.rs:77-81 | four rounds from "1" give "111221" |
| LookAndSay.Generate | 2015/day-10/src/part2.rs:21-31 | one look-and-say round, spoken from the input's runs; GroupsExpand and GroupsUnique show those runs are the one maximal split of the input, HearSpeak that with runs under ten reading the output back two characters at a time gives them again, and GenerateString that the loop computes it |
| PasswordRules.GreedyTwoPairs | 2015/day-11/src/part1.rs:62-75 | counting pairs left to right and stepping over each pair found reaches two exactly when two non-overlapping pairs of equal letters exist |
| PasswordRules.Incremented | 2015/day-11/src/part1.rs:81-91 | increment keeps the length and gives lowercase letters |
| PasswordRules.NextAllowed | 2015/day-11/src/part1.rs:93-110 | a forbidden letter i, l or o is replaced by the next letter, which is not forbidden |
| PasswordRules.SkippedShape | 2015/day-11/src/part1.rs:93-110 | `skip_forbidden(p)` keeps the letters before p, leaves no forbidden letter at p, and sets every later letter to 'a' when it changed something; otherwise nothing changes |
| PasswordRules.ValueInjective | 2015/day-11/src/part1.rs:28 | two passwords of the same length with the same base-26 value are equal |
| PasswordRules.IncrementValue | 2015/day-11/src/part1.rs:81-91 | `increment` adds one to the password read as a base-26 number, wrapping from "zzzzzzzz" to "aaaaaaaa" |
| PasswordRules.SkippedOnlyForbidden | 2015/day-11/src/part1.rs:93-110 | every password from s up to `skip_forbidden`'s result has the forbidden letter at p, so skipping passes over no valid password |
| PasswordRules.SkippedValue | 2015/day-11/src/part1.rs:93-110 | skipping never moves backwards in base-26 order |
| PasswordRules.Password.constructor | 2015/day-11/src/part1.rs:31-39 | the password holds the eight letters it was given |
| PasswordRules.Password.HasIncreasingStraight | 2015/day-11/src/part1.rs:47-57 | true exactly when three consecutive letters go up by one |
| PasswordRules.Password.HasTwoPairs | 2015/day-11/src/part1.rs:63-75 | true exactly when two non-overlapping pairs of equal neighbours exist |
| PasswordRules.Password.IsValid | 2015/day-11/src/part1.rs:77-79 | true exactly when all three rules hold: a straight, no i, o or l, and two pairs |
| PasswordRules.Password.Increment | 2015/day-11/src/part1.rs:81-91 | the letters become their increment: the last letter that is not 'z' goes up by one and the 'z's after it become 'a' |
| PasswordRules.Password.SkipForbidden | 2015/day-11/src/part1.rs:93-110 | the letters become `Skipped` of the old letters at that position |
| PasswordRules.IncrementKeepsSearch | 2015/day-11/src/part1.rs:12-22 | moving past an invalid password with `increment` keeps the search sound: everything passed is invalid |
| PasswordRules.NoSecondWrap | 2015/day-11/src/part1.rs:12-22 | the search cannot wrap past "zzzzzzzz" twice, since it would first pass the valid "abcdffaa" |
| PasswordRules.FoundIsNext | 2015/day-11/src/part1.rs:12-25 | when the search stops, no password it went past is valid |
| PasswordRules.SkipPass | 2015/day-11/src/part1.rs:13-15 | after the pass over all eight positions no forbidden letter is left and the search is still sound |
| PasswordRules.NextPassword | 2015/day-11/src/part1.rs:9-25 | a result is a valid eight-letter password and no password between the input and it in odometer order is valid |
| PasswordRules.ValidExample | 2015/day-11/src/part1.rs:130 | "abcdffaa" is valid |
| PasswordRules.InvalidExamples | 2015/day-11/src/part1.rs:127-129 | "hijklmmn", "abbceffg" and "abbcegjk" are not valid |
| PasswordRules.IncrementExamples | 2015/day-11/src/part1.rs:163-172 | "aaaaaaaa" increments to "aaaaaaab" and "aaaaaaaz" to "aaaaaaba" |
| PasswordRules.PairExamples | 2015/day-11/src/part1.rs:151-162 | "aabb" and "aaaa", padded with the bytes 4 to 7, hold two pairs and "aaca" does not |
| PasswordRules.StraightExamples | 2015/day-11/src/part1.rs:138-149 | "abc" and "xyz", padded with zero bytes, hold a straight and "abd" does not |
| JsonSum.RedFreeSumIsTotal | 2015/day-12/src/part2.rs:27-43 | without any object holding the value "red", the sum is the plain total of every number |
| JsonSum.SumItemsConcat | 2015/day-12/src/part2.rs:30 | an array's sum is additive over splitting its items |
| JsonSum.RedInArray | 2015/day-12/src/part2.rs:31-41 | a "red" string inside an array changes nothing; only objects are red |
| JsonSum.RedObject | 2015/day-12/src/part2.rs:31-37 | an object with a "red" value sums to 0 whatever else it holds |
| JsonSum.ParseNum | 2015/day-12/src/part2.rs:50-55 | a number starts with '-' or a digit and consumes input |
| JsonSum.ParseStr | 2015/day-12/src/part2.rs:57-62 | a string starts with a quote and consumes input |
| JsonSum.ParseVal | 2015/day-12/src/part2.rs:46-48 | a value starts with '-', a digit, '[', '{' or '"' and consumes input |
| JsonSum.ParseArray | 2015/day-12/src/part2.rs:64-73 | an array starts with '[' and consumes input |
| JsonSum.ParseObject | 2015/day-12/src/part2.rs:75-100 | an object starts with '{' and consumes input |
| JsonSum.ValRound | 2015/day-12/src/part2.rs:46-100 | parsing a printed value gives back the value and leaves what follows it |
| JsonSum.ProcessPrinted | 2015/day-12/src/part2.rs:11-16 | the answer on a printed document is the document's sum |
| JsonSum.ExampleFlat | 2015/day-12/src/part2.rs:108 | "[1,2,3]" sums to 6 |
| JsonSum.ExampleTwoKeys | 2015/day-12/src/part2.rs:109 | {"a":2,"b":4} sums to 6 |
| JsonSum.ExampleNested | 2015/day-12/src/part2.rs:110 | "[[[3]]]" sums to 3 |
| JsonSum.ExampleInnerObject | 2015/day-12/src/part2.rs:111 | {"a":{"b":4},"c":-1} sums to 3 |
| JsonSum.ExampleCancel | 2015/day-12/src/part2.rs:112 | {"a":[-1,1]} sums to 0 |
| JsonSum.ExampleCancelObject | 2015/day-12/src/part2.rs:113 | [-1,{"a":1}] sums to 0 |
| JsonSum.ExampleEmptyArray | 2015/day-12/src/part2.rs:114 | "[]" sums to 0 |
| JsonSum.ExampleEmptyObject | 2015/day-12/src/part2.rs:115 | "{}" sums to 0 |
| JsonSum.ExampleRedInside | 2015/day-12/src/part2.rs:123 | [1,{"c":"red","b":2},3] sums to 4 |
| JsonSum.ExampleRedTop | 2015/day-12/src/part2.rs:124 | {"d":"red","e":[1,2,3,4],"f":5} sums to 0 |
| JsonSum.ExampleRedString | 2015/day-12/src/part2.rs:125 | [1,"red",5] sums to 6 |
| JsonSum.Sum | 2015/day-12/src/part2.rs:27-43 | the sum skipping red objects; RedFreeSumIsTotal shows it is the plain total without "red", RedObject that a red object counts zero, RedInArray that "red" in an array is ignored, and ProcessPrinted that parsing a printed document yields it |
| Seating.SignedIs | 2015/day-13/src/part2.rs:141-164 | "gain" gives the amount and "lose" its negation |
| Seating.Get | 2015/day-13/src/part2.rs:66-71 | a pair never mentioned counts 0 |
| Seating.NamesIs | 2015/day-13/src/part2.rs:50-64 | the guests are exactly the people named on either side of some line |
| Seating.RecordedIs | 2015/day-13/src/part2.rs:50-64 | a pair is in the table iff some line names it, and its value is the one on the last such line |
| Seating.WithMeIs | 2015/day-13/src/part2.rs:39-48 | after `add_self`, Me is indifferent to every earlier guest and they to Me, and no other pair changes |
| Seating.TwoSeats | 2015/day-13/src/part2.rs:92-113 | with two guests, each direction of the one pair counts once |
| Seating.RotateInvariant | 2015/day-13/src/part2.rs:73-90 | where the round table starts does not change the total, which is why the first guest can stay fixed |
| Seating.RearrangedTrans | 2015/day-13/src/part2.rs:125-140 | rearranging a prefix twice is a rearrangement of it |
| Seating.RotateBy | 2015/day-13/src/part2.rs:92-113 | starting the round table at any seat j gives the same total |
| Seating.RotationListed | 2015/day-13/src/part2.rs:73-90 | every seating of all the guests, turned to start at the first guest's seat, is one that a complete listing of first-guest seatings holds |
| Seating.Swap | 2015/day-13/src/part2.rs:134-138 | `arr.swap(i, j)` exchanges the two entries and leaves the rest |
| Seating.Permutations | 2015/day-13/src/part2.rs:125-140 | keeps the rows already there and appends exactly the rows Heap's algorithm lists for the first n entries; the array is left as it was for odd n and with its first n entries rotated right by one for even n (HeapLength, HeapSound, HeapComplete and HeapDistinct say what those rows are) |
| Seating.Round | 2015/day-13/src/part2.rs:131-139 | one pass of the loop, the recursive call and then the swap, takes the array from the start of round i to the start of round i + 1 and appends that round's rows |
| Seating.NextRound | 2015/day-13/src/part2.rs:131-139 | the swap after the call on n - 1 entries (entry i for even n, entry 0 for odd n, with the last) gives exactly the array the next round starts from |
| Seating.RoundStep | 2015/day-13/src/part2.rs:133-138 | the closed form of each round's starting array agrees with running the previous round and swapping |
| Seating.FinalIs | 2015/day-13/src/part2.rs:125-140 | after its n rounds a call has left the array unchanged for odd n and rotated right by one for even n |
| Seating.StartRearranged | 2015/day-13/src/part2.rs:131-139 | every round starts from a rearrangement of the first n entries that keeps the rest |
| Seating.HeapLength | 2015/day-13/src/part2.rs:125-140 | a call on n >= 1 entries appends n! rows |
| Seating.HeapSound | 2015/day-13/src/part2.rs:125-140 | every appended row rearranges the first n entries and keeps the rest |
| Seating.HeapComplete | 2015/day-13/src/part2.rs:125-140 | every rearrangement of the first n entries (n >= 1) that keeps the rest is among the appended rows |
| Seating.HeapDistinct | 2015/day-13/src/part2.rs:125-140 | when the first n entries are all different, no row is appended twice |
| Seating.RowTag | 2015/day-13/src/part2.rs:131-139 | every row of the first i rounds has, at position n - 1, the entry one of those rounds brought last |
| Seating.ListingCount | 2015/day-13/src/part2.rs:73-90 | the first guest followed by the rows for the others gives (n-1)! seatings for n >= 2 guests and none for one |
| Seating.ListingSound | 2015/day-13/src/part2.rs:73-90 | each such seating puts the first guest first and seats every guest exactly once |
| Seating.ListingComplete | 2015/day-13/src/part2.rs:73-90 | every seating of all the guests that puts the first guest first is listed |
| Seating.ListingDistinct | 2015/day-13/src/part2.rs:73-90 | when the guests are all different, no seating is listed twice |
| Seating.Arrangement.FromRelationships | 2015/day-13/src/part2.rs:50-64 | the table is the recorded one, and every guest is listed exactly once |
| Seating.Arrangement.AddSelf | 2015/day-13/src/part2.rs:39-48 | Me joins at the end of the guests, indifferent to everyone |
| Seating.Arrangement.GenerateArrangements | 2015/day-13/src/part2.rs:73-90 | (n-1)! seatings for n >= 2 guests, each starting with the first guest and a rearrangement of all of them; every such seating is among them, and none repeats when the guests are all different; none for fewer guests |
| Seating.Arrangement.CalculateHappiness | 2015/day-13/src/part2.rs:92-113 | the sum over neighbouring pairs round the table in both directions, halved (toward zero) for two guests, and 0 for fewer |
| Seating.Arrangement.FindOptimal | 2015/day-13/src/part2.rs:115-123 | the greatest happiness over the generated seatings, reached by one of them, and with two or more guests no seating of all of them in any order does better; 0 when there are none |
| ReindeerRace.DistanceStep | 2015/day-14/src/part2.rs:35-42 | each second adds the speed while the reindeer flies and nothing while it rests |
| ReindeerRace.DistanceIsFlown | 2015/day-14/src/part2.rs:35-42 | `distance_at_second` is the distance flown second by second |
| ReindeerRace.DistanceMono | 2015/day-14/src/part2.rs:35-42 | a reindeer never goes back |
| ReindeerRace.OverDurationAgrees | 2015/day-14/src/part1.rs:38-46 | part 1's formula gives the distance flown exactly when the race ends on a cycle boundary or after the flight of the last cycle, or the reindeer does not move |
| ReindeerRace.FlightDropped | 2015/day-14/src/part1.rs:38-46 | Comet has flown 140 km after 10 seconds but part 1's formula gives 0 |
| ReindeerRace.PartialFlightDropped | 2015/day-14/src/part2.rs:153-157 | Comet has flown 126 km after 9 seconds but part 1's formula gives 0 |
| ReindeerRace.SampleDistances | 2015/day-14/src/part1.rs:82-146 | after 1000 seconds both formulas give Comet 1120 and Dancer 1056, and Comet is farthest |
| ReindeerRace.MaxOr0Is | 2015/day-14/src/part1.rs:20-24 | the maximum is one of the values, or 0 when there are none, and no value exceeds it |
| ReindeerRace.FarthestIs | 2015/day-14/src/part1.rs:10-27 | the farthest distance, with the distance really flown, is some reindeer's distance and nobody is farther |
| ReindeerRace.Race.constructor | 2015/day-14/src/part2.rs:51-55 | every reindeer starts with score 0 |
| ReindeerRace.Race.Award | 2015/day-14/src/part2.rs:59-71 | one second: a point to every reindeer in the lead (ties included) and to no other |
| ReindeerRace.Race.Run | 2015/day-14/src/part2.rs:57-79 | every reindeer gains exactly the seconds from 1 to the duration at which it leads, and the answer is the best score |
| ReindeerRace.LeaderExists | 2015/day-14/src/part2.rs:66-71 | every second some reindeer leads |
| ReindeerRace.PointsBound | 2015/day-14/src/part2.rs:57-72 | nobody scores more than one point a second |
| ReindeerRace.TallyAtLeast | 2015/day-14/src/part2.rs:57-72 | at least one point is handed out each second, so the scores add up to at least the duration |
| ReindeerRace.OverDuration | 2015/day-14/src/part1.rs:38-46 | the first part's closed-form distance; OverDurationAgrees shows it equals the second by second distance exactly when the race does not end during a flight, and FlightDropped / PartialFlightDropped name the durations where it does |
| ReindeerRace.DistanceAt | 2015/day-14/src/part2.rs:35-42 | the distance after a number of seconds; DistanceIsFlown shows it is the speed times the flying seconds, DistanceStep how one second adds to it and DistanceMono that it never falls |
| ReindeerRace.JeffSample | 2015/day-14/src/part1.rs:120-128 | after 1000 seconds Jeff has flown 2500 km by both formulas |
| ReindeerRace.CometResumes | 2015/day-14/src/part2.rs:163-177 | Comet has flown 140 km at second 137, and 154 and 168 km once it flies again at seconds 138 and 139 |
| Routes.Distance | 2015/day-09/src/part2.rs:55-60 | a distance exists exactly when the first city has an entry holding the second |
| Routes.WithRoute | 2015/day-09/src/part2.rs:43-53 | after `add_route` both directions hold the distance, every other pair keeps its distance, and both cities are keys |
| Routes.BuiltIs | 2015/day-09/src/part2.rs:97-107 | the cities of the built map are exactly the ends of the route lines, and every distance is recorded the same both ways |
| Routes.RouteMap.constructor | 2015/day-09/src/part2.rs:37-41 | a map without routes |
| Routes.RouteMap.AddRoute | 2015/day-09/src/part2.rs:43-53 | the table becomes `WithRoute` of the old one and stays symmetric |
| Routes.WithRouteSymmetric | 2015/day-09/src/part2.rs:43-53 | recording one route in both directions keeps every distance the same both ways |
| Routes.PathLengthDefined | 2015/day-09/src/part2.rs:77-81 | a path has a length iff every leg has a route; a path of fewer than two cities has length 0 |
| Routes.ReversedLength | 2015/day-09/src/part2.rs:77-81 | on a table whose distances go both ways, a path walked backwards has the same length |
| Routes.StartingFromIn | 2015/day-09/src/part2.rs:72 | the orderings listed from position i on are those starting with an entry at or after i, followed by an ordering of the others |
| Routes.PermutationsSound | 2015/day-09/src/part2.rs:72 | every ordering listed is a rearrangement of the cities |
| Routes.PermutationsComplete | 2015/day-09/src/part2.rs:72 | every rearrangement of the cities is listed |
| Routes.TriplePermutations | 2015/day-09/src/part2.rs:72 | three entries give their six orderings, in the order itertools lists them |
| Routes.ReduceIs | 2015/day-09/src/part2.rs:69-74 | None iff no path has a length; otherwise the least (or greatest) length, reached by one of the paths |
| Routes.RearrangedListing | 2015/day-09/src/part2.rs:67 | a rearrangement of a listing of the cities, each once, is again such a listing |
| Routes.FindPathLengthIs | 2015/day-09/src/part2.rs:66-75 | None iff no ordering of all the cities has a route for every leg; otherwise the best length over all such orderings |
| Routes.OrderIrrelevant | 2015/day-09/src/part2.rs:62-67 | the answer does not depend on the order in which the map lists its cities |
| Routes.LondonTable | 2015/day-09/src/part2.rs:115-118 | the three example lines build the expected table of London, Dublin and Belfast |
| Routes.LondonExample | 2015/day-09/src/part2.rs:114-124 | the longest route through London, Dublin and Belfast is 982, whichever order the map lists them in |
| Routes.PathLength | 2015/day-09/src/part2.rs:77-81 | a route's length; PathLengthDefined shows it is defined exactly when every leg has a known distance, ReversedLength that a route and its reverse have the same length |
| Recipes.ScorePositive | 2015/day-15/src/part2.rs:72-83 | a score is positive iff all four summed properties are positive |
| Recipes.TotalsSnoc | 2015/day-15/src/part2.rs:19-25 | the summed properties and calories are the amount-weighted sums over the ingredients in list order |
| Recipes.TotalsPrefix | 2015/day-15/src/part2.rs:73-79 | the sums over the first k zipped pairs depend only on those pairs |
| Recipes.IsBestUnique | 2015/day-15/src/part2.rs:27-70 | the best score of the 500-calorie mixes is determined by the ingredients |
| Recipes.BeforeSnoc | 2015/day-15/src/part2.rs:41-64 | in the loops' order, the mixes before a longer cursor are those before the shorter cursor and those matching it and then going below the next amount |
| Recipes.Finish | 2015/day-15/src/part2.rs:27-70 | once the loops have passed every mix, the running maximum is the best score |
| Recipes.Try | 2015/day-15/src/part2.rs:33-37 | one loop body: the score of the amounts is kept when they make exactly 500 calories and it is larger |
| Recipes.Best2 | 2015/day-15/src/part2.rs:31-39 | the loop over i gives the best 500-calorie score for two ingredients |
| Recipes.Best3 | 2015/day-15/src/part2.rs:40-51 | the nested loops over i and j give the best 500-calorie score for three ingredients |
| Recipes.Best4 | 2015/day-15/src/part2.rs:52-65 | the nested loops over i, j and k give the best 500-calorie score for four ingredients |
| Recipes.FindBestScore | 2015/day-15/src/part2.rs:27-70 | for two, three or four ingredients, the best score over mixes of 100 teaspoons with exactly 500 calories (0 when none scores); any other count panics |
| Recipes.ButterscotchCinnamon | 2015/day-15/src/part2.rs:141-144 | 40 teaspoons of Butterscotch and 60 of Cinnamon make 500 calories and score 57600000 |
| Recipes.Score | 2015/day-15/src/part2.rs:72-94 | a cookie's score; ScorePositive shows it is positive exactly when every summed property is, and FindBestScore's contract that no qualifying mix scores more than the answer |
| ReportSafety.SafeIffSoFar | 2024/day-02/src/part1.rs:32-88 | a report is safe iff every window up to the end is in range and has the direction of the first window |
| ReportSafety.Violation | 2024/day-02/src/part1.rs:37-84 | a window whose difference is out of 1..=3, or whose sign differs from the first window's, makes the report unsafe |
| ReportSafety.CheckSafety | 2024/day-02/src/part1.rs:32-88 | `Ok` exactly when every difference is 1 to 3 in size and all have the same sign; an error names a pair of neighbouring levels of the report |
| ReportSafety.CountSafeReports | 2024/day-02/src/part1.rs:10-19 | the number of reports `check_safety` accepts is the number of safe reports |
| ReportSafety.CountSafe | 2024/day-02/src/part1.rs:13-16 | at most the number of reports |
| ReportSafety.CountSafeSnoc | 2024/day-02/src/part1.rs:13-16 | one more report adds one to the count exactly when it is safe |
| ReportSafety.IsSafeReportIsSafe | day-02/src/part1.rs:20-27 | `is_safe_report` decides the same rule on reports of at least two levels |
| ReportSafety.CountsAgree | day-02/src/part1.rs:1-7 | on reports of at least two levels, the two solutions give the same count |
| ReportSafety.SampleReports | 2024/day-02/src/part1.rs:96-101 | of the six sample reports, the first and the last are safe and the other four are not |
| ReportSafety.SampleCount | 2024/day-02/src/part1.rs:94-104 | the sample has 2 safe reports |
| GuardPatrol.BoundsOf | 2024/day-06/src/part1.rs:17-28 | the `minmax` box of the obstacle coordinates holds every obstacle |
| GuardPatrol.MinMax | 2024/day-06/src/part1.rs:17-28 | the minimum and the maximum are among the values and bound every value |
| GuardPatrol.BoundsAttained | 2024/day-06/src/part1.rs:17-28 | each edge of the box passes through an obstacle: it is the smallest box holding them all |
| GuardPatrol.TurnRightRotates | 2024/day-06/src/part1.rs:59-75 | turning right turns the unit step a quarter turn clockwise (y grows downward), and four turns give back the direction |
| GuardPatrol.StepVisited | 2024/day-06/src/part1.rs:34-44 | one more turn of the loop adds the cell it ends on to the visited set |
| GuardPatrol.VisitedCells | 2024/day-06/src/part1.rs:32-44 | the visited set holds exactly the cells the guard stood on during the first n turns |
| GuardPatrol.Patrol | 2024/day-06/src/part1.rs:13-48 | when the guard leaves the box, the answer is the number of cells visited up to the first exit, less one; None only when the guard is still inside after all the fuel |
| GuardPatrol.CountsInsideCells | 2024/day-06/src/part1.rs:46-47 | the count less one is the number of distinct cells inside the box the guard stood on, since the cell outside it where the loop stops is always new |
| GuardPatrol.StartOutside | 2024/day-06/src/part1.rs:32-47 | a guard starting outside the box counts 0 |
| GuardLoops.Route | 2024/day-06/src/part2.rs:34-49 | when the first walk breaks, the cells it recorded are exactly those of the turns up to its first break |
| GuardLoops.Loops | 2024/day-06/src/part2.rs:57-88 | true only when the guard with the extra wall comes back to a recorded state having stayed in the box; false only when it steps outside the box |
| GuardLoops.RepeatTrapped | 2024/day-06/src/part2.rs:72-77 | meeting a recorded (cell, direction) state again, with every cell so far inside the box or the start, means the walk is trapped |
| GuardLoops.CountLoops | 2024/day-06/src/part2.rs:55-89 | the count is the number of candidates that trap the guard, and every other candidate lets it escape |
| GuardLoops.Process | 2024/day-06/src/part2.rs:13-92 | the candidates are the first walk's cells less the start, and the answer counts exactly those that trap the guard |
| GuardLoops.RunShift | 2024/day-06/src/part2.rs:64-87 | running a + t turns is running t turns from where a turns left the guard |
| GuardLoops.Periodic | 2024/day-06/src/part2.rs:72-77 | once a state repeats, the walk repeats with that period forever |
| GuardLoops.TrappedStaysInside | 2024/day-06/src/part2.rs:72-86 | a trapped guard never stands outside the box, except perhaps on its start |
| GuardLoops.TrappedExcludesEscapes | 2024/day-06/src/part2.rs:72-86 | from a start inside the box no candidate both traps and lets the guard escape, so the count is exact |
| GuardLoops.RouteInside | 2024/day-06/src/part2.rs:36-49 | from a start inside the box the first walk records only cells inside it |
| GuardLoops.WallIsObstacle | 2024/day-06/src/part2.rs:66 | the candidate wall acts like one more obstacle |
| ReportSafety.AllWindowsIff | day-02/src/part1.rs:20-27 | the `windows(2).map(..).all(..)` of `is_safe_report` from window k on holds iff every remaining difference is 1 to 3 in size with the given sign |
| GuardPatrol.Exited | 2024/day-06/src/part1.rs:34-47 | a loop that stops outside the box after n turns stops at the first exit, and its count includes the start |
| GuardPatrol.VisitedHasStart | 2024/day-06/src/part1.rs:32 | the start cell is always in the visited set |
| GuardPatrol.Step | 2024/day-06/src/part1.rs:34-44 | one step of the guard; StepVisited shows the walk is its iteration and each step adds exactly the new position to the visited cells |
| GuardPatrol.Run | 2024/day-06/src/part1.rs:32-47 | the walk after a number of steps; VisitedCells shows the visited set is exactly the positions the walk passes through, and Patrol's contract that when the fuel runs out first every position of the walk was inside the bounds |
| GuardLoops.RouteStepInside | 2024/day-06/src/part2.rs:36-49 | while the first walk has not left the box the guard is inside it |
| Antinodes.RunLen | 2024/day-08/src/part1.rs:22 | the leading run has every antenna of the frequency and stops at the first antenna of another one |
| Antinodes.InsertMembers | 2024/day-08/src/part1.rs:20 | inserting one antenna keeps every other and adds that one |
| Antinodes.InsertProps | 2024/day-08/src/part1.rs:20 | inserting into a list sorted by frequency keeps it sorted and a permutation |
| Antinodes.SortProps | 2024/day-08/src/part1.rs:20 | `sort_by` on frequency yields a sorted permutation of the antennas |
| Antinodes.CombinationsMembers | 2024/day-08/src/part1.rs:26 | `combinations(2)` yields exactly the pairs at positions i < j |
| Antinodes.PairNodesMembers | 2024/day-08/src/part1.rs:27-30 | each pair gives the point beyond each antenna as far again as the other, and nothing else |
| Antinodes.KeepMembers | 2024/day-08/src/part1.rs:16-31 | the filter keeps exactly the points with 0 <= x < width and 0 <= y < height |
| Antinodes.PairIndices | 2024/day-08/src/part1.rs:26 | two different positions of a run hold a and b iff a and b are two different members of its multiset |
| Antinodes.IndicesPair | 2024/day-08/src/part1.rs:26 | the antennas at two different positions form a pair |
| Antinodes.PairAt | 2024/day-08/src/part1.rs:26 | every pair is found at two different positions |
| Antinodes.ChunkMembers | 2024/day-08/src/part1.rs:23-30 | the antinodes of one run are those of the pairs of its antennas, in either order |
| Antinodes.AntinodeSplit | 2024/day-08/src/part1.rs:22-30 | the antinodes of a list are those of its leading run together with those of the rest |
| Antinodes.RunSplit | 2024/day-08/src/part1.rs:22 | in a sorted list the leading run holds every antenna of its frequency and the rest holds none |
| Antinodes.ChunksMembers | 2024/day-08/src/part1.rs:21-32 | over a sorted list, the chunks yield exactly the in-map antinodes of same-frequency pairs |
| Antinodes.CountIsAntinodes | 2024/day-08/src/part1.rs:12-36 | the answer is the number of distinct points of the map beyond one antenna of a same-frequency pair, as far again as the other |
| Antinodes.OrderIrrelevant | 2024/day-08/src/part1.rs:19-34 | the order in which the parser lists the antennas does not change the answer |
| Antinodes.Count | 2024/day-08/src/part1.rs:12-36 | the answer; CountIsAntinodes shows it is the number of in-bounds cells that are antinodes of a same-frequency pair, OrderIrrelevant that the order of the antennas does not matter |
| BlockCompaction.DecodeNumbers | 2024/day-09/src/part1.rs:5-17 | digit i becomes file i / 2 when i is even and free space when it is odd |
| BlockCompaction.Repeat | 2024/day-09/src/part1.rs:21 | n copies of the id |
| BlockCompaction.Compact | 2024/day-09/src/part1.rs:25-40 | the nested loops build the slot-by-slot filling: file slots from the queue front, free slots from its back, until the queue is empty |
| BlockCompaction.Process | 2024/day-09/src/part1.rs:3-45 | the answer is the checksum of that filling |
| BlockCompaction.FillStep | 2024/day-09/src/part1.rs:27-38 | one slot of a run takes the queue front for a file and its back for free space; an empty queue stops the run |
| BlockCompaction.FillLength | 2024/day-09/src/part1.rs:25-40 | the compacted disk has one block per slot while blocks remain |
| BlockCompaction.FillRearranges | 2024/day-09/src/part1.rs:25-40 | with at least as many slots as blocks, every block of the queue lands exactly once |
| BlockCompaction.FillFront | 2024/day-09/src/part1.rs:28-29 | while only file slots have been met, the blocks come off the front in order |
| BlockCompaction.BlocksLength | 2024/day-09/src/part1.rs:19-23 | the queue holds one id per file block |
| BlockCompaction.SlotsLength | 2024/day-09/src/part1.rs:26-27 | there is one slot per block of the disk |
| BlockCompaction.FilesFit | 2024/day-09/src/part1.rs:19-27 | the file blocks fit in the disk |
| BlockCompaction.BlocksMultiplicity | 2024/day-09/src/part1.rs:19-23 | the queue holds file d as many times as the map gives it blocks |
| BlockCompaction.RepeatMultiplicity | 2024/day-09/src/part1.rs:21 | n copies of x hold x n times and nothing else |
| BlockCompaction.DecodedIdSize | 2024/day-09/src/part1.rs:5-17 | in a decoded map file d has the blocks of digit 2d, and none past the end |
| BlockCompaction.BlocksInOrder | 2024/day-09/src/part1.rs:19-23 | the queue of a decoded map is in id order |
| BlockCompaction.CompactRearranges | 2024/day-09/src/part1.rs:19-40 | compacting keeps every file block exactly once and packs them into the first slots with no gap |
| BlockCompaction.QueueOfDecode | 2024/day-09/src/part1.rs:5-23 | the queue is in id order, with file d repeated as often as digit 2d says |
| BlockCompaction.ChecksumConcat | 2024/day-09/src/part1.rs:42 | appending blocks adds their own checksum shifted by the position they start at |
| BlockCompaction.Fill | 2024/day-09/src/part1.rs:25-40 | the compacted blocks; FillRearranges shows they are a rearrangement of the file blocks, FillLength how many there are, and FillFront that the leading file blocks stay in place |
| FileCompaction.Insert | day-09/src/part2.rs:34 | `Vec::insert` puts x at index k and shifts the entries from k on one place right |
| FileCompaction.MoveFile | day-09/src/part2.rs:19-39 | one turn adds at most one entry |
| FileCompaction.Compact | day-09/src/part2.rs:19-39 | the outer loop performs the turns at the original indices from last to first, on the vector as the earlier turns left it |
| FileCompaction.MoveAt | day-09/src/part2.rs:20-38 | one turn skips a free or moved entry, else moves the file to the first fit below it |
| FileCompaction.Process | day-09/src/part2.rs:3-53 | the answer is the checksum of the expanded layout after the pass |
| FileCompaction.FirstFitFound | day-09/src/part2.rs:24-28 | the inner search finds the leftmost free entry below i that is long enough, or reports that none is |
| FileCompaction.MoveKeepsSize | day-09/src/part2.rs:29-35 | a move keeps the disk's length: the leftover is reinserted and the old span freed |
| FileCompaction.RelocateKeepsSize | day-09/src/part2.rs:29-35 | relocation keeps the total length |
| FileCompaction.TotalSizeConcat | day-09/src/part2.rs:41-44 | the lengths of two parts add up |
| FileCompaction.TotalSizeUpdate | day-09/src/part2.rs:31 | overwriting an entry changes the length by the difference of the two counts |
| FileCompaction.TotalSizeInsert | day-09/src/part2.rs:34 | inserting an entry adds its count |
| FileCompaction.MoveKeepsIds | day-09/src/part2.rs:31 | `take` moves a file's id from one entry to another: each id is held by as many entries as before |
| FileCompaction.RelocateKeepsIds | day-09/src/part2.rs:31-35 | relocation keeps the number of entries holding each id |
| FileCompaction.IdCountConcat | day-09/src/part2.rs:41-44 | the id counts of two parts add up |
| FileCompaction.IdCountUpdate | day-09/src/part2.rs:31 | overwriting an entry changes the count of an id by what was removed and what was written |
| FileCompaction.IdCountInsert | day-09/src/part2.rs:34 | inserting an entry adds its id |
| FileCompaction.PassKeepsSize | day-09/src/part2.rs:19-39 | the whole pass keeps the length of the disk |
| FileCompaction.PassKeepsIds | day-09/src/part2.rs:19-39 | the whole pass keeps the number of entries holding each id |
| FileCompaction.SkipsMovedAndFree | day-09/src/part2.rs:20-22 | a free or already moved entry is left as it is |
| FileCompaction.MoveTarget | day-09/src/part2.rs:24-37 | a file moves, flagged as moved, into the leftmost long-enough free span before it, and its old span is freed; with no such span nothing changes |
| FileCompaction.DecodedIds | day-09/src/part2.rs:5-17 | in a decoded map file d is held by entry 2d alone |
| FileCompaction.OneEntryPerFile | day-09/src/part2.rs:3-39 | after the pass every file of the map is in exactly one entry, and no other id appears |
| FileCompaction.LayoutKeepsLength | day-09/src/part2.rs:19-44 | the compacted layout has as many blocks as the original disk |
| FileCompaction.ExpandLength | day-09/src/part2.rs:41-44 | expanding gives one block per unit of count |
| FileCompaction.ChecksumOfFiles | day-09/src/part2.rs:46-50 | on a layout with no free block this checksum equals part 1's |
| FileCompaction.Pass | day-09/src/part2.rs:19-39 | the whole-file pass; PassKeepsSize and PassKeepsIds show it keeps the total size and every file's entry count |
| TrailSearch.SearchPath | 2024/day-10/src/part1.rs:27-65 | the score is the number of height-9 cells reachable from the start by steps to an orthogonal neighbour exactly one higher |
| TrailSearch.Process | 2024/day-10/src/part1.rs:14-25 | the total sums the score of every height-0 cell exactly once, in whatever order the map yields them |
| TrailSearch.Round | 2024/day-10/src/part1.rs:35-58 | one round computes the next layer and the cells seen so far, and leaves fewer unseen when the layer is not empty |
| TrailSearch.Shrinks | 2024/day-10/src/part1.rs:30-33 | seeing a non-empty set of unseen cells leaves fewer unseen, so the loop ends |
| TrailSearch.SubsetCard | 2024/day-10/src/part1.rs:54-57 | a subset is no larger |
| TrailSearch.LayerHeights | 2024/day-10/src/part1.rs:45-48 | layer n lies on the map n higher than the start |
| TrailSearch.LayerOnMap | 2024/day-10/src/part1.rs:45 | every layer lies on the map |
| TrailSearch.UptoHeights | 2024/day-10/src/part1.rs:45-48 | the cells 1 to n steps away are 1 to n higher than the start |
| TrailSearch.LayerStep | 2024/day-10/src/part1.rs:42-49 | excluding cells already seen or in the frontier loses nothing: a round yields exactly the next layer |
| TrailSearch.EmptyStays | 2024/day-10/src/part1.rs:31-33 | once a layer is empty, every later one is too |
| TrailSearch.LayerInUpto | 2024/day-10/src/part1.rs:54-57 | a cell of layer k, 1 <= k <= n, is within n steps |
| TrailSearch.UptoInLayer | 2024/day-10/src/part1.rs:54-57 | a cell within n steps lies in one of the layers 1 to n |
| TrailSearch.ReachableIsUpto | 2024/day-10/src/part1.rs:30-61 | once a layer is empty the visited set is every reachable cell |
| TrailSearch.TrailheadScore | 2024/day-10/src/part1.rs:18-64 | from a height-0 cell the score counts exactly the cells nine steps away |
| TrailSearch.LayerIsHikes | 2024/day-10/src/part1.rs:27-65 | layer n holds exactly the ends of n-step hiking trails from the start |
| TrailSearch.LayerHasHike | 2024/day-10/src/part1.rs:27-65 | every cell of layer n ends a hiking trail of n steps |
| TrailSearch.HikeInLayer | 2024/day-10/src/part1.rs:27-65 | every hiking trail ends in the layer of its length |
| ClawMachine.TruncDivRemainder | day-13/src/part1.rs:22-23 | `isize` division truncates toward zero: the remainder is smaller than the divisor and has the dividend's sign |
| ClawMachine.TruncDivExact | day-13/src/part1.rs:22-23 | an exact multiple divides with nothing truncated |
| ClawMachine.Numerators | day-13/src/part1.rs:22-23 | any solution makes both Cramer numerators exact multiples of the determinant |
| ClawMachine.CramerFindsSolution | day-13/src/part1.rs:22-23 | with independent buttons, any integer solution is the pair of quotients the machine computes |
| ClawMachine.CountTokensIffSolution | day-13/src/part1.rs:12-32 | a machine is won iff some non-negative press counts reach the prize, and it then costs 3 tokens per A press and 1 per B press |
| ClawMachine.Unreachable | day-13/src/part1.rs:25-31 | when the computed presses miss the prize the machine is lost |
| ClawMachine.NegativePressesAccepted | day-13/src/part1.rs:22-28 | as written, a solution with a negative press count is accepted and its cost wraps through `as usize` |
| ClawMachine.ExampleTotal | day-13/src/part1.rs:66-85 | the four sample machines cost 480 tokens in all |
| ClawMachine.CountTokens | day-13/src/part1.rs:12-33 | the corrected `count_tokens` (see the Findings; CountTokensAsWritten models the code as written): CountTokensIffSolution shows it gives a number exactly when some non-negative press counts reach the prize, and then three tokens per A press and one per B press |
| ClawMachine.CountTokensAsWritten | day-13/src/part1.rs:12-33 | `count_tokens` as written, the as-written half of the second Findings claim: NegativePressesAccepted shows it accepts a solution with a negative press count and wraps its cost through `as usize` |
| ClawMachine.TotalTokens | day-13/src/part1.rs:52 | the `filter_map(..).sum()` of `process`, summing the corrected per-machine count (CountTokens, see the Findings); ExampleTotal gives 480 for the four sample machines |
| GateFlags.ConnectionsMembers | 2024/day-24/src/part2.rs:25-39 | the cache holds exactly the (wire, operation) pairs where some gate of that operation reads the wire |
| GateFlags.FlaggedIsSuspicious | 2024/day-24/src/part2.rs:48-80 | with the whole circuit's cache, the `match` guards are the adder's wiring rules |
| GateFlags.SuspectsMembers | 2024/day-24/src/part2.rs:41-83 | the filter keeps exactly the outputs of gates whose guard holds |
| GateFlags.AnswerMembers | 2024/day-24/src/part2.rs:18-88 | a wire is in the answer exactly when it is the output of a gate breaking its rule |
| GateFlags.AnswerSplits | 2024/day-24/src/part2.rs:85-87 | the answer is the flagged outputs sorted and joined by commas: splitting it gives them back in ascending order |
| GateFlags.SuspectsConcat | 2024/day-24/src/part2.rs:41-83 | filtering two lists of gates yields the outputs of each, in order |
| GateFlags.SuspectsPermuted | 2024/day-24/src/part2.rs:41-83 | the flagged outputs, counted with repetition, do not depend on the gates' order |
| GateFlags.SuspectsAround | 2024/day-24/src/part2.rs:41-83 | the flagged outputs of a list are those of the list without gate k together with those gate k alone gives |
| GateFlags.RemoveAt | 2024/day-24/src/part2.rs:41-83 | a list without one element has one copy of it fewer |
| GateFlags.ConnectionsPermuted | 2024/day-24/src/part2.rs:25-39 | the cache does not depend on the gates' order |
| GateFlags.OrderIrrelevant | 2024/day-24/src/part2.rs:18-88 | the answer does not depend on the order the gates are listed in |
| GateFlags.BelowTotal | 2024/day-24/src/part2.rs:85 | the string order `sort` uses is total |
| GateFlags.BelowTrans | 2024/day-24/src/part2.rs:85 | and transitive |
| GateFlags.BelowAntisym | 2024/day-24/src/part2.rs:85 | and antisymmetric |
| GateFlags.InsertProps | 2024/day-24/src/part2.rs:85 | inserting into an ascending list keeps it ascending and adds the element |
| GateFlags.SortedCons | 2024/day-24/src/part2.rs:85 | a head no greater than an ascending tail gives an ascending list |
| GateFlags.SortProps | 2024/day-24/src/part2.rs:85 | `sort` returns an ascending permutation of its input |
| GateFlags.SortedUnique | 2024/day-24/src/part2.rs:85 | two ascending permutations of the same strings are equal, so the answer's order is determined |
| GateFlags.SameTail | 2024/day-24/src/part2.rs:85 | equal heads leave ascending tails with the same elements |
| GateFlags.SameHead | 2024/day-24/src/part2.rs:85 | the head of an ascending list is its least element |
| GateFlags.Split | 2024/day-24/src/part2.rs:87 | cutting at commas gives at least one piece |
| GateFlags.SplitPlain | 2024/day-24/src/part2.rs:87 | a comma-free prefix joins the first piece |
| GateFlags.SplitJoin | 2024/day-24/src/part2.rs:87 | comma-free words joined by commas split back into the words |
| GateFlags.Answer | 2024/day-24/src/part2.rs:18-88 | the answer; AnswerMembers shows it names exactly the flagged wires, AnswerSplits that it is their sorted list joined by commas, and OrderIrrelevant that the order of the gates does not matter |
| Keypads.FollowConcat | day-21/src/part1.rs:186-189 | following two arrow sequences one after the other is following their concatenation |
| Keypads.FollowRepeat | day-21/src/part1.rs:186-188 | n presses of one arrow move the arm n cells that way |
| Keypads.StaysConcat | day-21/src/part1.rs:186-189 | a concatenation stays on the pad iff both parts do, the second from where the first ends |
| Keypads.StaysRepeat | day-21/src/part1.rs:186-188 | a straight run stays on the pad iff every cell it passes is on it |
| Keypads.AlongVert | day-21/src/part1.rs:178-181 | the vertical arrow repeated |dy| times covers the vertical difference |
| Keypads.AlongHorz | day-21/src/part1.rs:177-180 | the horizontal arrow repeated |dx| times covers the horizontal difference |
| Keypads.LShapes | day-21/src/part1.rs:175-213 | both L-shaped paths are arrows only, lead from the start key to the end key, and are as long as the distance |
| Keypads.ColumnRun | day-21/src/part1.rs:186-188 | a vertical run from an on-pad cell stays on the pad unless it reaches the gap |
| Keypads.RowRun | day-21/src/part1.rs:193-195 | a horizontal run from an on-pad cell stays on the pad unless it reaches the gap |
| Keypads.VertFirstSafe | day-21/src/part1.rs:183-189 | moving vertically first avoids the gap iff it does not start in the gap's column and end in its row |
| Keypads.HorzFirstSafe | day-21/src/part1.rs:190-196 | moving horizontally first avoids the gap iff it does not start in the gap's row and end in its column |
| Keypads.Straight | day-21/src/part1.rs:208-213 | with no turn both L-shaped paths are the same straight run |
| Keypads.NumericKeys | day-21/src/part1.rs:137-155 | every door key is on its pad, and the guards' key tests are exactly the gap's row and column |
| Keypads.DirectionalKeys | day-21/src/part1.rs:156-166 | every arrow key is on its pad; '^' and 'A' are the gap's row and '<' its column |
| Keypads.KeysOnPad | day-21/src/part1.rs:137-166 | every key of a pad sits on it |
| Keypads.PathsByPosition | day-21/src/part1.rs:168-257 | the guards on key names of both pads are tests of the gap's row and column on the keys' cells |
| Keypads.CandidatesExact | day-21/src/part1.rs:168-257 | by position, the candidates are exactly the L-shaped paths that stay on the pad |
| Keypads.CandidatesProps | day-21/src/part1.rs:168-257 | by position, there is a candidate and each leads from cell to cell in the distance's number of arrows without leaving the pad |
| Keypads.PathsExact | day-21/src/part1.rs:168-257 | the candidate paths between two keys are exactly the L-shaped ones whose arm never passes over the gap |
| Keypads.PathsProps | day-21/src/part1.rs:168-257 | there is at least one candidate, and each is a shortest arrow sequence from key to key that stays on the pad |
| Keypads.FollowLowerBound | day-21/src/part1.rs:168-257 | no arrow sequence reaches a cell in fewer presses than its distance, so the candidates are shortest |
| Keypads.GapPathAsWritten | day-21/src/part1.rs:215-257 | as written, the arrow pad offers "^>>" from '<' to 'A', which passes over the gap |
| Keypads.UpRightOffered | day-21/src/part1.rs:235-250 | the dead guard lets both L-shapes through from '<' to 'A' |
| Keypads.UpRightLeaves | day-21/src/part1.rs:162 | "^>>" from '<' enters the gap |
| Keypads.AsWrittenAgrees | day-21/src/part1.rs:230-257 | except from '<' to '^' or 'A', the paths are the ones the code gives |
| Keypads.BuildTable | day-21/src/part1.rs:92-135 | the table built over `tuple_combinations`, both ways round, maps every ordered pair of different keys to its candidate paths |
| Keypads.InsertPairs | day-21/src/part1.rs:99-110 | the pairs with key i first fill their entries both ways round |
| Keypads.FilledStep | day-21/src/part1.rs:101-108 | inserting one pair both ways round covers it |
| Keypads.CoveredNone | day-21/src/part1.rs:97 | the table starts empty |
| Keypads.CoveredStep | day-21/src/part1.rs:99-110 | each pair adds itself both ways round |
| Keypads.CoveredRow | day-21/src/part1.rs:99 | the end of one row of pairs is the start of the next |
| Keypads.CoveredAll | day-21/src/part1.rs:99-112 | all the pairs of distinct keys are covered, both ways round |
| Keypads.TableIs | day-21/src/part1.rs:92-135 | a table holding every pair's paths is the table |
| Keypads.KeyCostOne | day-21/src/part1.rs:52-65 | with one robot a transition costs the arm's distance plus the press |
| Keypads.PressesOne | day-21/src/part1.rs:52-65 | with one robot a sequence costs one press per step plus the arm's travel |
| Keypads.CodeLenOne | day-21/src/part1.rs:47-65 | with one robot, a key sequence costs one press per key and its final 'A', plus the arm's travel from 'A' and back |
| Keypads.CheapestIs | day-21/src/part1.rs:74-83 | `.min()` is the cost of one candidate and no more than any of them |
| Keypads.KeyCostMono | day-21/src/part1.rs:66-89 | one more robot never makes a transition cheaper |
| Keypads.PressesMono | day-21/src/part1.rs:66-89 | one more robot never makes a key sequence's transitions cheaper |
| Keypads.CodeLenMono | day-21/src/part1.rs:47-90 | one more robot never makes a key sequence cheaper to type |
| Keypads.CheapestMono | day-21/src/part1.rs:74-83 | the cheapest candidate is no cheaper with one more robot |
| Keypads.CodeLenAtLeastOne | day-21/src/part1.rs:47-90 | however many robots, a key sequence costs at least what it costs with one |
| Keypads.NumpadPressesMono | day-21/src/part1.rs:27-45 | the door code's transitions are no cheaper with one more robot |
| Keypads.NumpadMono | day-21/src/part1.rs:27-45 | one more robot never makes a door code cheaper |
| Keypads.DoorStepLower | day-21/src/part1.rs:34-43 | a door transition costs at least the arm's distance plus the press |
| Keypads.NumpadPressesLower | day-21/src/part1.rs:31-44 | a door sequence costs at least one press per step plus the arm's travel |
| Keypads.NumpadLower | day-21/src/part1.rs:27-45 | every key of the code costs at least the door arm's travel to it plus its press |
| Keypads.ComplexityConcat | day-21/src/part1.rs:9-25 | the total complexity of a list of codes is the sum over any split of it |
| Keypads.ValidConcat | day-21/src/part1.rs:9-25 | valid codes stay valid when lists are joined |
| Keypads.NumericPaths | day-21/src/part1.rs:168-214 | the door pad's candidate routes between two keys; through `Paths`, PathsExact and PathsProps show they are exactly the L-shaped shortest routes that keep the arm off the gap, each reaching the target key in as many moves as the grid distance, and DoorStepLower that the cheapest costs at least that distance plus the press |
| Keypads.KeypadPaths | day-21/src/part1.rs:215-257 | the arrow pad's routes with the second guard corrected; PathsExact and PathsProps give the same characterisation as for the door pad, KeypadArrows that there is always one, and AsWrittenAgrees / LeftToUpPaths / LeftToAPaths that it differs from the code as written only from '<' to '^' or 'A' |
| Keypads.LeftToUpPaths | day-21/src/part1.rs:230-257 | from '<' to '^' the code as written offers "^>" and ">^", the corrected table only ">^" |
| Keypads.LeftToAPaths | day-21/src/part1.rs:230-257 | from '<' to 'A' the code as written offers "^>>" and ">>^", the corrected table only ">>^" |
| Keypads.KeyCost | day-21/src/part1.rs:47-90 | one arrow-pad transition: KeyCostOne gives the distance plus one press at the last robot, KeyCostMono that it never falls as robots are added, and FirstLengthAgrees / CheapestAgrees that at depths 1 and 2 it is the same whether the table is corrected or as written |
| Keypads.FirstLengthAgrees | day-21/src/part1.rs:52-65 | at the last robot, the first as-written path's length plus the press equals the transition cost of the corrected table |
| Keypads.CheapestAgrees | day-21/src/part1.rs:66-89 | the cheapest as-written path one robot down costs exactly the corrected transition cost at depth 2, including from '<' to '^' and 'A' where the two tables differ |
| Keypads.LeftToUpCheapest | day-21/src/part1.rs:66-89 | from '<' to '^' both as-written turns cost 7 presses one robot down, the corrected transition cost at depth 2 |
| Keypads.LeftToACheapest | day-21/src/part1.rs:66-89 | from '<' to 'A' both as-written turns cost 8 presses one robot down, the corrected transition cost at depth 2 |
| Keypads.Cheapest | day-21/src/part1.rs:66-89 | the `.min()` over the candidates: CheapestIs shows some listed path attains it and no listed path is cheaper, CheapestMono that it never falls as robots are added |
| Keypads.Complexity | day-21/src/part1.rs:9-25 | the puzzle answer, summed code by code: ComplexityConcat shows it adds up over any split of the list of codes |
| Keypads.KeypadCodeLen | day-21/src/part1.rs:47-90 | `get_keypad_code_len`: an arrow sequence typed from 'A' and confirmed with 'A'; CodeLenOne shows that with one robot it is one press per key plus the arm's travel, CodeLenMono that one more robot never makes it cheaper, and CodeLenAtLeastOne that it never falls below the one-robot cost |
| Keypads.NumpadCodeLen | day-21/src/part1.rs:27-45 | `get_numpad_code_len`: a door code typed from 'A'; NumpadMono shows one more robot never makes it cheaper, and NumpadLower that every key costs at least the door arm's travel to it plus its press |
| MonkeyMarket.Prune | day-22/src/part1.rs:40-42 | the pruned secret is below 2^24 |
| MonkeyMarket.MixBit | day-22/src/part1.rs:36-38 | each bit of a mix is the exclusive or of the operands' bits |
| MonkeyMarket.PruneBit | day-22/src/part1.rs:40-42 | pruning keeps the low 24 bits and clears every other |
| MonkeyMarket.Next | day-22/src/part1.rs:22-33 | every generated secret is below 2^24 |
| MonkeyMarket.Nth | day-22/src/part1.rs:10-33 | from the first step on, every secret is below 2^24 |
| MonkeyMarket.Modulus24 | day-22/src/part1.rs:41 | 16777216 is 2^24 |
| MonkeyMarket.NextInStages | day-22/src/part1.rs:23-31 | a step is a mix with the left shift by 6, then the right shift by 5, then the left shift by 11, each pruned |
| MonkeyMarket.MixUpBit | day-22/src/part1.rs:23-30 | after mixing with a left shift by d, bit k is bit k xor bit k - d |
| MonkeyMarket.MixDownBit | day-22/src/part1.rs:26-27 | after mixing with a right shift by d, bit k is bit k xor bit k + d, below bit 24 |
| MonkeyMarket.MixUpBitsAgree | day-22/src/part1.rs:23-30 | two secrets with the same left-shift mix agree on every bit, recovered from the lower ones |
| MonkeyMarket.MixDownBitsAgree | day-22/src/part1.rs:26-27 | two 24-bit secrets with the same right-shift mix agree on every bit, recovered from the higher ones |
| MonkeyMarket.MixUpInjective | day-22/src/part1.rs:23-30 | the left-shift stage loses nothing on 24-bit secrets |
| MonkeyMarket.MixDownInjective | day-22/src/part1.rs:26-27 | the right-shift stage loses nothing on 24-bit secrets |
| MonkeyMarket.NextInjective | day-22/src/part1.rs:22-33 | two different 24-bit secrets never have the same successor: a step permutes the secrets below 2^24 |
| MonkeyMarket.SumOfSecrets | day-22/src/part1.rs:5-15 | the sum of the buyers' 2000th secrets is below 2^24 per buyer |
| MonkeyMarket.SumOfSecretsConcat | day-22/src/part1.rs:7-12 | the sum over two lists of buyers is the sum of the two sums |
| MonkeyMarket.MixExample | day-22/src/part1.rs:69-72 | mixing 42 with 15 gives 37 |
| MonkeyMarket.PruneExample | day-22/src/part1.rs:73-76 | pruning 100000000 gives 16113920 |
| MonkeyMarket.Price | day-22/src/part2.rs:45 | a price is one decimal digit |
| MonkeyMarket.CostAndChange | day-22/src/part2.rs:40-48 | each pair is a later price and its change from the price before it, a change between -9 and 9 |
| MonkeyMarket.PriceChange | day-22/src/part2.rs:45-47 | pair i is the price after step i + 1 and its difference from the price after step i |
| MonkeyMarket.Windows | day-22/src/part2.rs:14-18 | `tuple_windows` over four pairs gives one window per run of four consecutive pairs |
| MonkeyMarket.FirstIsEarliest | day-22/src/part2.rs:17-19 | a key's price is taken at its earliest window, and no price is taken when no window has it |
| MonkeyMarket.FirstPrices | day-22/src/part2.rs:15-22 | with `or_insert` each key of the buyer's map keeps the price of its first window |
| MonkeyMarket.Merge | day-22/src/part2.rs:24-30 | merging adds each of the buyer's prices to the key's running total and keeps every other total |
| MonkeyMarket.MergeStep | day-22/src/part2.rs:25-29 | `and_modify` adds to an existing total and `or_insert` starts a new one |
| MonkeyMarket.Gain | day-22/src/part2.rs:11-22 | a buyer pays at most 9 for any key |
| MonkeyMarket.BuyerMap | day-22/src/part2.rs:11-22 | the buyer's map sells every key at the first of its 2000 prices with those four changes, and holds the key of the first window |
| MonkeyMarket.Bananas | day-22/src/part2.rs:8-33 | all buyers together pay at most 9 bananas each for one key |
| MonkeyMarket.MaxValue | day-22/src/part2.rs:35 | `values().max()` is a value of the map and at least every other |
| MonkeyMarket.BestBananas | day-22/src/part2.rs:6-38 | the answer is the bananas some sequence of four changes earns, and no sequence earns more |
| MonkeyMarket.FirstKeyPaid | day-22/src/part2.rs:15-22 | every buyer's map holds at least the key of its first window, so the merged map is not empty |
| MonkeyMarket.TotalsStep | day-22/src/part2.rs:10-32 | after each buyer the merged map holds, for every key, what the buyers so far pay for it |
| MonkeyMarket.BestOfTotals | day-22/src/part2.rs:35 | the largest total is the best any key earns |
| MonkeyMarket.BananasConcat | day-22/src/part2.rs:8-33 | the totals add up over two lists of buyers |
| MonkeyMarket.Mix | day-22/src/part1.rs:36-38 | the mix; MixBit shows each bit of the result is the sum modulo 2 of the two inputs' bits, MixExample gives the worked example |
| RobotQuadrants.HundredSteps | day-14/src/part1.rs:24-30 | the closed form `p + 100v` wrapped is where 100 single wrapped steps leave each robot, and it is on the map |
| RobotQuadrants.FinalIsClosed | day-14/src/part1.rs:27-28 | it is the closed form of the motion for 100 seconds |
| RobotQuadrants.MirrorColumns | day-14/src/part1.rs:35-47 | mirroring left and right swaps quadrants 0 and 2, 1 and 3, and keeps the middle column excluded |
| RobotQuadrants.MirrorRows | day-14/src/part1.rs:35-47 | mirroring top and bottom swaps quadrants 0 and 1, 2 and 3, and keeps the middle row excluded |
| RobotQuadrants.CountsPartition | day-14/src/part1.rs:32-54 | exactly the robots off the middle lines are counted, each in exactly one of the four quadrants |
| RobotQuadrants.ExampleFactor | day-14/src/part1.rs:63-79 | on the 101 by 103 map the sample's robots end 7, 3, 1 and 1 per quadrant, factor 21 |
| RobotQuadrants.ExampleClassified | day-14/src/part1.rs:63-79 | the quadrants of the twelve sample robots, in order |
| RobotQuadrants.ExampleRobots0 | day-14/src/part1.rs:65-68 | the quadrants of sample robots 1 to 4 |
| RobotQuadrants.ExampleRobots1 | day-14/src/part1.rs:69-72 | the quadrants of sample robots 5 to 8 |
| RobotQuadrants.ExampleRobots2 | day-14/src/part1.rs:73-76 | the quadrants of sample robots 9 to 12 |
| RobotQuadrants.ExampleCounts | day-14/src/part1.rs:51-54 | the sample's per-quadrant counts |
| RobotQuadrants.ExampleCounts0 | day-14/src/part1.rs:51-54 | the counts of the first six sample quadrants |
| RobotQuadrants.ExampleCounts1 | day-14/src/part1.rs:51-54 | the counts of the last six sample quadrants |
| RobotQuadrants.ClassifiedSnoc | day-14/src/part1.rs:32-49 | one more robot adds its quadrant, if it has one |
| RobotQuadrants.CountConcat | day-14/src/part1.rs:51-54 | counts add up over two parts |
| RobotQuadrants.ClassifiedConcat | day-14/src/part1.rs:32-49 | classifying two groups of robots classifies each |
| RobotQuadrants.CountSnoc | day-14/src/part1.rs:51-54 | one more quadrant adds one to its own count only |
| RobotQuadrants.Quadrant | day-14/src/part1.rs:35-47 | a robot's quadrant; MirrorColumns and MirrorRows show that mirroring a position swaps the quadrants and leaves the middle lines out |
| RobotQuadrants.SafetyFactor | day-14/src/part1.rs:32-54 | the product of the quadrant counts; CountsPartition shows the counts split the robots off the middle lines, and ExampleFactor gives 21 on the example |
| RobotTree.Move | 2024/day-14/src/part2.rs:26 | a moved robot keeps its velocity and lands on the map |
| RobotTree.StepAll | 2024/day-14/src/part2.rs:25-27 | every robot moves once, in order |
| RobotTree.After | 2024/day-14/src/part2.rs:24-33 | n seconds keep the number of robots |
| RobotTree.Step | 2024/day-14/src/part2.rs:25-27 | the in-place loop leaves the array holding every robot moved once |
| RobotTree.FindTree | 2024/day-14/src/part2.rs:19-36 | the answer is the first second after which the positions are pairwise distinct; None only when none of the first `fuel` seconds is; the array ends at that second's positions |
| RobotTree.AllUniqueIsTreeTest | 2024/day-14/src/part2.rs:38-42 | `all_unique` holds iff no two robots share a position |
| RobotTree.ModAddMultiple | 2024/day-14/src/part2.rs:26 | adding whole periods does not change `rem_euclid` |
| RobotTree.ModAdd | 2024/day-14/src/part2.rs:26 | wrapping before an addition is wrapping after it |
| RobotTree.CoordinateStep | 2024/day-14/src/part2.rs:26 | one more second on one coordinate of the closed form |
| RobotTree.MulPred | 2024/day-14/src/part2.rs:26 | n - 1 velocities and one more are n |
| RobotTree.CoordinatePeriod | 2024/day-14/src/part2.rs:26 | a whole period later each coordinate is where it was |
| RobotTree.AfterClosedForm | 2024/day-14/src/part2.rs:24-33 | after n >= 1 seconds a robot sits at its start plus n times its velocity, wrapped |
| RobotTree.ClosedFormStep | 2024/day-14/src/part2.rs:26 | moving from the closed form of n - 1 seconds gives that of n |
| RobotTree.VelocitiesKeptPositionsInside | 2024/day-14/src/part2.rs:25-27 | velocities never change, and from the first second on every robot is on the map |
| RobotTree.Periodic | 2024/day-14/src/part2.rs:24-33 | the motion repeats every width times height seconds |
| RobotTree.NeverTree | 2024/day-14/src/part2.rs:24-33 | when none of the first width times height seconds passes the test none ever does, so the loop would never stop |
| Stones.SplitRejoins | day-11/src/part2.rs:21-26 | the halves rejoin as hi * 10^k + lo with lo below 10^k |
| Stones.DivTen | day-11/src/part2.rs:21-26 | dividing by 10m is dividing by 10 and then by m |
| Stones.DropDigits | day-11/src/part2.rs:21-26 | dropping k low digits of a number with more than k digits leaves the rest |
| Stones.SplitHalves | day-11/src/part2.rs:21-26 | a positive number of 2k digits splits into a left half of exactly k digits and a right half of at most k |
| Stones.RightHalf | day-11/src/part2.rs:25 | a remainder below 10^k has at most k digits |
| Stones.BlinkSize | 2024/day-11/src/part1.rs:12-19 | a stone becomes two stones exactly when it is not 0 and has an even number of digits, else one |
| Stones.FlatMapLength | 2024/day-11/src/part1.rs:10-20 | when each stone becomes one or two stones, a round never shrinks the row and at most doubles it |
| Stones.IterateLength | 2024/day-11/src/part1.rs:9-24 | and so the row never shrinks over any number of rounds |
| Stones.BlinkAllLength | 2024/day-11/src/part1.rs:10-20 | a blink never shrinks the row and at most doubles it |
| Stones.BlinksLength | 2024/day-11/src/part1.rs:9-24 | the row never shrinks over blinks |
| Stones.FlatMapConcat | 2024/day-11/src/part1.rs:10-20 | stones change independently: a round over a row is the round over each part of it |
| Stones.IterateConcat | 2024/day-11/src/part1.rs:9-24 | and so over any number of rounds |
| Stones.IterateNothing | 2024/day-11/src/part1.rs:9-24 | an empty row stays empty |
| Stones.IterateFirst | 2024/day-11/src/part1.rs:9-24 | n rounds are one round followed by n - 1 more |
| Stones.CountIsLength | day-11/src/part2.rs:28-48 | the recursive count is the length of one stone's row after the blinks |
| Stones.LengthStep | day-11/src/part2.rs:34-43 | one step of that recursion |
| Stones.CountPositive | day-11/src/part2.rs:34-43 | a stone is still there, as one stone or more, after any number of blinks |
| Stones.OneStone | day-11/src/part2.rs:36-42 | one more blink of a stone is the later blinks of what it becomes |
| Stones.CountStep | day-11/src/part2.rs:36-42 | the recursion follows the blink rule |
| Stones.RowLength | day-11/src/part2.rs:40 | the stones of a row of one or two stones add up |
| Stones.StoneCount | day-11/src/part2.rs:28-48 | the memoised count is the length of the stone's row after the blinks, and the table only gains correct entries |
| Stones.RowStep | day-11/src/part2.rs:13-16 | the counts of a row add up stone by stone |
| Stones.TotalStones | day-11/src/part2.rs:3-19 | the answer is the number of stones of the whole row after 75 blinks |
| Stones.FirstBlinkExample | 2024/day-11/src/part1.rs:40-45 | "125 17" becomes 253000, 1 and 7 on the first blink |
| Stones.Blink | 2024/day-11/src/part1.rs:12-19 | one stone's blink; BlinkSize shows it yields one or two stones, two exactly for a non-zero number with an even count of digits |
| Stones.Count | day-11/src/part2.rs:28-48 | the memoised count; CountIsLength shows it is the length of the row that blinking the stone that many times produces, CountStep how it splits over one blink |
| Stones.StonesAfter25 | 2024/day-11/src/part1.rs:1-26 | part 1 `process`, the length of the row after 25 blinks; BlinksLength shows the row never shrinks, and IterateConcat that each stone's descendants can be counted on their own |
| TowelDesigns.ValidateDesign | 2024/day-19/src/part1.rs:35-58 | the memoised check says whether the design is possible, and the table only gains correct entries, including the design's own |
| TowelDesigns.PossibleCount | 2024/day-19/src/part1.rs:21-30 | no more designs are possible than there are designs |
| TowelDesigns.Process | 2024/day-19/src/part1.rs:13-33 | the answer counts the possible designs, each checked with a fresh table |
| TowelDesigns.ConcatPrepend | 2024/day-19/src/part1.rs:46-50 | laying one more towel in front prepends its stripes |
| TowelDesigns.PossibleFromEarlier | 2024/day-19/src/part1.rs:43-54 | one towel that works makes the `any` succeed |
| TowelDesigns.PossibleIsComposed | 2024/day-19/src/part1.rs:35-58 | a design the check accepts is a row of one or more towels |
| TowelDesigns.PossibleFromIsComposed | 2024/day-19/src/part1.rs:43-54 | so is a design the `any` from towel k accepts |
| TowelDesigns.ComposedIsPossible | 2024/day-19/src/part1.rs:35-58 | every row of one or more non-empty towels is accepted |
| TowelDesigns.PossibleIffComposed | 2024/day-19/src/part1.rs:35-58 | the check accepts exactly the designs that are rows of towels |
| TowelDesigns.EmptyImpossible | 2024/day-19/src/part1.rs:43-54 | the empty design is never accepted |
| TowelDesigns.PossibleCountConcat | 2024/day-19/src/part1.rs:21-30 | the count over a list of designs is the sum over its parts |
| TowelArrangements.CountValidDesigns | 2024/day-19/src/part2.rs:33-59 | the memoised count is the number of arrangements of the design, and the table only gains correct entries |
| TowelArrangements.Process | 2024/day-19/src/part2.rs:13-31 | the answer sums the arrangements of every design, each counted with a fresh table |
| TowelArrangements.ArrangedIffPossible | 2024/day-19/src/part2.rs:33-59 | a design has an arrangement exactly when part 1 accepts it |
| TowelArrangements.ArrangedFromIffPossibleFrom | 2024/day-19/src/part2.rs:41-55 | the `sum` from towel k is positive exactly when part 1's `any` from towel k holds |
| TowelArrangements.EmptyHasNone | 2024/day-19/src/part2.rs:41-55 | the empty design has no arrangement |
| TowelArrangements.TotalBoundsPossible | 2024/day-19/src/part2.rs:19-28 | every possible design counts at least once, so the part 2 total is at least part 1's count |
| XmasSearch.MatchesSpells | day-04/src/part2.rs:34-40 | a direction matches exactly when its three cells lie on the grid and spell "MAS" |
| XmasSearch.OffGrid | day-04/src/part2.rs:37-39 | a direction that runs off the grid within three steps never matches |
| XmasSearch.CountTrueBound | day-04/src/part2.rs:41-42 | an 'X' matches in at most eight directions |
| XmasSearch.TotalCountsOccurrences | day-04/src/part2.rs:16-49 | the answer is the number of (cell, direction) pairs where an 'X' is followed by "MAS" |
| XmasSearch.CountTrueIndices | day-04/src/part2.rs:41-42 | counting the true entries counts the directions that match |
| XmasSearch.DirsCount | day-04/src/part2.rs:31-45 | the count at one 'X' is its number of matching directions |
| XmasSearch.DisjointCard | day-04/src/part2.rs:46 | disjoint parts add up |
| XmasSearch.RowCount | day-04/src/part2.rs:28-46 | the sum over a line's first cells counts its occurrences |
| XmasSearch.RowsCount | day-04/src/part2.rs:28-46 | the sum over the first lines counts their occurrences |
| XmasSearch.RowSplit | day-04/src/part2.rs:28-46 | a line's occurrences split disjointly cell by cell |
| XmasSearch.RowsSplit | day-04/src/part2.rs:28-46 | the grid's occurrences split disjointly line by line |
| XmasSearch.RowBound | day-04/src/part2.rs:28-46 | a line of x cells holds at most 8x occurrences |
| XmasSearch.BothWays | day-04/src/part2.rs:16-49 | the line "XMASAMX" holds the word twice, once each way |
| XmasSearch.LineSum | day-04/src/part2.rs:28-46 | only its two ends hold 'X', each with one match |
| XmasSearch.OnlyDirection | day-04/src/part2.rs:32-42 | from either end "MAS" follows in exactly one direction |
| XmasSearch.OffLine | day-04/src/part2.rs:37-39 | every other direction leaves the line or runs off its end |
| XmasSearch.CountTrueOne | day-04/src/part2.rs:41-42 | one true entry counts one |
| XmasSearch.CountTrueNone | day-04/src/part2.rs:41-42 | no true entry counts none |
| XmasSearch.Total | day-04/src/part2.rs:16-49 | the count; TotalCountsOccurrences shows it is the number of (position, direction) pairs from which the word reads in the grid |

## Left out

- Text parsing (`nom`, `nom_locate`, `regex`, `str::parse`) is library plumbing. Each model takes the parsed values as inputs. Two exceptions are modelled: the JSON grammar of 2015 day 12, with a print/parse round trip, and the digit decoding of the 2024 day 9 disk map.
- 2015 day 4 (`2015/day-04/src/part1.rs`, `part2.rs`) searches by brute force over MD5 hashes, which come from a foreign library.
- The shortest-path searches of `day-18/src/part2.rs`, `day-20/src/part1.rs` and `day-20/src/part2.rs` call `pathfinding::dijkstra`. The triangle count of `2024/day-23/src/part1.rs` calls `petgraph`. Those libraries are not part of this model.
- These files only parse, stop at `todo!` or are empty, so they have no behaviour to model: `day-17/src/part1.rs`, `2015/day-07/src/part1.rs`, `day-24/src/part1.rs`, `2015/day-15/src/part1.rs`, `2015/day-13/src/part1.rs`, `day-06/src/part1.rs`, `day-18/src/part1.rs`, `2015/day-03/src/part1.rs`, `2015/day-05/src/part1.rs`, `day-04/src/part1.rs`, `2015/day-12/src/part1.rs`, `day-25/src/part1.rs`, `2015/day-02/src/part1.rs` and `day-12/src/part1.rs`.
- `2015/day-07/src/bin/part1.rs` only reads a file and prints.
- `day-15/src/part1.rs` and `day-15/src/part2.rs` do not compile (an undefined `Object::Box`) or loop without a body, so they are not modelled.
- `split_num_digits` counts digits with the floating-point `log10`. Stones models it with the exact integer digit count, which `checked_ilog10` also uses. It does not model the rounding of `f64` for numbers near 10^15 and above.
- Integer widths: Routes, Recipes, Seating, ReindeerRace, BrightnessGrid, JsonSum and Stones compute with unbounded integers. They do not model the overflow of `u32`, `i32`, `i64` or `u64` (a brightness above 2^32 - 1, a stone times 2024 beyond 2^64).
- Samples whose literal evaluation is too large for the verifier are not evaluated:
  - 2024 day 9 (1928 and 2858);
  - 2024 day 22 (the 2000th secrets of 1, 10, 100 and 2024, and the 123 price list);
  - 2024 day 21 (126384);
  - 2024 day 6 (41 and 6);
  - 2024 day 19 (6 in part 1 and 16 in part 2);
  - 2024 day 10 (36);
  - 2024 day 8 (14);
  - 2024 day 12 (1930 in part 1 and 1206 in part 2);
  - 2015 day 11 (the searches from "abcdefgh" to "abcdffaa" and from "ghijklmn" to "ghjaabcc");
  - 2015 day 14 (689 points after the 1000-second race of part 2);
  - 2024 day 11 (55312);
  - 2015 day 15 (57600000: the 40/60 split is checked to qualify and to score 57600000, not that it is the best).
  The properties are proved for all inputs instead.
- The test expectations at `day-04/src/part2.rs:67` and `day-11/src/part2.rs:57` are not used, and neither is the ignored test of `day-17/src/part2.rs`.
- `dbg!`, `println!`, `miette` error wrapping and the `cfg(test)` map size are not modelled. The robots use the 101 by 103 map of the normal build.
- OpcodeMachine.Program.Solve: the interpreter runs for at most `fuel` instructions, since a program can jump forever (JumpToSelfSpins); running out is reported as its own outcome.
- SeedSearch.Process: each candidate run is limited by `fuel`, as in OpcodeMachine. The process returns the number of matched outputs when the whole program matches, because that is what the code returns.
- SeedSearch.Program.constructor requires at least three numbers and whole instruction pairs. The source's slice pattern panics on fewer, and `c[1]` panics on an odd program.
- PasswordRules.NextPassword requires eight lower-case letters, as does PasswordRules.Password.constructor, because the source unwraps `from_str`, which rejects anything else. The search is bounded by `fuel`.
- GuardPatrol.Patrol requires at least one obstacle, because `minmax().into_option().unwrap()` panics without one. The walk is bounded by `fuel`, and the bounds are the obstacles' bounding box, as written.
- GuardLoops.Process requires at least one obstacle, for the same reason. Both walks are bounded by `fuel`. A guard walled in on all four sides turns forever without the state check, which the source never makes while turning; the model reports it as out of fuel.
- RobotTree.FindTree is bounded by `fuel`. RobotTree.NeverTree shows that width times height seconds decide whether the source's loop ever stops.
- ClawMachine.CountTokensIffSolution requires a non-zero determinant, because the source divides by it and panics when the two buttons are parallel.
- ReindeerRace.FarthestIs and the race require `endurance + rest > 0`, because the source divides by it.
- Keypads.ComplexityConcat requires valid door codes: no key twice in a row, and digits before the final key. The source panics on a table lookup for a repeated key and on `parse().unwrap()` otherwise.
- LightGrid.Process and BrightnessGrid.Process require every rectangle to lie inside the 1000 by 1000 grid. The source would write a cell of the next row for an x past the edge, or panic past the end.
- BlockCompaction.Process and FileCompaction.Process require a map of decimal digits, because `to_digit(10).unwrap()` panics on anything else.
- TrailSearch.SearchPath requires the start cell to be on the map, which `process` always satisfies.
- Floors.ScanFrom requires that the instructions still reach the basement, because `.find(..).unwrap()` at `2015/day-01/src/part2.rs:17` panics when they never do. That panic is excluded, not modelled.
- Floors.FirstBasement requires that the instructions reach the basement, for the same `unwrap` at `2015/day-01/src/part2.rs:17`.
- ReportSafety.IsSafeReport requires at least two levels, because `input[1]` at `day-02/src/part1.rs:21` panics on a shorter report.
- MonkeyMarket.BestBananas requires at least one buyer, because `values().max().unwrap()` at `day-22/src/part2.rs:35` panics when no buyer gives any price change sequence.
- Keypads.KeyCost uses the corrected arrow-pad table (see the Findings). Keypads.FirstLengthAgrees and Keypads.CheapestAgrees prove that, at depths 1 and 2, a transition costs the same with the table as written. Those are the only depths `process` reaches from the door pad. The model does not carry the as-written table through a separate copy of the cost functions.
- Keypads.Complexity is computed with the corrected table, through Keypads.KeyCost. By the two lemmas above, the per-transition costs it adds up are the ones the code as written gives at depth 2.

## Findings

| source | as written | input that shows it | evidently intended | confidence | as-written member | corrected member |
|---|---|---|---|---|---|---|
| 2015/day-14/src/part1.rs:38-46 | `distance_over_duration` adds a whole flight only when the remainder of the race exceeds the endurance. A race ending during a flight, or exactly at its end, drops that flight. | Comet (14 km/s for 10 s, rest 127 s) over 10 seconds gives 0 km | the distance flown, 140 km, as part 2's `distance_at_second` computes it | not executed | ReindeerRace.FlightDropped | ReindeerRace.FarthestIs |
| day-13/src/part1.rs:22-28 | `count_tokens` accepts the Cramer solution without checking that the press counts are non-negative, then casts `3a + b` with `as usize` | buttons A = (2, 1), B = (1, 1), prize (1, 5): a = -4, b = 9 gives the wrapped cost 2^64 - 3 | the machine cannot be won with a negative press count, so it pays nothing | not executed | ClawMachine.NegativePressesAccepted | ClawMachine.CountTokensIffSolution |
| day-21/src/part1.rs:235 | the second guard of `get_keypad_shortest_path` asks for `to` to be both '^' or 'A' and '<', so it never holds | from '<' to 'A' both L-shaped paths are offered, and "^>>" moves the arm over the gap | from '<' to '^' or 'A', go right first, mirroring the first guard; the shortest press counts do not change, since Keypads.FirstLengthAgrees and Keypads.CheapestAgrees give the same transition costs at depths 1 and 2 | not executed | Keypads.GapPathAsWritten | Keypads.PathsExact |
