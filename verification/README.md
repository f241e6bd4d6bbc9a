# Advent of Code 2025 (xIceFox) — a Dafny model of the puzzle cores

This project models, as pure Dafny functions, lemmas and a few methods, the
logic at the heart of the Rust solutions in the repository
`xIceFox/advent-of-code-2025`, and proves what each piece promises.

- **Day 1: `Dial` and `Instruction`.** The dial has positions 0..99 and
  is turned left or right by a number of clicks. It counts two things:
  how often a turn ends on 0 (`zero_hits`) and how often any click passes
  0 (`zero_wraps`). An instruction is parsed from text such as `L68`.
  The closed formula in `turn` is proved equal to counting click by
  click.
- **Day 2: repeated-block ids.** `matches_pattern` and the two
  `is_invalid_id` tests are modelled. Part 1 flags an id whose decimal
  text is some block written twice. Part 2 flags an id whose text is a
  block repeated at least twice.
- **Day 3: battery banks.** `turn_on` picks `k` batteries greedily: each
  round takes the leftmost largest joltage of a window that leaves room
  for the picks still to come. `calculate_joltage` reads the lit batteries
  as a decimal number. That the greedy picks give the largest possible
  number is not proved.
- **Day 4: the paper-roll grid.** Covers neighbour counting, the
  accessible-roll count, one removal pass, and repeated removal until no
  roll is accessible.
- **Day 6: worksheet problems.** Covers `Problem` and `Operation`,
  `uniform_line_length`, and the right-to-left column reading of part 2.
- **Day 7: the tachyon manifold.** Covers `Element` and `Grid`, and one
  beam step of the splitting loop with its timeline and split counters.
- **Day 8: the union-find.** Models `new`, `find` with path compression,
  and `union` with the group counter.
- **Day 9: the red-tile outline.** Covers classifying the outline edges,
  rectangle areas, the two "edge cuts the rectangle" tests, and the two
  maxima of the double loop.
- **`Point2D` and `Point3D`.** Covers parsing, component-wise `+`, `-`,
  `pow` and `sum`, and the squared distance.
- **The AVL interval tree in the `core` crate.** Covers:
  - `new_empty`, the batch constructor `new` with its median-split
    `build_tree`, and `insert` with its rotations and `max_end` cache;
  - the two membership queries;
  - `merge`, which joins overlapping and touching intervals into one
    sorted, disjoint list.

**Modules:**

| module | what it holds |
|---|---|
| `Base` | Shared helpers: `Option`, `Result`, `Max`/`Min`/`Abs`/`Power`. |
| `Text` | The `u32` and `i64` limits, decimal text, Rust-style `u32`/`i64` parsing, and `split`/`join`. |
| `Instruction`, `Dial` | Day 1. |
| `Day2`, `Day3`, `Day4`, `Day6`, `Day7`, `Day8`, `Day9` | One module per day. |
| `Point2D`, `Point3D` | The shared math types. |
| `Intervals` | Intervals and the merge fold. |
| `IntervalNode` | Nodes, rotations and the queries. |
| `IntervalInsert` | AVL insertion. |
| `IntervalTree` | The public tree. |

**Interval tree invariants.** The interval tree is an immutable
datatype. Its invariants are:

- A weak search order: starts in the left subtree are `<=` the node's
  start, and starts in the right subtree are `>=` it.
- The AVL balance.
- The cached `height` and `max_end`.

The order is weak because both `build_tree` and rotations after repeated
equal starts put equal starts on the left.

**Source-level behaviour the model keeps:**

- **Height of the first node.** `insert` on an empty tree creates its
  first node with height 0. Every other node is created with height 1.
  The tree invariant allows that lone node.
- **Panics.** A panic in the source becomes a `None` or `Err` result
  where the model has one, and a precondition otherwise. Day 9 `Solve`
  returns `None` for an empty input and for a diagonal edge. Day 7's beam
  step returns `None` when a beam hits the start cell.

## Model

| member | source | states |
|---|---|---|
| Instruction.Parse | src/day1/src/dial_mod/instruction.rs:9-23 | Parsing succeeds exactly for `R` or `L` followed by a valid `u32`; the result carries that letter and that number; a string shorter than two characters is refused. |
| Instruction.ParseRoundTrip | src/day1/src/dial_mod/instruction.rs:9-23 | Every direction letter followed by the decimal text of any `u32` parses back to that instruction. |
| Dial.New | src/day1/src/dial_mod/dial.rs:11-17 | A new dial sits at the given position with both counters at zero. |
| Dial.Turn | src/day1/src/dial_mod/dial.rs:19-47 | The new position is the old one moved by the signed step count, modulo 100 and never negative; `zero_hits` grows by one exactly when the turn ends on 0; `zero_wraps` grows by the number of full rotations, plus at most one. |
| Dial.TurnAll | src/day1/src/dial_mod/dial.rs:19-47 | Over a sequence of turns, neither counter ever decreases, and after at least one turn the position is below 100. |
| Dial.ZeroClicksFormula | src/day1/src/dial_mod/dial.rs:34-46 | The number of clicks that land on 0 while walking `n` clicks from `p` is `n / 100` plus the crossing in the last partial rotation. |
| Dial.TurnIsClickByClick | src/day1/src/dial_mod/dial.rs:19-47 | From a position below 100, `turn` agrees with walking the dial one click at a time: the same end position, `zero_wraps` grows by the clicks that landed on 0, and `zero_hits` grows when the walk ends on 0. |
| Dial.FromZeroOnlyFullRotations | src/day1/src/dial_mod/dial.rs:34-46 | Starting from 0, a turn passes 0 exactly once per full rotation. |
| Dial.TurnExampleLeft200 | src/day1/src/tests.rs:125-136 | L200 from 50 passes 0 twice, as the test asserts. |
| Dial.TurnExampleRight200FromZero | src/day1/src/tests.rs:265-276 | R200 from 0 passes 0 twice, as the test asserts. |
| Dial.TurnExampleThereAndBack | src/day1/src/tests.rs:45-62 | L50 then R50 from 50 passes 0 once, as the test asserts. |
| Dial.HighStartOvercounts | src/day1/src/dial_mod/dial.rs:41-46 | From 150, which `Dial::new` accepts, R10 adds a pass to `zero_wraps` although none of its ten clicks lands on 0. |
| Day2.MatchesPattern | src/day2/src/main.rs:41-52 | For a non-empty pattern, the text matches exactly when each character equals the pattern character at its index modulo the pattern length. Empty text always matches. |
| Day2.Part1IsBlockTwice | src/day2/src/main.rs:54-65 | An id is flagged in part 1 exactly when its decimal text is some block written twice. |
| Day2.IsInvalidPart2 | src/day2/src/main.rs:67-84 | An id is flagged in part 2 exactly when some prefix of length at most half the text, whose length divides the text length, repeats through the whole text. |
| Day2.Part2IsBlockRepeated | src/day2/src/main.rs:67-84 | An id is flagged in part 2 exactly when its text is some block repeated at least twice. |
| Day2.Part1ImpliesPart2 | src/day2/src/main.rs:54-84 | Every id flagged in part 1 is also flagged in part 2. |
| Day2.SingleDigitValid | src/day2/src/main.rs:54-84 | No single-digit id is flagged by either part. |
| Day2.OddLengthValid | src/day2/src/main.rs:54-65 | An id with an odd number of digits is never flagged in part 1. |
| Day2.Part1InRange | src/day2/src/tests.rs:5-45 | The `filter(..).collect()` of a range: every listed id lies in the range and is flagged, every flagged id of the range is listed, and the list strictly increases. |
| Day2.ExampleRangeSmall | src/day2/src/tests.rs:5-10 | In 11..22 exactly 11 and 22 are flagged. |
| Day2.ExampleRangeAround1000 | src/day2/src/tests.rs:19-24 | In 998..1012 exactly 1010 is flagged. |
| Day2.ExampleRangeSevenDigits | src/day2/src/tests.rs:40-45 | Nothing in 1698522..1698528 is flagged. |
| Day3.New | src/day3/src/main.rs:7-14 | A new bank has one unlit slot per battery, holding that battery's joltage, and no lit batteries. |
| Day3.SlotTurnOn | src/day3/src/main.rs:68-70 | Turning a slot on lights it and keeps its joltage. |
| Day3.Pick | src/day3/src/main.rs:28-43 | The corrected pick, scanning from the window's left end: it finds the leftmost battery with the largest joltage in the window. The scan as written is `PickAsWritten`. |
| Day3.PickAsWrittenCases | src/day3/src/main.rs:28-43 | The scan as written agrees with `Pick` when a positive joltage is in the window. When every joltage in the window is zero, it returns index 0. |
| Day3.PicksIncrease | src/day3/src/main.rs:16-44 | The corrected picks lie inside the window, strictly increase, and begin with the greedy choice. |
| Day3.TurnOnAsWritten | src/day3/src/main.rs:16-44 | The loop as written, each scan starting at index 0: `on_count` becomes `k`, every joltage is kept, and no lit battery is turned off. A slot can be picked twice, so fewer than `k` may be lit. |
| Day3.AllZeroAsWritten | src/day3/src/main.rs:16-44 | As written, bank `[0, 0, 0]` with two batteries picks slot 0 twice: `on_count` is 2 but only slot 0 is lit. |
| Day3.TurnOn | src/day3/src/main.rs:16-44 | The corrected loop, each scan starting at the window's left end: `on_count` becomes `k`, every joltage is kept, no lit battery is turned off, and on a bank with every battery off exactly `k` batteries end up lit. |
| Day3.TurnOnLightsPicks | src/day3/src/main.rs:16-44 | For the corrected loop: after `turn_on` on a fresh bank, exactly the greedily picked indices are lit. |
| Day3.CalculateJoltageIsNumber | src/day3/src/main.rs:46-55 | The joltage is the decimal number whose digits are the lit joltages, left to right. |
| Day3.TurnOnSpellsPicks | src/day3/src/main.rs:16-55 | For the corrected loop: the bank's joltage after `turn_on` is the number spelt by the picked batteries. |
| Day3.AsWrittenAgreesWhenPositive | src/day3/src/main.rs:28-43 | When all joltages are at least 1, the code as written and the corrected choice light the same batteries. |
| Day3.ZeroJoltageAsWritten | src/day3/src/main.rs:30 | As written, bank `[0, 5, 0]` with two batteries gives joltage 5. |
| Day3.ZeroJoltageIntended | src/day3/src/main.rs:16-55 | Corrected, bank `[0, 5, 0]` with two batteries gives joltage 50. |
| Day4.New | src/day4/src/main.rs:8-16 | The grid keeps the rows. Its width is the first row's length and its height is the row count. It is rectangular exactly when all rows have the first row's length. |
| Day4.Remove | src/day4/src/main.rs:22-24 | Removing clears exactly that cell and keeps the shape. |
| Day4.RemoveRoll | src/day4/src/main.rs:22-24 | Removing a roll takes exactly that one cell out of the set of rolls. |
| Day4.NeighbourCellsExact | src/day4/src/main.rs:26-49 | The cells consulted are exactly the in-bounds cells among the eight around `(x, y)`, each listed once. |
| Day4.AccessibleIffFewNeighbourRolls | src/day4/src/main.rs:51-53 | A cell is accessible exactly when fewer than four of its neighbours hold rolls. |
| Day4.GetAccessibleCount | src/day4/src/main.rs:55-74 | The count equals the number of accessible rolls, and it is zero exactly when no roll is accessible. |
| Day4.AccessibleShrinks | src/day4/src/main.rs:51-53 | A cell accessible in a grid stays accessible in any grid of the same shape with a subset of its rolls. |
| Day4.RemoveAccessible | src/day4/src/main.rs:76-96 | One pass keeps the shape and only removes rolls. The returned number is how many it removed, and it is zero exactly when no roll was accessible at the start. Every roll accessible at the start is removed. Every removed roll is accessible in the grid left behind. No roll of a stable grid within the start is removed; a stable grid has the same shape, only starting rolls, and no accessible roll. |
| Day4.RemoveAll | src/day4/src/main.rs:98-109 | Repeated passes keep the shape, only remove rolls, and return the total removed. What is left is the largest stable grid within the start: no roll left is accessible, and every stable grid within the start keeps all its rolls in it. |
| Day6.ParseFromSymbol | src/day6/src/main.rs:46-52 | Only `+` and `*` name an operation. |
| Day6.SymbolRoundTrip | src/day6/src/main.rs:46-52 | Each operation's symbol parses back to it, and no other character parses to it. |
| Day6.Identity | src/day6/src/main.rs:157-160 | The start value of the accumulator is a two-sided identity of its operation. |
| Day6.AddNumber | src/day6/src/main.rs:31-33 | Adding a number appends it and keeps the earlier numbers and the operation. |
| Day6.AddOperation | src/day6/src/main.rs:35-37 | Setting the operation keeps the numbers. |
| Day6.SolveIsAggregate | src/day6/src/main.rs:14-29 | Solving folds the numbers with the operation from its identity. An empty problem gives the identity. |
| Day6.SolveAddNumber | src/day6/src/main.rs:14-33 | Solving after adding `n` applies the operation to the previous answer and `n`. |
| Day6.UniformLineLength | src/day6/src/main.rs:62-74 | An empty grid gives `Some(0)`. Otherwise it returns the first line's length exactly when all lines have that length, and `None` when they do not. |
| Day6.ReadColumnValue | src/day6/src/main.rs:133-144 | Reading a column bottom-up with a growing multiplier yields the decimal value of the column's digits read top-down, spaces skipped. |
| Day6.ColumnNumber | src/day6/src/main.rs:133-148 | The number read from a column is the value of its digits. |
| Day6.ColumnEffect | src/day6/src/main.rs:132-166 | A column pushes its number when that number is positive. It then either continues on a blank operator cell, or solves the stacked numbers with the operator, adds the result to the total and empties the stack. |
| Day6.Part2Example | src/day6/src/main.rs:132-166 | On a two-column sheet holding 12 and 3 under `+`, the total is 15. |
| Day7.ParseFromChar | src/day7/src/main.rs:14-22 | Exactly `S`, `^`, `\|` and `.` parse to an element. |
| Day7.CharRoundTrip | src/day7/src/main.rs:14-31 | `to_char` and `parse_from_char` are inverse on elements. |
| Day7.New | src/day7/src/main.rs:41-49 | The grid keeps the map. Its width and height are one past the largest x and y, and every stored coordinate lies inside. |
| Day7.Get | src/day7/src/main.rs:62-64 | Looking up a coordinate returns the stored element exactly when the coordinate is in the map. |
| Day7.Change | src/day7/src/main.rs:66-70 | A change overwrites only an existing cell, and never adds a key. |
| Day7.IsValid | src/day7/src/main.rs:51-60 | The grid is valid exactly when every coordinate inside the width and height is stored. |
| Day7.BeamStep | src/day7/src/main.rs:136-182 | One beam fails exactly when the cell below it is the start. Otherwise the beam's multiplicity is added to each target: none off the grid, both sides of a splitter, else the cell below. Every other next-round beam keeps its multiplicity. An empty cell below, or the cells beside a splitter, become `Beam`, and every other cell and the grid's keys stay as they were. |
| Day7.SplitAt | src/day7/src/main.rs:154-171 | At a splitter, `k` is added at both side cells of the next row, both side cells that exist become `Beam`, the split count grows by one, and the total multiplicity grows by `2k`. |
| Day7.BeamStepCounts | src/day7/src/main.rs:144-173 | Leaving the grid adds the beam's multiplicity to the timelines. A splitter adds one split and doubles the multiplicity. Beams plus ended timelines are conserved otherwise. |
| Day7.BeamsMerge | src/day7/src/main.rs:178-181 | Beams arriving at the same cell add their multiplicities. |
| Day7.RoundConserves | src/day7/src/main.rs:133-184 | A round over one row's beams keeps the grid's keys. It at most doubles the live multiplicity, adds at most one split per beam, and places new beams only on the next row. |
| Day7.LastRowEndsBeams | src/day7/src/main.rs:144-147 | Beams on the last row all leave the grid, and each adds its multiplicity to the timelines. |
| Day8.New | src/day8/src/main.rs:11-19 | Every element is its own root and the group count equals the size. |
| Day8.FindFrom | src/day8/src/main.rs:21-26 | The recursive find returns the root and points `x` at it. Every other entry either keeps its parent or is pointed at its own root. |
| Day8.Compression | src/day8/src/main.rs:21-26 | Path compression keeps a forest with the same root for every element and the same set of roots. |
| Day8.Find | src/day8/src/main.rs:21-26 | `find` returns `x`'s root, keeps the structure valid and leaves every element's root and the group count unchanged. |
| Day8.Link | src/day8/src/main.rs:32-35 | Hanging one root under another keeps a forest. It sends the second root's group to the first root and removes exactly one root. |
| Day8.Union | src/day8/src/main.rs:28-36 | Afterwards `x` and `y` share a root. The count drops by one exactly when they were in different groups, only `y`'s group changes root, and the count still equals the number of groups. |
| Day8.UnionExample | src/day8/src/main.rs:28-36 | Joining 0 with 1 and 1 with 2 among three elements leaves one group. |
| Day9.Classify | src/day9/src/main.rs:33-63 | A step is an edge exactly when its ends share x or y. The edge is vertical exactly when they share x, is stored with ordered ends, and has exactly the two points as ends. |
| Day9.ClassifySymmetric | src/day9/src/main.rs:33-63 | The direction an edge is walked in does not change it. |
| Day9.Steps | src/day9/src/main.rs:33-63 | The outline exists exactly when every consecutive step is an edge. It then has one edge per step. |
| Day9.Outline | src/day9/src/main.rs:31-63 | The closed outline exists for a non-empty input without diagonal steps. It has one edge per point, and edge `i` joins point `i` to the next point, wrapping around at the end. |
| Day9.AreaBounds | src/day9/src/main.rs:72-76 | A rectangle's area is at least each side length (counted inclusively), and is 1 exactly when the corners coincide. |
| Day9.Bounds | src/day9/src/main.rs:86-89 | The borders are ordered and the area is the product of the inclusive widths. |
| Day9.HorizontalCrossesSteps | src/day9/src/main.rs:91-105 | A horizontal edge cuts the rectangle exactly when it lies strictly between the top and bottom borders and covers the left or the right border as the code tests them. |
| Day9.VerticalIsTransposedHorizontal | src/day9/src/main.rs:111-125 | The vertical test is the horizontal test with x and y swapped. |
| Day9.AnyHorizontalIff | src/day9/src/main.rs:91-105 | The `any` over horizontal edges holds exactly when some horizontal edge cuts the rectangle. |
| Day9.AnyVerticalIff | src/day9/src/main.rs:111-125 | The `any` over vertical edges holds exactly when some vertical edge cuts the rectangle. |
| Day9.Maxima | src/day9/src/main.rs:65-133 | Part 1 is the largest area over all pairs, and part 2 the largest area over pairs that no edge cuts. Each is attained by a pair or is 0, and part 2 never exceeds part 1. |
| Day9.Solve | src/day9/src/main.rs:22-133 | A result exists exactly when the outline does. Part 1 is the largest area of any pair of points and is reached by one; part 2 is the largest area of a pair whose rectangle no outline edge cuts and is reached by one, or 0 when none fits. Part 2 is at most part 1, and part 1 is 0 exactly when there are fewer than two points. |
| Point2D.Parse | src/core/src/math/point2d.rs:15-25 | Parsing succeeds exactly for two comma-separated `i64` texts, and returns their values. Any comma count other than one is a format error. Otherwise the first bad field, x before y, is reported with its text. |
| Point2D.ParseFormat | src/core/src/math/point2d.rs:15-25 | Every point with `i64` coordinates parses back from its `x,y` text. |
| Point2D.Sub | src/core/src/math/point2d.rs:44-64 | Subtraction is undone by adding back. |
| Point2D.Add | src/core/src/math/point2d.rs:66-86 | Addition is undone by subtracting back, per coordinate. |
| Point2D.AddSubInverse | src/core/src/math/point2d.rs:44-86 | `(a + b) - b == a` and `(a - b) + b == a`. |
| Point2D.Pow | src/core/src/math/point2d.rs:32-37 | Exponent 0 gives `(1, 1)` and exponent 1 gives the point itself. |
| Point2D.PowStep | src/core/src/math/point2d.rs:32-37 | For every exponent `e`, each coordinate of the point to the `e + 1` is that coordinate to the `e` times the point's own coordinate. |
| Point2D.PowAdd | src/core/src/math/point2d.rs:32-37 | For all exponents, raising to `a + b` multiplies the `a`-th and `b`-th powers coordinate by coordinate. |
| Point2D.DistanceSquaredZero | src/core/src/math/point2d.rs:27-41 | The squared distance is non-negative and symmetric, and it is zero exactly between equal points. |
| Point3D.Parse | src/core/src/math/point3d.rs:15-26 | Parsing succeeds exactly for three comma-separated `i64` texts, and returns their values. Any comma count other than two is a format error. |
| Point3D.ParseFormat | src/core/src/math/point3d.rs:15-26 | Every point with `i64` coordinates parses back from its `x,y,z` text. |
| Point3D.Sub | src/core/src/math/point3d.rs:46-68 | Subtraction is undone by adding back. |
| Point3D.Add | src/core/src/math/point3d.rs:70-92 | Addition is undone by subtracting back, per coordinate. |
| Point3D.AddSubInverse | src/core/src/math/point3d.rs:46-92 | `(a + b) - b == a` and `(a - b) + b == a`. |
| Point3D.Eq | src/core/src/math/point3d.rs:100-104 | Equality by components is structural equality, and it is equality of the difference with the origin. |
| Point3D.Pow | src/core/src/math/point3d.rs:33-39 | Exponent 0 gives `(1, 1, 1)` and exponent 1 gives the point itself. |
| Point3D.PowStep | src/core/src/math/point3d.rs:33-39 | For every exponent `e`, each coordinate of the point to the `e + 1` is that coordinate to the `e` times the point's own coordinate. |
| Point3D.PowAdd | src/core/src/math/point3d.rs:33-39 | For all exponents, raising to `a + b` multiplies the `a`-th and `b`-th powers coordinate by coordinate. |
| Point3D.DistanceSquaredZero | src/core/src/math/point3d.rs:28-43 | The squared distance is non-negative and symmetric, and it is zero exactly between equal points. |
| Intervals.Normalize | src/core/src/datastructures/interval_tree.rs:49-65 | A pair becomes an interval whose start is the smaller and whose end is the larger of the two values. |
| Intervals.NormalizeAll | src/core/src/datastructures/interval_tree.rs:17-32 | A batch is normalised entry by entry, keeping its length. |
| Intervals.SortByStart | src/core/src/datastructures/interval_tree.rs:17-32 | Sorting by start yields a permutation that is ordered by start. |
| Intervals.SortByStartStable | src/core/src/datastructures/interval_tree.rs:17-32 | The sort is stable: entries with equal starts keep their relative order. |
| Intervals.AbsorbKeeps | src/core/src/datastructures/interval_tree.rs:199-224 | Absorbing the next interval keeps the list normal and separated, and adds exactly that interval's points to the cover. |
| Intervals.MergeSeqKeeps | src/core/src/datastructures/interval_tree.rs:199-224 | Folding a start-sorted sequence into a separated list covers exactly the union of both. |
| Intervals.SeparatedIncreasing | src/core/src/datastructures/interval_tree.rs:199-224 | The starts of a separated list strictly increase. |
| IntervalNode.NewBox | src/core/src/datastructures/interval_tree.rs:116-125 | A new box holds exactly its one interval and has no children. |
| IntervalNode.UpdateMax | src/core/src/datastructures/interval_tree.rs:269-274 | Only `max_end` changes, to the largest of the node's end and its children's `max_end`. |
| IntervalNode.UpdateHeight | src/core/src/datastructures/interval_tree.rs:262-267 | Only `height` changes, to one more than the taller child. |
| IntervalNode.MaxEndIsMaximum | src/core/src/datastructures/interval_tree.rs:269-274 | In a well-formed subtree `max_end` is the largest end stored below, and some stored interval attains it. |
| IntervalNode.CachedHeightIsTrue | src/core/src/datastructures/interval_tree.rs:262-267 | In a well-formed tree the cached height is the true height. |
| IntervalNode.InOrderSorted | src/core/src/datastructures/interval_tree.rs:199-224 | The in-order walk of a search tree is sorted by start and holds only normal intervals. |
| IntervalNode.RotateRight | src/core/src/datastructures/interval_tree.rs:226-242 | A right rotation keeps the in-order sequence and the stored intervals. |
| IntervalNode.RotateLeft | src/core/src/datastructures/interval_tree.rs:244-260 | A left rotation keeps the in-order sequence and the stored intervals. |
| IntervalNode.RotateRightRebalances | src/core/src/datastructures/interval_tree.rs:147-151 | In the left-left case, a right rotation yields a valid AVL tree two levels above the right subtree. |
| IntervalNode.RotateLeftRebalances | src/core/src/datastructures/interval_tree.rs:157-161 | In the right-right case, a left rotation yields a valid AVL tree two levels above the left subtree. |
| IntervalNode.RotateLeftRightRebalances | src/core/src/datastructures/interval_tree.rs:152-156 | In the left-right case, the double rotation yields a valid AVL tree. |
| IntervalNode.RotateRightLeftRebalances | src/core/src/datastructures/interval_tree.rs:162-166 | In the right-left case, the double rotation yields a valid AVL tree. |
| IntervalNode.MaxPruneSound | src/core/src/datastructures/interval_tree.rs:172-197 | When `x` is beyond a node's `max_end`, no interval below the node can contain it. |
| IntervalNode.StartPruneSound | src/core/src/datastructures/interval_tree.rs:172-197 | When `x` fails the node's start test, no interval in the right subtree can contain it. |
| IntervalNode.NodeContains | src/core/src/datastructures/interval_tree.rs:172-197 | The pruned search answers true exactly when some stored interval contains `x` under the given border rules. |
| IntervalNode.MergeInto | src/core/src/datastructures/interval_tree.rs:199-224 | The recursive merge is the fold of the in-order sequence into the list. |
| IntervalInsert.Rebalance | src/core/src/datastructures/interval_tree.rs:145-167 | Rebalancing after one insertion yields a valid AVL tree with the same intervals. It leaves a balanced node alone and otherwise lowers it by one level. |
| IntervalInsert.NodeInsert | src/core/src/datastructures/interval_tree.rs:127-170 | Node insertion keeps a valid AVL search tree, adds exactly the one interval, and grows the height by at most one. |
| IntervalTree.NewEmpty | src/core/src/datastructures/interval_tree.rs:13-15 | An empty tree stores nothing. |
| IntervalTree.BuildTree | src/core/src/datastructures/interval_tree.rs:34-47 | The median split of a sorted batch gives a valid AVL tree of least height. Its in-order walk is the batch, and its root is the middle entry. |
| IntervalTree.New | src/core/src/datastructures/interval_tree.rs:17-32 | The batch constructor stores exactly the normalised batch. It is sorted stably by start, valid, and of least height. |
| IntervalTree.Insert | src/core/src/datastructures/interval_tree.rs:49-65 | Insertion stores exactly one more interval, the normalised pair, and keeps the tree invariant. |
| IntervalTree.InsertSymmetric | src/core/src/datastructures/interval_tree.rs:49-65 | Inserting `(a, b)` and `(b, a)` gives the same tree. |
| IntervalTree.InsertAll | src/core/src/datastructures/interval_tree.rs:49-65 | Inserting a batch one by one stores exactly the normalised batch. |
| IntervalTree.Contains | src/core/src/datastructures/interval_tree.rs:71-77 | The query answers true exactly when some stored interval contains `x` under the border flags. An empty tree contains nothing. |
| IntervalTree.ContainsIncludingBorders | src/core/src/datastructures/interval_tree.rs:67-69 | With both borders included, the query answers true exactly when `x` lies in some stored closed interval. |
| IntervalTree.Merge | src/core/src/datastructures/interval_tree.rs:79-85 | `merge` returns normal, separated intervals with strictly increasing starts. They cover exactly the stored intervals' points, and the list is empty exactly for an empty tree. |
| IntervalTree.CanonicalCover | src/core/src/datastructures/interval_tree.rs:79-85 | Two normal, separated lists that cover the same integers are equal. |
| IntervalTree.MergeIsCanonical | src/core/src/datastructures/interval_tree.rs:79-85 | `merge` returns the unique normal, separated list that covers what the tree stores. |
| IntervalTree.MergeDependsOnlyOnStored | src/core/src/datastructures/interval_tree.rs:79-85 | Trees storing the same intervals merge to the same list, whatever their shape. |
| IntervalTree.BuildMatchesInserts | src/core/src/datastructures/interval_tree.rs:17-65 | Building from a batch and inserting it one by one store the same intervals. The two trees answer every query alike and merge alike. |
| IntervalTree.ScenarioGap | src/core/src/datastructures/interval_tree.rs:67-77 | A tree holding [1,3], [2,6] and [8,10] does not contain 7, and contains 8 with both borders included. |
| IntervalTree.ScenarioOverlapMerge | src/core/src/datastructures/interval_tree.rs:79-85 | That tree merges to [1,6], [8,10]. |

## Left out

- **Input and output.** File reading, `main` drivers, printing, timing,
  `Display` implementations, `Grid::print`, `IntervalTree::print` and
  `print_tree` are not modelled. They do not affect the computed
  results.
- **Floating point.** `distance` on both point types returns an `f64`
  square root. The model keeps only the integer under the root.
- **Day 8 driver.** The distance heap is not modelled: `DistanceItem`,
  its ordering, the `BinaryHeap`, and the loop in `main` that feeds
  `union`. It is driven by floating-point distances.
- **Machine integers.** Integers are unbounded throughout. Arithmetic
  overflow of `u8`, `u32`, `u64`, `i64` and `usize` is not modelled; in
  debug builds it would be a panic. Two spots are listed on their own
  lines below: the `as i32` casts in `Dial::turn` and `last.end + 1` in
  `merge`. The general case covers:
  - the point `+`, `-` and `pow`;
  - day 3's `u64` joltage;
  - day 6's `u32` column number and `u64` totals;
  - day 7's counters;
  - day 9's `u64` area product and `abs`.
  Parsing does enforce the `u32` and `i64` ranges.
- **Day 7 beam order and outer loop.** The iteration order of day 7's
  `HashMap` of beams is unspecified in Rust. The order is therefore a
  parameter (`beams` as a sequence), and the outer `while` loop that
  repeats rounds until no beam is left is not one function. Rounds are
  modelled one at a time.
- **Day 7 missing start.** The check for a missing start cell in day 7's
  `main` is not modelled.
- **Day 6 part 1.** The part 1 parsing driver, which reads whitespace
  separated numbers into problems, is not modelled. Part 2 and the
  `Problem` operations it uses are.
- **Day 2 range loop.** The input parsing of ranges and the summing of
  flagged ids in `main` are not modelled beyond `Part1InRange`.
- **Day 9 input.** Reading and unwrapping the points in day 9 is not
  modelled; `Solve` starts from the parsed points.
- **Commented-out code.** The earlier `is_invalid_id` in day 2 is dead
  code and is not modelled.
- Instruction.Parse: requires the first character to be ASCII, because
  the source slices the first byte and panics otherwise.
- Day3.TurnOn: requires a fresh bank and `k` at most the number of
  batteries, because the source panics otherwise.
- Day3.TurnOnAsWritten: same preconditions as `TurnOn`, for the same
  reason.
- Day4.New: requires at least one row, because the source indexes the
  first row and panics on an empty grid.
- Day4.GetAccessibleCount: requires a rectangular grid. The source takes
  the width from the first row. A later row shorter than the first is
  indexed out of bounds and panics. A longer row runs without panicking,
  and its extra cells are ignored. The model states its results only for
  rectangular grids.
- Day4.RemoveAccessible: requires a rectangular grid, as above.
- Day4.RemoveAll: requires a rectangular grid, as above.
- Day6.ColumnEffect: requires a worksheet whose non-operator rows hold
  only digits and spaces. The source's `to_digit` and `parse_from_symbol`
  panic otherwise.
- Day7.New: requires non-negative coordinates. The source's `as usize`
  cast of a negative coordinate is not modelled.
- Dial.Turn: does not model the `instruction.steps as i32` casts at
  src/day1/src/dial_mod/dial.rs:21-22 and :36. The model moves by the
  full step count. A Rust `as` cast wraps silently, so a step count
  above `i32::MAX` becomes negative there and flips the turn's
  direction. `Instruction.Parse` accepts step counts up to `u32::MAX`.
- Dial.TurnIsClickByClick: holds only from a position below 100.
  `Dial::new` takes any `u8`, but the crossing test
  `pos_start + remainder >= 100` of src/day1/src/dial_mod/dial.rs:44
  assumes a start below 100. From 100 to 255 the source can count a pass
  that no click makes, as `HighStartOvercounts` shows. Every `Dial::new`
  call in the source passes 0 or 50.
- Dial.Turn: bounds `zero_wraps` between the full rotations and one
  more. The exact count is stated by `TurnIsClickByClick` and
  `ZeroClicksFormula`.
- Intervals.AbsorbKeeps: uses the test `last.end + 1 >= start` of
  src/core/src/datastructures/interval_tree.rs:206 on unbounded integers.
  In the source, `last.end + 1` overflows `i64` when `last.end` is
  `i64::MAX`.
- Day7.RoundConserves: bounds the live multiplicity after a round rather
  than stating it exactly. The exact per-beam effect is
  `BeamStepCounts`.

## Findings

| source | as written | input that shows it | evidently intended | confidence | as-written member | corrected member |
|---|---|---|---|---|---|---|
| src/day3/src/main.rs:30 | `turn_on` starts each scan with `max_idx = 0` and `max_joltage = 0`. When every joltage in the window is 0, no battery beats the initial maximum, so index 0 is lit instead of a battery in the window. | Bank `[0, 5, 0]` with two batteries to turn on: lights indices 1 and 0, giving joltage 5. | Start the scan at the window's left end, so the picks stay increasing. The answer is then 50, from indices 1 and 2. | not executed | Day3.ZeroJoltageAsWritten | Day3.ZeroJoltageIntended |
