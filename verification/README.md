# Seating-layout automaton (Advent of Code 2020, day 11) in Dafny

This project models `aoc2020/src/day11.rs`, a cellular automaton on a fixed
rectangular grid of seats. Every cell is `Floor`, `Empty` or `Occupied`. One
generation counts, for every cell, the occupied seats visible in the eight
compass directions. In `Next` mode a direction shows the adjacent cell. In
`Inf` mode the look passes over floor and shows the first seat in that
direction. Then the seating rule applies:

- an empty seat that sees no occupied seat is taken;
- an occupied seat that sees at least 4 (`Next`) or 5 (`Inf`) occupied seats is left;
- every other cell, floor included, stays as it is.

All cells are updated at once from the old grid. The driver `rec` repeats
generations until one changes nothing, then reports how many seats are
occupied.

Modules, following the parts of the source file:

- `Seats`: the cell states, `Position`, `Depth`, the letter codec (`Seat::from`
  and the `Debug` letters).
- `Text`: Rust's `str::lines` and `str::trim` as the parser uses them.
- `Grid`: `State` (layout, height, width, changes), `State::new`, `count_occupied`.
- `Parser`: `gen`, and a rendering of a layout that `gen` reads back.
- `Rules`: `next_seat`. The functions state the rule; `Walk` and `NextSeat` are
  the source's loops, proved against those functions.
- `Generation`: `update`. `Update` is the nested loop over rows and columns
  (`UpdateRow` is the inner loop), proved against the function `Step` and the
  change count `Changes`.
- `Driver`: `rec`, `solve_part1` and `solve_part2`, bounded by fuel.

Cells are indexed `seats[y][x]`. The column `x` is checked against the width
and the row `y` against the height. Rows and columns are unbounded integers.
The rule functions take the layout, height and width explicitly, so that a
generation does not depend on the recorded change count.

Two choices follow the Rust code closely:

- The code never checks that all rows have the same length, so `Gen`
  accepts ragged rows; `Update` and `Rec` require a rectangular layout.
- The two panics of the code become error values. An unknown letter gives
  `InvalidLetter(c)`, for the first such letter in reading order. Input with
  no lines gives `EmptyInput`, from `State::new` reading the first row.

## Model

| member | source | states |
|---|---|---|
| `Seats.FromChar` | aoc2020/src/day11.rs:42-51 | `.` gives Floor, `L` Empty, `#` Occupied, each exactly; every other character is the error `InvalidLetter(c)` |
| `Seats.ToChar` | aoc2020/src/day11.rs:32-40 | a seat is written as one of the three layout letters, namely the one that reads back as that seat (`.` floor, `L` empty, `#` occupied) |
| `Seats.SeatRoundTrip` | aoc2020/src/day11.rs:32-51 | reading the letter of a seat gives the seat back |
| `Seats.CharRoundTrip` | aoc2020/src/day11.rs:32-51 | a letter that reads as a seat is that seat's letter |
| `Seats.ToCharInjective` | aoc2020/src/day11.rs:32-40 | different seats have different letters |
| `Text.TrimStartSpec` | aoc2020/src/day11.rs:136 | dropping leading whitespace keeps a suffix of the input, only whitespace was dropped, and the suffix does not start with whitespace |
| `Text.TrimEndSpec` | aoc2020/src/day11.rs:136 | dropping trailing whitespace keeps a prefix of the input, only whitespace was dropped, and the prefix does not end with whitespace |
| `Text.TrimIsSlice` | aoc2020/src/day11.rs:136 | `trim` keeps a contiguous slice `s[i..j]`; everything before `i` and from `j` on is whitespace |
| `Text.TrimEnds` | aoc2020/src/day11.rs:136 | a non-empty trimmed line starts and ends with a non-whitespace character |
| `Text.TrimNoWhitespace` | aoc2020/src/day11.rs:136 | a line without whitespace is unchanged by `trim` |
| `Text.NewlineAt` | aoc2020/src/day11.rs:134 | the index of the first line feed, or the length when there is none |
| `Text.Lines` | aoc2020/src/day11.rs:134 | the text splits into no lines exactly when it is empty |
| `Text.LinesHaveNoNewline` | aoc2020/src/day11.rs:134 | no line produced by `lines` holds a line feed |
| `Text.NewlineFirst` | aoc2020/src/day11.rs:134 | in a line without line feed followed by one, the first line feed is right after the line |
| `Text.LinesCons` | aoc2020/src/day11.rs:134 | a plain line followed by a line feed is the first line, followed by the lines of whatever text comes after (none when that text is empty) |
| `Text.LinesOfJoin` | aoc2020/src/day11.rs:134 | `lines` recovers lines joined by line feeds, when no line holds a line feed or ends in a carriage return and the last is not empty |
| `Grid.NewState` | aoc2020/src/day11.rs:54-64 | no rows is the error `EmptyInput`; otherwise the state holds the rows, height = number of rows, width = length of the first row, changes = 0, and it is rectangular exactly when every row has the first row's length |
| `Grid.RowOccupied` | aoc2020/src/day11.rs:126-127 | a row's occupied count is at most its length |
| `Grid.CountOccupied` | aoc2020/src/day11.rs:124-128 | the occupied count is at most the number of cells |
| `Grid.FlattenSize` | aoc2020/src/day11.rs:124-128 | an `h` by `w` layout has `h * w` cells |
| `Grid.RowOccupiedIsMultiplicity` | aoc2020/src/day11.rs:126-127 | a row's count is the multiplicity of `Occupied` in the row |
| `Grid.CountOccupiedIsMultiplicity` | aoc2020/src/day11.rs:124-128 | `count_occupied` is the multiplicity of `Occupied` among all cells |
| `Grid.OccupancyBound` | aoc2020/src/day11.rs:124-128 | an `h` by `w` layout has at most `h * w` occupied seats |
| `Parser.RenderRow` | aoc2020/src/day11.rs:32-40 | a row's rendering has one letter per seat, the seat's `Debug` letter |
| `Parser.ParseRow` | aoc2020/src/day11.rs:135-139 | a line reads as a row exactly when all its characters are layout letters, and the row renders back to the line; otherwise the error is `InvalidLetter` of the first character that is not a layout letter |
| `Parser.FirstBadLetterShift` | aoc2020/src/day11.rs:138 | after a valid first letter, the first bad letter of the rest is the first bad letter of the line |
| `Parser.ReadRow` | aoc2020/src/day11.rs:135-139 | a line reads as a row exactly when its trimmed form holds only layout letters, and the row renders back to the trimmed line |
| `Parser.ParseRows` | aoc2020/src/day11.rs:133-141 | on success there is one row per line and each line reads as its row; a failure is the failure of the first line that does not read |
| `Parser.Gen` | aoc2020/src/day11.rs:131-144 | `EmptyInput` exactly for empty text; any other error is that of the first line that does not read; on success the height is the number of lines, each row renders to its trimmed line, the width is the first trimmed line's length, and changes = 0 |
| `Parser.ParseRenderRow` | aoc2020/src/day11.rs:135-139 | reading a rendered row gives the row back |
| `Parser.ParseRowsAll` | aoc2020/src/day11.rs:133-141 | lines that each read as the matching row read as the whole layout |
| `Parser.RenderedLine` | aoc2020/src/day11.rs:135-137 | a rendered row has no line feed, no final carriage return, and is unchanged by `trim` |
| `Parser.GenRender` | aoc2020/src/day11.rs:131-144 | `gen` of the rendering of a non-empty rectangular layout gives that layout with its height and width and changes = 0 |
| `Rules.DirsAreDirections` | aoc2020/src/day11.rs:70-74 | the eight offsets are distinct and are exactly the nonzero unit steps, so each compass direction is looked at once |
| `Rules.RayStep` | aoc2020/src/day11.rs:79-83 | one more step along a ray is the next ray position |
| `Rules.SeenAmong` | aoc2020/src/day11.rs:76-91 | the fold over the first `n` directions counts at most `n` seats |
| `Rules.NeighbourCount` | aoc2020/src/day11.rs:76-91 | the neighbour count is between 0 and 8 |
| `Rules.Transition` | aoc2020/src/day11.rs:97-101 | the result is floor exactly when the cell is floor; the cell changes exactly when it is empty with count 0 or occupied with count at least the threshold |
| `Rules.SeesFrom` | aoc2020/src/day11.rs:79-90 | in `Inf` mode, the look from step `m` finds an occupied seat exactly when some step `k >= m` is an in-bounds occupied seat and every step from `m` to `k` is in-bounds floor |
| `Rules.VisibleSeat` | aoc2020/src/day11.rs:79-90 | in `Next` mode a direction counts exactly when the adjacent cell is in bounds and occupied; in `Inf` mode exactly when the first seat past the floor is occupied |
| `Rules.CountTrueIsCardinality` | aoc2020/src/day11.rs:76-91 | counting `true` answers gives the number of positions holding `true` |
| `Rules.SeenAmongCountsTrue` | aoc2020/src/day11.rs:76-91 | the fold over the first `n` directions counts the `true` answers among them |
| `Rules.NeighbourCountIsCardinality` | aoc2020/src/day11.rs:76-91 | the neighbour count is the number of directions that show an occupied seat |
| `Rules.SeesNothing` | aoc2020/src/day11.rs:79-90 | in a layout without occupied seats no direction shows an occupied seat, in either mode |
| `Rules.NoneSeenAmong` | aoc2020/src/day11.rs:76-91 | in a layout without occupied seats the fold over the directions counts 0 |
| `Rules.NoneOccupiedFills` | aoc2020/src/day11.rs:76-101 | in a layout without occupied seats the count is 0, so an empty seat is taken and every other cell stays |
| `Rules.FloorStaysFloor` | aoc2020/src/day11.rs:97-101 | the next value of a cell is floor exactly when the cell is floor |
| `Rules.OccupiedSeatRule` | aoc2020/src/day11.rs:93-101 | an occupied seat becomes empty exactly when its count reaches the threshold, 4 for `Next` and 5 for `Inf`, and otherwise stays occupied |
| `Rules.EmptySeatRule` | aoc2020/src/day11.rs:97-100 | an empty seat becomes occupied exactly when its count is 0, and otherwise stays empty |
| `Rules.Walk` | aoc2020/src/day11.rs:79-83 | the line-of-sight loop terminates outside the layout or on a non-floor cell (in `Next` mode without moving); every cell passed over is floor; the stop is an occupied seat exactly when the direction counts |
| `Rules.NextSeat` | aoc2020/src/day11.rs:66-102 | the fold over the eight directions and the rule give the cell's next value `NextCell` |
| `Generation.Step` | aoc2020/src/day11.rs:104-121 | the next generation has the same height and width |
| `Generation.RowChanges` | aoc2020/src/day11.rs:108-114 | a row has at most as many changes as cells |
| `Generation.RowChangesZero` | aoc2020/src/day11.rs:108-114 | a row has no changes exactly when the old and new rows are equal |
| `Generation.ChangesZero` | aoc2020/src/day11.rs:105-115 | the change count is 0 exactly when the old and new layouts are equal |
| `Generation.RowChangesIsCardinality` | aoc2020/src/day11.rs:108-114 | a row's change count is the number of positions at which the rows differ |
| `Generation.ChangesIsCardinality` | aoc2020/src/day11.rs:105-115 | the change count is the number of positions whose value differs |
| `Generation.RowChangesPrefix` | aoc2020/src/day11.rs:108-113 | one more cell adds 1 to the row's count exactly when that cell changed |
| `Generation.ChangesPrefix` | aoc2020/src/day11.rs:107-114 | one more row adds that row's change count |
| `Generation.FirstGenerationFills` | aoc2020/src/day11.rs:104-121 | from a layout without occupied seats, one generation takes every seat and keeps the floor, in both modes |
| `Generation.StepKeepsFloor` | aoc2020/src/day11.rs:97-101 | after a generation a cell is floor exactly when it was floor before |
| `Generation.FixedPointIsSettled` | aoc2020/src/day11.rs:93-101 | a generation leaves the layout unchanged exactly when no empty seat sees no occupied seat and no occupied seat sees the threshold |
| `Generation.UpdateRow` | aoc2020/src/day11.rs:108-114 | the inner loop yields row `y` of the next generation, computed from the old state, and the number of its cells that changed |
| `Generation.Update` | aoc2020/src/day11.rs:104-121 | the new state keeps height and width; every cell is the rule applied to the old layout (synchronous update); changes counts the differing cells and is 0 exactly when the layout is unchanged |
| `Driver.Iterate` | aoc2020/src/day11.rs:146-153 | every generation keeps the height and width |
| `Driver.Settle` | aoc2020/src/day11.rs:146-153 | a final state keeps the height and width, is rectangular and records no change |
| `Driver.Rec` | aoc2020/src/day11.rs:146-153 | the result is the occupied count of the state where the generations stop, or `None` when the fuel runs out first |
| `Driver.SolvePart1` | aoc2020/src/day11.rs:155-158 | part one runs `rec` in `Next` mode |
| `Driver.SolvePart2` | aoc2020/src/day11.rs:160-163 | part two runs `rec` in `Inf` mode |
| `Driver.SettleIsFixedPoint` | aoc2020/src/day11.rs:146-153 | the final layout is a fixed point of the generation step and is reached after between 1 and `fuel` generations |
| `Driver.SettleNone` | aoc2020/src/day11.rs:146-153 | `rec` gives no result within the fuel exactly when each of the first `fuel` generations changes the layout (none leaves it unchanged) |
| `Driver.MovingShift` | aoc2020/src/day11.rs:146-153 | `n` changing generations are a first generation that changes the layout followed by `n - 1` changing generations from its result, matching one recursive call of `rec` |
| `Driver.SettleMoreFuel` | aoc2020/src/day11.rs:146-153 | with more fuel `rec` stops at the same state, so the fuel only bounds it |
| `Driver.FloorInvariant` | aoc2020/src/day11.rs:104-121 | after any number of generations a cell is floor exactly when it was floor at the start |
| `Driver.RecResult` | aoc2020/src/day11.rs:146-153 | a result counts the occupied seats of a settled layout with floor exactly where the input has it, and is at most `height * width` |

## Left out

- Driver.Rec: the source recurses until a generation changes nothing, with no bound and no termination argument. The model takes a `fuel` bound and returns `None` when it runs out. Convergence is not proved.
- Driver.SolvePart1 and Driver.SolvePart2 take the same `fuel` bound. The `#[aoc_generator]` and `#[aoc]` runner attributes belong to the external harness and are not modelled.
- Generation.Update and Driver.Rec require a rectangular layout. The source accepts ragged rows: a row shorter than the first panics on indexing, and cells beyond the width in a longer row are never changed and never seen by `next_seat`, but `count_occupied` still counts them. Neither behaviour is modelled.
- The `Debug` implementation's `fmt::Formatter` and `write!` machinery and the `nom` import are not modelled. Only the letter of each seat is kept (`ToChar`).
- `Text.Lines` follows `str::lines` for line feeds and for a carriage return before a line feed. A bare carriage return at the start or end of a line is removed by `trim`; one inside a line is an invalid letter, in the model as in the Rust code.
- `usize` and `isize` are modelled as unbounded integers. Positions stay within one step of the layout, so no overflow can occur.
- The `println!` in `test_gen` is output only and is not modelled.
- The two sample results, 37 and 26, are not checked in Dafny. Evaluating the 10 by 10 example to its fixed point is too costly for the verifier.
