# Latin square generator, modelled in Dafny

This project models `latin_square_generator.cpp`, a small C++ library for
Latin squares. A Latin square of side N is an N×N grid in which every row and
every column holds each of 1..N exactly once. The library has four operations
and two helpers:

- `generate_square` makes one randomised construction attempt.
  - Row 0 is a shuffle of 1..N.
  - Column 0 below the corner is a shuffle of 1..N without the corner value.
  - Then, for each diagonal index i, it fills column i from row i down and
    row i right of the diagonal.
  - Each fill shuffles a pool of the values still missing from that line.
    It reshuffles until no value repeats one already placed in a crossing
    row or column.
  - A step that needs more than `(1 << (N-i-1)) + 1` shuffles abandons the
    attempt, and the function returns the empty grid.
- `generate_latin_square` repeats attempts until one succeeds.
- `check_square` is a validator.
- `get_tower_clues` derives the skyscraper-puzzle clues of a square. Each clue
  is the number of towers visible from one edge of a row or column.
- `cull_latin_square` clears filled cells of a copy of the square, at random
  positions.
- `purge` erases a value from a line and `fill` writes 1..len into a line.

Grids are values (`seq<seq<int>>`), as the C++ code passes them by value. The
cell value 0 marks an empty cell. The methods follow the loops of the source.

- **Random oracles.** `std::shuffle` is an oracle, `shuffle(line, k)`.
  - Its only promise (`IsShuffler`) is that it returns a rearrangement of the
    line for call number k.
  - A shuffle call counter is threaded through the construction, so each
    retry shuffles the previous shuffle again, in place, as the source does.
  - `rand()` becomes a given sequence of probe pairs.
- **Central result.** `Generator.GenerateSquare` returns either the empty grid
  or a Latin square, whatever the oracle returns.
  - Its result and call count are exactly those of the ghost function
    `Construct`, which fixes, for a given oracle, how many shuffles each
    step makes and which line it writes.

Modules:

| module | file | contents |
|---|---|---|
| `Lines` | lines.dfy | `fill`, `purge`, counting facts about lines of distinct values |
| `Grids` | grids.dfy | grids, columns, Latin squares, the construction invariant `Partial` |
| `Validator` | validator.dfy | `check_square`, as written and as intended |
| `Generator` | generator.dfy | `generate_square`, `generate_latin_square` |
| `Clues` | clues.dfy | `get_tower_clues` |
| `Cull` | cull.dfy | `cull_latin_square` |

## Model

| member | source | states |
|---|---|---|
| Lines.Fill | latin_square_generator.cpp:18-20 | the line has length n, holds k+1 at position k, holds exactly the values 1..n, and they are distinct |
| Lines.Purge | latin_square_generator.cpp:13-15 | the result is the line with every occurrence of the target removed: the multiset loses exactly the target, the length drops by its count, and the other values stay |
| Lines.PurgeAppend | latin_square_generator.cpp:13-15 | purging distributes over concatenation, so the kept elements keep their relative order |
| Lines.PurgeAbsent | latin_square_generator.cpp:13-15 | purging a value that does not occur leaves the line unchanged |
| Lines.PurgeAll | latin_square_generator.cpp:53-55 | purging each target in turn leaves exactly the values of the line that are not among the targets |
| Lines.PurgeAllDistinct | latin_square_generator.cpp:51-55 | purging distinct targets from a distinct line leaves a distinct pool, shorter by one per target |
| Lines.RangePermutationHoldsAll | latin_square_generator.cpp:109-125 | a line of n distinct values drawn from 1..n holds every value of 1..n |
| Lines.HoldsAllIsRangePermutation | latin_square_generator.cpp:109-125 | a line of length n that holds every value of 1..n is a permutation of 1..n |
| Grids.PartialComplete | latin_square_generator.cpp:98-100 | a grid whose cells are all placed without a repeat in any row or column is a Latin square |
| Grids.Zeros | latin_square_generator.cpp:33 | the all-zero N×N grid satisfies the construction invariant with no line placed |
| Grids.ColumnStep | latin_square_generator.cpp:70-72 | writing a distinct line of 1..n into a column below the placed rows keeps the invariant, given the line avoids the column's values and clashes with no placed value in its rows |
| Grids.RowStep | latin_square_generator.cpp:95-97 | the same for writing a row right of the placed columns |
| Validator.AsWrittenCheckRow | latin_square_generator.cpp:113-120 | after the inner loop, `check_row` has as many elements as there are values of 1..N in neither column i nor row i |
| Validator.CheckSquare | latin_square_generator.cpp:109-125 | the result is N·N plus, over all i, the number of values of 1..N in neither column i nor row i; so it is never below N·N |
| Validator.LatinSquareScore | latin_square_generator.cpp:109-125 | on every Latin square the as-written result is exactly N·N |
| Validator.AsWrittenRejectsLatinSquare | latin_square_generator.cpp:118-119 | the Latin square [[1]] scores 1, not 0 |
| Validator.IntendedCheckLines | latin_square_generator.cpp:117-120 | with the first purge (line 118, the value of column i) on `check_col` and line 119 kept on `check_row`, the two lines keep the values missing from column i and from row i |
| Validator.CheckSquareFixed | latin_square_generator.cpp:109-125 | the corrected validator returns the number of values missing from every column plus every row, which is 0 exactly when the grid is a Latin square |
| Validator.DefectsZero | latin_square_generator.cpp:109-125 | the count of missing values is 0 if and only if every row and every column is a permutation of 1..N |
| Generator.PoolLine | latin_square_generator.cpp:51-60 | any rearrangement of a pool has distinct values in 1..n, none of them purged, and has length n minus the number of purged values |
| Generator.ColumnConflict | latin_square_generator.cpp:61-66 | the nested loops report a conflict exactly when some row j ≥ i already holds, in a column k < i, the value the line would put into row j |
| Generator.RowConflict | latin_square_generator.cpp:85-90 | the nested loops report a conflict exactly when some row j ≤ i already holds, in a column k > i, the value the line would put into column k |
| Generator.BuildPool | latin_square_generator.cpp:51-55 | the purge loop yields 1..N with each target purged in turn |
| Generator.RetryColumn | latin_square_generator.cpp:57-68 | at most bound + 2 shuffles are made. The step succeeds exactly when at most bound + 1 were needed. Every shuffle before the last clashed. On success the last one does not clash. A clash-free shuffle numbered bound + 2 still fails. |
| Generator.RetryRow | latin_square_generator.cpp:81-93 | the same for the row step |
| Generator.WriteColumn | latin_square_generator.cpp:43-45 | the copy loop writes the line into column c from the given row down and changes no other cell |
| Generator.WriteRow | latin_square_generator.cpp:95-97 | the copy loop writes the line into row r from the given column on and changes no other cell |
| Generator.ColumnFitStep | latin_square_generator.cpp:50-72 | a rearrangement of the column pool that does not clash fits, and writing it extends the invariant to column i |
| Generator.RowFitStep | latin_square_generator.cpp:74-97 | a rearrangement of the row pool that does not clash fits, and writing it extends the invariant to row i |
| Generator.RowLineAvoidsRow | latin_square_generator.cpp:75-79 | a rearrangement of the row pool is distinct, lies in 1..N and avoids row i up to the diagonal |
| Generator.RowLineAvoidsColumns | latin_square_generator.cpp:85-90 | a row line without a clash repeats no value of rows above in its column |
| Generator.RetryBound | latin_square_generator.cpp:67 | the retry budget `1 << (N - i - 1)` (also line 91) is at least 1, and is exactly 1 only at the last index |
| Generator.FillColumn | latin_square_generator.cpp:50-72 | the column step: the shuffle count bound, success exactly within the bound, all earlier shuffles clashing, and on success the grid with the first fitting shuffle in column i and the invariant extended; on failure the empty grid. From these clauses `ColumnPassOf` proves that grid and call count are those of `ColumnPass`. |
| Generator.FillRow | latin_square_generator.cpp:74-97 | the row step, with the same guarantees for row i right of the diagonal; from these clauses `RowPassOf` proves that grid and call count are those of `RowPass` |
| Generator.FillFirstRow | latin_square_generator.cpp:33-35 | the grid is all zeros except row 0, which is the first shuffle of 1..N, and the invariant holds with row 0 placed |
| Generator.FirstRowStep | latin_square_generator.cpp:33-35 | an all-zero grid with a rearrangement of 1..N as row 0 satisfies the invariant with one row placed |
| Generator.FillFirstColumn | latin_square_generator.cpp:38-45 | the grid is the input with the shuffle of 1..N without the corner value written below the corner; row 0 is kept and the invariant extends to column 0 |
| Generator.FirstColumnStep | latin_square_generator.cpp:38-45 | a rearrangement of 1..N without the corner value has N-1 values, and writing it below the corner extends the invariant to column 0 |
| Generator.ColumnStepKeepsBorder | latin_square_generator.cpp:70-72 | a column step at i ≥ 1 keeps row 0 and column 0 |
| Generator.RowStepKeepsBorder | latin_square_generator.cpp:95-97 | a row step at i ≥ 1 keeps row 0 and column 0 |
| Generator.ColumnFit | latin_square_generator.cpp:57-68 | the count of shuffles the column step makes is the first from t on whose shuffle does not clash, at most bound + 1, or bound + 2 when all of those clash: every shuffle before it clashes, and its own fits unless it is bound + 2 |
| Generator.RowFit | latin_square_generator.cpp:81-93 | the same for the row step |
| Generator.ColumnFitIs | latin_square_generator.cpp:57-68 | a shuffle count whose earlier shuffles all clash, and whose own shuffle fits unless it is bound + 2, is the one `ColumnFit` finds; the count is unique |
| Generator.RowFitIs | latin_square_generator.cpp:81-93 | the same for the row step |
| Generator.ColumnPass | latin_square_generator.cpp:50-72 | the column step as a function of grid and call count: the call count grows, and a non-empty result extends the invariant to column i |
| Generator.RowPass | latin_square_generator.cpp:74-97 | the row step as a function: the call count grows, and a non-empty result extends the invariant to row i |
| Generator.ColumnPassOf | latin_square_generator.cpp:50-72 | an outcome with the column step's guarantees is exactly what `ColumnPass` gives |
| Generator.RowPassOf | latin_square_generator.cpp:74-97 | an outcome with the row step's guarantees is exactly what `RowPass` gives |
| Generator.Diagonal | latin_square_generator.cpp:48-98 | one pass as a function, the column step and then, if it succeeded, the row step: the call count grows, and a non-empty result extends the invariant to row and column i |
| Generator.Construct | latin_square_generator.cpp:48-100 | the loop of `generate_square` from diagonal index i on, stopping at the first failed pass: the result is empty or a Latin square, and the call count never decreases |
| Generator.Border | latin_square_generator.cpp:32-46 | the grid the loop starts from, with row 0 and column 0 placed: it satisfies the invariant with one row and one column placed |
| Generator.DiagonalStep | latin_square_generator.cpp:48-98 | one pass of the main loop gives the grid and call count of `Diagonal`. The column step took exactly `ColumnFit` shuffles. The pass succeeds exactly when both steps stayed within bound + 1 shuffles, and then the invariant extends to row and column i and the border is kept; otherwise the grid is empty. |
| Generator.GenerateSquare | latin_square_generator.cpp:28-101 | the result and call count are what `Construct` makes of the border grid for this oracle, so a non-empty result is a Latin square. Row 0 is the first shuffle of 1..N. Column 0 below the corner is the second shuffle, of 1..N without the corner. For N = 1 the result is [[1]]. |
| Generator.OneCell | latin_square_generator.cpp:43-48 | the only 1×1 Latin square is [[1]] |
| Generator.Attempts | latin_square_generator.cpp:133-137 | the attempts of the retry loop, each starting where the previous one's shuffles ended: the first non-empty square, a Latin square, or the empty grid once the retries are used up |
| Generator.GenerateLatinSquare | latin_square_generator.cpp:131-143 | the result and call count are those of `Attempts`, so a non-empty result is a Latin square. The discarded `check_square` value on it is N·N. For N = 1 the result is [[1]]. |
| Clues.ViewRises | latin_square_generator.cpp:167-183 | the two watermark loops count the positions seen from the start of the line and from its end: positions whose value exceeds every earlier one |
| Clues.RiseCountBounds | latin_square_generator.cpp:169-170 | a non-empty line shows between 1 and its length of towers |
| Clues.RiseCountFull | latin_square_generator.cpp:173-178 | a line shows all its towers exactly when it is strictly increasing |
| Clues.Bearing | latin_square_generator.cpp:165 | the clue position of line j seen from each of the four sides lies inside the 4N-long clue vector |
| Clues.BearingOfBearing | latin_square_generator.cpp:165 | distinct (line, direction) pairs go to distinct positions of the clue vector |
| Clues.BearingBearingOf | latin_square_generator.cpp:165 | every position of 0..4N-1 is the target of some (line, direction), so each is written exactly once |
| Clues.WriteLineClues | latin_square_generator.cpp:158-189 | one outer pass writes the four clues of column j and row j and leaves every other position alone |
| Clues.GetTowerClues | latin_square_generator.cpp:150-190 | the vector has length 4N. Column j read top to bottom is at j, bottom to top at 3N-1-j. Row j read left to right is at 4N-1-j, right to left at N+j. Every clue lies in 1..N. |
| Clues.ClueLayout | latin_square_generator.cpp:165 | a vector of the clues at their index-table positions has the four layouts above |
| Clues.ClueRange | latin_square_generator.cpp:167-185 | every clue of a square lies in 1..N |
| Clues.OneCellClues | latin_square_generator.cpp:150-190 | the square [[1]] has the clues 1, 1, 1, 1 |
| Clues.CyclicSquareClues | latin_square_generator.cpp:150-190 | the square [[1,2,3],[2,3,1],[3,1,2]] has the clue vector [3,2,1,1,2,2,2,2,1,1,2,3] |
| Cull.GridPositiveMonotone | latin_square_generator.cpp:204-213 | the running count of positive cells never decreases, so the early break caps at the requested count exactly when the total exceeds it |
| Cull.CountPositiveClear | latin_square_generator.cpp:221-222 | clearing a positive cell of a line removes exactly one positive cell |
| Cull.GridPositiveClear | latin_square_generator.cpp:221-222 | clearing a positive cell of a grid removes exactly one positive cell |
| Cull.ClearOneMore | latin_square_generator.cpp:221-223 | clearing a filled cell that is still as in the input adds exactly one changed position |
| Cull.CullLimit | latin_square_generator.cpp:200-213 | for N ≥ 1 the limit is the minimum of the requested count and the number of positive cells; for N = 0 it is 0 |
| Cull.ClearIfFilled | latin_square_generator.cpp:221-224 | one probe: the probed cell ends up empty, a filled cell is cleared and counted, and the copy still differs from the input only in cleared cells, with `culled` equal to their number and the positive cells down by that count |
| Cull.ProbeStep | latin_square_generator.cpp:217-224 | after one more probe, every probed cell is empty and every cell that differs from the input was probed |
| Cull.CullLatinSquare | latin_square_generator.cpp:198-228 | The result has the shape of the input. Every cell is unchanged, or was positive and is now 0. `culled` is the number of changed cells. The positive cells drop by exactly `culled`. Unless the probes ran out, `culled` is min(cull, positive cells), floored at 0, and never more. Each of the `used` probes consumed points at a cell that ends up empty, and every changed cell is the target of one of those probes. |

## Left out

- The random engine and its time-based seed (lines 29-30) are left out, with `std::shuffle`'s algorithm. The model promises only that a shuffle is a rearrangement. It says nothing about uniformity.
- `rand()` (lines 218-219) is left out. The probe stream stands in for its values, as pairs of non-negative integers taken modulo N, which matches C's `%` on non-negative operands.
- Generator.GenerateLatinSquare: the source loops until an attempt succeeds, which happens only with probability 1. The model makes at most `retries + 1` attempts and may return the empty grid once they are used up.
- Cull.CullLatinSquare: the source probes until `limit` cells are cleared, which also ends only with probability 1. The model stops when the finite probe stream runs out, so the exact count `culled == limit` is promised only when probes remain.
- Generator.RetryBound: `1 << (N-i-1)` is read as the mathematical power of two. In C++ the shift overflows a 32-bit `int` once N - i - 1 reaches 31.
- Validator.CheckSquare: the `int` counter and the `size_t` line sizes are unbounded integers. There is no overflow for very large N.
- Out-of-range `.at()` calls throw `std::out_of_range`. The model replaces the throws with preconditions: N ≥ 1 for the construction, and a square input for the other operations.
- `get_tower_clues` fills two more pointer views that the `x < 2` loop never reads (lines 162-163). They are not modelled. The pointers into the grid are replaced by index reads of a column, a row, and their reversals.
- Partial squares:
  - `get_tower_clues` is modelled for every square grid, not only Latin squares.
  - `cull_latin_square` is modelled for every square grid, including one with zero or negative cells.
  - A negative `cull` gives a negative limit and clears nothing, as in the source.
- Clue layout: a common skyscraper-puzzle reading would put the row clues seen from the left at N..2N-1. The model follows the code: row j seen from the right goes to N+j, and row j seen from the left to 4N-1-j.
- `purge` and `fill` work in place on a `std::vector`. They are modelled as functions on sequences whose result the caller assigns back, which is the same effect, since no vector is shared.
- `latin_square_generator.h` holds only prototypes and is not part of this model.

## Findings

| source | as written | input that shows it | evidently intended | confidence | as-written member | corrected member |
|---|---|---|---|---|---|---|
| latin_square_generator.cpp:118-119 | both purges act on `check_row`, so `check_col` stays 1..N, and every index adds N to the counter | the Latin square [[1]] gives 1, not 0, and any Latin square of side N gives N·N | the first purge (line 118, the value of column i) acts on `check_col`, and line 119 stays on `check_row`, so the counter counts missing values and is 0 exactly on a Latin square | high, not executed | Validator.AsWrittenRejectsLatinSquare | Validator.CheckSquareFixed |
