# Dungeons & Diagrams solver and generator, in Dafny

This project models `dandd.c`, a solver and generator for 8x8 "Dungeons &
Diagrams" puzzles, and proves properties of that model. Each cell of the
board is empty, a wall, a monster or a treasure. Each row and each column has
a target number of walls.

The program keeps the board as 64-bit masks. Slot `s` (0..63, row-major) is
bit `63 - s`. There is one mask for the walls (the *solution*), one for the
monsters and one for the treasures. The model has these modules, one per
layer of the program:

- `Bits` (bits.dfy): the 64-bit masks. A `u64` is an integer in
  `[0, 2^64)`. `&`, `|`, `~`, `>>` and popcount are defined bit by bit. The
  `count_set_bits` loop is a method proved to return the popcount.
- `Grid` (grid.dfy): slots and positions, the slot and position accessors,
  masks built from position lists, and the row and column wall counts.
  `At(m, p)` reads "cell `p` is set in mask `m`". The lemmas here link the
  bit-level code to that cell view.
- `Puzzles` (puzzle.dfy): `PuzzleArgs`, `Puzzle`, and the `puzzle()`
  constructor as a method.
- `Constraints` (constraints.dfy) and `TreasureRooms` (treasure.dfy): the
  seven incremental checks. Each is written as the C code computes it. A
  `...Cells` lemma states what it means cell by cell. The two treasure loops
  are methods proved against a quantified predicate.
- `Solver` (solver.dfy): `solve` as a method over the caller's array. The
  ghost function `Run` replays the loop one iteration per call, and
  `Solutions(puzzle)` is the sequence of masks the search records. The
  method is proved to return `|Solutions(puzzle)|` and to store the first
  `min(|Solutions(puzzle)|, maxSolutions)` of them, leaving the rest of the
  array as it was. Lemmas about `Solutions` prove the rest:
  - it comes out in strictly decreasing order, so it has no duplicates;
  - every recorded mask satisfies every rule on the whole board;
  - the search terminates.
- `Generator` (generator.dfy): `generate` as a method over a tile array and
  the caller's output array. `GenRun` and `Generated()` play the roles of
  `Run` and `Solutions`. The tile switch keeps the tiles and the masks in
  agreement. Every entry comes from a full board that passed the checks at slot 63,
  has that board's wall counts as targets, and carries the solver's
  solution count.
- `Lex` (lex.dfy): digit strings read as numbers, used for the termination
  measures of both searches.

At each slot the generator runs six checks: the monster check on the
current slot, overlap, dead ends, monsters, wide space and treasure rooms.
It runs no row or column count check, since the counts are derived from the
finished board. `GenPasses` models those six checks. The monster check on
the current slot runs before the cells below and to the right of the slot
are decided, and counts them as open, so the generator only keeps monsters
on row 7 or column 7 (`UndecidedCountAsOpen`).

## Model

| member | source | states |
|---|---|---|
| Grid.PosFromSlot | dandd.c:39-41 | `pos_from_slot` with C's truncating `/` and `%`: `row*8+col` gives back the slot, and the column lies in (-8, 8) with the sign of the slot |
| Grid.PosFromSlotOf | dandd.c:39-41 | for an on-board position, slot to position round-trips to the same position |
| Grid.SlotOfInjective | dandd.c:39-41 | distinct on-board positions have distinct slots |
| Grid.SlotBit | dandd.c:47 | the single-bit mask of slot `s` is `2^(63-s)` |
| Grid.SlotSetBit | dandd.c:43-48 | `slot_set` sets exactly bit `slot` when the slot is in [0,64); it changes nothing otherwise |
| Grid.SlotUnsetBit | dandd.c:50-55 | `slot_unset` clears exactly bit `slot` when the slot is in [0,64); it changes nothing otherwise |
| Grid.SlotIsSetBit | dandd.c:57-62 | `slot_is_set` is non-zero iff the slot is in range and its bit is set; when non-zero it is that bit's mask |
| Grid.SlotSetValue | dandd.c:43-48 | setting a clear bit adds `2^(63-slot)` to the mask |
| Grid.SlotUnsetValue | dandd.c:50-55 | clearing a set bit subtracts `2^(63-slot)` from the mask |
| Grid.PosAgreesWithSlot | dandd.c:64-83 | `pos_set`/`pos_unset`/`pos_is_set` equal the slot versions at slot `row*8+col` on the board; off the board they return the mask unchanged, or 0 |
| Grid.PosSetAt | dandd.c:64-69 | after `pos_set`, a cell is set iff it was set before or it is the (on-board) position set |
| Grid.PosUnsetAt | dandd.c:71-76 | after `pos_unset`, a cell is set iff it was set before and is not the (on-board) position cleared |
| Grid.PosIsSetAt | dandd.c:78-83 | `pos_is_set` is non-zero iff the cell is on the board and set |
| Grid.MaskAt | dandd.c:114-124 | the mask built by `pos_set` over a position list has exactly the on-board listed cells set |
| Grid.MaskAndNonZero | dandd.c:219-228 | a mask built from a list meets `x` iff some listed cell is set in `x` |
| Grid.AndZeroAt | dandd.c:163-167 | `a & b == 0` iff no cell is set in both |
| Grid.MaskCount | dandd.c:229-236 | the popcount of a mask built from distinct positions is the number of them on the board |
| Grid.MaskAndCount | dandd.c:229-236 | the popcount of that mask ANDed with `x` is the number of listed cells set in `x` |
| Grid.CountSplit | dandd.c:236 | the on-board cells of a list are its walled cells plus its open cells |
| Grid.CountWallsInRowCells | dandd.c:169-174 | `count_walls_in_row(m, r)` counts exactly the 8 cells of row `r`, a result in [0,8] |
| Grid.CountWallsInColCells | dandd.c:176-181 | `count_walls_in_col(m, c)` counts exactly the 8 cells of column `c`, a result in [0,8] |
| Grid.RowMaskIsRowCells | dandd.c:170 | the shifted row mask is the mask of row `r`'s 8 cells |
| Grid.ColMaskIsColCells | dandd.c:177 | the shifted column mask is the mask of column `c`'s 8 cells |
| Bits.CountSetBits | dandd.c:85-92 | the loop that clears the lowest set bit returns the number of set bits, in [0,64] |
| Bits.ClearLowestCount | dandd.c:88 | `n & (n-1)` has one set bit fewer than a non-zero `n` |
| Bits.ZeroIffNoBit | dandd.c:87 | a mask is zero iff none of its 64 bits is set |
| Puzzles.MakePuzzle | dandd.c:114-133 | the monster and treasure masks have exactly the on-board listed positions set; the 16 counts are copied |
| Constraints.CheckDoesntOverlapCells | dandd.c:162-167 | the overlap check passes iff no cell holds a wall together with a monster or a treasure |
| Constraints.CheckRowCountCells | dandd.c:183-197 | the row check passes iff the row's walls do not exceed its target and, at column 7, equal it |
| Constraints.CheckColCountCells | dandd.c:199-213 | the column check passes iff the column's walls do not exceed its target and, on row 7, equal it |
| Constraints.SingleCell | dandd.c:219-222 | the one-cell mask of `p` meets `x` iff `p` is set in `x` |
| Constraints.CheckDeadEndsCells | dandd.c:239-249 | the dead-end check at a slot passes iff none of the cell above, the cell to the left and the slot's own cell is a dead end |
| Constraints.IsDeadEndCells | dandd.c:215-237 | a dead end is an on-board cell with no wall, monster or treasure and at most one open neighbour; off the board it is never one |
| Constraints.IsInvalidMonsterCells | dandd.c:251-272 | a cell is an invalid monster iff it holds a monster that touches a monster or a treasure or has other than one open neighbour; off the board it is never one |
| Constraints.CheckMonstersCells | dandd.c:274-295 | the monster check at a slot passes iff the cell above holds no bad monster, and, on row 7 only, neither does the cell to the left, nor (at slot 63) the slot's own cell; off row 7 the left neighbour is not looked at |
| Constraints.CheckWideSpaceCells | dandd.c:297-327 | the wide-space check fails iff the 2x2 block ending at the slot is on the board and free, and no treasure is among its 12 surrounding cells |
| TreasureRooms.IsInvalidTreasureRoomCells | dandd.c:329-380 | a room is invalid iff it leaves the board, holds a monster, another treasure or a wall, has a monster or treasure on its edge, or breaks the opening rule (exactly one open edge cell at or past the far corner or at (7,7), otherwise at least one) |
| TreasureRooms.IsInvalidTreasure | dandd.c:382-392 | true iff all nine rooms centred around the treasure are invalid |
| TreasureRooms.NoTreasuresOk | dandd.c:396-398 | with no treasures the check holds |
| TreasureRooms.CheckTreasureRooms | dandd.c:395-411 | true iff every treasure on the board has a valid room |
| Solver.Toggle | dandd.c:427-431 | flipping the slot's bit adds `2^(63-slot)` when it was clear and subtracts it when it was set |
| Solver.ToggleBit | dandd.c:427-431 | the toggle flips the slot's bit and leaves every other bit as it was |
| Solver.Backtrack | dandd.c:459-462 | the backtrack loop stops at the last set slot at or below the pointer, or at -1; every slot it skips is clear |
| Solver.AdvanceDecreases | dandd.c:440-442 | advancing makes the 64-digit choices-left measure strictly smaller |
| Solver.BacktrackDecreases | dandd.c:459-462 | backtracking to a set slot makes the measure strictly smaller, so the search loop ends |
| Solver.Solve | dandd.c:420-466 | returns the number of recorded masks, counting on past a full output; stores the first `min(total, max_solutions)` of them in order; leaves every other array entry as it was |
| Solver.RunOrdered | dandd.c:426-463 | from any loop head, every mask recorded is at most the head's bound, and the masks come out strictly decreasing |
| Solver.SolutionsOrdered | dandd.c:420-466 | the solutions are strictly decreasing as numbers, so they are pairwise distinct |
| Solver.RunSound | dandd.c:426-463 | from a loop head whose history passed the checks, every recorded mask passed all seven checks at every slot, on its own prefix |
| Solver.SolutionsSound | dandd.c:420-466 | every solution passed all seven checks at every slot |
| Solver.TrailRow | dandd.c:183-197 | a recorded mask has exactly the target number of walls in every row |
| Solver.TrailCol | dandd.c:199-213 | a recorded mask has exactly the target number of walls in every column |
| Solver.TrailDeadEnd | dandd.c:239-249 | a recorded mask leaves no dead end anywhere on the board |
| Solver.TrailMonster | dandd.c:274-295 | a recorded mask leaves no invalid monster anywhere on the board |
| Solver.TrailWideSpace | dandd.c:297-327 | a recorded mask passes the wide-space check at every slot |
| Solver.TrailValid | dandd.c:426-463 | a mask that passed every check on every prefix is a valid board: no overlap, exact counts, no dead end, no invalid monster, no wide space, every treasure has a room |
| Solver.SolutionsValid | dandd.c:420-466 | every solution is a valid board |
| Generator.Switch | dandd.c:495-515 | the switch puts the next tile of the cycle EMPTY, TREASURE, MONSTER, WALL at the slot and keeps the counts |
| Generator.SwitchTile | dandd.c:495-515 | the in-place switch on the tile array and masks gives the board `Switch` describes |
| Generator.SwitchConsistent | dandd.c:495-515 | the switch keeps each tile equal to WALL, MONSTER or TREASURE exactly when that mask's bit is set |
| Generator.StartConsistent | dandd.c:486-491 | the all-empty start agrees with the three empty masks |
| Generator.ConsistentDisjoint | dandd.c:486-515 | when tiles and masks agree, walls, monsters and treasures are pairwise disjoint |
| Generator.GenChecks | dandd.c:517-526 | the six generator checks, the treasure check included, pass iff `GenPasses` holds; the first local is true when the monster is valid |
| Generator.GenPassesCells | dandd.c:517-526 | the generator accepts a slot iff, cell by cell: the slot's monster and the one above are not bad, and on row 7 neither is the one to the left; no wall is on a monster or treasure; the cells above, left and at the slot are not dead ends; the 2x2 block ending at the slot is not a wide space; every treasure has its room |
| Generator.UndecidedCountAsOpen | dandd.c:517-518 | with every slot after the current one still wall-free, a monster at a slot off row 7 and column 7 always fails the current-slot monster check, because its cells below and to the right count as open |
| Generator.GenBacktrack | dandd.c:574-577 | the backtrack stops at the last non-empty slot at or below the pointer, or at -1 |
| Generator.RowCounts | dandd.c:542-545 | each derived row count is the number of walls in that row |
| Generator.ColCounts | dandd.c:542-545 | each derived column count is the number of walls in that column |
| Generator.ScoreBoard | dandd.c:537-548 | the derived puzzle has the board's monsters and treasures, its wall counts as targets, and the solver's count as its solution count |
| Generator.GenAdvanceDecreases | dandd.c:529-532 | advancing makes the base-9 choices-left measure strictly smaller |
| Generator.GenBacktrackDecreases | dandd.c:574-577 | backtracking to a non-empty slot makes it strictly smaller, so the loop ends |
| Generator.GenRunFromBoards | dandd.c:494-578 | from a consistent board, every entry recorded is the scored puzzle of a consistent full board that passed the checks at slot 63 |
| Generator.GeneratedFromBoards | dandd.c:482-580 | every entry `generate` finds comes from such a board |
| Generator.FromBoardMeaning | dandd.c:537-564 | such an entry keeps the board's monsters and treasures, which share no cell with the walls or each other; its targets are the board's wall counts; its count is the solver's |
| Generator.Generate | dandd.c:482-580 | stores the first `min(|found|, max_puzzles)` entries in order and returns their number; stops as soon as a new entry finds the output full; leaves other array entries as they were |

## Left out

- Printing: `print_grid`, `print_puzzle` and `main` (dandd.c:15-23, 135-155, 582-611) are output and a fixed example driver, not modelled.
- The "Hit max solutions" message in `solve` (dandd.c:450-452) is output only; the model does nothing there.
- The `#if 0` debugging block of `generate` (dandd.c:550-561) is compiled out.
- The C `assert`s (dandd.c:115-116, 184-185, 200-201) are `requires` clauses of `Puzzles.MakePuzzle`, `Constraints.CheckRowCount` and `Constraints.CheckColCount`.
- Grid.CountWallsInRow, Grid.CountWallsInCol: require a row or column in [0,8). The C shift by a negative amount or by 64 or more is undefined behaviour, and every caller passes an in-range index.
- Masks are integers in [0, 2^64) with the bit operations defined bit by bit, not machine words. `i32` values are unbounded integers, since every value the program computes is small. C's truncating `/` and `%` are written out in `pos_from_slot`.
- Solver.Solve, Generator.Generate: the `u64` counters are unbounded naturals. A search cannot record 2^64 entries, so a wrap-around cannot happen.
- Completeness is not proved: the model does not prove that every valid mask is found by the solver, nor that every valid board is found by the generator.
- The model does not prove that `num_solutions` is at least 1. That needs two facts the model does not prove: the solver's completeness (every mask that satisfies the rules is among `Solutions(puzzle)`; only the converse is proved), and that a generated board's walls satisfy every rule of the derived puzzle.
- Popcount speed is not modelled; only its result is.
