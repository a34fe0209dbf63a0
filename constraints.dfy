/**
 * The incremental constraints checked while a wall mask is built slot by
 * slot: overlap, row and column counts, dead ends, monsters and wide spaces.
 * Treasure rooms are in module TreasureRooms.
 *
 * Each check only looks at the cells that the current slot can have
 * completed; the lemmas below state what each check means cell by cell.
 */
module Constraints {
  import opened Bits
  import opened Grid
  import opened Puzzles

  // ---------------------------------------------------------------------
  // Overlap.

  /** `check_doesnt_overlap` */
  function CheckDoesntOverlap(puzzle: Puzzle, solution: u64): bool
  {
    !(And(solution, puzzle.treasures) != 0 || And(solution, puzzle.monsters) != 0)
  }

  /** The whole wall mask is disjoint from the monsters and the treasures. */
  ghost predicate Disjoint(puzzle: Puzzle, solution: nat)
  {
    forall q :: At(solution, q) ==> !At(puzzle.treasures, q) && !At(puzzle.monsters, q)
  }

  lemma CheckDoesntOverlapCells(puzzle: Puzzle, solution: u64)
    ensures CheckDoesntOverlap(puzzle, solution) <==> Disjoint(puzzle, solution)
  {
    AndZeroAt(solution, puzzle.treasures);
    AndZeroAt(solution, puzzle.monsters);
  }

  // ---------------------------------------------------------------------
  // Row and column counts.

  /** `check_row_count` */
  function CheckRowCount(puzzle: Puzzle, solution: u64, slot: int): bool
    requires 0 <= slot < 64
  {
    var pos := PosFromSlot(slot);
    var wallsInRow := CountWallsInRow(solution, pos.row);
    if wallsInRow > puzzle.rowWallCounts[pos.row] then false
    else if pos.col == 7 && wallsInRow != puzzle.rowWallCounts[pos.row] then false
    else true
  }

  /** `check_col_count` */
  function CheckColCount(puzzle: Puzzle, solution: u64, slot: int): bool
    requires 0 <= slot < 64
  {
    var pos := PosFromSlot(slot);
    var wallsInCol := CountWallsInCol(solution, pos.col);
    if wallsInCol > puzzle.colWallCounts[pos.col] then false
    else if pos.row == 7 && wallsInCol != puzzle.colWallCounts[pos.col] then false
    else true
  }

  /**
   * The row check passes when the walls of the slot's row do not exceed the
   * row's target, and, at the last column, equal it.
   */
  lemma CheckRowCountCells(puzzle: Puzzle, solution: u64, slot: int)
    requires 0 <= slot < 64
    ensures CheckRowCount(puzzle, solution, slot) <==>
      var walls := CountAt(RowCells(slot / 8), solution);
      walls <= puzzle.rowWallCounts[slot / 8] &&
      (slot % 8 == 7 ==> walls == puzzle.rowWallCounts[slot / 8])
  {
    CountWallsInRowCells(solution, slot / 8);
  }

  /**
   * The column check passes when the walls of the slot's column do not
   * exceed the column's target, and, on the last row, equal it.
   */
  lemma CheckColCountCells(puzzle: Puzzle, solution: u64, slot: int)
    requires 0 <= slot < 64
    ensures CheckColCount(puzzle, solution, slot) <==>
      var walls := CountAt(ColCells(slot % 8), solution);
      walls <= puzzle.colWallCounts[slot % 8] &&
      (slot / 8 == 7 ==> walls == puzzle.colWallCounts[slot % 8])
  {
    CountWallsInColCells(solution, slot % 8);
  }

  // ---------------------------------------------------------------------
  // Dead ends.

  /** The orthogonal neighbours of `p`: above, below, left, right. */
  function Border(p: Pos): (ps: seq<Pos>)
    ensures |ps| == 4 && Distinct(ps)
  {
    [Pos(p.row - 1, p.col), Pos(p.row + 1, p.col), Pos(p.row, p.col - 1), Pos(p.row, p.col + 1)]
  }

  /** `is_dead_end` */
  function IsDeadEnd(puzzle: Puzzle, solution: u64, p: Pos): bool
  {
    if p.row < 0 || p.row >= 8 || p.col < 0 || p.col >= 8 then false
    else
      var slotMask := PosSet(0, p);
      if And(slotMask, solution) != 0 then false
      else if And(slotMask, puzzle.treasures) != 0 || And(slotMask, puzzle.monsters) != 0 then false
      else
        var borderMask := Mask(Border(p));
        var borderWalls := And(borderMask, solution);
        PopCount(borderWalls) >= PopCount(borderMask) - 1
  }

  /** A set cell of `Mask([p])` is `p` itself. */
  lemma SingleCell(p: Pos, x: u64)
    ensures And(PosSet(0, p), x) != 0 <==> At(x, p)
  {
    assert Mask([p]) == PosSet(Mask([]), p);
    MaskAndNonZero([p], x);
  }

  /**
   * A dead end is an empty cell on the board (no wall, monster or treasure)
   * with at most one open (on-board, unwalled) neighbour.
   */
  lemma IsDeadEndCells(puzzle: Puzzle, solution: u64, p: Pos)
    ensures IsDeadEnd(puzzle, solution, p) <==>
      InBounds(p) && !At(solution, p) && !At(puzzle.treasures, p) && !At(puzzle.monsters, p) &&
      CountClear(Border(p), solution) <= 1
  {
    if InBounds(p) {
      SingleCell(p, solution);
      SingleCell(p, puzzle.treasures);
      SingleCell(p, puzzle.monsters);
      MaskCount(Border(p));
      MaskAndCount(Border(p), solution);
      CountSplit(Border(p), solution);
    }
  }

  /** `check_dead_ends`: the cells above, to the left and at the slot are not dead ends. */
  function CheckDeadEnds(puzzle: Puzzle, solution: u64, slot: int): bool
  {
    var p := PosFromSlot(slot);
    var above := Pos(p.row - 1, p.col);
    var left := Pos(p.row, p.col - 1);
    if IsDeadEnd(puzzle, solution, above) || IsDeadEnd(puzzle, solution, left) ||
       IsDeadEnd(puzzle, solution, p) then false
    else true
  }

  /** An on-board cell with no wall, monster or treasure and at most one open neighbour. */
  ghost predicate DeadEndCell(puzzle: Puzzle, solution: u64, q: Pos)
  {
    InBounds(q) && !At(solution, q) && !At(puzzle.treasures, q) && !At(puzzle.monsters, q) &&
    CountClear(Border(q), solution) <= 1
  }

  /** The dead-end check passes iff none of the cells above, to the left and at the slot is a dead end. */
  lemma CheckDeadEndsCells(puzzle: Puzzle, solution: u64, slot: int)
    ensures CheckDeadEnds(puzzle, solution, slot) <==>
      var p := PosFromSlot(slot);
      !DeadEndCell(puzzle, solution, Pos(p.row - 1, p.col)) &&
      !DeadEndCell(puzzle, solution, Pos(p.row, p.col - 1)) &&
      !DeadEndCell(puzzle, solution, p)
  {
    var p := PosFromSlot(slot);
    IsDeadEndCells(puzzle, solution, Pos(p.row - 1, p.col));
    IsDeadEndCells(puzzle, solution, Pos(p.row, p.col - 1));
    IsDeadEndCells(puzzle, solution, p);
  }

  // ---------------------------------------------------------------------
  // Monsters.

  /** `is_invalid_monster` */
  function IsInvalidMonster(puzzle: Puzzle, solution: u64, p: Pos): bool
  {
    if p.row < 0 || p.row >= 8 || p.col < 0 || p.col >= 8 then false
    else
      var slotMask := PosSet(0, p);
      if And(slotMask, puzzle.monsters) == 0 then false
      else
        var borderMask := Mask(Border(p));
        var borderWalls := And(borderMask, solution);
        if And(borderMask, puzzle.monsters) != 0 || And(borderMask, puzzle.treasures) != 0 then true
        else PopCount(borderWalls) != PopCount(borderMask) - 1
  }

  /**
   * A monster is invalid when it touches another monster or a treasure, or
   * when it does not have exactly one open neighbour.
   */
  lemma IsInvalidMonsterCells(puzzle: Puzzle, solution: u64, p: Pos)
    ensures IsInvalidMonster(puzzle, solution, p) <==>
      At(puzzle.monsters, p) &&
      (AnyAt(Border(p), puzzle.monsters) || AnyAt(Border(p), puzzle.treasures) ||
       CountClear(Border(p), solution) != 1)
  {
    if InBounds(p) {
      SingleCell(p, puzzle.monsters);
      MaskAndNonZero(Border(p), puzzle.monsters);
      MaskAndNonZero(Border(p), puzzle.treasures);
      MaskCount(Border(p));
      MaskAndCount(Border(p), solution);
      CountSplit(Border(p), solution);
    }
  }

  /**
   * `check_monsters`: the monster above the slot is always checked; the one
   * to the left only on the last row, and the one at the slot only at the
   * last slot.
   */
  function CheckMonsters(puzzle: Puzzle, solution: u64, slot: int): bool
  {
    var p := PosFromSlot(slot);
    var above := Pos(p.row - 1, p.col);
    if IsInvalidMonster(puzzle, solution, above) then false
    else if p.row == 7 then
      var left := Pos(p.row, p.col - 1);
      if IsInvalidMonster(puzzle, solution, left) then false
      else if p.col == 7 then !IsInvalidMonster(puzzle, solution, p)
      else true
    else true
  }

  /** A monster touching a monster or a treasure, or without exactly one open neighbour. */
  ghost predicate BadMonster(puzzle: Puzzle, solution: u64, q: Pos)
  {
    At(puzzle.monsters, q) &&
    (AnyAt(Border(q), puzzle.monsters) || AnyAt(Border(q), puzzle.treasures) ||
     CountClear(Border(q), solution) != 1)
  }

  /**
   * The monster check passes iff the monster above the slot is not bad and,
   * on row 7 only, neither is the one to the left, nor, at (7,7), the one at
   * the slot.
   */
  lemma CheckMonstersCells(puzzle: Puzzle, solution: u64, slot: int)
    ensures CheckMonsters(puzzle, solution, slot) <==>
      var p := PosFromSlot(slot);
      !BadMonster(puzzle, solution, Pos(p.row - 1, p.col)) &&
      (p.row == 7 ==> !BadMonster(puzzle, solution, Pos(p.row, p.col - 1))) &&
      (p.row == 7 && p.col == 7 ==> !BadMonster(puzzle, solution, p))
  {
    var p := PosFromSlot(slot);
    IsInvalidMonsterCells(puzzle, solution, Pos(p.row - 1, p.col));
    IsInvalidMonsterCells(puzzle, solution, Pos(p.row, p.col - 1));
    IsInvalidMonsterCells(puzzle, solution, p);
  }

  // ---------------------------------------------------------------------
  // Wide spaces.

  /** The 2x2 block whose bottom-right cell is `p`. */
  function SpaceCells(p: Pos): (ps: seq<Pos>)
    ensures |ps| == 4 && Distinct(ps)
  {
    [p, Pos(p.row, p.col - 1), Pos(p.row - 1, p.col), Pos(p.row - 1, p.col - 1)]
  }

  /** The twelve cells around that block: rows r-2..r+1, columns c-2..c+1, minus the block. */
  function SpaceNeighbours(p: Pos): (ps: seq<Pos>)
    ensures |ps| == 12
  {
    [Pos(p.row - 2, p.col - 2), Pos(p.row - 2, p.col - 1), Pos(p.row - 2, p.col), Pos(p.row - 2, p.col + 1),
     Pos(p.row - 1, p.col - 2), Pos(p.row - 1, p.col + 1),
     Pos(p.row, p.col - 2), Pos(p.row, p.col + 1),
     Pos(p.row + 1, p.col - 2), Pos(p.row + 1, p.col - 1), Pos(p.row + 1, p.col), Pos(p.row + 1, p.col + 1)]
  }

  /** `check_wide_space` */
  function CheckWideSpace(puzzle: Puzzle, solution: u64, slot: int): bool
  {
    var p := PosFromSlot(slot);
    var spaceMask := Mask(SpaceCells(p));
    if PopCount(spaceMask) == 4 && And(spaceMask, solution) == 0 &&
       And(spaceMask, puzzle.monsters) == 0 && And(spaceMask, puzzle.treasures) == 0 then
      var neighbors := Mask(SpaceNeighbours(p));
      And(neighbors, puzzle.treasures) != 0
    else true
  }

  /**
   * The 2x2 block whose bottom-right cell is `p` lies on the board, holds no
   * wall, monster or treasure, and has no treasure among the cells around it.
   */
  ghost predicate WideSpaceAt(puzzle: Puzzle, solution: u64, p: Pos)
  {
    var block := SpaceCells(p);
    AllInBounds(block) && !AnyAt(block, solution) && !AnyAt(block, puzzle.monsters) &&
    !AnyAt(block, puzzle.treasures) && !AnyAt(SpaceNeighbours(p), puzzle.treasures)
  }

  /**
   * The wide-space check fails exactly when the 2x2 block ending at the slot
   * lies on the board, holds no wall, monster or treasure, and no treasure
   * is among the twelve cells around it.
   */
  lemma CheckWideSpaceCells(puzzle: Puzzle, solution: u64, slot: int)
    ensures !CheckWideSpace(puzzle, solution, slot) <==> WideSpaceAt(puzzle, solution, PosFromSlot(slot))
  {
    var p := PosFromSlot(slot);
    MaskCount(SpaceCells(p));
    CountInBoundsAll(SpaceCells(p));
    MaskAndNonZero(SpaceCells(p), solution);
    MaskAndNonZero(SpaceCells(p), puzzle.monsters);
    MaskAndNonZero(SpaceCells(p), puzzle.treasures);
    MaskAndNonZero(SpaceNeighbours(p), puzzle.treasures);
  }
}
