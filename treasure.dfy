/**
 * Treasure rooms.
 *
 * A treasure must sit in a 3x3 room of empty cells (no wall, monster or
 * other treasure) whose twelve edge cells (the cells that share a side with
 * the room) hold no monster or treasure and, once the room is complete,
 * leave exactly one opening. Each treasure has nine candidate rooms: one for
 * every centre in the 3x3 square around it.
 */
module TreasureRooms {
  import opened Bits
  import opened Grid
  import opened Puzzles

  /** The nine cells of the room centred at `center`, row by row. */
  function RoomCells(center: Pos): (ps: seq<Pos>)
    ensures |ps| == 9 && Distinct(ps)
  {
    [Pos(center.row - 1, center.col - 1), Pos(center.row - 1, center.col), Pos(center.row - 1, center.col + 1),
     Pos(center.row, center.col - 1), Pos(center.row, center.col), Pos(center.row, center.col + 1),
     Pos(center.row + 1, center.col - 1), Pos(center.row + 1, center.col), Pos(center.row + 1, center.col + 1)]
  }

  /** The twelve edge cells of that room: three above, three below, three left, three right. */
  function RoomEdge(center: Pos): (ps: seq<Pos>)
    ensures |ps| == 12 && Distinct(ps)
  {
    [Pos(center.row - 2, center.col - 1), Pos(center.row - 2, center.col), Pos(center.row - 2, center.col + 1),
     Pos(center.row + 2, center.col - 1), Pos(center.row + 2, center.col), Pos(center.row + 2, center.col + 1),
     Pos(center.row - 1, center.col - 2), Pos(center.row, center.col - 2), Pos(center.row + 1, center.col - 2),
     Pos(center.row - 1, center.col + 2), Pos(center.row, center.col + 2), Pos(center.row + 1, center.col + 2)]
  }

  /**
   * The opening rule is strict (exactly one opening) once the slot being
   * checked is at or past the room's bottom-right edge corner, or at the last
   * slot; before that it only rejects a room with no opening.
   */
  predicate StrictOpening(center: Pos, slot: int)
  {
    var checked := PosFromSlot(slot);
    (checked.row >= center.row + 2 && checked.col >= center.col + 2) ||
    (checked.row == 7 && checked.col == 7)
  }

  /** `is_invalid_treasure_room` */
  function IsInvalidTreasureRoom(puzzle: Puzzle, solution: u64, treasure: Pos, center: Pos, slot: int): bool
  {
    var roomMask := Mask(RoomCells(center));
    if PopCount(roomMask) != 9 then true
    else
      var otherTreasures := PosUnset(puzzle.treasures, treasure);
      if And(roomMask, puzzle.monsters) != 0 || And(roomMask, otherTreasures) != 0 then true
      else if And(roomMask, solution) != 0 then true
      else
        var wallsMask := Mask(RoomEdge(center));
        if And(wallsMask, puzzle.monsters) != 0 || And(wallsMask, puzzle.treasures) != 0 then true
        else if StrictOpening(center, slot) then
          PopCount(And(wallsMask, solution)) != PopCount(wallsMask) - 1
        else
          PopCount(And(wallsMask, solution)) == PopCount(wallsMask)
  }

  /** Some cell of `ps` holds a treasure other than `treasure`. */
  predicate OtherTreasureIn(ps: seq<Pos>, treasures: nat, treasure: Pos)
  {
    exists j :: 0 <= j < |ps| && At(treasures, ps[j]) && ps[j] != treasure
  }

  /**
   * A candidate room is invalid when it leaves the board, holds a monster,
   * another treasure or a wall, has a monster or treasure on its edge, or
   * fails the opening rule (counting open edge cells: on the board and not
   * walled).
   */
  lemma IsInvalidTreasureRoomCells(puzzle: Puzzle, solution: u64, treasure: Pos, center: Pos, slot: int)
    ensures IsInvalidTreasureRoom(puzzle, solution, treasure, center, slot) <==>
      var room := RoomCells(center);
      var edge := RoomEdge(center);
      !AllInBounds(room) ||
      AnyAt(room, puzzle.monsters) || OtherTreasureIn(room, puzzle.treasures, treasure) ||
      AnyAt(room, solution) ||
      AnyAt(edge, puzzle.monsters) || AnyAt(edge, puzzle.treasures) ||
      (if StrictOpening(center, slot) then CountClear(edge, solution) != 1
       else CountClear(edge, solution) == 0)
  {
    var room := RoomCells(center);
    var edge := RoomEdge(center);
    MaskCount(room);
    CountInBoundsAll(room);
    MaskAndNonZero(room, puzzle.monsters);
    var others := PosUnset(puzzle.treasures, treasure);
    MaskAndNonZero(room, others);
    forall j | 0 <= j < |room|
      ensures At(others, room[j]) <==> At(puzzle.treasures, room[j]) && room[j] != treasure
    {
      PosUnsetAt(puzzle.treasures, treasure, room[j]);
    }
    MaskAndNonZero(room, solution);
    MaskAndNonZero(edge, puzzle.monsters);
    MaskAndNonZero(edge, puzzle.treasures);
    MaskCount(edge);
    MaskAndCount(edge, solution);
    CountSplit(edge, solution);
  }

  /** A treasure is unplaceable when all nine of its candidate rooms are invalid. */
  predicate NearCenter(center: Pos, treasure: Pos)
  {
    treasure.row - 1 <= center.row <= treasure.row + 1 &&
    treasure.col - 1 <= center.col <= treasure.col + 1
  }

  ghost predicate AllRoomsInvalid(puzzle: Puzzle, solution: u64, treasure: Pos, slot: int)
  {
    forall center :: NearCenter(center, treasure) ==>
      IsInvalidTreasureRoom(puzzle, solution, treasure, center, slot)
  }

  /** `is_invalid_treasure`: true exactly when every candidate room is invalid. */
  method IsInvalidTreasure(puzzle: Puzzle, solution: u64, treasure: Pos, slot: int) returns (result: bool)
    ensures result == AllRoomsInvalid(puzzle, solution, treasure, slot)
  {
    hide IsInvalidTreasureRoom;
    result := true;
    ghost var valid := treasure;
    var row := treasure.row - 1;
    while row <= treasure.row + 1
      invariant treasure.row - 1 <= row <= treasure.row + 2
      invariant result ==> forall center :: NearCenter(center, treasure) && center.row < row ==>
        IsInvalidTreasureRoom(puzzle, solution, treasure, center, slot)
      invariant !result ==>
        NearCenter(valid, treasure) && !IsInvalidTreasureRoom(puzzle, solution, treasure, valid, slot)
    {
      var col := treasure.col - 1;
      while col <= treasure.col + 1
        invariant treasure.col - 1 <= col <= treasure.col + 2
        invariant result ==> forall center :: NearCenter(center, treasure) && center.row < row ==>
          IsInvalidTreasureRoom(puzzle, solution, treasure, center, slot)
        invariant result ==> forall center: Pos :: center.row == row && treasure.col - 1 <= center.col < col ==>
          IsInvalidTreasureRoom(puzzle, solution, treasure, center, slot)
        invariant !result ==>
          NearCenter(valid, treasure) && !IsInvalidTreasureRoom(puzzle, solution, treasure, valid, slot)
      {
        var center := Pos(row, col);
        if result && !IsInvalidTreasureRoom(puzzle, solution, treasure, center, slot) {
          valid := center;
        }
        result := result && IsInvalidTreasureRoom(puzzle, solution, treasure, center, slot);
        col := col + 1;
      }
      row := row + 1;
    }
  }

  /** Every treasure on the board has at least one valid candidate room. */
  ghost predicate TreasureRoomsOk(puzzle: Puzzle, solution: u64, slot: int)
  {
    forall t :: At(puzzle.treasures, t) ==> !AllRoomsInvalid(puzzle, solution, t, slot)
  }

  /** With no treasures on the board there is nothing to check. */
  lemma NoTreasuresOk(puzzle: Puzzle, solution: u64, slot: int)
    requires puzzle.treasures == 0
    ensures TreasureRoomsOk(puzzle, solution, slot)
  {
    forall t | InBounds(t)
      ensures !At(puzzle.treasures, t)
    {
      ZeroBit(63 - SlotOf(t));
    }
  }

  /** `check_treasure_rooms`: fails at the first treasure (in slot order) whose rooms are all invalid. */
  method CheckTreasureRooms(puzzle: Puzzle, solution: u64, slot: int) returns (ok: bool)
    ensures ok == TreasureRoomsOk(puzzle, solution, slot)
  {
    hide IsInvalidTreasureRoom;
    if puzzle.treasures == 0 {
      NoTreasuresOk(puzzle, solution, slot);
      return true;
    }
    var row := 0;
    while row < 8
      invariant 0 <= row <= 8
      invariant forall t :: At(puzzle.treasures, t) && t.row < row ==>
        !AllRoomsInvalid(puzzle, solution, t, slot)
    {
      var col := 0;
      while col < 8
        invariant 0 <= col <= 8
        invariant forall t :: At(puzzle.treasures, t) && (t.row < row || (t.row == row && t.col < col)) ==>
          !AllRoomsInvalid(puzzle, solution, t, slot)
      {
        var treasurePos := Pos(row, col);
        PosIsSetAt(puzzle.treasures, treasurePos);
        if PosIsSet(puzzle.treasures, treasurePos) != 0 {
          var invalid := IsInvalidTreasure(puzzle, solution, treasurePos, slot);
          if invalid {
            return false;
          }
        }
        col := col + 1;
      }
      row := row + 1;
    }
    return true;
  }
}
