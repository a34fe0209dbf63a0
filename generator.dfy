/**
 * The generator: the same depth-first search as the solver, over boards.
 *
 * Every slot holds a tile, cycled EMPTY -> TREASURE -> MONSTER -> WALL ->
 * EMPTY; the wall, monster and treasure masks follow the tiles. When a full
 * board passes the checks, its row and column counts are derived from its
 * walls and the resulting puzzle is scored by the solver.
 *
 * `GenRun` replays the loop as a recursive function; `Generated` is the
 * sequence of scored puzzles it would record if the output never filled up.
 */
module Generator {
  import opened Bits
  import opened Grid
  import opened Puzzles
  import opened Constraints
  import opened TreasureRooms
  import opened Lex
  import opened Solver

  /** `Tile` (EMPTY = 0, WALL = 1, MONSTER = 2, TREASURE = 3) */
  datatype Tile = Empty | Wall | Monster | Treasure

  /** `GeneratedPuzzle` */
  datatype GeneratedPuzzle = GeneratedPuzzle(puzzle: Puzzle, numSolutions: nat)

  /** The state the loop updates in place: the tiles, the puzzle being built and the wall mask. */
  datatype Board = Board(tiles: seq<Tile>, puzzle: Puzzle, solution: u64)

  const ZEROS: Counts := [0, 0, 0, 0, 0, 0, 0, 0]

  /** The next tile of the cycle EMPTY -> TREASURE -> MONSTER -> WALL -> EMPTY. */
  function NextTile(t: Tile): Tile
  {
    match t
    case Treasure => Monster
    case Monster => Wall
    case Wall => Empty
    case Empty => Treasure
  }

  /** The switch at the head of the loop: undo the slot's tile and put the next one of the cycle. */
  function Switch(b: Board, slot: int): (r: Board)
    requires 0 <= slot < 64 && |b.tiles| == 64
    ensures r.tiles == b.tiles[slot := NextTile(b.tiles[slot])]
    ensures r.puzzle.rowWallCounts == b.puzzle.rowWallCounts
    ensures r.puzzle.colWallCounts == b.puzzle.colWallCounts
  {
    var p := b.puzzle;
    match b.tiles[slot]
    case Treasure =>
      Board(b.tiles[slot := Monster],
        p.(treasures := SlotUnset(p.treasures, slot), monsters := SlotSet(p.monsters, slot)), b.solution)
    case Monster =>
      Board(b.tiles[slot := Wall], p.(monsters := SlotUnset(p.monsters, slot)), SlotSet(b.solution, slot))
    case Wall =>
      Board(b.tiles[slot := Empty], p, SlotUnset(b.solution, slot))
    case Empty =>
      Board(b.tiles[slot := Treasure], p.(treasures := SlotSet(p.treasures, slot)), b.solution)
  }

  /** The checks of `generate` at `slot`, the treasure-room check by its meaning. */
  ghost predicate GenPasses(puzzle: Puzzle, solution: u64, slot: int)
  {
    !IsInvalidMonster(puzzle, solution, PosFromSlot(slot)) && CheckDoesntOverlap(puzzle, solution) &&
    CheckDeadEnds(puzzle, solution, slot) && CheckMonsters(puzzle, solution, slot) &&
    CheckWideSpace(puzzle, solution, slot) && TreasureRoomsOk(puzzle, solution, slot)
  }

  /**
   * The six checks cell by cell: the monster at the slot and the one above it
   * are not bad, and on row 7 neither is the one to the left; no wall shares
   * a cell with a monster or a treasure; the cells above, to the left and at
   * the slot are not dead ends; the block ending at the slot is not a wide
   * space; every treasure has a room.
   */
  lemma GenPassesCells(puzzle: Puzzle, solution: u64, slot: int)
    ensures GenPasses(puzzle, solution, slot) <==>
      var p := PosFromSlot(slot);
      !BadMonster(puzzle, solution, p) && Disjoint(puzzle, solution) &&
      !DeadEndCell(puzzle, solution, Pos(p.row - 1, p.col)) &&
      !DeadEndCell(puzzle, solution, Pos(p.row, p.col - 1)) &&
      !DeadEndCell(puzzle, solution, p) &&
      !BadMonster(puzzle, solution, Pos(p.row - 1, p.col)) &&
      (p.row == 7 ==> !BadMonster(puzzle, solution, Pos(p.row, p.col - 1))) &&
      !WideSpaceAt(puzzle, solution, p) && TreasureRoomsOk(puzzle, solution, slot)
  {
    var p := PosFromSlot(slot);
    IsInvalidMonsterCells(puzzle, solution, p);
    CheckDoesntOverlapCells(puzzle, solution);
    CheckDeadEndsCells(puzzle, solution, slot);
    CheckMonstersCells(puzzle, solution, slot);
    CheckWideSpaceCells(puzzle, solution, slot);
  }

  /**
   * The monster check at the slot runs while the cells below and to the
   * right of the slot are still undecided, so it counts them as open: a
   * monster at a slot off row 7 and column 7 has two open neighbours and
   * always fails. The generator therefore places monsters on row 7 or
   * column 7 only.
   */
  lemma UndecidedCountAsOpen(puzzle: Puzzle, solution: u64, slot: int)
    requires 0 <= slot < 64 && PosFromSlot(slot).row < 7 && PosFromSlot(slot).col < 7
    requires forall t :: slot < t < 64 ==> !Bit(solution, t)
    requires At(puzzle.monsters, PosFromSlot(slot))
    ensures !GenPasses(puzzle, solution, slot)
  {
    var p := PosFromSlot(slot);
    var ps := Border(p);
    assert !At(solution, ps[1]) && !At(solution, ps[3]);
    assert CountClear(ps[..2], solution) >= 1 by {
      assert ps[..2][..1] == ps[..1];
    }
    assert CountClear(ps[..4], solution) >= 2 by {
      assert ps[..4][..3] == ps[..3];
      assert ps[..3][..2] == ps[..2];
    }
    assert ps[..4] == ps;
    IsInvalidMonsterCells(puzzle, solution, p);
  }

  /** The generator's backtracking loop: the last non-empty slot at or before `slot`, or -1. */
  function GenBacktrack(tiles: seq<Tile>, slot: int): (r: int)
    requires -1 <= slot < 64 && |tiles| == 64
    ensures -1 <= r <= slot
    ensures r >= 0 ==> tiles[r] != Empty
    ensures forall k :: r < k <= slot ==> tiles[k] == Empty
    decreases slot + 1
  {
    if slot >= 0 && tiles[slot] == Empty then GenBacktrack(tiles, slot - 1) else slot
  }

  // ---------------------------------------------------------------------
  // The puzzle derived from a full board.

  /** `(u8)count_walls_in_row(solution, i)` for every row; a count is at most 8, so the cast keeps it. */
  function RowCounts(solution: u64): (r: Counts)
    ensures forall i :: 0 <= i < 8 ==> r[i] == CountAt(RowCells(i), solution)
  {
    RowsCounted(solution);
    seq(8, i requires 0 <= i < 8 => CountWallsInRow(solution, i) as u8)
  }

  /** `(u8)count_walls_in_col(solution, i)` for every column. */
  function ColCounts(solution: u64): (r: Counts)
    ensures forall i :: 0 <= i < 8 ==> r[i] == CountAt(ColCells(i), solution)
  {
    ColsCounted(solution);
    seq(8, i requires 0 <= i < 8 => CountWallsInCol(solution, i) as u8)
  }

  lemma RowsCounted(solution: u64)
    ensures forall i :: 0 <= i < 8 ==> CountWallsInRow(solution, i) == CountAt(RowCells(i), solution)
  {
    forall i | 0 <= i < 8
      ensures CountWallsInRow(solution, i) == CountAt(RowCells(i), solution)
    {
      CountWallsInRowCells(solution, i);
    }
  }

  lemma ColsCounted(solution: u64)
    ensures forall i :: 0 <= i < 8 ==> CountWallsInCol(solution, i) == CountAt(ColCells(i), solution)
  {
    forall i | 0 <= i < 8
      ensures CountWallsInCol(solution, i) == CountAt(ColCells(i), solution)
    {
      CountWallsInColCells(solution, i);
    }
  }

  /** The scored entry for a full board that passed the checks. */
  ghost function Score(puzzle: Puzzle, solution: u64): GeneratedPuzzle
  {
    var valid := Puzzle(RowCounts(solution), ColCounts(solution), puzzle.monsters, puzzle.treasures);
    GeneratedPuzzle(valid, |Solutions(valid)|)
  }

  // ---------------------------------------------------------------------
  // Termination: the tile choices left, read as a 64-digit number in base 9.

  /**
   * Choices left at slot `k` with the loop at `slot`: before the pointer, a
   * tile's remaining steps to EMPTY (TREASURE 7, MONSTER 5, WALL 3, EMPTY 0);
   * at the pointer, one less for the tile about to be replaced (EMPTY 8,
   * TREASURE 6, MONSTER 4, WALL 2); after the pointer, untouched (8).
   */
  function GenDigit(tiles: seq<Tile>, slot: int, k: int): nat
    requires |tiles| == 64
  {
    if k < 0 || k >= 64 || k > slot then 8
    else if k < slot then
      match tiles[k]
      case Treasure => 7
      case Monster => 5
      case Wall => 3
      case Empty => 0
    else
      match tiles[k]
      case Empty => 8
      case Treasure => 6
      case Monster => 4
      case Wall => 2
  }

  function GenDigits(tiles: seq<Tile>, slot: int): (ds: seq<nat>)
    requires |tiles| == 64
    ensures |ds| == 64 && Bounded(ds, 9)
  {
    seq(64, k => GenDigit(tiles, slot, k))
  }

  function GenPotential(tiles: seq<Tile>, slot: int): nat
    requires |tiles| == 64
  {
    Value(GenDigits(tiles, slot), 9)
  }

  lemma GenAdvanceDecreases(tiles: seq<Tile>, slot: int)
    requires |tiles| == 64 && 0 <= slot < 63
    ensures GenPotential(tiles[slot := NextTile(tiles[slot])], slot + 1) < GenPotential(tiles, slot)
  {
    var t' := tiles[slot := NextTile(tiles[slot])];
    var a, b := GenDigits(t', slot + 1), GenDigits(tiles, slot);
    assert forall i :: 0 <= i < slot ==> a[i] == b[i];
    assert a[slot] < b[slot];
    LexLess(a, b, 9, slot);
  }

  lemma GenBacktrackDecreases(tiles: seq<Tile>, slot: int)
    requires |tiles| == 64 && 0 <= slot < 64
    requires GenBacktrack(tiles[slot := NextTile(tiles[slot])], slot) >= 0
    ensures var t' := tiles[slot := NextTile(tiles[slot])];
      GenPotential(t', GenBacktrack(t', slot)) < GenPotential(tiles, slot)
  {
    var t' := tiles[slot := NextTile(tiles[slot])];
    var next := GenBacktrack(t', slot);
    var a, b := GenDigits(t', next), GenDigits(tiles, slot);
    assert forall i :: 0 <= i < next ==> a[i] == b[i];
    assert a[next] < b[next];
    LexLess(a, b, 9, next);
  }

  // ---------------------------------------------------------------------
  // The search as a function.

  /** The entries recorded from the loop head with board `b` and pointer `slot` until the search ends. */
  ghost function GenRun(b: Board, slot: int): seq<GeneratedPuzzle>
    requires 0 <= slot < 64 && |b.tiles| == 64
    decreases GenPotential(b.tiles, slot)
  {
    var b' := Switch(b, slot);
    if GenPasses(b'.puzzle, b'.solution, slot) && slot < 63 then
      GenAdvanceDecreases(b.tiles, slot);
      GenRun(b', slot + 1)
    else
      var recorded := if GenPasses(b'.puzzle, b'.solution, slot) then [Score(b'.puzzle, b'.solution)] else [];
      var next := GenBacktrack(b'.tiles, slot);
      if next < 0 then recorded
      else
        GenBacktrackDecreases(b.tiles, slot);
        recorded + GenRun(b', next)
  }

  /** The empty board `generate` starts from. */
  function Start(): Board
  {
    Board(seq(64, _ => Empty), Puzzle(ZEROS, ZEROS, 0, 0), 0)
  }

  /** Every entry `generate` finds, in order, when its output has room for all of them. */
  ghost function Generated(): seq<GeneratedPuzzle>
  {
    GenRun(Start(), 0)
  }

  lemma GenRunAdvance(b: Board, slot: int)
    requires 0 <= slot < 63 && |b.tiles| == 64
    requires GenPasses(Switch(b, slot).puzzle, Switch(b, slot).solution, slot)
    ensures GenRun(b, slot) == GenRun(Switch(b, slot), slot + 1)
  {
  }

  lemma GenRunBacktrack(b: Board, slot: int)
    requires 0 <= slot < 64 && |b.tiles| == 64
    requires !(GenPasses(Switch(b, slot).puzzle, Switch(b, slot).solution, slot) && slot < 63)
    ensures var b' := Switch(b, slot);
      var recorded := if GenPasses(b'.puzzle, b'.solution, slot) then [Score(b'.puzzle, b'.solution)] else [];
      var next := GenBacktrack(b'.tiles, slot);
      GenRun(b, slot) == if next < 0 then recorded else recorded + GenRun(b', next)
  {
  }

  /** The bookkeeping of one iteration that does not advance: the entries found so far, and what is left. */
  lemma GenRunStep(found: seq<GeneratedPuzzle>, b: Board, slot: int, all: seq<GeneratedPuzzle>)
    requires 0 <= slot < 64 && |b.tiles| == 64
    requires found + GenRun(b, slot) == all
    requires !(GenPasses(Switch(b, slot).puzzle, Switch(b, slot).solution, slot) && slot < 63)
    ensures var b' := Switch(b, slot);
      var found' := if GenPasses(b'.puzzle, b'.solution, slot) then found + [Score(b'.puzzle, b'.solution)] else found;
      var next := GenBacktrack(b'.tiles, slot);
      if next < 0 then found' == all else found' + GenRun(b', next) == all
  {
    hide GenRun, GenPasses, Score, Switch, GenBacktrack;
    GenRunBacktrack(b, slot);
    var b' := Switch(b, slot);
    var next := GenBacktrack(b'.tiles, slot);
    if GenPasses(b'.puzzle, b'.solution, slot) && next >= 0 {
      var e := Score(b'.puzzle, b'.solution);
      assert found + ([e] + GenRun(b', next)) == found + [e] + GenRun(b', next);
    }
  }

  // ---------------------------------------------------------------------
  // The tiles and the masks agree.

  /**
   * Each slot's tile says which of the three masks has its bit: WALL the
   * wall mask, MONSTER the monster mask, TREASURE the treasure mask, and
   * EMPTY none of them.
   */
  ghost predicate Consistent(b: Board)
  {
    |b.tiles| == 64 &&
    forall s :: 0 <= s < 64 ==>
      (Bit(b.solution, s) <==> b.tiles[s] == Wall) &&
      (Bit(b.puzzle.monsters, s) <==> b.tiles[s] == Monster) &&
      (Bit(b.puzzle.treasures, s) <==> b.tiles[s] == Treasure)
  }

  /** The switch keeps the tiles and the masks in agreement. */
  lemma SwitchConsistent(b: Board, slot: int)
    requires 0 <= slot < 64 && Consistent(b)
    ensures Consistent(Switch(b, slot))
  {
    var p, r := b.puzzle, Switch(b, slot);
    forall s | 0 <= s < 64
      ensures (Bit(r.solution, s) <==> r.tiles[s] == Wall) &&
        (Bit(r.puzzle.monsters, s) <==> r.tiles[s] == Monster) &&
        (Bit(r.puzzle.treasures, s) <==> r.tiles[s] == Treasure)
    {
      SlotSetBit(p.treasures, slot, s);
      SlotUnsetBit(p.treasures, slot, s);
      SlotSetBit(p.monsters, slot, s);
      SlotUnsetBit(p.monsters, slot, s);
      SlotSetBit(b.solution, slot, s);
      SlotUnsetBit(b.solution, slot, s);
    }
  }

  /** Hence no cell ever holds two of a wall, a monster and a treasure. */
  lemma ConsistentDisjoint(b: Board)
    requires Consistent(b)
    ensures Disjoint(b.puzzle, b.solution)
    ensures forall q :: At(b.puzzle.monsters, q) ==> !At(b.puzzle.treasures, q)
  {
  }

  lemma StartConsistent()
    ensures Consistent(Start())
  {
    forall s | 0 <= s < 64
      ensures !Bit(0, s)
    {
      ZeroBit(63 - s);
    }
  }

  // ---------------------------------------------------------------------
  // What the entries are.

  /** `e` is the scored puzzle of board `b`, a full board that passed every check at the last slot. */
  ghost predicate FromBoard(e: GeneratedPuzzle, b: Board)
  {
    Consistent(b) && GenPasses(b.puzzle, b.solution, 63) && e == Score(b.puzzle, b.solution)
  }

  /** Every entry recorded from a consistent board comes from a full board that passed the checks. */
  lemma {:induction false} GenRunFromBoards(b: Board, slot: int)
    requires 0 <= slot < 64 && Consistent(b)
    ensures forall e :: e in GenRun(b, slot) ==> exists b' :: FromBoard(e, b')
    decreases GenPotential(b.tiles, slot)
  {
    hide GenRun, GenPotential, Switch, GenPasses, Score;
    var b' := Switch(b, slot);
    SwitchConsistent(b, slot);
    if GenPasses(b'.puzzle, b'.solution, slot) && slot < 63 {
      GenAdvanceDecreases(b.tiles, slot);
      GenRunAdvance(b, slot);
      GenRunFromBoards(b', slot + 1);
    } else {
      GenRunBacktrack(b, slot);
      var next := GenBacktrack(b'.tiles, slot);
      if next >= 0 {
        GenBacktrackDecreases(b.tiles, slot);
        GenRunFromBoards(b', next);
      }
      if GenPasses(b'.puzzle, b'.solution, slot) {
        assert FromBoard(Score(b'.puzzle, b'.solution), b');
      }
    }
  }

  lemma GeneratedFromBoards()
    ensures forall e :: e in Generated() ==> exists b :: FromBoard(e, b)
  {
    StartConsistent();
    GenRunFromBoards(Start(), 0);
  }

  /**
   * An entry's puzzle keeps the board's monsters and treasures, which share
   * no cell with each other or with the walls; its row and column targets
   * are the board's wall counts; its solution count is the solver's.
   */
  lemma FromBoardMeaning(e: GeneratedPuzzle, b: Board)
    requires FromBoard(e, b)
    ensures Disjoint(b.puzzle, b.solution)
    ensures forall q :: At(b.puzzle.monsters, q) ==> !At(b.puzzle.treasures, q)
    ensures e.puzzle.monsters == b.puzzle.monsters && e.puzzle.treasures == b.puzzle.treasures
    ensures forall i :: 0 <= i < 8 ==>
      e.puzzle.rowWallCounts[i] as int == CountAt(RowCells(i), b.solution) &&
      e.puzzle.colWallCounts[i] as int == CountAt(ColCells(i), b.solution)
    ensures e.numSolutions == |Solutions(e.puzzle)|
  {
    ConsistentDisjoint(b);
  }

  // ---------------------------------------------------------------------
  // The loop, in three steps and the loop itself.

  /** The tile switch of `generate`, updating the tile array in place and the masks. */
  method SwitchTile(tiles: array<Tile>, puzzle: Puzzle, solution: u64, slot: int)
    returns (puzzle': Puzzle, solution': u64)
    requires tiles.Length == 64 && 0 <= slot < 64
    modifies tiles
    ensures Board(tiles[..], puzzle', solution') == Switch(Board(old(tiles[..]), puzzle, solution), slot)
  {
    puzzle', solution' := puzzle, solution;
    match tiles[slot] {
      case Treasure =>
        tiles[slot] := Monster;
        puzzle' := puzzle'.(treasures := SlotUnset(puzzle'.treasures, slot));
        puzzle' := puzzle'.(monsters := SlotSet(puzzle'.monsters, slot));
      case Monster =>
        tiles[slot] := Wall;
        puzzle' := puzzle'.(monsters := SlotUnset(puzzle'.monsters, slot));
        solution' := SlotSet(solution', slot);
      case Wall =>
        tiles[slot] := Empty;
        solution' := SlotUnset(solution', slot);
      case Empty =>
        tiles[slot] := Treasure;
        puzzle' := puzzle'.(treasures := SlotSet(puzzle'.treasures, slot));
    }
  }

  /**
   * The six checks of `generate`, all evaluated; the first is true when the
   * slot holds no invalid monster.
   */
  method GenChecks(puzzle: Puzzle, solution: u64, slot: int) returns (pass: bool)
    requires 0 <= slot < 64
    ensures pass == GenPasses(puzzle, solution, slot)
  {
    hide IsInvalidMonster, CheckDoesntOverlap, CheckDeadEnds, CheckMonsters, CheckWideSpace, TreasureRoomsOk;
    var monsterOk := !IsInvalidMonster(puzzle, solution, PosFromSlot(slot));
    var overlap := CheckDoesntOverlap(puzzle, solution);
    var deadEnds := CheckDeadEnds(puzzle, solution, slot);
    var monsters := CheckMonsters(puzzle, solution, slot);
    var wideSpace := CheckWideSpace(puzzle, solution, slot);
    var treasure := CheckTreasureRooms(puzzle, solution, slot);
    pass := monsterOk && overlap && deadEnds && monsters && wideSpace && treasure;
  }

  /** A valid board: derive the row and column counts from its walls and count the puzzle's solutions. */
  method ScoreBoard(puzzle: Puzzle, solution: u64) returns (generated: GeneratedPuzzle)
    ensures generated == Score(puzzle, solution)
  {
    hide Solutions, RowCounts, ColCounts, CountWallsInRow, CountWallsInCol, CountAt;
    var rows, cols := ZEROS, ZEROS;
    var i := 0;
    while i < 8
      invariant 0 <= i <= 8
      invariant rows[..i] == RowCounts(solution)[..i]
      invariant cols[..i] == ColCounts(solution)[..i]
    {
      CountWallsInRowCells(solution, i);
      CountWallsInColCells(solution, i);
      rows := rows[i := CountWallsInRow(solution, i) as u8];
      cols := cols[i := CountWallsInCol(solution, i) as u8];
      i := i + 1;
    }
    var validPuzzle := Puzzle(rows, cols, puzzle.monsters, puzzle.treasures);
    var validPuzzleSolutions := new u64[128];
    var numSolutions := Solve(validPuzzle, validPuzzleSolutions, 128);
    generated := GeneratedPuzzle(validPuzzle, numSolutions);
  }

  /** `out` is `before` with its first `|found|` entries replaced by `found`. */
  predicate Written(out: seq<GeneratedPuzzle>, before: seq<GeneratedPuzzle>, found: seq<GeneratedPuzzle>)
  {
    |out| == |before| && |found| <= |out| &&
    forall i :: 0 <= i < |out| ==> out[i] == if i < |found| then found[i] else before[i]
  }

  /**
   * `out` is `before` with its first `count` entries replaced by the first
   * entries of `all`, where `count` is the smaller of `|all|` and `max`.
   */
  predicate Stored(out: seq<GeneratedPuzzle>, before: seq<GeneratedPuzzle>, count: nat, max: nat,
                   all: seq<GeneratedPuzzle>)
  {
    count <= |all| && count <= max && (count == |all| || count == max) && Written(out, before, all[..count])
  }

  /** Nothing written yet. */
  lemma WrittenNone(out: seq<GeneratedPuzzle>)
    ensures Written(out, out, [])
  {
  }

  /** Storing one more entry past the ones already written. */
  lemma WrittenAppend(out: seq<GeneratedPuzzle>, before: seq<GeneratedPuzzle>, found: seq<GeneratedPuzzle>,
                      x: GeneratedPuzzle)
    requires Written(out, before, found) && |found| < |out|
    ensures Written(out[|found| := x], before, found + [x])
  {
  }

  /** Once the search ends or the output is full, what was written is a prefix of everything found. */
  lemma WrittenStored(out: seq<GeneratedPuzzle>, before: seq<GeneratedPuzzle>, found: seq<GeneratedPuzzle>,
                      max: nat, all: seq<GeneratedPuzzle>)
    requires Written(out, before, found) && |found| <= max && found <= all
    requires |found| == |all| || |found| == max
    ensures Stored(out, before, |found|, max, all)
  {
    assert all[..|found|] == found;
  }

  /**
   * `generate`: writes the entries it finds to `puzzles` and returns their
   * number; when the output is already full and one more entry is found, it
   * stops there.
   */
  method Generate(puzzles: array<GeneratedPuzzle>, maxPuzzles: nat) returns (count: nat)
    requires maxPuzzles <= puzzles.Length
    modifies puzzles
    ensures Stored(puzzles[..], old(puzzles[..]), count, maxPuzzles, Generated())
  {
    hide GenRun, GenPotential, Switch, GenPasses, Score, Consistent, Written, Stored;
    count := 0;
    ghost var found: seq<GeneratedPuzzle> := [];
    var tiles := new Tile[64](_ => Empty);
    var puzzle := Puzzle(ZEROS, ZEROS, 0, 0);
    var solution: u64 := 0;
    var slot := 0;
    assert Board(tiles[..], puzzle, solution) == Start();
    StartConsistent();
    WrittenNone(puzzles[..]);
    while 0 <= slot && slot < 64
      invariant -1 <= slot < 64
      invariant count == |found| <= maxPuzzles
      invariant 0 <= slot ==> found + GenRun(Board(tiles[..], puzzle, solution), slot) == Generated()
      invariant slot < 0 ==> found == Generated()
      invariant Consistent(Board(tiles[..], puzzle, solution))
      invariant forall k :: slot < k < 64 ==> tiles[k] == Empty
      invariant Written(puzzles[..], old(puzzles[..]), found)
      decreases if 0 <= slot then GenPotential(tiles[..], slot) + 1 else 0
    {
      ghost var before := Board(tiles[..], puzzle, solution);
      puzzle, solution := SwitchTile(tiles, puzzle, solution, slot);
      SwitchConsistent(before, slot);
      var pass := GenChecks(puzzle, solution, slot);

      if pass {
        if slot < 63 {
          GenAdvanceDecreases(before.tiles, slot);
          GenRunAdvance(before, slot);
          slot := slot + 1;
          continue;
        }
        var generated := ScoreBoard(puzzle, solution);
        GenRunStep(found, before, slot, Generated());
        if count < maxPuzzles {
          WrittenAppend(puzzles[..], old(puzzles[..]), found, generated);
          puzzles[count] := generated;
          count := count + 1;
          found := found + [generated];
        } else {
          // The output is full: stop without storing this entry.
          assert found <= found + GenRun(before, slot);
          WrittenStored(puzzles[..], old(puzzles[..]), found, maxPuzzles, Generated());
          return;
        }
      } else {
        GenRunStep(found, before, slot, Generated());
      }

      // Backtrack to the last non-empty slot (which could be this one).
      ghost var from := slot;
      while slot >= 0 && tiles[slot] == Empty
        invariant -1 <= slot <= from
        invariant GenBacktrack(tiles[..], slot) == GenBacktrack(tiles[..], from)
      {
        slot := slot - 1;
      }
      if slot >= 0 {
        GenBacktrackDecreases(before.tiles, from);
      }
    }
    WrittenStored(puzzles[..], old(puzzles[..]), found, maxPuzzles, Generated());
  }
}
