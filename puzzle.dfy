/**
 * Puzzles: target wall counts per row and column, and the monsters and
 * treasures placed on the board.
 */
module Puzzles {
  import opened Bits
  import opened Grid

  type u8 = x: int | 0 <= x < 256

  /** A C array `u8[8]`. */
  type Counts = s: seq<u8> | |s| == 8 witness [0, 0, 0, 0, 0, 0, 0, 0]

  /** A C array `Pos[64]`. */
  type PosArray = s: seq<Pos> | |s| == 64 witness seq(64, _ => Pos(0, 0))

  /** `PuzzleArgs`: the readable form, with monsters and treasures as position lists. */
  datatype PuzzleArgs = PuzzleArgs(
    rowWallCounts: Counts,
    colWallCounts: Counts,
    monsters: PosArray,
    monstersCount: u8,
    treasures: PosArray,
    treasuresCount: u8)

  /** `Puzzle`: the internal form, with monsters and treasures as masks. */
  datatype Puzzle = Puzzle(
    rowWallCounts: Counts,
    colWallCounts: Counts,
    monsters: u64,
    treasures: u64)

  /**
   * `puzzle`: sets the bit of every listed monster and treasure position and
   * copies the sixteen wall counts. Listed positions off the board are skipped.
   */
  method MakePuzzle(args: PuzzleArgs) returns (p: Puzzle)
    requires args.monstersCount <= 64
    requires args.treasuresCount <= 64
    ensures p.monsters == Mask(args.monsters[..args.monstersCount])
    ensures p.treasures == Mask(args.treasures[..args.treasuresCount])
    ensures forall q :: At(p.monsters, q) <==> InBounds(q) && q in args.monsters[..args.monstersCount]
    ensures forall q :: At(p.treasures, q) <==> InBounds(q) && q in args.treasures[..args.treasuresCount]
    ensures p.rowWallCounts == args.rowWallCounts
    ensures p.colWallCounts == args.colWallCounts
  {
    var monsters: u64 := 0;
    var i := 0;
    while i < args.monstersCount
      invariant 0 <= i <= args.monstersCount
      invariant monsters == Mask(args.monsters[..i])
    {
      assert args.monsters[..i + 1][..i] == args.monsters[..i];
      monsters := PosSet(monsters, args.monsters[i]);
      i := i + 1;
    }
    var treasures: u64 := 0;
    i := 0;
    while i < args.treasuresCount
      invariant 0 <= i <= args.treasuresCount
      invariant treasures == Mask(args.treasures[..i])
    {
      assert args.treasures[..i + 1][..i] == args.treasures[..i];
      treasures := PosSet(treasures, args.treasures[i]);
      i := i + 1;
    }
    var rows: Counts := [0, 0, 0, 0, 0, 0, 0, 0];
    var cols: Counts := [0, 0, 0, 0, 0, 0, 0, 0];
    i := 0;
    while i < 8
      invariant 0 <= i <= 8
      invariant rows[..i] == args.rowWallCounts[..i]
      invariant cols[..i] == args.colWallCounts[..i]
    {
      rows := rows[i := args.rowWallCounts[i]];
      cols := cols[i := args.colWallCounts[i]];
      i := i + 1;
    }
    p := Puzzle(rows, cols, monsters, treasures);
    forall q
      ensures At(p.monsters, q) <==> InBounds(q) && q in args.monsters[..args.monstersCount]
      ensures At(p.treasures, q) <==> InBounds(q) && q in args.treasures[..args.treasuresCount]
    {
      MaskAt(args.monsters[..args.monstersCount], q);
      MaskAt(args.treasures[..args.treasuresCount], q);
    }
  }
}
