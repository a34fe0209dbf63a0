/**
 * The solver: a depth-first search over wall masks with an explicit slot
 * pointer.
 *
 * At each step the bit of the current slot is toggled (set first, cleared on
 * the second visit) and the seven checks run. When they pass the search moves
 * to the next slot, or, at the last slot, records the mask; otherwise, and
 * after recording, it backtracks to the last set slot at or before the current
 * one. The search ends when no set slot is left.
 *
 * `Run` replays that loop as a recursive function; `Solutions` is the
 * sequence of masks it records.
 */
module Solver {
  import opened Bits
  import opened Grid
  import opened Puzzles
  import opened Constraints
  import opened TreasureRooms
  import opened Lex

  // ---------------------------------------------------------------------
  // One step of the search.

  /** The seven checks of `solve` at `slot`, the treasure-room check by its meaning. */
  ghost predicate Passes(puzzle: Puzzle, solution: u64, slot: int)
    requires 0 <= slot < 64
  {
    CheckDoesntOverlap(puzzle, solution) && CheckRowCount(puzzle, solution, slot) &&
    CheckColCount(puzzle, solution, slot) && CheckDeadEnds(puzzle, solution, slot) &&
    CheckMonsters(puzzle, solution, slot) && CheckWideSpace(puzzle, solution, slot) &&
    TreasureRoomsOk(puzzle, solution, slot)
  }

  /** The toggle at the head of the loop: adds the slot's bit when clear, removes it when set. */
  function Toggle(m: u64, slot: int): (r: u64)
    requires 0 <= slot < 64
    ensures r == if Bit(m, slot) then m - Pow2(63 - slot) else m + Pow2(63 - slot)
  {
    SlotIsSetBit(m, slot);
    if SlotIsSet(m, slot) == 0 then
      SlotSetValue(m, slot);
      SlotSet(m, slot)
    else
      SlotUnsetValue(m, slot);
      SlotUnset(m, slot)
  }

  /** The toggle flips the slot's cell and no other. */
  lemma ToggleBit(m: u64, slot: int, t: int)
    requires 0 <= slot < 64
    ensures Bit(Toggle(m, slot), t) == if t == slot then !Bit(m, slot) else Bit(m, t)
  {
    SlotIsSetBit(m, slot);
    SlotSetBit(m, slot, t);
    SlotUnsetBit(m, slot, t);
  }

  /** The inner backtracking loop: the last set slot at or before `slot`, or -1 when there is none. */
  function Backtrack(m: u64, slot: int): (r: int)
    requires -1 <= slot < 64
    ensures -1 <= r <= slot
    ensures r >= 0 ==> Bit(m, r)
    ensures forall t :: r < t <= slot ==> !Bit(m, t)
    decreases slot + 1
  {
    SlotIsSetBit(m, slot);
    if slot >= 0 && SlotIsSet(m, slot) == 0 then Backtrack(m, slot - 1) else slot
  }

  // ---------------------------------------------------------------------
  // Termination: the choices left, read as a 64-digit number in base 4.

  /**
   * Choices left at slot `k` when the loop is at `slot` with mask `m`: a
   * slot before the pointer has its clear choice left when set (2) and
   * nothing when clear (0); the pointer's own slot has both choices left when
   * clear (3) and one when set (1); a slot after the pointer is untouched (3).
   */
  function Digit(m: u64, slot: int, k: int): nat
  {
    if k < slot then (if Bit(m, k) then 2 else 0)
    else if k == slot then (if Bit(m, k) then 1 else 3)
    else 3
  }

  function Digits(m: u64, slot: int): (ds: seq<nat>)
    ensures |ds| == 64 && Bounded(ds, 4)
  {
    seq(64, k => Digit(m, slot, k))
  }

  function Potential(m: u64, slot: int): nat
  {
    Value(Digits(m, slot), 4)
  }

  /** Moving on to the next slot uses up a choice at the current one. */
  lemma AdvanceDecreases(m: u64, slot: int)
    requires 0 <= slot < 63
    ensures Potential(Toggle(m, slot), slot + 1) < Potential(m, slot)
  {
    var m' := Toggle(m, slot);
    var a, b := Digits(m', slot + 1), Digits(m, slot);
    forall i | 0 <= i <= slot
      ensures a[i] == Digit(m', slot + 1, i) && b[i] == Digit(m, slot, i)
      ensures i < slot ==> a[i] == b[i]
    {
      ToggleBit(m, slot, i);
    }
    ToggleBit(m, slot, slot);
    LexLess(a, b, 4, slot);
  }

  /** Backtracking lands on a set slot, whose last choice is still to come. */
  lemma BacktrackDecreases(m: u64, slot: int)
    requires 0 <= slot < 64
    requires Backtrack(Toggle(m, slot), slot) >= 0
    ensures Potential(Toggle(m, slot), Backtrack(Toggle(m, slot), slot)) < Potential(m, slot)
  {
    var m' := Toggle(m, slot);
    var next := Backtrack(m', slot);
    var a, b := Digits(m', next), Digits(m, slot);
    forall i | 0 <= i <= next
      ensures a[i] == Digit(m', next, i) && b[i] == Digit(m, slot, i)
      ensures i < next ==> a[i] == b[i]
    {
      ToggleBit(m, slot, i);
    }
    ToggleBit(m, slot, slot);
    ToggleBit(m, slot, next);
    LexLess(a, b, 4, next);
  }

  // ---------------------------------------------------------------------
  // The search as a function.

  /**
   * The masks recorded from the loop head with mask `m` and pointer `slot`
   * until the search ends.
   */
  ghost function Run(puzzle: Puzzle, m: u64, slot: int): seq<u64>
    requires 0 <= slot < 64
    decreases Potential(m, slot)
  {
    var m' := Toggle(m, slot);
    if Passes(puzzle, m', slot) && slot < 63 then
      AdvanceDecreases(m, slot);
      Run(puzzle, m', slot + 1)
    else
      var recorded := if Passes(puzzle, m', slot) then [m'] else [];
      var next := Backtrack(m', slot);
      if next < 0 then recorded
      else
        BacktrackDecreases(m, slot);
        recorded + Run(puzzle, m', next)
  }

  /** Every mask `solve` records, in order, starting from the empty mask at slot 0. */
  ghost function Solutions(puzzle: Puzzle): seq<u64>
  {
    Run(puzzle, 0, 0)
  }

  /** Unfolding `Run` once, at a step that moves on to the next slot. */
  lemma RunAdvance(puzzle: Puzzle, m: u64, slot: int)
    requires 0 <= slot < 63 && Passes(puzzle, Toggle(m, slot), slot)
    ensures Run(puzzle, m, slot) == Run(puzzle, Toggle(m, slot), slot + 1)
  {
  }

  /** Unfolding `Run` once, at a step that backtracks (after recording, at the last slot, when the checks pass). */
  lemma RunBacktrack(puzzle: Puzzle, m: u64, slot: int)
    requires 0 <= slot < 64
    requires !(Passes(puzzle, Toggle(m, slot), slot) && slot < 63)
    ensures var m' := Toggle(m, slot);
      var recorded := if Passes(puzzle, m', slot) then [m'] else [];
      var next := Backtrack(m', slot);
      Run(puzzle, m, slot) == if next < 0 then recorded else recorded + Run(puzzle, m', next)
  {
  }

  /** No slot after the pointer is set. */
  ghost predicate HighClear(m: u64, slot: int)
  {
    forall t :: slot < t < 64 ==> !Bit(m, t)
  }

  /** The empty mask has no slot set. */
  lemma EmptyHighClear(slot: int)
    ensures HighClear(0, slot)
  {
    forall t | slot < t < 64
      ensures !Bit(0, t)
    {
      ZeroBit(63 - t);
    }
  }

  // ---------------------------------------------------------------------
  // The loop.

  /**
   * `solve`: returns the number of masks recorded; the first `maxSolutions`
   * of them are written to `solutions`, the rest only counted.
   */
  method Solve(puzzle: Puzzle, solutions: array<u64>, maxSolutions: nat) returns (total: nat)
    requires maxSolutions <= solutions.Length
    modifies solutions
    ensures total == |Solutions(puzzle)|
    ensures forall i :: 0 <= i < solutions.Length ==>
      solutions[i] == if i < total && i < maxSolutions then Solutions(puzzle)[i] else old(solutions[i])
  {
    hide CheckDoesntOverlap, CheckRowCount, CheckColCount, CheckDeadEnds, CheckMonsters, CheckWideSpace,
      TreasureRoomsOk, Potential, TestBit, Pow2, Toggle, Run;
    total := 0;
    ghost var found: seq<u64> := [];
    var solution: u64 := 0;
    var slot := 0;
    EmptyHighClear(slot);
    while 0 <= slot && slot < 64
      invariant -1 <= slot < 64
      invariant total == |found|
      invariant 0 <= slot ==> found + Run(puzzle, solution, slot) == Solutions(puzzle)
      invariant slot < 0 ==> found == Solutions(puzzle)
      invariant HighClear(solution, slot)
      invariant forall i :: 0 <= i < solutions.Length ==>
        solutions[i] == if i < total && i < maxSolutions then found[i] else old(solutions[i])
      decreases if 0 <= slot then Potential(solution, slot) + 1 else 0
    {
      ghost var m := solution;
      solution := Toggle(solution, slot);
      forall t ensures Bit(solution, t) == if t == slot then !Bit(m, slot) else Bit(m, t) {
        ToggleBit(m, slot, t);
      }

      var pass := CheckDoesntOverlap(puzzle, solution) && CheckRowCount(puzzle, solution, slot) &&
        CheckColCount(puzzle, solution, slot) && CheckDeadEnds(puzzle, solution, slot) &&
        CheckMonsters(puzzle, solution, slot) && CheckWideSpace(puzzle, solution, slot);
      if pass {
        pass := CheckTreasureRooms(puzzle, solution, slot);
      }
      assert pass == Passes(puzzle, solution, slot);

      ghost var before := found;
      if pass {
        if slot < 63 {
          AdvanceDecreases(m, slot);
          RunAdvance(puzzle, m, slot);
          slot := slot + 1;
          continue;
        }
        // Past `maxSolutions` the mask is only counted.
        if total < maxSolutions {
          solutions[total] := solution;
        }
        found := found + [solution];
        total := total + 1;
      }

      RunBacktrack(puzzle, m, slot);
      ghost var from := slot;
      while slot >= 0 && SlotIsSet(solution, slot) == 0
        invariant -1 <= slot <= from
        invariant Backtrack(solution, slot) == Backtrack(solution, from)
      {
        slot := slot - 1;
      }
      if slot >= 0 {
        BacktrackDecreases(m, from);
        assert found + Run(puzzle, solution, slot) == before + (found[|before|..] + Run(puzzle, solution, slot));
      }
    }
  }

  // ---------------------------------------------------------------------
  // Order: the recorded masks strictly decrease.

  /**
   * The largest mask the search can still record from the loop head: the
   * slots before the pointer are fixed, and the pointer's slot is either about
   * to be cleared (when set) or still has both values ahead (when clear).
   */
  function Bound(m: u64, slot: int): int
    requires 0 <= slot < 64
  {
    if Bit(m, slot) then m - 1 else m + 2 * Pow2(63 - slot) - 1
  }

  predicate Decreasing(s: seq<u64>)
  {
    forall i, j :: 0 <= i < j < |s| ==> s[i] > s[j]
  }

  lemma AppendDecreasing(a: seq<u64>, b: seq<u64>)
    requires Decreasing(a) && Decreasing(b)
    requires forall x, y :: x in a && y in b ==> x > y
    ensures Decreasing(a + b)
  {
    forall i, j | 0 <= i < j < |a + b|
      ensures (a + b)[i] > (a + b)[j]
    {
      if j >= |a| {
        assert (a + b)[j] == b[j - |a|];
        assert b[j - |a|] in b;
        if i < |a| {
          assert (a + b)[i] == a[i] && a[i] in a;
        } else {
          assert (a + b)[i] == b[i - |a|];
        }
      }
    }
  }

  /** Everything recorded from the loop head is at most `Bound`, and the records strictly decrease. */
  lemma {:induction false} RunOrdered(puzzle: Puzzle, m: u64, slot: int)
    requires 0 <= slot < 64
    ensures forall e :: e in Run(puzzle, m, slot) ==> e <= Bound(m, slot)
    ensures Decreasing(Run(puzzle, m, slot))
    decreases Potential(m, slot)
  {
    hide Run, Passes, Potential, TestBit;
    var m' := Toggle(m, slot);
    ToggleBit(m, slot, slot);
    if Passes(puzzle, m', slot) && slot < 63 {
      AdvanceDecreases(m, slot);
      RunAdvance(puzzle, m, slot);
      RunOrdered(puzzle, m', slot + 1);
      assert Pow2(63 - slot) == 2 * Pow2(63 - (slot + 1));
    } else {
      RunBacktrack(puzzle, m, slot);
      var recorded := if Passes(puzzle, m', slot) then [m'] else [];
      var next := Backtrack(m', slot);
      assert slot == 63 ==> Pow2(63 - slot) == 1;
      if next >= 0 {
        BacktrackDecreases(m, slot);
        RunOrdered(puzzle, m', next);
        AppendDecreasing(recorded, Run(puzzle, m', next));
      }
    }
  }

  /** `solve` records its masks in strictly decreasing numeric order, so never the same mask twice. */
  lemma SolutionsOrdered(puzzle: Puzzle)
    ensures Decreasing(Solutions(puzzle))
    ensures forall i, j :: 0 <= i < |Solutions(puzzle)| && 0 <= j < |Solutions(puzzle)| && i != j ==>
      Solutions(puzzle)[i] != Solutions(puzzle)[j]
  {
    hide Run, Toggle;
    RunOrdered(puzzle, 0, 0);
  }

  // ---------------------------------------------------------------------
  // Soundness: every recorded mask passed every check on its way.

  /** The mask with every slot after `k` cleared: what the search held when it checked slot `k`. */
  function Prefix(e: u64, k: int): (r: u64)
    requires 0 <= k < 64
    ensures r <= e
  {
    ClearLow(e, 63 - k)
  }

  lemma PrefixBit(e: u64, k: int, t: int)
    requires 0 <= k < 64
    ensures Bit(Prefix(e, k), t) == (t <= k && Bit(e, t))
  {
    if 0 <= t < 64 {
      ClearLowBit(e, 63 - k, 63 - t);
    }
  }

  lemma PrefixAt(e: u64, k: int, q: Pos)
    requires 0 <= k < 64
    ensures At(Prefix(e, k), q) == (At(e, q) && SlotOf(q) <= k)
  {
    PrefixBit(e, k, SlotOf(q));
  }

  /** Masks that agree up to slot `k` have the same prefix. */
  lemma PrefixAgree(a: u64, b: u64, k: int)
    requires 0 <= k < 64
    requires forall t :: 0 <= t <= k ==> Bit(a, t) == Bit(b, t)
    ensures Prefix(a, k) == Prefix(b, k)
  {
    forall i | 0 <= i < 64
      ensures TestBit(Prefix(a, k), i) == TestBit(Prefix(b, k), i)
    {
      PrefixBit(a, k, 63 - i);
      PrefixBit(b, k, 63 - i);
    }
    Ext64(Prefix(a, k), Prefix(b, k));
  }

  /** A mask with nothing after slot `k` is its own prefix. */
  lemma PrefixWhole(a: u64, k: int)
    requires 0 <= k < 64 && HighClear(a, k)
    ensures Prefix(a, k) == a
  {
    forall i | 0 <= i < 64
      ensures TestBit(Prefix(a, k), i) == TestBit(a, i)
    {
      PrefixBit(a, k, 63 - i);
      if 63 - i > k {
        assert !Bit(a, 63 - i);
      }
    }
    Ext64(Prefix(a, k), a);
  }

  /** The checks at every slot before `slot` passed on the corresponding prefix of `e`. */
  ghost predicate Trail(puzzle: Puzzle, e: u64, slot: int)
  {
    forall k :: 0 <= k < 64 && k < slot ==> Passes(puzzle, Prefix(e, k), k)
  }

  /** From a loop head whose trail is intact, every recorded mask has a complete trail. */
  lemma {:induction false} RunSound(puzzle: Puzzle, m: u64, slot: int)
    requires 0 <= slot < 64
    requires Trail(puzzle, m, slot) && HighClear(m, slot)
    ensures forall e :: e in Run(puzzle, m, slot) ==> Trail(puzzle, e, 64)
    decreases Potential(m, slot)
  {
    hide Run, Passes, Potential, TestBit, Prefix;
    var m' := Toggle(m, slot);
    forall t
      ensures Bit(m', t) == if t == slot then !Bit(m, slot) else Bit(m, t)
    {
      ToggleBit(m, slot, t);
    }
    PrefixWhole(m', slot);
    forall k | 0 <= k < slot
      ensures Prefix(m', k) == Prefix(m, k)
    {
      PrefixAgree(m', m, k);
    }
    if Passes(puzzle, m', slot) && slot < 63 {
      AdvanceDecreases(m, slot);
      RunAdvance(puzzle, m, slot);
      RunSound(puzzle, m', slot + 1);
    } else {
      RunBacktrack(puzzle, m, slot);
      var next := Backtrack(m', slot);
      if next >= 0 {
        BacktrackDecreases(m, slot);
        RunSound(puzzle, m', next);
      }
    }
  }

  /** Every mask `solve` records passed all seven checks at every slot. */
  lemma SolutionsSound(puzzle: Puzzle)
    ensures forall e :: e in Solutions(puzzle) ==> Trail(puzzle, e, 64)
  {
    hide Run, Toggle, Passes;
    EmptyHighClear(0);
    RunSound(puzzle, 0, 0);
  }

  // ---------------------------------------------------------------------
  // What a complete trail means for the whole board.

  /**
   * A solved board: no wall on a monster or treasure, every row and column
   * holding its target number of walls, no dead end, no invalid monster, no
   * open 2x2 block away from treasures, and a valid room for every treasure.
   */
  ghost predicate ValidBoard(puzzle: Puzzle, e: u64)
  {
    Disjoint(puzzle, e) &&
    (forall r :: 0 <= r < 8 ==> CountAt(RowCells(r), e) == puzzle.rowWallCounts[r]) &&
    (forall c :: 0 <= c < 8 ==> CountAt(ColCells(c), e) == puzzle.colWallCounts[c]) &&
    (forall q :: !IsDeadEnd(puzzle, e, q)) &&
    (forall q :: !IsInvalidMonster(puzzle, e, q)) &&
    (forall slot :: 0 <= slot < 64 ==> CheckWideSpace(puzzle, e, slot)) &&
    TreasureRoomsOk(puzzle, e, 63)
  }

  /** Cells at or before slot `k` look the same in `e` and in its prefix. */
  lemma CellsUpTo(e: u64, k: int, ps: seq<Pos>)
    requires 0 <= k < 64
    requires forall j :: 0 <= j < |ps| && InBounds(ps[j]) ==> SlotOf(ps[j]) <= k
    ensures CountAt(ps, Prefix(e, k)) == CountAt(ps, e)
    ensures CountClear(ps, Prefix(e, k)) == CountClear(ps, e)
    ensures AnyAt(ps, Prefix(e, k)) == AnyAt(ps, e)
  {
    forall j | 0 <= j < |ps|
      ensures At(Prefix(e, k), ps[j]) == At(e, ps[j])
    {
      PrefixAt(e, k, ps[j]);
    }
    CountsAgree(ps, Prefix(e, k), e);
  }

  lemma TrailWhole(puzzle: Puzzle, e: u64)
    requires Trail(puzzle, e, 64)
    ensures Passes(puzzle, e, 63)
  {
    hide Passes;
    assert Passes(puzzle, Prefix(e, 63), 63);
    PrefixWhole(e, 63);
  }

  lemma TrailRow(puzzle: Puzzle, e: u64, r: int)
    requires Trail(puzzle, e, 64) && 0 <= r < 8
    ensures CountAt(RowCells(r), e) == puzzle.rowWallCounts[r]
  {
    hide CheckDoesntOverlap, CheckRowCount, CheckColCount, CheckDeadEnds, CheckMonsters, CheckWideSpace,
      TreasureRoomsOk;
    var k := 8 * r + 7;
    assert Passes(puzzle, Prefix(e, k), k);
    CheckRowCountCells(puzzle, Prefix(e, k), k);
    CellsUpTo(e, k, RowCells(r));
  }

  lemma TrailCol(puzzle: Puzzle, e: u64, c: int)
    requires Trail(puzzle, e, 64) && 0 <= c < 8
    ensures CountAt(ColCells(c), e) == puzzle.colWallCounts[c]
  {
    hide CheckDoesntOverlap, CheckRowCount, CheckColCount, CheckDeadEnds, CheckMonsters, CheckWideSpace,
      TreasureRoomsOk;
    var k := 56 + c;
    assert Passes(puzzle, Prefix(e, k), k);
    CheckColCountCells(puzzle, Prefix(e, k), k);
    CellsUpTo(e, k, ColCells(c));
  }

  /**
   * The slot at which the search last looks at cell `q`: the slot below it,
   * or on the last row the slot to its right, or for the corner the last slot.
   */
  function LastLook(q: Pos): (k: int)
    requires InBounds(q)
    ensures SlotOf(q) <= k < 64
    ensures forall j :: 0 <= j < 4 && InBounds(Border(q)[j]) ==> SlotOf(Border(q)[j]) <= k
  {
    if q.row < 7 then SlotOf(q) + 8 else if q.col < 7 then SlotOf(q) + 1 else 63
  }

  lemma TrailDeadEnd(puzzle: Puzzle, e: u64, q: Pos)
    requires Trail(puzzle, e, 64)
    ensures !IsDeadEnd(puzzle, e, q)
  {
    hide CheckDoesntOverlap, CheckRowCount, CheckColCount, IsDeadEnd, CheckMonsters, CheckWideSpace,
      TreasureRoomsOk;
    IsDeadEndCells(puzzle, e, q);
    if InBounds(q) {
      var k := LastLook(q);
      assert Passes(puzzle, Prefix(e, k), k);
      var p := PosFromSlot(k);
      PosFromSlotOf(Pos(k / 8, k % 8));
      assert q == Pos(p.row - 1, p.col) || q == Pos(p.row, p.col - 1) || q == p;
      IsDeadEndCells(puzzle, Prefix(e, k), q);
      PrefixAt(e, k, q);
      CellsUpTo(e, k, Border(q));
    }
  }

  lemma TrailMonster(puzzle: Puzzle, e: u64, q: Pos)
    requires Trail(puzzle, e, 64)
    ensures !IsInvalidMonster(puzzle, e, q)
  {
    hide CheckDoesntOverlap, CheckRowCount, CheckColCount, CheckDeadEnds, IsInvalidMonster, CheckWideSpace,
      TreasureRoomsOk;
    IsInvalidMonsterCells(puzzle, e, q);
    if InBounds(q) {
      var k := LastLook(q);
      assert Passes(puzzle, Prefix(e, k), k);
      var p := PosFromSlot(k);
      PosFromSlotOf(Pos(k / 8, k % 8));
      assert q == Pos(p.row - 1, p.col) || (p.row == 7 && q == Pos(p.row, p.col - 1)) || (k == 63 && q == p);
      IsInvalidMonsterCells(puzzle, Prefix(e, k), q);
      CellsUpTo(e, k, Border(q));
    }
  }

  lemma TrailWideSpace(puzzle: Puzzle, e: u64, slot: int)
    requires Trail(puzzle, e, 64) && 0 <= slot < 64
    ensures CheckWideSpace(puzzle, e, slot)
  {
    hide CheckDoesntOverlap, CheckRowCount, CheckColCount, CheckDeadEnds, CheckMonsters, CheckWideSpace,
      TreasureRoomsOk;
    assert Passes(puzzle, Prefix(e, slot), slot);
    CheckWideSpaceCells(puzzle, Prefix(e, slot), slot);
    CheckWideSpaceCells(puzzle, e, slot);
    CellsUpTo(e, slot, SpaceCells(PosFromSlot(slot)));
  }

  /** A mask whose every prefix passed the checks solves the puzzle. */
  lemma TrailValid(puzzle: Puzzle, e: u64)
    requires Trail(puzzle, e, 64)
    ensures ValidBoard(puzzle, e)
  {
    hide CheckRowCount, CheckColCount, CheckDeadEnds, CheckMonsters, CheckWideSpace, IsDeadEnd, IsInvalidMonster;
    TrailWhole(puzzle, e);
    CheckDoesntOverlapCells(puzzle, e);
    forall r | 0 <= r < 8
      ensures CountAt(RowCells(r), e) == puzzle.rowWallCounts[r]
    {
      TrailRow(puzzle, e, r);
    }
    forall c | 0 <= c < 8
      ensures CountAt(ColCells(c), e) == puzzle.colWallCounts[c]
    {
      TrailCol(puzzle, e, c);
    }
    forall q
      ensures !IsDeadEnd(puzzle, e, q) && !IsInvalidMonster(puzzle, e, q)
    {
      TrailDeadEnd(puzzle, e, q);
      TrailMonster(puzzle, e, q);
    }
    forall slot | 0 <= slot < 64
      ensures CheckWideSpace(puzzle, e, slot)
    {
      TrailWideSpace(puzzle, e, slot);
    }
  }

  /** Every mask `solve` records solves the puzzle. */
  lemma SolutionsValid(puzzle: Puzzle)
    ensures forall e :: e in Solutions(puzzle) ==> ValidBoard(puzzle, e)
  {
    hide Run, Toggle, Passes;
    SolutionsSound(puzzle);
    forall e | e in Solutions(puzzle)
      ensures ValidBoard(puzzle, e)
    {
      TrailValid(puzzle, e);
    }
  }
}
