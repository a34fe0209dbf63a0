/**
 * The 8x8 board: slots, positions and the accessors that read and write one
 * cell of a 64-bit mask.
 *
 * A cell is addressed either by its slot (0..63, row-major) or by its
 * position (row, col). Slot `s` is bit `63 - s` of a mask. Accessors given a
 * coordinate outside the board leave the mask unchanged (setters) or answer 0
 * (testers).
 */
module Grid {
  import opened Bits

  /** `Pos`: C's `i32` coordinates, modelled as unbounded integers. */
  datatype Pos = Pos(row: int, col: int)

  predicate InBounds(p: Pos)
  {
    0 <= p.row < 8 && 0 <= p.col < 8
  }

  function SlotOf(p: Pos): int
  {
    p.row * 8 + p.col
  }

  /** C's `/` on `i32`: rounds toward zero. */
  function TruncDiv(a: int, b: int): int
    requires b > 0
  {
    if a >= 0 then a / b else -((-a) / b)
  }

  /** C's `%` on `i32`: the remainder takes the sign of the dividend. */
  function TruncMod(a: int, b: int): int
    requires b > 0
  {
    a - b * TruncDiv(a, b)
  }

  /** `pos_from_slot` */
  function PosFromSlot(slot: int): (p: Pos)
    ensures SlotOf(p) == slot
    ensures -8 < p.col < 8
    ensures slot >= 0 ==> p.col >= 0
    ensures slot <= 0 ==> p.col <= 0
    ensures InBounds(p) <==> 0 <= slot < 64
  {
    Pos(TruncDiv(slot, 8), TruncMod(slot, 8))
  }

  lemma PosFromSlotOf(p: Pos)
    requires InBounds(p)
    ensures PosFromSlot(SlotOf(p)) == p
  {
    var q := PosFromSlot(SlotOf(p));
    SlotOfInjective(p, q);
  }

  lemma SlotOfInjective(p: Pos, q: Pos)
    requires InBounds(p) && InBounds(q) && SlotOf(p) == SlotOf(q)
    ensures p == q
  {
  }

  /** `(u64)1 << (63 - slot)`: the mask whose only set bit is the slot's. */
  function SlotBit(slot: int): (r: u64)
    requires 0 <= slot < 64
    ensures forall i :: 0 <= i < 64 ==> TestBit(r, i) == (i == 63 - slot)
    ensures r == Pow2(63 - slot)
  {
    var k := 63 - slot;
    var bit := Pow2(k);
    forall i | 0 <= i < 64
      ensures TestBit(bit, i) == (i == k)
    {
      Pow2Bit(k, i);
    }
    Pow2Is64();
    Pow2Monotone(k, 63);
    bit
  }

  /** The cell at `slot` is set in `m`. */
  predicate Bit(m: nat, slot: int)
  {
    0 <= slot < 64 && TestBit(m, 63 - slot)
  }

  /** The cell at position `p` is set in `m`. */
  predicate At(m: nat, p: Pos)
  {
    InBounds(p) && Bit(m, SlotOf(p))
  }

  // ---------------------------------------------------------------------
  // Slot accessors.

  /** `slot_set` */
  function SlotSet(m: u64, slot: int): u64
  {
    if slot < 0 || slot >= 64 then m else Or64(m, SlotBit(slot))
  }

  /** `slot_unset` */
  function SlotUnset(m: u64, slot: int): u64
  {
    if slot < 0 || slot >= 64 then m else And(m, Not(SlotBit(slot)))
  }

  /** `slot_is_set` */
  function SlotIsSet(m: u64, slot: int): u64
  {
    if slot < 0 || slot >= 64 then 0 else And(m, SlotBit(slot))
  }

  // ---------------------------------------------------------------------
  // Position accessors.

  /** `pos_set` */
  function PosSet(m: u64, p: Pos): u64
  {
    if p.row < 0 || p.row >= 8 || p.col < 0 || p.col >= 8 then m
    else Or64(m, SlotBit(p.row * 8 + p.col))
  }

  /** `pos_unset` */
  function PosUnset(m: u64, p: Pos): u64
  {
    if p.row < 0 || p.row >= 8 || p.col < 0 || p.col >= 8 then m
    else And(m, Not(SlotBit(p.row * 8 + p.col)))
  }

  /** `pos_is_set` */
  function PosIsSet(m: u64, p: Pos): u64
  {
    if p.row < 0 || p.row >= 8 || p.col < 0 || p.col >= 8 then 0
    else And(m, SlotBit(p.row * 8 + p.col))
  }

  // ---------------------------------------------------------------------
  // What the accessors do to bits.

  lemma SlotSetBit(m: u64, slot: int, t: int)
    ensures Bit(SlotSet(m, slot), t) <==> Bit(m, t) || (0 <= slot < 64 && t == slot)
  {
    if 0 <= slot < 64 && 0 <= t < 64 {
      OrBit(m, SlotBit(slot), 63 - t);
      Pow2Bit(63 - slot, 63 - t);
    }
  }

  lemma SlotUnsetBit(m: u64, slot: int, t: int)
    ensures Bit(SlotUnset(m, slot), t) <==> Bit(m, t) && !(0 <= slot < 64 && t == slot)
  {
    if 0 <= slot < 64 && 0 <= t < 64 {
      AndBit(m, Not(SlotBit(slot)), 63 - t);
      NotBit(SlotBit(slot), 63 - t);
      Pow2Bit(63 - slot, 63 - t);
    }
  }

  lemma SlotIsSetBit(m: u64, slot: int)
    ensures SlotIsSet(m, slot) != 0 <==> Bit(m, slot)
    ensures SlotIsSet(m, slot) != 0 ==> SlotIsSet(m, slot) == SlotBit(slot)
  {
    if 0 <= slot < 64 {
      var r := SlotIsSet(m, slot);
      forall i | 0 <= i < 64
        ensures TestBit(r, i) == (TestBit(m, 63 - slot) && i == 63 - slot)
      {
        AndBit(m, SlotBit(slot), i);
        Pow2Bit(63 - slot, i);
      }
      ZeroIffNoBit(r);
      if Bit(m, slot) {
        forall i | 0 <= i < 64
          ensures TestBit(r, i) == TestBit(SlotBit(slot), i)
        {
          Pow2Bit(63 - slot, i);
        }
        Ext64(r, SlotBit(slot));
      }
    }
  }

  /** Setting a clear slot adds its bit's value. */
  lemma SlotSetValue(m: u64, slot: int)
    requires 0 <= slot < 64 && !Bit(m, slot)
    ensures SlotSet(m, slot) == m + Pow2(63 - slot)
  {
    SetBitValue(m, 63 - slot);
  }

  /** Clearing a set slot subtracts its bit's value. */
  lemma SlotUnsetValue(m: u64, slot: int)
    requires Bit(m, slot)
    ensures SlotUnset(m, slot) == m - Pow2(63 - slot)
  {
    ClearBitValue(m, 63 - slot);
  }

  /** The position accessors agree with the slot accessors on the board. */
  lemma PosAgreesWithSlot(m: u64, p: Pos)
    ensures InBounds(p) ==> PosSet(m, p) == SlotSet(m, SlotOf(p))
    ensures InBounds(p) ==> PosUnset(m, p) == SlotUnset(m, SlotOf(p))
    ensures InBounds(p) ==> PosIsSet(m, p) == SlotIsSet(m, SlotOf(p))
    ensures !InBounds(p) ==> PosSet(m, p) == m && PosUnset(m, p) == m && PosIsSet(m, p) == 0
  {
  }

  lemma PosSetBit(m: u64, p: Pos, i: nat)
    requires i < 64
    ensures TestBit(PosSet(m, p), i) == (TestBit(m, i) || (InBounds(p) && i == 63 - SlotOf(p)))
  {
    if InBounds(p) {
      OrBit(m, SlotBit(SlotOf(p)), i);
      Pow2Bit(63 - SlotOf(p), i);
    }
  }

  lemma PosSetAt(m: u64, p: Pos, q: Pos)
    ensures At(PosSet(m, p), q) <==> At(m, q) || (InBounds(p) && p == q)
  {
    if InBounds(q) {
      PosSetBit(m, p, 63 - SlotOf(q));
      if InBounds(p) && SlotOf(p) == SlotOf(q) {
        SlotOfInjective(p, q);
      }
    }
  }

  lemma PosUnsetAt(m: u64, p: Pos, q: Pos)
    ensures At(PosUnset(m, p), q) <==> At(m, q) && !(InBounds(p) && p == q)
  {
    if InBounds(p) && InBounds(q) {
      SlotUnsetBit(m, SlotOf(p), SlotOf(q));
      if SlotOf(p) == SlotOf(q) {
        SlotOfInjective(p, q);
      }
    }
  }

  lemma PosIsSetAt(m: u64, p: Pos)
    ensures PosIsSet(m, p) != 0 <==> At(m, p)
  {
    SlotIsSetBit(m, SlotOf(p));
  }

  // ---------------------------------------------------------------------
  // Masks built by setting a list of positions in order, and counting.

  /** The mask obtained by `pos_set`-ing each position of `ps`, in order, into 0. */
  function Mask(ps: seq<Pos>): u64
  {
    if |ps| == 0 then 0 else PosSet(Mask(ps[..|ps| - 1]), ps[|ps| - 1])
  }

  predicate Distinct(ps: seq<Pos>)
  {
    forall j, k :: 0 <= j < k < |ps| ==> ps[j] != ps[k]
  }

  /** Number of entries of `ps` that are set cells of `x`. */
  function CountAt(ps: seq<Pos>, x: nat): (r: nat)
    ensures r <= |ps|
  {
    if |ps| == 0 then 0
    else CountAt(ps[..|ps| - 1], x) + (if At(x, ps[|ps| - 1]) then 1 else 0)
  }

  /** Number of entries of `ps` that lie on the board. */
  function CountInBounds(ps: seq<Pos>): (r: nat)
    ensures r <= |ps|
  {
    if |ps| == 0 then 0
    else CountInBounds(ps[..|ps| - 1]) + (if InBounds(ps[|ps| - 1]) then 1 else 0)
  }

  /** Number of entries of `ps` that lie on the board and are clear in `x`. */
  function CountClear(ps: seq<Pos>, x: nat): (r: nat)
    ensures r <= |ps|
  {
    if |ps| == 0 then 0
    else CountClear(ps[..|ps| - 1], x) + (if InBounds(ps[|ps| - 1]) && !At(x, ps[|ps| - 1]) then 1 else 0)
  }

  lemma {:induction false} CountSplit(ps: seq<Pos>, x: nat)
    ensures CountInBounds(ps) == CountAt(ps, x) + CountClear(ps, x)
  {
    if |ps| > 0 {
      CountSplit(ps[..|ps| - 1], x);
    }
  }

  /** The bits of `Mask(ps)` are exactly the on-board entries of `ps`. */
  lemma {:induction false} MaskBit(ps: seq<Pos>, i: nat)
    requires i < 64
    ensures TestBit(Mask(ps), i) <==> exists j :: 0 <= j < |ps| && InBounds(ps[j]) && i == 63 - SlotOf(ps[j])
  {
    if |ps| == 0 {
      ZeroBit(i);
    } else {
      var init := ps[..|ps| - 1];
      MaskBit(init, i);
      PosSetBit(Mask(init), ps[|ps| - 1], i);
      if exists j :: 0 <= j < |init| && InBounds(init[j]) && i == 63 - SlotOf(init[j]) {
        var j :| 0 <= j < |init| && InBounds(init[j]) && i == 63 - SlotOf(init[j]);
        assert ps[j] == init[j];
      }
      if exists j :: 0 <= j < |ps| && InBounds(ps[j]) && i == 63 - SlotOf(ps[j]) {
        var j :| 0 <= j < |ps| && InBounds(ps[j]) && i == 63 - SlotOf(ps[j]);
        if j < |init| {
          assert init[j] == ps[j];
        }
      }
    }
  }

  /** A cell is set in `Mask(ps)` exactly when it is on the board and listed in `ps`. */
  lemma MaskAt(ps: seq<Pos>, q: Pos)
    ensures At(Mask(ps), q) <==> InBounds(q) && q in ps
  {
    hide Mask, TestBit;
    if InBounds(q) {
      var i := 63 - SlotOf(q);
      MaskBit(ps, i);
      if q in ps {
        var j :| 0 <= j < |ps| && ps[j] == q;
        assert InBounds(ps[j]) && i == 63 - SlotOf(ps[j]);
      }
      if TestBit(Mask(ps), i) {
        var j :| 0 <= j < |ps| && InBounds(ps[j]) && i == 63 - SlotOf(ps[j]);
        SlotOfInjective(q, ps[j]);
      }
    }
  }

  /** Some entry of `ps` is a set cell of `x`. */
  predicate AnyAt(ps: seq<Pos>, x: nat)
  {
    exists j :: 0 <= j < |ps| && At(x, ps[j])
  }

  /** Every entry of `ps` lies on the board. */
  predicate AllInBounds(ps: seq<Pos>)
  {
    forall j :: 0 <= j < |ps| ==> InBounds(ps[j])
  }

  /** `Mask(ps) & x` is non-zero exactly when some listed on-board cell is set in `x`. */
  lemma MaskAndNonZero(ps: seq<Pos>, x: u64)
    ensures And(Mask(ps), x) != 0 <==> AnyAt(ps, x)
  {
    var y := And(Mask(ps), x);
    forall i | 0 <= i < 64
      ensures TestBit(y, i) <==> exists j :: 0 <= j < |ps| && InBounds(ps[j]) && i == 63 - SlotOf(ps[j]) && TestBit(x, i)
    {
      AndBit(Mask(ps), x, i);
      MaskBit(ps, i);
    }
    ZeroIffNoBit(y);
    if y != 0 {
      var i :| 0 <= i < 64 && TestBit(y, i);
      var j :| 0 <= j < |ps| && InBounds(ps[j]) && i == 63 - SlotOf(ps[j]) && TestBit(x, i);
      assert At(x, ps[j]);
    }
    if AnyAt(ps, x) {
      var j :| 0 <= j < |ps| && At(x, ps[j]);
      assert TestBit(y, 63 - SlotOf(ps[j]));
    }
  }

  /** Two masks share no set bit exactly when they share no set cell. */
  lemma AndZeroAt(a: u64, b: u64)
    ensures And(a, b) == 0 <==> forall q :: At(a, q) ==> !At(b, q)
  {
    var y := And(a, b);
    ZeroIffNoBit(y);
    if y != 0 {
      var i :| 0 <= i < 64 && TestBit(y, i);
      AndBit(a, b, i);
      var s := 63 - i;
      var q := Pos(s / 8, s % 8);
      assert SlotOf(q) == s;
      assert At(a, q) && At(b, q);
    } else {
      forall q | At(a, q)
        ensures !At(b, q)
      {
        AndBit(a, b, 63 - SlotOf(q));
      }
    }
  }

  lemma {:induction false} CountInBoundsAll(ps: seq<Pos>)
    ensures CountInBounds(ps) == |ps| <==> AllInBounds(ps)
  {
    if |ps| > 0 {
      CountInBoundsAll(ps[..|ps| - 1]);
      assert forall j :: 0 <= j < |ps| - 1 ==> ps[..|ps| - 1][j] == ps[j];
    }
  }

  /** Counts over `ps` depend on a mask only through the listed cells. */
  lemma {:induction false} CountsAgree(ps: seq<Pos>, a: nat, b: nat)
    requires forall j :: 0 <= j < |ps| ==> At(a, ps[j]) == At(b, ps[j])
    ensures CountAt(ps, a) == CountAt(ps, b)
    ensures CountClear(ps, a) == CountClear(ps, b)
  {
    if |ps| > 0 {
      assert forall j :: 0 <= j < |ps| - 1 ==> ps[..|ps| - 1][j] == ps[j];
      CountsAgree(ps[..|ps| - 1], a, b);
    }
  }

  /** Over a list of distinct positions, `popcount(Mask(ps) & x)` counts the listed cells set in `x`. */
  lemma {:induction false} MaskAndCount(ps: seq<Pos>, x: u64)
    requires Distinct(ps)
    ensures PopCount(And(Mask(ps), x)) == CountAt(ps, x)
  {
    if |ps| == 0 {
      PopCountZero();
    } else {
      var init, q := ps[..|ps| - 1], ps[|ps| - 1];
      MaskAndCount(init, x);
      var old_ := And(Mask(init), x);
      var new_ := And(Mask(ps), x);
      if InBounds(q) {
        var k := 63 - SlotOf(q);
        forall i | 0 <= i < 64
          ensures TestBit(new_, i) == (TestBit(old_, i) || (i == k && TestBit(x, k)))
        {
          AndBit(Mask(ps), x, i);
          AndBit(Mask(init), x, i);
          PosSetBit(Mask(init), q, i);
        }
        if TestBit(x, k) {
          MaskAt(init, q);
          AndBit(Mask(init), x, k);
          CountDropOne(new_, old_, k, 64);
        } else {
          CountSame(new_, old_, 64);
        }
      }
    }
  }

  /** Over a list of distinct positions, `popcount(Mask(ps))` counts the listed on-board cells. */
  lemma {:induction false} MaskCount(ps: seq<Pos>)
    requires Distinct(ps)
    ensures PopCount(Mask(ps)) == CountInBounds(ps)
  {
    if |ps| == 0 {
      PopCountZero();
    } else {
      var init, q := ps[..|ps| - 1], ps[|ps| - 1];
      MaskCount(init);
      if InBounds(q) {
        var k := 63 - SlotOf(q);
        forall i | 0 <= i < 64
          ensures TestBit(Mask(ps), i) == (TestBit(Mask(init), i) || i == k)
        {
          PosSetBit(Mask(init), q, i);
        }
        MaskAt(init, q);
        CountDropOne(Mask(ps), Mask(init), k, 64);
      }
    }
  }

  // ---------------------------------------------------------------------
  // Rows and columns.

  /** The cells of row 0: slots 0..7, the eight most significant bits. */
  const ROW0_MASK: u64 := 0xFF00_0000_0000_0000

  /** The cells of column 0: slots 0, 8, .., 56. */
  const COL0_MASK: u64 := 0x8080_8080_8080_8080

  /** The eight cells of row `row`, left to right. */
  function RowCells(row: int): (ps: seq<Pos>)
    ensures |ps| == 8 && Distinct(ps)
  {
    seq(8, c => Pos(row, c))
  }

  /** The eight cells of column `col`, top to bottom. */
  function ColCells(col: int): (ps: seq<Pos>)
    ensures |ps| == 8 && Distinct(ps)
  {
    seq(8, r => Pos(r, col))
  }

  /** `count_walls_in_row` */
  function CountWallsInRow(solution: u64, row: int): int
    requires 0 <= row < 8
  {
    PopCount(And(Shr(ROW0_MASK, row * 8), solution))
  }

  /** `count_walls_in_col` */
  function CountWallsInCol(solution: u64, col: int): int
    requires 0 <= col < 8
  {
    PopCount(And(Shr(COL0_MASK, col), solution))
  }

  /** Columns pattern: one bit 7 in each of the n low bytes. */
  function ColumnPattern(n: nat): nat
  {
    if n == 0 then 0 else ColumnPattern(n - 1) * 256 + 128
  }

  lemma Row0Bit(i: nat)
    ensures TestBit(ROW0_MASK, i) <==> 56 <= i < 64
  {
    assert Pow2(8) == 256;
    assert Pow2(56) == 0x100_0000_0000_0000 by {
      Pow2Is64();
    }
    ShiftAddBit(255, 0, 56, i);
    if i < 56 {
      ZeroBit(i);
    } else if i < 64 {
      ComplementBit(0, 8, i - 56);
      ZeroBit(i - 56);
    } else {
      HighBitsClear(255, 8, i - 56);
    }
  }

  lemma {:induction false} ColumnPatternBit(n: nat, i: nat)
    ensures TestBit(ColumnPattern(n), i) <==> i < 8 * n && i % 8 == 7
  {
    if n == 0 {
      ZeroBit(i);
    } else {
      assert Pow2(8) == 256;
      assert Pow2(7) == 128;
      ShiftAddBit(ColumnPattern(n - 1), 128, 8, i);
      if i < 8 {
        Pow2Bit(7, i);
      } else {
        ColumnPatternBit(n - 1, i - 8);
      }
    }
  }

  lemma Col0Bit(i: nat)
    ensures TestBit(COL0_MASK, i) <==> i < 64 && i % 8 == 7
  {
    assert ColumnPattern(1) == 0x80;
    assert ColumnPattern(2) == 0x8080;
    assert ColumnPattern(4) == 0x8080_8080;
    assert ColumnPattern(8) == COL0_MASK;
    ColumnPatternBit(8, i);
  }

  lemma RowMaskIsRowCells(row: int)
    requires 0 <= row < 8
    ensures Shr(ROW0_MASK, row * 8) == Mask(RowCells(row))
  {
    var ps := RowCells(row);
    forall i | 0 <= i < 64
      ensures TestBit(Shr(ROW0_MASK, row * 8), i) == TestBit(Mask(ps), i)
    {
      ShrBit(ROW0_MASK, row * 8, i);
      Row0Bit(i + row * 8);
      MaskBit(ps, i);
      if 56 <= i + row * 8 < 64 {
        var c := 63 - i - row * 8;
        assert InBounds(ps[c]) && i == 63 - SlotOf(ps[c]);
      }
    }
    Ext64(Shr(ROW0_MASK, row * 8), Mask(ps));
  }

  lemma ColCellsBit(col: int, i: nat)
    requires 0 <= col < 8 && i < 64
    ensures TestBit(Mask(ColCells(col)), i) <==> (i + col) % 8 == 7 && i + col < 64
  {
    hide Mask, TestBit;
    var ps := ColCells(col);
    var s := 63 - i;
    var q := Pos(s / 8, s % 8);
    assert SlotOf(q) == s && InBounds(q);
    MaskAt(ps, q);
    if q.col == col {
      assert ps[q.row] == q;
    }
    assert i + col == 8 * (7 - s / 8) + 7 + (col - s % 8);
  }

  lemma ColMaskBit(col: int, i: nat)
    requires 0 <= col < 8 && i < 64
    ensures TestBit(Shr(COL0_MASK, col), i) == TestBit(Mask(ColCells(col)), i)
  {
    ShrBit(COL0_MASK, col, i);
    Col0Bit(i + col);
    ColCellsBit(col, i);
  }

  lemma ColMaskIsColCells(col: int)
    requires 0 <= col < 8
    ensures Shr(COL0_MASK, col) == Mask(ColCells(col))
  {
    forall i | 0 <= i < 64
      ensures TestBit(Shr(COL0_MASK, col), i) == TestBit(Mask(ColCells(col)), i)
    {
      ColMaskBit(col, i);
    }
    Ext64(Shr(COL0_MASK, col), Mask(ColCells(col)));
  }

  /** `count_walls_in_row` counts the set cells among the eight cells of the row. */
  lemma CountWallsInRowCells(solution: u64, row: int)
    requires 0 <= row < 8
    ensures CountWallsInRow(solution, row) == CountAt(RowCells(row), solution)
    ensures 0 <= CountWallsInRow(solution, row) <= 8
  {
    RowMaskIsRowCells(row);
    MaskAndCount(RowCells(row), solution);
  }

  /** `count_walls_in_col` counts the set cells among the eight cells of the column. */
  lemma CountWallsInColCells(solution: u64, col: int)
    requires 0 <= col < 8
    ensures CountWallsInCol(solution, col) == CountAt(ColCells(col), solution)
    ensures 0 <= CountWallsInCol(solution, col) <= 8
  {
    ColMaskIsColCells(col);
    MaskAndCount(ColCells(col), solution);
  }
}
