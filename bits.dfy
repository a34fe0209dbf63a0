/**
 * Unsigned 64-bit masks.
 *
 * A `u64` is an integer in [0, 2^64). The C operators the solver uses on
 * masks (`&`, `|`, `~`, `>>`, `1 << k`) are defined here bit by bit, by
 * recursion on the last binary digit, and `TestBit(x, i)` reads bit `i`
 * counting from the least significant bit. A board slot `s` (0..63) is bit
 * `63 - s`, so slot 0 is the most significant bit.
 */
module Bits {

  const TWO64: int := 0x1_0000_0000_0000_0000

  type u64 = x: int | 0 <= x < TWO64

  /** 2^k, the value of `(u64)1 << k` for k < 64. */
  function Pow2(k: nat): (r: nat)
    ensures r >= 1
  {
    if k == 0 then 1 else 2 * Pow2(k - 1)
  }

  lemma Pow2Is64()
    ensures Pow2(64) == TWO64
  {
    assert Pow2(8) == 0x100;
    assert Pow2(16) == 0x1_0000;
    assert Pow2(24) == 0x100_0000;
    assert Pow2(32) == 0x1_0000_0000;
    assert Pow2(40) == 0x100_0000_0000;
    assert Pow2(48) == 0x1_0000_0000_0000;
    assert Pow2(56) == 0x100_0000_0000_0000;
  }

  lemma {:induction false} Pow2Monotone(j: nat, k: nat)
    requires j <= k
    ensures Pow2(j) <= Pow2(k)
    decreases k
  {
    if j < k {
      Pow2Monotone(j, k - 1);
    }
  }

  /** Bit `i` of `x`, bit 0 being the least significant. */
  predicate TestBit(x: nat, i: nat)
  {
    if i == 0 then x % 2 == 1 else TestBit(x / 2, i - 1)
  }

  /** `a & b` */
  function And(a: nat, b: nat): (r: nat)
    ensures r <= a && r <= b
  {
    if a == 0 || b == 0 then 0
    else 2 * And(a / 2, b / 2) + (if a % 2 == 1 && b % 2 == 1 then 1 else 0)
  }

  /** `a | b` */
  function Or(a: nat, b: nat): (r: nat)
    decreases a + b
  {
    if a == 0 then b
    else if b == 0 then a
    else 2 * Or(a / 2, b / 2) + (if a % 2 == 1 || b % 2 == 1 then 1 else 0)
  }

  /** `~a` on 64 bits */
  function Not(a: u64): (r: u64)
  {
    TWO64 - 1 - a
  }

  /** `x >> k` */
  function Shr(x: nat, k: nat): (r: nat)
    ensures r <= x
  {
    if k == 0 then x else Shr(x / 2, k - 1)
  }

  /** `x` with its `k` least significant bits cleared. */
  function ClearLow(x: nat, k: nat): (r: nat)
    ensures r <= x
  {
    if k == 0 then x else 2 * ClearLow(x / 2, k - 1)
  }

  /** Number of set bits among bits 0..w-1 of `x`. */
  function BitCount(x: nat, w: nat): (r: nat)
    ensures r <= w
  {
    if w == 0 then 0 else BitCount(x, w - 1) + (if TestBit(x, w - 1) then 1 else 0)
  }

  /** Number of set bits of a 64-bit mask. */
  function PopCount(x: u64): (r: nat)
    ensures r <= 64
  {
    BitCount(x, 64)
  }

  /** Index of the least significant set bit of a non-zero value. */
  function Lowest(x: nat): (r: nat)
    requires x > 0
    ensures TestBit(x, r)
    ensures forall i :: 0 <= i < r ==> !TestBit(x, i)
  {
    if x % 2 == 1 then 0 else Lowest(x / 2) + 1
  }

  // ---------------------------------------------------------------------
  // Bit-level behaviour of the operators.

  lemma {:induction false} ZeroBit(i: nat)
    ensures !TestBit(0, i)
  {
    if i > 0 {
      ZeroBit(i - 1);
    }
  }

  lemma {:induction false} AndBit(a: nat, b: nat, i: nat)
    ensures TestBit(And(a, b), i) == (TestBit(a, i) && TestBit(b, i))
  {
    if a == 0 || b == 0 {
      ZeroBit(i);
    } else if i > 0 {
      AndBit(a / 2, b / 2, i - 1);
    }
  }

  lemma {:induction false} OrBit(a: nat, b: nat, i: nat)
    ensures TestBit(Or(a, b), i) == (TestBit(a, i) || TestBit(b, i))
    decreases a + b
  {
    if a == 0 || b == 0 {
      ZeroBit(i);
    } else if i > 0 {
      OrBit(a / 2, b / 2, i - 1);
    }
  }

  lemma {:induction false} Pow2Bit(k: nat, i: nat)
    ensures TestBit(Pow2(k), i) == (i == k)
  {
    if k == 0 {
      if i > 0 {
        ZeroBit(i - 1);
      }
    } else if i > 0 {
      Pow2Bit(k - 1, i - 1);
    }
  }

  lemma {:induction false} ComplementBit(a: nat, w: nat, i: nat)
    requires a < Pow2(w) && i < w
    ensures TestBit(Pow2(w) - 1 - a, i) == !TestBit(a, i)
  {
    if i > 0 {
      ComplementBit(a / 2, w - 1, i - 1);
    }
  }

  lemma NotBit(a: u64, i: nat)
    requires i < 64
    ensures TestBit(Not(a), i) == !TestBit(a, i)
  {
    Pow2Is64();
    ComplementBit(a, 64, i);
  }

  lemma {:induction false} ShrBit(x: nat, k: nat, i: nat)
    ensures TestBit(Shr(x, k), i) == TestBit(x, i + k)
  {
    if k > 0 {
      ShrBit(x / 2, k - 1, i);
    }
  }

  lemma {:induction false} ClearLowBit(x: nat, k: nat, i: nat)
    ensures TestBit(ClearLow(x, k), i) == (i >= k && TestBit(x, i))
  {
    if k > 0 && i > 0 {
      ClearLowBit(x / 2, k - 1, i - 1);
    }
  }

  lemma {:induction false} HighBitsClear(x: nat, w: nat, i: nat)
    requires x < Pow2(w) && i >= w
    ensures !TestBit(x, i)
  {
    if w == 0 {
      ZeroBit(i);
    } else if i > 0 {
      HighBitsClear(x / 2, w - 1, i - 1);
    }
  }

  /** Two values below 2^w with the same w low bits are equal. */
  lemma {:induction false} Ext(a: nat, b: nat, w: nat)
    requires a < Pow2(w) && b < Pow2(w)
    requires forall i :: 0 <= i < w ==> TestBit(a, i) == TestBit(b, i)
    ensures a == b
  {
    if w > 0 {
      assert TestBit(a, 0) == TestBit(b, 0);
      forall i | 0 <= i < w - 1
        ensures TestBit(a / 2, i) == TestBit(b / 2, i)
      {
        assert TestBit(a, i + 1) == TestBit(b, i + 1);
      }
      Ext(a / 2, b / 2, w - 1);
    }
  }

  lemma Ext64(a: u64, b: u64)
    requires forall i :: 0 <= i < 64 ==> TestBit(a, i) == TestBit(b, i)
    ensures a == b
  {
    Pow2Is64();
    Ext(a, b, 64);
  }

  /** None of the 64 bits of `x` is set. */
  predicate NoBitSet(x: nat)
  {
    forall i :: 0 <= i < 64 ==> !TestBit(x, i)
  }

  /** A 64-bit value is zero exactly when none of its 64 bits is set. */
  lemma ZeroIffNoBit(x: u64)
    ensures x == 0 <==> NoBitSet(x)
  {
    if x == 0 {
      forall i | 0 <= i < 64
        ensures !TestBit(x, i)
      {
        ZeroBit(i);
      }
    } else if NoBitSet(x) {
      forall i | 0 <= i < 64
        ensures TestBit(x, i) == TestBit(0, i)
      {
        ZeroBit(i);
      }
      Ext64(x, 0);
    }
  }

  lemma {:induction false} OrBound(a: nat, b: nat, w: nat)
    requires a < Pow2(w) && b < Pow2(w)
    ensures Or(a, b) < Pow2(w)
    decreases a + b
  {
    if a != 0 && b != 0 {
      OrBound(a / 2, b / 2, w - 1);
    }
  }

  /** `a | b` of two 64-bit values is a 64-bit value. */
  function Or64(a: u64, b: u64): (r: u64)
    ensures r == Or(a, b)
  {
    Pow2Is64();
    OrBound(a, b, 64);
    Or(a, b)
  }

  /** Bits of `a * 2^k + b` for `b < 2^k`: the low k bits are those of b, the rest those of a. */
  lemma {:induction false} ShiftAddBit(a: nat, b: nat, k: nat, i: nat)
    requires b < Pow2(k)
    ensures TestBit(a * Pow2(k) + b, i) == if i < k then TestBit(b, i) else TestBit(a, i - k)
  {
    if k > 0 {
      assert a * Pow2(k) + b == 2 * (a * Pow2(k - 1) + b / 2) + b % 2;
      if i > 0 {
        ShiftAddBit(a, b / 2, k - 1, i - 1);
      }
    }
  }

  // ---------------------------------------------------------------------
  // Setting and clearing one bit, numerically.

  lemma {:induction false} SetBitValue(m: nat, k: nat)
    requires !TestBit(m, k)
    ensures Or(m, Pow2(k)) == m + Pow2(k)
  {
    if k > 0 && m != 0 {
      SetBitValue(m / 2, k - 1);
    }
  }

  lemma {:induction false} SubBit(m: nat, k: nat, i: nat)
    requires TestBit(m, k)
    ensures m >= Pow2(k)
    ensures TestBit(m - Pow2(k), i) == (TestBit(m, i) && i != k)
  {
    if k == 0 {
      if i > 0 {
        assert (m - 1) / 2 == m / 2;
      }
    } else {
      SubBit(m / 2, k - 1, if i == 0 then 0 else i - 1);
      assert (m - Pow2(k)) / 2 == m / 2 - Pow2(k - 1);
    }
  }

  lemma ClearBitValue(m: u64, k: nat)
    requires k < 64 && TestBit(m, k)
    ensures Pow2(k) <= m
    ensures And(m, Not(Pow2(k) as u64)) == m - Pow2(k)
  {
    Pow2Is64();
    SubBit(m, k, 0);
    var lhs := And(m, Not(Pow2(k) as u64));
    forall i | 0 <= i < 64
      ensures TestBit(lhs, i) == TestBit(m - Pow2(k), i)
    {
      AndBit(m, Not(Pow2(k) as u64), i);
      NotBit(Pow2(k) as u64, i);
      Pow2Bit(k, i);
      SubBit(m, k, i);
    }
    Ext64(lhs, m - Pow2(k));
  }

  // ---------------------------------------------------------------------
  // Counting.

  lemma {:induction false} CountSame(x: nat, y: nat, w: nat)
    requires forall i :: 0 <= i < w ==> TestBit(x, i) == TestBit(y, i)
    ensures BitCount(x, w) == BitCount(y, w)
  {
    if w > 0 {
      CountSame(x, y, w - 1);
    }
  }

  /** Dropping one set bit lowers the count by one. */
  lemma {:induction false} CountDropOne(x: nat, y: nat, k: nat, w: nat)
    requires k < w && TestBit(x, k)
    requires forall i :: 0 <= i < w ==> TestBit(y, i) == (TestBit(x, i) && i != k)
    ensures BitCount(y, w) == BitCount(x, w) - 1
  {
    if k == w - 1 {
      CountSame(x, y, w - 1);
    } else {
      CountDropOne(x, y, k, w - 1);
    }
  }

  lemma PopCountZero()
    ensures PopCount(0) == 0
  {
    forall i | 0 <= i < 64
      ensures !TestBit(0, i)
    {
      ZeroBit(i);
    }
    ZeroCount(0, 64);
  }

  lemma {:induction false} ZeroCount(x: nat, w: nat)
    requires forall i :: 0 <= i < w ==> !TestBit(x, i)
    ensures BitCount(x, w) == 0
  {
    if w > 0 {
      ZeroCount(x, w - 1);
    }
  }

  /** `n & (n - 1)` keeps every bit of `n` except its lowest set bit. */
  lemma {:induction false} ClearLowestBit(n: nat, i: nat)
    requires n > 0
    ensures TestBit(And(n, n - 1), i) == (TestBit(n, i) && i != Lowest(n))
  {
    if n == 1 {
      ZeroBit(i);
      if i > 0 {
        ZeroBit(i - 1);
      }
    } else if n % 2 == 1 {
      assert (n - 1) / 2 == n / 2;
      if i > 0 {
        AndBit(n / 2, n / 2, i - 1);
      }
    } else {
      assert (n - 1) / 2 == n / 2 - 1;
      if i > 0 {
        ClearLowestBit(n / 2, i - 1);
      }
    }
  }

  lemma ClearLowestCount(n: u64)
    requires n > 0
    ensures PopCount(And(n, n - 1)) == PopCount(n) - 1
  {
    Pow2Is64();
    var k := Lowest(n);
    if k >= 64 {
      HighBitsClear(n, 64, k);
    }
    forall i | 0 <= i < 64
      ensures TestBit(And(n, n - 1), i) == (TestBit(n, i) && i != k)
    {
      ClearLowestBit(n, i);
    }
    CountDropOne(n, And(n, n - 1), k, 64);
  }

  /**
   * `count_set_bits`: repeatedly clears the lowest set bit and counts how
   * many times it did so.
   */
  method CountSetBits(n: u64) returns (count: int)
    ensures count == PopCount(n)
    ensures 0 <= count <= 64
  {
    var x: u64 := n;
    count := 0;
    while x != 0
      invariant count + PopCount(x) == PopCount(n)
      decreases x
    {
      ClearLowestCount(x);
      x := And(x, x - 1);
      count := count + 1;
    }
    forall i | 0 <= i < 64
      ensures !TestBit(x, i)
    {
      ZeroBit(i);
    }
    ZeroCount(x, 64);
  }
}
