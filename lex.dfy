/**
 * Digit strings read as numbers, most significant digit first.
 *
 * Both search loops are shown to terminate by reading their state as a
 * 64-digit number that every iteration makes strictly smaller: the digit
 * of a slot says how many choices are still left to try there.
 */
module Lex {
  /** The digits of `ds` all lie below `base`. */
  predicate Bounded(ds: seq<nat>, base: nat)
  {
    forall i :: 0 <= i < |ds| ==> ds[i] < base
  }

  /** The number written by `ds` in base `base`. */
  function Value(ds: seq<nat>, base: nat): nat
  {
    if |ds| == 0 then 0 else Value(ds[..|ds| - 1], base) * base + ds[|ds| - 1]
  }

  /** One more leading digit keeps a strict order: a smaller prefix wins whatever follows. */
  lemma {:induction false} ShiftLess(va: nat, vb: nat, base: nat, x: nat, y: nat)
    requires va < vb && x < base
    ensures va * base + x < vb * base + y
    decreases vb
  {
    assert vb * base == (vb - 1) * base + base;
    if va < vb - 1 {
      ShiftLess(va, vb - 1, base, x, y);
    }
  }

  lemma {:induction false} BoundedPrefix(ds: seq<nat>, base: nat, n: nat)
    requires Bounded(ds, base) && n <= |ds|
    ensures Bounded(ds[..n], base)
  {
    forall i | 0 <= i < n
      ensures ds[..n][i] < base
    {
      assert ds[..n][i] == ds[i];
    }
  }

  /**
   * Of two digit strings of the same length that agree before position `j`,
   * the one with the smaller digit at `j` is the smaller number.
   */
  lemma {:induction false} LexLess(a: seq<nat>, b: seq<nat>, base: nat, j: nat)
    requires |a| == |b| && j < |a|
    requires Bounded(a, base) && Bounded(b, base)
    requires forall i :: 0 <= i < j ==> a[i] == b[i]
    requires a[j] < b[j]
    ensures Value(a, base) < Value(b, base)
  {
    var n := |a| - 1;
    var a', b' := a[..n], b[..n];
    if n == j {
      assert a' == b';
    } else {
      BoundedPrefix(a, base, n);
      BoundedPrefix(b, base, n);
      assert forall i :: 0 <= i < j ==> a'[i] == b'[i];
      assert a'[j] == a[j] && b'[j] == b[j];
      LexLess(a', b', base, j);
      ShiftLess(Value(a', base), Value(b', base), base, a[n], b[n]);
    }
  }
}
