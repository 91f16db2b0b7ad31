/** Masks whose lowest or highest bits are set. */
module Masks {
  import opened Bits
  import opened Arith

  /** The operator `pos & key_mask`. */
  lemma Masked(x: nat, k: nat)
    requires IsPow2(k)
    ensures And(x, k - 1) == x % k < k
  {
    var e: nat :| k == Pow2(e);
    AndMask(x, e);
    DivMod(x, k);
  }

  /** The number of values of `size_t`. */
  const SIZE_LIMIT: nat := 0x1_0000_0000_0000_0000

  lemma SizeLimitIsPower()
    ensures Pow2(64) == SIZE_LIMIT
  {
    Pow2Value31();
    assert Pow2(32) == 2 * Pow2(31);
    hide Pow2;
    Pow2Add(32, 32);
  }

  /** The operator `x & ~(w - 1)` on 64 bits. */
  function Floor(x: nat, w: nat): nat
    requires 0 < w <= 64
  {
    And(x, SIZE_LIMIT - w)
  }

  lemma AndEven(x: nat, m: nat)
    ensures And(x, 2 * m) == 2 * And(x / 2, m)
  {
  }

  lemma RoundedHalf(x: nat, p: nat)
    requires p > 0
    ensures 2 * (x / 2 - (x / 2) % p) == x - x % (2 * p)
  {
    HalfMod(x, p);
  }

  lemma {:induction false} AndHighMask(x: nat, k: nat, n: nat)
    requires k <= n && x < Pow2(n)
    ensures Pow2(k) <= Pow2(n) && And(x, Pow2(n) - Pow2(k)) == x - x % Pow2(k)
    decreases k
  {
    hide And, Pow2;
    Pow2Monotone(k, n);
    if k == 0 {
      AllBits(x, n);
    } else {
      Pow2Monotone(k - 1, n - 1);
      Pow2Double(k);
      Pow2Double(n);
      AndHighMask(x / 2, k - 1, n - 1);
      AndEven(x, Pow2(n - 1) - Pow2(k - 1));
      RoundedHalf(x, Pow2(k - 1));
    }
  }

  lemma AllBits(x: nat, n: nat)
    requires x < Pow2(n)
    ensures Pow2(0) == 1 && And(x, Pow2(n) - 1) == x && x % 1 == 0
  {
    AndMask(x, n);
    ModSmall(x, Pow2(n));
  }

  lemma Pow2Double(k: nat)
    requires k > 0
    ensures Pow2(k) == 2 * Pow2(k - 1)
  {
  }

  /** A power of two up to 64. */
  ghost predicate Width(w: nat) {
    0 < w <= 64 && IsPow2(w)
  }

  /** `x & ~(w - 1)` rounds down. */
  lemma FloorIs(x: nat, w: nat)
    requires Width(w) && x < SIZE_LIMIT
    ensures Floor(x, w) == x - x % w && Floor(x, w) % w == 0
  {
    hide Pow2, And, Floor;
    var e: nat :| w == Pow2(e);
    ExponentBound(e);
    SizeLimitIsPower();
    AndHighMask(x, e, 64);
    assert Floor(x, w) == x - x % w by { FloorUnfold(x, w); }
    DivMod(x, w);
    Commute(w, x / w);
    ModShift(0, x / w, w);
    ModSmall(0, w);
  }

  lemma ExponentBound(e: nat)
    requires Pow2(e) <= 64
    ensures e <= 64
  {
    assert Pow2(7) == 128;
    if e > 64 {
      Pow2Monotone(7, e);
      assert false;
    }
  }

  lemma FloorUnfold(x: nat, w: nat)
    requires 0 < w <= 64
    ensures Floor(x, w) == And(x, SIZE_LIMIT - w)
  {
  }
}
