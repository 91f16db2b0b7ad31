/** Bitwise operations of the C++ code on unsigned words, stated on natural numbers. */
module Bits {

  function Pow2(k: nat): (p: nat)
    ensures p >= 1
  {
    if k == 0 then 1 else 2 * Pow2(k - 1)
  }

  ghost predicate IsPow2(n: nat) {
    exists k: nat :: n == Pow2(k)
  }

  /** The operator `x & y`, bit by bit. */
  function And(x: nat, y: nat): nat {
    if x == 0 || y == 0 then 0
    else (x % 2) * (y % 2) + 2 * And(x / 2, y / 2)
  }

  lemma {:induction false} AndAtMost(x: nat, y: nat)
    ensures And(x, y) <= x && And(x, y) <= y
    decreases x
  {
    if x == 0 || y == 0 {
    } else {
      AndAtMost(x / 2, y / 2);
      var p := (x % 2) * (y % 2);
      assert p <= x % 2 && p <= y % 2 by {
        assert x % 2 == 0 || x % 2 == 1;
        assert y % 2 == 0 || y % 2 == 1;
      }
    }
  }

  /** Masking with `2^k - 1` is the remainder by `2^k`. */
  lemma {:induction false} AndMask(x: nat, k: nat)
    ensures And(x, Pow2(k) - 1) == x % Pow2(k)
    decreases k
  {
    if k == 0 {
    } else if x == 0 {
    } else {
      var m := Pow2(k) - 1;
      assert m == 2 * (Pow2(k - 1) - 1) + 1;
      assert m % 2 == 1 && m / 2 == Pow2(k - 1) - 1;
      AndMask(x / 2, k - 1);
      assert (x % 2) * 1 == x % 2;
      HalfMod(x, Pow2(k - 1));
    }
  }

  lemma HalfMod(x: nat, n: nat)
    requires n > 0
    ensures x % (2 * n) == x % 2 + 2 * ((x / 2) % n)
  {
    var q, r := (x / 2) / n, (x / 2) % n;
    assert x / 2 == q * n + r;
    assert x == (2 * n) * q + (2 * r + x % 2) by {
      assert x == 2 * (x / 2) + x % 2;
      assert 2 * (q * n) == (2 * n) * q;
    }
    ModUnique(x, 2 * n, q, 2 * r + x % 2);
  }

  lemma ModUnique(x: int, d: nat, q: int, r: int)
    requires d > 0 && 0 <= r < d && x == d * q + r
    ensures x % d == r && x / d == q
  {
    var q', r' := x / d, x % d;
    assert x == d * q' + r' && 0 <= r' < d;
    MultipleGap(d, q - q');
    assert d * (q - q') == d * q - d * q';
  }

  lemma {:induction false} MultipleGap(d: int, k: int)
    requires d > 0
    ensures k > 0 ==> d * k >= d
    ensures k < 0 ==> d * k <= -d
    decreases if k < 0 then -k else k
  {
    if k > 1 {
      MultipleGap(d, k - 1);
      assert d * k == d + d * (k - 1);
    } else if k < -1 {
      MultipleGap(d, k + 1);
      assert d * k == -d + d * (k + 1);
    }
  }

  /** `roundup_pow_of_two` on words of `width` bits: the shifting loop. Above the greatest power
      of two of the word the result is shifted out. */
  method RoundupPowOfTwo(x: nat, width: nat) returns (result: nat)
    requires width > 0 && x < Pow2(width)
    ensures result == 0 <==> x == 0 || x > Pow2(width - 1)
    ensures result > 0 ==> IsPow2(result) && x <= result < 2 * x && result <= Pow2(width - 1)
  {
    hide Pow2, IsPow2;
    if x == 0 || And(x, x - 1) == 0 {
      if x > 0 {
        AndPredZero(x);
        PowerInWord(x, width);
      }
      return x;
    }
    result := 1;
    var y := x;
    ghost var k := 0;
    Pow2Start(x, width);
    while y > 0
      invariant k <= width && result == Pow2(k) % Pow2(width)
      invariant y == x / Pow2(k)
      invariant k > 0 ==> Pow2(k - 1) <= x
      decreases y
    {
      ShiftStep(x, k, width);
      y := y / 2;
      result := Shifted(result, width);
      k := k + 1;
    }
    ShiftEnd(x, k, width);
  }

  /** At 32 bits, where the result is not shifted out. */
  method RoundupPowOfTwo32(x: nat) returns (result: nat)
    requires x <= 0x8000_0000
    ensures x <= result <= 0x8000_0000 && (x > 0 ==> IsPow2(result) && result < 2 * x)
  {
    hide Pow2, IsPow2;
    Pow2Words();
    result := RoundupPowOfTwo(x, 32);
  }

  /** The operator `x << 1` on words of `width` bits. */
  function Shifted(x: nat, width: nat): nat {
    (x * 2) % Pow2(width)
  }

  lemma Pow2Start(x: nat, width: nat)
    requires width > 0
    ensures Pow2(0) == 1 && x / Pow2(0) == x && Pow2(0) % Pow2(width) == 1
  {
    ModUnique(1, Pow2(width), 0, 1);
  }

  lemma ShiftStep(x: nat, k: nat, width: nat)
    requires x < Pow2(width) && k <= width && x / Pow2(k) > 0
    ensures k < width && Pow2(k) <= x
    ensures (x / Pow2(k)) / 2 == x / Pow2(k + 1)
    ensures Shifted(Pow2(k) % Pow2(width), width) == Pow2(k + 1) % Pow2(width)
  {
    DivPositive(x, Pow2(k));
    DivDiv(x, Pow2(k));
    hide Pow2;
    ShiftedPower(k, width);
  }

  lemma ShiftedPower(k: nat, width: nat)
    requires Pow2(k) < Pow2(width)
    ensures Shifted(Pow2(k) % Pow2(width), width) == Pow2(k + 1) % Pow2(width)
    ensures k < width
  {
    ModUnique(Pow2(k), Pow2(width), 0, Pow2(k));
    assert Pow2(k + 1) == Pow2(k) * 2;
    if k >= width { Pow2Monotone(width, k); }
  }

  /** The word holds the first power of two above a number that is none itself. */
  lemma ShiftEnd(x: nat, k: nat, width: nat)
    requires 0 < x < Pow2(width) && And(x, x - 1) != 0 && k <= width && x / Pow2(k) == 0
    requires k > 0 ==> Pow2(k - 1) <= x
    ensures k > 0 && IsPow2(Pow2(k)) && x < Pow2(k) < 2 * x
    ensures k == width ==> Pow2(k) % Pow2(width) == 0 && x > Pow2(width - 1)
    ensures k < width ==> Pow2(k) % Pow2(width) == Pow2(k) && x <= Pow2(width - 1) && Pow2(k) <= Pow2(width - 1)
  {
    if x >= Pow2(k) { DivPositive'(x, Pow2(k)); }
    assert Pow2(0) == 1;
    AndPow2(k - 1);
    assert Pow2(k) == 2 * Pow2(k - 1);
    if k == width {
      ModUnique(Pow2(k), Pow2(k), 1, 0);
    } else {
      Pow2Monotone(k, width - 1);
      assert Pow2(width) == 2 * Pow2(width - 1);
      ModUnique(Pow2(k), Pow2(width), 0, Pow2(k));
    }
  }

  lemma PowerInWord(x: nat, width: nat)
    requires IsPow2(x) && width > 0 && x < Pow2(width)
    ensures 0 < x <= Pow2(width - 1)
  {
    var k: nat :| x == Pow2(k);
    if k >= width { Pow2Monotone(width, k); } else { Pow2Monotone(k, width - 1); }
  }

  lemma DivDiv(x: nat, d: nat)
    requires d > 0
    ensures (x / d) / 2 == x / (d * 2)
  {
    var q := x / d;
    var r := x % d;
    assert x == d * q + r;
    var h, l := q / 2, q % 2;
    assert x == (d * 2) * h + (d * l + r) by {
      assert d * q == d * (2 * h + l) == (d * 2) * h + d * l;
    }
    assert 0 <= d * l + r < d * 2 by { if l == 0 {} else { assert d * l == d; } }
    ModUnique(x, d * 2, h, d * l + r);
  }

  lemma DivPositive(x: nat, d: nat)
    requires d > 0 && x / d > 0
    ensures d <= x
  {
    if x < d { ModUnique(x, d, 0, x); }
  }

  lemma DivPositive'(x: nat, d: nat)
    requires 0 < d <= x
    ensures x / d > 0
  {
    var q, r := x / d, x % d;
    assert x == d * q + r;
    MultipleGap(d, q);
  }

  /** `x & (x - 1)` is zero only for powers of two. */
  lemma {:induction false} AndPredZero(x: nat)
    requires x > 0 && And(x, x - 1) == 0
    ensures IsPow2(x)
    decreases x
  {
    if x == 1 {
      assert x == Pow2(0);
    } else if x % 2 == 1 {
      assert x - 1 > 0 && (x - 1) / 2 == x / 2;
      AndSelf(x / 2);
    } else {
      assert (x - 1) % 2 == 1 && (x - 1) / 2 == x / 2 - 1;
      AndPredZero(x / 2);
      var k: nat :| x / 2 == Pow2(k);
      assert x == Pow2(k + 1);
    }
  }

  lemma BitSquare(x: nat)
    ensures (x % 2) * (x % 2) == x % 2
  {
    if x % 2 == 0 {
    } else {
      assert x % 2 == 1;
    }
  }

  lemma {:induction false} AndSelf(x: nat)
    ensures And(x, x) == x
  {
    if x > 0 {
      AndSelf(x / 2);
      BitSquare(x);
    }
  }

  lemma {:induction false} AndPow2(k: nat)
    ensures And(Pow2(k), Pow2(k) - 1) == 0
    decreases k
  {
    if k == 0 {
    } else {
      AndPow2(k - 1);
      var p := Pow2(k - 1);
      assert Pow2(k) == 2 * p && Pow2(k) % 2 == 0 && Pow2(k) / 2 == p;
      assert (2 * p - 1) / 2 == p - 1;
    }
  }

  lemma Pow2Value31()
    ensures Pow2(31) == 0x8000_0000
  {
    assert Pow2(8) == 256;
    assert Pow2(16) == 65536;
    assert Pow2(24) == 0x100_0000;
    assert Pow2(31) == 0x8000_0000;
  }

  /** The powers at the ends of words of 32 and 64 bits. */
  lemma Pow2Words()
    ensures Pow2(31) == 0x8000_0000 && Pow2(32) == 0x1_0000_0000 && Pow2(63) == 0x8000_0000_0000_0000
            && Pow2(64) == 0x1_0000_0000_0000_0000
  {
    Pow2Value31();
    assert Pow2(40) == 0x100_0000_0000;
    assert Pow2(48) == 0x1_0000_0000_0000;
    assert Pow2(56) == 0x100_0000_0000_0000;
    assert Pow2(63) == 0x8000_0000_0000_0000;
  }

  lemma {:induction false} Pow2Monotone(a: nat, b: nat)
    requires a <= b
    ensures Pow2(a) <= Pow2(b)
    decreases b
  {
    if a < b { Pow2Monotone(a, b - 1); }
  }

  lemma MulNonNegative(a: nat, b: nat)
    ensures a * b >= 0
  {
  }

  /** The operator `x << k`, without loss of bits. */
  function Shl(x: nat, k: nat): nat {
    MulNonNegative(x, Pow2(k));
    x * Pow2(k)
  }

  /** The operator `x >> k`. */
  function Shr(x: nat, k: nat): nat {
    DivNonNegative(x, Pow2(k));
    x / Pow2(k)
  }

  lemma DivNonNegative(x: int, d: int)
    requires x >= 0 && d > 0
    ensures x / d >= 0
  {
    assert x == d * (x / d) + x % d;
    MultipleGap(d, x / d);
  }

  /** The operator `x | y`, bit by bit. */
  function Or(x: nat, y: nat): nat {
    if x == 0 then y
    else if y == 0 then x
    else (if x % 2 == 1 || y % 2 == 1 then 1 else 0) + 2 * Or(x / 2, y / 2)
  }

  /** Joining bits above `k` to bits below `k` is an addition. */
  lemma {:induction false} OrDisjoint(x: nat, y: nat, k: nat)
    requires x < Pow2(k)
    ensures Or(x, Shl(y, k)) == x + Shl(y, k)
    decreases k
  {
    var t := Shl(y, k);
    if x == 0 || t == 0 {
    } else {
      var h := Shl(y, k - 1);
      assert t == 2 * h;
      OrDisjoint(x / 2, y, k - 1);
    }
  }

  lemma {:induction false} OrCommutes(x: nat, y: nat)
    ensures Or(x, y) == Or(y, x)
  {
    if x != 0 && y != 0 {
      OrCommutes(x / 2, y / 2);
    }
  }
}
