/** Facts about remainders, powers and primes. */
module Arith {
  import opened Bits

  function Pow(x: nat, e: nat): nat {
    if e == 0 then 1 else x * Pow(x, e - 1)
  }

  lemma {:induction false} Pow2Add(a: nat, b: nat)
    ensures Pow2(a + b) == Pow2(a) * Pow2(b)
  {
    if a > 0 {
      Pow2Add(a - 1, b);
      assert Pow2(a + b) == 2 * (Pow2(a - 1) * Pow2(b));
      MulAssoc(2, Pow2(a - 1), Pow2(b));
    }
  }

  lemma MulAssoc(x: int, y: int, z: int)
    ensures x * (y * z) == (x * y) * z
  {
  }

  lemma {:induction false} PowAdd(x: nat, a: nat, b: nat)
    ensures Pow(x, a + b) == Pow(x, a) * Pow(x, b)
  {
    if a > 0 {
      PowAdd(x, a - 1, b);
      MulAssoc(x, Pow(x, a - 1), Pow(x, b));
    }
  }

  lemma {:induction false} PowMul(x: nat, a: nat, b: nat)
    ensures Pow(Pow(x, a), b) == Pow(x, a * b)
  {
    if b > 0 {
      PowMul(x, a, b - 1);
      PowAdd(x, a, a * (b - 1));
      assert a + a * (b - 1) == a * b;
    } else {
      assert a * b == 0;
    }
  }

  // ---------------------------------------------------------------------------------------
  // Remainders
  // ---------------------------------------------------------------------------------------

  lemma ModShift(x: int, k: int, m: nat)
    requires m > 0
    ensures (x + k * m) % m == x % m
  {
    var q, r := x / m, x % m;
    assert x == m * q + r;
    assert x + k * m == m * (q + k) + r by {
      assert m * (q + k) == m * q + m * k;
    }
    ModUnique(x + k * m, m, q + k, r);
  }

  lemma ModSmall(x: int, m: nat)
    requires 0 <= x < m
    ensures x % m == x && x / m == 0
  {
    assert m * 0 == 0;
    ModUnique(x, m, 0, x);
  }

  lemma ModAddLeft(x: int, y: int, m: nat)
    requires m > 0
    ensures (x % m + y) % m == (x + y) % m
  {
    var q := x / m;
    assert x + y == x % m + y + q * m;
    ModShift(x % m + y, q, m);
  }

  lemma ModMulLeft(x: int, y: int, m: nat)
    requires m > 0
    ensures ((x % m) * y) % m == (x * y) % m
  {
    var q, r := x / m, x % m;
    assert x == m * q + r;
    assert x * y == r * y + (q * y) * m by {
      assert (m * q + r) * y == (m * q) * y + r * y;
      assert (m * q) * y == (q * y) * m;
    }
    ModShift(r * y, q * y, m);
  }

  lemma ModMulBoth(x: int, y: int, m: nat)
    requires m > 0
    ensures ((x % m) * (y % m)) % m == (x * y) % m
  {
    ModMulLeft(x, y % m, m);
    assert x * (y % m) == (y % m) * x && x * y == y * x;
    ModMulLeft(y, x, m);
  }

  lemma {:induction false} PowMod(x: nat, e: nat, m: nat)
    requires m > 0
    ensures Pow(x % m, e) % m == Pow(x, e) % m
  {
    if e > 0 {
      var r := x % m;
      calc {
        Pow(r, e) % m;
        (r * Pow(r, e - 1)) % m;
        { ModMulBoth(r, Pow(r, e - 1), m); }
        ((r % m) * (Pow(r, e - 1) % m)) % m;
        { PowMod(x, e - 1, m); ModSmall(r, m); }
        ((x % m) * (Pow(x, e - 1) % m)) % m;
        { ModMulBoth(x, Pow(x, e - 1), m); }
        (x * Pow(x, e - 1)) % m;
      }
    }
  }

  lemma Distribute(x: int, y: int, p: int)
    ensures (x + y) * p == x * p + y * p
  {
  }

  lemma Commute(x: int, y: int)
    ensures x * y == y * x
  {
  }

  lemma Horner(p: int, d: int, h: int, s: int)
    ensures p * (d * h + s) == (p * d) * h + s * p
  {
    Commute(p, d * h + s);
    Distribute(d * h, s, p);
    Commute(d * h, p);
    MulAssoc(p, d, h);
  }

  /** The lowest digits of `x` in a mixed base, one more at a time. */
  lemma LowDigits(x: nat, p: nat, d: nat)
    requires p > 0 && d > 0
    ensures p * d > 0 && x % (p * d) == x % p + ((x / p) % d) * p
  {
    var q := x / p;
    DivMod(x, p);
    DivMod(q, d);
    MixedDigits(x, p, d, q, x % p, q / d, q % d);
  }

  lemma DivMod(x: nat, p: nat)
    requires p > 0
    ensures x == p * (x / p) + x % p
  {
  }

  lemma MixedDigits(x: nat, p: nat, d: nat, q: nat, r: nat, h: nat, s: nat)
    requires x == p * q + r && q == d * h + s && r < p && s < d
    ensures p * d > 0 && x % (p * d) == r + s * p && x / (p * d) == h
  {
    Horner(p, d, h, s);
    MulMonotone(p, s + 1, d);
    Distribute(s, 1, p);
    Commute(p, s + 1);
    MulNonNegative(s, p);
    ModUnique(x, p * d, h, s * p + r);
  }

  /** The low bits of `x`, one more at a time. */
  lemma LowBits(x: nat, i: nat)
    ensures x % Pow2(i + 1) == x % Pow2(i) + ((x / Pow2(i)) % 2) * Pow2(i)
  {
    LowDigits(x, Pow2(i), 2);
    Commute(Pow2(i), 2);
  }

  lemma MulMonotone(d: nat, a: int, b: int)
    requires a <= b
    ensures d * a <= d * b
  {
    assert d * b - d * a == d * (b - a);
    MulNonNegative(d, b - a);
  }


  lemma DivDivides(x: nat, d: nat, e: nat)
    requires d > 0 && e > 0
    ensures d * e > 0 && x / (d * e) == (x / d) / e
  {
    var q := x / d;
    DivMod(x, d);
    DivMod(q, e);
    MixedDigits(x, d, e, q, x % d, q / e, q % e);
  }

  lemma DivOffset(lo: nat, x: nat, d: nat)
    requires lo < d
    ensures (lo + x * d) / d == x
  {
    assert lo + x * d == d * x + lo;
    ModUnique(lo + x * d, d, x, lo);
  }

  /** A multiple of `n * d` does not change the digit modulo `n` at `d`. */
  lemma DigitBelow(x: nat, k: nat, n: nat, d: nat)
    requires d > 0 && n > 0
    ensures ((x + k * (n * d)) / d) % n == (x / d) % n
  {
    var q, r := x / d, x % d;
    assert x == d * q + r;
    assert x + k * (n * d) == d * (q + k * n) + r by {
      assert k * (n * d) == d * (k * n);
    }
    ModUnique(x + k * (n * d), d, q + k * n, r);
    ModShift(q, k, n);
  }
}
