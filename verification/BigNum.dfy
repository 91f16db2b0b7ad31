/**
 Unsigned integers of a fixed number of 32-bit limbs, least significant limb first, and the
 modular arithmetic on them.
 */
module BigNum {
  import opened Bits
  import opened Arith

  const LIMB: int := 0x1_0000_0000
  const WORD: int := 0x1_0000_0000_0000_0000

  type Limb = x: int | 0 <= x < LIMB
  type Byte = x: int | 0 <= x < 256

  /** The integer that limbs stand for. */
  function Value(s: seq<Limb>): nat {
    if s == [] then 0
    else
      MulNonNegative(s[|s| - 1], Pow2(32 * (|s| - 1)));
      Value(s[..|s| - 1]) + s[|s| - 1] * Pow2(32 * (|s| - 1))
  }

  lemma ValueStep(s: seq<Limb>, i: nat)
    requires i < |s|
    ensures Value(s[..i + 1]) == Value(s[..i]) + s[i] * Pow2(32 * i)
  {
    assert s[..i + 1][..i] == s[..i];
  }

  lemma LimbPower(i: nat)
    ensures Pow2(32 * (i + 1)) == LIMB * Pow2(32 * i)
  {
    Pow2Add(32, 32 * i);
    Pow2Value31();
    assert Pow2(32) == 2 * Pow2(31);
  }

  lemma {:induction false} ValueBound(s: seq<Limb>)
    ensures Value(s) < Pow2(32 * |s|)
  {
    if s == [] {
      assert Pow2(32 * |s|) == 1;
    } else {
      var i := |s| - 1;
      ValueBound(s[..i]);
      LimbPower(i);
      BelowNextWeight(Value(s[..i]), s[i], LIMB, Pow2(32 * i));
    }
  }

  /** A digit below `y` and a rest below the weight make a number below `y` times the weight. */
  lemma BelowNextWeight(rest: nat, x: nat, y: nat, p: nat)
    requires rest < p && x < y
    ensures rest + x * p < y * p
  {
    MulMonotone(p, x + 1, y);
    Distribute(x, 1, p);
    Commute(p, x + 1);
    Commute(p, y);
  }

  lemma {:induction false} ValueZeros(s: seq<Limb>)
    requires forall i :: 0 <= i < |s| ==> s[i] == 0
    ensures Value(s) == 0
  {
    if s != [] {
      ValueZeros(s[..|s| - 1]);
    }
  }

  // ---------------------------------------------------------------------------------------
  // Comparison, addition, subtraction
  // ---------------------------------------------------------------------------------------

  /** `bn_ucmp`. */
  method Compare(a: array<Limb>, b: array<Limb>, l: nat) returns (r: int)
    requires a.Length == b.Length == l
    ensures r == if Value(a[..]) < Value(b[..]) then -1 else if Value(a[..]) > Value(b[..]) then 1 else 0
  {
    assert a[..l] == a[..] && b[..l] == b[..];
    for i := 0 to l
      invariant a[l - i..] == b[l - i..]
    {
      var j := l - 1 - i;
      if a[j] < b[j] {
        TopLimbDecides(a[..], b[..], j);
        return -1;
      }
      if a[j] > b[j] {
        TopLimbDecides(b[..], a[..], j);
        return 1;
      }
      assert a[j..] == [a[j]] + a[j + 1..] && b[j..] == [b[j]] + b[j + 1..];
    }
    assert a[..] == a[0..] && b[..] == b[0..];
    return 0;
  }

  /** The highest limb in which two numbers differ decides their order. */
  lemma {:induction false} TopLimbDecides(a: seq<Limb>, b: seq<Limb>, j: nat)
    requires |a| == |b| && j < |a| && a[j] < b[j] && a[j + 1..] == b[j + 1..]
    ensures Value(a) < Value(b)
    decreases |a|
  {
    var n := |a| - 1;
    if j < n {
      assert a[n] == a[j + 1..][n - j - 1] && b[n] == b[j + 1..][n - j - 1];
      var a', b' := a[..n], b[..n];
      assert a'[j + 1..] == a[j + 1..][..n - j - 1] && b'[j + 1..] == b[j + 1..][..n - j - 1];
      TopLimbDecides(a', b', j);
    } else {
      ValueBound(a[..n]);
      BelowNextWeight(Value(a[..n]), a[n], b[n], Pow2(32 * n));
    }
  }

  lemma CarryStep(p: nat, t: nat)
    ensures (t % LIMB) * p + (t / LIMB) * (LIMB * p) == t * p
  {
    var q, r := t / LIMB, t % LIMB;
    assert t == q * LIMB + r;
    MulAssoc(q, LIMB, p);
    Distribute(q * LIMB, r, p);
  }

  /** `bn_add`; the target may be one of the operands. */
  method Add(r: array<Limb>, a: array<Limb>, b: array<Limb>, l: nat) returns (carry: Limb)
    requires r.Length == a.Length == b.Length == l
    modifies r
    ensures Value(r[..]) + carry * Pow2(32 * l) == old(Value(a[..])) + old(Value(b[..]))
    ensures carry <= 1
  {
    hide Value, Pow2;
    ghost var sa, sb := a[..], b[..];
    var c := 0;
    ValueEmpty();
    assert r[..0] == [] && sa[..0] == [] && sb[..0] == [];
    for i := 0 to l
      invariant 0 <= c <= 1
      invariant forall j :: i <= j < l ==> a[j] == sa[j] && b[j] == sb[j]
      invariant Value(r[..i]) + c * Pow2(32 * i) == Value(sa[..i]) + Value(sb[..i])
    {
      ghost var c0, low := c, r[..i];
      c := (c + a[i]) % WORD;
      c := (c + b[i]) % WORD;
      ghost var t := c;
      r[i] := c % LIMB;
      c := c / LIMB;
      assert r[..i + 1] == low + [t % LIMB];
      AddStep(sa, sb, low, i, c0, t);
    }
    assert r[..l] == r[..] && sa[..l] == sa && sb[..l] == sb;
    return c;
  }

  lemma ValueEmpty()
    ensures Value([]) == 0
  {
  }

  lemma AddStep(a: seq<Limb>, b: seq<Limb>, low: seq<Limb>, i: nat, c: nat, t: nat)
    requires i < |a| == |b| && |low| == i && c <= 1 && t == c + a[i] + b[i]
    requires Value(low) + c * Pow2(32 * i) == Value(a[..i]) + Value(b[..i])
    ensures Value(low + [t % LIMB]) + (t / LIMB) * Pow2(32 * (i + 1)) == Value(a[..i + 1]) + Value(b[..i + 1])
    ensures t / LIMB <= 1
  {
    hide Value, Pow2;
    var p := Pow2(32 * i);
    ValueStep(a, i);
    ValueStep(b, i);
    var r := low + [t % LIMB];
    ValueStep(r, i);
    assert r[..i] == low && r[..i + 1] == r;
    LimbPower(i);
    CarryStep(p, t);
    Distribute(c + a[i], b[i], p);
    Distribute(c, a[i], p);
  }

  /** `bn_sub`; the target may be one of the operands. */
  method Sub(r: array<Limb>, a: array<Limb>, b: array<Limb>, l: nat) returns (borrow: Limb)
    requires r.Length == a.Length == b.Length == l
    modifies r
    ensures Value(r[..]) + old(Value(b[..])) == old(Value(a[..])) + borrow * Pow2(32 * l)
    ensures borrow <= 1
  {
    hide Value, Pow2;
    ghost var sa, sb := a[..], b[..];
    var c := 0;
    ValueEmpty();
    assert r[..0] == [] && sa[..0] == [] && sb[..0] == [];
    for i := 0 to l
      invariant 0 <= c <= 1
      invariant forall j :: i <= j < l ==> a[j] == sa[j] && b[j] == sb[j]
      invariant Value(r[..i]) + Value(sb[..i]) == Value(sa[..i]) + c * Pow2(32 * i)
    {
      ghost var c0, low := c, r[..i];
      var ai: int, bi: int := a[i], b[i];
      var t := (ai - bi - c) % WORD;
      r[i] := t % LIMB;
      c := (t / 0x8000_0000_0000_0000) % 2;
      ghost var d: int := r[i];
      BorrowStep(ai, bi, c0);
      assert r[..i + 1] == low + [d];
      SubStep(sa, sb, low, d, i, c0, c);
    }
    assert r[..l] == r[..] && sa[..l] == sa && sb[..l] == sb;
    return c;
  }

  /** The 64-bit difference wraps around exactly when a borrow is due. */
  lemma BorrowStep(a: int, b: int, c: int)
    requires 0 <= a < LIMB && 0 <= b < LIMB && 0 <= c <= 1
    ensures var t := (a - b - c) % WORD;
            t % LIMB == a - b - c + ((t / 0x8000_0000_0000_0000) % 2) * LIMB
  {
    var d := a - b - c;
    if d < 0 {
      ModShift(d, 1, WORD);
      ModSmall(d + WORD, WORD);
    } else {
      ModSmall(d, WORD);
    }
  }

  lemma SubStep(a: seq<Limb>, b: seq<Limb>, low: seq<Limb>, d: Limb, i: nat, c: nat, c': nat)
    requires i < |a| == |b| && |low| == i && c <= 1
    requires d == (a[i] as int) - b[i] - c + c' * LIMB
    requires Value(low) + Value(b[..i]) == Value(a[..i]) + c * Pow2(32 * i)
    ensures Value(low + [d]) + Value(b[..i + 1]) == Value(a[..i + 1]) + c' * Pow2(32 * (i + 1))
  {
    hide Value, Pow2;
    var p := Pow2(32 * i);
    ValueStep(a, i);
    ValueStep(b, i);
    var r := low + [d];
    ValueStep(r, i);
    assert r[..i] == low && r[..i + 1] == r;
    LimbPower(i);
    MulAssoc(c', LIMB, p);
    Distribute(d + b[i], c, p);
    Distribute(d, b[i], p);
    Distribute(a[i], c' * LIMB, p);
  }

  // ---------------------------------------------------------------------------------------
  // Bits
  // ---------------------------------------------------------------------------------------

  lemma {:induction false} ValueTopZeros(a: seq<Limb>, j: nat)
    requires j <= |a| && forall k :: j <= k < |a| ==> a[k] == 0
    ensures Value(a) == Value(a[..j])
    decreases |a|
  {
    if j < |a| {
      ValueTopZeros(a[..|a| - 1], j);
      assert a[..|a| - 1][..j] == a[..j];
    } else {
      assert a[..j] == a;
    }
  }

  /** `bn_bitlen`. */
  method BitLength(a: array<Limb>, l: nat) returns (n: nat)
    requires a.Length == l
    ensures Value(a[..]) < Pow2(n)
    ensures n > 0 ==> Pow2(n - 1) <= Value(a[..])
  {
    hide Value, Pow2;
    for i := 0 to l
      invariant forall k :: l - i <= k < l ==> a[k] == 0
    {
      var j := l - 1 - i;
      var w := a[j];
      if w != 0 {
        var pos := HighestBit(w);
        ValueTopZeros(a[..], j + 1);
        BitLengthOfValue(a[..j + 1], j, pos);
        return j * 32 + pos + 1;
      }
    }
    ValueZeros(a[..]);
    NoBits();
    return 0;
  }

  lemma NoBits()
    ensures Pow2(0) == 1
  {
  }

  /** The shifting loop of `bn_bitlen`. */
  method HighestBit(w: Limb) returns (pos: nat)
    requires w != 0
    ensures pos <= 31 && Pow2(pos) <= w < Pow2(pos + 1)
  {
    NoBits();
    hide Pow2;
    var x: int := w;
    pos := 31;
    while x < 0x8000_0000
      invariant pos <= 31 && w <= x < LIMB
      invariant x == w * Pow2(31 - pos)
      decreases 0x8000_0000 - x
    {
      ShiftLeft(w, pos);
      x := x * 2;
      pos := pos - 1;
    }
    BitLengthOfLimb(w, pos);
  }

  lemma ShiftLeft(w: nat, pos: nat)
    requires 0 < w && pos <= 31 && w * Pow2(31 - pos) < 0x8000_0000
    ensures pos > 0 && (w * Pow2(31 - pos)) * 2 == w * Pow2(31 - (pos - 1))
  {
    if pos == 0 {
      Pow2Value31();
    } else {
      assert Pow2(31 - pos + 1) == 2 * Pow2(31 - pos);
      TwiceShifted(w, 31 - pos);
    }
  }

  lemma TwiceShifted(w: nat, k: nat)
    ensures (w * Pow2(k)) * 2 == w * Pow2(k + 1)
  {
    MulAssoc(w, Pow2(k), 2);
  }

  lemma PowersAround(pos: nat)
    requires pos <= 31
    ensures Pow2(pos) * Pow2(31 - pos) == 0x8000_0000
    ensures Pow2(pos + 1) * Pow2(31 - pos) == LIMB
  {
    Pow2Add(pos, 31 - pos);
    Pow2Add(pos + 1, 31 - pos);
    Pow2Value31();
    assert Pow2(32) == 2 * Pow2(31);
  }

  lemma ScaledLess(w: nat, t: nat, q: nat)
    ensures w * q < t * q ==> w < t
    ensures w * q <= t * q && q > 0 ==> w <= t
  {
    if t <= w { MulMonotone(q, t, w); }
    if t < w {
      MulMonotone(q, t + 1, w);
      Distribute(t, 1, q);
    }
  }

  lemma BitLengthOfLimb(w: nat, pos: nat)
    requires pos <= 31 && 0x8000_0000 <= w * Pow2(31 - pos) < LIMB
    ensures Pow2(pos) <= w < Pow2(pos + 1)
  {
    hide Pow2;
    PowersAround(pos);
    ScaledLess(w, Pow2(pos + 1), Pow2(31 - pos));
    ScaledLess(Pow2(pos), w, Pow2(31 - pos));
  }

  lemma BitLengthOfValue(s: seq<Limb>, j: nat, pos: nat)
    requires |s| == j + 1 && Pow2(pos) <= s[j] < Pow2(pos + 1)
    ensures Pow2(j * 32 + pos) <= Value(s) < Pow2(j * 32 + pos + 1)
  {
    var p := Pow2(32 * j);
    ValueStep(s, j);
    assert s[..j + 1] == s;
    ValueBound(s[..j]);
    Pow2Add(32 * j, pos);
    Pow2Add(32 * j, pos + 1);
    MulMonotone(p, Pow2(pos), s[j]);
    MulMonotone(p, (s[j] as int) + 1, Pow2(pos + 1));
    assert p * ((s[j] as int) + 1) == s[j] * p + p;
  }

  /** `bn_getbit`. */
  method GetBit(a: array<Limb>, l: nat, bitIndex: nat) returns (b: int)
    requires a.Length == l
    ensures b == (Value(a[..]) / Pow2(bitIndex)) % 2
  {
    var wi, bo := bitIndex / 32, bitIndex % 32;
    if wi >= l {
      ValueBound(a[..]);
      Pow2Monotone(32 * l, bitIndex);
      ModSmall(Value(a[..]), Pow2(bitIndex));
      return 0;
    }
    assert Pow2(1) == 2;
    DigitOfLimb(a[..], wi, bo, 1);
    return (a[wi] / Pow2(bo)) % 2;
  }

  /** The limbs above position `i` only add a multiple of the next limb's weight. */
  lemma {:induction false} ValueAround(a: seq<Limb>, i: nat) returns (hi: nat)
    requires i < |a|
    ensures Value(a) == Value(a[..i]) + a[i] * Pow2(32 * i) + hi * Pow2(32 * (i + 1))
    decreases |a|
  {
    var n := |a| - 1;
    if i == n {
      hi := 0;
    } else {
      var h := ValueAround(a[..n], i);
      assert a[..n][..i] == a[..i];
      var d := 32 * n - 32 * (i + 1);
      Pow2Add(d, 32 * (i + 1));
      hi := h + a[n] * Pow2(d);
      MulAssoc(a[n], Pow2(d), Pow2(32 * (i + 1)));
      Distribute(h, a[n] * Pow2(d), Pow2(32 * (i + 1)));
    }
  }

  /** The `w` bits at position `bo` of limb `wi` are those bits of the number. */
  lemma DigitOfLimb(a: seq<Limb>, wi: nat, bo: nat, w: nat)
    requires wi < |a| && bo + w <= 32
    ensures (Value(a) / Pow2(wi * 32 + bo)) % Pow2(w) == (a[wi] / Pow2(bo)) % Pow2(w)
  {
    hide Pow2, Value;
    var p, d, n := Pow2(32 * wi), Pow2(bo), Pow2(w);
    var hi := ValueAround(a, wi);
    LimbPower(wi);
    var x := a[wi] + hi * LIMB;
    MulAssoc(hi, LIMB, p);
    Distribute(a[wi], hi * LIMB, p);
    ValueBound(a[..wi]);
    DivOffset(Value(a[..wi]), x, p);
    Pow2Add(32 * wi, bo);
    DivDivides(Value(a), p, d);
    var k := Pow2(32 - bo - w);
    LimbFactors(bo, w);
    MulAssoc(hi, k, n * d);
    DigitBelow(a[wi], hi * k, n, d);
  }

  lemma LimbFactors(bo: nat, w: nat)
    requires bo + w <= 32
    ensures Pow2(32 - bo - w) * (Pow2(w) * Pow2(bo)) == LIMB
  {
    Pow2Value31();
    assert Pow2(32) == 2 * Pow2(31);
    hide Pow2;
    Pow2Add(w, bo);
    Pow2Add(32 - bo - w, w + bo);
  }

  // ---------------------------------------------------------------------------------------
  // Modular arithmetic
  // ---------------------------------------------------------------------------------------

  /** `bn_zero`. */
  method Zero(x: array<Limb>, l: nat)
    requires x.Length == l
    modifies x
    ensures Value(x[..]) == 0
    ensures forall i :: 0 <= i < l ==> x[i] == 0
  {
    forall i | 0 <= i < l { x[i] := 0; }
    ValueZeros(x[..]);
  }

  /** `bn_copy`. */
  method Copy(dst: array<Limb>, src: array<Limb>, l: nat)
    requires dst.Length == src.Length == l
    modifies dst
    ensures dst[..] == old(src[..])
  {
    if dst != src {
      forall i | 0 <= i < l { dst[i] := src[i]; }
    }
  }

  /** What the subtraction after an overflowing or too large sum leaves. */
  lemma SumReduced(sum: nat, tmp: nat, carry: nat, m: nat, p: nat, d: nat, borrow: nat)
    requires tmp < p && carry <= 1 && borrow <= 1 && d < p && 0 < m < p
    requires tmp + carry * p == sum < 2 * m
    requires d + m == tmp + borrow * p
    ensures carry == 1 || tmp >= m ==> d == sum % m
    ensures carry == 0 && tmp < m ==> tmp == sum % m
  {
    if carry == 1 || tmp >= m {
      assert carry * p == if carry == 1 then p else 0;
      assert borrow * p == if borrow == 1 then p else 0;
      assert d == sum - m;
      ModShift(d, 1, m);
      ModSmall(d, m);
    } else {
      ModSmall(tmp, m);
    }
  }

  /** `mod_add`. */
  method ModAdd(r: array<Limb>, a: array<Limb>, b: array<Limb>, m: array<Limb>, l: nat, tmp: array<Limb>)
    requires r.Length == a.Length == b.Length == m.Length == tmp.Length == l
    requires tmp != a && tmp != b && tmp != m && tmp != r && m != r
    requires Value(a[..]) < Value(m[..]) && Value(b[..]) < Value(m[..])
    modifies r, tmp
    ensures Value(r[..]) == (old(Value(a[..])) + old(Value(b[..]))) % Value(m[..])
    ensures m[..] == old(m[..])
  {
    hide Value, Pow2;
    ghost var sum, sm := Value(a[..]) + Value(b[..]), m[..];
    var carry := Add(tmp, a, b, l);
    assert m[..] == sm;
    var ge := false;
    if carry != 0 {
      ge := true;
    }
    var cmp := Compare(tmp, m, l);
    if cmp >= 0 {
      ge := true;
    }
    ghost var t0 := tmp[..];
    ValueBound(t0);
    ValueBound(sm);
    if ge {
      var borrow := Sub(tmp, tmp, m, l);
      ValueBound(tmp[..]);
      SumReduced(sum, Value(t0), carry, Value(sm), Pow2(32 * l), Value(tmp[..]), borrow);
      assert m[..] == sm;
    } else {
      assert carry * Pow2(32 * l) == 0;
      ModSmall(sum, Value(sm));
    }
    Copy(r, tmp, l);
    assert m[..] == sm;
  }

  /** `mod_double`. */
  method ModDouble(r: array<Limb>, a: array<Limb>, m: array<Limb>, l: nat, tmp: array<Limb>)
    requires r.Length == a.Length == m.Length == tmp.Length == l
    requires tmp != a && tmp != m && tmp != r && m != r
    requires Value(a[..]) < Value(m[..])
    modifies r, tmp
    ensures Value(r[..]) == (2 * old(Value(a[..]))) % Value(m[..])
    ensures m[..] == old(m[..])
  {
    hide Value, Pow2;
    ghost var sum, sm := Value(a[..]) + Value(a[..]), m[..];
    var carry := Add(tmp, a, a, l);
    assert m[..] == sm;
    var ge := false;
    if carry != 0 {
      ge := true;
    }
    var cmp := Compare(tmp, m, l);
    if cmp >= 0 {
      ge := true;
    }
    ghost var t0 := tmp[..];
    ValueBound(t0);
    ValueBound(sm);
    if ge {
      var borrow := Sub(tmp, tmp, m, l);
      ValueBound(tmp[..]);
      SumReduced(sum, Value(t0), carry, Value(sm), Pow2(32 * l), Value(tmp[..]), borrow);
      assert m[..] == sm;
    } else {
      assert carry * Pow2(32 * l) == 0;
      ModSmall(sum, Value(sm));
    }
    Copy(r, tmp, l);
    assert m[..] == sm;
  }

  /** One bit of the multiplier: the partial product so far and the shifted multiplicand. */
  lemma MulStep(a: nat, b: nat, m: nat, i: nat, acc: nat, cur: nat)
    requires m > 0
    requires acc == (a * (b % Pow2(i))) % m && cur == (a * Pow2(i)) % m
    ensures (b / Pow2(i)) % 2 == 1 ==> (acc + cur) % m == (a * (b % Pow2(i + 1))) % m
    ensures (b / Pow2(i)) % 2 == 0 ==> acc == (a * (b % Pow2(i + 1))) % m
    ensures (2 * cur) % m == (a * Pow2(i + 1)) % m
  {
    var p := Pow2(i);
    assert Pow2(i + 1) == 2 * p;
    hide Pow2;
    LowBits(b, i);
    var low, bit := b % p, (b / p) % 2;
    if bit == 1 {
      Distribute(low, p, a);
      Commute(a, low + p);
      Commute(a, low);
      Commute(a, p);
      ModAddLeft(a * low, cur, m);
      ModAddLeft(a * p, a * low, m);
      assert bit * p == p;
    } else {
      assert bit * p == 0;
    }
    ModMulLeft(a * p, 2, m);
    Commute(a * p % m, 2);
    MulAssoc(a, p, 2);
    Commute(p, 2);
  }

  /** `mod_mul_bin`: binary multiplication modulo `m`; the target may be an operand. */
  method ModMul(r: array<Limb>, a: array<Limb>, b: array<Limb>, m: array<Limb>, l: nat,
                acc: array<Limb>, cur: array<Limb>, tmp: array<Limb>)
    requires r.Length == a.Length == b.Length == m.Length == acc.Length == cur.Length == tmp.Length == l
    requires acc != cur && acc != tmp && cur != tmp && m != r
    requires acc !in {a, b, m, r} && cur !in {a, b, m, r} && tmp !in {a, b, m, r}
    requires Value(m[..]) > 0 && (Value(a[..]) < Value(m[..]) || Value(b[..]) == 0)
    modifies r, acc, cur, tmp
    ensures Value(r[..]) == (old(Value(a[..])) * old(Value(b[..]))) % Value(m[..])
    ensures m[..] == old(m[..])
  {
    hide Value, Pow2;
    ghost var va, vb, sb, sm := Value(a[..]), Value(b[..]), b[..], m[..];
    ghost var vm := Value(sm);
    Zero(acc, l);
    Copy(cur, a, l);
    assert b[..] == sb && m[..] == sm;
    var bits := BitLength(b, l);
    MulStart(va, vb, vm);
    NoBits();
    if bits > 0 { Pow2Positive(bits - 1); }
    for i := 0 to bits
      invariant b[..] == sb && m[..] == sm
      invariant Value(acc[..]) == (va * (vb % Pow2(i))) % vm
      invariant bits > 0 ==> Value(cur[..]) == (va * Pow2(i)) % vm
    {
      MulStep(va, vb, vm, i, Value(acc[..]), Value(cur[..]));
      ghost var scur := cur[..];
      var bit := GetBit(b, l, i);
      if bit != 0 {
        ModAdd(acc, acc, cur, m, l, tmp);
        assert cur[..] == scur && b[..] == sb;
      }
      ghost var sacc := acc[..];
      ModDouble(cur, cur, m, l, tmp);
      assert b[..] == sb && acc[..] == sacc;
    }
    ModSmall(vb, Pow2(bits));
    Copy(r, acc, l);
    assert m[..] == sm;
  }

  lemma Pow2Positive(n: nat)
    ensures Pow2(n) >= 1
  {
  }

  lemma MulStart(a: nat, b: nat, m: nat)
    requires m > 0
    ensures (a * (b % Pow2(0))) % m == 0
    ensures a < m ==> (a * Pow2(0)) % m == a
  {
    assert Pow2(0) == 1 && b % 1 == 0;
    ModSmall(0, m);
    if a < m { ModSmall(a, m); }
  }

  /** One bit of the exponent: the partial power so far and the squared base. */
  lemma PowStep(a: nat, e: nat, m: nat, i: nat, r: nat, t: nat)
    requires m > 0
    requires r == Pow(a, e % Pow2(i)) % m && t == Pow(a, Pow2(i)) % m
    ensures (e / Pow2(i)) % 2 == 1 ==> (r * t) % m == Pow(a, e % Pow2(i + 1)) % m
    ensures (e / Pow2(i)) % 2 == 0 ==> r == Pow(a, e % Pow2(i + 1)) % m
    ensures (t * t) % m == Pow(a, Pow2(i + 1)) % m
  {
    var p := Pow2(i);
    assert Pow2(i + 1) == p + p;
    hide Pow2, Pow;
    LowBits(e, i);
    var low, bit := e % p, (e / p) % 2;
    if bit == 1 {
      assert bit * p == p;
      PowAdd(a, low, p);
      ModMulBoth(Pow(a, low), Pow(a, p), m);
    } else {
      assert bit * p == 0;
    }
    PowAdd(a, p, p);
    ModMulBoth(Pow(a, p), Pow(a, p), m);
  }

  /** What the loop of `mod_pow` holds after the bits `e`: the power, except that it still holds
      its initial one while no bit was set and the modulus is one. */
  function PowLoop(a: nat, e: nat, m: nat): nat
    requires m > 0
  {
    if e == 0 then 1 else Pow(a, e) % m
  }

  lemma PowLoopPower(a: nat, e: nat, m: nat)
    requires m > 0
    ensures m > 1 || e > 0 ==> PowLoop(a, e, m) == Pow(a, e) % m
    ensures PowLoop(a, e, m) % m == Pow(a, e) % m
  {
    if e == 0 {
      assert Pow(a, 0) == 1;
      if m > 1 { ModSmall(1, m); }
    } else {
      ModSmall(Pow(a, e) % m, m);
    }
  }

  /** One bit of the exponent: the partial power so far and the squared base. */
  lemma PowLoopStep(a: nat, e: nat, m: nat, i: nat, t: nat)
    requires m > 0 && t == Pow(a, Pow2(i)) % m
    ensures (e / Pow2(i)) % 2 == 1 ==> (PowLoop(a, e % Pow2(i), m) * t) % m == PowLoop(a, e % Pow2(i + 1), m)
    ensures (e / Pow2(i)) % 2 == 0 ==> PowLoop(a, e % Pow2(i), m) == PowLoop(a, e % Pow2(i + 1), m)
    ensures (t * t) % m == Pow(a, Pow2(i + 1)) % m
  {
    var r := PowLoop(a, e % Pow2(i), m);
    PowLoopPower(a, e % Pow2(i), m);
    hide PowLoop, Pow2, Pow;
    PowStep(a, e, m, i, r % m, t);
    ModMulLeft(r, t, m);
    LowBits(e, i);
    PowLoopPower(a, e % Pow2(i + 1), m);
  }

  lemma PowStart(a: nat, e: nat, m: nat)
    requires a < m
    ensures PowLoop(a, e % Pow2(0), m) == 1 && Pow(a, Pow2(0)) % m == a
  {
    assert Pow2(0) == 1 && e % 1 == 0;
    assert Pow(a, 1) == a * Pow(a, 0);
    ModSmall(a, m);
  }

  lemma ValueOne(s: seq<Limb>)
    requires |s| > 0 && s[0] == 1 && forall i :: 1 <= i < |s| ==> s[i] == 0
    ensures Value(s) == 1
  {
    ValueTopZeros(s, 1);
    assert s[..1][..0] == [];
  }

  /** `mod_pow`: square and multiply. For modulus one and exponent zero the result is one. */
  method ModPow(r: array<Limb>, a: array<Limb>, e: array<Limb>, m: array<Limb>, l: nat,
                t0: array<Limb>, t1: array<Limb>, t2: array<Limb>, t3: array<Limb>)
    requires r.Length == a.Length == e.Length == m.Length == t0.Length == t1.Length == t2.Length == t3.Length == l
    requires t0 != t1 && t0 != t2 && t0 != t3 && t1 != t2 && t1 != t3 && t2 != t3
    requires {t0, t1, t2, t3} !! {r, a, e, m} && r != a && r != e && r != m
    requires Value(a[..]) < Value(m[..])
    modifies r, t0, t1, t2, t3
    ensures Value(m[..]) > 1 || Value(e[..]) > 0 <==> Value(r[..]) == Pow(Value(a[..]), Value(e[..])) % Value(m[..])
    ensures Value(m[..]) == 1 && Value(e[..]) == 0 ==> Value(r[..]) == 1
    ensures a[..] == old(a[..]) && e[..] == old(e[..]) && m[..] == old(m[..])
  {
    ghost var va, ve, se, sm := Value(a[..]), Value(e[..]), e[..], m[..];
    ghost var vm := Value(sm);
    Positive(sm);
    hide Value, Pow2, Pow, PowLoop;
    Zero(r, l);
    r[0] := 1;
    ValueOne(r[..]);
    Copy(t0, a, l);
    var bits := BitLength(e, l);
    PowStart(va, ve, vm);
    for i := 0 to bits
      invariant e[..] == se && m[..] == sm && a[..] == old(a[..])
      invariant Value(r[..]) == PowLoop(va, ve % Pow2(i), vm)
      invariant Value(t0[..]) == Pow(va, Pow2(i)) % vm && Value(t0[..]) < vm
    {
      PowLoopStep(va, ve, vm, i, Value(t0[..]));
      ghost var s0 := t0[..];
      var bit := GetBit(e, l, i);
      if bit != 0 {
        PowLoopSmall(va, ve % Pow2(i), vm, Value(t0[..]));
        ModMul(r, r, t0, m, l, t1, t2, t3);
        assert t0[..] == s0 && e[..] == se && a[..] == old(a[..]);
      }
      ghost var sr := r[..];
      ModMul(t0, t0, t0, m, l, t1, t2, t3);
      assert r[..] == sr && e[..] == se && a[..] == old(a[..]);
    }
    ModSmall(ve, Pow2(bits));
    PowLoopResult(va, ve, vm);
  }

  lemma PowLoopSmall(a: nat, e: nat, m: nat, t: nat)
    requires m > 0 && t < m
    ensures PowLoop(a, e, m) < m || t == 0
  {
  }

  lemma PowLoopResult(a: nat, e: nat, m: nat)
    requires m > 0
    ensures m > 1 || e > 0 <==> PowLoop(a, e, m) == Pow(a, e) % m
    ensures m == 1 && e == 0 ==> PowLoop(a, e, m) == 1
  {
    PowLoopPower(a, e, m);
  }

  lemma Positive(s: seq<Limb>)
    requires Value(s) > 0
    ensures |s| > 0
  {
  }
}
