/** The field GF(2^8) of section 4 of FIPS 197, and the byte substitution tables. */
module Gf {

  /** Addition in the field. */
  function Add(x: bv8, y: bv8): bv8 {
    x ^ y
  }

  /** `xtime`. */
  function Xtime(x: bv8): bv8 {
    (x << 1) ^ (if x & 0x80 != 0 then 0x1b else 0x00)
  }

  lemma AddRules(x: bv8, y: bv8, z: bv8)
    ensures Add(Add(x, y), z) == Add(x, Add(y, z)) && Add(x, y) == Add(y, x) && Add(x, x) == 0 && Add(x, 0) == x
  {
  }

  lemma XtimeLinear(x: bv8, y: bv8)
    ensures Xtime(Add(x, y)) == Add(Xtime(x), Xtime(y))
  {
    assert (x ^ y) & 0x80 == (x & 0x80) ^ (y & 0x80);
    assert x & 0x80 == 0 || x & 0x80 == 0x80;
    assert y & 0x80 == 0 || y & 0x80 == 0x80;
  }

  // ---------------------------------------------------------------------------------------
  // Products of polynomials over GF(2), modulo x^8 + x^4 + x^3 + x + 1
  // ---------------------------------------------------------------------------------------

  function Plus(u: bv16, v: bv16): bv16 {
    u ^ v
  }

  function TimesX(w: bv16): bv16 {
    w << 1
  }

  function Drop(w: bv16, k: bv8): bv16
    requires k < 16
  {
    w >> k
  }

  predicate Bit(w: bv16, k: bv8)
    requires k < 16
  {
    Drop(w, k) & 1 != 0
  }

  /** The sum of the multiples `a x^k` over the lowest `n` bits `k` of `b`. */
  function Carryless(a: bv16, b: bv8, n: nat): bv16
    decreases n
  {
    if n == 0 then 0 else Plus(if b & 1 != 0 then a else 0, Carryless(TimesX(a), b >> 1, n - 1))
  }

  /** The modulus, times a power of x. */
  function Modulus(k: bv8): bv16
    requires k < 8
  {
    0x011b << k
  }

  /** Removes the term of degree `k + 8`, by subtracting a multiple of the modulus. */
  function Cancel(w: bv16, k: bv8): bv16
    requires k < 8
  {
    if Bit(w, k + 8) then Plus(w, Modulus(k)) else w
  }

  /** The remainder of a polynomial of degree less than `k + 8`. */
  function Reduce(w: bv16, k: bv8): bv8
    requires k <= 8
    decreases k
  {
    if k == 0 then LowByte(w) else Reduce(Cancel(w, k - 1), k - 1)
  }

  function LowByte(w: bv16): bv8 {
    (w & 0xff) as bv8
  }

  /** The product in the field. */
  function Product(a: bv8, b: bv8): bv8 {
    Reduce(Carryless(a as bv16, b, 8), 7)
  }

  lemma PlusCommutes(u: bv16, v: bv16)
    ensures Plus(u, v) == Plus(v, u)
  {
  }

  lemma PlusAssociates(u: bv16, v: bv16, w: bv16)
    ensures Plus(Plus(u, v), w) == Plus(u, Plus(v, w))
  {
  }

  lemma PlusTwice(u: bv16, m: bv16)
    ensures Plus(Plus(u, m), m) == u
  {
  }

  lemma PlusRules(u: bv16, v: bv16, m: bv16)
    ensures Plus(Plus(u, m), v) == Plus(Plus(u, v), m) == Plus(u, Plus(v, m))
            && Plus(Plus(u, m), Plus(v, m)) == Plus(u, v)
  {
    hide Plus;
    PlusAssociates(u, m, v);
    PlusCommutes(m, v);
    PlusAssociates(u, v, m);
    PlusAssociates(Plus(u, m), v, m);
    PlusTwice(Plus(u, v), m);
  }

  lemma BitLinear(u: bv16, v: bv16, k: bv8)
    requires k < 16
    ensures Bit(Plus(u, v), k) <==> Bit(u, k) != Bit(v, k)
  {
    hide Plus, Drop;
    DropLinear(u, v, k);
    OddLinear(Drop(u, k), Drop(v, k));
  }

  lemma {:induction false} DropLinear(u: bv16, v: bv16, k: bv8)
    requires k < 16
    ensures Drop(Plus(u, v), k) == Plus(Drop(u, k), Drop(v, k))
    decreases k
  {
    hide Plus, Drop;
    if k == 0 {
      DropNone(u);
      DropNone(v);
      DropNone(Plus(u, v));
    } else {
      DropOne(u, v);
      DropOneMore(u, k);
      DropOneMore(v, k);
      DropOneMore(Plus(u, v), k);
      DropLinear(Drop(u, 1), Drop(v, 1), k - 1);
    }
  }

  lemma DropNone(w: bv16)
    ensures Drop(w, 0) == w
  {
  }

  lemma DropOne(u: bv16, v: bv16)
    ensures Drop(Plus(u, v), 1) == Plus(Drop(u, 1), Drop(v, 1))
  {
  }

  lemma DropOneMore(w: bv16, k: bv8)
    requires 0 < k < 16
    ensures Drop(w, k) == Drop(Drop(w, 1), k - 1)
  {
  }

  lemma OddLinear(u: bv16, v: bv16)
    ensures Plus(u, v) & 1 != 0 <==> (u & 1 != 0) != (v & 1 != 0)
  {
  }

  /** One step of the remainder is additive. */
  lemma CancelLinear(u: bv16, v: bv16, k: bv8)
    requires k < 8
    ensures Cancel(Plus(u, v), k) == Plus(Cancel(u, k), Cancel(v, k))
  {
    hide Bit, Plus, Modulus;
    BitLinear(u, v, k + 8);
    PlusRules(u, v, Modulus(k));
  }

  lemma LowByteLinear(u: bv16, v: bv16)
    ensures LowByte(Plus(u, v)) == Add(LowByte(u), LowByte(v))
  {
  }

  lemma {:induction false} ReduceLinear(u: bv16, v: bv16, k: bv8)
    requires k <= 8
    ensures Reduce(Plus(u, v), k) == Add(Reduce(u, k), Reduce(v, k))
    decreases k
  {
    hide Cancel, Plus, Add, LowByte;
    if k > 0 {
      CancelLinear(u, v, k - 1);
      ReduceLinear(Cancel(u, k - 1), Cancel(v, k - 1), k - 1);
    } else {
      LowByteLinear(u, v);
    }
  }

  lemma BitShift(w: bv16, k: bv8)
    requires k < 15
    ensures Bit(TimesX(w), k + 1) <==> Bit(w, k)
  {
  }

  lemma ModulusShift(k: bv8)
    requires k < 7
    ensures Modulus(k + 1) == TimesX(Modulus(k))
  {
  }

  lemma TimesXLinear(u: bv16, v: bv16)
    ensures TimesX(Plus(u, v)) == Plus(TimesX(u), TimesX(v))
  {
  }

  lemma CancelShift(w: bv16, k: bv8)
    requires k < 7
    ensures Cancel(TimesX(w), k + 1) == TimesX(Cancel(w, k))
  {
    hide Bit, Plus, Modulus, TimesX;
    BitShift(w, k + 8);
    ModulusShift(k);
    TimesXLinear(w, Modulus(k));
  }

  /** Multiplying by x before or after the reduction is the same. */
  lemma {:induction false} ReduceShift(w: bv16, k: bv8)
    requires k < 8
    ensures Reduce(TimesX(w), k + 1) == Xtime(Reduce(w, k))
    decreases k
  {
    if k > 0 {
      hide Cancel, Xtime, TimesX, LowByte;
      CancelShift(w, k - 1);
      ReduceShift(Cancel(w, k - 1), k - 1);
    } else {
      assert Reduce(TimesX(w), 1) == LowByte(Cancel(TimesX(w), 0));
      LastStep(w);
    }
  }

  lemma LastStep(w: bv16)
    ensures LowByte(Cancel(TimesX(w), 0)) == Xtime(LowByte(w))
  {
  }

  // ---------------------------------------------------------------------------------------
  // gf_mul
  // ---------------------------------------------------------------------------------------

  /** What the last `n` rounds of the loop in `gf_mul` add up to. */
  function Shifts(a: bv8, b: bv8, n: nat): bv8
    decreases n
  {
    if n == 0 then 0 else Add(if b & 1 != 0 then a else 0, Shifts(Xtime(a), b >> 1, n - 1))
  }

  /** Of degree less than `16 - n`. */
  predicate Small(w: bv16, n: bv8)
    requires n <= 16
  {
    w >> (16 - n) == 0
  }

  lemma SmallStep(w: bv16, n: bv8)
    requires 1 < n <= 8 && Small(w, n)
    ensures Small(TimesX(w), n - 1) && !Bit(w, 14)
  {
  }

  lemma {:induction false} ShiftsReduce(w: bv16, b: bv8, n: bv8)
    requires n <= 8 && (n > 1 ==> Small(w, n))
    ensures Reduce(Carryless(w, b, n as nat), 7) == Shifts(Reduce(w, 7), b, n as nat)
    decreases n
  {
    hide Cancel, Xtime, Reduce, Bit, Plus, Add, TimesX, Small;
    ReduceZero(7);
    if n > 0 {
      ReduceLinear(if b & 1 != 0 then w else 0, Carryless(TimesX(w), b >> 1, n as nat - 1), 7);
      if n > 1 {
        SmallStep(w, n);
        TopAbsent(w);
        ReduceShift(w, 6);
        ShiftsReduce(TimesX(w), b >> 1, n - 1);
      }
    }
  }

  lemma TopAbsent(w: bv16)
    requires !Bit(w, 14)
    ensures Reduce(w, 7) == Reduce(w, 6)
  {
  }

  lemma {:induction false} ReduceZero(k: bv8)
    requires k <= 8
    ensures Reduce(0, k) == 0
    decreases k
  {
    if k > 0 {
      assert Cancel(0, k - 1) == 0;
      ReduceZero(k - 1);
    }
  }

  /** `gf_mul` is the product in the field. */
  method GfMul(x: bv8, y: bv8) returns (p: bv8)
    ensures p == Product(x, y)
  {
    hide Xtime, Product, Add;
    var a, b := x, y;
    p := 0;
    AddZero(Shifts(x, y, 8));
    for i := 0 to 8
      invariant Add(p, Shifts(a, b, 8 - i)) == Shifts(x, y, 8)
    {
      ghost var p0, a0, b0 := p, a, b;
      if b & 1 != 0 {
        p := p ^ a;
      }
      var hi := a & 0x80;
      a := a << 1;
      if hi != 0 {
        a := a ^ 0x1b;
      }
      b := b >> 1;
      OneRound(p0, a0, b0, 8 - i, p, a, b);
    }
    AddZero(p);
    ProductIs(x, y);
  }

  lemma AddZero(x: bv8)
    ensures Add(0, x) == x == Add(x, 0)
  {
  }

  lemma OneRound(p: bv8, a: bv8, b: bv8, n: nat, p': bv8, a': bv8, b': bv8)
    requires n > 0
    requires p' == if b & 1 != 0 then p ^ a else p
    requires a' == if a & 0x80 != 0 then (a << 1) ^ 0x1b else a << 1
    requires b' == b >> 1
    ensures Add(p', Shifts(a', b', n - 1)) == Add(p, Shifts(a, b, n))
  {
    assert a' == Xtime(a);
    assert p' == Add(p, if b & 1 != 0 then a else 0);
    hide Xtime, Add;
    AddRules(p, if b & 1 != 0 then a else 0, Shifts(a', b', n - 1));
  }

  lemma ProductIs(a: bv8, b: bv8)
    ensures Product(a, b) == Shifts(a, b, 8)
  {
    FromByte(a as bv16);
    ShiftsReduce(a as bv16, b, 8);
  }

  lemma FromByte(w: bv16)
    requires w < 0x100
    ensures Small(w, 8) && Reduce(w, 7) == w as bv8
  {
    hide Reduce;
    ReduceSmall(w, 7);
  }

  lemma {:induction false} ReduceSmall(w: bv16, k: bv8)
    requires k <= 8 && w < 0x100
    ensures Reduce(w, k) == LowByte(w) == w as bv8
    decreases k
  {
    if k > 0 {
      NoHighBit(w, k + 7);
      ReduceSmall(w, k - 1);
    }
  }

  lemma NoHighBit(w: bv16, k: bv8)
    requires w < 0x100 && 8 <= k < 16
    ensures !Bit(w, k)
  {
  }

  // ---------------------------------------------------------------------------------------
  // Substitution tables
  // ---------------------------------------------------------------------------------------

  /** The entry of sixteen that the low four bits of `i` select. */
  function Pick(i: bv8, t0: bv8, t1: bv8, t2: bv8, t3: bv8, t4: bv8, t5: bv8, t6: bv8, t7: bv8,
                t8: bv8, t9: bv8, t10: bv8, t11: bv8, t12: bv8, t13: bv8, t14: bv8, t15: bv8): bv8
  {
    if i & 8 == 0 then
      (if i & 4 == 0 then
         (if i & 2 == 0 then (if i & 1 == 0 then t0 else t1) else (if i & 1 == 0 then t2 else t3))
       else
         (if i & 2 == 0 then (if i & 1 == 0 then t4 else t5) else (if i & 1 == 0 then t6 else t7)))
    else
      (if i & 4 == 0 then
         (if i & 2 == 0 then (if i & 1 == 0 then t8 else t9) else (if i & 1 == 0 then t10 else t11))
       else
         (if i & 2 == 0 then (if i & 1 == 0 then t12 else t13) else (if i & 1 == 0 then t14 else t15)))
  }

  /** `sbox_`. */
  function Sbox(x: bv8): bv8 {
    Pick(x >> 4,
      Pick(x, 0x63, 0x7c, 0x77, 0x7b, 0xf2, 0x6b, 0x6f, 0xc5, 0x30, 0x01, 0x67, 0x2b, 0xfe, 0xd7, 0xab, 0x76),
      Pick(x, 0xca, 0x82, 0xc9, 0x7d, 0xfa, 0x59, 0x47, 0xf0, 0xad, 0xd4, 0xa2, 0xaf, 0x9c, 0xa4, 0x72, 0xc0),
      Pick(x, 0xb7, 0xfd, 0x93, 0x26, 0x36, 0x3f, 0xf7, 0xcc, 0x34, 0xa5, 0xe5, 0xf1, 0x71, 0xd8, 0x31, 0x15),
      Pick(x, 0x04, 0xc7, 0x23, 0xc3, 0x18, 0x96, 0x05, 0x9a, 0x07, 0x12, 0x80, 0xe2, 0xeb, 0x27, 0xb2, 0x75),
      Pick(x, 0x09, 0x83, 0x2c, 0x1a, 0x1b, 0x6e, 0x5a, 0xa0, 0x52, 0x3b, 0xd6, 0xb3, 0x29, 0xe3, 0x2f, 0x84),
      Pick(x, 0x53, 0xd1, 0x00, 0xed, 0x20, 0xfc, 0xb1, 0x5b, 0x6a, 0xcb, 0xbe, 0x39, 0x4a, 0x4c, 0x58, 0xcf),
      Pick(x, 0xd0, 0xef, 0xaa, 0xfb, 0x43, 0x4d, 0x33, 0x85, 0x45, 0xf9, 0x02, 0x7f, 0x50, 0x3c, 0x9f, 0xa8),
      Pick(x, 0x51, 0xa3, 0x40, 0x8f, 0x92, 0x9d, 0x38, 0xf5, 0xbc, 0xb6, 0xda, 0x21, 0x10, 0xff, 0xf3, 0xd2),
      Pick(x, 0xcd, 0x0c, 0x13, 0xec, 0x5f, 0x97, 0x44, 0x17, 0xc4, 0xa7, 0x7e, 0x3d, 0x64, 0x5d, 0x19, 0x73),
      Pick(x, 0x60, 0x81, 0x4f, 0xdc, 0x22, 0x2a, 0x90, 0x88, 0x46, 0xee, 0xb8, 0x14, 0xde, 0x5e, 0x0b, 0xdb),
      Pick(x, 0xe0, 0x32, 0x3a, 0x0a, 0x49, 0x06, 0x24, 0x5c, 0xc2, 0xd3, 0xac, 0x62, 0x91, 0x95, 0xe4, 0x79),
      Pick(x, 0xe7, 0xc8, 0x37, 0x6d, 0x8d, 0xd5, 0x4e, 0xa9, 0x6c, 0x56, 0xf4, 0xea, 0x65, 0x7a, 0xae, 0x08),
      Pick(x, 0xba, 0x78, 0x25, 0x2e, 0x1c, 0xa6, 0xb4, 0xc6, 0xe8, 0xdd, 0x74, 0x1f, 0x4b, 0xbd, 0x8b, 0x8a),
      Pick(x, 0x70, 0x3e, 0xb5, 0x66, 0x48, 0x03, 0xf6, 0x0e, 0x61, 0x35, 0x57, 0xb9, 0x86, 0xc1, 0x1d, 0x9e),
      Pick(x, 0xe1, 0xf8, 0x98, 0x11, 0x69, 0xd9, 0x8e, 0x94, 0x9b, 0x1e, 0x87, 0xe9, 0xce, 0x55, 0x28, 0xdf),
      Pick(x, 0x8c, 0xa1, 0x89, 0x0d, 0xbf, 0xe6, 0x42, 0x68, 0x41, 0x99, 0x2d, 0x0f, 0xb0, 0x54, 0xbb, 0x16))
  }

  /** `rsbox_`. */
  function Rsbox(x: bv8): bv8 {
    Pick(x >> 4,
      Pick(x, 0x52, 0x09, 0x6a, 0xd5, 0x30, 0x36, 0xa5, 0x38, 0xbf, 0x40, 0xa3, 0x9e, 0x81, 0xf3, 0xd7, 0xfb),
      Pick(x, 0x7c, 0xe3, 0x39, 0x82, 0x9b, 0x2f, 0xff, 0x87, 0x34, 0x8e, 0x43, 0x44, 0xc4, 0xde, 0xe9, 0xcb),
      Pick(x, 0x54, 0x7b, 0x94, 0x32, 0xa6, 0xc2, 0x23, 0x3d, 0xee, 0x4c, 0x95, 0x0b, 0x42, 0xfa, 0xc3, 0x4e),
      Pick(x, 0x08, 0x2e, 0xa1, 0x66, 0x28, 0xd9, 0x24, 0xb2, 0x76, 0x5b, 0xa2, 0x49, 0x6d, 0x8b, 0xd1, 0x25),
      Pick(x, 0x72, 0xf8, 0xf6, 0x64, 0x86, 0x68, 0x98, 0x16, 0xd4, 0xa4, 0x5c, 0xcc, 0x5d, 0x65, 0xb6, 0x92),
      Pick(x, 0x6c, 0x70, 0x48, 0x50, 0xfd, 0xed, 0xb9, 0xda, 0x5e, 0x15, 0x46, 0x57, 0xa7, 0x8d, 0x9d, 0x84),
      Pick(x, 0x90, 0xd8, 0xab, 0x00, 0x8c, 0xbc, 0xd3, 0x0a, 0xf7, 0xe4, 0x58, 0x05, 0xb8, 0xb3, 0x45, 0x06),
      Pick(x, 0xd0, 0x2c, 0x1e, 0x8f, 0xca, 0x3f, 0x0f, 0x02, 0xc1, 0xaf, 0xbd, 0x03, 0x01, 0x13, 0x8a, 0x6b),
      Pick(x, 0x3a, 0x91, 0x11, 0x41, 0x4f, 0x67, 0xdc, 0xea, 0x97, 0xf2, 0xcf, 0xce, 0xf0, 0xb4, 0xe6, 0x73),
      Pick(x, 0x96, 0xac, 0x74, 0x22, 0xe7, 0xad, 0x35, 0x85, 0xe2, 0xf9, 0x37, 0xe8, 0x1c, 0x75, 0xdf, 0x6e),
      Pick(x, 0x47, 0xf1, 0x1a, 0x71, 0x1d, 0x29, 0xc5, 0x89, 0x6f, 0xb7, 0x62, 0x0e, 0xaa, 0x18, 0xbe, 0x1b),
      Pick(x, 0xfc, 0x56, 0x3e, 0x4b, 0xc6, 0xd2, 0x79, 0x20, 0x9a, 0xdb, 0xc0, 0xfe, 0x78, 0xcd, 0x5a, 0xf4),
      Pick(x, 0x1f, 0xdd, 0xa8, 0x33, 0x88, 0x07, 0xc7, 0x31, 0xb1, 0x12, 0x10, 0x59, 0x27, 0x80, 0xec, 0x5f),
      Pick(x, 0x60, 0x51, 0x7f, 0xa9, 0x19, 0xb5, 0x4a, 0x0d, 0x2d, 0xe5, 0x7a, 0x9f, 0x93, 0xc9, 0x9c, 0xef),
      Pick(x, 0xa0, 0xe0, 0x3b, 0x4d, 0xae, 0x2a, 0xf5, 0xb0, 0xc8, 0xeb, 0xbb, 0x3c, 0x83, 0x53, 0x99, 0x61),
      Pick(x, 0x17, 0x2b, 0x04, 0x7e, 0xba, 0x77, 0xd6, 0x26, 0xe1, 0x69, 0x14, 0x63, 0x55, 0x21, 0x0c, 0x7d))
  }

  /** Section 5.1.1 of FIPS 197: the affine map over GF(2), and the map back. */
  function Rotate(x: bv8, k: bv8): bv8
    requires k < 8
  {
    (x << k) | (x >> (8 - k))
  }

  function Affine(x: bv8): bv8 {
    x ^ Rotate(x, 1) ^ Rotate(x, 2) ^ Rotate(x, 3) ^ Rotate(x, 4) ^ 0x63
  }

  function AffineBack(x: bv8): bv8 {
    Rotate(x, 1) ^ Rotate(x, 3) ^ Rotate(x, 6) ^ 0x05
  }

  lemma AffineInverse(x: bv8)
    ensures Affine(AffineBack(x)) == x
  {
  }

  /** The product, written out. */
  function Sum8(a: bv8, b: bv8): bv8 {
    var a1 := Xtime(a);
    var a2 := Xtime(a1);
    var a3 := Xtime(a2);
    var a4 := Xtime(a3);
    var a5 := Xtime(a4);
    var a6 := Xtime(a5);
    var a7 := Xtime(a6);
    Add(if b & 0x01 != 0 then a else 0, Add(if b & 0x02 != 0 then a1 else 0,
    Add(if b & 0x04 != 0 then a2 else 0, Add(if b & 0x08 != 0 then a3 else 0,
    Add(if b & 0x10 != 0 then a4 else 0, Add(if b & 0x20 != 0 then a5 else 0,
    Add(if b & 0x40 != 0 then a6 else 0, if b & 0x80 != 0 then a7 else 0)))))))
  }

  lemma EightBits(a: bv8, b: bv8)
    ensures Product(a, b) == Sum8(a, b)
  {
    ProductIs(a, b);
    var a1 := Xtime(a);
    var a2 := Xtime(a1);
    var a3 := Xtime(a2);
    var a4 := Xtime(a3);
    var a5 := Xtime(a4);
    var a6 := Xtime(a5);
    var a7 := Xtime(a6);
    ShiftedBits(b);
    hide Xtime, Add, Product;
    AddZero(if b & 0x80 != 0 then a7 else 0);
    assert Shifts(a7, b >> 7, 1) == Add(if b & 0x80 != 0 then a7 else 0, Shifts(Xtime(a7), (b >> 7) >> 1, 0));
    assert Shifts(a6, b >> 6, 2) == Add(if b & 0x40 != 0 then a6 else 0, Shifts(a7, (b >> 6) >> 1, 1));
    assert Shifts(a5, b >> 5, 3) == Add(if b & 0x20 != 0 then a5 else 0, Shifts(a6, (b >> 5) >> 1, 2));
    assert Shifts(a4, b >> 4, 4) == Add(if b & 0x10 != 0 then a4 else 0, Shifts(a5, (b >> 4) >> 1, 3));
    assert Shifts(a3, b >> 3, 5) == Add(if b & 0x08 != 0 then a3 else 0, Shifts(a4, (b >> 3) >> 1, 4));
    assert Shifts(a2, b >> 2, 6) == Add(if b & 0x04 != 0 then a2 else 0, Shifts(a3, (b >> 2) >> 1, 5));
    assert Shifts(a1, b >> 1, 7) == Add(if b & 0x02 != 0 then a1 else 0, Shifts(a2, (b >> 1) >> 1, 6));
  }

  lemma ShiftedBits(b: bv8)
    ensures (b >> 1) >> 1 == b >> 2 && (b >> 2) >> 1 == b >> 3 && (b >> 3) >> 1 == b >> 4
    ensures (b >> 4) >> 1 == b >> 5 && (b >> 5) >> 1 == b >> 6 && (b >> 6) >> 1 == b >> 7
    ensures (b >> 1) & 1 != 0 <==> b & 0x02 != 0
    ensures (b >> 2) & 1 != 0 <==> b & 0x04 != 0
    ensures (b >> 3) & 1 != 0 <==> b & 0x08 != 0
    ensures (b >> 4) & 1 != 0 <==> b & 0x10 != 0
    ensures (b >> 5) & 1 != 0 <==> b & 0x20 != 0
    ensures (b >> 6) & 1 != 0 <==> b & 0x40 != 0
    ensures (b >> 7) & 1 != 0 <==> b & 0x80 != 0
  {
  }

  /** The product in one step, without reduction on the way. */
  function Unreduced(a: bv8, b: bv8): bv16 {
    var w0 := a as bv16;
    var w1 := TimesX(w0);
    var w2 := TimesX(w1);
    var w3 := TimesX(w2);
    var w4 := TimesX(w3);
    var w5 := TimesX(w4);
    var w6 := TimesX(w5);
    var w7 := TimesX(w6);
    Plus(if b & 0x01 != 0 then w0 else 0, Plus(if b & 0x02 != 0 then w1 else 0,
    Plus(if b & 0x04 != 0 then w2 else 0, Plus(if b & 0x08 != 0 then w3 else 0,
    Plus(if b & 0x10 != 0 then w4 else 0, Plus(if b & 0x20 != 0 then w5 else 0,
    Plus(if b & 0x40 != 0 then w6 else 0, if b & 0x80 != 0 then w7 else 0)))))))
  }

  function Remainder(w: bv16): bv8 {
    LowByte(Cancel(Cancel(Cancel(Cancel(Cancel(Cancel(Cancel(w, 6), 5), 4), 3), 2), 1), 0))
  }

  lemma WrittenOut(a: bv8, b: bv8)
    ensures Product(a, b) == Remainder(Unreduced(a, b))
  {
    hide Unreduced, Remainder, Carryless, Reduce;
    CarrylessIs(a, b);
    ReduceIs(Unreduced(a, b));
  }

  lemma CarrylessIs(a: bv8, b: bv8)
    ensures Carryless(a as bv16, b, 8) == Unreduced(a, b)
  {
    var w0 := a as bv16;
    var w1 := TimesX(w0);
    var w2 := TimesX(w1);
    var w3 := TimesX(w2);
    var w4 := TimesX(w3);
    var w5 := TimesX(w4);
    var w6 := TimesX(w5);
    var w7 := TimesX(w6);
    ShiftedBits(b);
    PlusZero(if b & 0x80 != 0 then w7 else 0);
    hide TimesX, Plus;
    assert Carryless(w7, b >> 7, 1) == Plus(if b & 0x80 != 0 then w7 else 0, Carryless(TimesX(w7), (b >> 7) >> 1, 0));
    assert Carryless(w6, b >> 6, 2) == Plus(if b & 0x40 != 0 then w6 else 0, Carryless(w7, (b >> 6) >> 1, 1));
    assert Carryless(w5, b >> 5, 3) == Plus(if b & 0x20 != 0 then w5 else 0, Carryless(w6, (b >> 5) >> 1, 2));
    assert Carryless(w4, b >> 4, 4) == Plus(if b & 0x10 != 0 then w4 else 0, Carryless(w5, (b >> 4) >> 1, 3));
    assert Carryless(w3, b >> 3, 5) == Plus(if b & 0x08 != 0 then w3 else 0, Carryless(w4, (b >> 3) >> 1, 4));
    assert Carryless(w2, b >> 2, 6) == Plus(if b & 0x04 != 0 then w2 else 0, Carryless(w3, (b >> 2) >> 1, 5));
    assert Carryless(w1, b >> 1, 7) == Plus(if b & 0x02 != 0 then w1 else 0, Carryless(w2, (b >> 1) >> 1, 6));
  }

  lemma PlusZero(w: bv16)
    ensures Plus(w, 0) == w
  {
  }

  lemma ReduceIs(w: bv16)
    ensures Reduce(w, 7) == Remainder(w)
  {
    var w6 := Cancel(w, 6);
    var w5 := Cancel(w6, 5);
    var w4 := Cancel(w5, 4);
    var w3 := Cancel(w4, 3);
    var w2 := Cancel(w3, 2);
    var w1 := Cancel(w2, 1);
    var w0 := Cancel(w1, 0);
    hide Cancel;
    assert Reduce(w6, 6) == Reduce(w5, 5) == Reduce(w4, 4) == Reduce(w3, 3) == Reduce(w2, 2) == Reduce(w1, 1)
        == Reduce(w0, 0);
  }

  lemma Inverses0(x: bv8)
    requires x >> 5 == 0
    ensures Remainder(Unreduced(x, AffineBack(Sbox(x)))) == if x == 0 then 0 else 1
  {
    var y := AffineBack(Sbox(x));
    var u := Unreduced(x, y);
    var r := Remainder(u);
    assert r == if x == 0 then 0 else 1;
  }

  lemma Inverses1(x: bv8)
    requires x >> 5 == 1
    ensures Remainder(Unreduced(x, AffineBack(Sbox(x)))) == if x == 0 then 0 else 1
  {
    var y := AffineBack(Sbox(x));
    var u := Unreduced(x, y);
    var r := Remainder(u);
    assert r == if x == 0 then 0 else 1;
  }

  lemma Inverses2(x: bv8)
    requires x >> 5 == 2
    ensures Remainder(Unreduced(x, AffineBack(Sbox(x)))) == if x == 0 then 0 else 1
  {
    var y := AffineBack(Sbox(x));
    var u := Unreduced(x, y);
    var r := Remainder(u);
    assert r == if x == 0 then 0 else 1;
  }

  lemma Inverses3(x: bv8)
    requires x >> 5 == 3
    ensures Remainder(Unreduced(x, AffineBack(Sbox(x)))) == if x == 0 then 0 else 1
  {
    var y := AffineBack(Sbox(x));
    var u := Unreduced(x, y);
    var r := Remainder(u);
    assert r == if x == 0 then 0 else 1;
  }

  lemma Inverses4(x: bv8)
    requires x >> 5 == 4
    ensures Remainder(Unreduced(x, AffineBack(Sbox(x)))) == if x == 0 then 0 else 1
  {
    var y := AffineBack(Sbox(x));
    var u := Unreduced(x, y);
    var r := Remainder(u);
    assert r == if x == 0 then 0 else 1;
  }

  lemma Inverses5(x: bv8)
    requires x >> 5 == 5
    ensures Remainder(Unreduced(x, AffineBack(Sbox(x)))) == if x == 0 then 0 else 1
  {
    var y := AffineBack(Sbox(x));
    var u := Unreduced(x, y);
    var r := Remainder(u);
    assert r == if x == 0 then 0 else 1;
  }

  lemma Inverses6(x: bv8)
    requires x >> 5 == 6
    ensures Remainder(Unreduced(x, AffineBack(Sbox(x)))) == if x == 0 then 0 else 1
  {
    var y := AffineBack(Sbox(x));
    var u := Unreduced(x, y);
    var r := Remainder(u);
    assert r == if x == 0 then 0 else 1;
  }

  lemma Inverses7(x: bv8)
    requires x >> 5 == 7
    ensures Remainder(Unreduced(x, AffineBack(Sbox(x)))) == if x == 0 then 0 else 1
  {
    var y := AffineBack(Sbox(x));
    var u := Unreduced(x, y);
    var r := Remainder(u);
    assert r == if x == 0 then 0 else 1;
  }

  lemma Undone0(x: bv8) requires x >> 5 == 0 ensures Rsbox(Sbox(x)) == x { }
  lemma Undone1(x: bv8) requires x >> 5 == 1 ensures Rsbox(Sbox(x)) == x { }
  lemma Undone2(x: bv8) requires x >> 5 == 2 ensures Rsbox(Sbox(x)) == x { }
  lemma Undone3(x: bv8) requires x >> 5 == 3 ensures Rsbox(Sbox(x)) == x { }
  lemma Undone4(x: bv8) requires x >> 5 == 4 ensures Rsbox(Sbox(x)) == x { }
  lemma Undone5(x: bv8) requires x >> 5 == 5 ensures Rsbox(Sbox(x)) == x { }
  lemma Undone6(x: bv8) requires x >> 5 == 6 ensures Rsbox(Sbox(x)) == x { }
  lemma Undone7(x: bv8) requires x >> 5 == 7 ensures Rsbox(Sbox(x)) == x { }

  /** The substitute of a byte is the affine image of its inverse in the field, zero being taken
      as its own inverse; the second table undoes the first. */
  lemma SboxMeans(x: bv8)
    ensures var y := AffineBack(Sbox(x));
            Sbox(x) == Affine(y) && if x == 0 then y == 0 else Product(x, y) == 1
    ensures Rsbox(Sbox(x)) == x
  {
    AffineInverse(Sbox(x));
    WrittenOut(x, AffineBack(Sbox(x)));
    HighBits(x);
    ZeroEntry();
    hide Product, Affine, AffineBack, Unreduced, Remainder, Sbox, Rsbox;
    match x >> 5
    case 0 => Inverses0(x); Undone0(x);
    case 1 => Inverses1(x); Undone1(x);
    case 2 => Inverses2(x); Undone2(x);
    case 3 => Inverses3(x); Undone3(x);
    case 4 => Inverses4(x); Undone4(x);
    case 5 => Inverses5(x); Undone5(x);
    case 6 => Inverses6(x); Undone6(x);
    case _ => Inverses7(x); Undone7(x);
  }

  lemma HighBits(x: bv8)
    ensures x >> 5 <= 7
  {
  }

  lemma ZeroEntry()
    ensures AffineBack(Sbox(0)) == 0
  {
  }

  // ---------------------------------------------------------------------------------------
  // Columns
  // ---------------------------------------------------------------------------------------

  /** The products that the columns need. */
  lemma Multiples(a: bv8)
    ensures Product(a, 0x02) == Xtime(a) && Product(a, 0x03) == Add(Xtime(a), a)
    ensures var x2 := Xtime(a); var x4 := Xtime(x2); var x8 := Xtime(x4);
            && Product(a, 0x09) == Add(x8, a)
            && Product(a, 0x0b) == Add(x8, Add(x2, a))
            && Product(a, 0x0d) == Add(x8, Add(x4, a))
            && Product(a, 0x0e) == Add(x8, Add(x4, x2))
  {
    var x2 := Xtime(a);
    var x4 := Xtime(x2);
    var x8 := Xtime(x4);
    FourBits(a, 0x02);
    FourBits(a, 0x03);
    FourBits(a, 0x09);
    FourBits(a, 0x0b);
    FourBits(a, 0x0d);
    FourBits(a, 0x0e);
    hide Xtime, Product, Add;
    AddZero(0);
    AddZero(x2);
    AddZero(x8);
    AddZero(Add(x4, x8));
    AddRules(a, x2, x8);
    AddRules(a, x4, x8);
    AddRules(x2, x4, x8);
    AddRules(a, x8, 0);
    AddRules(x8, x2, a);
    AddRules(x8, x4, a);
    AddRules(x8, x4, x2);
    AddRules(x2, x8, 0);
    AddRules(x4, x8, 0);
    AddRules(Add(a, x2), x8, 0);
    AddRules(Add(a, x4), x8, 0);
    AddRules(Add(x2, x4), x8, 0);
  }

  lemma FourBits(a: bv8, b: bv8)
    requires b < 16
    ensures var x2 := Xtime(a); var x4 := Xtime(x2); var x8 := Xtime(x4);
            Product(a, b) == Add(if b & 1 != 0 then a else 0, Add(if b & 2 != 0 then x2 else 0,
                               Add(if b & 4 != 0 then x4 else 0, if b & 8 != 0 then x8 else 0)))
  {
    EightBits(a, b);
    LowNibble(b);
    hide Xtime, Add, Product;
    AddZero(0);
    AddZero(if b & 8 != 0 then Xtime(Xtime(Xtime(a))) else 0);
  }

  lemma LowNibble(b: bv8)
    requires b < 16
    ensures b & 0x10 == 0 && b & 0x20 == 0 && b & 0x40 == 0 && b & 0x80 == 0
  {
  }

  /** A row of the matrix in section 5.1.3 of FIPS 197, times a column. */
  function MixRow(a: bv8, b: bv8, c: bv8, d: bv8): bv8 {
    Add(Add(Product(a, 0x02), Product(b, 0x03)), Add(c, d))
  }

  /** A row of the matrix in section 5.3.3, times a column. */
  function UnmixRow(a: bv8, b: bv8, c: bv8, d: bv8): bv8 {
    Add(Add(Product(a, 0x0e), Product(b, 0x0b)), Add(Product(c, 0x0d), Product(d, 0x09)))
  }

  function Sum(a: bv8, b: bv8, c: bv8, d: bv8): bv8 {
    Add(Add(a, b), Add(c, d))
  }

  lemma Swap(a: bv8, b: bv8, c: bv8, d: bv8)
    ensures Add(Add(a, b), Add(c, d)) == Add(Add(a, c), Add(b, d))
  {
    hide Add;
    AddRules(a, b, Add(c, d));
    AddRules(b, c, d);
    AddRules(c, b, d);
    AddRules(a, c, Add(b, d));
  }

  lemma XtimeOfFour(a: bv8, b: bv8, c: bv8, d: bv8)
    ensures Xtime(Sum(a, b, c, d)) == Sum(Xtime(a), Xtime(b), Xtime(c), Xtime(d))
  {
    hide Add, Xtime;
    XtimeLinear(Add(a, b), Add(c, d));
    XtimeLinear(a, b);
    XtimeLinear(c, d);
  }

  /** The way in which `mix_columns` computes a row. */
  lemma MixRowFast(a: bv8, b: bv8, c: bv8, d: bv8)
    ensures MixRow(a, b, c, d) == Add(a, Add(Sum(a, b, c, d), Xtime(Add(a, b))))
  {
    hide Add, Xtime, Product;
    Multiples(a);
    Multiples(b);
    XtimeLinear(a, b);
    FastSum(a, b, Add(c, d), Xtime(a), Xtime(b));
  }

  lemma FastSum(a: bv8, b: bv8, cd: bv8, a2: bv8, b2: bv8)
    ensures Add(Add(a2, Add(b2, b)), cd) == Add(a, Add(Add(Add(a, b), cd), Add(a2, b2)))
  {
    hide Add;
    AddRules(a, b, cd);
    AddRules(a, Add(b, cd), Add(a2, b2));
    AddRules(a, a, Add(Add(b, cd), Add(a2, b2)));
    AddZero(Add(Add(b, cd), Add(a2, b2)));
    AddRules(a2, b2, b);
    AddRules(Add(a2, b2), b, cd);
    AddRules(Add(a2, b2), Add(b, cd), 0);
  }

  /** The terms of a row of the inverse product, collected by powers of x. */
  lemma UnmixRowFast(a: bv8, b: bv8, c: bv8, d: bv8)
    ensures UnmixRow(a, b, c, d)
         == Add(Xtime(Xtime(Xtime(Sum(a, b, c, d)))), Add(Xtime(Xtime(Add(a, c))),
                                                          Add(Xtime(Add(a, b)), Add(b, Add(c, d)))))
  {
    hide Product, Add, Xtime, Sum;
    Multiples(a);
    Multiples(b);
    Multiples(c);
    Multiples(d);
    XtimeOfFour(a, b, c, d);
    XtimeOfFour(Xtime(a), Xtime(b), Xtime(c), Xtime(d));
    XtimeOfFour(Xtime(Xtime(a)), Xtime(Xtime(b)), Xtime(Xtime(c)), Xtime(Xtime(d)));
    XtimeLinear(a, c);
    XtimeLinear(Xtime(a), Xtime(c));
    XtimeLinear(a, b);
    SumIs(Product(a, 0x0e), Product(b, 0x0b), Product(c, 0x0d), Product(d, 0x09));
    CollectHigh(Xtime(Xtime(Xtime(a))), Add(Xtime(Xtime(a)), Xtime(a)), Xtime(Xtime(Xtime(b))), Add(Xtime(b), b),
                Xtime(Xtime(Xtime(c))), Add(Xtime(Xtime(c)), c), Xtime(Xtime(Xtime(d))), d);
    CollectLow(Xtime(Xtime(a)), Xtime(a), Xtime(b), b, Xtime(Xtime(c)), c, d);
  }

  lemma CollectHigh(a: bv8, p: bv8, b: bv8, q: bv8, c: bv8, r: bv8, d: bv8, s: bv8)
    ensures Sum(Add(a, p), Add(b, q), Add(c, r), Add(d, s)) == Add(Sum(a, b, c, d), Sum(p, q, r, s))
  {
    hide Add;
    Swap(a, p, b, q);
    Swap(c, r, d, s);
    Swap(Add(a, b), Add(p, q), Add(c, d), Add(r, s));
  }

  lemma CollectLow(a4: bv8, a2: bv8, b2: bv8, b: bv8, c4: bv8, c: bv8, d: bv8)
    ensures Sum(Add(a4, a2), Add(b2, b), Add(c4, c), d) == Add(Add(a4, c4), Add(Add(a2, b2), Add(b, Add(c, d))))
  {
    hide Add;
    AddRules(a4, a2, Add(b2, b));
    AddRules(a2, b2, b);
    AddRules(c4, c, d);
    Swap(a4, Add(Add(a2, b2), b), c4, Add(c, d));
    AddRules(Add(a2, b2), b, Add(c, d));
  }

  /** Sums of the mixed column, by sums of the column. */
  lemma MixedSums(a: bv8, b: bv8, c: bv8, d: bv8)
    ensures var m0, m1, m2, m3 := MixRow(a, b, c, d), MixRow(b, c, d, a), MixRow(c, d, a, b), MixRow(d, a, b, c);
            var s := Sum(a, b, c, d);
            && Sum(m0, m1, m2, m3) == s
            && Add(m0, m2) == Add(Xtime(s), Add(a, c))
            && Add(m0, m1) == Add(Xtime(Add(a, c)), Add(a, b))
  {
    hide Add, Xtime, Sum, MixRow;
    var s := Sum(a, b, c, d);
    Rotated(a, b, c, d);
    Rotated(b, c, d, a);
    Rotated(c, d, a, b);
    Neighbours(a, b, c, d);
    Neighbours(c, d, a, b);
    MixRowFast(a, b, c, d);
    MixRowFast(c, d, a, b);
    PairSum(a, c, s, Xtime(Add(a, b)), Xtime(Add(c, d)));
    XtimeLinear(Add(a, b), Add(c, d));
    SumIs(a, b, c, d);
    SumIs(MixRow(a, b, c, d), MixRow(b, c, d, a), MixRow(c, d, a, b), MixRow(d, a, b, c));
    AddRules(a, c, 0);
    Swap(Xtime(Add(a, c)), Add(a, b), Xtime(Add(a, c)), Add(c, d));
    AddRules(Xtime(Add(a, c)), 0, 0);
    AddZero(Add(Add(a, b), Add(c, d)));
  }

  lemma SumIs(a: bv8, b: bv8, c: bv8, d: bv8)
    ensures Sum(a, b, c, d) == Add(Add(a, b), Add(c, d))
  {
  }

  lemma Rotated(a: bv8, b: bv8, c: bv8, d: bv8)
    ensures Sum(b, c, d, a) == Sum(a, b, c, d)
  {
    hide Add;
    AddRules(Add(b, c), Add(d, a), 0);
    AddRules(d, a, 0);
    Swap(a, d, b, c);
    AddRules(c, d, 0);
  }

  /** The sum of two neighbours in the mixed column. */
  lemma Neighbours(a: bv8, b: bv8, c: bv8, d: bv8)
    ensures Add(MixRow(a, b, c, d), MixRow(b, c, d, a)) == Add(Xtime(Add(a, c)), Add(a, b))
  {
    hide Add, Xtime, Sum, MixRow;
    MixRowFast(a, b, c, d);
    MixRowFast(b, c, d, a);
    Rotated(a, b, c, d);
    PairSum(a, b, Sum(a, b, c, d), Xtime(Add(a, b)), Xtime(Add(b, c)));
    XtimeLinear(Add(a, b), Add(b, c));
    Telescope(a, b, c);
  }

  lemma Telescope(a: bv8, b: bv8, c: bv8)
    ensures Add(Add(a, b), Add(b, c)) == Add(a, c)
  {
  }

  lemma PairSum(a: bv8, b: bv8, s: bv8, x: bv8, y: bv8)
    ensures Add(Add(a, Add(s, x)), Add(b, Add(s, y))) == Add(Add(x, y), Add(a, b))
  {
    hide Add;
    Swap(a, Add(s, x), b, Add(s, y));
    Swap(s, x, s, y);
    AddRules(s, 0, 0);
    AddZero(Add(x, y));
    AddRules(Add(a, b), Add(x, y), 0);
  }

  /** The two matrices are inverse. */
  lemma UnmixMix(a: bv8, b: bv8, c: bv8, d: bv8)
    ensures UnmixRow(MixRow(a, b, c, d), MixRow(b, c, d, a), MixRow(c, d, a, b), MixRow(d, a, b, c)) == a
  {
    hide Add, Xtime, MixRow, UnmixRow, Sum;
    var m0, m1, m2, m3 := MixRow(a, b, c, d), MixRow(b, c, d, a), MixRow(c, d, a, b), MixRow(d, a, b, c);
    var s, ac, ab := Sum(a, b, c, d), Add(a, c), Add(a, b);
    UnmixRowFast(m0, m1, m2, m3);
    MixedSums(a, b, c, d);
    MixRowFast(a, b, c, d);
    OthersSum(m0, m1, m2, m3, a, s, Xtime(ab));
    XtimeLinear(Xtime(s), ac);
    XtimeLinear(Xtime(Xtime(s)), Xtime(ac));
    XtimeLinear(Xtime(ac), ab);
    CancelPairs(Xtime(Xtime(Xtime(s))), Xtime(Xtime(ac)), Xtime(ab), a);
  }

  lemma OthersSum(m0: bv8, m1: bv8, m2: bv8, m3: bv8, a: bv8, s: bv8, x: bv8)
    requires Sum(m0, m1, m2, m3) == s && m0 == Add(a, Add(s, x))
    ensures Add(m1, Add(m2, m3)) == Add(x, a)
  {
    hide Add;
    var o := Add(m1, Add(m2, m3));
    AddRules(m0, m1, Add(m2, m3));
    AddRules(m0, m0, o);
    AddZero(o);
    assert o == Add(m0, s);
    AddRules(a, Add(s, x), s);
    AddRules(s, x, s);
    AddRules(s, s, x);
    AddRules(s, Add(x, s), 0);
    AddRules(x, s, s);
    AddZero(x);
    AddRules(a, x, 0);
  }

  lemma CancelPairs(p: bv8, q: bv8, r: bv8, a: bv8)
    ensures Add(p, Add(Add(p, q), Add(Add(q, r), Add(r, a)))) == a
  {
    hide Add;
    AddRules(p, q, 0);
    AddRules(q, r, a);
    Telescope(q, r, a);
    Telescope(p, q, a);
    AddRules(p, p, a);
    AddZero(a);
  }
}
