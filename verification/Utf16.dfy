/** Strings of 32-bit characters are logged as UTF-16: a pass that counts, and one that writes. */
module Utf16 {
  import opened Common
  import opened Bits
  import opened BigNum

  type Char32 = c: nat | c < 0x1_0000_0000
  type Unit = u: nat | u < 0x1_0000

  /** The memory of a string: a value at every place, whether it belongs to the string or not. */
  type Memory = nat -> Char32

  // ---------------------------------------------------------------------------------------
  // Section 2 of RFC 2781
  // ---------------------------------------------------------------------------------------

  /** The units of a character (section 2.1). */
  function Encode(c: Char32): (s: seq<Unit>)
    requires c < 0x11_0000
    ensures |s| == UnitCount(c)
  {
    if c < 0x1_0000 then [c]
    else
      var u := c - 0x1_0000;
      [0xD800 + u / 0x400, 0xDC00 + u % 0x400]
  }

  function UnitCount(c: Char32): nat {
    if c <= 0xFFFF then 1 else 2
  }

  predicate CodePoints(s: seq<Char32>) {
    forall k :: 0 <= k < |s| ==> s[k] < 0x11_0000
  }

  function EncodeAll(s: seq<Char32>): seq<Unit>
    requires CodePoints(s)
  {
    if s == [] then [] else Encode(s[0]) + EncodeAll(s[1..])
  }

  /** The characters of a string of units (section 2.2). */
  function DecodeAll(w: seq<Unit>): Option<seq<Char32>>
    decreases |w|
  {
    if w == [] then Some([])
    else if w[0] < 0xD800 || w[0] > 0xDFFF then
      var rest := DecodeAll(w[1..]);
      if rest.None? then None else Some([w[0]] + rest.value)
    else if w[0] > 0xDBFF || |w| == 1 || w[1] < 0xDC00 || w[1] > 0xDFFF then None
    else
      var rest := DecodeAll(w[2..]);
      if rest.None? then None else Some([((w[0] as int) - 0xD800) * 0x400 + ((w[1] as int) - 0xDC00) + 0x1_0000]
                                        + rest.value)
  }

  /** The example of section 5 of RFC 2781: U+12345 and the letters "=Ra". */
  lemma EncodeExample()
    ensures EncodeAll([0x12345, 0x3D, 0x52, 0x61]) == [0xD808, 0xDF45, 0x003D, 0x0052, 0x0061]
  {
    assert [0x12345, 0x3D, 0x52, 0x61][1..] == [0x3D, 0x52, 0x61] && [0x3D, 0x52, 0x61][1..] == [0x52, 0x61];
    assert [0x52, 0x61][1..] == [0x61] && [0x61][1..] == [];
    assert EncodeAll([0x61]) == [0x61];
    assert EncodeAll([0x52, 0x61]) == [0x52, 0x61];
  }

  /** A character that is not a surrogate. */
  predicate Scalar(c: Char32) {
    c < 0xD800 || 0xE000 <= c < 0x11_0000
  }

  lemma {:induction false} DecodesEncoding(s: seq<Char32>)
    requires forall k :: 0 <= k < |s| ==> Scalar(s[k])
    ensures CodePoints(s) && DecodeAll(EncodeAll(s)) == Some(s)
  {
    if s != [] {
      var w, rest := Encode(s[0]), EncodeAll(s[1..]);
      DecodesEncoding(s[1..]);
      assert (w + rest)[|w|..] == rest;
      assert s == [s[0]] + s[1..];
    }
  }

  // ---------------------------------------------------------------------------------------
  // The characters of a string
  // ---------------------------------------------------------------------------------------

  /** The characters before the first zero, at most `n`. */
  function UpToZero(mem: Memory, i: nat, n: nat): seq<Char32>
    decreases n
  {
    if n == 0 || mem(i) == 0 then [] else [mem(i)] + UpToZero(mem, i + 1, n - 1)
  }

  lemma {:induction false} UpToZeroMeans(mem: Memory, i: nat, n: nat)
    ensures var s := UpToZero(mem, i, n);
            && |s| <= n && (|s| == n || mem(i + |s|) == 0)
            && forall k :: 0 <= k < |s| ==> s[k] == mem(i + k) != 0
    decreases n
  {
    if n > 0 && mem(i) != 0 {
      UpToZeroMeans(mem, i + 1, n - 1);
      var rest := UpToZero(mem, i + 1, n - 1);
      var s := UpToZero(mem, i, n);
      assert s == [mem(i)] + rest;
      forall k | 0 <= k < |s| ensures s[k] == mem(i + k) != 0 {
        if k > 0 { assert s[k] == rest[k - 1] == mem(i + 1 + (k - 1)); }
      }
    }
  }

  /** The number of units of some characters. */
  function Units(s: seq<Char32>): nat {
    if s == [] then 0 else UnitCount(s[0]) + Units(s[1..])
  }

  lemma {:induction false} UnitsOfEncoding(s: seq<Char32>)
    requires CodePoints(s)
    ensures |EncodeAll(s)| == Units(s)
  {
    if s != [] {
      UnitsOfEncoding(s[1..]);
    }
  }

  lemma OneCharacter(mem: Memory, i: nat, n: nat)
    requires n > 0 && mem(i) != 0
    ensures Units(UpToZero(mem, i, n)) == UnitCount(mem(i)) + Units(UpToZero(mem, i + 1, n - 1))
  {
    assert UpToZero(mem, i, n)[1..] == UpToZero(mem, i + 1, n - 1);
  }

  // ---------------------------------------------------------------------------------------
  // Counting
  // ---------------------------------------------------------------------------------------

  /** `c - 1` on 32 bits. */
  function MinusOne(c: Char32): Char32 {
    if c == 0 then 0xFFFF_FFFF else c - 1
  }

  lemma {:induction false} OrAtLeast(x: nat, y: nat)
    ensures Or(x, y) >= x && Or(x, y) >= y
  {
    if x != 0 && y != 0 {
      OrAtLeast(x / 2, y / 2);
    }
  }

  lemma {:induction false} OrBelow(x: nat, y: nat, k: nat)
    requires x < Pow2(k) && y < Pow2(k)
    ensures Or(x, y) < Pow2(k)
    decreases k
  {
    if x != 0 && y != 0 {
      OrBelow(x / 2, y / 2, k - 1);
    }
  }

  function Or4(a: nat, b: nat, c: nat, d: nat): nat {
    Or(Or(Or(a, b), c), d)
  }

  lemma Or4AtLeast(a: nat, b: nat, c: nat, d: nat)
    ensures Or4(a, b, c, d) >= a && Or4(a, b, c, d) >= b && Or4(a, b, c, d) >= c && Or4(a, b, c, d) >= d
  {
    OrAtLeast(a, b);
    OrAtLeast(Or(a, b), c);
    OrAtLeast(Or(Or(a, b), c), d);
  }

  /** The check of the counting pass: if it holds, four characters make four units. */
  lemma FourUnits(mem: Memory, i: nat, n: nat)
    requires n >= 4
    requires Or4(MinusOne(mem(i)), MinusOne(mem(i + 1)), MinusOne(mem(i + 2)), MinusOne(mem(i + 3))) <= 0xFFFE
    ensures Units(UpToZero(mem, i, n)) == 4 + Units(UpToZero(mem, i + 4, n - 4))
  {
    hide Or4, Units, UpToZero;
    Or4AtLeast(MinusOne(mem(i)), MinusOne(mem(i + 1)), MinusOne(mem(i + 2)), MinusOne(mem(i + 3)));
    OneCharacter(mem, i, n);
    OneCharacter(mem, i + 1, n - 1);
    OneCharacter(mem, i + 2, n - 2);
    OneCharacter(mem, i + 3, n - 3);
  }

  /** `_get_utf32_c_style_string_storage_size_impl`: the bytes that the characters before the first
      zero need, whatever lies behind them. */
  method StorageSize(mem: Memory, maxCount: nat) returns (size: nat)
    ensures size == 2 * Units(UpToZero(mem, 0, maxCount))
  {
    hide Or4, Units, UpToZero;
    var len := 0;
    var p := 0;
    var remaining := maxCount;
    while remaining >= 4
      invariant p + remaining == maxCount
      invariant len + Units(UpToZero(mem, p, remaining)) == Units(UpToZero(mem, 0, maxCount))
    {
      var check := Or4(MinusOne(mem(p)), MinusOne(mem(p + 1)), MinusOne(mem(p + 2)), MinusOne(mem(p + 3)));
      if check <= 0xFFFE {
        FourUnits(mem, p, remaining);
        len := len + 4;
        p := p + 4;
        remaining := remaining - 4;
      } else {
        break;
      }
    }
    while remaining > 0
      invariant p + remaining == maxCount
      invariant len + Units(UpToZero(mem, p, remaining)) == Units(UpToZero(mem, 0, maxCount))
      decreases remaining
    {
      var c := mem(p);
      if c == 0 {
        break;
      }
      OneCharacter(mem, p, remaining);
      len := len + if c <= 0xFFFF then 1 else 2;
      p := p + 1;
      remaining := remaining - 1;
    }
    NoCharacters(mem, p, remaining);
    return len * 2;
  }

  lemma NoCharacters(mem: Memory, i: nat, n: nat)
    requires n == 0 || mem(i) == 0
    ensures Units(UpToZero(mem, i, n)) == 0
  {
  }

  // ---------------------------------------------------------------------------------------
  // Writing
  // ---------------------------------------------------------------------------------------

  /** Units in memory, low byte first. */
  function UnitBytes(w: seq<Unit>): (b: seq<Byte>)
    ensures |b| == 2 * |w|
  {
    if w == [] then [] else UnitBytes(w[..|w| - 1]) + [w[|w| - 1] % 256, w[|w| - 1] / 256]
  }

  lemma {:induction false} UnitBytesAt(w: seq<Unit>, k: nat)
    requires k < |w|
    ensures UnitBytes(w)[2 * k] == w[k] % 256 && UnitBytes(w)[2 * k + 1] == w[k] / 256
  {
    if k < |w| - 1 {
      UnitBytesAt(w[..|w| - 1], k);
    }
  }

  /** Comparisons `v <= 0xFFFF` are made in the type of the character: `wchar_t` may be signed. */
  predicate AtMostFFFF(v: nat, signed: bool) {
    v <= 0xFFFF || (signed && v >= 0x8000_0000)
  }

  /** A signed character of that value is negative. */
  predicate Negative(v: Char32) {
    v >= 0x8000_0000
  }

  /** The conversion to `char16_t`. */
  function Low(v: nat): Unit {
    v % 0x1_0000
  }

  /** The four values that a step of the fast loop reads. */
  predicate FourPass(mem: Memory, i: nat, signed: bool) {
    AtMostFFFF(Or4(mem(i), mem(i + 1), mem(i + 2), mem(i + 3)), signed)
  }

  function LowFour(mem: Memory, i: nat): (w: seq<Unit>)
    ensures |w| == 4
  {
    [Low(mem(i)), Low(mem(i + 1)), Low(mem(i + 2)), Low(mem(i + 3))]
  }

  /** The units that the loop for single characters writes when `left` units are missing; a
      character that needs two is cut off when only one is. */
  function TakenSlowly(mem: Memory, i: nat, left: nat, signed: bool): (w: seq<Unit>)
    ensures |w| == left
    decreases left
  {
    if left == 0 then []
    else if AtMostFFFF(mem(i), signed) then [Low(mem(i))] + TakenSlowly(mem, i + 1, left - 1, signed)
    else if left == 1 then [0]
    else Surrogates(mem(i)) + TakenSlowly(mem, i + 1, left - 2, signed)
  }

  /** The two units of a large character, as they are computed. */
  function Surrogates(c: Char32): (w: seq<Unit>)
    requires c > 0xFFFF
    ensures |w| == 2
  {
    [Low(Shr(c - 0x1_0000, 10) + 0xD800), Low(And(c - 0x1_0000, 0x3FF) + 0xDC00)]
  }

  /** The units that both loops write, for any memory. */
  function Taken(mem: Memory, i: nat, left: nat, signed: bool): (w: seq<Unit>)
    ensures |w| == left
    decreases left
  {
    if left >= 4 && FourPass(mem, i, signed) then LowFour(mem, i) + Taken(mem, i + 4, left - 4, signed)
    else TakenSlowly(mem, i, left, signed)
  }

  /** The place behind the last value that is taken. */
  function SlowEnd(mem: Memory, i: nat, left: nat, signed: bool): (e: nat)
    ensures e >= i
    decreases left
  {
    if left == 0 then i
    else if AtMostFFFF(mem(i), signed) then SlowEnd(mem, i + 1, left - 1, signed)
    else if left == 1 then i + 1
    else SlowEnd(mem, i + 1, left - 2, signed)
  }

  function TakenEnd(mem: Memory, i: nat, left: nat, signed: bool): (e: nat)
    ensures e >= i
    decreases left
  {
    if left >= 4 && FourPass(mem, i, signed) then TakenEnd(mem, i + 4, left - 4, signed)
    else SlowEnd(mem, i, left, signed)
  }

  /** The bytes replace as many others at `base`; nothing else changes. */
  ghost predicate Replaced(b0: seq<Byte>, b: seq<Byte>, base: nat, bytes: seq<Byte>) {
    base + |bytes| <= |b0| && b == b0[..base] + bytes + b0[base + |bytes|..]
  }

  /** The units `done` are in the buffer from `base` on; nothing else has changed. */
  ghost predicate Written(b0: seq<Byte>, b: seq<Byte>, base: nat, done: seq<Unit>) {
    Replaced(b0, b, base, UnitBytes(done))
  }

  lemma NothingWritten(b: seq<Byte>, base: nat)
    requires base <= |b|
    ensures Written(b, b, base, [])
  {
  }

  lemma OneMoreUnit(b0: seq<Byte>, b: seq<Byte>, base: nat, done: seq<Unit>, u: Unit)
    requires Written(b0, b, base, done) && base + 2 * |done| + 2 <= |b0|
    ensures var k := base + 2 * |done|;
            Written(b0, b[k := u % 256][k + 1 := u / 256], base, done + [u])
  {
    assert (done + [u])[..|done|] == done;
    var k := base + 2 * |done|;
    var front := b0[..base] + UnitBytes(done);
    assert |front| == k && b == front + b0[k..];
    hide UnitBytes;
    TwoReplaced(front, b0, k, u % 256, u / 256);
    var two: seq<Byte> := [u % 256, u / 256];
    assert front + two + b0[k + 2..] == b0[..base] + (UnitBytes(done) + two) + b0[k + 2..];
    assert UnitBytes(done + [u]) == UnitBytes(done) + two by { LastUnit(done, u); }
  }

  lemma LastUnit(done: seq<Unit>, u: Unit)
    ensures UnitBytes(done + [u]) == UnitBytes(done) + [u % 256, u / 256]
  {
    assert (done + [u])[..|done|] == done;
  }

  lemma TwoReplaced(front: seq<Byte>, b0: seq<Byte>, k: nat, x: Byte, y: Byte)
    requires |front| == k && k + 2 <= |b0|
    ensures (front + b0[k..])[k := x][k + 1 := y] == front + [x, y] + b0[k + 2..]
  {
  }

  method StoreUnit(buf: array<Byte>, at: nat, u: Unit, ghost b0: seq<Byte>, ghost base: nat, ghost done: seq<Unit>)
    requires Written(b0, buf[..], base, done) && at == base + 2 * |done| && at + 2 <= buf.Length
    modifies buf
    ensures Written(b0, buf[..], base, done + [u])
  {
    ghost var b := buf[..];
    OneMoreUnit(b0, b, base, done, u);
    hide Written;
    var low: Byte, high: Byte := u % 256, u / 256;
    buf[at] := low;
    buf[at + 1] := high;
    ghost var b1: seq<Byte> := b[at := low];
    ghost var b2: seq<Byte> := b1[at + 1 := high];
    assert buf[..] == b2;
  }

  method StoreFour(buf: array<Byte>, at: nat, u0: Unit, u1: Unit, u2: Unit, u3: Unit, ghost b0: seq<Byte>,
                   ghost base: nat, ghost done: seq<Unit>)
    requires Written(b0, buf[..], base, done) && at == base + 2 * |done| && at + 8 <= buf.Length
    modifies buf
    ensures Written(b0, buf[..], base, done + [u0, u1, u2, u3])
  {
    hide Written;
    StoreUnit(buf, at, u0, b0, base, done);
    StoreUnit(buf, at + 2, u1, b0, base, done + [u0]);
    StoreUnit(buf, at + 4, u2, b0, base, done + [u0] + [u1]);
    StoreUnit(buf, at + 6, u3, b0, base, done + [u0] + [u1] + [u2]);
    FourAppended(done, u0, u1, u2, u3);
  }

  /** `c_style_string_copy` for 32-bit characters, for any memory and any size. */
  method Copy(buf: array<Byte>, base: nat, mem: Memory, size: nat, signed: bool)
    requires base + 2 * (size / 2) <= buf.Length
    modifies buf
    ensures Written(old(buf[..]), buf[..], base, Taken(mem, 0, size / 2, signed))
  {
    hide Or4, Written, FourPass, Shr, And, Low, AtMostFFFF, Taken, TakenSlowly;
    ghost var b0 := buf[..];
    ghost var all := Taken(mem, 0, size / 2, signed);
    ghost var done: seq<Unit> := [];
    NothingWritten(b0, base);
    var target, end, src := 0, size / 2, 0;
    assert done + all == all;
    while target + 4 <= end
      invariant target == |done| <= end
      invariant done + Taken(mem, src, end - target, signed) == all && Written(b0, buf[..], base, done)
    {
      var c0, c1, c2, c3 := mem(src), mem(src + 1), mem(src + 2), mem(src + 3);
      TakenStep(mem, src, end - target, signed);
      if AtMostFFFF(Or4(c0, c1, c2, c3), signed) {
        StoreFour(buf, base + 2 * target, Low(c0), Low(c1), Low(c2), Low(c3), b0, base, done);
        Associate(done, [Low(c0), Low(c1), Low(c2), Low(c3)], Taken(mem, src + 4, end - target - 4, signed));
        done := done + [Low(c0), Low(c1), Low(c2), Low(c3)];
        target := target + 4;
        src := src + 4;
      } else {
        break;
      }
    }
    if target + 4 > end { TakenLast(mem, src, end - target, signed); }
    CopySlowly(buf, base, mem, src, target, end, signed, b0, done, all);
  }

  /** The loop for single characters. */
  method CopySlowly(buf: array<Byte>, base: nat, mem: Memory, first: nat, written: nat, end: nat, signed: bool,
                    ghost b0: seq<Byte>, ghost before: seq<Unit>, ghost all: seq<Unit>)
    requires written == |before| <= end && base + 2 * end <= buf.Length && Written(b0, buf[..], base, before)
    requires before + TakenSlowly(mem, first, end - written, signed) == all
    modifies buf
    ensures Written(b0, buf[..], base, all)
  {
    hide Written, Shr, And, Low, AtMostFFFF, TakenSlowly;
    var target, src := written, first;
    ghost var done := before;
    while target < end
      invariant target == |done| <= end
      invariant done + TakenSlowly(mem, src, end - target, signed) == all && Written(b0, buf[..], base, done)
    {
      var c := mem(src);
      ghost var left := end - target;
      SlowlyStep(mem, src, left, signed);
      src := src + 1;
      if AtMostFFFF(c, signed) {
        StoreUnit(buf, base + 2 * target, Low(c), b0, base, done);
        Associate(done, [Low(c)], TakenSlowly(mem, src, left - 1, signed));
        done := done + [Low(c)];
        target := target + 1;
      } else {
        if target + 2 > end {
          StoreUnit(buf, base + 2 * target, 0, b0, base, done);
          done := done + [0];
          target := target + 1;
          break;
        }
        c := c - 0x1_0000;
        var high, low := Low(Shr(c, 10) + 0xD800), Low(And(c, 0x3FF) + 0xDC00);
        StoreUnit(buf, base + 2 * target, high, b0, base, done);
        StoreUnit(buf, base + 2 * (target + 1), low, b0, base, done + [high]);
        PairAppended(done, high, low, TakenSlowly(mem, src, left - 2, signed));
        done := done + [high, low];
        target := target + 2;
      }
    }
    assert done == all;
  }

  lemma PairAppended(a: seq<Unit>, x: Unit, y: Unit, c: seq<Unit>)
    ensures a + [x] + [y] == a + [x, y] && a + ([x, y] + c) == (a + [x, y]) + c
  {
  }

  lemma TakenStep(mem: Memory, i: nat, left: nat, signed: bool)
    requires left >= 4
    ensures Taken(mem, i, left, signed) ==
              if AtMostFFFF(Or4(mem(i), mem(i + 1), mem(i + 2), mem(i + 3)), signed) then
                [Low(mem(i)), Low(mem(i + 1)), Low(mem(i + 2)), Low(mem(i + 3))] + Taken(mem, i + 4, left - 4, signed)
              else TakenSlowly(mem, i, left, signed)
  {
  }

  lemma TakenLast(mem: Memory, i: nat, left: nat, signed: bool)
    requires left < 4
    ensures Taken(mem, i, left, signed) == TakenSlowly(mem, i, left, signed)
  {
  }

  lemma SlowlyStep(mem: Memory, i: nat, left: nat, signed: bool)
    requires left > 0
    ensures !AtMostFFFF(mem(i), signed) ==> mem(i) > 0xFFFF
    ensures TakenSlowly(mem, i, left, signed) ==
              if AtMostFFFF(mem(i), signed) then [Low(mem(i))] + TakenSlowly(mem, i + 1, left - 1, signed)
              else if left == 1 then [0]
              else [Low(Shr(mem(i) - 0x1_0000, 10) + 0xD800), Low(And(mem(i) - 0x1_0000, 0x3FF) + 0xDC00)]
                   + TakenSlowly(mem, i + 1, left - 2, signed)
  {
  }

  lemma FourAppended(done: seq<Unit>, c0: Unit, c1: Unit, c2: Unit, c3: Unit)
    ensures done + [c0] + [c1] + [c2] + [c3] == done + [c0, c1, c2, c3]
  {
  }

  lemma Associate(a: seq<Unit>, b: seq<Unit>, c: seq<Unit>)
    ensures a + (b + c) == (a + b) + c
  {
  }

  // ---------------------------------------------------------------------------------------
  // When exactly the encoding is written
  // ---------------------------------------------------------------------------------------

  /** A step of the fast loop begins with four units missing but fewer than four characters left,
      and a value behind the string is negative. */
  predicate Overruns(mem: Memory, i: nat, n: nat, signed: bool)
    decreases n
  {
    var s := UpToZero(mem, i, n);
    if |s| >= 4 then
      s[0] <= 0xFFFF && s[1] <= 0xFFFF && s[2] <= 0xFFFF && s[3] <= 0xFFFF && Overruns(mem, i + 4, n - 4, signed)
    else
      signed && Units(s) >= 4 && ((|s| < 3 && Negative(mem(i + 2))) || Negative(mem(i + 3)))
  }

  /** What the overrun takes happens to look like the encoding. */
  predicate Disguised(mem: Memory, i: nat, n: nat, signed: bool)
    requires CodePoints(UpToZero(mem, i, n))
    decreases n
  {
    var s := UpToZero(mem, i, n);
    if |s| >= 4 then
      TailCodePoints(mem, i, n);
      Disguised(mem, i + 4, n - 4, signed)
    else EncodeAll(s) == LowFour(mem, i) + TakenSlowly(mem, i + 4, if Units(s) > 4 then Units(s) - 4 else 0, signed)
  }

  lemma TailCodePoints(mem: Memory, i: nat, n: nat)
    requires |UpToZero(mem, i, n)| >= 4
    ensures n >= 4 && UpToZero(mem, i, n) == [mem(i), mem(i + 1), mem(i + 2), mem(i + 3)] + UpToZero(mem, i + 4, n - 4)
    ensures CodePoints(UpToZero(mem, i, n)) ==> CodePoints(UpToZero(mem, i + 4, n - 4))
  {
    var s := UpToZero(mem, i, n);
    assert s == [mem(i)] + UpToZero(mem, i + 1, n - 1);
    assert UpToZero(mem, i + 1, n - 1) == [mem(i + 1)] + UpToZero(mem, i + 2, n - 2);
    assert UpToZero(mem, i + 2, n - 2) == [mem(i + 2)] + UpToZero(mem, i + 3, n - 3);
    assert UpToZero(mem, i + 3, n - 3) == [mem(i + 3)] + UpToZero(mem, i + 4, n - 4);
    var rest := UpToZero(mem, i + 4, n - 4);
    assert forall k :: 0 <= k < |rest| ==> rest[k] == s[k + 4];
  }

  /** One character at a time the encoding is written, and nothing else is taken. */
  lemma {:induction false} SlowlyRight(mem: Memory, i: nat, n: nat, signed: bool)
    requires CodePoints(UpToZero(mem, i, n))
    ensures var s := UpToZero(mem, i, n);
            TakenSlowly(mem, i, Units(s), signed) == EncodeAll(s) && SlowEnd(mem, i, Units(s), signed) == i + |s|
    decreases n
  {
    hide Units, EncodeAll, TakenSlowly, SlowEnd;
    var s := UpToZero(mem, i, n);
    if s == [] {
      NothingLeft(mem, i, signed);
    } else {
      var rest := UpToZero(mem, i + 1, n - 1);
      assert s[0] == mem(i) && s[1..] == rest;
      assert forall k :: 0 <= k < |rest| ==> rest[k] == s[k + 1];
      SlowlyRight(mem, i + 1, n - 1, signed);
      SlowStep(mem, i, s, Units(rest), signed);
    }
  }

  lemma NothingLeft(mem: Memory, i: nat, signed: bool)
    ensures Units([]) == 0 && EncodeAll([]) == [] && TakenSlowly(mem, i, 0, signed) == []
            && SlowEnd(mem, i, 0, signed) == i
  {
  }

  /** One character is written as its encoding. */
  lemma SlowStep(mem: Memory, i: nat, s: seq<Char32>, left: nat, signed: bool)
    requires s != [] && s[0] == mem(i) && CodePoints(s)
    ensures CodePoints(s[1..]) && Units(s) == UnitCount(mem(i)) + Units(s[1..])
    ensures EncodeAll(s) == Encode(mem(i)) + EncodeAll(s[1..])
    ensures TakenSlowly(mem, i, UnitCount(mem(i)) + left, signed) == Encode(mem(i))
            + TakenSlowly(mem, i + 1, left, signed)
    ensures SlowEnd(mem, i, UnitCount(mem(i)) + left, signed) == SlowEnd(mem, i + 1, left, signed)
  {
    EncodingUnits(mem(i));
    hide Low, Surrogates, Encode;
  }

  lemma EncodingUnits(c: Char32)
    requires c < 0x11_0000
    ensures Encode(c) == if c <= 0xFFFF then [Low(c)] else Surrogates(c)
  {
    hide Shr, And;
    if c > 0xFFFF {
      TenBits(c - 0x1_0000);
      SurrogatesFit(c - 0x1_0000);
    }
  }

  lemma SurrogatesFit(u: nat)
    requires u < 0x10_0000
    ensures Low(u / 0x400 + 0xD800) == u / 0x400 + 0xD800 && Low(u % 0x400 + 0xDC00) == u % 0x400 + 0xDC00
  {
  }

  lemma TenBits(u: nat)
    ensures Shr(u, 10) == u / 0x400 && And(u, 0x3FF) == u % 0x400
  {
    assert Pow2(10) == 0x400;
    AndMask(u, 10);
  }

  /** The check of a step: it passes if no value needs two units, or if one is negative. */
  lemma FourPassMeans(mem: Memory, i: nat, signed: bool)
    ensures FourPass(mem, i, signed) <==>
              || (mem(i) <= 0xFFFF && mem(i + 1) <= 0xFFFF && mem(i + 2) <= 0xFFFF && mem(i + 3) <= 0xFFFF)
              || (signed && (Negative(mem(i)) || Negative(mem(i + 1)) || Negative(mem(i + 2)) || Negative(mem(i + 3))))
  {
    Or4Below(mem(i), mem(i + 1), mem(i + 2), mem(i + 3), 16);
    Or4Below(mem(i), mem(i + 1), mem(i + 2), mem(i + 3), 31);
    Or4AtLeast(mem(i), mem(i + 1), mem(i + 2), mem(i + 3));
    Pow2Value31();
    assert Pow2(16) == 0x1_0000;
  }

  lemma Or4Below(a: nat, b: nat, c: nat, d: nat, k: nat)
    ensures a < Pow2(k) && b < Pow2(k) && c < Pow2(k) && d < Pow2(k) ==> Or4(a, b, c, d) < Pow2(k)
  {
    hide Pow2;
    if a < Pow2(k) && b < Pow2(k) && c < Pow2(k) && d < Pow2(k) {
      OrBelow(a, b, k);
      OrBelow(Or(a, b), c, k);
      OrBelow(Or(Or(a, b), c), d, k);
    }
  }

  /** Fewer than four characters, but four units. */
  lemma FewCharacters(s: seq<Char32>)
    requires |s| < 4
    ensures Units(s) >= 4 ==> |s| >= 2
    ensures Units(s) >= 4 && |s| == 2 ==> s[0] > 0xFFFF && s[1] > 0xFFFF && Units(s) == 4
    ensures Units(s) >= 4 && |s| == 3 ==> s[0] > 0xFFFF || s[1] > 0xFFFF || s[2] > 0xFFFF
  {
    if |s| > 0 {
      assert Units(s) == UnitCount(s[0]) + Units(s[1..]);
      if |s| > 1 {
        assert Units(s[1..]) == UnitCount(s[1]) + Units(s[1..][1..]);
        if |s| > 2 { assert Units(s[1..][1..]) == UnitCount(s[2]) + Units(s[1..][1..][1..]); }
      }
    }
  }

  lemma FirstCharacters(mem: Memory, i: nat, n: nat)
    ensures var s := UpToZero(mem, i, n);
            && (|s| > 0 ==> s[0] == mem(i)) && (|s| > 1 ==> s[1] == mem(i + 1)) && (|s| > 2 ==> s[2] == mem(i + 2))
            && |s| <= n && (|s| < n ==> mem(i + |s|) == 0)
    decreases n
  {
    var s := UpToZero(mem, i, n);
    if s != [] {
      FirstCharacters(mem, i + 1, n - 1);
      assert s[1..] == UpToZero(mem, i + 1, n - 1);
    }
  }

  /** Whether a step of the fast loop is taken. */
  lemma StepTaken(mem: Memory, i: nat, n: nat, signed: bool)
    requires CodePoints(UpToZero(mem, i, n)) && Units(UpToZero(mem, i, n)) >= 4
    ensures var s := UpToZero(mem, i, n);
            FourPass(mem, i, signed) <==>
              if |s| >= 4 then s[0] <= 0xFFFF && s[1] <= 0xFFFF && s[2] <= 0xFFFF && s[3] <= 0xFFFF
              else Overruns(mem, i, n, signed)
  {
    hide FourPass, Units;
    var s := UpToZero(mem, i, n);
    FourPassMeans(mem, i, signed);
    FirstCharacters(mem, i, n);
    if |s| >= 4 { TailCodePoints(mem, i, n); } else { FewCharacters(s); }
  }

  lemma FourUnitsOf(a: Char32, b: Char32, c: Char32, d: Char32, rest: seq<Char32>)
    requires a <= 0xFFFF && b <= 0xFFFF && c <= 0xFFFF && d <= 0xFFFF && CodePoints(rest)
    ensures var s := [a, b, c, d] + rest;
            CodePoints(s) && Units(s) == 4 + Units(rest) && EncodeAll(s) == [a, b, c, d] + EncodeAll(rest)
  {
    hide Units, EncodeAll;
    OneUnitOf(d, rest);
    OneUnitOf(c, [d] + rest);
    OneUnitOf(b, [c] + ([d] + rest));
    OneUnitOf(a, [b] + ([c] + ([d] + rest)));
    assert [a] + ([b] + ([c] + ([d] + rest))) == [a, b, c, d] + rest;
    assert [a] + ([b] + ([c] + ([d] + EncodeAll(rest)))) == [a, b, c, d] + EncodeAll(rest);
  }

  lemma OneUnitOf(c: Char32, rest: seq<Char32>)
    requires c <= 0xFFFF && CodePoints(rest)
    ensures var s := [c] + rest; CodePoints(s) && Units(s) == 1 + Units(rest) && EncodeAll(s) == [c] + EncodeAll(rest)
  {
    assert ([c] + rest)[1..] == rest;
  }

  /** What is written, from any character on. */
  lemma {:induction false} TakenMeans(mem: Memory, i: nat, n: nat, signed: bool)
    requires CodePoints(UpToZero(mem, i, n))
    ensures var s := UpToZero(mem, i, n);
            var w, end := Taken(mem, i, Units(s), signed), TakenEnd(mem, i, Units(s), signed);
            && (end == i + |s| <==> !Overruns(mem, i, n, signed))
            && (w == EncodeAll(s) <==> !Overruns(mem, i, n, signed) || Disguised(mem, i, n, signed))
            && (Overruns(mem, i, n, signed) && |s| < n ==> !Disguised(mem, i, n, signed))
    decreases n
  {
    hide Units, EncodeAll, Disguised, FourPass, LowFour, TakenSlowly, SlowEnd, CodePoints;
    var s := UpToZero(mem, i, n);
    if |s| >= 4 {
      ManyUnits(s);
      StepTaken(mem, i, n, signed);
      TailCodePoints(mem, i, n);
      if FourPass(mem, i, signed) {
        TakenMeans(mem, i + 4, n - 4, signed);
        FourTaken(mem, i, n, signed);
      } else {
        SlowlyRight(mem, i, n, signed);
      }
    } else if Units(s) >= 4 && FourPass(mem, i, signed) {
      StepTaken(mem, i, n, signed);
      OverrunTaken(mem, i, n, signed);
    } else {
      if Units(s) >= 4 { StepTaken(mem, i, n, signed); }
      SlowlyRight(mem, i, n, signed);
    }
  }

  lemma {:induction false} ManyUnits(s: seq<Char32>)
    ensures Units(s) >= |s|
  {
    if s != [] { ManyUnits(s[1..]); }
  }

  /** Four characters of one unit each are taken, and the same question is asked behind them. */
  lemma FourTaken(mem: Memory, i: nat, n: nat, signed: bool)
    requires n >= 4 && CodePoints(UpToZero(mem, i, n)) && CodePoints(UpToZero(mem, i + 4, n - 4))
             && FourPass(mem, i, signed)
    requires UpToZero(mem, i, n) == [mem(i), mem(i + 1), mem(i + 2), mem(i + 3)] + UpToZero(mem, i + 4, n - 4)
    requires mem(i) <= 0xFFFF && mem(i + 1) <= 0xFFFF && mem(i + 2) <= 0xFFFF && mem(i + 3) <= 0xFFFF
    ensures var s, rest := UpToZero(mem, i, n), UpToZero(mem, i + 4, n - 4);
            && Units(s) == 4 + Units(rest) && |s| == 4 + |rest|
            && TakenEnd(mem, i, Units(s), signed) == TakenEnd(mem, i + 4, Units(rest), signed)
            && (Taken(mem, i, Units(s), signed) == EncodeAll(s)
                <==> Taken(mem, i + 4, Units(rest), signed) == EncodeAll(rest))
            && (Overruns(mem, i, n, signed) <==> Overruns(mem, i + 4, n - 4, signed))
            && (Disguised(mem, i, n, signed) <==> Disguised(mem, i + 4, n - 4, signed))
  {
    hide FourPass;
    var s, rest := UpToZero(mem, i, n), UpToZero(mem, i + 4, n - 4);
    FourUnitsOf(mem(i), mem(i + 1), mem(i + 2), mem(i + 3), rest);
    var four := LowFour(mem, i);
    assert four == [mem(i), mem(i + 1), mem(i + 2), mem(i + 3)];
    SameFront(four, Taken(mem, i + 4, Units(rest), signed), EncodeAll(rest));
  }

  lemma SameFront(a: seq<Unit>, b: seq<Unit>, c: seq<Unit>)
    ensures a + b == a + c <==> b == c
  {
    assert (a + b)[|a|..] == b && (a + c)[|a|..] == c;
  }

  /** The overrun: four values are taken where fewer characters are left. */
  lemma OverrunTaken(mem: Memory, i: nat, n: nat, signed: bool)
    requires CodePoints(UpToZero(mem, i, n)) && |UpToZero(mem, i, n)| < 4 && Units(UpToZero(mem, i, n)) >= 4
    requires FourPass(mem, i, signed) && Overruns(mem, i, n, signed)
    ensures var s := UpToZero(mem, i, n);
            && TakenEnd(mem, i, Units(s), signed) > i + |s|
            && (Taken(mem, i, Units(s), signed) == EncodeAll(s) <==> Disguised(mem, i, n, signed))
            && (|s| < n ==> !Disguised(mem, i, n, signed))
  {
    hide FourPass;
    var s := UpToZero(mem, i, n);
    var k := Units(s);
    FewCharacters(s);
    FirstCharacters(mem, i, n);
    AtMostSix(s);
    assert Taken(mem, i, k, signed) == LowFour(mem, i) + Taken(mem, i + 4, k - 4, signed);
    assert Taken(mem, i + 4, k - 4, signed) == TakenSlowly(mem, i + 4, k - 4, signed);
    if |s| < n {
      assert |s| == 2 && mem(i + 2) == 0;
      TwoLarge(s);
      assert (LowFour(mem, i) + TakenSlowly(mem, i + 4, k - 4, signed))[2] == 0;
    }
  }

  lemma AtMostSix(s: seq<Char32>)
    requires |s| < 4
    ensures Units(s) < 8
  {
    if |s| > 0 { if |s| > 1 { if |s| > 2 { assert Units(s[1..][1..]) <= 2 + Units(s[1..][1..][1..]); } } }
  }

  lemma TwoLarge(s: seq<Char32>)
    requires |s| == 2 && s[0] > 0xFFFF && s[1] > 0xFFFF && CodePoints(s)
    ensures |EncodeAll(s)| == 4 && EncodeAll(s)[2] >= 0xD800
  {
    assert s[1..] == [s[1]] && s[1..][1..] == [];
    assert EncodeAll(s[1..]) == Encode(s[1]) + [];
    assert EncodeAll(s) == Encode(s[0]) + EncodeAll(s[1..]);
  }

  /** Given the size that was counted, the copy takes no value from behind the string exactly if
      it does not overrun; and it writes the encoding exactly if, besides, an overrun is not
      disguised, which it never is for a string that ends with a zero. */
  lemma CopyMeans(mem: Memory, n: nat, signed: bool)
    requires CodePoints(UpToZero(mem, 0, n))
    ensures var s := UpToZero(mem, 0, n);
            var w, end := Taken(mem, 0, Units(s), signed), TakenEnd(mem, 0, Units(s), signed);
            && (end == |s| <==> !Overruns(mem, 0, n, signed))
            && (w == EncodeAll(s) <==> !Overruns(mem, 0, n, signed) || Disguised(mem, 0, n, signed))
            && (|s| < n ==> (w == EncodeAll(s) <==> !Overruns(mem, 0, n, signed)))
  {
    TakenMeans(mem, 0, n, signed);
  }

  /** Unsigned characters never overrun: exactly the encoding is written. */
  lemma {:induction false} UnsignedNeverOverruns(mem: Memory, i: nat, n: nat)
    ensures !Overruns(mem, i, n, false)
    decreases n
  {
    if |UpToZero(mem, i, n)| >= 4 {
      TailCodePoints(mem, i, n);
      UnsignedNeverOverruns(mem, i + 4, n - 4);
    }
  }

  lemma UnsignedCopy(mem: Memory, n: nat)
    requires CodePoints(UpToZero(mem, 0, n))
    ensures var s := UpToZero(mem, 0, n); Taken(mem, 0, Units(s), false) == EncodeAll(s)
  {
    CopyMeans(mem, n, false);
    UnsignedNeverOverruns(mem, 0, n);
  }

  predicate AllSmall(s: seq<Char32>) {
    forall k :: 0 <= k < |s| ==> s[k] <= 0xFFFF
  }

  ghost predicate NegativeIn(mem: Memory, from: nat, to: nat) {
    exists p :: from <= p < to && Negative(mem(p))
  }

  /** When a string overruns, in one look: all full groups of four characters are small, the two
      or three characters behind them need at least four units, and one of the values up to the
      next multiple of four is negative. */
  lemma {:induction false} OverrunsMeans(mem: Memory, i: nat, n: nat, signed: bool)
    ensures var s := UpToZero(mem, i, n);
            var m := |s| / 4 * 4;
            Overruns(mem, i, n, signed) <==>
              signed && AllSmall(s[..m]) && Units(s[m..]) >= 4 && NegativeIn(mem, i + |s|, i + m + 4)
    decreases n
  {
    hide Negative, Units, AllSmall, NegativeIn;
    var s := UpToZero(mem, i, n);
    if |s| >= 4 {
      TailCodePoints(mem, i, n);
      OverrunsMeans(mem, i + 4, n - 4, signed);
      GroupSmall(s, UpToZero(mem, i + 4, n - 4));
    } else {
      assert s[0..] == s && s[..0] == [];
      FewCharacters(s);
      LastNegative(mem, i, |s|);
    }
  }

  lemma LastNegative(mem: Memory, i: nat, k: nat)
    requires k < 4
    ensures AllSmall([])
    ensures k >= 2 ==> (NegativeIn(mem, i + k, i + 4) <==> (k < 3 && Negative(mem(i + 2))) || Negative(mem(i + 3)))
  {
    hide Negative;
  }

  /** The groups of four behind the first one. */
  lemma GroupSmall(s: seq<Char32>, rest: seq<Char32>)
    requires |s| >= 4 && rest == s[4..]
    ensures var m := |s| / 4 * 4;
            && |rest| / 4 * 4 == m - 4 && s[m..] == rest[m - 4..]
            && (AllSmall(s[..m]) <==>
                  s[0] <= 0xFFFF && s[1] <= 0xFFFF && s[2] <= 0xFFFF && s[3] <= 0xFFFF && AllSmall(rest[..m - 4]))
  {
    var m := |s| / 4 * 4;
    assert s[..m] == [s[0], s[1], s[2], s[3]] + rest[..m - 4];
    SmallParts([s[0], s[1], s[2], s[3]], rest[..m - 4]);
  }

  lemma SmallParts(s: seq<Char32>, t: seq<Char32>)
    ensures AllSmall(s + t) <==> AllSmall(s) && AllSmall(t)
  {
    assert forall k :: 0 <= k < |t| ==> (s + t)[|s| + k] == t[k];
    assert forall k :: 0 <= k < |s| ==> (s + t)[k] == s[k];
  }

  /** A string of two large characters. */
  lemma TwoInMemory(mem: Memory, n: nat)
    requires 0xFFFF < mem(0) < 0x11_0000 && 0xFFFF < mem(1) < 0x11_0000 && (n == 2 || (n > 2 && mem(2) == 0))
    ensures UpToZero(mem, 0, n) == [mem(0), mem(1)] && CodePoints([mem(0), mem(1)]) && Units([mem(0), mem(1)]) == 4
    ensures EncodeAll([mem(0), mem(1)]) == Encode(mem(0)) + Encode(mem(1))
  {
    hide Encode;
    var s := [mem(0), mem(1)];
    assert UpToZero(mem, 2, n - 2) == [];
    assert UpToZero(mem, 1, n - 1) == [mem(1)] + UpToZero(mem, 2, n - 2);
    assert UpToZero(mem, 0, n) == [mem(0)] + UpToZero(mem, 1, n - 1) == s;
    assert s[1..] == [mem(1)] && s[1..][1..] == [];
    assert Units(s[1..]) == 2 + Units(s[1..][1..]);
    assert EncodeAll(s[1..]) == Encode(s[1]) + EncodeAll(s[1..][1..]);
  }

  /** Two large characters, the zero at their end, and a negative value behind it: instead of two
      pairs of surrogates, low halves are written. */
  lemma SignedCopyFails(mem: Memory, n: nat)
    requires n >= 3 && mem(0) == mem(1) == 0x1_0000 && mem(2) == 0 && Negative(mem(3))
    ensures var s := UpToZero(mem, 0, n);
            && s == [0x1_0000, 0x1_0000] && Units(s) == 4 && Overruns(mem, 0, n, true)
            && EncodeAll(s) == [0xD800, 0xDC00, 0xD800, 0xDC00]
            && Taken(mem, 0, 4, true) == [0, 0, 0, Low(mem(3))]
            && Taken(mem, 0, 4, false) == EncodeAll(s)
  {
    hide FourPass, Units, EncodeAll, UpToZero;
    TwoInMemory(mem, n);
    UnsignedCopy(mem, n);
    FourPassMeans(mem, 0, true);
    assert Taken(mem, 0, 4, true) == LowFour(mem, 0) + Taken(mem, 4, 0, true);
  }

  /** A string that does not end with a zero can overrun without showing it. */
  lemma DisguisedExample(mem: Memory)
    requires mem(0) == 0x1_D836 && mem(1) == 0x1_DC36 && mem(2) == 0x8000_D837 && mem(3) == 0x8000_DC36
    ensures UpToZero(mem, 0, 2) == [0x1_D836, 0x1_DC36] && Overruns(mem, 0, 2, true) && Disguised(mem, 0, 2, true)
  {
    hide Units, EncodeAll, UpToZero;
    TwoInMemory(mem, 2);
    assert Encode(mem(0)) + Encode(mem(1)) == LowFour(mem, 0);
    assert TakenSlowly(mem, 4, 0, true) == [];
  }
}
