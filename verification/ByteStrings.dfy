/** Big-endian byte strings as integers, and their conversion from and to limbs. */
module ByteStrings {
  import opened Bits
  import opened Arith
  import opened BigNum

  /** The integer that a big-endian byte string stands for (OS2IP of section 4.2 of RFC 8017). */
  function BeValue(s: seq<Byte>): nat {
    if s == [] then 0 else BeValue(s[..|s| - 1]) * 256 + s[|s| - 1]
  }

  lemma BytePower(k: nat)
    ensures Pow2(8 * (k + 1)) == 256 * Pow2(8 * k)
  {
    Pow2Add(8, 8 * k);
    assert Pow2(8) == 256;
  }

  lemma {:induction false} BePrepend(b: Byte, s: seq<Byte>)
    ensures BeValue([b] + s) == b * Pow2(8 * |s|) + BeValue(s)
  {
    var t := [b] + s;
    if s == [] {
      assert t[..0] == [] && Pow2(0) == 1;
    } else {
      var n := |s| - 1;
      assert t[..|t| - 1] == [b] + s[..n];
      BePrepend(b, s[..n]);
      hide Pow2;
      BytePower(n);
      MulAssoc(b, Pow2(8 * n), 256);
      Commute(Pow2(8 * n), 256);
    }
  }

  lemma {:induction false} BeConcat(s: seq<Byte>, t: seq<Byte>)
    ensures BeValue(s + t) == BeValue(s) * Pow2(8 * |t|) + BeValue(t)
  {
    if t == [] {
      assert s + t == s && Pow2(0) == 1;
    } else {
      var n := |t| - 1;
      assert (s + t)[..|s + t| - 1] == s + t[..n];
      BeConcat(s, t[..n]);
      hide Pow2;
      BytePower(n);
      MulAssoc(BeValue(s), Pow2(8 * n), 256);
      Commute(Pow2(8 * n), 256);
      Distribute(BeValue(s) * Pow2(8 * n), BeValue(t[..n]), 256);
    }
  }

  lemma {:induction false} BeBound(s: seq<Byte>)
    ensures BeValue(s) < Pow2(8 * |s|)
  {
    if s == [] {
      assert Pow2(0) == 1;
    } else {
      BeBound(s[..|s| - 1]);
      hide Pow2;
      BytePower(|s| - 1);
    }
  }

  /** Strings of one length are determined by their integers. */
  lemma {:induction false} BeInjective(s: seq<Byte>, t: seq<Byte>)
    requires |s| == |t| && BeValue(s) == BeValue(t)
    ensures s == t
  {
    if s != [] {
      var n := |s| - 1;
      BeInjective(s[..n], t[..n]);
      assert s == s[..n] + [s[n]] && t == t[..n] + [t[n]];
    }
  }

  /** No superfluous leading zero. */
  predicate Minimal(s: seq<Byte>) {
    |s| > 0 && s[0] != 0
  }

  lemma MinimalAtLeast(s: seq<Byte>)
    requires Minimal(s)
    ensures BeValue(s) >= Pow2(8 * (|s| - 1))
  {
    assert s == [s[0]] + s[1..];
    BePrepend(s[0], s[1..]);
    var p := Pow2(8 * (|s| - 1));
    MulMonotone(p, 1, s[0]);
    assert p * 1 == p;
    Commute(p, s[0]);
  }

  /** Strings without leading zero are determined by their integers. */
  lemma MinimalInjective(s: seq<Byte>, t: seq<Byte>)
    requires Minimal(s) && Minimal(t) && BeValue(s) == BeValue(t)
    ensures s == t
  {
    MinimalAtLeast(s);
    MinimalAtLeast(t);
    BeBound(s);
    BeBound(t);
    if |s| < |t| {
      Pow2Monotone(8 * |s|, 8 * (|t| - 1));
    } else if |t| < |s| {
      Pow2Monotone(8 * |t|, 8 * (|s| - 1));
    } else {
      BeInjective(s, t);
    }
  }

  lemma {:induction false} BeLeadingZeros(s: seq<Byte>, i: nat)
    requires i <= |s| && forall k :: 0 <= k < i ==> s[k] == 0
    ensures BeValue(s) == BeValue(s[i..])
  {
    if i > 0 {
      assert s == [0] + s[1..];
      BePrepend(0, s[1..]);
      BeLeadingZeros(s[1..], i - 1);
      assert s[1..][i - 1..] == s[i..];
    }
  }

  /** Adding to one limb. */
  lemma {:induction false} ValueUpdate(s: seq<Limb>, i: nat, v: Limb)
    requires i < |s|
    ensures Value(s[i := v]) == Value(s) + (v - s[i]) * Pow2(32 * i)
  {
    var n := |s| - 1;
    if i == n {
      assert s[i := v][..n] == s[..n];
      Distribute(s[i], v - s[i], Pow2(32 * i));
    } else {
      assert s[i := v][..n] == s[..n][i := v];
      ValueUpdate(s[..n], i, v);
    }
  }

  /** `bn_from_be_bytes`: bytes beyond the limbs are dropped. */
  method FromBeBytes(x: array<Limb>, l: nat, be: seq<Byte>)
    requires x.Length == l
    modifies x
    ensures Value(x[..]) == BeValue(be) % Pow2(32 * l)
  {
    hide Value, Pow2, BeValue, Or;
    Zero(x, l);
    var o := 0;
    LoadStart(l);
    assert be[|be|..] == [];
    for i := 0 to |be|
      invariant o == i
      invariant Value(x[..]) == BeValue(be[|be| - i..]) % Pow2(32 * l)
      invariant forall j :: 0 <= j < l && 4 * j >= i ==> x[j] == 0
      invariant i / 4 < l ==> x[i / 4] < Pow2(8 * (i % 4))
    {
      var bi := |be| - 1 - i;
      var wi, bo := o / 4, o % 4;
      ghost var s0, low := x[..], be[|be| - i..];
      assert be[bi..] == [be[bi]] + low;
      if wi < l {
        LoadByte(s0, low, be[bi]);
        x[wi] := Or(x[wi], Shl(be[bi], 8 * bo));
        assert x[..] == s0[wi := x[wi]];
      } else {
        DropByte(l, low, be[bi]);
      }
      o := o + 1;
    }
    assert be[0..] == be;
  }

  lemma LoadStart(l: nat)
    ensures BeValue([]) % Pow2(32 * l) == 0 && Pow2(0) == 1
  {
    ModSmall(0, Pow2(32 * l));
  }

  /** One more byte goes into the limb that it belongs to. */
  lemma LoadByte(s: seq<Limb>, low: seq<Byte>, b: Byte)
    requires |low| / 4 < |s|
    requires Value(s) == BeValue(low) % Pow2(32 * |s|)
    requires s[|low| / 4] < Pow2(8 * (|low| % 4))
    ensures var wi, bo := |low| / 4, |low| % 4;
            var v := Or(s[wi], Shl(b, 8 * bo));
            && v < LIMB
            && v < Pow2(8 * (bo + 1))
            && Value(s[wi := v]) == BeValue([b] + low) % Pow2(32 * |s|)
  {
    hide Value, Pow2, BeValue, Or;
    var o := |low|;
    var wi, bo := o / 4, o % 4;
    var p, d := Pow2(32 * wi), Pow2(8 * bo);
    OrDisjoint(s[wi], b, 8 * bo);
    var v := s[wi] + b * d;
    LoadedLimb(s[wi], b, bo);
    ValueUpdate(s, wi, v);
    Pow2Add(8 * bo, 32 * wi);
    MulAssoc(b, d, p);
    BePrepend(b, low);
    BeBound(low);
    BeBound([b] + low);
    Pow2Monotone(8 * o, 32 * |s|);
    Pow2Monotone(8 * (o + 1), 32 * |s|);
    ModSmall(BeValue(low), Pow2(32 * |s|));
    ModSmall(BeValue([b] + low), Pow2(32 * |s|));
  }

  lemma LoadedLimb(w: nat, b: Byte, bo: nat)
    requires bo < 4 && w < Pow2(8 * bo)
    ensures w + b * Pow2(8 * bo) < Pow2(8 * (bo + 1)) <= LIMB
  {
    hide Pow2;
    var d := Pow2(8 * bo);
    BytePower(bo);
    MulMonotone(d, (b as int) + 1, 256);
    Distribute(b, 1, d);
    Commute(d, (b as int) + 1);
    LimbIsFourBytes();
    Pow2Monotone(8 * (bo + 1), 32);
  }

  lemma LimbIsFourBytes()
    ensures Pow2(32) == LIMB && Pow2(8) == 256
  {
    Pow2Value31();
    assert Pow2(32) == 2 * Pow2(31);
  }

  /** A byte beyond the limbs does not count. */
  lemma DropByte(l: nat, low: seq<Byte>, b: Byte)
    requires |low| >= 4 * l
    ensures BeValue([b] + low) % Pow2(32 * l) == BeValue(low) % Pow2(32 * l)
  {
    hide Pow2, BeValue;
    BePrepend(b, low);
    Pow2Add(8 * |low| - 32 * l, 32 * l);
    MulAssoc(b, Pow2(8 * |low| - 32 * l), Pow2(32 * l));
    ModShift(BeValue(low), b * Pow2(8 * |low| - 32 * l), Pow2(32 * l));
  }

  /** `bn_to_be_bytes`: the lowest bytes. */
  method ToBeBytes(x: array<Limb>, l: nat, out: array<Byte>, outLen: nat)
    requires x.Length == l && out.Length == outLen
    modifies out
    ensures BeValue(out[..]) == Value(x[..]) % Pow2(8 * outLen)
  {
    hide Value, Pow2, BeValue, And;
    for i := 0 to outLen {
      out[i] := 0;
    }
    StoreStart(Value(x[..]));
    assert out[outLen..] == [];
    for i := 0 to outLen
      invariant BeValue(out[outLen - i..]) == Value(x[..]) % Pow2(8 * i)
    {
      var wi, bo := i / 4, i % 4;
      var v: Byte := 0;
      if wi < l {
        ByteAnd(x[wi] / Pow2(8 * bo));
        v := And(x[wi] / Pow2(8 * bo), 0xFF);
      }
      ghost var low := out[outLen - i..];
      StoreByte(x[..], low, i, v);
      out[outLen - 1 - i] := v;
      assert out[outLen - 1 - i..] == [v] + low;
    }
    assert out[..] == out[0..];
  }

  lemma ByteAnd(x: nat)
    ensures And(x, 0xFF) == x % 256
  {
    LimbIsFourBytes();
    AndMask(x, 8);
  }

  lemma StoreStart(v: nat)
    ensures v % Pow2(0) == 0 && BeValue([]) == 0
  {
    assert Pow2(0) == 1;
  }

  /** One more byte of the number. */
  lemma StoreByte(x: seq<Limb>, low: seq<Byte>, i: nat, v: Byte)
    requires |low| == i && BeValue(low) == Value(x) % Pow2(8 * i)
    requires v == if i / 4 < |x| then (x[i / 4] / Pow2(8 * (i % 4))) % 256 else 0
    ensures BeValue([v] + low) == Value(x) % Pow2(8 * (i + 1))
  {
    hide Value, Pow2, BeValue;
    var p := Pow2(8 * i);
    LimbIsFourBytes();
    assert (Value(x) / p) % 256 == v by {
      if i / 4 < |x| {
        DigitOfLimb(x, i / 4, 8 * (i % 4), 8);
        assert (i / 4) * 32 + 8 * (i % 4) == 8 * i;
      } else {
        ValueBound(x);
        Pow2Monotone(32 * |x|, 8 * i);
        ModSmall(Value(x), p);
      }
    }
    LowDigits(Value(x), p, 256);
    BytePower(i);
    Commute(p, 256);
    BePrepend(v, low);
  }

  // ---------------------------------------------------------------------------------------
  // Reading from a buffer
  // ---------------------------------------------------------------------------------------

  /** The byte at a position, or the one behind the buffer. */
  function ByteAt(buf: seq<Byte>, i: nat, beyond: Byte): Byte {
    if i < |buf| then buf[i] else beyond
  }

  predicate AllZero(s: seq<Byte>) {
    forall i :: 0 <= i < |s| ==> s[i] == 0
  }

  /** A big-endian integer without its leading zeros; if there is nothing else, the byte that
      follows it. */
  function Trimmed(buf: seq<Byte>, start: nat, len: nat, beyond: Byte): seq<Byte>
    requires start + len <= |buf|
    decreases len
  {
    if len == 0 then [ByteAt(buf, start, beyond)]
    else if buf[start] == 0 then Trimmed(buf, start + 1, len - 1, beyond)
    else buf[start..start + len]
  }

  lemma {:induction false} TrimmedMeans(buf: seq<Byte>, start: nat, len: nat, beyond: Byte)
    requires start + len <= |buf|
    ensures var s := buf[start..start + len];
            if AllZero(s) then Trimmed(buf, start, len, beyond) == [ByteAt(buf, start + len, beyond)]
            else Minimal(Trimmed(buf, start, len, beyond)) && BeValue(Trimmed(buf, start, len, beyond)) == BeValue(s)
    decreases len
  {
    if len > 0 && buf[start] == 0 {
      TrimmedMeans(buf, start + 1, len - 1, beyond);
      var s := buf[start..start + len];
      assert s[1..] == buf[start + 1..start + len];
      BeLeadingZeros(s, 1);
      if AllZero(s[1..]) {
        forall i | 0 <= i < |s| ensures s[i] == 0 { if i > 0 { assert s[1..][i - 1] == 0; } }
      } else {
        assert !AllZero(s) by {
          var k :| 0 <= k < |s[1..]| && s[1..][k] != 0;
          assert s[k + 1] != 0;
        }
      }
    } else if len > 0 {
      assert buf[start..start + len][0] != 0;
    }
  }

  /** A field of value zero passes the check for an empty number exactly when the byte behind it
      is not zero. */
  lemma ZeroTrimmed(buf: seq<Byte>, start: nat, len: nat, beyond: Byte)
    requires start + len <= |buf|
    ensures AllZero(Trimmed(buf, start, len, beyond)) <==>
              AllZero(buf[start..start + len]) && ByteAt(buf, start + len, beyond) == 0
  {
    TrimmedMeans(buf, start, len, beyond);
    var r, b := Trimmed(buf, start, len, beyond), ByteAt(buf, start + len, beyond);
    assert AllZero([b]) <==> b == 0 by { assert [b][0] == b; }
    assert Minimal(r) ==> r[0] != 0;
  }

  /** `trim_be`. */
  method Trim(buf: seq<Byte>, start: nat, len: nat, beyond: Byte) returns (out: seq<Byte>)
    requires start + len <= |buf|
    ensures out == Trimmed(buf, start, len, beyond)
  {
    var i := 0;
    while i < len && buf[start + i] == 0
      invariant i <= len
      invariant Trimmed(buf, start, len, beyond) == Trimmed(buf, start + i, len - i, beyond)
    {
      i := i + 1;
    }
    var n := if i == len then 1 else len - i;
    out := if i == len then [ByteAt(buf, start + i, beyond)] else buf[start + i..start + i + n];
  }

  /** `bn_check_nonzero`. */
  method CheckNonzero(x: seq<Byte>) returns (r: bool)
    ensures r <==> !AllZero(x)
  {
    for i := 0 to |x|
      invariant forall j :: 0 <= j < i ==> x[j] == 0
    {
      if x[i] != 0 {
        return true;
      }
    }
    return false;
  }

  /** Integers of a wire format: no leading zero, unless the highest bit would be set
      (section 5 of RFC 4251; section 8.3.2 of X.690 is the same for positive integers). */
  function SignedForm(s: seq<Byte>): seq<Byte>
    requires Minimal(s)
  {
    if s[0] >= 128 then [0] + s else s
  }

  lemma TrimSignedForm(buf: seq<Byte>, start: nat, s: seq<Byte>, beyond: Byte)
    requires Minimal(s) && start + |SignedForm(s)| <= |buf|
    requires buf[start..start + |SignedForm(s)|] == SignedForm(s)
    ensures Trimmed(buf, start, |SignedForm(s)|, beyond) == s
  {
    var f := SignedForm(s);
    assert buf[start] == f[0];
    if s[0] >= 128 {
      assert buf[start..start + |f|][1..] == buf[start + 1..start + |f|] == s;
      assert buf[start + 1] == s[0];
      assert Trimmed(buf, start + 1, |f| - 1, beyond) == buf[start + 1..start + |f|];
    }
  }

  /** The `k` lowest bytes of a number. */
  function ToBytes(v: nat, k: nat): (s: seq<Byte>)
    ensures |s| == k
  {
    if k == 0 then [] else ToBytes(v / 256, k - 1) + [v % 256]
  }

  lemma {:induction false} ToBytesOfValue(s: seq<Byte>)
    ensures ToBytes(BeValue(s), |s|) == s
  {
    if s != [] {
      var n := |s| - 1;
      var v := BeValue(s);
      assert v / 256 == BeValue(s[..n]) && v % 256 == s[n];
      ToBytesOfValue(s[..n]);
    }
  }

  lemma SliceOfSlice(s: seq<Byte>, base: nat, part: seq<Byte>, a: nat, b: nat)
    requires base + |part| <= |s| && s[base..base + |part|] == part && a <= b <= |part|
    ensures s[base + a..base + b] == part[a..b]
  {
    forall k | 0 <= k < b - a
      ensures s[base + a..base + b][k] == part[a..b][k]
    {
      assert s[base..base + |part|][a + k] == s[base + a + k];
    }
  }

  lemma Reassociate(a: seq<Byte>, b: seq<Byte>, c: seq<Byte>, d: seq<Byte>)
    ensures a + (b + c) + d == a + b + (c + d) == (a + b) + c + d
  {
  }
}
