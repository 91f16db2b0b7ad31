/** Private keys: the DER reader, and RSAPrivateKey (appendix A.1.2 of RFC 8017). */
module DerKey {
  import opened Common
  import opened Bits
  import opened Arith
  import opened BigNum
  import opened ByteStrings
  import Rsa

  const INTEGER: Byte := 0x02
  const SEQUENCE: Byte := 0x30

  /** A tag-length-value triple: its tag, and where its value is. */
  datatype Tlv = Tlv(tag: Byte, start: nat, len: nat) {
    function End(): nat { start + len }
  }

  /** Tag and length octets at a position (section 8.1 of X.690; length octets as in 8.1.3, at most
      four), and where the value has to be. */
  function HeadAt(s: seq<Byte>, i: nat): (r: Option<Tlv>)
    ensures r.Some? ==> i + 2 <= r.value.start <= |s| && s[i] == r.value.tag
  {
    if i + 1 >= |s| then None
    else
      var l := s[i + 1];
      var k := if l < 128 then 0 else l - 128;
      if (l >= 128 && (k == 0 || k > 4)) || i + 2 + k > |s| then None
      else Some(Tlv(s[i], i + 2 + k, if l < 128 then l else BeValue(s[i + 2..i + 2 + k])))
  }

  /** One octet below 128 is the length; otherwise one to four octets follow, as many as the octet is
      above 128, with the length in them, high octet first. */
  lemma HeadMeans(s: seq<Byte>, i: nat)
    ensures HeadAt(s, i).Some? <==>
              i + 2 <= |s| && (s[i + 1] < 128 || (129 <= s[i + 1] <= 132 && i + 2 + (s[i + 1] - 128) <= |s|))
    ensures i + 2 <= |s| && s[i + 1] < 128 ==> HeadAt(s, i) == Some(Tlv(s[i], i + 2, s[i + 1]))
    ensures i + 3 <= |s| && s[i + 1] == 129 ==> HeadAt(s, i) == Some(Tlv(s[i], i + 3, s[i + 2]))
    ensures i + 4 <= |s| && s[i + 1] == 130 ==>
              HeadAt(s, i) == Some(Tlv(s[i], i + 4, 256 * (s[i + 2] as nat) + s[i + 3]))
  {
    if i + 3 <= |s| && s[i + 1] == 129 { TwoOctets(s[i + 2..i + 3]); }
    if i + 4 <= |s| && s[i + 1] == 130 { TwoOctets(s[i + 2..i + 4]); }
  }

  lemma TwoOctets(s: seq<Byte>)
    ensures |s| == 1 ==> BeValue(s) == s[0]
    ensures |s| == 2 ==> BeValue(s) == 256 * (s[0] as nat) + s[1]
  {
    if |s| == 1 { assert s[..0] == []; }
    if |s| == 2 { assert s[..1][..0] == []; }
  }

  lemma HeadLength(s: seq<Byte>, i: nat)
    ensures HeadAt(s, i).Some? ==> HeadAt(s, i).value.len < LIMB
  {
    var r := HeadAt(s, i);
    if r.Some? && s[i + 1] >= 128 {
      var octets := s[i + 2..r.value.start];
      LimbIsFourBytes();
      BeBound(octets);
      Pow2Monotone(8 * |octets|, 32);
      hide BeValue, Pow2;
    }
  }

  /** The triple at a position. */
  function TlvAt(s: seq<Byte>, i: nat): (r: Option<Tlv>)
    ensures r.Some? ==> i + 2 <= r.value.start && r.value.End() <= |s|
  {
    var r := HeadAt(s, i);
    if r.None? || r.value.End() > |s| then None else r
  }

  // ---------------------------------------------------------------------------------------
  // The reader, on words of any width
  // ---------------------------------------------------------------------------------------

  /** What the reader does at a position: it fails, or it would read an octet that is not there, or
      it reads a triple and goes on at `next`. */
  datatype Step = Fails | Leaves | Reads(t: Tlv, next: nat)

  /** The operator `+` on words of `width` bits. */
  function Sum(x: nat, y: nat, width: nat): nat {
    (x + y) % Pow2(width)
  }

  /** The step at a position: `s` are the octets that are there, and `n` is how many the reader
      thinks there are. */
  function NextAt(s: seq<Byte>, n: nat, i: nat, width: nat): (r: Step)
    requires |s| <= n
  {
    if i >= n then Fails
    else if i >= |s| then Leaves
    else if i + 1 >= n then Fails
    else if i + 1 >= |s| then Leaves
    else
      var l := s[i + 1];
      var k := if l < 128 then 0 else l - 128;
      if (l >= 128 && (k == 0 || k > 4)) || i + 2 + k > n then Fails
      else if i + 2 + k > |s| then Leaves
      else
        var t := HeadAt(s, i).value;
        if Sum(t.start, t.len, width) > n then Fails else Reads(t, Sum(t.start, t.len, width))
  }

  /** `struct der`: a part of a buffer, and a cursor in it. The part may claim to be longer than the
      buffer. */
  class Der {
    const buf: seq<Byte>
    const p: nat
    const n: nat
    const width: nat
    var i: nat

    ghost predicate Valid()
      reads this
    {
      Sized(buf, width) && p <= |buf| && n < Pow2(width) && i <= n
    }

    /** The octets of the part that are there. */
    ghost function Shown(): (s: seq<Byte>)
      requires p <= |buf|
      ensures |s| <= n && p + |s| <= |buf| && s == buf[p..p + |s|]
    {
      if p + n <= |buf| then buf[p..p + n] else buf[p..]
    }

    constructor (buf: seq<Byte>, p: nat, n: nat, width: nat)
      requires Sized(buf, width) && p <= |buf| && n < Pow2(width)
      ensures Valid() && i == 0
      ensures this.buf == buf && this.p == p && this.n == n && this.width == width
    {
      this.buf, this.p, this.n, this.width, this.i := buf, p, n, width, 0;
    }

    /** `der_next_tlv`. If not `inside`, an octet behind the buffer would be read. */
    method Next() returns (inside: bool, ok: bool, tag: Byte, val: nat, vlen: nat)
      requires Valid()
      modifies this
      ensures Valid()
      ensures inside <==> !NextAt(Shown(), n, old(i), width).Leaves?
      ensures ok <==> NextAt(Shown(), n, old(i), width).Reads?
      ensures ok ==> var r := NextAt(Shown(), n, old(i), width);
                     tag == r.t.tag && val == p + r.t.start && vlen == r.t.len && i == r.next
    {
      hide BeValue, And, Pow2;
      inside, ok, tag, val, vlen := true, false, 0, 0, 0;
      if i >= n {
        return;
      }
      ghost var s, i0 := Shown(), i;
      if p + i >= |buf| {
        return false, false, tag, val, vlen;
      }
      tag := buf[p + i];
      i := i + 1;
      if i >= n {
        return;
      }
      if p + i >= |buf| {
        return false, false, tag, val, vlen;
      }
      var l := buf[p + i];
      i := i + 1;
      var len: nat := 0;
      HighBit(l);
      if And(l, 0x80) == 0 {
        len := l;
      } else {
        var ll := And(l, 0x7F);
        if ll == 0 || ll > 4 {
          return;
        }
        NoWrap(buf, width, p + i, ll);
        NoWrap(buf, width, i, ll);
        if Sum(i, ll, width) > n {
          return;
        }
        if p + i + ll > |buf| {
          return false, false, tag, val, vlen;
        }
        len := LengthOctets(ll);
      }
      if Sum(i, len, width) > n {
        return;
      }
      val := p + i;
      vlen := len;
      i := Sum(i, len, width);
      ok := true;
    }

    /** The loop over the length octets. */
    method LengthOctets(ll: nat) returns (len: nat)
      requires Valid() && i + ll <= n && p + i + ll <= |buf|
      modifies this
      ensures Valid() && i == old(i) + ll
      ensures len == BeValue(Shown()[old(i)..old(i) + ll])
    {
      hide BeValue, Or, Shl, Sized, Pow2;
      len := 0;
      ghost var s, i0 := Shown(), i;
      NoOctets();
      assert s[i0..i0] == [];
      for k := 0 to ll
        invariant i == i0 + k && len == BeValue(s[i0..i0 + k])
      {
        assert s[i0 + k] == buf[p + i];
        assert s[i0..i0 + k + 1] == s[i0..i0 + k] + [s[i0 + k]];
        NextOctet(s[i0..i0 + k], buf[p + i]);
        len := Or(Shl(len, 8), buf[p + i]);
        i := i + 1;
      }
    }
  }

  /** What a platform guarantees: words of at least 32 bits, and buffers of less than half of what
      they count. */
  ghost predicate Sized(buf: seq<Byte>, width: nat) {
    width >= 32 && |buf| < Pow2(width - 1)
  }

  lemma NoWrap(buf: seq<Byte>, width: nat, i: nat, k: nat)
    requires Sized(buf, width) && i <= |buf| && k <= 4
    ensures Sum(i, k, width) == i + k
  {
    Pow2Words();
    Pow2Monotone(31, width - 1);
    assert Pow2(width) == 2 * Pow2(width - 1);
    ModSmall(i + k, Pow2(width));
  }

  lemma NoOctets()
    ensures BeValue([]) == 0
  {
  }

  lemma NextOctet(s: seq<Byte>, b: Byte)
    ensures Or(Shl(BeValue(s), 8), b) == BeValue(s + [b])
  {
    assert (s + [b])[..|s|] == s;
    LimbIsFourBytes();
    OrCommutes(Shl(BeValue(s), 8), b);
    OrDisjoint(b, BeValue(s), 8);
  }

  lemma HighBit(l: Byte)
    ensures And(l, 0x80) == 0 <==> l < 128
    ensures And(l, 0x7F) == l % 128
  {
    assert Pow2(7) == 128;
    AndMask(l, 7);
    AndPowerOfTwo(l, 7);
  }

  /** A single bit is set or not. */
  lemma {:induction false} AndPowerOfTwo(x: nat, k: nat)
    ensures And(x, Pow2(k)) == 0 <==> (x / Pow2(k)) % 2 == 0
    decreases k
  {
    if x == 0 {
      ModSmall(0, Pow2(k));
    } else if k == 0 {
      assert And(x, 1) == (x % 2) * 1 + 2 * And(x / 2, 0);
    } else {
      var q := Pow2(k - 1);
      AndPowerOfTwo(x / 2, k - 1);
      assert Pow2(k) == 2 * q && Pow2(k) % 2 == 0 && Pow2(k) / 2 == q;
      assert (x % 2) * 0 == 0;
      DivDivides(x, 2, q);
    }
  }

  // ---------------------------------------------------------------------------------------
  // Writing and reading back one triple
  // ---------------------------------------------------------------------------------------

  /** The octets of a length, as few as possible in the long form. */
  function LengthBytes(v: nat): (s: seq<Byte>)
    ensures |s| == 0 <==> v == 0
  {
    if v == 0 then [] else LengthBytes(v / 256) + [v % 256]
  }

  lemma {:induction false} LengthBytesValue(v: nat, k: nat)
    requires v < Pow2(8 * k)
    ensures BeValue(LengthBytes(v)) == v && |LengthBytes(v)| <= k
    decreases v
  {
    if v > 0 {
      assert k > 0 by { assert Pow2(0) == 1; }
      BytePower(k - 1);
      LengthBytesValue(v / 256, k - 1);
      assert LengthBytes(v)[..|LengthBytes(v)| - 1] == LengthBytes(v / 256);
    }
  }

  /** Section 8.1.3 of X.690: short form below 128, otherwise the number of octets and they. */
  function WriteLength(v: nat): (s: seq<Byte>)
    requires v < LIMB
  {
    LengthFits(v);
    if v < 128 then [v] else [128 + |LengthBytes(v)|] + LengthBytes(v)
  }

  lemma LengthFits(v: nat)
    requires v < LIMB
    ensures |LengthBytes(v)| <= 4
  {
    LimbIsFourBytes();
    LengthBytesValue(v, 4);
  }

  function WriteTlv(tag: Byte, content: seq<Byte>): seq<Byte>
    requires |content| < LIMB
  {
    [tag] + WriteLength(|content|) + content
  }

  /** At position `i`, behind a tag, are length octets `w` and a content. */
  ghost predicate LiesAt(s: seq<Byte>, i: nat, w: seq<Byte>, content: seq<Byte>) {
    && i + 1 + |w| + |content| <= |s|
    && s[i + 1..i + 1 + |w|] == w
    && s[i + 1 + |w|..i + 1 + |w| + |content|] == content
  }

  lemma Layout(s: seq<Byte>, before: seq<Byte>, tag: Byte, w: seq<Byte>, content: seq<Byte>, after: seq<Byte>)
    requires s == before + ([tag] + w + content) + after
    ensures LiesAt(s, |before|, w, content) && s[|before|] == tag
  {
    var i := |before|;
    assert s[i + 1..i + 1 + |w|] == w;
    assert s[i + 1 + |w|..i + 1 + |w| + |content|] == content;
  }

  lemma ShortAt(s: seq<Byte>, i: nat, content: seq<Byte>)
    requires |content| < 128 && LiesAt(s, i, [|content| as Byte], content)
    ensures TlvAt(s, i) == Some(Tlv(s[i], i + 2, |content|))
  {
    hide BeValue;
    assert s[i + 1..i + 1 + 1][0] == s[i + 1];
  }

  lemma LongAt(s: seq<Byte>, i: nat, length: seq<Byte>, content: seq<Byte>, w: seq<Byte>)
    requires 0 < |length| <= 4 && BeValue(length) == |content| && w == [(128 + |length|) as Byte] + length
    requires LiesAt(s, i, w, content)
    ensures TlvAt(s, i) == Some(Tlv(s[i], i + 1 + |w|, |content|))
  {
    hide BeValue;
    assert s[i + 1..i + 1 + |w|][0] == s[i + 1];
    SliceOfSlice(s, i + 1, w, 1, 1 + |length|);
    assert w[1..1 + |length|] == length;
  }

  lemma WrittenAt(s: seq<Byte>, i: nat, content: seq<Byte>)
    requires |content| < LIMB && LiesAt(s, i, WriteLength(|content|), content)
    ensures TlvAt(s, i) == Some(Tlv(s[i], i + 1 + |WriteLength(|content|)|, |content|))
  {
    LimbIsFourBytes();
    LengthBytesValue(|content|, 4);
    hide BeValue, LengthBytes, TlvAt, LiesAt, Pow2;
    if |content| < 128 {
      ShortAt(s, i, content);
    } else {
      LongAt(s, i, LengthBytes(|content|), content, WriteLength(|content|));
    }
  }

  /** Reading at a written triple finds it. */
  lemma ReadsTlv(s: seq<Byte>, before: seq<Byte>, tag: Byte, content: seq<Byte>, after: seq<Byte>)
    requires |content| < LIMB && s == before + WriteTlv(tag, content) + after
    ensures var t := Tlv(tag, |before| + |WriteTlv(tag, content)| - |content|, |content|);
            TlvAt(s, |before|) == Some(t) && s[t.start..t.End()] == content
  {
    hide TlvAt, WriteLength, LiesAt;
    Layout(s, before, tag, WriteLength(|content|), content, after);
    WrittenAt(s, |before|, content);
    Contained(s, |before|, WriteLength(|content|), content);
  }

  lemma Contained(s: seq<Byte>, i: nat, w: seq<Byte>, content: seq<Byte>)
    requires LiesAt(s, i, w, content)
    ensures i + 1 + |w| + |content| <= |s| && s[i + 1 + |w|..i + 1 + |w| + |content|] == content
  {
  }

  // ---------------------------------------------------------------------------------------
  // A sequence of integers
  // ---------------------------------------------------------------------------------------

  /** Where the contents of `k` INTEGERs in a row are, from a position on. */
  function IntegersAt(s: seq<Byte>, i: nat, k: nat): (r: Option<seq<(nat, nat)>>)
    ensures r.Some? ==> |r.value| == k && forall j :: 0 <= j < k ==> r.value[j].0 + r.value[j].1 <= |s|
    decreases k
  {
    if k == 0 then Some([])
    else
      match TlvAt(s, i)
      case None => None
      case Some(t) =>
        if t.tag != INTEGER then None
        else
          match IntegersAt(s, t.End(), k - 1)
          case None => None
          case Some(rest) => Some([(t.start, t.len)] + rest)
  }

  /** The integers, written one after the other. */
  function WriteIntegers(xs: seq<seq<Byte>>): seq<Byte>
    requires forall x :: x in xs ==> |x| < LIMB
  {
    if xs == [] then [] else WriteTlv(INTEGER, xs[0]) + WriteIntegers(xs[1..])
  }

  /** The parts `r` of `s` are the contents `xs`. */
  ghost predicate Found(s: seq<Byte>, r: seq<(nat, nat)>, xs: seq<seq<Byte>>) {
    |r| == |xs| && forall j :: 0 <= j < |xs| ==> r[j].0 + r[j].1 <= |s| && s[r[j].0..r[j].0 + r[j].1] == xs[j]
  }

  lemma FoundFirst(s: seq<Byte>, t: (nat, nat), r: seq<(nat, nat)>, xs: seq<seq<Byte>>)
    requires xs != [] && t.0 + t.1 <= |s| && s[t.0..t.0 + t.1] == xs[0] && Found(s, r, xs[1..])
    ensures Found(s, [t] + r, xs)
  {
    forall j | 0 <= j < |xs|
      ensures ([t] + r)[j].0 + ([t] + r)[j].1 <= |s| && s[([t] + r)[j].0..([t] + r)[j].0 + ([t] + r)[j].1] == xs[j]
    {
      if j > 0 { assert xs[1..][j - 1] == xs[j]; }
    }
  }

  lemma FoundNone(s: seq<Byte>)
    ensures Found(s, [], [])
  {
  }

  lemma IntegersStep(s: seq<Byte>, i: nat, k: nat)
    requires k > 0 && TlvAt(s, i).Some? && TlvAt(s, i).value.tag == INTEGER
    ensures var t := TlvAt(s, i).value;
            var rest := IntegersAt(s, t.End(), k - 1);
            IntegersAt(s, i, k) == if rest.Some? then Some([(t.start, t.len)] + rest.value) else None
  {
  }

  /** One integer, then the rest. */
  lemma IntegersFirst(s: seq<Byte>, i: nat, xs: seq<seq<Byte>>)
    requires xs != [] && TlvAt(s, i).Some? && TlvAt(s, i).value.tag == INTEGER
    requires var t := TlvAt(s, i).value;
             && s[t.start..t.End()] == xs[0]
             && IntegersAt(s, t.End(), |xs| - 1).Some?
             && Found(s, IntegersAt(s, t.End(), |xs| - 1).value, xs[1..])
    ensures IntegersAt(s, i, |xs|).Some? && Found(s, IntegersAt(s, i, |xs|).value, xs)
  {
    hide TlvAt, IntegersAt, Found;
    IntegersStep(s, i, |xs|);
    var t := TlvAt(s, i).value;
    FoundFirst(s, (t.start, t.len), IntegersAt(s, t.End(), |xs| - 1).value, xs);
  }

  /** Reading a row of written integers finds the content of every one. */
  lemma {:induction false} ReadsIntegers(s: seq<Byte>, before: seq<Byte>, xs: seq<seq<Byte>>, after: seq<Byte>)
    requires forall x :: x in xs ==> |x| < LIMB
    requires s == before + WriteIntegers(xs) + after
    ensures var r := IntegersAt(s, |before|, |xs|);
            r.Some? && Found(s, r.value, xs)
    decreases |xs|
  {
    if xs == [] {
      FoundNone(s);
    } else {
      var w := WriteTlv(INTEGER, xs[0]);
      var rest := WriteIntegers(xs[1..]);
      assert WriteIntegers(xs) == w + rest;
      hide WriteTlv, WriteLength, TlvAt, IntegersAt, Found, WriteIntegers;
      Reassociate(before, w, rest, after);
      ReadsTlv(s, before, INTEGER, xs[0], rest + after);
      ReadsIntegers(s, before + w, xs[1..], after);
      IntegersFirst(s, |before|, xs);
    }
  }

  // ---------------------------------------------------------------------------------------
  // RSAPrivateKey
  // ---------------------------------------------------------------------------------------

  /** The content of the `j`-th integer of a key whose sequence starts at `base`. */
  function Field(der: seq<Byte>, base: nat, f: (nat, nat), beyond: Byte): seq<Byte>
    requires base + f.0 + f.1 <= |der|
  {
    Trimmed(der, base + f.0, f.1, beyond)
  }

  /** The key whose integers are at `f` behind `b`; the version is ignored. */
  function KeyFrom(der: seq<Byte>, b: nat, f: seq<(nat, nat)>, beyond: Byte): Option<Rsa.PrivateKey>
    requires |f| == 9 && b <= |der| && FieldsIn(der[b..], f)
  {
    var key := Rsa.PrivateKey(
      Field(der, b, f[1], beyond), Field(der, b, f[2], beyond), Field(der, b, f[3], beyond),
          Field(der, b, f[4], beyond),
      Field(der, b, f[5], beyond), Field(der, b, f[6], beyond), Field(der, b, f[7], beyond),
          Field(der, b, f[8], beyond));
    if AllZero(key.n) || AllZero(key.e) || AllZero(key.d) then None else Some(key)
  }

  /** All fields but the first one are in `s`. */
  predicate FieldsIn(s: seq<Byte>, f: seq<(nat, nat)>) {
    forall j :: 1 <= j < |f| ==> f[j].0 + f[j].1 <= |s|
  }

  /** The key that DER bytes hold: a sequence of a version and the eight integers. */
  function PrivateKeyOf(der: seq<Byte>, beyond: Byte): Option<Rsa.PrivateKey> {
    match TlvAt(der, 0)
    case None => None
    case Some(t) =>
      if t.tag != SEQUENCE then None
      else
        match IntegersAt(der[t.start..t.End()], 0, 9)
        case None => None
        case Some(f) => KeyFrom(der, t.start, f, beyond)
  }

  /** What the parser does: it rejects the bytes, or it would read behind the buffer, or it returns
      a key. */
  datatype Outcome = Rejected | Outside | Accepted(key: Rsa.PrivateKey)

  function Verdict(key: Option<Rsa.PrivateKey>): Outcome {
    if key.None? then Rejected else Accepted(key.value)
  }

  /** A row of integers: one is missing, or the reader leaves the buffer, or they are at `f`. */
  datatype Row = NoRow | OutsideRow | Fields(f: seq<(nat, nat)>)

  /** The last `k` of nine integers, of which the first one, the version, is not looked at. */
  function RowAt(s: seq<Byte>, n: nat, i: nat, k: nat, width: nat): (r: Row)
    requires |s| <= n && k <= 9
    ensures r.Fields? ==> |r.f| == k && FieldsIn(s, r.f) && (0 < k < 9 ==> r.f[0].0 + r.f[0].1 <= |s|)
    decreases k
  {
    if k == 0 then Fields([])
    else
      match NextAt(s, n, i, width)
      case Fails => NoRow
      case Leaves => OutsideRow
      case Reads(t, next) =>
        if t.tag != INTEGER then NoRow
        else if k < 9 && t.End() > |s| then OutsideRow
        else
          match RowAt(s, n, next, k - 1, width)
          case Fields(rest) => Fields([(t.start, t.len)] + rest)
          case r => r
  }

  /** The part of a buffer that begins at `b` and claims to have `n` octets, as far as it is there. */
  function Claimed(der: seq<Byte>, b: nat, n: nat): (s: seq<Byte>)
    requires b <= |der|
    ensures |s| <= n && b + |s| <= |der| && s == der[b..b + |s|]
  {
    if b + n <= |der| then der[b..b + n] else der[b..]
  }

  /** What the parser does on words of `width` bits. */
  function OutcomeOf(der: seq<Byte>, beyond: Byte, width: nat): Outcome {
    match NextAt(der, |der|, 0, width)
    case Fails => Rejected
    case Leaves => Outside
    case Reads(t, _) =>
      if t.tag != SEQUENCE then Rejected
      else
        RowOutcome(RowAt(Claimed(der, t.start, t.len), t.len, 0, 9, width), der, t.start, beyond)
  }

  function RowOutcome(row: Row, der: seq<Byte>, b: nat, beyond: Byte): Outcome
    requires b <= |der| && (row.Fields? ==> |row.f| == 9 && FieldsIn(der[b..], row.f))
  {
    match row
    case NoRow => Rejected
    case OutsideRow => Outside
    case Fields(f) => Verdict(KeyFrom(der, b, f, beyond))
  }

  /** Reading has come to position `i`, where the last `k` of the nine integers are still to come. */
  ghost predicate Progress(s: seq<Byte>, n: nat, width: nat, i: nat, k: nat)
    requires |s| <= n
  {
    && k <= 9
    && var all, rest := RowAt(s, n, 0, 9, width), RowAt(s, n, i, k, width);
       && (all.NoRow? <==> rest.NoRow?)
       && (all.OutsideRow? <==> rest.OutsideRow?)
       && (all.Fields? ==> all.f[9 - k..] == rest.f)
  }

  lemma RowStep(s: seq<Byte>, n: nat, i: nat, k: nat, width: nat)
    requires |s| <= n && 0 < k <= 9
    ensures var step, row := NextAt(s, n, i, width), RowAt(s, n, i, k, width);
            && (step.Fails? ==> row.NoRow?)
            && (step.Leaves? ==> row.OutsideRow?)
            && (step.Reads? && step.t.tag != INTEGER ==> row.NoRow?)
            && (step.Reads? && step.t.tag == INTEGER && k < 9 && step.t.End() > |s| ==> row.OutsideRow?)
            && (step.Reads? && step.t.tag == INTEGER && (k == 9 || step.t.End() <= |s|) ==>
                  var rest := RowAt(s, n, step.next, k - 1, width);
                  row == if rest.Fields? then Fields([(step.t.start, step.t.len)] + rest.f) else rest)
  {
    hide NextAt;
  }

  lemma ProgressNext(s: seq<Byte>, n: nat, width: nat, i: nat, k: nat)
    requires |s| <= n && Progress(s, n, width, i, k) && k > 0
    ensures var step, all := NextAt(s, n, i, width), RowAt(s, n, 0, 9, width);
            && (step.Fails? || (step.Reads? && step.t.tag != INTEGER) ==> all.NoRow?)
            && (step.Leaves? ==> all.OutsideRow?)
            && (step.Reads? && step.t.tag == INTEGER && k < 9 && step.t.End() > |s| ==> all.OutsideRow?)
            && (step.Reads? && step.t.tag == INTEGER && (k == 9 || step.t.End() <= |s|) ==>
                  && Progress(s, n, width, step.next, k - 1)
                  && (all.Fields? ==> all.f[9 - k] == (step.t.start, step.t.len)))
  {
    RowStep(s, n, i, k, width);
    var step, all := NextAt(s, n, i, width), RowAt(s, n, 0, 9, width);
    hide RowAt, NextAt;
    if step.Reads? && all.Fields? {
      assert all.f[9 - k..][0] == all.f[9 - k];
      assert all.f[9 - k..][1..] == all.f[9 - (k - 1)..];
    }
  }

  lemma ProgressDone(s: seq<Byte>, n: nat, width: nat, i: nat)
    requires |s| <= n && Progress(s, n, width, i, 0)
    ensures RowAt(s, n, 0, 9, width).Fields?
  {
  }

  lemma ProgressStart(s: seq<Byte>, n: nat, width: nat)
    requires |s| <= n
    ensures Progress(s, n, width, 0, 9)
  {
    hide RowAt;
  }

  /** What comes of one field. */
  datatype Part = Missing | Behind | Integer(bytes: seq<Byte>)

  function Failure(p: Part): Outcome {
    if p.Behind? then Outside else Rejected
  }

  /** What a row says about one of its fields, in a buffer from `base` on. */
  ghost predicate Follows(r: Part, all: Row, j: nat, buf: seq<Byte>, base: nat, beyond: Byte) {
    match r
    case Missing => all.NoRow?
    case Behind => all.OutsideRow?
    case Integer(bytes) => all.Fields? ==> j < |all.f| && IsField(bytes, all.f[j], buf, base, beyond)
  }

  ghost predicate IsField(bytes: seq<Byte>, f: (nat, nat), buf: seq<Byte>, base: nat, beyond: Byte) {
    base + f.0 + f.1 <= |buf| && bytes == Field(buf, base, f, beyond)
  }

  lemma NothingFollows(all: Row, j: nat, buf: seq<Byte>, base: nat, beyond: Byte)
    ensures all.NoRow? ==> Follows(Missing, all, j, buf, base, beyond)
    ensures all.OutsideRow? ==> Follows(Behind, all, j, buf, base, beyond)
  {
  }

  lemma FieldFollows(all: Row, j: nat, t: Tlv, bytes: seq<Byte>, buf: seq<Byte>, base: nat, beyond: Byte)
    requires all.Fields? ==> j < |all.f| && all.f[j] == (t.start, t.len)
    requires base + t.End() <= |buf| && bytes == Trimmed(buf, base + t.start, t.len, beyond)
    ensures Follows(Integer(bytes), all, j, buf, base, beyond)
  {
    hide Trimmed;
  }

  /** The check for the version, whose value is not read. */
  method NextVersion(s: Der) returns (r: Part)
    requires s.Valid() && s.i == 0
    modifies s
    ensures s.Valid()
    ensures r.Missing? ==> RowAt(s.Shown(), s.n, 0, 9, s.width).NoRow?
    ensures r.Behind? ==> RowAt(s.Shown(), s.n, 0, 9, s.width).OutsideRow?
    ensures r.Integer? ==> Progress(s.Shown(), s.n, s.width, s.i, 8)
  {
    hide NextAt, Progress, RowAt, Pow2, Sized;
    ProgressStart(s.Shown(), s.n, s.width);
    ProgressNext(s.Shown(), s.n, s.width, 0, 9);
    var inside, found, tag, val, vlen := s.Next();
    if !inside {
      return Behind;
    }
    if !found || tag != INTEGER {
      return Missing;
    }
    r := Integer([]);
  }

  /** One "missing" check of the key parser: the next integer, without its leading zeros. */
  method NextInteger(s: Der, beyond: Byte, ghost k: nat) returns (r: Part)
    requires s.Valid() && 0 < k < 9 && Progress(s.Shown(), s.n, s.width, s.i, k)
    modifies s
    ensures s.Valid()
    ensures Follows(r, RowAt(s.Shown(), s.n, 0, 9, s.width), 9 - k, s.buf, s.p, beyond)
    ensures r.Integer? ==> Progress(s.Shown(), s.n, s.width, s.i, k - 1)
  {
    hide NextAt, Trimmed, Progress, RowAt, Field, IsField, Pow2, Sized, Sum, Follows, And, BeValue;
    ghost var all, t := RowAt(s.Shown(), s.n, 0, 9, s.width), NextAt(s.Shown(), s.n, s.i, s.width);
    ProgressNext(s.Shown(), s.n, s.width, s.i, k);
    var inside, found, tag, val, vlen := s.Next();
    NothingFollows(all, 9 - k, s.buf, s.p, beyond);
    if !inside {
      return Behind;
    }
    if !found {
      return Missing;
    }
    if tag != INTEGER {
      return Missing;
    }
    if val + vlen > |s.buf| {
      return Behind;
    }
    ValueThere(s.Shown(), s.n, old(s.i), s.width, s.buf, s.p);
    var bytes := Trim(s.buf, val, vlen, beyond);
    FieldFollows(all, 9 - k, t.t, bytes, s.buf, s.p, beyond);
    r := Integer(bytes);
  }

  /** A value that ends in the buffer ends in the part. */
  lemma ValueThere(s: seq<Byte>, n: nat, i: nat, width: nat, buf: seq<Byte>, p: nat)
    requires |s| <= n && NextAt(s, n, i, width).Reads?
    requires Sized(buf, width) && p + NextAt(s, n, i, width).t.End() <= |buf|
    ensures NextAt(s, n, i, width).t.End() == NextAt(s, n, i, width).next <= n
  {
    WholeCount(buf, width);
    var t := NextAt(s, n, i, width).t;
    ModSmall(t.End(), Pow2(width));
    hide BeValue, Pow2;
  }

  /** The nine fields of `parse_private_key_pem`, and the checks behind them. */
  method ParseFields(s: Der, beyond: Byte) returns (r: Outcome)
    requires s.Valid() && s.i == 0
    modifies s
    ensures var row := RowAt(s.Shown(), s.n, 0, 9, s.width);
            && (row.Fields? ==> FieldsIn(s.buf[s.p..], row.f))
            && r == RowOutcome(row, s.buf, s.p, beyond)
  {
    hide NextAt, Trimmed, Progress, RowAt, Field, AllZero, Pow2, Sized;
    assert s.p + |s.Shown()| <= |s.buf|;
    var version := NextVersion(s);
    if !version.Integer? { return Failure(version); }
    var n := NextInteger(s, beyond, 8);
    if !n.Integer? { return Failure(n); }
    var e := NextInteger(s, beyond, 7);
    if !e.Integer? { return Failure(e); }
    var dd := NextInteger(s, beyond, 6);
    if !dd.Integer? { return Failure(dd); }
    var p := NextInteger(s, beyond, 5);
    if !p.Integer? { return Failure(p); }
    var q := NextInteger(s, beyond, 4);
    if !q.Integer? { return Failure(q); }
    var dp := NextInteger(s, beyond, 3);
    if !dp.Integer? { return Failure(dp); }
    var dq := NextInteger(s, beyond, 2);
    if !dq.Integer? { return Failure(dq); }
    var qi := NextInteger(s, beyond, 1);
    if !qi.Integer? { return Failure(qi); }
    ProgressDone(s.Shown(), s.n, s.width, s.i);
    var nonzeroN := CheckNonzero(n.bytes);
    if !nonzeroN { return Rejected; }
    var nonzeroE := CheckNonzero(e.bytes);
    if !nonzeroE { return Rejected; }
    var nonzeroD := CheckNonzero(dd.bytes);
    if !nonzeroD { return Rejected; }
    return Accepted(Rsa.PrivateKey(n.bytes, e.bytes, dd.bytes, p.bytes, q.bytes, dp.bytes, dq.bytes, qi.bytes));
  }

  /** The DER part of `parse_private_key_pem`. */
  method ParseDer(der: seq<Byte>, beyond: Byte, width: nat) returns (r: Outcome)
    requires Sized(der, width)
    ensures r == OutcomeOf(der, beyond, width)
  {
    hide NextAt, RowAt, KeyFrom, Pow2, Sized;
    WholeCount(der, width);
    var d := new Der(der, 0, |der|, width);
    assert d.Shown() == der;
    var inside, found, tag, val, vlen := d.Next();
    if !inside {
      return Outside;
    }
    if !found {
      return Rejected;
    }
    if tag != SEQUENCE {
      return Rejected;
    }
    ReadHead(der, |der|, 0, width);
    var s := new Der(der, val, vlen, width);
    assert s.Shown() == Claimed(der, val, vlen);
    r := ParseFields(s, beyond);
  }

  lemma WholeCount(der: seq<Byte>, width: nat)
    requires Sized(der, width)
    ensures |der| < Pow2(width) && LIMB <= Pow2(width)
  {
    Pow2Words();
    Pow2Monotone(32, width);
    Pow2Monotone(width - 1, width);
  }

  /** The value of a triple that is read starts in the buffer, and its length is a word. */
  lemma ReadHead(s: seq<Byte>, n: nat, i: nat, width: nat)
    requires |s| <= n && NextAt(s, n, i, width).Reads?
    ensures var t := NextAt(s, n, i, width).t; HeadAt(s, i) == Some(t) && i + 2 <= t.start <= |s| && t.len < LIMB
    ensures var r := NextAt(s, n, i, width); r.next == Sum(r.t.start, r.t.len, width) <= n
  {
    hide BeValue, Sum;
    HeadLength(s, i);
  }

  // ---------------------------------------------------------------------------------------
  // Writing a key
  // ---------------------------------------------------------------------------------------

  /** The eight integers of a key. */
  function Integers(key: Rsa.PrivateKey): (xs: seq<seq<Byte>>)
    ensures |xs| == 8
  {
    [key.n, key.e, key.d, key.p, key.q, key.dp, key.dq, key.qinv]
  }

  predicate Writable(key: Rsa.PrivateKey) {
    forall i :: 0 <= i < 8 ==> Minimal(Integers(key)[i]) && |Integers(key)[i]| < 0x0100_0000
  }

  /** The contents of the nine INTEGERs: version 0 and the integers. */
  function Contents(key: Rsa.PrivateKey): (xs: seq<seq<Byte>>)
    requires Writable(key)
    ensures |xs| == 9 && xs[0] == [0] && forall i :: 0 <= i < 8 ==> xs[i + 1] == SignedForm(Integers(key)[i])
    ensures forall x :: x in xs ==> |x| <= 0x0100_0000
  {
    [[0]] + seq<seq<Byte>>(8, i requires 0 <= i < 8 => SignedForm(Integers(key)[i]))
  }

  lemma {:induction false} IntegersLength(xs: seq<seq<Byte>>)
    requires forall x :: x in xs ==> |x| <= 0x0100_0000
    ensures |WriteIntegers(xs)| <= |xs| * 0x0100_0010
  {
    if xs != [] {
      IntegersLength(xs[1..]);
      LengthFits(|xs[0]|);
    }
  }

  function WriteKey(key: Rsa.PrivateKey): seq<Byte>
    requires Writable(key)
  {
    IntegersLength(Contents(key));
    WriteTlv(SEQUENCE, WriteIntegers(Contents(key)))
  }

  /** Reading a written key gives it back, whatever follows it. */
  lemma KeyRoundTrip(key: Rsa.PrivateKey, after: seq<Byte>, beyond: Byte)
    requires Writable(key)
    ensures PrivateKeyOf(WriteKey(key) + after, beyond) == Some(key)
  {
    var xs := Contents(key);
    IntegersLength(xs);
    var content := WriteIntegers(xs);
    hide WriteTlv, TlvAt, IntegersAt, WriteIntegers, Contents, Found, PrivateKeyOf, Writable;
    SequenceReads(content, xs, after);
    FieldsRead(WriteKey(key) + after, TlvAt(WriteKey(key) + after, 0).value, content, key, beyond);
  }

  /** A sequence of integers is read back. */
  lemma SequenceReads(content: seq<Byte>, xs: seq<seq<Byte>>, after: seq<Byte>)
    requires (forall x :: x in xs ==> |x| < LIMB) && content == WriteIntegers(xs) && |content| < LIMB
    ensures var t := TlvAt(WriteTlv(SEQUENCE, content) + after, 0);
            && t.Some? && t.value.tag == SEQUENCE
            && (WriteTlv(SEQUENCE, content) + after)[t.value.start..t.value.End()] == content
    ensures IntegersAt(content, 0, |xs|).Some? && Found(content, IntegersAt(content, 0, |xs|).value, xs)
  {
    hide WriteTlv, TlvAt, IntegersAt, WriteIntegers, Found;
    Surrounded(WriteTlv(SEQUENCE, content), after);
    ReadsTlv(WriteTlv(SEQUENCE, content) + after, [], SEQUENCE, content, after);
    Surrounded(content, []);
    ReadsIntegers(content, [], xs, []);
  }

  lemma Surrounded(s: seq<Byte>, after: seq<Byte>)
    ensures [] + s + after == s + after && s + [] == s
  {
  }

  lemma FieldsRead(der: seq<Byte>, t: Tlv, content: seq<Byte>, key: Rsa.PrivateKey, beyond: Byte)
    requires TlvAt(der, 0) == Some(t) && t.tag == SEQUENCE && der[t.start..t.End()] == content
    requires Writable(key) && IntegersAt(content, 0, 9).Some?
             && Found(content, IntegersAt(content, 0, 9).value, Contents(key))
    ensures PrivateKeyOf(der, beyond) == Some(key)
  {
    var f := IntegersAt(content, 0, 9).value;
    hide TlvAt, IntegersAt, Contents, Found, Writable, PrivateKeyOf, FieldsAre;
    FieldsGood(der, t.start, content, f, key, beyond);
    Assembled(der, t, f, key, beyond);
  }

  /** The places `f` hold the integers of the key. */
  ghost predicate FieldsAre(der: seq<Byte>, base: nat, f: seq<(nat, nat)>, key: Rsa.PrivateKey, beyond: Byte) {
    |f| == 9 && forall i :: 0 <= i < 8 ==>
      && base + f[i + 1].0 + f[i + 1].1 <= |der|
      && Field(der, base, f[i + 1], beyond) == Integers(key)[i]
      && !AllZero(Integers(key)[i])
  }

  lemma FieldsGood(der: seq<Byte>, base: nat, part: seq<Byte>, f: seq<(nat, nat)>, key: Rsa.PrivateKey, beyond: Byte)
    requires base + |part| <= |der| && der[base..base + |part|] == part
    requires Writable(key) && Found(part, f, Contents(key))
    ensures FieldsAre(der, base, f, key, beyond)
  {
    assert |f| == 9;
    hide Writable, Contents, Found, Integers, SignedForm, Field, AllZero, Minimal;
    forall i | 0 <= i < 8
      ensures base + f[i + 1].0 + f[i + 1].1 <= |der|
      ensures Field(der, base, f[i + 1], beyond) == Integers(key)[i] && !AllZero(Integers(key)[i])
    {
      FieldGood(der, base, part, f, key, i, beyond);
    }
  }

  lemma FieldGood(der: seq<Byte>, base: nat, part: seq<Byte>, f: seq<(nat, nat)>, key: Rsa.PrivateKey, i: nat,
                  beyond: Byte)
    requires base + |part| <= |der| && der[base..base + |part|] == part
    requires Writable(key) && Found(part, f, Contents(key)) && i < 8 && |f| == 9
    ensures base + f[i + 1].0 + f[i + 1].1 <= |der|
    ensures Field(der, base, f[i + 1], beyond) == Integers(key)[i] && !AllZero(Integers(key)[i])
  {
    WritableAt(key, i);
    FoundAt(part, f, Contents(key), i + 1);
    var g, x := f[i + 1], Integers(key)[i];
    hide Writable, Contents, Found, Integers, SignedForm, Field, AllZero, Minimal;
    FieldReads(der, base, part, g, x, beyond);
  }

  lemma Assembled(der: seq<Byte>, t: Tlv, f: seq<(nat, nat)>, key: Rsa.PrivateKey, beyond: Byte)
    requires TlvAt(der, 0) == Some(t) && t.tag == SEQUENCE && IntegersAt(der[t.start..t.End()], 0, 9) == Some(f)
    requires FieldsAre(der, t.start, f, key, beyond)
    ensures PrivateKeyOf(der, beyond) == Some(key)
  {
    hide TlvAt, IntegersAt, KeyFrom, FieldsAre;
    KeyAssembled(der, t.start, f, key, beyond);
  }

  lemma KeyAssembled(der: seq<Byte>, b: nat, f: seq<(nat, nat)>, key: Rsa.PrivateKey, beyond: Byte)
    requires FieldsAre(der, b, f, key, beyond) && b <= |der| && FieldsIn(der[b..], f)
    ensures KeyFrom(der, b, f, beyond) == Some(key)
  {
    hide Field, AllZero;
    assert Field(der, b, f[0 + 1], beyond) == key.n && !AllZero(key.n) by { assert Integers(key)[0] == key.n; }
    assert Field(der, b, f[1 + 1], beyond) == key.e && !AllZero(key.e) by { assert Integers(key)[1] == key.e; }
    assert Field(der, b, f[2 + 1], beyond) == key.d && !AllZero(key.d) by { assert Integers(key)[2] == key.d; }
    assert Field(der, b, f[3 + 1], beyond) == key.p by { assert Integers(key)[3] == key.p; }
    assert Field(der, b, f[4 + 1], beyond) == key.q by { assert Integers(key)[4] == key.q; }
    assert Field(der, b, f[5 + 1], beyond) == key.dp by { assert Integers(key)[5] == key.dp; }
    assert Field(der, b, f[6 + 1], beyond) == key.dq by { assert Integers(key)[6] == key.dq; }
    assert Field(der, b, f[7 + 1], beyond) == key.qinv by { assert Integers(key)[7] == key.qinv; }
  }

  lemma NotAllZero(s: seq<Byte>)
    requires Minimal(s)
    ensures !AllZero(s)
  {
    assert s[0] != 0;
  }

  lemma FieldReads(der: seq<Byte>, base: nat, part: seq<Byte>, g: (nat, nat), x: seq<Byte>, beyond: Byte)
    requires base + |part| <= |der| && der[base..base + |part|] == part
    requires Minimal(x) && g.1 == |SignedForm(x)| && g.0 + g.1 <= |part|
    requires part[g.0..g.0 + g.1] == SignedForm(x)
    ensures Field(der, base, g, beyond) == x && !AllZero(x)
  {
    hide SignedForm, Trimmed, AllZero, Minimal;
    SliceOfSlice(der, base, part, g.0, g.0 + g.1);
    TrimSignedForm(der, base + g.0, x, beyond);
    NotAllZero(x);
  }

  lemma WritableAt(key: Rsa.PrivateKey, i: nat)
    requires Writable(key) && i < 8
    ensures Minimal(Integers(key)[i]) && Contents(key)[i + 1] == SignedForm(Integers(key)[i])
  {
  }

  lemma FoundAt(s: seq<Byte>, f: seq<(nat, nat)>, xs: seq<seq<Byte>>, j: nat)
    requires Found(s, f, xs) && j < |xs|
    ensures |f| == |xs| && f[j].1 == |xs[j]| && f[j].0 + f[j].1 <= |s| && s[f[j].0..f[j].0 + f[j].1] == xs[j]
  {
  }

  // ---------------------------------------------------------------------------------------
  // Integers of value zero
  // ---------------------------------------------------------------------------------------

  /** The nine triples that the parser asks for. */
  predicate HasNineIntegers(der: seq<Byte>) {
    var t := TlvAt(der, 0);
    t.Some? && t.value.tag == SEQUENCE && IntegersAt(der[t.value.start..t.value.End()], 0, 9).Some?
  }

  /** Behind every integer of a row but the last one is the tag of the next. */
  lemma {:induction false} TagBehind(s: seq<Byte>, i: nat, k: nat, j: nat)
    requires IntegersAt(s, i, k).Some? && j + 1 < k
    ensures var f := IntegersAt(s, i, k).value[j]; f.0 + f.1 < |s| && s[f.0 + f.1] == INTEGER
    decreases k
  {
    IntegersTag(s, i, k);
    IntegersStep(s, i, k);
    var t := TlvAt(s, i).value;
    hide TlvAt, IntegersAt;
    if j == 0 {
      IntegersTag(s, t.End(), k - 1);
      TagThere(s, t.End());
    } else {
      TagBehind(s, t.End(), k - 1, j - 1);
    }
  }

  lemma IntegersTag(s: seq<Byte>, i: nat, k: nat)
    requires IntegersAt(s, i, k).Some? && k > 0
    ensures TlvAt(s, i).Some? && TlvAt(s, i).value.tag == INTEGER
  {
  }

  lemma TagThere(s: seq<Byte>, i: nat)
    requires TlvAt(s, i).Some?
    ensures i < |s| && s[i] == TlvAt(s, i).value.tag
  {
    hide BeValue;
  }

  /** So an integer of value zero is read as that tag, and no integer but the last one is zero. */
  lemma FieldBeforeAnother(der: seq<Byte>, beyond: Byte, j: nat)
    requires HasNineIntegers(der) && j < 8
    ensures var t := TlvAt(der, 0).value;
            var f := IntegersAt(der[t.start..t.End()], 0, 9).value[j];
            && t.start + f.0 + f.1 <= |der|
            && !AllZero(Field(der, t.start, f, beyond))
            && (AllZero(der[t.start..t.End()][f.0..f.0 + f.1]) ==> Field(der, t.start, f, beyond) == [INTEGER])
  {
    hide TlvAt, IntegersAt, Field, AllZero;
    var t := TlvAt(der, 0).value;
    var part := der[t.start..t.End()];
    TagBehind(part, 0, 9, j);
    FieldBefore(der, t.start, part, IntegersAt(part, 0, 9).value[j], beyond);
  }

  lemma FieldBefore(der: seq<Byte>, base: nat, part: seq<Byte>, f: (nat, nat), beyond: Byte)
    requires base + |part| <= |der| && der[base..base + |part|] == part
    requires f.0 + f.1 < |part| && part[f.0 + f.1] == INTEGER
    ensures !AllZero(Field(der, base, f, beyond))
    ensures AllZero(part[f.0..f.0 + f.1]) ==> Field(der, base, f, beyond) == [INTEGER]
  {
    SliceOfSlice(der, base, part, f.0, f.0 + f.1);
    assert der[base..base + |part|][f.0 + f.1] == der[base + f.0 + f.1];
    ZeroTrimmed(der, base + f.0, f.1, beyond);
    TrimmedMeans(der, base + f.0, f.1, beyond);
    hide Trimmed, AllZero;
  }

  /** The checks for an empty `n`, `e` or `d` reject nothing: a key is accepted exactly if the
      outer triple is a SEQUENCE in which nine INTEGERs come first. */
  lemma KeyAccepted(der: seq<Byte>, beyond: Byte)
    ensures PrivateKeyOf(der, beyond).Some? <==> HasNineIntegers(der)
  {
    if HasNineIntegers(der) {
      FieldBeforeAnother(der, beyond, 1);
      FieldBeforeAnother(der, beyond, 2);
      FieldBeforeAnother(der, beyond, 3);
    }
    hide TlvAt, IntegersAt, Field, AllZero;
  }

  /** If the modulus is zero, the key that is accepted has the modulus two. */
  lemma ZeroModulus(der: seq<Byte>, beyond: Byte)
    requires HasNineIntegers(der)
    requires var t := TlvAt(der, 0).value;
             var f := IntegersAt(der[t.start..t.End()], 0, 9).value[1];
             AllZero(der[t.start..t.End()][f.0..f.0 + f.1])
    ensures PrivateKeyOf(der, beyond).Some? && PrivateKeyOf(der, beyond).value.n == [2]
  {
    hide TlvAt, IntegersAt, Field, AllZero;
    KeyAccepted(der, beyond);
    FieldBeforeAnother(der, beyond, 1);
  }

  /** Such keys: whatever the other integers are, a modulus written as zero is accepted, as two. */
  lemma ZeroModulusAccepted(xs: seq<seq<Byte>>, after: seq<Byte>, beyond: Byte)
    requires |xs| == 9 && (forall x :: x in xs ==> |x| < LIMB) && |WriteIntegers(xs)| < LIMB && xs[1] == [0]
    ensures var key := PrivateKeyOf(WriteTlv(SEQUENCE, WriteIntegers(xs)) + after, beyond);
            key.Some? && key.value.n == [2]
  {
    hide WriteTlv, WriteLength, TlvAt, IntegersAt, WriteIntegers, Found, PrivateKeyOf;
    var content := WriteIntegers(xs);
    var der := WriteTlv(SEQUENCE, content) + after;
    SequenceReads(content, xs, after);
    var f := IntegersAt(content, 0, 9).value;
    SecondFound(content, f, xs);
    ZeroModulusAt(der, TlvAt(der, 0).value, content, f, beyond);
  }

  lemma SecondFound(s: seq<Byte>, f: seq<(nat, nat)>, xs: seq<seq<Byte>>)
    requires Found(s, f, xs) && |xs| > 1 && xs[1] == [0]
    ensures |f| == |xs| && f[1].0 + f[1].1 <= |s| && s[f[1].0..f[1].0 + f[1].1] == [0]
  {
    FoundAt(s, f, xs, 1);
  }

  lemma ZeroModulusAt(der: seq<Byte>, t: Tlv, content: seq<Byte>, f: seq<(nat, nat)>, beyond: Byte)
    requires TlvAt(der, 0) == Some(t) && t.tag == SEQUENCE && der[t.start..t.End()] == content
    requires IntegersAt(content, 0, 9) == Some(f) && content[f[1].0..f[1].0 + f[1].1] == [0]
    ensures PrivateKeyOf(der, beyond).Some? && PrivateKeyOf(der, beyond).value.n == [2]
  {
    hide TlvAt, IntegersAt, PrivateKeyOf;
    ZeroModulus(der, beyond);
  }

  const ZERO_MODULUS: seq<seq<Byte>> := [[0], [0], [3], [3], [5], [7], [1], [1], [1]]

  lemma ZeroModulusSize()
    ensures |ZERO_MODULUS| == 9 && ZERO_MODULUS[1] == [0] && (forall x :: x in ZERO_MODULUS ==> |x| < LIMB)
    ensures |WriteIntegers(ZERO_MODULUS)| < LIMB
  {
    hide WriteIntegers;
    IntegersLength(ZERO_MODULUS);
  }

  /** One of them. */
  lemma ZeroModulusExample(beyond: Byte)
    ensures (forall x :: x in ZERO_MODULUS ==> |x| < LIMB) && |WriteIntegers(ZERO_MODULUS)| < LIMB
    ensures var key := PrivateKeyOf(WriteTlv(SEQUENCE, WriteIntegers(ZERO_MODULUS)), beyond);
            key.Some? && key.value.n == [2]
  {
    hide WriteTlv, WriteIntegers, PrivateKeyOf;
    ZeroModulusSize();
    ZeroModulusAccepted(ZERO_MODULUS, [], beyond);
    assert WriteTlv(SEQUENCE, WriteIntegers(ZERO_MODULUS)) + [] == WriteTlv(SEQUENCE, WriteIntegers(ZERO_MODULUS));
  }

  // ---------------------------------------------------------------------------------------
  // Words that are too narrow
  // ---------------------------------------------------------------------------------------

  /** Position plus length does not fit a word. */
  ghost predicate Wraps(s: seq<Byte>, i: nat, width: nat) {
    HeadAt(s, i).Some? && HeadAt(s, i).value.End() >= Pow2(width)
  }

  /** The step that a triple stands for. */
  function StepOf(t: Option<Tlv>): Step {
    if t.None? then Fails else Reads(t.value, t.value.End())
  }

  /** If a triple is read, the cursor advances and the value lies in the part exactly if position
      plus length fits a word; otherwise the cursor goes back to before the value. */
  lemma ReadMeans(s: seq<Byte>, n: nat, i: nat, width: nat)
    requires |s| <= n < Pow2(width) && width >= 32 && NextAt(s, n, i, width).Reads?
    ensures var r := NextAt(s, n, i, width);
            && (r.t.End() < Pow2(width) <==> i < r.next && r.t.End() <= n)
            && (r.t.End() < Pow2(width) ==> r.next == r.t.End())
            && (r.t.End() >= Pow2(width) ==> r.next == r.t.End() - Pow2(width) < r.t.start)
  {
    hide NextAt, HeadAt, Sum, Pow2;
    ReadHead(s, n, i, width);
    Pow2Words();
    Pow2Monotone(32, width);
    var t := NextAt(s, n, i, width).t;
    SumMeans(t.start, t.len, width);
  }

  lemma SumMeans(x: nat, y: nat, width: nat)
    requires x < Pow2(width) && y < Pow2(width)
    ensures Sum(x, y, width) == if x + y < Pow2(width) then x + y else x + y - Pow2(width)
  {
    hide Pow2;
    if x + y < Pow2(width) {
      ModSmall(x + y, Pow2(width));
    } else {
      ModUnique(x + y, Pow2(width), 1, x + y - Pow2(width));
    }
  }

  /** In a part that is there, the reader reads exactly the triple, or fails exactly if there is
      none, unless position plus length wraps around; and then it is wrong. */
  lemma NextMeans(s: seq<Byte>, i: nat, width: nat)
    requires Sized(s, width)
    ensures !NextAt(s, |s|, i, width).Leaves?
    ensures NextAt(s, |s|, i, width) == StepOf(TlvAt(s, i)) <==> !Wraps(s, i, width)
    ensures Wraps(s, i, width) ==> NextAt(s, |s|, i, width).Reads? && TlvAt(s, i).None?
  {
    hide BeValue, Pow2, Sum;
    WholeCount(s, width);
    HeadLength(s, i);
    if HeadAt(s, i).Some? {
      SumMeans(HeadAt(s, i).value.start, HeadAt(s, i).value.len, width);
    }
  }

  /** On words of more than 32 bits nothing wraps around. */
  lemma WideEnough(s: seq<Byte>, i: nat, width: nat)
    requires Sized(s, width) && width > 32
    ensures !Wraps(s, i, width)
    ensures NextAt(s, |s|, i, width) == StepOf(TlvAt(s, i))
  {
    HeadLength(s, i);
    Pow2Words();
    Pow2Monotone(32, width - 1);
    assert Pow2(width) == 2 * Pow2(width - 1);
    hide BeValue, Pow2, NextAt;
    NextMeans(s, i, width);
  }

  /** A length of four octets, all set: on words of 32 bits the cursor goes back by one and the value
      is said to be 2^32 - 1 octets long. Lengths slightly below bring it back to the start. */
  lemma WrappedExample()
    ensures var s: seq<Byte> := [0x30, 0x84, 0xFF, 0xFF, 0xFF, 0xFF];
            && NextAt(s, 6, 0, 32) == Reads(Tlv(0x30, 6, 0xFFFF_FFFF), 5)
            && NextAt(s, 6, 0, 64) == Fails
    ensures var s: seq<Byte> := [0x30, 0x84, 0xFF, 0xFF, 0xFF, 0xFA];
            && NextAt(s, 6, 0, 32) == Reads(Tlv(0x30, 6, 0xFFFF_FFFA), 0)
            && NextAt(s, 6, 0, 64) == Fails
  {
    FourOctets(0xFF);
    FourOctets(0xFA);
    hide BeValue, Pow2;
    Pow2Words();
  }

  lemma FourOctets(b: Byte)
    ensures var s: seq<Byte> := [0x30, 0x84, 0xFF, 0xFF, 0xFF, b];
            s[2..6] == [0xFF, 0xFF, 0xFF, b] && BeValue(s[2..6]) == 0xFFFF_FF00 + b
  {
    var s: seq<Byte> := [0xFF, 0xFF, 0xFF, b];
    assert s[..1] == [0xFF] && s[..2] == [0xFF, 0xFF] && s[..3] == [0xFF, 0xFF, 0xFF];
    assert [0xFF][..0] == [] && [0xFF, 0xFF][..1] == [0xFF] && [0xFF, 0xFF, 0xFF][..2] == [0xFF, 0xFF];
    assert BeValue([0xFF]) == 0xFF;
    assert BeValue([0xFF, 0xFF]) == 0xFFFF;
    assert BeValue([0xFF, 0xFF, 0xFF]) == 0xFF_FFFF;
    assert [0x30, 0x84, 0xFF, 0xFF, 0xFF, b][2..6] == s;
  }

  /** No triple of a row wraps around, as far as the reader comes. */
  ghost predicate RowFits(s: seq<Byte>, i: nat, k: nat, width: nat)
    decreases k
  {
    k == 0 ||
    (&& !Wraps(s, i, width)
     && (TlvAt(s, i).Some? && TlvAt(s, i).value.tag == INTEGER ==> RowFits(s, TlvAt(s, i).value.End(), k - 1, width)))
  }

  /** No triple of a key does. */
  ghost predicate KeyFits(der: seq<Byte>, width: nat) {
    && !Wraps(der, 0, width)
    && var t := TlvAt(der, 0);
       t.Some? && t.value.tag == SEQUENCE ==> RowFits(der[t.value.start..t.value.End()], 0, 9, width)
  }

  lemma {:induction false} RowAgrees(s: seq<Byte>, i: nat, k: nat, width: nat)
    requires Sized(s, width) && k <= 9
    ensures RowFits(s, i, k, width) ==>
              var all := IntegersAt(s, i, k);
              RowAt(s, |s|, i, k, width) == if all.Some? then Fields(all.value) else NoRow
    ensures !RowFits(s, i, k, width) ==> IntegersAt(s, i, k).None?
    decreases k
  {
    hide NextAt, HeadAt, Pow2;
    if k > 0 {
      NextMeans(s, i, width);
      var t := TlvAt(s, i);
      if t.Some? && t.value.tag == INTEGER {
        IntegersStep(s, i, k);
        RowAgrees(s, t.value.End(), k - 1, width);
      }
    }
  }

  /** If no triple wraps around, the parser does what the bytes say. If one does, the bytes are no
      key; so the parser is right exactly if none does, or if it rejects them all the same. In
      particular it accepts every key. */
  lemma ParserAgrees(der: seq<Byte>, beyond: Byte, width: nat)
    requires Sized(der, width)
    ensures !KeyFits(der, width) ==> PrivateKeyOf(der, beyond).None?
    ensures PrivateKeyOf(der, beyond).Some? ==> OutcomeOf(der, beyond, width) == Verdict(PrivateKeyOf(der, beyond))
    ensures OutcomeOf(der, beyond, width) == Verdict(PrivateKeyOf(der, beyond))
       <==> KeyFits(der, width) || OutcomeOf(der, beyond, width).Rejected?
  {
    hide NextAt, HeadAt, RowAt, IntegersAt, RowFits, KeyFrom, Pow2;
    NextMeans(der, 0, width);
    var t := TlvAt(der, 0);
    if t.Some? && t.value.tag == SEQUENCE {
      RowAgrees(der[t.value.start..t.value.End()], 0, 9, width);
    }
  }

  /** On words of more than 32 bits the parser does what the bytes say, for all bytes. */
  lemma ParserWide(der: seq<Byte>, beyond: Byte, width: nat)
    requires Sized(der, width) && width > 32
    ensures OutcomeOf(der, beyond, width) == Verdict(PrivateKeyOf(der, beyond))
  {
    hide NextAt, HeadAt, OutcomeOf, PrivateKeyOf, RowFits, Wraps, Pow2;
    WideEnough(der, 0, width);
    var t := TlvAt(der, 0);
    if t.Some? {
      RowWide(der[t.value.start..t.value.End()], 0, 9, width);
    }
    ParserAgrees(der, beyond, width);
  }

  lemma {:induction false} RowWide(s: seq<Byte>, i: nat, k: nat, width: nat)
    requires Sized(s, width) && width > 32
    ensures RowFits(s, i, k, width)
    decreases k
  {
    hide NextAt, HeadAt, Wraps;
    if k > 0 {
      WideEnough(s, i, width);
      if TlvAt(s, i).Some? { RowWide(s, TlvAt(s, i).value.End(), k - 1, width); }
    }
  }

  /** An integer of the key, other than the version, that wraps around makes the parser read behind
      the buffer. */
  lemma FieldWraps(s: seq<Byte>, i: nat, k: nat, width: nat)
    requires Sized(s, width) && 0 < k < 9 && Wraps(s, i, width) && s[i] == INTEGER
    ensures RowAt(s, |s|, i, k, width).OutsideRow?
  {
    hide HeadAt, NextAt, Pow2;
    NextMeans(s, i, width);
    ReadHead(s, |s|, i, width);
    RowStep(s, |s|, i, k, width);
    WholeCount(s, width);
  }

  /** The first octets of `WrappedExample` alone: on words of 32 bits the parser reads behind them,
      on words of 64 bits it rejects them. */
  lemma OutsideExample(beyond: Byte)
    ensures OutcomeOf([0x30, 0x84, 0xFF, 0xFF, 0xFF, 0xFF], beyond, 32) == Outside
    ensures OutcomeOf([0x30, 0x84, 0xFF, 0xFF, 0xFF, 0xFF], beyond, 64) == Rejected
  {
    var s: seq<Byte> := [0x30, 0x84, 0xFF, 0xFF, 0xFF, 0xFF];
    assert s[6..] == [];
    WrappedExample();
    hide HeadAt, Pow2, Sum;
  }

  /** A row that is there is also read if the part claims to be longer. */
  lemma {:induction false} RowLonger(s: seq<Byte>, n: nat, i: nat, k: nat, width: nat)
    requires Sized(s, width) && |s| <= n < Pow2(width) && k <= 9 && IntegersAt(s, i, k).Some?
    ensures RowAt(s, n, i, k, width) == Fields(IntegersAt(s, i, k).value)
    decreases k
  {
    hide HeadAt, Pow2;
    if k > 0 {
      IntegersTag(s, i, k);
      IntegersStep(s, i, k);
      var t := TlvAt(s, i).value;
      NextLonger(s, n, i, width);
      hide NextAt, TlvAt, IntegersAt;
      RowLonger(s, n, t.End(), k - 1, width);
      RowStep(s, n, i, k, width);
    }
  }

  lemma NextLonger(s: seq<Byte>, n: nat, i: nat, width: nat)
    requires Sized(s, width) && |s| <= n < Pow2(width) && TlvAt(s, i).Some?
    ensures NextAt(s, n, i, width) == Reads(TlvAt(s, i).value, TlvAt(s, i).value.End())
  {
    hide BeValue, Pow2;
    WholeCount(s, width);
    ModSmall(TlvAt(s, i).value.End(), Pow2(width));
  }

  /** So on words of 32 bits a key is also accepted whose outer length is one of the last six
      values of four octets, which no buffer can hold. */
  lemma WrongLengthAccepted(key: Rsa.PrivateKey, octets: seq<Byte>, beyond: Byte)
    requires Writable(key) && |octets| == 4 && BeValue(octets) >= LIMB - 6
    ensures (forall x :: x in Contents(key) ==> |x| < LIMB)
    ensures var der := [SEQUENCE, 0x84] + octets + WriteIntegers(Contents(key));
            && Sized(der, 32)
            && OutcomeOf(der, beyond, 32) == Accepted(key)
            && PrivateKeyOf(der, beyond) == None
  {
    hide WriteIntegers, Contents, Writable, BeValue, Pow2, PrivateKeyOf, OutcomeOf, Found, IntegersAt;
    var xs := Contents(key);
    IntegersLength(xs);
    Pow2Words();
    var content := WriteIntegers(xs);
    var der := [SEQUENCE, 0x84] + octets + content;
    assert der[6..] == content && der[2..6] == octets && der[0] == SEQUENCE && der[1] == 0x84;
    Surrounded(content, []);
    ReadsIntegers(content, [], xs, []);
    WrongLengthRead(der, octets, IntegersAt(content, 0, 9).value, key, beyond);
  }

  lemma WrongLengthRead(der: seq<Byte>, octets: seq<Byte>, f: seq<(nat, nat)>, key: Rsa.PrivateKey, beyond: Byte)
    requires Sized(der, 32) && |der| >= 6 && der[0] == SEQUENCE && der[1] == 0x84 && der[2..6] == octets
    requires BeValue(octets) >= LIMB - 6 && Writable(key)
    requires IntegersAt(der[6..], 0, 9) == Some(f) && Found(der[6..], f, Contents(key))
    ensures OutcomeOf(der, beyond, 32) == Accepted(key) && PrivateKeyOf(der, beyond) == None
  {
    hide WriteIntegers, Contents, Writable, BeValue, Pow2, PrivateKeyOf, OutcomeOf, Found, IntegersAt, RowAt, KeyFrom,
        FieldsAre, FieldsIn;
    WrongLengthHead(der, octets, beyond);
    RowLonger(der[6..], BeValue(octets), 0, 9, 32);
    FieldsGood(der, 6, der[6..], f, key, beyond);
    FieldsThere(der[6..], f);
    KeyAssembled(der, 6, f, key, beyond);
  }

  lemma FieldsThere(s: seq<Byte>, f: seq<(nat, nat)>)
    requires IntegersAt(s, 0, 9) == Some(f)
    ensures FieldsIn(s, f) && |f| == 9
  {
    hide IntegersAt;
  }

  lemma WrongLengthHead(der: seq<Byte>, octets: seq<Byte>, beyond: Byte)
    requires Sized(der, 32) && |der| >= 6 && der[0] == SEQUENCE && der[1] == 0x84 && der[2..6] == octets
    requires BeValue(octets) >= LIMB - 6
    ensures PrivateKeyOf(der, beyond) == None
    ensures |der[6..]| <= BeValue(octets) < LIMB == Pow2(32) && Sized(der[6..], 32)
    ensures OutcomeOf(der, beyond, 32) == RowOutcome(RowAt(der[6..], BeValue(octets), 0, 9, 32), der, 6, beyond)
  {
    hide BeValue, Pow2, Sum, RowAt, KeyFrom;
    Pow2Words();
    HeadLength(der, 0);
    assert HeadAt(der, 0) == Some(Tlv(SEQUENCE, 6, BeValue(octets)));
    SumMeans(6, BeValue(octets), 32);
  }

  // ---------------------------------------------------------------------------------------
  // What is accepted on words of any width
  // ---------------------------------------------------------------------------------------

  /** Behind every integer of a row but the last one is the tag of the next. */
  lemma {:induction false} RowTagBehind(s: seq<Byte>, n: nat, i: nat, k: nat, width: nat, j: nat)
    requires |s| <= n < Pow2(width) && k < 9 && RowAt(s, n, i, k, width).Fields? && j + 1 < k
    ensures var f := RowAt(s, n, i, k, width).f[j]; f.0 + f.1 < |s| && s[f.0 + f.1] == INTEGER
    decreases k
  {
    hide NextAt, RowAt, HeadAt, Pow2;
    RowStep(s, n, i, k, width);
    var step := NextAt(s, n, i, width);
    if j == 0 {
      RowStep(s, n, step.next, k - 1, width);
      ReadEnd(s, n, i, width);
      ReadTag(s, n, step.next, width);
    } else {
      RowTagBehind(s, n, step.next, k - 1, width, j - 1);
    }
  }

  lemma ReadTag(s: seq<Byte>, n: nat, i: nat, width: nat)
    requires |s| <= n && NextAt(s, n, i, width).Reads?
    ensures i < |s| && s[i] == NextAt(s, n, i, width).t.tag
  {
    hide BeValue, Sum;
  }

  lemma ReadEnd(s: seq<Byte>, n: nat, i: nat, width: nat)
    requires |s| <= n < Pow2(width) && NextAt(s, n, i, width).Reads? && NextAt(s, n, i, width).t.End() <= |s|
    ensures NextAt(s, n, i, width).next == NextAt(s, n, i, width).t.End()
  {
    hide BeValue, Pow2;
    ModSmall(NextAt(s, n, i, width).t.End(), Pow2(width));
  }

  /** An outer SEQUENCE is read, and nine INTEGERs in it. */
  predicate NineRead(der: seq<Byte>, width: nat) {
    var step := NextAt(der, |der|, 0, width);
    && step.Reads? && step.t.tag == SEQUENCE
    && RowAt(Claimed(der, step.t.start, step.t.len), step.t.len, 0, 9, width).Fields?
  }

  /** On words of any width a key is accepted exactly if a SEQUENCE and nine INTEGERs are read: the
      checks for an empty `n`, `e` or `d` never reject. */
  lemma AcceptedMeans(der: seq<Byte>, beyond: Byte, width: nat)
    requires Sized(der, width)
    ensures OutcomeOf(der, beyond, width).Accepted? <==> NineRead(der, width)
  {
    hide NextAt, RowAt, HeadAt, AllZero, Field, Pow2;
    if NineRead(der, width) {
      WholeCount(der, width);
      ReadHead(der, |der|, 0, width);
      var t := NextAt(der, |der|, 0, width).t;
      var s := Claimed(der, t.start, t.len);
      RowStep(s, t.len, 0, 9, width);
      FieldNotZero(der, s, t, beyond, width, 1);
      FieldNotZero(der, s, t, beyond, width, 2);
      FieldNotZero(der, s, t, beyond, width, 3);
    }
  }

  lemma FieldNotZero(der: seq<Byte>, s: seq<Byte>, t: Tlv, beyond: Byte, width: nat, j: nat)
    requires t.start <= |der| && s == Claimed(der, t.start, t.len) && t.len < Pow2(width) && 1 <= j < 8
    requires RowAt(s, t.len, 0, 9, width).Fields?
    ensures t.start + RowAt(s, t.len, 0, 9, width).f[j].0 + RowAt(s, t.len, 0, 9, width).f[j].1 <= |der|
    ensures !AllZero(Field(der, t.start, RowAt(s, t.len, 0, 9, width).f[j], beyond))
  {
    hide NextAt, RowAt, HeadAt, AllZero, Field, Pow2;
    RowStep(s, t.len, 0, 9, width);
    RowTagBehind(s, t.len, NextAt(s, t.len, 0, width).next, 8, width, j - 1);
    FieldBefore(der, t.start, s, RowAt(s, t.len, 0, 9, width).f[j], beyond);
  }
}
