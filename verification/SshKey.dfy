/** Public keys in the `ssh-rsa` text format. */
module SshKey {
  import opened Common
  import opened Bits
  import opened BigNum
  import opened ByteStrings
  import Base64
  import Rsa

  /** `load_u32_be`. */
  function LoadU32(buf: seq<Byte>, p: nat): nat
    requires p + 4 <= |buf|
  {
    Or(Or(Or(Shl(buf[p], 24), Shl(buf[p + 1], 16)), Shl(buf[p + 2], 8)), buf[p + 3])
  }

  lemma OrBelow(high: nat, low: nat, k: nat)
    requires low < Pow2(k)
    ensures Or(Shl(high, k), low) == Shl(high, k) + low
  {
    OrCommutes(Shl(high, k), low);
    OrDisjoint(low, high, k);
  }

  lemma ShiftByBytes(x: nat)
    ensures Shl(x, 8) == x * 256 && Shl(x, 16) == x * 65536 && Shl(x, 24) == x * 0x100_0000
  {
    assert Pow2(8) == 256;
    assert Pow2(16) == 65536;
    assert Pow2(24) == 0x100_0000;
  }

  lemma LoadU32Value(buf: seq<Byte>, p: nat)
    requires p + 4 <= |buf|
    ensures LoadU32(buf, p) == BeValue(buf[p..p + 4]) < LIMB
  {
    var a: nat, b: nat, c: nat, d: nat := buf[p], buf[p + 1], buf[p + 2], buf[p + 3];
    FourBytes(a, b, c, d);
    assert buf[p..p + 4] == [a, b, c, d];
    FourBytesValue(a, b, c, d);
  }

  lemma FourBytesValue(a: Byte, b: Byte, c: Byte, d: Byte)
    ensures BeValue([a, b, c, d]) == (a as int) * 0x100_0000 + (b as int) * 65536 + (c as int) * 256 + d
  {
    assert [a][..0] == [] && [a, b][..1] == [a] && [a, b, c][..2] == [a, b] && [a, b, c, d][..3] == [a, b, c];
    assert BeValue([a]) == a;
    assert BeValue([a, b]) == BeValue([a]) * 256 + b;
    assert BeValue([a, b, c]) == BeValue([a, b]) * 256 + c;
  }

  lemma FourBytes(a: nat, b: nat, c: nat, d: nat)
    requires a < 256 && b < 256 && c < 256 && d < 256
    ensures Or(Or(Or(Shl(a, 24), Shl(b, 16)), Shl(c, 8)), d) == a * 0x100_0000 + b * 65536 + c * 256 + d
  {
    ShiftByBytes(a);
    ShiftByBytes(b);
    ShiftByBytes(c);
    ShiftByBytes(1);
    hide Or;
    OrBelow(a, Shl(b, 16), 24);
    assert Shl(a, 24) + Shl(b, 16) == Shl(a * 256 + b, 16) by { ShiftByBytes(a * 256 + b); }
    OrBelow(a * 256 + b, Shl(c, 8), 16);
    var abc := (a * 256 + b) * 256 + c;
    assert Shl(a * 256 + b, 16) + Shl(c, 8) == Shl(abc, 8) by { ShiftByBytes(abc); ShiftByBytes(a * 256 + b); }
    OrBelow(abc, d, 8);
    ShiftByBytes(abc);
  }

  /** A length-prefixed string in a buffer (section 5 of RFC 4251): where it starts, and its length. */
  function StringAt(buf: seq<Byte>, p: nat): (r: Option<(nat, nat)>)
    requires p <= |buf|
    ensures r.Some? ==> r.value.0 == p + 4 && r.value.0 + r.value.1 <= |buf|
  {
    if |buf| - p < 4 then None
    else
      var len := BeValue(buf[p..p + 4]);
      if |buf| - p - 4 < len then None else Some((p + 4, len))
  }

  const KEY_TYPE: seq<Byte> := [115, 115, 104, 45, 114, 115, 97]

  /** The public key in a decoded blob (section 6.6 of RFC 4253). */
  function WireKey(buf: seq<Byte>, beyond: Byte): Option<Rsa.PublicKey> {
    match StringAt(buf, 0)
    case None => None
    case Some(t) =>
      if buf[t.0..t.0 + t.1] != KEY_TYPE then None
      else
        match StringAt(buf, t.0 + t.1)
        case None => None
        case Some(e) =>
          match StringAt(buf, e.0 + e.1)
          case None => None
          case Some(n) => Some(Rsa.PublicKey(Trimmed(buf, n.0, n.1, beyond), Trimmed(buf, e.0, e.1, beyond)))
  }

  /** `parse_ssh_wire_rsa`. */
  method ParseWire(blob: seq<Byte>, beyond: Byte) returns (ok: bool, e: seq<Byte>, n: seq<Byte>)
    ensures ok <==> WireKey(blob, beyond).Some?
    ensures ok ==> WireKey(blob, beyond) == Some(Rsa.PublicKey(n, e))
  {
    hide BeValue, LoadU32, Trimmed;
    e, n := [], [];
    var data, len := 0, |blob|;
    if len < 4 {
      return false, e, n;
    }
    LoadU32Value(blob, data);
    var l1 := LoadU32(blob, data);
    data, len := data + 4, len - 4;
    if len < l1 {
      return false, e, n;
    }
    if l1 != 7 {
      return false, e, n;
    }
    if blob[data..data + 7] != KEY_TYPE {
      return false, e, n;
    }
    data, len := data + 7, len - 7;
    if len < 4 {
      return false, e, n;
    }
    LoadU32Value(blob, data);
    var le := LoadU32(blob, data);
    data, len := data + 4, len - 4;
    if len < le {
      return false, e, n;
    }
    e := Trim(blob, data, le, beyond);
    data, len := data + le, len - le;
    if len < 4 {
      return false, e, n;
    }
    LoadU32Value(blob, data);
    var ln := LoadU32(blob, data);
    data, len := data + 4, len - 4;
    if len < ln {
      return false, e, n;
    }
    n := Trim(blob, data, ln, beyond);
    return true, e, n;
  }

  /** A length prefix. */
  function U32(v: nat): seq<Byte>
    requires v < LIMB
  {
    [v / 256 / 256 / 256, v / 256 / 256 % 256, v / 256 % 256, v % 256]
  }

  lemma U32Value(v: nat)
    requires v < LIMB
    ensures BeValue(U32(v)) == v
  {
    var q1 := v / 256;
    var q2 := q1 / 256;
    FourBytesValue(q2 / 256, q2 % 256, q1 % 256, v % 256);
  }

  function String(s: seq<Byte>): seq<Byte>
    requires |s| < LIMB
  {
    U32(|s|) + s
  }

  lemma ReadsString(before: seq<Byte>, s: seq<Byte>, after: seq<Byte>)
    requires |s| < LIMB
    ensures var buf := before + String(s) + after;
            && StringAt(buf, |before|) == Some((|before| + 4, |s|))
            && buf[|before| + 4..|before| + 4 + |s|] == s
            && |before + String(s)| == |before| + 4 + |s|
  {
    var buf := before + String(s) + after;
    U32Value(|s|);
    assert buf[|before|..|before| + 4] == U32(|s|);
  }

  /** A key as the wire format writes it. */
  function WriteWire(key: Rsa.PublicKey): seq<Byte>
    requires Minimal(key.e) && |key.e| < LIMB - 1 && Minimal(key.n) && |key.n| < LIMB - 1
  {
    String(KEY_TYPE) + String(SignedForm(key.e)) + String(SignedForm(key.n))
  }

  /** Reading the wire format gives back the key written, whatever follows it. */
  lemma WireRoundTrip(key: Rsa.PublicKey, rest: seq<Byte>, beyond: Byte)
    requires Minimal(key.e) && |key.e| < LIMB - 1 && Minimal(key.n) && |key.n| < LIMB - 1
    ensures WireKey(WriteWire(key) + rest, beyond) == Some(key)
  {
    var e, n := SignedForm(key.e), SignedForm(key.n);
    var a, b, c := String(KEY_TYPE), String(e), String(n);
    var buf := WriteWire(key) + rest;
    assert |a| == 11;
    hide String, StringAt, BeValue, Trimmed, SignedForm;
    ThreeParts(a, b, c, rest);
    ReadsString([], KEY_TYPE, b + c + rest);
    ReadsString(a, e, c + rest);
    ReadsString(a + b, n, rest);
    TrimSignedForm(buf, |a| + 4, key.e, beyond);
    TrimSignedForm(buf, |a + b| + 4, key.n, beyond);
    assert [] + a == a;
  }

  lemma ThreeParts(a: seq<Byte>, b: seq<Byte>, c: seq<Byte>, rest: seq<Byte>)
    ensures [] + a + (b + c + rest) == a + b + c + rest == a + b + (c + rest)
  {
  }

  // ---------------------------------------------------------------------------------------
  // The text around the blob
  // ---------------------------------------------------------------------------------------

  predicate IsSpace(c: Byte) {
    c == 32 || c == 9 || c == 13 || c == 10
  }

  /** The first position from `i` on that is not white space, or is. */
  function SkipSpaces(s: seq<Byte>, i: nat): (j: nat)
    requires i <= |s|
    ensures i <= j <= |s| && forall k :: i <= k < j ==> IsSpace(s[k])
    ensures j < |s| ==> !IsSpace(s[j])
    decreases |s| - i
  {
    if i < |s| && IsSpace(s[i]) then SkipSpaces(s, i + 1) else i
  }

  function SkipWord(s: seq<Byte>, i: nat): (j: nat)
    requires i <= |s|
    ensures i <= j <= |s| && forall k :: i <= k < j ==> !IsSpace(s[k])
    ensures j < |s| ==> IsSpace(s[j])
    decreases |s| - i
  {
    if i < |s| && !IsSpace(s[i]) then SkipWord(s, i + 1) else i
  }

  datatype Tokens = Tokens(s1: nat, e1: nat, s2: nat, e2: nat)

  /** The first two words of a text. */
  function FirstTokens(s: seq<Byte>): (t: Tokens)
    ensures t.s1 <= t.e1 <= t.s2 <= t.e2 <= |s|
  {
    var s1 := SkipSpaces(s, 0);
    var e1 := SkipWord(s, s1);
    var s2 := SkipSpaces(s, e1);
    Tokens(s1, e1, s2, SkipWord(s, s2))
  }

  /** `parse_two_tokens`. */
  method ParseTwoTokens(p: seq<Byte>) returns (ok: bool, t: Tokens)
    ensures t == FirstTokens(p)
    ensures ok <==> t.s1 < t.e1 && t.s2 < t.e2
  {
    var i := 0;
    while i < |p| && IsSpace(p[i])
      invariant i <= |p| && SkipSpaces(p, 0) == SkipSpaces(p, i)
    {
      i := i + 1;
    }
    var s1 := i;
    while i < |p| && !IsSpace(p[i])
      invariant i <= |p| && SkipWord(p, s1) == SkipWord(p, i)
    {
      i := i + 1;
    }
    var e1 := i;
    while i < |p| && IsSpace(p[i])
      invariant i <= |p| && SkipSpaces(p, e1) == SkipSpaces(p, i)
    {
      i := i + 1;
    }
    var s2 := i;
    while i < |p| && !IsSpace(p[i])
      invariant i <= |p| && SkipWord(p, s2) == SkipWord(p, i)
    {
      i := i + 1;
    }
    var e2 := i;
    t := Tokens(s1, e1, s2, e2);
    ok := !(e1 <= s1 || e2 <= s2);
  }

  /** The key that a text line holds. */
  function PublicKeyOf(text: seq<Byte>, beyond: Byte): Option<Rsa.PublicKey> {
    var t := FirstTokens(text);
    if t.s1 == t.e1 || t.s2 == t.e2 || text[t.s1..t.e1] != KEY_TYPE then None
    else if !Base64.Accepted(text[t.s2..t.e2]) then None
    else
      match WireKey(Base64.Decoded(text[t.s2..t.e2]), beyond)
      case None => None
      case Some(key) => if AllZero(key.n) || AllZero(key.e) then None else Some(key)
  }

  /** `parse_public_key_ssh`. */
  method ParsePublicKeySsh(text: seq<Byte>, beyond: Byte) returns (ok: bool, key: Rsa.PublicKey)
    ensures ok <==> PublicKeyOf(text, beyond).Some?
    ensures ok ==> PublicKeyOf(text, beyond) == Some(key)
  {
    hide Base64.Accepted, Base64.Decoded, WireKey, FirstTokens, Trimmed;
    key := Rsa.PublicKey([], []);
    var tokens, t := ParseTwoTokens(text);
    if !tokens {
      return false, key;
    }
    if t.e1 - t.s1 != |KEY_TYPE| {
      return false, key;
    }
    if text[t.s1..t.e1] != KEY_TYPE {
      return false, key;
    }
    var decoded, blob := Base64.Decode(text[t.s2..t.e2]);
    if !decoded {
      return false, key;
    }
    var parsed, e, n := ParseWire(blob, beyond);
    if !parsed {
      return false, key;
    }
    var nonzeroN := CheckNonzero(n);
    if !nonzeroN {
      return false, key;
    }
    var nonzeroE := CheckNonzero(e);
    if !nonzeroE {
      return false, key;
    }
    return true, Rsa.PublicKey(n, e);
  }

  lemma {:induction false} SpacesSkipped(s: seq<Byte>, i: nat, j: nat)
    requires i <= j <= |s| && (forall k :: i <= k < j ==> IsSpace(s[k])) && (j < |s| ==> !IsSpace(s[j]))
    ensures SkipSpaces(s, i) == j
    decreases j - i
  {
    if i < j { SpacesSkipped(s, i + 1, j); }
  }

  lemma {:induction false} WordSkipped(s: seq<Byte>, i: nat, j: nat)
    requires i <= j <= |s| && (forall k :: i <= k < j ==> !IsSpace(s[k])) && (j < |s| ==> IsSpace(s[j]))
    ensures SkipWord(s, i) == j
    decreases j - i
  {
    if i < j { WordSkipped(s, i + 1, j); }
  }

  predicate AllSpaces(s: seq<Byte>) {
    forall i :: 0 <= i < |s| ==> IsSpace(s[i])
  }

  predicate NoSpaces(s: seq<Byte>) {
    forall i :: 0 <= i < |s| ==> !IsSpace(s[i])
  }

  /** A line of two words, with white space around them and anything behind them. */
  lemma TokensOfLine(lead: seq<Byte>, word: seq<Byte>, gap: seq<Byte>, body: seq<Byte>, rest: seq<Byte>)
    requires AllSpaces(lead) && NoSpaces(word) && AllSpaces(gap) && NoSpaces(body)
    requires word != [] && gap != [] && body != [] && (rest != [] ==> IsSpace(rest[0]))
    ensures var a := |lead|; var b := a + |word|; var c := b + |gap|;
            && FirstTokens(lead + word + gap + body + rest) == Tokens(a, b, c, c + |body|)
            && (lead + word + gap + body + rest)[a..b] == word
            && (lead + word + gap + body + rest)[c..c + |body|] == body
  {
    var s := lead + word + gap + body + rest;
    var a := |lead|;
    var b := a + |word|;
    var c := b + |gap|;
    var d := c + |body|;
    assert s[..a] == lead && s[a..b] == word && s[b..c] == gap && s[c..d] == body && s[d..] == rest;
    assert forall k :: 0 <= k < a ==> s[k] == lead[k];
    assert forall k :: a <= k < b ==> s[k] == word[k - a];
    assert forall k :: b <= k < c ==> s[k] == gap[k - b];
    assert forall k :: c <= k < d ==> s[k] == body[k - c];
    SpacesSkipped(s, 0, a);
    WordSkipped(s, a, b);
    SpacesSkipped(s, b, c);
    WordSkipped(s, c, d);
  }

  lemma KeyTypeNoSpaces()
    ensures NoSpaces(KEY_TYPE)
  {
  }

  lemma EncodingNoSpaces(b: seq<Byte>)
    ensures NoSpaces(Base64.Encode(b)) && (b != [] ==> Base64.Encode(b) != [])
  {
    Base64.EncodingLetters(b);
  }

  /** A line that holds a blob holds the key of the blob, unless that has a zero. */
  lemma KeyOfLine(blob: seq<Byte>, lead: seq<Byte>, gap: seq<Byte>, rest: seq<Byte>, beyond: Byte)
    requires blob != [] && AllSpaces(lead) && AllSpaces(gap) && gap != [] && (rest != [] ==> IsSpace(rest[0]))
    ensures var key := WireKey(blob, beyond);
            PublicKeyOf(lead + KEY_TYPE + gap + Base64.Encode(blob) + rest, beyond) ==
            if key.None? || AllZero(key.value.n) || AllZero(key.value.e) then None else key
  {
    KeyTypeNoSpaces();
    EncodingNoSpaces(blob);
    Base64.EncodingLetters(blob);
    hide Base64.Encode, WireKey, FirstTokens, Base64.Spaced, Base64.Decoded, Base64.Accepted, NoSpaces, AllSpaces,
        AllZero;
    Base64.SpacedItself(Base64.Encode(blob));
    Base64.DecodedEncoding(blob, Base64.Encode(blob));
    TokensOfLine(lead, KEY_TYPE, gap, Base64.Encode(blob), rest);
  }

  /** Parsing the text form of a key gives the key back: every positive pair of integers, any
      white space around the words, and any comment behind them. */
  lemma PublicKeyRoundTrip(key: Rsa.PublicKey, lead: seq<Byte>, gap: seq<Byte>, rest: seq<Byte>, beyond: Byte)
    requires Minimal(key.e) && |key.e| < LIMB - 1 && Minimal(key.n) && |key.n| < LIMB - 1
    requires (forall c :: c in lead + gap ==> c in {9, 10, 13, 32}) && gap != []
    requires rest != [] ==> rest[0] in {9, 10, 13, 32}
    ensures KEY_TYPE == [115, 115, 104, 45, 114, 115, 97]
    ensures PublicKeyOf(lead + KEY_TYPE + gap + Base64.Encode(WriteWire(key)) + rest, beyond) == Some(key)
  {
    OnlySpaces(lead, gap);
    var wire := WriteWire(key);
    WireRoundTrip(key, [], beyond);
    assert wire + [] == wire;
    assert wire != [] by { assert |KEY_TYPE| == 7; }
    hide Base64.Encode, WriteWire, WireKey, PublicKeyOf, AllSpaces;
    KeyOfLine(wire, lead, gap, rest, beyond);
    assert !AllZero(key.n) && !AllZero(key.e) by {
      assert key.n[0] != 0 && key.e[0] != 0;
    }
  }

  lemma OnlySpaces(lead: seq<Byte>, gap: seq<Byte>)
    requires forall c :: c in lead + gap ==> c in {9, 10, 13, 32}
    ensures AllSpaces(lead) && AllSpaces(gap)
  {
    forall i | 0 <= i < |lead| ensures IsSpace(lead[i]) { assert lead[i] in lead + gap; }
    forall i | 0 <= i < |gap| ensures IsSpace(gap[i]) { assert gap[i] in lead + gap; }
  }

  // ---------------------------------------------------------------------------------------
  // Integers of value zero
  // ---------------------------------------------------------------------------------------

  /** Where `e` and `n` are in a blob. */
  function Fields(buf: seq<Byte>): (r: Option<((nat, nat), (nat, nat))>)
    ensures r.Some? ==> r.value.0.0 + r.value.0.1 + 4 == r.value.1.0 && r.value.1.0 + r.value.1.1 <= |buf|
  {
    match StringAt(buf, 0)
    case None => None
    case Some(t) =>
      if buf[t.0..t.0 + t.1] != KEY_TYPE then None
      else
        match StringAt(buf, t.0 + t.1)
        case None => None
        case Some(e) =>
          match StringAt(buf, e.0 + e.1)
          case None => None
          case Some(n) => Some((e, n))
  }

  /** A zero `e` passes the check exactly if the length of `n` needs its fourth byte, a zero `n`
      exactly if the byte behind it is not zero; nothing else is rejected. */
  lemma BlobAccepted(buf: seq<Byte>, beyond: Byte)
    ensures WireKey(buf, beyond).Some? <==> Fields(buf).Some?
    ensures Fields(buf).Some? ==>
              var (e, n) := Fields(buf).value;
              var key := WireKey(buf, beyond).value;
              && (AllZero(key.e) <==> AllZero(buf[e.0..e.0 + e.1]) && n.1 < 0x100_0000)
              && (AllZero(key.n) <==> AllZero(buf[n.0..n.0 + n.1]) && ByteAt(buf, n.0 + n.1, beyond) == 0)
  {
    if Fields(buf).Some? {
      var (e, n) := Fields(buf).value;
      ZeroTrimmed(buf, e.0, e.1, beyond);
      ZeroTrimmed(buf, n.0, n.1, beyond);
      TopByte(buf, e.0 + e.1);
    }
    hide BeValue, AllZero, Trimmed;
  }

  /** The first byte of a length is zero exactly if the length is below 2^24. */
  lemma TopByte(buf: seq<Byte>, p: nat)
    requires p + 4 <= |buf|
    ensures buf[p] == 0 <==> BeValue(buf[p..p + 4]) < 0x100_0000
  {
    assert buf[p..p + 4] == [buf[p], buf[p + 1], buf[p + 2], buf[p + 3]];
    FourBytesValue(buf[p], buf[p + 1], buf[p + 2], buf[p + 3]);
  }

  /** The texts that are accepted, with the exact places at which a zero slips through. */
  lemma TextAccepted(text: seq<Byte>, beyond: Byte)
    ensures var t := FirstTokens(text);
            var blob := Base64.Decoded(text[t.s2..t.e2]);
            PublicKeyOf(text, beyond).Some? <==>
              && t.s1 < t.e1 && t.s2 < t.e2 && text[t.s1..t.e1] == KEY_TYPE && Base64.Accepted(text[t.s2..t.e2])
              && Fields(blob).Some?
              && var (e, n) := Fields(blob).value;
                 && (AllZero(blob[e.0..e.0 + e.1]) ==> n.1 >= 0x100_0000)
                 && (AllZero(blob[n.0..n.0 + n.1]) ==> ByteAt(blob, n.0 + n.1, beyond) != 0)
  {
    hide FirstTokens, Base64.Decoded, Base64.Accepted, WireKey, Fields, AllZero, ByteAt;
    var t := FirstTokens(text);
    BlobAccepted(Base64.Decoded(text[t.s2..t.e2]), beyond);
  }

  /** Three strings, the key type and the fields `e` and `n`. */
  function WriteFields(e: seq<Byte>, n: seq<Byte>): seq<Byte>
    requires |e| < LIMB && |n| < LIMB
  {
    String(KEY_TYPE) + String(e) + String(n)
  }

  lemma ReadsFields(e: seq<Byte>, n: seq<Byte>, rest: seq<Byte>, beyond: Byte)
    requires |e| < LIMB && |n| < LIMB
    ensures var buf := WriteFields(e, n) + rest;
            && 19 + |e| + |n| + |rest| == |buf|
            && buf[15..15 + |e|] == e && buf[15 + |e|..19 + |e|] == U32(|n|)
            && buf[19 + |e|..19 + |e| + |n|] == n && buf[19 + |e| + |n|..] == rest
            && WireKey(buf, beyond) ==
               Some(Rsa.PublicKey(Trimmed(buf, 19 + |e|, |n|, beyond), Trimmed(buf, 15, |e|, beyond)))
  {
    var a, b, c := String(KEY_TYPE), String(e), String(n);
    assert |a| == 11;
    LengthFirst(a + b, n, rest);
    hide String, StringAt, BeValue, Trimmed;
    ThreeParts(a, b, c, rest);
    ReadsString([], KEY_TYPE, b + c + rest);
    ReadsString(a, e, c + rest);
    ReadsString(a + b, n, rest);
    assert [] + a == a;
  }

  lemma LengthFirst(before: seq<Byte>, s: seq<Byte>, after: seq<Byte>)
    requires |s| < LIMB
    ensures |before| + 4 <= |before + String(s) + after|
    ensures (before + String(s) + after)[|before|..|before| + 4] == U32(|s|)
  {
  }

  /** A line whose `n` is written as zero, with a byte behind it that is not: it is accepted, and
      that byte is the modulus. */
  lemma ZeroModulusLine(e: seq<Byte>, b: Byte, gap: seq<Byte>, beyond: Byte)
    requires Minimal(e) && |e| < LIMB - 1 && b != 0 && AllSpaces(gap) && gap != []
    ensures PublicKeyOf(KEY_TYPE + gap + Base64.Encode(WriteFields(SignedForm(e), [0]) + [b]), beyond) ==
            Some(Rsa.PublicKey([b], e))
  {
    var w := SignedForm(e);
    var buf := WriteFields(w, [0]) + [b];
    hide WriteFields, WireKey, PublicKeyOf, Base64.Encode, AllSpaces, SignedForm;
    ReadsFields(w, [0], [b], beyond);
    TrimSignedForm(buf, 15, e, beyond);
    assert buf[19 + |w| + 1..][0] == buf[19 + |w| + 1];
    ZeroByteTrimmed(buf, 19 + |w|, b, beyond);
    WholeLine(buf, gap, beyond);
    assert e[0] != 0 && [b][0] != 0;
  }

  /** A line whose `e` is written as zero: if the length of `n` needs its first byte, it is accepted,
      and that byte is the exponent. */
  lemma ZeroExponentLine(n: seq<Byte>, gap: seq<Byte>, beyond: Byte)
    requires Minimal(n) && 0x100_0000 <= |SignedForm(n)| < LIMB && AllSpaces(gap) && gap != []
    ensures PublicKeyOf(KEY_TYPE + gap + Base64.Encode(WriteFields([0], SignedForm(n))), beyond) ==
            Some(Rsa.PublicKey(n, [|SignedForm(n)| / 256 / 256 / 256]))
  {
    var w := SignedForm(n);
    var buf := WriteFields([0], w);
    assert buf + [] == buf;
    hide WriteFields, WireKey, PublicKeyOf, Base64.Encode, AllSpaces, SignedForm;
    ReadsFields([0], w, [], beyond);
    TrimSignedForm(buf, 20, n, beyond);
    assert buf[16] == buf[16..20][0];
    ZeroByteTrimmed(buf, 15, |w| / 256 / 256 / 256, beyond);
    WholeLine(buf, gap, beyond);
    assert n[0] != 0 && [|w| / 256 / 256 / 256][0] != 0;
  }

  lemma WholeLine(buf: seq<Byte>, gap: seq<Byte>, beyond: Byte)
    requires buf != [] && AllSpaces(gap) && gap != []
    ensures var key := WireKey(buf, beyond);
            PublicKeyOf(KEY_TYPE + gap + Base64.Encode(buf), beyond) ==
            if key.None? || AllZero(key.value.n) || AllZero(key.value.e) then None else key
  {
    hide WireKey, PublicKeyOf, Base64.Encode, AllZero;
    KeyOfLine(buf, [], gap, [], beyond);
    assert [] + KEY_TYPE + gap + Base64.Encode(buf) + [] == KEY_TYPE + gap + Base64.Encode(buf);
  }

  lemma ZeroByteTrimmed(buf: seq<Byte>, p: nat, b: Byte, beyond: Byte)
    requires p + 2 <= |buf| && buf[p..p + 1] == [0] && buf[p + 1] == b
    ensures Trimmed(buf, p, 1, beyond) == [b]
  {
    assert buf[p..p + 1][0] == buf[p];
  }
}
