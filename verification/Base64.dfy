/** Base64 as the key parsers read it: white space is skipped, and padding ends the text. */
module Base64 {
  import opened Bits
  import opened Arith
  import opened BigNum
  import opened ByteStrings

  const SKIP: Byte := 0x81
  const INVALID: Byte := 0x80
  const PAD: Byte := 0x82

  /** The entries of `b64_table`: the value of a letter, or one of the three marks. */
  function Letter(c: Byte): (v: Byte)
    ensures v < 64 || v == SKIP || v == INVALID || v == PAD
  {
    if c == 9 || c == 10 || c == 12 || c == 13 || c == 32 then SKIP
    else if c == 43 || c == 45 then 62
    else if c == 47 || c == 95 then 63
    else if 48 <= c <= 57 then c + 4
    else if c == 61 then PAD
    else if 65 <= c <= 90 then c - 65
    else if 97 <= c <= 122 then c - 71
    else INVALID
  }

  /** White space is TAB, LF, FF, CR and space, padding is '='; '+' and '-' are 62, '/' and '_' are 63;
      then come the capital letters, the small ones and the digits, and nothing else is a letter. */
  lemma LetterMeans(c: Byte, v: Byte)
    ensures Letter(c) == 0x81 <==> c in {9, 10, 12, 13, 32}
    ensures Letter(c) == 0x82 <==> c == 61
    ensures Letter(c) == 62 <==> c in {43, 45}
    ensures Letter(c) == 63 <==> c in {47, 95}
    ensures v < 26 ==> (Letter(c) == v <==> c == 65 + v)
    ensures 26 <= v < 52 ==> (Letter(c) == v <==> c == 97 + (v - 26))
    ensures 52 <= v < 62 ==> (Letter(c) == v <==> c == 48 + (v - 52))
    ensures Letter(c) == 0x80 <==>
              !(65 <= c <= 90 || 97 <= c <= 122 || 48 <= c <= 57)
              && c !in {9, 10, 12, 13, 32, 61, 43, 45, 47, 95}
  {
  }

  /** The values of the letters of a text, up to its padding. */
  function Values(s: seq<Byte>): seq<Byte> {
    if s == [] || Letter(s[0]) == PAD then []
    else if Letter(s[0]) < 64 then [Letter(s[0])] + Values(s[1..])
    else Values(s[1..])
  }

  /** No letter outside of the alphabet before the padding. */
  predicate Accepted(s: seq<Byte>) {
    s == [] || Letter(s[0]) == PAD || (Letter(s[0]) != INVALID && Accepted(s[1..]))
  }

  /** The byte at a place is a letter, one of "+-/_" or white space, or some '=' comes no later. */
  predicate LegalAt(s: seq<Byte>, i: nat)
    requires i < |s|
  {
    61 in s[..i + 1] || 65 <= s[i] <= 90 || 97 <= s[i] <= 122 || 48 <= s[i] <= 57
    || s[i] in {43, 45, 47, 95} || s[i] in {9, 10, 12, 13, 32}
  }

  lemma LegalLater(s: seq<Byte>, i: nat)
    requires 0 < i < |s|
    ensures LegalAt(s, i) <==> s[0] == 61 || LegalAt(s[1..], i - 1)
  {
    assert s[..i + 1] == [s[0]] + s[1..][..i];
  }

  lemma LegalFirst(s: seq<Byte>)
    requires s != []
    ensures LegalAt(s, 0) <==> Letter(s[0]) != INVALID
  {
    assert s[..1] == [s[0]];
    LetterMeans(s[0], 0);
  }

  /** Accepted are the texts in which that holds for all places. */
  lemma {:induction false} AcceptedMeans(s: seq<Byte>)
    ensures Accepted(s) <==> forall i :: 0 <= i < |s| ==> LegalAt(s, i)
  {
    hide LegalAt, Letter;
    if s != [] {
      LegalFirst(s);
      LetterMeans(s[0], 0);
      AcceptedMeans(s[1..]);
      forall i | 0 < i < |s| ensures LegalAt(s, i) <==> s[0] == 61 || LegalAt(s[1..], i - 1) { LegalLater(s, i); }
      if forall i :: 0 <= i < |s| ==> LegalAt(s, i) {
        forall k | 0 <= k < |s| - 1 ensures s[0] == 61 || LegalAt(s[1..], k) { assert LegalAt(s, k + 1); }
      }
    }
  }

  /** The integer that a string of six-bit values stands for. */
  function SixValue(vs: seq<Byte>): nat {
    if vs == [] then 0 else SixValue(vs[..|vs| - 1]) * 64 + vs[|vs| - 1]
  }

  /** `base64_decode`: the bytes are the whole bytes at the front of the string of six-bit values. */
  method Decode(input: seq<Byte>) returns (ok: bool, out: seq<Byte>)
    ensures ok <==> Accepted(input)
    ensures ok ==> out == Decoded(input)
  {
    hide BeValue, SixValue, Pow2, Or, And, Letter, Shl, Shr, ToBytes, WholeBytes, SpareBits;
    out := [];
    var buf: nat := 0;
    var bits: nat := 0;
    ghost var vs := [];
    DecodeStart(input);
    for i := 0 to |input|
      invariant buf < 0x1_0000_0000 && bits < 8
      invariant 8 * |out| + bits == 6 * |vs|
      invariant SixValue(vs) == BeValue(out) * Pow2(bits) + buf % Pow2(bits)
      invariant Accepted(input) <==> Accepted(input[i..])
      invariant Values(input) == vs + Values(input[i..])
    {
      var c := input[i];
      var v := Letter(c);
      assert input[i..][1..] == input[i + 1..];
      if v == 0x81 {
        continue;
      }
      if v == 0x80 {
        return false, out;
      }
      if v == 0x82 {
        assert Values(input) == vs;
        DecodeEnd(vs, out, buf, bits);
        return true, out;
      }
      assert vs + ([v] + Values(input[i + 1..])) == (vs + [v]) + Values(input[i + 1..]);
      ShiftIn(vs, out, buf, bits, v);
      buf := Or(v, (buf * 64) % 0x1_0000_0000);
      bits := bits + 6;
      vs := vs + [v];
      if bits >= 8 {
        bits := bits - 8;
        ShiftOut(SixValue(vs), out, buf, bits);
        var byte: Byte := And(Shr(buf, bits), 0xFF);
        out := out + [byte];
      }
    }
    assert Values(input) == vs;
    DecodeEnd(vs, out, buf, bits);
    return true, out;
  }

  lemma DecodeStart(input: seq<Byte>)
    ensures SixValue([]) == BeValue([]) * Pow2(0) + 0 % Pow2(0) && input[0..] == input
    ensures Pow2(0) == 1
  {
  }

  /** At the end fewer than eight bits are left over. */
  lemma DecodeEnd(vs: seq<Byte>, out: seq<Byte>, buf: nat, bits: nat)
    requires bits < 8 && 8 * |out| + bits == 6 * |vs|
    requires SixValue(vs) == BeValue(out) * Pow2(bits) + buf % Pow2(bits)
    ensures out == ToBytes(Shr(SixValue(vs), SpareBits(|vs|)), WholeBytes(|vs|))
  {
    hide BeValue, SixValue, Pow2, Shr, ToBytes, WholeBytes, SpareBits;
    DivMod(buf, Pow2(bits));
    DecodedFront(vs, out, buf % Pow2(bits), bits);
  }

  lemma DecodedFront(vs: seq<Byte>, out: seq<Byte>, low: nat, bits: nat)
    requires bits < 8 && 8 * |out| + bits == 6 * |vs| && low < Pow2(bits)
    requires SixValue(vs) == Shl(BeValue(out), bits) + low
    ensures out == ToBytes(Shr(SixValue(vs), SpareBits(|vs|)), WholeBytes(|vs|))
  {
    hide BeValue, SixValue, Pow2, Shr, Shl, ToBytes, WholeBytes, SpareBits;
    ShrShl(BeValue(out), low, bits);
    BitCounts(|out|, bits, |vs|);
    ToBytesOfValue(out);
  }

  lemma BitCounts(bytes: nat, bits: nat, n: nat)
    requires bits < 8 && 8 * bytes + bits == 6 * n
    ensures bytes == WholeBytes(n) && bits == SpareBits(n)
  {
  }

  /** The 32-bit register takes six more bits in. */
  lemma ShiftIn(vs: seq<Byte>, out: seq<Byte>, buf: nat, bits: nat, v: Byte)
    requires v < 64 && bits < 8 && buf < 0x1_0000_0000
    requires SixValue(vs) == BeValue(out) * Pow2(bits) + buf % Pow2(bits)
    ensures var buf' := Or(v, (buf * 64) % 0x1_0000_0000);
            && buf' < 0x1_0000_0000
            && SixValue(vs + [v]) == BeValue(out) * Pow2(bits + 6) + buf' % Pow2(bits + 6)
  {
    SixAppend(vs, v);
    var h, p := (buf * 64) % 0x1_0000_0000, Pow2(bits);
    ShiftedRegister(buf, v);
    SixBits(bits);
    hide BeValue, SixValue, Pow2, Or;
    var buf' := Or(v, h);
    assert buf' % (64 * p) == 64 * (buf % p) + v by { RegisterLow(buf, v, bits, buf'); }
    MulAssoc(BeValue(out), p, 64);
    Distribute(BeValue(out) * p, buf % p, 64);
    Commute(p, 64);
  }

  lemma SixAppend(vs: seq<Byte>, v: Byte)
    ensures SixValue(vs + [v]) == SixValue(vs) * 64 + v
  {
    assert (vs + [v])[..|vs|] == vs;
  }

  lemma SixBits(bits: nat)
    ensures Pow2(bits + 6) == 64 * Pow2(bits)
  {
    Pow2Add(6, bits);
    assert Pow2(6) == 64;
  }

  lemma ShiftedRegister(buf: nat, v: Byte)
    requires v < 64 && buf < 0x1_0000_0000
    ensures Or(v, (buf * 64) % 0x1_0000_0000) == v + (buf * 64) % 0x1_0000_0000
    ensures (buf * 64) % 0x1_0000_0000 == (buf % 0x400_0000) * 64
  {
    assert (buf * 64) % 0x1_0000_0000 == (buf % 0x400_0000) * 64;
    assert Pow2(6) == 64;
    assert Shl(buf % 0x400_0000, 6) == (buf % 0x400_0000) * 64;
    OrDisjoint(v, buf % 0x400_0000, 6);
  }

  lemma RegisterLow(buf: nat, v: Byte, bits: nat, buf': nat)
    requires v < 64 && bits < 8 && buf < 0x1_0000_0000
    requires buf' == v + (buf % 0x400_0000) * 64
    ensures buf' % (64 * Pow2(bits)) == 64 * (buf % Pow2(bits)) + v
  {
    hide Pow2;
    var p, x := Pow2(bits), buf % 0x400_0000;
    DropHighBits(buf, bits);
    DivMod(x, p);
    MixedDigits(buf', 64, p, x, v, x / p, x % p);
  }

  lemma DropHighBits(buf: nat, bits: nat)
    requires bits <= 26
    ensures (buf % 0x400_0000) % Pow2(bits) == buf % Pow2(bits)
  {
    Pow2Of26();
    hide Pow2;
    Pow2Add(26 - bits, bits);
    var k, h := Pow2(26 - bits), buf / 0x400_0000;
    DivMod(buf, 0x400_0000);
    MulAssoc(h, k, Pow2(bits));
    ModShift(buf % 0x400_0000, h * k, Pow2(bits));
  }

  lemma Pow2Of26()
    ensures Pow2(26) == 0x400_0000
  {
    assert Pow2(8) == 256;
    assert Pow2(16) == 65536;
    assert Pow2(26) == 0x400_0000;
  }

  /** The register gives its eight highest bits up. */
  lemma ShiftOut(x: nat, out: seq<Byte>, buf: nat, bits: nat)
    requires x == BeValue(out) * Pow2(bits + 8) + buf % Pow2(bits + 8)
    ensures And(Shr(buf, bits), 0xFF) < 256
    ensures x == BeValue(out + [And(Shr(buf, bits), 0xFF)]) * Pow2(bits) + buf % Pow2(bits)
  {
    var p := Pow2(bits);
    ByteAnd(Shr(buf, bits));
    var byte := And(Shr(buf, bits), 0xFF);
    assert (out + [byte])[..|out|] == out;
    assert BeValue(out + [byte]) == BeValue(out) * 256 + byte;
    Pow2Add(8, bits);
    LimbIsFourBytes();
    hide BeValue, Pow2, And;
    LowDigits(buf, p, 256);
    Commute(p, 256);
    MulAssoc(BeValue(out), 256, p);
    Distribute(BeValue(out) * 256, byte, p);
  }

  // ---------------------------------------------------------------------------------------
  // Encoding (section 4 of RFC 4648) and its inverse
  // ---------------------------------------------------------------------------------------

  /** The letter of a six-bit value. */
  function Alphabet(v: Byte): (c: Byte)
    requires v < 64
    ensures Letter(c) == v
  {
    if v < 26 then 65 + v
    else if v < 52 then 71 + v
    else if v < 62 then v - 4
    else if v == 62 then 43
    else 47
  }

  /** The four six-bit values of three bytes. */
  function Sextet0(a: Byte): (v: Byte) ensures v < 64 { a / 4 }
  function Sextet1(a: Byte, b: Byte): (v: Byte) ensures v < 64 { a % 4 * 16 + b / 16 }
  function Sextet2(b: Byte, c: Byte): (v: Byte) ensures v < 64 { b % 16 * 4 + c / 64 }
  function Sextet3(c: Byte): (v: Byte) ensures v < 64 { c % 64 }

  /** Three bytes are four letters; one or two last bytes are filled up with padding. */
  function Encode(b: seq<Byte>): seq<Byte> {
    if b == [] then []
    else if |b| == 1 then
      [Alphabet(Sextet0(b[0])), Alphabet(Sextet1(b[0], 0)), 61, 61]
    else if |b| == 2 then
      [Alphabet(Sextet0(b[0])), Alphabet(Sextet1(b[0], b[1])), Alphabet(Sextet2(b[1], 0)), 61]
    else
      [Alphabet(Sextet0(b[0])), Alphabet(Sextet1(b[0], b[1])),
       Alphabet(Sextet2(b[1], b[2])), Alphabet(Sextet3(b[2]))] + Encode(b[3..])
  }

  /** `text` is `chars` with white space in between. */
  predicate Spaced(text: seq<Byte>, chars: seq<Byte>) {
    if text == [] then chars == []
    else if Letter(text[0]) == SKIP then Spaced(text[1..], chars)
    else chars != [] && text[0] == chars[0] && Spaced(text[1..], chars[1..])
  }

  lemma {:induction false} SpacedReads(text: seq<Byte>, chars: seq<Byte>)
    requires Spaced(text, chars)
    ensures Values(text) == Values(chars)
    ensures Accepted(chars) ==> Accepted(text)
  {
    if text != [] {
      if Letter(text[0]) == SKIP {
        SpacedReads(text[1..], chars);
      } else {
        SpacedReads(text[1..], chars[1..]);
      }
    }
  }

  lemma {:induction false} SpacedBoth(s: seq<Byte>, x: seq<Byte>, t: seq<Byte>, y: seq<Byte>)
    requires Spaced(s, x) && Spaced(t, y)
    ensures Spaced(s + t, x + y)
  {
    if s == [] {
      assert s + t == t && x + y == y;
    } else {
      assert (s + t)[1..] == s[1..] + t;
      if Letter(s[0]) == SKIP {
        SpacedBoth(s[1..], x, t, y);
      } else {
        SpacedBoth(s[1..], x[1..], t, y);
        assert (x + y)[1..] == x[1..] + y;
      }
    }
  }

  lemma {:induction false} SpacedItself(s: seq<Byte>)
    requires forall i :: 0 <= i < |s| ==> Letter(s[i]) != SKIP
    ensures Spaced(s, s)
  {
    if s != [] { SpacedItself(s[1..]); }
  }

  /** Lines one after the other, with a line end behind each. */
  function Lines(lines: seq<seq<Byte>>, eol: seq<Byte>): seq<Byte> {
    if lines == [] then [] else lines[0] + eol + Lines(lines[1..], eol)
  }

  /** Lines of letters, of any lengths, are their letters with white space in between. */
  lemma {:induction false} LinesSpaced(lines: seq<seq<Byte>>, eol: seq<Byte>)
    requires eol == [10] || eol == [13, 10]
    requires forall i :: 0 <= i < |Lines(lines, [])| ==> Letter(Lines(lines, [])[i]) != SKIP
    ensures Spaced(Lines(lines, eol), Lines(lines, []))
  {
    if lines != [] {
      var line, rest := lines[0], Lines(lines[1..], []);
      var all := line + [] + rest;
      assert Lines(lines, []) == all;
      forall i | 0 <= i < |line| ensures Letter(line[i]) != SKIP { assert line[i] == all[i]; }
      forall i | 0 <= i < |rest| ensures Letter(rest[i]) != SKIP { assert rest[i] == all[|line| + i]; }
      LinesSpaced(lines[1..], eol);
      SpacedItself(line);
      EolSpaced(eol);
      hide Spaced, Letter, Lines;
      SpacedBoth(line, line, eol, []);
      SpacedBoth(line + eol, line + [], Lines(lines[1..], eol), rest);
    }
  }

  lemma EolSpaced(eol: seq<Byte>)
    requires eol == [10] || eol == [13, 10]
    ensures Spaced(eol, [])
  {
    assert [13, 10][1..] == [10] && [10][1..] == [];
  }

  lemma {:induction false} SixConcat(s: seq<Byte>, t: seq<Byte>)
    ensures SixValue(s + t) == SixValue(s) * Pow2(6 * |t|) + SixValue(t)
  {
    if t == [] {
      assert s + t == s && Pow2(0) == 1;
    } else {
      var n := |t| - 1;
      assert (s + t)[..|s + t| - 1] == s + t[..n];
      SixConcat(s, t[..n]);
      SixBits(6 * n);
      hide Pow2;
      MulAssoc(SixValue(s), Pow2(6 * n), 64);
      Commute(Pow2(6 * n), 64);
      Distribute(SixValue(s) * Pow2(6 * n), SixValue(t[..n]), 64);
    }
  }

  lemma SixOfFour(a: Byte, b: Byte, c: Byte, d: Byte)
    ensures SixValue([a, b, c, d]) == (((a as int) * 64 + b) * 64 + c) * 64 + d
    ensures SixValue([a, b, c]) == ((a as int) * 64 + b) * 64 + c
    ensures SixValue([a, b]) == (a as int) * 64 + b
  {
    assert [a][..0] == [] && [a, b][..1] == [a] && [a, b, c][..2] == [a, b] && [a, b, c, d][..3] == [a, b, c];
    assert SixValue([a]) == a;
    assert SixValue([a, b]) == SixValue([a]) * 64 + b;
    assert SixValue([a, b, c]) == SixValue([a, b]) * 64 + c;
  }

  lemma BeOfThree(a: Byte, b: Byte, c: Byte)
    ensures BeValue([a]) == a
    ensures BeValue([a, b]) == (a as int) * 256 + b
    ensures BeValue([a, b, c]) == ((a as int) * 256 + b) * 256 + c
  {
    assert [a][..0] == [] && [a, b][..1] == [a] && [a, b, c][..2] == [a, b];
  }

  /** The bits of three bytes, regrouped by six. */
  lemma Regrouped(a: Byte, b: Byte, c: Byte)
    ensures (Sextet0(a) as int) * 64 + Sextet1(a, 0) == (a as int) * 16
    ensures ((Sextet0(a) as int) * 64 + Sextet1(a, b)) * 64 + Sextet2(b, 0) == ((a as int) * 256 + b) * 4
    ensures (((Sextet0(a) as int) * 64 + Sextet1(a, b)) * 64 + Sextet2(b, c)) * 64 + Sextet3(c)
            == ((a as int) * 256 + b) * 256 + c
  {
  }

  lemma ReadLetter(v: Byte, r: seq<Byte>)
    requires v < 64
    ensures Values([Alphabet(v)] + r) == [v] + Values(r)
    ensures Accepted([Alphabet(v)] + r) <==> Accepted(r)
  {
    assert ([Alphabet(v)] + r)[1..] == r;
  }

  lemma ReadPadding(r: seq<Byte>)
    ensures Values([61] + r) == [] && Accepted([61] + r)
  {
  }

  lemma ReadTwo(v: Byte, w: Byte, r: seq<Byte>)
    requires v < 64 && w < 64
    ensures Values([Alphabet(v), Alphabet(w)] + r) == [v, w] + Values(r)
    ensures Accepted([Alphabet(v), Alphabet(w)] + r) <==> Accepted(r)
  {
    hide Values, Accepted, Alphabet, Letter;
    assert [Alphabet(v), Alphabet(w)] + r == [Alphabet(v)] + ([Alphabet(w)] + r);
    ReadLetter(v, [Alphabet(w)] + r);
    ReadLetter(w, r);
    assert [v] + ([w] + Values(r)) == [v, w] + Values(r);
  }

  lemma ReadFour(u: Byte, v: Byte, w: Byte, x: Byte, r: seq<Byte>)
    requires u < 64 && v < 64 && w < 64 && x < 64
    ensures Values([Alphabet(u), Alphabet(v), Alphabet(w), Alphabet(x)] + r) == [u, v, w, x] + Values(r)
    ensures Accepted([Alphabet(u), Alphabet(v), Alphabet(w), Alphabet(x)] + r) <==> Accepted(r)
  {
    hide Values, Accepted, Alphabet, Letter;
    assert [Alphabet(u), Alphabet(v), Alphabet(w), Alphabet(x)] + r
        == [Alphabet(u), Alphabet(v)] + ([Alphabet(w), Alphabet(x)] + r);
    ReadTwo(u, v, [Alphabet(w), Alphabet(x)] + r);
    ReadTwo(w, x, r);
    assert [u, v] + ([w, x] + Values(r)) == [u, v, w, x] + Values(r);
  }

  /** The number of letters for `n` bytes, and the bits that they have too many. */
  function Letters(n: nat): nat {
    (8 * n + 5) / 6
  }

  function Fill(n: nat): (f: nat)
    ensures f == 6 * Letters(n) - 8 * n && f < 6
  {
    6 * Letters(n) - 8 * n
  }

  /** The six-bit values of an encoding stand for the bytes, shifted by the bits filled up. */
  lemma {:induction false} EncodeReads(b: seq<Byte>)
    ensures Accepted(Encode(b))
    ensures |Values(Encode(b))| == Letters(|b|)
    ensures SixValue(Values(Encode(b))) == BeValue(b) * Pow2(Fill(|b|))
  {
    hide Encode, Values, Accepted, SixValue, BeValue, Pow2, Letters, Fill;
    if |b| == 0 {
      EncodeReadsNone();
    } else if |b| == 1 {
      EncodeReadsOne(b[0]);
      assert b == [b[0]];
    } else if |b| == 2 {
      EncodeReadsTwo(b[0], b[1]);
      assert b == [b[0], b[1]];
    } else {
      EncodeReads(b[3..]);
      EncodeReadsThree(b[0], b[1], b[2], b[3..]);
      assert b == [b[0], b[1], b[2]] + b[3..];
    }
  }

  lemma EncodeReadsNone()
    ensures Accepted(Encode([])) && |Values(Encode([]))| == Letters(0)
    ensures SixValue(Values(Encode([]))) == BeValue([]) * Pow2(Fill(0))
  {
    hide Pow2;
    var none: seq<Byte> := [];
    assert Encode(none) == none && Values(none) == none;
    assert SixValue(none) == 0 && BeValue(none) == 0;
  }

  lemma EncodeReadsOne(a: Byte)
    ensures Accepted(Encode([a])) && |Values(Encode([a]))| == Letters(1)
    ensures SixValue(Values(Encode([a]))) == BeValue([a]) * Pow2(Fill(1))
  {
    var q0, q1 := Sextet0(a), Sextet1(a, 0);
    assert Encode([a]) == [Alphabet(q0), Alphabet(q1)] + ([61] + [61]);
    assert Pow2(4) == 16;
    hide Encode, Values, Accepted, Letter, Alphabet, SixValue, BeValue, Pow2, Sextet0, Sextet1, Sextet2, Sextet3;
    ReadTwo(q0, q1, [61] + [61]);
    ReadPadding([61]);
    assert [q0, q1] + [] == [q0, q1];
    SixOfFour(q0, q1, 0, 0);
    BeOfThree(a, 0, 0);
    Regrouped(a, 0, 0);
  }

  lemma EncodeReadsTwo(a: Byte, b: Byte)
    ensures Accepted(Encode([a, b])) && |Values(Encode([a, b]))| == Letters(2)
    ensures SixValue(Values(Encode([a, b]))) == BeValue([a, b]) * Pow2(Fill(2))
  {
    var q0, q1, q2 := Sextet0(a), Sextet1(a, b), Sextet2(b, 0);
    assert Encode([a, b]) == [Alphabet(q0), Alphabet(q1)] + ([Alphabet(q2)] + ([61] + []));
    assert Pow2(2) == 4;
    hide Encode, Values, Accepted, Letter, Alphabet, SixValue, BeValue, Pow2, Sextet0, Sextet1, Sextet2, Sextet3;
    ReadTwo(q0, q1, [Alphabet(q2)] + ([61] + []));
    ReadLetter(q2, [61] + []);
    ReadPadding([]);
    assert [q0, q1] + ([q2] + []) == [q0, q1, q2];
    SixOfFour(q0, q1, q2, 0);
    BeOfThree(a, b, 0);
    Regrouped(a, b, 0);
  }

  lemma EncodeReadsThree(a: Byte, b: Byte, c: Byte, rest: seq<Byte>)
    requires Accepted(Encode(rest)) && |Values(Encode(rest))| == Letters(|rest|)
    requires SixValue(Values(Encode(rest))) == BeValue(rest) * Pow2(Fill(|rest|))
    ensures Accepted(Encode([a, b, c] + rest)) && |Values(Encode([a, b, c] + rest))| == Letters(|rest| + 3)
    ensures SixValue(Values(Encode([a, b, c] + rest))) == BeValue([a, b, c] + rest) * Pow2(Fill(|rest| + 3))
  {
    var q0, q1, q2, q3 := Sextet0(a), Sextet1(a, b), Sextet2(b, c), Sextet3(c);
    EncodeThree(a, b, c, rest);
    hide Encode, Values, Accepted, Letter, Alphabet, SixValue, BeValue, Pow2, Sextet0, Sextet1, Sextet2, Sextet3;
    ReadFour(q0, q1, q2, q3, Encode(rest));
    SixOfFour(q0, q1, q2, q3);
    BeOfThree(a, b, c);
    Regrouped(a, b, c);
    assert SixValue([q0, q1, q2, q3]) == BeValue([a, b, c]);
    assert Letters(|rest| + 3) == Letters(|rest|) + 4 && Fill(|rest| + 3) == Fill(|rest|);
    JoinThree([q0, q1, q2, q3], Values(Encode(rest)), [a, b, c], rest);
  }

  lemma EncodeThree(a: Byte, b: Byte, c: Byte, rest: seq<Byte>)
    ensures Encode([a, b, c] + rest)
         == [Alphabet(Sextet0(a)), Alphabet(Sextet1(a, b)), Alphabet(Sextet2(b, c)), Alphabet(Sextet3(c))]
             + Encode(rest)
  {
    hide Alphabet;
    var s := [a, b, c] + rest;
    assert s[3..] == rest && s[0] == a && s[1] == b && s[2] == c;
  }

  lemma JoinThree(quad: seq<Byte>, vs: seq<Byte>, front: seq<Byte>, rest: seq<Byte>)
    requires |vs| == Letters(|rest|) && SixValue(quad) == BeValue(front)
    requires SixValue(vs) == BeValue(rest) * Pow2(Fill(|rest|))
    ensures SixValue(quad + vs) == BeValue(front + rest) * Pow2(Fill(|rest|))
  {
    hide SixValue, BeValue, Pow2, Letters;
    var n, fill := |rest|, Fill(|rest|);
    SixConcat(quad, vs);
    BeConcat(front, rest);
    Pow2Add(8 * n, fill);
    MulAssoc(BeValue(front), Pow2(8 * n), Pow2(fill));
    Distribute(BeValue(front) * Pow2(8 * n), BeValue(rest), Pow2(fill));
  }

  /** The whole bytes in `n` six-bit values, and the bits that are left over. */
  function WholeBytes(n: nat): nat {
    6 * n / 8
  }

  function SpareBits(n: nat): nat {
    6 * n % 8
  }

  /** The bytes that a text decodes to. */
  function Decoded(s: seq<Byte>): seq<Byte> {
    ToBytes(Shr(SixValue(Values(s)), SpareBits(|Values(s)|)), WholeBytes(|Values(s)|))
  }

  /** Bytes are no more than letters. */
  lemma DecodedLength(s: seq<Byte>)
    ensures |Decoded(s)| <= |s|
  {
    hide ToBytes, SixValue;
    ValuesLength(s);
  }

  lemma {:induction false} ValuesLength(s: seq<Byte>)
    ensures |Values(s)| <= |s|
  {
    if s != [] {
      ValuesLength(s[1..]);
    }
  }

  /** Decoding an encoding, with any white space in between, gives the bytes back. */
  lemma DecodedEncoding(b: seq<Byte>, text: seq<Byte>)
    requires Spaced(text, Encode(b))
    ensures Accepted(text) && Decoded(text) == b
  {
    hide Encode, Values, SixValue, BeValue, Pow2, Spaced, Accepted, ToBytes, Letters, Fill;
    SpacedReads(text, Encode(b));
    EncodeReads(b);
    ShiftedBytes(b, Values(text));
  }

  lemma ShiftedBytes(b: seq<Byte>, vs: seq<Byte>)
    requires |vs| == Letters(|b|) && SixValue(vs) == Shl(BeValue(b), Fill(|b|))
    ensures ToBytes(Shr(SixValue(vs), SpareBits(|vs|)), WholeBytes(|vs|)) == b
  {
    LettersFill(|b|);
    hide SixValue, BeValue, Pow2, ToBytes, Letters, Fill, SpareBits, WholeBytes, Shr, Shl;
    ShrShl(BeValue(b), 0, Fill(|b|));
    ToBytesOfValue(b);
  }

  lemma ShrShl(x: nat, low: nat, k: nat)
    requires low < Pow2(k)
    ensures Shr(Shl(x, k) + low, k) == x
  {
    DivOffset(low, x, Pow2(k));
  }

  lemma LettersFill(n: nat)
    ensures WholeBytes(Letters(n)) == n && SpareBits(Letters(n)) == Fill(n)
  {
  }

  /** An encoding consists of letters and padding. */
  lemma {:induction false} EncodingLetters(b: seq<Byte>)
    ensures forall i :: 0 <= i < |Encode(b)| ==> Letter(Encode(b)[i]) < 64 || Encode(b)[i] == 61
    ensures forall i :: 0 <= i < |Encode(b)| ==> Encode(b)[i] != 45
    ensures b != [] ==> Encode(b) != []
  {
    if |b| >= 3 {
      EncodingLetters(b[3..]);
    }
  }

  /** A spaced text consists of its letters, padding and white space. */
  lemma {:induction false} SpacedLetters(text: seq<Byte>, chars: seq<Byte>)
    requires Spaced(text, chars)
    ensures forall i :: 0 <= i < |text| ==> Letter(text[i]) == SKIP || text[i] in chars
    ensures chars != [] ==> text != []
  {
    if text != [] {
      SpacedLetters(text[1..], if Letter(text[0]) == SKIP then chars else chars[1..]);
      forall i | 0 <= i < |text| ensures Letter(text[i]) == SKIP || text[i] in chars {
        if i > 0 { assert text[i] == text[1..][i - 1]; }
      }
    }
  }

  /** Encoding, spreading over lines and decoding is the identity. */
  method RoundTrip(b: seq<Byte>, text: seq<Byte>) returns (ok: bool, out: seq<Byte>)
    requires Spaced(text, Encode(b))
    ensures ok && out == b
  {
    hide Encode, Values, SixValue, BeValue, Pow2, Spaced, Accepted;
    SpacedReads(text, Encode(b));
    EncodeReads(b);
    ok, out := Decode(text);
    DecodedEncoding(b, text);
  }

  lemma EncodeNone()
    ensures Encode([]) == []
  {
  }

  /** The examples of section 10 of RFC 4648: "foobar" and what it begins with. */
  lemma Vectors()
    ensures Encode([102]) == [90, 103, 61, 61] // Zg==
    ensures Encode([102, 111]) == [90, 109, 56, 61] // Zm8=
    ensures Encode([102, 111, 111]) == [90, 109, 57, 118] // Zm9v
    ensures Encode([102, 111, 111, 98]) == [90, 109, 57, 118, 89, 103, 61, 61] // Zm9vYg==
    ensures Encode([102, 111, 111, 98, 97]) == [90, 109, 57, 118, 89, 109, 69, 61] // Zm9vYmE=
    ensures Encode([102, 111, 111, 98, 97, 114]) == [90, 109, 57, 118, 89, 109, 70, 121] // Zm9vYmFy
  {
    hide Letter;
    assert [102, 111, 111, 98][3..] == [98];
    assert [102, 111, 111, 98, 97][3..] == [98, 97];
    assert [102, 111, 111, 98, 97, 114][3..] == [98, 97, 114];
  }
}
