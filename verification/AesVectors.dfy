/** The example vectors of appendix C of FIPS 197, for keys of all three sizes. */
module AesVectors {
  import opened Gf
  import opened Aes

  // ---------------------------------------------------------------------------------------
  // Words as numbers
  // ---------------------------------------------------------------------------------------

  function B0(x: bv32): bv8 { (x >> 24) as bv8 }
  function B1(x: bv32): bv8 { ((x >> 16) & 0xff) as bv8 }
  function B2(x: bv32): bv8 { ((x >> 8) & 0xff) as bv8 }
  function B3(x: bv32): bv8 { (x & 0xff) as bv8 }

  function Bytes(x: bv32): Word {
    [B0(x), B1(x), B2(x), B3(x)]
  }

  function State(a: bv32, b: bv32, c: bv32, d: bv32): Block {
    Bytes(a) + Bytes(b) + Bytes(c) + Bytes(d)
  }

  function Packed(a: bv8, b: bv8, c: bv8, d: bv8): bv32 {
    ((a as bv32) << 24) | ((b as bv32) << 16) | ((c as bv32) << 8) | (d as bv32)
  }

  lemma PackedBytes(a: bv8, b: bv8, c: bv8, d: bv8)
    ensures Bytes(Packed(a, b, c, d)) == [a, b, c, d]
  {
    var x := Packed(a, b, c, d);
    assert B0(x) == a;
    assert B1(x) == b;
    assert B2(x) == c;
    assert B3(x) == d;
  }

  function Plus32(x: bv32, y: bv32): bv32 { x ^ y }

  lemma Plus0(x: bv32, y: bv32) ensures B0(Plus32(x, y)) == Add(B0(x), B0(y)) { }
  lemma Plus1(x: bv32, y: bv32) ensures B1(Plus32(x, y)) == Add(B1(x), B1(y)) { }
  lemma Plus2(x: bv32, y: bv32) ensures B2(Plus32(x, y)) == Add(B2(x), B2(y)) { }
  lemma Plus3(x: bv32, y: bv32) ensures B3(Plus32(x, y)) == Add(B3(x), B3(y)) { }

  lemma BytesPlus(x: bv32, y: bv32)
    ensures Bytes(Plus32(x, y)) == XorWord(Bytes(x), Bytes(y))
  {
    hide B0, B1, B2, B3, Plus32, Add;
    Plus0(x, y);
    Plus1(x, y);
    Plus2(x, y);
    Plus3(x, y);
  }

  // ---------------------------------------------------------------------------------------
  // Words of the key schedule
  // ---------------------------------------------------------------------------------------

  /** Word `i` of the key schedule is `x`. */
  ghost predicate WordIs(key: seq<bv8>, nk: nat, i: nat, x: bv32) {
    0 < nk && |key| == 4 * nk && KeyWord(key, nk, i) == Bytes(x)
  }

  /** What the first word of a row is changed by, with the power of x for the row. */
  function Turned32(p: bv32, power: bv8): bv32 {
    Packed(Add(Sbox(((p >> 16) & 0xff) as bv8), power), Sbox(((p >> 8) & 0xff) as bv8), Sbox((p & 0xff) as bv8),
           Sbox((p >> 24) as bv8))
  }

  /** What the middle word of a row of 8 is changed by. */
  function Subbed32(p: bv32): bv32 {
    Packed(Sbox((p >> 24) as bv8), Sbox(((p >> 16) & 0xff) as bv8), Sbox(((p >> 8) & 0xff) as bv8),
           Sbox((p & 0xff) as bv8))
  }

  lemma Turned32Is(p: bv32, power: bv8)
    ensures Bytes(Turned32(p, power)) == XorWord(SubWord(RotWord(Bytes(p))), [power, 0, 0, 0])
  {
    var a, b, c, d := Sbox(((p >> 16) & 0xff) as bv8), Sbox(((p >> 8) & 0xff) as bv8), Sbox((p & 0xff) as bv8),
                      Sbox((p >> 24) as bv8);
    assert a == Sbox(B1(p)) && b == Sbox(B2(p)) && c == Sbox(B3(p)) && d == Sbox(B0(p));
    hide Sbox, Packed, Add, B0, B1, B2, B3;
    PackedBytes(Add(a, power), b, c, d);
    AddZero(b);
    AddZero(c);
    AddZero(d);
  }

  lemma Subbed32Is(p: bv32)
    ensures Bytes(Subbed32(p)) == SubWord(Bytes(p))
  {
    hide Sbox, Packed;
    PackedBytes(Sbox(B0(p)), Sbox(B1(p)), Sbox(B2(p)), Sbox(B3(p)));
  }

  /** Word `i` is `x` if `p` is the word before it and `e` the one `nk` words before it. */
  predicate Follows(nk: nat, i: nat, e: bv32, p: bv32, x: bv32) {
    && (nk == 4 || nk == 6 || nk == 8) && nk <= i && i / nk <= 10
    && x == Plus32(e, if i % nk == 0 then Turned32(p, if i / nk > 0 then POWERS[i / nk - 1] else 0)
                      else if nk == 8 && i % nk == 4 then Subbed32(p) else p)
  }

  lemma WordFollows(key: seq<bv8>, nk: nat, i: nat, e: bv32, p: bv32, x: bv32)
    requires Follows(nk, i, e, p, x) && WordIs(key, nk, i - nk, e) && WordIs(key, nk, i - 1, p)
    ensures WordIs(key, nk, i, x)
  {
    hide KeyWord, PowerOfX, Turned32, Subbed32, Bytes, SubWord, RotWord, XorWord, Plus32;
    var q := Quotient(i, nk);
    PowersOfX(q - 1);
    Turned32Is(p, POWERS[q - 1]);
    Subbed32Is(p);
    KeyWordStep(key, nk, i);
    BytesPlus(e, Turned32(p, POWERS[q - 1]));
    BytesPlus(e, Subbed32(p));
    BytesPlus(e, p);
  }

  // ---------------------------------------------------------------------------------------
  // Rounds
  // ---------------------------------------------------------------------------------------

  /** One column of a round, from one byte of each of four columns. */
  function Column(a: bv32, b: bv32, c: bv32, d: bv32): bv32 {
    Mixed(Sbox((a >> 24) as bv8), Sbox(((b >> 16) & 0xff) as bv8), Sbox(((c >> 8) & 0xff) as bv8),
          Sbox((d & 0xff) as bv8))
  }

  function Short(a: bv8, b: bv8, t: bv8): bv8 {
    a ^ t ^ Xtime(a ^ b)
  }

  function Mixed(a: bv8, b: bv8, c: bv8, d: bv8): bv32 {
    var t := a ^ b ^ c ^ d;
    Packed(Short(a, b, t), Short(b, c, t), Short(c, d, t), Short(d, a, t))
  }

  /** One column of the last round. */
  function LastColumn(a: bv32, b: bv32, c: bv32, d: bv32): bv32 {
    Packed(Sbox((a >> 24) as bv8), Sbox(((b >> 16) & 0xff) as bv8), Sbox(((c >> 8) & 0xff) as bv8),
           Sbox((d & 0xff) as bv8))
  }

  lemma ShortIs(a: bv8, b: bv8, c: bv8, d: bv8, t: bv8)
    requires t == Sum(a, b, c, d)
    ensures Short(a, b, t) == MixRow(a, b, c, d)
  {
    MixRowFast(a, b, c, d);
    hide MixRow, Xtime, Sum;
  }

  lemma SumOf(a: bv8, b: bv8, c: bv8, d: bv8)
    ensures a ^ b ^ c ^ d == Sum(a, b, c, d)
  {
  }

  lemma MixedIs(a: bv8, b: bv8, c: bv8, d: bv8)
    ensures Bytes(Mixed(a, b, c, d)) == [MixRow(a, b, c, d), MixRow(b, c, d, a), MixRow(c, d, a, b), MixRow(d, a, b, c)]
  {
    hide Xtime, MixRow, Add, Packed, Sum, Short, Bytes;
    SumOf(a, b, c, d);
    var t := Sum(a, b, c, d);
    Rotated(a, b, c, d);
    Rotated(b, c, d, a);
    Rotated(c, d, a, b);
    ShortIs(a, b, c, d, t);
    ShortIs(b, c, d, a, t);
    ShortIs(c, d, a, b, t);
    ShortIs(d, a, b, c, t);
    PackedBytes(Short(a, b, t), Short(b, c, t), Short(c, d, t), Short(d, a, t));
  }

  lemma SubbedWords(p: Word, q: Word, r: Word, s: Word)
    ensures SubBytes(p + q + r + s) == SubWord(p) + SubWord(q) + SubWord(r) + SubWord(s)
  {
    hide Sbox;
    var x, y := SubBytes(p + q + r + s), SubWord(p) + SubWord(q) + SubWord(r) + SubWord(s);
    assert forall i :: 0 <= i < 4 ==> x[i] == y[i];
    assert forall i :: 4 <= i < 8 ==> x[i] == y[i];
    assert forall i :: 8 <= i < 12 ==> x[i] == y[i];
    assert forall i :: 12 <= i < 16 ==> x[i] == y[i];
  }

  lemma ShiftedWords(p: Word, q: Word, r: Word, s: Word)
    ensures ShiftRows(p + q + r + s) == [p[0], q[1], r[2], s[3]] + [q[0], r[1], s[2], p[3]]
                                        + [r[0], s[1], p[2], q[3]] + [s[0], p[1], q[2], r[3]]
  {
    hide ShiftRows;
    ShiftRowsLists(p + q + r + s);
  }

  lemma XorWords(p: Word, q: Word, r: Word, s: Word, p': Word, q': Word, r': Word, s': Word)
    ensures Xor(p + q + r + s, p' + q' + r' + s') == XorWord(p, p') + XorWord(q, q') + XorWord(r, r') + XorWord(s, s')
  {
    hide Add;
    var x := Xor(p + q + r + s, p' + q' + r' + s');
    var y := XorWord(p, p') + XorWord(q, q') + XorWord(r, r') + XorWord(s, s');
    assert forall i :: 0 <= i < 4 ==> x[i] == y[i];
    assert forall i :: 4 <= i < 8 ==> x[i] == y[i];
    assert forall i :: 8 <= i < 12 ==> x[i] == y[i];
    assert forall i :: 12 <= i < 16 ==> x[i] == y[i];
  }

  /** The bytes of four columns, row by row from one column each. */
  lemma Shifted(a: bv32, b: bv32, c: bv32, d: bv32)
    ensures ShiftRows(SubBytes(State(a, b, c, d))) ==
            [Sbox(B0(a)), Sbox(B1(b)), Sbox(B2(c)), Sbox(B3(d))] + [Sbox(B0(b)), Sbox(B1(c)), Sbox(B2(d)), Sbox(B3(a))]
            + [Sbox(B0(c)), Sbox(B1(d)), Sbox(B2(a)), Sbox(B3(b))]
            + [Sbox(B0(d)), Sbox(B1(a)), Sbox(B2(b)), Sbox(B3(c))]
  {
    hide Sbox, B0, B1, B2, B3, ShiftRows, SubBytes;
    SubbedWords(Bytes(a), Bytes(b), Bytes(c), Bytes(d));
    ShiftedWords(SubWord(Bytes(a)), SubWord(Bytes(b)), SubWord(Bytes(c)), SubWord(Bytes(d)));
  }

  lemma MixedColumns(p: Word, q: Word, r: Word, s: Word)
    ensures MixColumns(p + q + r + s) == MixedWord(p) + MixedWord(q) + MixedWord(r) + MixedWord(s)
  {
    hide MixedAt, MixRow;
    var t: Block := p + q + r + s;
    MixedRows(t, 0);
    MixedRows(t, 1);
    MixedRows(t, 2);
    MixedRows(t, 3);
  }

  function MixedWord(p: Word): Word {
    [MixRow(p[0], p[1], p[2], p[3]), MixRow(p[1], p[2], p[3], p[0]), MixRow(p[2], p[3], p[0], p[1]),
     MixRow(p[3], p[0], p[1], p[2])]
  }

  lemma RawBytes(a: bv32)
    ensures B0(a) == (a >> 24) as bv8 && B1(a) == ((a >> 16) & 0xff) as bv8 && B2(a) == ((a >> 8) & 0xff) as bv8
    ensures B3(a) == (a & 0xff) as bv8
  {
  }

  lemma ColumnIs(a: bv32, b: bv32, c: bv32, d: bv32)
    ensures MixedWord([Sbox(B0(a)), Sbox(B1(b)), Sbox(B2(c)), Sbox(B3(d))]) == Bytes(Column(a, b, c, d))
    ensures [Sbox(B0(a)), Sbox(B1(b)), Sbox(B2(c)), Sbox(B3(d))] == Bytes(LastColumn(a, b, c, d))
  {
    RawBytes(a);
    RawBytes(b);
    RawBytes(c);
    RawBytes(d);
    hide Sbox, B0, B1, B2, B3, Bytes, MixRow, Mixed, Packed;
    MixedIs(Sbox(B0(a)), Sbox(B1(b)), Sbox(B2(c)), Sbox(B3(d)));
    PackedBytes(Sbox(B0(a)), Sbox(B1(b)), Sbox(B2(c)), Sbox(B3(d)));
  }

  lemma XorStates(a: bv32, b: bv32, c: bv32, d: bv32, k0: bv32, k1: bv32, k2: bv32, k3: bv32)
    ensures Xor(State(a, b, c, d), State(k0, k1, k2, k3))
         == State(Plus32(a, k0), Plus32(b, k1), Plus32(c, k2), Plus32(d, k3))
  {
    hide Bytes, Plus32, Add, Xor, XorWord;
    XorWords(Bytes(a), Bytes(b), Bytes(c), Bytes(d), Bytes(k0), Bytes(k1), Bytes(k2), Bytes(k3));
    BytesPlus(a, k0);
    BytesPlus(b, k1);
    BytesPlus(c, k2);
    BytesPlus(d, k3);
  }

  lemma RoundColumns(a: bv32, b: bv32, c: bv32, d: bv32)
    ensures var s := ShiftRows(SubBytes(State(a, b, c, d)));
            && MixColumns(s) == State(Column(a, b, c, d), Column(b, c, d, a), Column(c, d, a, b), Column(d, a, b, c))
            && s == State(LastColumn(a, b, c, d), LastColumn(b, c, d, a), LastColumn(c, d, a, b),
                          LastColumn(d, a, b, c))
  {
    hide Sbox, B0, B1, B2, B3, Bytes, ShiftRows, SubBytes, MixColumns, Column, LastColumn, MixedWord;
    Shifted(a, b, c, d);
    ColumnIs(a, b, c, d);
    ColumnIs(b, c, d, a);
    ColumnIs(c, d, a, b);
    ColumnIs(d, a, b, c);
    MixedColumns([Sbox(B0(a)), Sbox(B1(b)), Sbox(B2(c)), Sbox(B3(d))],
                 [Sbox(B0(b)), Sbox(B1(c)), Sbox(B2(d)), Sbox(B3(a))],
                 [Sbox(B0(c)), Sbox(B1(d)), Sbox(B2(a)), Sbox(B3(b))],
                 [Sbox(B0(d)), Sbox(B1(a)), Sbox(B2(b)), Sbox(B3(c))]);
  }

  // ---------------------------------------------------------------------------------------
  // Blocks as numbers
  // ---------------------------------------------------------------------------------------

  function W0(x: bv128): bv32 { (x >> 96) as bv32 }
  function W1(x: bv128): bv32 { ((x >> 64) & 0xffff_ffff) as bv32 }
  function W2(x: bv128): bv32 { ((x >> 32) & 0xffff_ffff) as bv32 }
  function W3(x: bv128): bv32 { (x & 0xffff_ffff) as bv32 }

  function Block128(x: bv128): Block {
    State(W0(x), W1(x), W2(x), W3(x))
  }

  /** Round key `k` turns state `s` into state `t`. */
  predicate Round(s: bv128, k: bv128, t: bv128) {
    && W0(t) == Plus32(Column(W0(s), W1(s), W2(s), W3(s)), W0(k))
    && W1(t) == Plus32(Column(W1(s), W2(s), W3(s), W0(s)), W1(k))
    && W2(t) == Plus32(Column(W2(s), W3(s), W0(s), W1(s)), W2(k))
    && W3(t) == Plus32(Column(W3(s), W0(s), W1(s), W2(s)), W3(k))
  }

  predicate LastRound(s: bv128, k: bv128, t: bv128) {
    && W0(t) == Plus32(LastColumn(W0(s), W1(s), W2(s), W3(s)), W0(k))
    && W1(t) == Plus32(LastColumn(W1(s), W2(s), W3(s), W0(s)), W1(k))
    && W2(t) == Plus32(LastColumn(W2(s), W3(s), W0(s), W1(s)), W2(k))
    && W3(t) == Plus32(LastColumn(W3(s), W0(s), W1(s), W2(s)), W3(k))
  }

  /** Round key `x` of round `r` comes behind `k`, and behind `j` before that. */
  predicate KeyRow(nk: nat, r: nat, j: bv128, k: bv128, x: bv128) {
    && Follows(nk, 4 * r, if nk == 4 then W0(k) else if nk == 6 then W2(j) else W0(j), W3(k), W0(x))
    && Follows(nk, 4 * r + 1, if nk == 4 then W1(k) else if nk == 6 then W3(j) else W1(j), W0(x), W1(x))
    && Follows(nk, 4 * r + 2, if nk == 4 then W2(k) else if nk == 6 then W0(k) else W2(j), W1(x), W2(x))
    && Follows(nk, 4 * r + 3, if nk == 4 then W3(k) else if nk == 6 then W1(k) else W3(j), W2(x), W3(x))
  }

  // ---------------------------------------------------------------------------------------
  // Whole keys and blocks
  // ---------------------------------------------------------------------------------------

  /** The round key of round `r` is `k`. */
  ghost predicate KeyIs(bits: KeyBits, key: seq<bv8>, r: nat, k: bv128) {
    && WordIs(key, bits.Nk(), 4 * r, W0(k)) && WordIs(key, bits.Nk(), 4 * r + 1, W1(k))
    && WordIs(key, bits.Nk(), 4 * r + 2, W2(k)) && WordIs(key, bits.Nk(), 4 * r + 3, W3(k))
  }

  /** The state after `r` rounds is `s`. */
  ghost predicate StateIs(bits: KeyBits, key: seq<bv8>, text: bv128, r: nat, s: bv128) {
    && |key| == bits.KeySize() && r < bits.Nr()
    && Rounds(Expanded(bits, key), Block128(text), r) == Block128(s)
  }

  lemma KeyBegins(bits: KeyBits, k: bv128, rest: seq<bv8>)
    requires 16 + |rest| == bits.KeySize()
    ensures KeyIs(bits, Block128(k) + rest, 0, k)
  {
    hide W0, W1, W2, W3, Bytes;
  }

  lemma KeyGoesOn(k: bv128, l: bv128)
    ensures KeyIs(AES256, Block128(k) + Block128(l), 1, l)
  {
    hide W0, W1, W2, W3, Bytes;
    var key := Block128(k) + Block128(l);
    Parts(Block128(k), Bytes(W0(l)), Bytes(W1(l)), Bytes(W2(l)), Bytes(W3(l)));
    assert key == Block128(k) + (Bytes(W0(l)) + Bytes(W1(l)) + Bytes(W2(l)) + Bytes(W3(l)));
  }

  lemma Parts(front: seq<bv8>, p: Word, q: Word, r: Word, s: Word)
    ensures var w, n := front + (p + q + r + s), |front|;
            w[n..n + 4] == p && w[n + 4..n + 8] == q && w[n + 8..n + 12] == r && w[n + 12..n + 16] == s
  {
  }

  lemma KeyEnds(k: bv128, x: bv128)
    requires Follows(6, 6, W0(k), W1(x), W2(x)) && Follows(6, 7, W1(k), W2(x), W3(x))
    ensures KeyIs(AES192, Block128(k) + Bytes(W0(x)) + Bytes(W1(x)), 1, x)
  {
    hide W0, W1, W2, W3, Bytes, Follows, KeyWord;
    var key := Block128(k) + Bytes(W0(x)) + Bytes(W1(x));
    SixWords(Bytes(W0(k)), Bytes(W1(k)), Bytes(W2(k)), Bytes(W3(k)), Bytes(W0(x)), Bytes(W1(x)));
    WordFollows(key, 6, 6, W0(k), W1(x), W2(x));
    WordFollows(key, 6, 7, W1(k), W2(x), W3(x));
  }

  lemma SixWords(p: Word, q: Word, r: Word, s: Word, t: Word, u: Word)
    ensures var key := p + q + r + s + t + u;
            KeyWord(key, 6, 0) == p && KeyWord(key, 6, 1) == q && KeyWord(key, 6, 4) == t && KeyWord(key, 6, 5) == u
  {
    var key := p + q + r + s + t + u;
    assert key[0..4] == p && key[4..8] == q && key[16..20] == t && key[20..24] == u;
  }

  lemma KeyNext(bits: KeyBits, key: seq<bv8>, r: nat, j: bv128, k: bv128, x: bv128)
    requires r > 0 && KeyIs(bits, key, r - 1, k) && (bits.AES128? || (r > 1 && KeyIs(bits, key, r - 2, j)))
    requires KeyRow(bits.Nk(), r, j, k, x)
    ensures KeyIs(bits, key, r, x)
  {
    hide WordIs, Follows, W0, W1, W2, W3;
    var nk := bits.Nk();
    WordFollows(key, nk, 4 * r, if nk == 4 then W0(k) else if nk == 6 then W2(j) else W0(j), W3(k), W0(x));
    WordFollows(key, nk, 4 * r + 1, if nk == 4 then W1(k) else if nk == 6 then W3(j) else W1(j), W0(x), W1(x));
    WordFollows(key, nk, 4 * r + 2, if nk == 4 then W2(k) else if nk == 6 then W0(k) else W2(j), W1(x), W2(x));
    WordFollows(key, nk, 4 * r + 3, if nk == 4 then W3(k) else if nk == 6 then W1(k) else W3(j), W2(x), W3(x));
  }

  lemma RoundKeyIs(bits: KeyBits, key: seq<bv8>, r: nat, k: bv128)
    requires |key| == bits.KeySize() && r <= bits.Nr() && KeyIs(bits, key, r, k)
    ensures RoundKey(Expanded(bits, key), r) == Block128(k)
  {
    hide Schedule, KeyWord, Bytes, W0, W1, W2, W3;
    var nk, n := bits.Nk(), 4 * (bits.Nr() + 1);
    ScheduleWord(key, nk, n, 4 * r);
    ScheduleWord(key, nk, n, 4 * r + 1);
    ScheduleWord(key, nk, n, 4 * r + 2);
    ScheduleWord(key, nk, n, 4 * r + 3);
    FourWords(Expanded(bits, key), 16 * r);
  }

  lemma FourWords(w: seq<bv8>, at: nat)
    requires at + 16 <= |w|
    ensures w[at..at + 16] == w[at..at + 4] + w[at + 4..at + 8] + w[at + 8..at + 12] + w[at + 12..at + 16]
  {
    assert w[at..at + 8] == w[at..at + 4] + w[at + 4..at + 8];
    assert w[at..at + 12] == w[at..at + 8] + w[at + 8..at + 12];
  }

  lemma First(bits: KeyBits, key: seq<bv8>, text: bv128, k: bv128, t: bv128)
    requires |key| == bits.KeySize() && KeyIs(bits, key, 0, k)
    requires W0(t) == Plus32(W0(text), W0(k)) && W1(t) == Plus32(W1(text), W1(k))
    requires W2(t) == Plus32(W2(text), W2(k)) && W3(t) == Plus32(W3(text), W3(k))
    ensures StateIs(bits, key, text, 0, t)
  {
    hide Expanded, RoundKey, State, KeyIs, Xor, Plus32, W0, W1, W2, W3;
    RoundKeyIs(bits, key, 0, k);
    XorStates(W0(text), W1(text), W2(text), W3(text), W0(k), W1(k), W2(k), W3(k));
  }

  lemma Next(bits: KeyBits, key: seq<bv8>, text: bv128, r: nat, s: bv128, k: bv128, t: bv128)
    requires r + 1 < bits.Nr() && StateIs(bits, key, text, r, s) && KeyIs(bits, key, r + 1, k) && Round(s, k, t)
    ensures StateIs(bits, key, text, r + 1, t)
  {
    hide Expanded, RoundKey, State, KeyIs, Xor, MixColumns, ShiftRows, SubBytes, Column, LastColumn, Plus32,
        W0, W1, W2, W3;
    RoundKeyIs(bits, key, r + 1, k);
    var a, b, c, d := W0(s), W1(s), W2(s), W3(s);
    RoundColumns(a, b, c, d);
    XorStates(Column(a, b, c, d), Column(b, c, d, a), Column(c, d, a, b), Column(d, a, b, c), W0(k), W1(k), W2(k),
              W3(k));
  }

  lemma Last(bits: KeyBits, key: seq<bv8>, text: bv128, r: nat, s: bv128, k: bv128, t: bv128)
    requires r + 1 == bits.Nr() && StateIs(bits, key, text, r, s) && KeyIs(bits, key, r + 1, k) && LastRound(s, k, t)
    ensures Cipher(Expanded(bits, key), bits.Nr(), Block128(text)) == Block128(t)
  {
    hide Expanded, RoundKey, State, KeyIs, Xor, MixColumns, ShiftRows, SubBytes, Column, LastColumn, Plus32, Rounds,
        W0, W1, W2, W3;
    RoundKeyIs(bits, key, r + 1, k);
    var a, b, c, d := W0(s), W1(s), W2(s), W3(s);
    RoundColumns(a, b, c, d);
    XorStates(LastColumn(a, b, c, d), LastColumn(b, c, d, a), LastColumn(c, d, a, b), LastColumn(d, a, b, c),
              W0(k), W1(k), W2(k), W3(k));
  }

  // ---------------------------------------------------------------------------------------
  // The entries of the substitution table, one by one
  // ---------------------------------------------------------------------------------------

  lemma Sbox0()
    ensures Sbox(0x00) == 0x63 && Sbox(0x01) == 0x7c && Sbox(0x02) == 0x77 && Sbox(0x03) == 0x7b && Sbox(0x04) == 0xf2
    ensures Sbox(0x05) == 0x6b && Sbox(0x06) == 0x6f && Sbox(0x07) == 0xc5 && Sbox(0x08) == 0x30 && Sbox(0x09) == 0x01
    ensures Sbox(0x0a) == 0x67 && Sbox(0x0b) == 0x2b && Sbox(0x0c) == 0xfe && Sbox(0x0d) == 0xd7 && Sbox(0x0e) == 0xab
    ensures Sbox(0x0f) == 0x76
  {
  }

  lemma Sbox1()
    ensures Sbox(0x10) == 0xca && Sbox(0x11) == 0x82 && Sbox(0x12) == 0xc9 && Sbox(0x13) == 0x7d
    ensures Sbox(0x14) == 0xfa && Sbox(0x15) == 0x59 && Sbox(0x16) == 0x47 && Sbox(0x17) == 0xf0
  {
  }

  lemma Sbox1End()
    ensures Sbox(0x18) == 0xad && Sbox(0x19) == 0xd4 && Sbox(0x1a) == 0xa2 && Sbox(0x1b) == 0xaf
    ensures Sbox(0x1c) == 0x9c && Sbox(0x1d) == 0xa4 && Sbox(0x1e) == 0x72 && Sbox(0x1f) == 0xc0
  {
  }

  lemma Sbox2()
    ensures Sbox(0x20) == 0xb7 && Sbox(0x21) == 0xfd && Sbox(0x22) == 0x93 && Sbox(0x23) == 0x26 && Sbox(0x24) == 0x36
    ensures Sbox(0x25) == 0x3f && Sbox(0x26) == 0xf7 && Sbox(0x27) == 0xcc && Sbox(0x28) == 0x34 && Sbox(0x29) == 0xa5
    ensures Sbox(0x2a) == 0xe5 && Sbox(0x2b) == 0xf1 && Sbox(0x2c) == 0x71 && Sbox(0x2d) == 0xd8 && Sbox(0x2e) == 0x31
    ensures Sbox(0x2f) == 0x15
  {
  }

  lemma Sbox3()
    ensures Sbox(0x30) == 0x04 && Sbox(0x31) == 0xc7 && Sbox(0x32) == 0x23 && Sbox(0x33) == 0xc3 && Sbox(0x34) == 0x18
    ensures Sbox(0x35) == 0x96 && Sbox(0x36) == 0x05 && Sbox(0x37) == 0x9a && Sbox(0x38) == 0x07 && Sbox(0x39) == 0x12
    ensures Sbox(0x3a) == 0x80 && Sbox(0x3b) == 0xe2 && Sbox(0x3c) == 0xeb && Sbox(0x3d) == 0x27 && Sbox(0x3e) == 0xb2
    ensures Sbox(0x3f) == 0x75
  {
  }

  lemma Sbox4()
    ensures Sbox(0x40) == 0x09 && Sbox(0x41) == 0x83 && Sbox(0x42) == 0x2c && Sbox(0x43) == 0x1a && Sbox(0x44) == 0x1b
    ensures Sbox(0x45) == 0x6e && Sbox(0x46) == 0x5a && Sbox(0x47) == 0xa0 && Sbox(0x48) == 0x52 && Sbox(0x49) == 0x3b
    ensures Sbox(0x4a) == 0xd6 && Sbox(0x4b) == 0xb3 && Sbox(0x4c) == 0x29 && Sbox(0x4d) == 0xe3 && Sbox(0x4e) == 0x2f
    ensures Sbox(0x4f) == 0x84
  {
  }

  lemma Sbox5()
    ensures Sbox(0x50) == 0x53 && Sbox(0x51) == 0xd1 && Sbox(0x52) == 0x00 && Sbox(0x53) == 0xed && Sbox(0x54) == 0x20
    ensures Sbox(0x55) == 0xfc && Sbox(0x56) == 0xb1 && Sbox(0x57) == 0x5b && Sbox(0x58) == 0x6a && Sbox(0x59) == 0xcb
    ensures Sbox(0x5a) == 0xbe && Sbox(0x5b) == 0x39 && Sbox(0x5c) == 0x4a && Sbox(0x5d) == 0x4c && Sbox(0x5e) == 0x58
    ensures Sbox(0x5f) == 0xcf
  {
  }

  lemma Sbox6()
    ensures Sbox(0x60) == 0xd0 && Sbox(0x61) == 0xef && Sbox(0x62) == 0xaa && Sbox(0x63) == 0xfb && Sbox(0x64) == 0x43
    ensures Sbox(0x65) == 0x4d && Sbox(0x66) == 0x33 && Sbox(0x67) == 0x85 && Sbox(0x68) == 0x45 && Sbox(0x69) == 0xf9
    ensures Sbox(0x6a) == 0x02 && Sbox(0x6b) == 0x7f && Sbox(0x6c) == 0x50 && Sbox(0x6d) == 0x3c && Sbox(0x6e) == 0x9f
    ensures Sbox(0x6f) == 0xa8
  {
  }

  lemma Sbox7()
    ensures Sbox(0x70) == 0x51 && Sbox(0x71) == 0xa3 && Sbox(0x72) == 0x40 && Sbox(0x73) == 0x8f && Sbox(0x74) == 0x92
    ensures Sbox(0x75) == 0x9d && Sbox(0x76) == 0x38 && Sbox(0x77) == 0xf5 && Sbox(0x78) == 0xbc && Sbox(0x79) == 0xb6
    ensures Sbox(0x7a) == 0xda && Sbox(0x7b) == 0x21 && Sbox(0x7c) == 0x10 && Sbox(0x7d) == 0xff && Sbox(0x7e) == 0xf3
    ensures Sbox(0x7f) == 0xd2
  {
  }

  lemma Sbox8()
    ensures Sbox(0x80) == 0xcd && Sbox(0x81) == 0x0c && Sbox(0x82) == 0x13 && Sbox(0x83) == 0xec && Sbox(0x84) == 0x5f
    ensures Sbox(0x85) == 0x97 && Sbox(0x86) == 0x44 && Sbox(0x87) == 0x17 && Sbox(0x88) == 0xc4 && Sbox(0x89) == 0xa7
    ensures Sbox(0x8a) == 0x7e && Sbox(0x8b) == 0x3d && Sbox(0x8c) == 0x64 && Sbox(0x8d) == 0x5d && Sbox(0x8e) == 0x19
    ensures Sbox(0x8f) == 0x73
  {
  }

  lemma Sbox9()
    ensures Sbox(0x90) == 0x60 && Sbox(0x91) == 0x81 && Sbox(0x92) == 0x4f && Sbox(0x93) == 0xdc && Sbox(0x94) == 0x22
    ensures Sbox(0x95) == 0x2a && Sbox(0x96) == 0x90 && Sbox(0x97) == 0x88 && Sbox(0x98) == 0x46 && Sbox(0x99) == 0xee
    ensures Sbox(0x9a) == 0xb8 && Sbox(0x9b) == 0x14 && Sbox(0x9c) == 0xde && Sbox(0x9d) == 0x5e && Sbox(0x9e) == 0x0b
    ensures Sbox(0x9f) == 0xdb
  {
  }

  lemma SboxA()
    ensures Sbox(0xa0) == 0xe0 && Sbox(0xa1) == 0x32 && Sbox(0xa2) == 0x3a && Sbox(0xa3) == 0x0a && Sbox(0xa4) == 0x49
    ensures Sbox(0xa5) == 0x06 && Sbox(0xa6) == 0x24 && Sbox(0xa7) == 0x5c && Sbox(0xa8) == 0xc2 && Sbox(0xa9) == 0xd3
    ensures Sbox(0xaa) == 0xac && Sbox(0xab) == 0x62 && Sbox(0xac) == 0x91 && Sbox(0xad) == 0x95 && Sbox(0xae) == 0xe4
    ensures Sbox(0xaf) == 0x79
  {
  }

  lemma SboxB()
    ensures Sbox(0xb0) == 0xe7 && Sbox(0xb1) == 0xc8 && Sbox(0xb2) == 0x37 && Sbox(0xb3) == 0x6d && Sbox(0xb4) == 0x8d
    ensures Sbox(0xb5) == 0xd5 && Sbox(0xb6) == 0x4e && Sbox(0xb7) == 0xa9 && Sbox(0xb8) == 0x6c && Sbox(0xb9) == 0x56
    ensures Sbox(0xba) == 0xf4 && Sbox(0xbb) == 0xea && Sbox(0xbc) == 0x65 && Sbox(0xbd) == 0x7a && Sbox(0xbe) == 0xae
    ensures Sbox(0xbf) == 0x08
  {
  }

  lemma SboxC()
    ensures Sbox(0xc0) == 0xba && Sbox(0xc1) == 0x78 && Sbox(0xc2) == 0x25 && Sbox(0xc3) == 0x2e && Sbox(0xc4) == 0x1c
    ensures Sbox(0xc5) == 0xa6 && Sbox(0xc6) == 0xb4 && Sbox(0xc7) == 0xc6 && Sbox(0xc8) == 0xe8 && Sbox(0xc9) == 0xdd
    ensures Sbox(0xca) == 0x74 && Sbox(0xcb) == 0x1f && Sbox(0xcc) == 0x4b && Sbox(0xcd) == 0xbd && Sbox(0xce) == 0x8b
    ensures Sbox(0xcf) == 0x8a
  {
  }

  lemma SboxD()
    ensures Sbox(0xd0) == 0x70 && Sbox(0xd1) == 0x3e && Sbox(0xd2) == 0xb5 && Sbox(0xd3) == 0x66 && Sbox(0xd4) == 0x48
    ensures Sbox(0xd5) == 0x03 && Sbox(0xd6) == 0xf6 && Sbox(0xd7) == 0x0e && Sbox(0xd8) == 0x61 && Sbox(0xd9) == 0x35
    ensures Sbox(0xda) == 0x57 && Sbox(0xdb) == 0xb9 && Sbox(0xdc) == 0x86 && Sbox(0xdd) == 0xc1 && Sbox(0xde) == 0x1d
    ensures Sbox(0xdf) == 0x9e
  {
  }

  lemma SboxE()
    ensures Sbox(0xe0) == 0xe1 && Sbox(0xe1) == 0xf8 && Sbox(0xe2) == 0x98 && Sbox(0xe3) == 0x11 && Sbox(0xe4) == 0x69
    ensures Sbox(0xe5) == 0xd9 && Sbox(0xe6) == 0x8e && Sbox(0xe7) == 0x94 && Sbox(0xe8) == 0x9b && Sbox(0xe9) == 0x1e
    ensures Sbox(0xea) == 0x87 && Sbox(0xeb) == 0xe9 && Sbox(0xec) == 0xce && Sbox(0xed) == 0x55 && Sbox(0xee) == 0x28
    ensures Sbox(0xef) == 0xdf
  {
  }

  lemma SboxF()
    ensures Sbox(0xf0) == 0x8c && Sbox(0xf1) == 0xa1 && Sbox(0xf2) == 0x89 && Sbox(0xf3) == 0x0d && Sbox(0xf4) == 0xbf
    ensures Sbox(0xf5) == 0xe6 && Sbox(0xf6) == 0x42 && Sbox(0xf7) == 0x68 && Sbox(0xf8) == 0x41 && Sbox(0xf9) == 0x99
    ensures Sbox(0xfa) == 0x2d && Sbox(0xfb) == 0x0f && Sbox(0xfc) == 0xb0 && Sbox(0xfd) == 0x54 && Sbox(0xfe) == 0xbb
    ensures Sbox(0xff) == 0x16
  {
  }

  // ---------------------------------------------------------------------------------------
  // The vectors
  // ---------------------------------------------------------------------------------------

  function Key128(): (key: seq<bv8>)
    ensures |key| == 16
  {
    Block128(0x000102030405060708090a0b0c0d0e0f)
  }

  lemma Rounds128To2()
    ensures StateIs(AES128, Key128(), 0x00112233445566778899aabbccddeeff, 2, 0x4915598f55e5d7a0daca94fa1f0a63f7)
    ensures KeyIs(AES128, Key128(), 2, 0xb692cf0b643dbdf1be9bc5006830b3fe)
  {
    hide Sbox, StateIs, KeyIs, Cipher, Expanded, Block128, Bytes;
    Sbox0(); Sbox1(); Sbox1End(); Sbox2(); Sbox3(); Sbox4(); Sbox5(); Sbox6(); Sbox7();
    Sbox8(); Sbox9(); SboxA(); SboxB(); SboxC(); SboxD(); SboxE(); SboxF();
    var key, text: bv128 := Key128(), 0x00112233445566778899aabbccddeeff;
    KeyBegins(AES128, 0x000102030405060708090a0b0c0d0e0f, []);
    assert Block128(0x000102030405060708090a0b0c0d0e0f) + [] == key;
    First(AES128, key, text, 0x000102030405060708090a0b0c0d0e0f, 0x00102030405060708090a0b0c0d0e0f0);
    KeyNext(AES128, key, 1, 0,
            0x000102030405060708090a0b0c0d0e0f, 0xd6aa74fdd2af72fadaa678f1d6ab76fe);
    Next(AES128, key, text, 0, 0x00102030405060708090a0b0c0d0e0f0,
         0xd6aa74fdd2af72fadaa678f1d6ab76fe, 0x89d810e8855ace682d1843d8cb128fe4);
    KeyNext(AES128, key, 2, 0,
            0xd6aa74fdd2af72fadaa678f1d6ab76fe, 0xb692cf0b643dbdf1be9bc5006830b3fe);
    Next(AES128, key, text, 1, 0x89d810e8855ace682d1843d8cb128fe4,
         0xb692cf0b643dbdf1be9bc5006830b3fe, 0x4915598f55e5d7a0daca94fa1f0a63f7);
  }

  lemma Rounds128To4()
    ensures StateIs(AES128, Key128(), 0x00112233445566778899aabbccddeeff, 4, 0x247240236966b3fa6ed2753288425b6c)
    ensures KeyIs(AES128, Key128(), 4, 0x47f7f7bc95353e03f96c32bcfd058dfd)
  {
    hide Sbox, StateIs, KeyIs, Cipher, Expanded, Key128;
    Sbox0(); Sbox1(); Sbox1End(); Sbox2(); Sbox3(); Sbox4(); Sbox5(); Sbox6(); Sbox7();
    Sbox8(); Sbox9(); SboxA(); SboxB(); SboxC(); SboxD(); SboxE(); SboxF();
    var key, text: bv128 := Key128(), 0x00112233445566778899aabbccddeeff;
    Rounds128To2();
    KeyNext(AES128, key, 3, 0,
            0xb692cf0b643dbdf1be9bc5006830b3fe, 0xb6ff744ed2c2c9bf6c590cbf0469bf41);
    Next(AES128, key, text, 2, 0x4915598f55e5d7a0daca94fa1f0a63f7,
         0xb6ff744ed2c2c9bf6c590cbf0469bf41, 0xfa636a2825b339c940668a3157244d17);
    KeyNext(AES128, key, 4, 0,
            0xb6ff744ed2c2c9bf6c590cbf0469bf41, 0x47f7f7bc95353e03f96c32bcfd058dfd);
    Next(AES128, key, text, 3, 0xfa636a2825b339c940668a3157244d17,
         0x47f7f7bc95353e03f96c32bcfd058dfd, 0x247240236966b3fa6ed2753288425b6c);
  }

  lemma Rounds128To6()
    ensures StateIs(AES128, Key128(), 0x00112233445566778899aabbccddeeff, 6, 0xc62fe109f75eedc3cc79395d84f9cf5d)
    ensures KeyIs(AES128, Key128(), 6, 0x5e390f7df7a69296a7553dc10aa31f6b)
  {
    hide Sbox, StateIs, KeyIs, Cipher, Expanded, Key128;
    Sbox0(); Sbox1(); Sbox1End(); Sbox2(); Sbox3(); Sbox4(); Sbox5(); Sbox6(); Sbox7();
    Sbox8(); Sbox9(); SboxA(); SboxB(); SboxC(); SboxD(); SboxE(); SboxF();
    var key, text: bv128 := Key128(), 0x00112233445566778899aabbccddeeff;
    Rounds128To4();
    KeyNext(AES128, key, 5, 0,
            0x47f7f7bc95353e03f96c32bcfd058dfd, 0x3caaa3e8a99f9deb50f3af57adf622aa);
    Next(AES128, key, text, 4, 0x247240236966b3fa6ed2753288425b6c,
         0x3caaa3e8a99f9deb50f3af57adf622aa, 0xc81677bc9b7ac93b25027992b0261996);
    KeyNext(AES128, key, 6, 0,
            0x3caaa3e8a99f9deb50f3af57adf622aa, 0x5e390f7df7a69296a7553dc10aa31f6b);
    Next(AES128, key, text, 5, 0xc81677bc9b7ac93b25027992b0261996,
         0x5e390f7df7a69296a7553dc10aa31f6b, 0xc62fe109f75eedc3cc79395d84f9cf5d);
  }

  lemma Rounds128To8()
    ensures StateIs(AES128, Key128(), 0x00112233445566778899aabbccddeeff, 8, 0xfde3bad205e5d0d73547964ef1fe37f1)
    ensures KeyIs(AES128, Key128(), 8, 0x47438735a41c65b9e016baf4aebf7ad2)
  {
    hide Sbox, StateIs, KeyIs, Cipher, Expanded, Key128;
    Sbox0(); Sbox1(); Sbox1End(); Sbox2(); Sbox3(); Sbox4(); Sbox5(); Sbox6(); Sbox7();
    Sbox8(); Sbox9(); SboxA(); SboxB(); SboxC(); SboxD(); SboxE(); SboxF();
    var key, text: bv128 := Key128(), 0x00112233445566778899aabbccddeeff;
    Rounds128To6();
    KeyNext(AES128, key, 7, 0,
            0x5e390f7df7a69296a7553dc10aa31f6b, 0x14f9701ae35fe28c440adf4d4ea9c026);
    Next(AES128, key, text, 6, 0xc62fe109f75eedc3cc79395d84f9cf5d,
         0x14f9701ae35fe28c440adf4d4ea9c026, 0xd1876c0f79c4300ab45594add66ff41f);
    KeyNext(AES128, key, 8, 0,
            0x14f9701ae35fe28c440adf4d4ea9c026, 0x47438735a41c65b9e016baf4aebf7ad2);
    Next(AES128, key, text, 7, 0xd1876c0f79c4300ab45594add66ff41f,
         0x47438735a41c65b9e016baf4aebf7ad2, 0xfde3bad205e5d0d73547964ef1fe37f1);
  }

  /** Section C.1. */
  lemma Vector128()
    ensures Cipher(Expanded(AES128, Key128()), 10, Block128(0x00112233445566778899aabbccddeeff))
         == Block128(0x69c4e0d86a7b0430d8cdb78070b4c55a)
  {
    hide Sbox, StateIs, KeyIs, Cipher, Expanded, Key128;
    Sbox0(); Sbox1(); Sbox1End(); Sbox2(); Sbox3(); Sbox4(); Sbox5(); Sbox6(); Sbox7();
    Sbox8(); Sbox9(); SboxA(); SboxB(); SboxC(); SboxD(); SboxE(); SboxF();
    var key, text: bv128 := Key128(), 0x00112233445566778899aabbccddeeff;
    Rounds128To8();
    KeyNext(AES128, key, 9, 0,
            0x47438735a41c65b9e016baf4aebf7ad2, 0x549932d1f08557681093ed9cbe2c974e);
    Next(AES128, key, text, 8, 0xfde3bad205e5d0d73547964ef1fe37f1,
         0x549932d1f08557681093ed9cbe2c974e, 0xbd6e7c3df2b5779e0b61216e8b10b689);
    KeyNext(AES128, key, 10, 0,
            0x549932d1f08557681093ed9cbe2c974e, 0x13111d7fe3944a17f307a78b4d2b30c5);
    Last(AES128, key, text, 9, 0xbd6e7c3df2b5779e0b61216e8b10b689,
         0x13111d7fe3944a17f307a78b4d2b30c5, 0x69c4e0d86a7b0430d8cdb78070b4c55a);
  }

  lemma KeySplit(k: bv128, e: bv32, f: bv32)
    ensures Block128(k) + Bytes(e) + Bytes(f) == Block128(k) + (Bytes(e) + Bytes(f))
  {
    hide Block128, Bytes;
  }

  function Key192(): (key: seq<bv8>)
    ensures |key| == 24
  {
    Block128(0x000102030405060708090a0b0c0d0e0f) + Bytes(0x10111213) + Bytes(0x14151617)
  }

  lemma Rounds192To2()
    ensures StateIs(AES192, Key192(), 0x00112233445566778899aabbccddeeff, 2, 0xcb02818c17d2af9c62aa64428bb25fd7)
    ensures KeyIs(AES192, Key192(), 1, 0x10111213141516175846f2f95c43f4fe)
    ensures KeyIs(AES192, Key192(), 2, 0x544afef55847f0fa4856e2e95c43f4fe)
  {
    hide Sbox, StateIs, KeyIs, Cipher, Expanded, Block128, Bytes;
    Sbox0(); Sbox1(); Sbox1End(); Sbox2(); Sbox3(); Sbox4(); Sbox5(); Sbox6(); Sbox7();
    Sbox8(); Sbox9(); SboxA(); SboxB(); SboxC(); SboxD(); SboxE(); SboxF();
    var key, text: bv128 := Key192(), 0x00112233445566778899aabbccddeeff;
    KeySplit(0x000102030405060708090a0b0c0d0e0f, 0x10111213, 0x14151617);
    KeyBegins(AES192, 0x000102030405060708090a0b0c0d0e0f, Bytes(0x10111213) + Bytes(0x14151617));
    KeyEnds(0x000102030405060708090a0b0c0d0e0f, 0x10111213141516175846f2f95c43f4fe);
    First(AES192, key, text, 0x000102030405060708090a0b0c0d0e0f, 0x00102030405060708090a0b0c0d0e0f0);
    Next(AES192, key, text, 0, 0x00102030405060708090a0b0c0d0e0f0,
         0x10111213141516175846f2f95c43f4fe, 0x4f63760643e0aa85aff8c9d041fa0de4);
    KeyNext(AES192, key, 2, 0x000102030405060708090a0b0c0d0e0f,
            0x10111213141516175846f2f95c43f4fe, 0x544afef55847f0fa4856e2e95c43f4fe);
    Next(AES192, key, text, 1, 0x4f63760643e0aa85aff8c9d041fa0de4,
         0x544afef55847f0fa4856e2e95c43f4fe, 0xcb02818c17d2af9c62aa64428bb25fd7);
  }

  lemma Rounds192To4()
    ensures StateIs(AES192, Key192(), 0x00112233445566778899aabbccddeeff, 4, 0x22ffc916a81474416496f19c64ae2532)
    ensures KeyIs(AES192, Key192(), 3, 0x40f949b31cbabd4d48f043b810b7b342)
    ensures KeyIs(AES192, Key192(), 4, 0x58e151ab04a2a5557effb5416245080c)
  {
    hide Sbox, StateIs, KeyIs, Cipher, Expanded, Key192;
    Sbox0(); Sbox1(); Sbox1End(); Sbox2(); Sbox3(); Sbox4(); Sbox5(); Sbox6(); Sbox7();
    Sbox8(); Sbox9(); SboxA(); SboxB(); SboxC(); SboxD(); SboxE(); SboxF();
    var key, text: bv128 := Key192(), 0x00112233445566778899aabbccddeeff;
    Rounds192To2();
    KeyNext(AES192, key, 3, 0x10111213141516175846f2f95c43f4fe,
            0x544afef55847f0fa4856e2e95c43f4fe, 0x40f949b31cbabd4d48f043b810b7b342);
    Next(AES192, key, text, 2, 0xcb02818c17d2af9c62aa64428bb25fd7,
         0x40f949b31cbabd4d48f043b810b7b342, 0xf75c7778a327c8ed8cfebfc1a6c37f53);
    KeyNext(AES192, key, 4, 0x544afef55847f0fa4856e2e95c43f4fe,
            0x40f949b31cbabd4d48f043b810b7b342, 0x58e151ab04a2a5557effb5416245080c);
    Next(AES192, key, text, 3, 0xf75c7778a327c8ed8cfebfc1a6c37f53,
         0x58e151ab04a2a5557effb5416245080c, 0x22ffc916a81474416496f19c64ae2532);
  }

  lemma Rounds192To6()
    ensures StateIs(AES192, Key192(), 0x00112233445566778899aabbccddeeff, 6, 0x671ef1fd4e2a1e03dfdcb1ef3d789b30)
    ensures KeyIs(AES192, Key192(), 5, 0x2ab54bb43a02f8f662e3a95d66410c08)
    ensures KeyIs(AES192, Key192(), 6, 0xf501857297448d7ebdf1c6ca87f33e3c)
  {
    hide Sbox, StateIs, KeyIs, Cipher, Expanded, Key192;
    Sbox0(); Sbox1(); Sbox1End(); Sbox2(); Sbox3(); Sbox4(); Sbox5(); Sbox6(); Sbox7();
    Sbox8(); Sbox9(); SboxA(); SboxB(); SboxC(); SboxD(); SboxE(); SboxF();
    var key, text: bv128 := Key192(), 0x00112233445566778899aabbccddeeff;
    Rounds192To4();
    KeyNext(AES192, key, 5, 0x40f949b31cbabd4d48f043b810b7b342,
            0x58e151ab04a2a5557effb5416245080c, 0x2ab54bb43a02f8f662e3a95d66410c08);
    Next(AES192, key, text, 4, 0x22ffc916a81474416496f19c64ae2532,
         0x2ab54bb43a02f8f662e3a95d66410c08, 0x80121e0776fd1d8a8d8c31bc965d1fee);
    KeyNext(AES192, key, 6, 0x58e151ab04a2a5557effb5416245080c,
            0x2ab54bb43a02f8f662e3a95d66410c08, 0xf501857297448d7ebdf1c6ca87f33e3c);
    Next(AES192, key, text, 5, 0x80121e0776fd1d8a8d8c31bc965d1fee,
         0xf501857297448d7ebdf1c6ca87f33e3c, 0x671ef1fd4e2a1e03dfdcb1ef3d789b30);
  }

  lemma Rounds192To8()
    ensures StateIs(AES192, Key192(), 0x00112233445566778899aabbccddeeff, 8, 0x7255dad30fb80310e00d6c6b40d0527c)
    ensures KeyIs(AES192, Key192(), 7, 0xe510976183519b6934157c9ea351f1e0)
    ensures KeyIs(AES192, Key192(), 8, 0x1ea0372a995309167c439e77ff12051e)
  {
    hide Sbox, StateIs, KeyIs, Cipher, Expanded, Key192;
    Sbox0(); Sbox1(); Sbox1End(); Sbox2(); Sbox3(); Sbox4(); Sbox5(); Sbox6(); Sbox7();
    Sbox8(); Sbox9(); SboxA(); SboxB(); SboxC(); SboxD(); SboxE(); SboxF();
    var key, text: bv128 := Key192(), 0x00112233445566778899aabbccddeeff;
    Rounds192To6();
    KeyNext(AES192, key, 7, 0x2ab54bb43a02f8f662e3a95d66410c08,
            0xf501857297448d7ebdf1c6ca87f33e3c, 0xe510976183519b6934157c9ea351f1e0);
    Next(AES192, key, text, 6, 0x671ef1fd4e2a1e03dfdcb1ef3d789b30,
         0xe510976183519b6934157c9ea351f1e0, 0x0c0370d00c01e622166b8accd6db3a2c);
    KeyNext(AES192, key, 8, 0xf501857297448d7ebdf1c6ca87f33e3c,
            0xe510976183519b6934157c9ea351f1e0, 0x1ea0372a995309167c439e77ff12051e);
    Next(AES192, key, text, 7, 0x0c0370d00c01e622166b8accd6db3a2c,
         0x1ea0372a995309167c439e77ff12051e, 0x7255dad30fb80310e00d6c6b40d0527c);
  }

  lemma Rounds192To10()
    ensures StateIs(AES192, Key192(), 0x00112233445566778899aabbccddeeff, 10, 0x88ec930ef5e7e4b6cc32f4c906d29414)
    ensures KeyIs(AES192, Key192(), 9, 0xdd7e0e887e2fff68608fc842f9dcc154)
    ensures KeyIs(AES192, Key192(), 10, 0x859f5f237a8d5a3dc0c02952beefd63a)
  {
    hide Sbox, StateIs, KeyIs, Cipher, Expanded, Key192;
    Sbox0(); Sbox1(); Sbox1End(); Sbox2(); Sbox3(); Sbox4(); Sbox5(); Sbox6(); Sbox7();
    Sbox8(); Sbox9(); SboxA(); SboxB(); SboxC(); SboxD(); SboxE(); SboxF();
    var key, text: bv128 := Key192(), 0x00112233445566778899aabbccddeeff;
    Rounds192To8();
    KeyNext(AES192, key, 9, 0xe510976183519b6934157c9ea351f1e0,
            0x1ea0372a995309167c439e77ff12051e, 0xdd7e0e887e2fff68608fc842f9dcc154);
    Next(AES192, key, text, 8, 0x7255dad30fb80310e00d6c6b40d0527c,
         0xdd7e0e887e2fff68608fc842f9dcc154, 0xa906b254968af4e9b4bdb2d2f0c44336);
    KeyNext(AES192, key, 10, 0x1ea0372a995309167c439e77ff12051e,
            0xdd7e0e887e2fff68608fc842f9dcc154, 0x859f5f237a8d5a3dc0c02952beefd63a);
    Next(AES192, key, text, 9, 0xa906b254968af4e9b4bdb2d2f0c44336,
         0x859f5f237a8d5a3dc0c02952beefd63a, 0x88ec930ef5e7e4b6cc32f4c906d29414);
  }

  /** Section C.2. */
  lemma Vector192()
    ensures Cipher(Expanded(AES192, Key192()), 12, Block128(0x00112233445566778899aabbccddeeff))
         == Block128(0xdda97ca4864cdfe06eaf70a0ec0d7191)
  {
    hide Sbox, StateIs, KeyIs, Cipher, Expanded, Key192;
    Sbox0(); Sbox1(); Sbox1End(); Sbox2(); Sbox3(); Sbox4(); Sbox5(); Sbox6(); Sbox7();
    Sbox8(); Sbox9(); SboxA(); SboxB(); SboxC(); SboxD(); SboxE(); SboxF();
    var key, text: bv128 := Key192(), 0x00112233445566778899aabbccddeeff;
    Rounds192To10();
    KeyNext(AES192, key, 11, 0xdd7e0e887e2fff68608fc842f9dcc154,
            0x859f5f237a8d5a3dc0c02952beefd63a, 0xde601e7827bcdf2ca223800fd8aeda32);
    Next(AES192, key, text, 10, 0x88ec930ef5e7e4b6cc32f4c906d29414,
         0xde601e7827bcdf2ca223800fd8aeda32, 0xafb73eeb1cd1b85162280f27fb20d585);
    KeyNext(AES192, key, 12, 0x859f5f237a8d5a3dc0c02952beefd63a,
            0xde601e7827bcdf2ca223800fd8aeda32, 0xa4970a331a78dc09c418c271e3a41d5d);
    Last(AES192, key, text, 11, 0xafb73eeb1cd1b85162280f27fb20d585,
         0xa4970a331a78dc09c418c271e3a41d5d, 0xdda97ca4864cdfe06eaf70a0ec0d7191);
  }

  function Key256(): (key: seq<bv8>)
    ensures |key| == 32
  {
    Block128(0x000102030405060708090a0b0c0d0e0f) + Block128(0x101112131415161718191a1b1c1d1e1f)
  }

  lemma Rounds256To2()
    ensures StateIs(AES256, Key256(), 0x00112233445566778899aabbccddeeff, 2, 0x1859fbc28a1c00a078ed8aadc42f6109)
    ensures KeyIs(AES256, Key256(), 1, 0x101112131415161718191a1b1c1d1e1f)
    ensures KeyIs(AES256, Key256(), 2, 0xa573c29fa176c498a97fce93a572c09c)
  {
    hide Sbox, StateIs, KeyIs, Cipher, Expanded, Block128, Bytes;
    Sbox0(); Sbox1(); Sbox1End(); Sbox2(); Sbox3(); Sbox4(); Sbox5(); Sbox6(); Sbox7();
    Sbox8(); Sbox9(); SboxA(); SboxB(); SboxC(); SboxD(); SboxE(); SboxF();
    var key, text: bv128 := Key256(), 0x00112233445566778899aabbccddeeff;
    KeyBegins(AES256, 0x000102030405060708090a0b0c0d0e0f, Block128(0x101112131415161718191a1b1c1d1e1f));
    KeyGoesOn(0x000102030405060708090a0b0c0d0e0f, 0x101112131415161718191a1b1c1d1e1f);
    First(AES256, key, text, 0x000102030405060708090a0b0c0d0e0f, 0x00102030405060708090a0b0c0d0e0f0);
    Next(AES256, key, text, 0, 0x00102030405060708090a0b0c0d0e0f0,
         0x101112131415161718191a1b1c1d1e1f, 0x4f63760643e0aa85efa7213201a4e705);
    KeyNext(AES256, key, 2, 0x000102030405060708090a0b0c0d0e0f,
            0x101112131415161718191a1b1c1d1e1f, 0xa573c29fa176c498a97fce93a572c09c);
    Next(AES256, key, text, 1, 0x4f63760643e0aa85efa7213201a4e705,
         0xa573c29fa176c498a97fce93a572c09c, 0x1859fbc28a1c00a078ed8aadc42f6109);
  }

  lemma Rounds256To4()
    ensures StateIs(AES256, Key256(), 0x00112233445566778899aabbccddeeff, 4, 0x1c05f271a417e04ff921c5c104701554)
    ensures KeyIs(AES256, Key256(), 3, 0x1651a8cd0244beda1a5da4c10640bade)
    ensures KeyIs(AES256, Key256(), 4, 0xae87dff00ff11b68a68ed5fb03fc1567)
  {
    hide Sbox, StateIs, KeyIs, Cipher, Expanded, Key256;
    Sbox0(); Sbox1(); Sbox1End(); Sbox2(); Sbox3(); Sbox4(); Sbox5(); Sbox6(); Sbox7();
    Sbox8(); Sbox9(); SboxA(); SboxB(); SboxC(); SboxD(); SboxE(); SboxF();
    var key, text: bv128 := Key256(), 0x00112233445566778899aabbccddeeff;
    Rounds256To2();
    KeyNext(AES256, key, 3, 0x101112131415161718191a1b1c1d1e1f,
            0xa573c29fa176c498a97fce93a572c09c, 0x1651a8cd0244beda1a5da4c10640bade);
    Next(AES256, key, text, 2, 0x1859fbc28a1c00a078ed8aadc42f6109,
         0x1651a8cd0244beda1a5da4c10640bade, 0x975c66c1cb9f3fa8a93a28df8ee10f63);
    KeyNext(AES256, key, 4, 0xa573c29fa176c498a97fce93a572c09c,
            0x1651a8cd0244beda1a5da4c10640bade, 0xae87dff00ff11b68a68ed5fb03fc1567);
    Next(AES256, key, text, 3, 0x975c66c1cb9f3fa8a93a28df8ee10f63,
         0xae87dff00ff11b68a68ed5fb03fc1567, 0x1c05f271a417e04ff921c5c104701554);
  }

  lemma Rounds256To6()
    ensures StateIs(AES256, Key256(), 0x00112233445566778899aabbccddeeff, 6, 0x7f074143cb4e243ec10c815d8375d54c)
    ensures KeyIs(AES256, Key256(), 5, 0x6de1f1486fa54f9275f8eb5373b8518d)
    ensures KeyIs(AES256, Key256(), 6, 0xc656827fc9a799176f294cec6cd5598b)
  {
    hide Sbox, StateIs, KeyIs, Cipher, Expanded, Key256;
    Sbox0(); Sbox1(); Sbox1End(); Sbox2(); Sbox3(); Sbox4(); Sbox5(); Sbox6(); Sbox7();
    Sbox8(); Sbox9(); SboxA(); SboxB(); SboxC(); SboxD(); SboxE(); SboxF();
    var key, text: bv128 := Key256(), 0x00112233445566778899aabbccddeeff;
    Rounds256To4();
    KeyNext(AES256, key, 5, 0x1651a8cd0244beda1a5da4c10640bade,
            0xae87dff00ff11b68a68ed5fb03fc1567, 0x6de1f1486fa54f9275f8eb5373b8518d);
    Next(AES256, key, text, 4, 0x1c05f271a417e04ff921c5c104701554,
         0x6de1f1486fa54f9275f8eb5373b8518d, 0xc357aae11b45b7b0a2c7bd28a8dc99fa);
    KeyNext(AES256, key, 6, 0xae87dff00ff11b68a68ed5fb03fc1567,
            0x6de1f1486fa54f9275f8eb5373b8518d, 0xc656827fc9a799176f294cec6cd5598b);
    Next(AES256, key, text, 5, 0xc357aae11b45b7b0a2c7bd28a8dc99fa,
         0xc656827fc9a799176f294cec6cd5598b, 0x7f074143cb4e243ec10c815d8375d54c);
  }

  lemma Rounds256To8()
    ensures StateIs(AES256, Key256(), 0x00112233445566778899aabbccddeeff, 8, 0x5aa858395fd28d7d05e1a38868f3b9c5)
    ensures KeyIs(AES256, Key256(), 7, 0x3de23a75524775e727bf9eb45407cf39)
    ensures KeyIs(AES256, Key256(), 8, 0x0bdc905fc27b0948ad5245a4c1871c2f)
  {
    hide Sbox, StateIs, KeyIs, Cipher, Expanded, Key256;
    Sbox0(); Sbox1(); Sbox1End(); Sbox2(); Sbox3(); Sbox4(); Sbox5(); Sbox6(); Sbox7();
    Sbox8(); Sbox9(); SboxA(); SboxB(); SboxC(); SboxD(); SboxE(); SboxF();
    var key, text: bv128 := Key256(), 0x00112233445566778899aabbccddeeff;
    Rounds256To6();
    KeyNext(AES256, key, 7, 0x6de1f1486fa54f9275f8eb5373b8518d,
            0xc656827fc9a799176f294cec6cd5598b, 0x3de23a75524775e727bf9eb45407cf39);
    Next(AES256, key, text, 6, 0x7f074143cb4e243ec10c815d8375d54c,
         0x3de23a75524775e727bf9eb45407cf39, 0xd653a4696ca0bc0f5acaab5db96c5e7d);
    KeyNext(AES256, key, 8, 0xc656827fc9a799176f294cec6cd5598b,
            0x3de23a75524775e727bf9eb45407cf39, 0x0bdc905fc27b0948ad5245a4c1871c2f);
    Next(AES256, key, text, 7, 0xd653a4696ca0bc0f5acaab5db96c5e7d,
         0x0bdc905fc27b0948ad5245a4c1871c2f, 0x5aa858395fd28d7d05e1a38868f3b9c5);
  }

  lemma Rounds256To10()
    ensures StateIs(AES256, Key256(), 0x00112233445566778899aabbccddeeff, 10, 0xc14907f6ca3b3aa070e9aa313b52b5ec)
    ensures KeyIs(AES256, Key256(), 9, 0x45f5a66017b2d387300d4d33640a820a)
    ensures KeyIs(AES256, Key256(), 10, 0x7ccff71cbeb4fe5413e6bbf0d261a7df)
  {
    hide Sbox, StateIs, KeyIs, Cipher, Expanded, Key256;
    Sbox0(); Sbox1(); Sbox1End(); Sbox2(); Sbox3(); Sbox4(); Sbox5(); Sbox6(); Sbox7();
    Sbox8(); Sbox9(); SboxA(); SboxB(); SboxC(); SboxD(); SboxE(); SboxF();
    var key, text: bv128 := Key256(), 0x00112233445566778899aabbccddeeff;
    Rounds256To8();
    KeyNext(AES256, key, 9, 0x3de23a75524775e727bf9eb45407cf39,
            0x0bdc905fc27b0948ad5245a4c1871c2f, 0x45f5a66017b2d387300d4d33640a820a);
    Next(AES256, key, text, 8, 0x5aa858395fd28d7d05e1a38868f3b9c5,
         0x45f5a66017b2d387300d4d33640a820a, 0x4a824851c57e7e47643de50c2af3e8c9);
    KeyNext(AES256, key, 10, 0x0bdc905fc27b0948ad5245a4c1871c2f,
            0x45f5a66017b2d387300d4d33640a820a, 0x7ccff71cbeb4fe5413e6bbf0d261a7df);
    Next(AES256, key, text, 9, 0x4a824851c57e7e47643de50c2af3e8c9,
         0x7ccff71cbeb4fe5413e6bbf0d261a7df, 0xc14907f6ca3b3aa070e9aa313b52b5ec);
  }

  lemma Rounds256To12()
    ensures StateIs(AES256, Key256(), 0x00112233445566778899aabbccddeeff, 12, 0x516604954353950314fb86e401922521)
    ensures KeyIs(AES256, Key256(), 11, 0xf01afafee7a82979d7a5644ab3afe640)
    ensures KeyIs(AES256, Key256(), 12, 0x2541fe719bf500258813bbd55a721c0a)
  {
    hide Sbox, StateIs, KeyIs, Cipher, Expanded, Key256;
    Sbox0(); Sbox1(); Sbox1End(); Sbox2(); Sbox3(); Sbox4(); Sbox5(); Sbox6(); Sbox7();
    Sbox8(); Sbox9(); SboxA(); SboxB(); SboxC(); SboxD(); SboxE(); SboxF();
    var key, text: bv128 := Key256(), 0x00112233445566778899aabbccddeeff;
    Rounds256To10();
    KeyNext(AES256, key, 11, 0x45f5a66017b2d387300d4d33640a820a,
            0x7ccff71cbeb4fe5413e6bbf0d261a7df, 0xf01afafee7a82979d7a5644ab3afe640);
    Next(AES256, key, text, 10, 0xc14907f6ca3b3aa070e9aa313b52b5ec,
         0xf01afafee7a82979d7a5644ab3afe640, 0x5f9c6abfbac634aa50409fa766677653);
    KeyNext(AES256, key, 12, 0x7ccff71cbeb4fe5413e6bbf0d261a7df,
            0xf01afafee7a82979d7a5644ab3afe640, 0x2541fe719bf500258813bbd55a721c0a);
    Next(AES256, key, text, 11, 0x5f9c6abfbac634aa50409fa766677653,
         0x2541fe719bf500258813bbd55a721c0a, 0x516604954353950314fb86e401922521);
  }

  /** Section C.3. */
  lemma Vector256()
    ensures Cipher(Expanded(AES256, Key256()), 14, Block128(0x00112233445566778899aabbccddeeff))
         == Block128(0x8ea2b7ca516745bfeafc49904b496089)
  {
    hide Sbox, StateIs, KeyIs, Cipher, Expanded, Key256;
    Sbox0(); Sbox1(); Sbox1End(); Sbox2(); Sbox3(); Sbox4(); Sbox5(); Sbox6(); Sbox7();
    Sbox8(); Sbox9(); SboxA(); SboxB(); SboxC(); SboxD(); SboxE(); SboxF();
    var key, text: bv128 := Key256(), 0x00112233445566778899aabbccddeeff;
    Rounds256To12();
    KeyNext(AES256, key, 13, 0xf01afafee7a82979d7a5644ab3afe640,
            0x2541fe719bf500258813bbd55a721c0a, 0x4e5a6699a9f24fe07e572baacdf8cdea);
    Next(AES256, key, text, 12, 0x516604954353950314fb86e401922521,
         0x4e5a6699a9f24fe07e572baacdf8cdea, 0x627bceb9999d5aaac945ecf423f56da5);
    KeyNext(AES256, key, 14, 0x2541fe719bf500258813bbd55a721c0a,
            0x4e5a6699a9f24fe07e572baacdf8cdea, 0x24fc79ccbf0979e9371ac23c6d68de36);
    Last(AES256, key, text, 13, 0x627bceb9999d5aaac945ecf423f56da5,
         0x24fc79ccbf0979e9371ac23c6d68de36, 0x8ea2b7ca516745bfeafc49904b496089);
  }
}
