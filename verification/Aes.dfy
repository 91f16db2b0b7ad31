/** The block cipher of FIPS 197, its inverse and its key schedule, and chaining of blocks. */
module Aes {
  import opened Gf

  type Block = s: seq<bv8> | |s| == 16 witness seq(16, _ => 0)
  type Word = s: seq<bv8> | |s| == 4 witness [0, 0, 0, 0]

  // ---------------------------------------------------------------------------------------
  // Steps of a round, on values
  // ---------------------------------------------------------------------------------------

  function Xor(s: Block, t: Block): Block {
    seq(16, i requires 0 <= i < 16 => Add(s[i], t[i]))
  }

  function SubBytes(s: Block): Block {
    seq(16, i requires 0 <= i < 16 => Sbox(s[i]))
  }

  function InvSubBytes(s: Block): Block {
    seq(16, i requires 0 <= i < 16 => Rsbox(s[i]))
  }

  /** Row `i % 4` is moved by as many columns to the left (section 5.1.2 of FIPS 197). */
  function ShiftRows(s: Block): Block {
    seq(16, i requires 0 <= i < 16 => s[(i + 4 * (i % 4)) % 16])
  }

  function InvShiftRows(s: Block): Block {
    seq(16, i requires 0 <= i < 16 => s[(i + 12 * (i % 4)) % 16])
  }

  /** The byte in a row of a column, rows counted modulo 4. */
  function At(s: Block, column: nat, row: nat): bv8
    requires column < 4
  {
    s[4 * column + row % 4]
  }

  /** Every column times the matrix of section 5.1.3. */
  function MixColumns(s: Block): Block {
    seq(16, i requires 0 <= i < 16 => MixedAt(s, i))
  }

  function MixedAt(s: Block, i: nat): bv8
    requires i < 16
  {
    var c, r := i / 4, i % 4;
    MixRow(At(s, c, r), At(s, c, r + 1), At(s, c, r + 2), At(s, c, r + 3))
  }

  /** Every column times the matrix of section 5.3.3. */
  function InvMixColumns(s: Block): Block {
    seq(16, i requires 0 <= i < 16 => UnmixedAt(s, i))
  }

  function UnmixedAt(s: Block, i: nat): bv8
    requires i < 16
  {
    var c, r := i / 4, i % 4;
    UnmixRow(At(s, c, r), At(s, c, r + 1), At(s, c, r + 2), At(s, c, r + 3))
  }

  // ---------------------------------------------------------------------------------------
  // Every step is undone by its partner
  // ---------------------------------------------------------------------------------------

  lemma XorTwice(s: Block, k: Block)
    ensures Xor(Xor(s, k), k) == s
  {
    forall i | 0 <= i < 16 ensures Xor(Xor(s, k), k)[i] == s[i] { BytesXorTwice(s[i], k[i]); }
  }

  lemma BytesXorTwice(a: bv8, b: bv8)
    ensures Add(Add(a, b), b) == a
  {
  }

  lemma SubBytesUndone(s: Block)
    ensures InvSubBytes(SubBytes(s)) == s
  {
    hide Sbox, Rsbox;
    forall i | 0 <= i < 16 ensures InvSubBytes(SubBytes(s))[i] == s[i] { SboxMeans(s[i]); }
  }

  lemma ShiftRowsUndone(s: Block)
    ensures InvShiftRows(ShiftRows(s)) == s
  {
    forall i | 0 <= i < 16 ensures InvShiftRows(ShiftRows(s))[i] == s[i] { BackAndForth(i); }
  }

  lemma BackAndForth(i: nat)
    requires i < 16
    ensures var j := (i + 12 * (i % 4)) % 16; (j + 4 * (j % 4)) % 16 == i
  {
    var q, r := i / 4, i % 4;
    assert i == 4 * q + r;
    var j := (i + 12 * r) % 16;
    assert j == 4 * (if q < r then q + 4 - r else q - r) + r;
    assert j % 4 == r;
  }

  lemma MixColumnsUndone(s: Block)
    ensures InvMixColumns(MixColumns(s)) == s
  {
    hide MixRow, UnmixRow;
    forall i | 0 <= i < 16 ensures InvMixColumns(MixColumns(s))[i] == s[i] { UnmixedMixed(s, i); }
  }

  lemma UnmixedMixed(s: Block, i: nat)
    requires i < 16
    ensures UnmixedAt(MixColumns(s), i) == s[i]
  {
    hide MixRow, UnmixRow, MixColumns;
    var c, r := i / 4, i % 4;
    var a0, a1, a2, a3 := At(s, c, r), At(s, c, r + 1), At(s, c, r + 2), At(s, c, r + 3);
    MixedColumn(s, c, r);
    MixedColumn(s, c, r + 1);
    MixedColumn(s, c, r + 2);
    MixedColumn(s, c, r + 3);
    AtWraps(s, c, r);
    AtWraps(s, c, r + 1);
    AtWraps(s, c, r + 2);
    UnmixMix(a0, a1, a2, a3);
  }

  lemma AtWraps(s: Block, c: nat, r: nat)
    requires c < 4
    ensures At(s, c, r + 4) == At(s, c, r)
  {
  }

  lemma MixedColumn(s: Block, c: nat, r: nat)
    requires c < 4
    ensures At(MixColumns(s), c, r) == MixRow(At(s, c, r), At(s, c, r + 1), At(s, c, r + 2), At(s, c, r + 3))
  {
    hide MixRow, At;
    var i := 4 * c + r % 4;
    assert i / 4 == c && i % 4 == r % 4;
    assert At(MixColumns(s), c, r) == MixedAt(s, i) by { AtIs(MixColumns(s), c, r); }
    SameRow(s, c, r, r % 4, 0);
    SameRow(s, c, r, r % 4, 1);
    SameRow(s, c, r, r % 4, 2);
    SameRow(s, c, r, r % 4, 3);
  }

  lemma AtIs(s: Block, c: nat, r: nat)
    requires c < 4
    ensures At(s, c, r) == s[4 * c + r % 4]
  {
  }

  lemma SameRow(s: Block, c: nat, r: nat, q: nat, k: nat)
    requires c < 4 && q == r % 4
    ensures At(s, c, q + k) == At(s, c, r + k)
  {
    hide At;
    RowModFour(r, q, k);
    AtIs(s, c, q + k);
    AtIs(s, c, r + k);
  }

  lemma RowModFour(r: nat, q: nat, k: nat)
    requires q == r % 4
    ensures (q + k) % 4 == (r + k) % 4
  {
    var d := r / 4;
    assert r + k == 4 * d + (q + k);
  }

  // ---------------------------------------------------------------------------------------
  // The cipher
  // ---------------------------------------------------------------------------------------

  /** The round key of a round. */
  function RoundKey(w: seq<bv8>, round: nat): Block
    requires 16 * round + 16 <= |w|
  {
    w[16 * round..16 * round + 16]
  }

  /** The state after `r` full rounds (section 5.1 of FIPS 197). */
  function Rounds(w: seq<bv8>, s: Block, r: nat): Block
    requires 16 * r + 16 <= |w|
  {
    if r == 0 then Xor(s, RoundKey(w, 0))
    else Xor(MixColumns(ShiftRows(SubBytes(Rounds(w, s, r - 1)))), RoundKey(w, r))
  }

  function Cipher(w: seq<bv8>, nr: nat, s: Block): Block
    requires nr > 0 && 16 * nr + 16 <= |w|
  {
    Xor(ShiftRows(SubBytes(Rounds(w, s, nr - 1))), RoundKey(w, nr))
  }

  /** The state after the inverse of the rounds down to round `r` (section 5.3). */
  function InvRounds(w: seq<bv8>, nr: nat, s: Block, r: nat): Block
    requires 0 < r <= nr && 16 * nr + 16 <= |w|
    decreases nr - r
  {
    if r == nr then Xor(s, RoundKey(w, nr))
    else InvMixColumns(Xor(InvSubBytes(InvShiftRows(InvRounds(w, nr, s, r + 1))), RoundKey(w, r)))
  }

  function InvCipher(w: seq<bv8>, nr: nat, s: Block): Block
    requires nr > 0 && 16 * nr + 16 <= |w|
  {
    Xor(InvSubBytes(InvShiftRows(InvRounds(w, nr, s, 1))), RoundKey(w, 0))
  }

  /** Going backwards passes through the states of going forwards. */
  lemma {:induction false} RoundsUndone(w: seq<bv8>, nr: nat, s: Block, r: nat)
    requires 0 < r <= nr && 16 * nr + 16 <= |w|
    ensures InvRounds(w, nr, Cipher(w, nr, s), r) == ShiftRows(SubBytes(Rounds(w, s, r - 1)))
    decreases nr - r
  {
    hide Xor, SubBytes, InvSubBytes, ShiftRows, InvShiftRows, MixColumns, InvMixColumns, RoundKey;
    if r == nr {
      XorTwice(ShiftRows(SubBytes(Rounds(w, s, nr - 1))), RoundKey(w, nr));
    } else {
      RoundsUndone(w, nr, s, r + 1);
      var before := Rounds(w, s, r - 1);
      var mixed := MixColumns(ShiftRows(SubBytes(before)));
      ShiftRowsUndone(SubBytes(Rounds(w, s, r)));
      SubBytesUndone(Rounds(w, s, r));
      XorTwice(mixed, RoundKey(w, r));
      MixColumnsUndone(ShiftRows(SubBytes(before)));
    }
  }

  /** The inverse cipher undoes the cipher, for every array of round keys and number of rounds. */
  lemma CipherUndone(w: seq<bv8>, nr: nat, s: Block)
    requires nr > 0 && 16 * nr + 16 <= |w|
    ensures InvCipher(w, nr, Cipher(w, nr, s)) == s
  {
    hide Xor, SubBytes, InvSubBytes, ShiftRows, InvShiftRows, RoundKey, InvRounds, Cipher;
    RoundsUndone(w, nr, s, 1);
    var first := Xor(s, RoundKey(w, 0));
    assert Rounds(w, s, 0) == first;
    ShiftRowsUndone(SubBytes(first));
    SubBytesUndone(first);
    XorTwice(s, RoundKey(w, 0));
  }

  // ---------------------------------------------------------------------------------------
  // Key schedule
  // ---------------------------------------------------------------------------------------

  datatype KeyBits = AES128 | AES192 | AES256 {
    /** The number of words in a key. */
    function Nk(): (n: nat)
      ensures 4 <= n <= 8
    {
      match this
      case AES128 => 4
      case AES192 => 6
      case AES256 => 8
    }

    function KeySize(): nat {
      4 * Nk()
    }

    /** The number of rounds. */
    function Nr(): nat {
      Nk() + 6
    }
  }

  function XorWord(a: Word, b: Word): Word {
    [Add(a[0], b[0]), Add(a[1], b[1]), Add(a[2], b[2]), Add(a[3], b[3])]
  }

  function SubWord(a: Word): Word {
    [Sbox(a[0]), Sbox(a[1]), Sbox(a[2]), Sbox(a[3])]
  }

  function RotWord(a: Word): Word {
    [a[1], a[2], a[3], a[0]]
  }

  /** The power of x in the field. */
  function PowerOfX(k: nat): bv8 {
    if k == 0 then 1 else Product(PowerOfX(k - 1), 0x02)
  }

  /** The word that a word of the key schedule is changed by (section 5.2 of FIPS 197). */
  function Temp(nk: nat, i: nat, previous: Word): Word
    requires 0 < nk <= i
  {
    if Residue(i, nk) == 0 then XorWord(SubWord(RotWord(previous)), [PowerOfX(Quotient(i, nk) - 1), 0, 0, 0])
    else if nk > 6 && Residue(i, nk) == 4 then SubWord(previous)
    else previous
  }

  function Quotient(i: nat, nk: nat): (q: nat)
    requires 0 < nk <= i
    ensures q > 0
  {
    i / nk
  }

  function Residue(i: nat, nk: nat): nat
    requires 0 < nk
  {
    i % nk
  }

  /** A word of the key schedule. */
  function KeyWord(key: seq<bv8>, nk: nat, i: nat): Word
    requires 0 < nk && |key| == 4 * nk
    decreases i
  {
    if i < nk then key[4 * i..4 * i + 4]
    else XorWord(KeyWord(key, nk, i - nk), Temp(nk, i, KeyWord(key, nk, i - 1)))
  }

  /** The first `n` words of the key schedule. */
  function Schedule(key: seq<bv8>, nk: nat, n: nat): (w: seq<bv8>)
    requires 0 < nk && |key| == 4 * nk
    ensures |w| == 4 * n
  {
    if n == 0 then [] else Schedule(key, nk, n - 1) + KeyWord(key, nk, n - 1)
  }

  /** The key schedule of a key. */
  function Expanded(bits: KeyBits, key: seq<bv8>): (w: seq<bv8>)
    requires |key| == bits.KeySize()
    ensures |w| == 16 * (bits.Nr() + 1)
  {
    Schedule(key, bits.Nk(), 4 * (bits.Nr() + 1))
  }

  /** The powers of x. */
  const POWERS: seq<bv8> := [0x01, 0x02, 0x04, 0x08, 0x10, 0x20, 0x40, 0x80, 0x1b, 0x36]

  lemma PowersOfX(k: nat)
    requires k < 10
    ensures PowerOfX(k) == POWERS[k]
    decreases k
  {
    hide Product;
    if k > 0 {
      PowersOfX(k - 1);
      Multiples(POWERS[k - 1]);
    }
  }

  lemma NumbersOf(bits: KeyBits)
    ensures bits.AES128? ==> bits.Nk() == 4 && bits.KeySize() == 16 && bits.Nr() == 10
    ensures bits.AES192? ==> bits.Nk() == 6 && bits.KeySize() == 24 && bits.Nr() == 12
    ensures bits.AES256? ==> bits.Nk() == 8 && bits.KeySize() == 32 && bits.Nr() == 14
  {
  }

  /** Section 5.2 of FIPS 197, for byte `j` of word `i`, which is word `m` of row `q` of the expanded
      keys `w` of `nk` words: the byte one key earlier, changed by one of the word before; of that
      word, the bytes are turned and substituted at the start of a row, and only substituted in the
      middle of a row of 8. */
  predicate ExpandedAt(w: seq<bv8>, nk: nat, i: nat, q: nat, m: nat, j: nat)
    requires 0 < nk <= i && 4 * i + 4 <= |w| && 1 <= q <= 10 && j < 4
  {
    w[4 * i + j] == Add(w[4 * (i - nk) + j],
                        if m == 0 then
                          Add(Sbox(w[4 * (i - 1) + (j + 1) % 4]), if j == 0 then POWERS[q - 1] else 0)
                        else if nk == 8 && m == 4 then Sbox(w[4 * (i - 1) + j])
                        else w[4 * (i - 1) + j])
  }

  lemma RowsInRange(bits: KeyBits, i: nat, q: nat, m: nat)
    requires i == q * bits.Nk() + m && m < bits.Nk() && 1 <= q && i < 4 * (bits.Nr() + 1)
    ensures 0 < bits.Nk() <= i && q <= 10 && 4 * i + 4 <= 16 * (bits.Nr() + 1)
    ensures bits.Nk() == 4 || bits.Nk() == 6 || bits.Nk() == 8
    ensures i / bits.Nk() == q && i % bits.Nk() == m
  {
    match bits
    case AES128 =>
    case AES192 =>
    case AES256 =>
  }

  /** Every byte of the expanded keys. */
  lemma ExpandedBytes(bits: KeyBits, key: seq<bv8>, i: nat, q: nat, m: nat, j: nat)
    requires |key| == bits.KeySize() && j < 4
    requires i == q * bits.Nk() + m && m < bits.Nk() && 1 <= q && i < 4 * (bits.Nr() + 1)
    ensures Expanded(bits, key)[..|key|] == key
    ensures bits.Nk() <= i && 4 * i + 4 <= |Expanded(bits, key)| && q <= 10
    ensures ExpandedAt(Expanded(bits, key), bits.Nk(), i, q, m, j)
  {
    hide Schedule, KeyWord, ExpandedAt;
    var nk, n := bits.Nk(), 4 * (bits.Nr() + 1);
    RowsInRange(bits, i, q, m);
    ExpandedWord(Expanded(bits, key), key, nk, n, i, q, m, j);
    ScheduleFront(key, nk, n);
  }

  lemma ExpandedWord(w: seq<bv8>, key: seq<bv8>, nk: nat, n: nat, i: nat, q: nat, m: nat, j: nat)
    requires 0 < nk <= i < n && |key| == 4 * nk && 1 <= q <= 10 && m < nk && j < 4 && (nk == 4 || nk == 6 || nk == 8)
    requires w == Schedule(key, nk, n) && Quotient(i, nk) == q && Residue(i, nk) == m
    ensures ExpandedAt(w, nk, i, q, m, j)
  {
    hide Schedule, KeyWord, Quotient, Residue, Sbox, TempByte, ExpandedAt, Add, XorWord;
    ScheduleByte(key, nk, n, i, j);
    ScheduleByte(key, nk, n, i - nk, j);
    ScheduleByte(key, nk, n, i - 1, j);
    var k := Turned(j);
    ScheduleByte(key, nk, n, i - 1, k);
    KeyWordByte(key, nk, i, q, m, j);
    var previous := KeyWord(key, nk, i - 1);
    SameByte(w, nk, i, q, m, j, w[4 * (i - nk) + j], previous);
  }

  function Turned(j: nat): (k: nat)
    requires j < 4
    ensures k < 4
  {
    (j + 1) % 4
  }

  lemma SameByte(w: seq<bv8>, nk: nat, i: nat, q: nat, m: nat, j: nat, earlier: bv8, previous: Word)
    requires 0 < nk <= i && 4 * i + 4 <= |w| && 1 <= q <= 10 && j < 4
    requires w[4 * (i - nk) + j] == earlier && w[4 * i + j] == Add(earlier, TempByte(nk, q, m, j, previous))
    requires w[4 * (i - 1) + j] == previous[j] && w[4 * (i - 1) + Turned(j)] == previous[Turned(j)]
    ensures ExpandedAt(w, nk, i, q, m, j)
  {
    hide Sbox, Add;
    assert j == 0 || j == 1 || j == 2 || j == 3;
  }

  lemma KeyWordByte(key: seq<bv8>, nk: nat, i: nat, q: nat, m: nat, j: nat)
    requires 0 < nk <= i && |key| == 4 * nk && 1 <= q <= 10 && j < 4 && (nk == 4 || nk == 6 || nk == 8)
    requires Quotient(i, nk) == q && Residue(i, nk) == m
    ensures KeyWord(key, nk, i)[j]
         == Add(KeyWord(key, nk, i - nk)[j], TempByte(nk, q, m, j, KeyWord(key, nk, i - 1)))
  {
    hide Temp, TempByte, Quotient, Residue, Add, XorWord, KeyWord;
    KeyWordStep(key, nk, i);
    var previous := KeyWord(key, nk, i - 1);
    TempBytes(nk, i, q, m, previous);
    XorBytes(KeyWord(key, nk, i - nk), Temp(nk, i, previous), j);
    assert j == 0 || j == 1 || j == 2 || j == 3;
  }

  lemma KeyWordStep(key: seq<bv8>, nk: nat, i: nat)
    requires 0 < nk <= i && |key| == 4 * nk
    ensures KeyWord(key, nk, i) == XorWord(KeyWord(key, nk, i - nk), Temp(nk, i, KeyWord(key, nk, i - 1)))
  {
  }

  lemma XorBytes(a: Word, b: Word, j: nat)
    requires j < 4
    ensures XorWord(a, b)[j] == Add(a[j], b[j])
  {
    hide Add;
  }

  /** The byte that byte `j` of a word is changed by. */
  function TempByte(nk: nat, q: nat, m: nat, j: nat, previous: Word): bv8
    requires 1 <= q <= 10 && j < 4
  {
    if m == 0 then Add(Sbox(previous[Turned(j)]), if j == 0 then POWERS[q - 1] else 0)
    else if nk == 8 && m == 4 then Sbox(previous[j])
    else previous[j]
  }

  lemma TempBytes(nk: nat, i: nat, q: nat, m: nat, previous: Word)
    requires 0 < nk <= i && 1 <= q <= 10 && (nk == 4 || nk == 6 || nk == 8)
    requires Quotient(i, nk) == q && Residue(i, nk) == m
    ensures Temp(nk, i, previous) == [TempByte(nk, q, m, 0, previous), TempByte(nk, q, m, 1, previous),
                                      TempByte(nk, q, m, 2, previous), TempByte(nk, q, m, 3, previous)]
  {
    hide Sbox, PowerOfX, Quotient, Residue, Add;
    PowersOfX(q - 1);
  }

  lemma ScheduleByte(key: seq<bv8>, nk: nat, n: nat, i: nat, j: nat)
    requires 0 < nk && |key| == 4 * nk && i < n && j < 4
    ensures Schedule(key, nk, n)[4 * i + j] == KeyWord(key, nk, i)[j]
  {
    hide Schedule, KeyWord;
    ScheduleWord(key, nk, n, i);
    WordByte(Schedule(key, nk, n), i, j);
  }

  lemma WordByte(w: seq<bv8>, i: nat, j: nat)
    requires 4 * i + 4 <= |w| && j < 4
    ensures w[4 * i..4 * i + 4][j] == w[4 * i + j]
  {
  }

  lemma {:induction false} ScheduleFront(key: seq<bv8>, nk: nat, n: nat)
    requires 0 < nk <= n && |key| == 4 * nk
    ensures Schedule(key, nk, n)[..|key|] == key
  {
    hide KeyWord;
    if n == nk { ScheduleStarts(key, nk, n); } else { ScheduleFront(key, nk, n - 1); }
  }

  /** Any row of words as long as the key, anywhere in the schedule, determines the key. */
  lemma {:induction false} ScheduleReversible(key: seq<bv8>, other: seq<bv8>, nk: nat, i: nat)
    requires 1 < nk && |key| == |other| == 4 * nk
    requires forall j :: i <= j < i + nk ==> KeyWord(key, nk, j) == KeyWord(other, nk, j)
    ensures key == other
    decreases i
  {
    hide KeyWord, Temp, XorWord;
    if i == 0 {
      forall k | 0 <= k < 4 * nk ensures key[k] == other[k] {
        KeyByte(key, nk, k);
        KeyByte(other, nk, k);
      }
    } else {
      EarlierWord(key, other, nk, i - 1);
      ScheduleReversible(key, other, nk, i - 1);
    }
  }

  lemma EarlierWord(key: seq<bv8>, other: seq<bv8>, nk: nat, i: nat)
    requires 1 < nk && |key| == |other| == 4 * nk
    requires KeyWord(key, nk, i + nk) == KeyWord(other, nk, i + nk)
    requires KeyWord(key, nk, i + nk - 1) == KeyWord(other, nk, i + nk - 1)
    ensures KeyWord(key, nk, i) == KeyWord(other, nk, i)
  {
    StepBack(key, nk, i + 1);
    StepBack(other, nk, i + 1);
    hide KeyWord, Temp, XorWord;
    XorWordInjective(KeyWord(key, nk, i), KeyWord(other, nk, i), Temp(nk, i + nk, KeyWord(key, nk, i + nk - 1)));
  }

  lemma StepBack(key: seq<bv8>, nk: nat, i: nat)
    requires 1 < nk && |key| == 4 * nk && i > 0
    ensures KeyWord(key, nk, i - 1 + nk) == XorWord(KeyWord(key, nk, i - 1),
                                                    Temp(nk, i - 1 + nk, KeyWord(key, nk, i + nk - 2)))
  {
  }

  lemma KeyByte(key: seq<bv8>, nk: nat, k: nat)
    requires 0 < nk && |key| == 4 * nk && k < 4 * nk
    ensures key[k] == KeyWord(key, nk, k / 4)[k % 4]
  {
  }

  lemma XorWordInjective(a: Word, b: Word, t: Word)
    requires XorWord(a, t) == XorWord(b, t)
    ensures a == b
  {
  }

  // ---------------------------------------------------------------------------------------
  // The steps in place
  // ---------------------------------------------------------------------------------------

  /** `rcon`. */
  method Rcon(i: nat) returns (c: bv8)
    ensures c == if i == 0 then 0 else PowerOfX(i - 1)
  {
    hide Product, Xtime;
    c := 1;
    if i == 0 {
      return 0;
    }
    var k := i;
    while k > 1
      invariant 1 <= k <= i && c == PowerOfX(i - k)
    {
      Multiples(c);
      c := Xtime(c);
      k := k - 1;
    }
  }

  /** `xor_block`, of the block at a position with another one. */
  method XorBlock(buf: array<bv8>, at: nat, other: array<bv8>)
    requires at + 16 <= buf.Length && other.Length == 16 && other != buf
    modifies buf
    ensures buf[at..at + 16] == Xor(old(buf[at..at + 16]), other[..])
    ensures buf[..at] == old(buf[..at]) && buf[at + 16..] == old(buf[at + 16..])
  {
    for i := 0 to 16
      invariant forall k :: at <= k < at + i ==> buf[k] == Add(old(buf[k]), other[k - at])
      invariant forall k :: at + i <= k < at + 16 ==> buf[k] == old(buf[k])
      invariant buf[..at] == old(buf[..at]) && buf[at + 16..] == old(buf[at + 16..])
    {
      buf[at + i] := Add(buf[at + i], other[i]);
    }
  }

  method AddRoundKey(state: array<bv8>, w: array<bv8>, round: nat)
    requires state.Length == 16 && 16 * round + 16 <= w.Length && w != state
    modifies state
    ensures state[..] == Xor(old(state[..]), RoundKey(w[..], round))
  {
    for i := 0 to 16
      invariant forall k :: 0 <= k < i ==> state[k] == Add(old(state[k]), w[16 * round + k])
      invariant forall k :: i <= k < 16 ==> state[k] == old(state[k])
    {
      state[i] := Add(state[i], w[16 * round + i]);
    }
  }

  method SubBytesInPlace(s: array<bv8>)
    requires s.Length == 16
    modifies s
    ensures s[..] == SubBytes(old(s[..]))
  {
    hide Sbox;
    for i := 0 to 16
      invariant forall k :: 0 <= k < i ==> s[k] == Sbox(old(s[k]))
      invariant forall k :: i <= k < 16 ==> s[k] == old(s[k])
    {
      s[i] := Sbox(s[i]);
    }
  }

  method InvSubBytesInPlace(s: array<bv8>)
    requires s.Length == 16
    modifies s
    ensures s[..] == InvSubBytes(old(s[..]))
  {
    hide Rsbox;
    for i := 0 to 16
      invariant forall k :: 0 <= k < i ==> s[k] == Rsbox(old(s[k]))
      invariant forall k :: i <= k < 16 ==> s[k] == old(s[k])
    {
      s[i] := Rsbox(s[i]);
    }
  }

  /** Moves four bytes by one place. */
  method Turn(s: array<bv8>, i: nat, j: nat, k: nat, l: nat)
    requires i < s.Length && j < s.Length && k < s.Length && l < s.Length
    requires i != j && i != k && i != l && j != k && j != l && k != l
    modifies s
    ensures s[..] == old(s[..][i := s[j]][j := s[k]][k := s[l]][l := s[i]])
  {
    var t := s[i];
    s[i] := s[j];
    s[j] := s[k];
    s[k] := s[l];
    s[l] := t;
  }

  method Exchange(s: array<bv8>, i: nat, j: nat)
    requires i < s.Length && j < s.Length
    modifies s
    ensures s[..] == old(s[..][i := s[j]][j := s[i]])
  {
    var t := s[i];
    s[i] := s[j];
    s[j] := t;
  }

  lemma ShiftRowsLists(s: Block)
    ensures ShiftRows(s) == [s[0], s[5], s[10], s[15], s[4], s[9], s[14], s[3], s[8], s[13], s[2], s[7], s[12], s[1],
                             s[6], s[11]]
  {
  }

  method ShiftRowsInPlace(s: array<bv8>)
    requires s.Length == 16
    modifies s
    ensures s[..] == ShiftRows(old(s[..]))
  {
    hide ShiftRows;
    ghost var s0 := s[..];
    // row 1
    Turn(s, 1, 5, 9, 13);
    // row 2
    Exchange(s, 2, 10);
    Exchange(s, 6, 14);
    // row 3
    Turn(s, 15, 11, 7, 3);
    ShiftRowsLists(s0);
  }

  lemma InvShiftRowsLists(s: Block)
    ensures InvShiftRows(s) == [s[0], s[13], s[10], s[7], s[4], s[1], s[14], s[11], s[8], s[5], s[2], s[15], s[12],
                                s[9], s[6], s[3]]
  {
  }

  method InvShiftRowsInPlace(s: array<bv8>)
    requires s.Length == 16
    modifies s
    ensures s[..] == InvShiftRows(old(s[..]))
  {
    hide InvShiftRows;
    ghost var s0 := s[..];
    // row 1
    Turn(s, 13, 9, 5, 1);
    // row 2
    Exchange(s, 2, 10);
    Exchange(s, 6, 14);
    // row 3
    Turn(s, 3, 7, 11, 15);
    InvShiftRowsLists(s0);
  }

  method MixColumnsInPlace(s: array<bv8>)
    requires s.Length == 16
    modifies s
    ensures s[..] == MixColumns(old(s[..]))
  {
    hide Xtime, MixedAt, Add;
    ghost var s0 := s[..];
    for c := 0 to 4
      invariant forall k :: 0 <= k < 4 * c ==> s[k] == MixedAt(s0, k)
      invariant forall k :: 4 * c <= k < 16 ==> s[k] == s0[k]
    {
      var i := 4 * c;
      var a0, a1, a2, a3 := s[i], s[i + 1], s[i + 2], s[i + 3];
      var t := Add(Add(a0, a1), Add(a2, a3));
      MixedColumnFast(s0, c, t);
      s[i] := Add(s[i], Add(t, Xtime(Add(a0, a1))));
      s[i + 1] := Add(s[i + 1], Add(t, Xtime(Add(a1, a2))));
      s[i + 2] := Add(s[i + 2], Add(t, Xtime(Add(a2, a3))));
      s[i + 3] := Add(s[i + 3], Add(t, Xtime(Add(a3, a0))));
    }
  }

  lemma MixedColumnFast(s: Block, c: nat, t: bv8)
    requires c < 4 && t == Add(Add(s[4 * c], s[4 * c + 1]), Add(s[4 * c + 2], s[4 * c + 3]))
    ensures var i := 4 * c;
            && MixedAt(s, i) == Add(s[i], Add(t, Xtime(Add(s[i], s[i + 1]))))
            && MixedAt(s, i + 1) == Add(s[i + 1], Add(t, Xtime(Add(s[i + 1], s[i + 2]))))
            && MixedAt(s, i + 2) == Add(s[i + 2], Add(t, Xtime(Add(s[i + 2], s[i + 3]))))
            && MixedAt(s, i + 3) == Add(s[i + 3], Add(t, Xtime(Add(s[i + 3], s[i]))))
  {
    hide Xtime, MixRow, MixedAt, Add;
    var i := 4 * c;
    MixedRows(s, c);
    FastRows(s[i], s[i + 1], s[i + 2], s[i + 3], t);
  }

  lemma FastRows(a: bv8, b: bv8, c: bv8, d: bv8, t: bv8)
    requires t == Add(Add(a, b), Add(c, d))
    ensures MixRow(a, b, c, d) == Add(a, Add(t, Xtime(Add(a, b))))
    ensures MixRow(b, c, d, a) == Add(b, Add(t, Xtime(Add(b, c))))
    ensures MixRow(c, d, a, b) == Add(c, Add(t, Xtime(Add(c, d))))
    ensures MixRow(d, a, b, c) == Add(d, Add(t, Xtime(Add(d, a))))
  {
    hide Xtime, MixRow, Add, Sum;
    SumIs(a, b, c, d);
    Rotated(a, b, c, d);
    Rotated(b, c, d, a);
    Rotated(c, d, a, b);
    MixRowFast(a, b, c, d);
    MixRowFast(b, c, d, a);
    MixRowFast(c, d, a, b);
    MixRowFast(d, a, b, c);
  }

  lemma MixedRows(s: Block, c: nat)
    requires c < 4
    ensures var i := 4 * c;
            && MixedAt(s, i) == MixRow(s[i], s[i + 1], s[i + 2], s[i + 3])
            && MixedAt(s, i + 1) == MixRow(s[i + 1], s[i + 2], s[i + 3], s[i])
            && MixedAt(s, i + 2) == MixRow(s[i + 2], s[i + 3], s[i], s[i + 1])
            && MixedAt(s, i + 3) == MixRow(s[i + 3], s[i], s[i + 1], s[i + 2])
  {
    hide MixRow;
  }

  method InvMixColumnsInPlace(s: array<bv8>)
    requires s.Length == 16
    modifies s
    ensures s[..] == InvMixColumns(old(s[..]))
  {
    hide UnmixRow, Product, UnmixedAt;
    ghost var s0 := s[..];
    for c := 0 to 4
      invariant forall k :: 0 <= k < 4 * c ==> s[k] == UnmixedAt(s0, k)
      invariant forall k :: 4 * c <= k < 16 ==> s[k] == s0[k]
    {
      var i := 4 * c;
      var a0, a1, a2, a3 := s[i], s[i + 1], s[i + 2], s[i + 3];
      var b0 := UnmixByte(a0, a1, a2, a3);
      var b1 := UnmixByte(a1, a2, a3, a0);
      var b2 := UnmixByte(a2, a3, a0, a1);
      var b3 := UnmixByte(a3, a0, a1, a2);
      UnmixedColumn(s0, c);
      s[i], s[i + 1], s[i + 2], s[i + 3] := b0, b1, b2, b3;
    }
  }

  /** One line of the loop in `inv_mix_columns`, arguments turned. */
  method UnmixByte(a: bv8, b: bv8, c: bv8, d: bv8) returns (r: bv8)
    ensures r == UnmixRow(a, b, c, d)
  {
    hide Product;
    var p := GfMul(a, 0x0e);
    var q := GfMul(b, 0x0b);
    var u := GfMul(c, 0x0d);
    var v := GfMul(d, 0x09);
    r := Add(Add(p, q), Add(u, v));
  }

  lemma UnmixedColumn(s: Block, c: nat)
    requires c < 4
    ensures var i := 4 * c;
            && UnmixedAt(s, i) == UnmixRow(s[i], s[i + 1], s[i + 2], s[i + 3])
            && UnmixedAt(s, i + 1) == UnmixRow(s[i + 1], s[i + 2], s[i + 3], s[i])
            && UnmixedAt(s, i + 2) == UnmixRow(s[i + 2], s[i + 3], s[i], s[i + 1])
            && UnmixedAt(s, i + 3) == UnmixRow(s[i + 3], s[i], s[i + 1], s[i + 2])
  {
    hide UnmixRow;
  }

  // ---------------------------------------------------------------------------------------
  // aes_core
  // ---------------------------------------------------------------------------------------

  class AesCore {
    const bits: KeyBits
    const nk: nat
    const nr: nat
    const roundKey: array<bv8>

    ghost predicate Valid() {
      nk == bits.Nk() && nr == bits.Nr() && roundKey.Length == 16 * (nr + 1)
    }

    constructor (bits: KeyBits)
      ensures Valid() && this.bits == bits && fresh(roundKey)
    {
      this.bits := bits;
      nk := bits.Nk();
      nr := bits.Nr();
      roundKey := new bv8[16 * (bits.Nr() + 1)];
    }

    /** `key_expansion`. */
    method KeyExpansion(key: seq<bv8>)
      requires Valid() && |key| == bits.KeySize()
      modifies roundKey
      ensures roundKey[..] == Expanded(bits, key)
      ensures 4 * nk <= roundKey.Length && roundKey[..4 * nk] == key
      ensures forall i, q, m, j :: i == q * nk + m && 0 <= m < nk && 1 <= q && i < 4 * (nr + 1) && 0 <= j < 4 ==>
                0 < nk <= i && 4 * i + 4 <= roundKey.Length && q <= 10 && ExpandedAt(roundKey[..], nk, i, q, m, j)
    {
      hide KeyWord, Temp, Schedule, XorWord, ExpandedAt;
      for i := 0 to nk
        invariant roundKey[..4 * i] == key[..4 * i]
      {
        WriteWord(i, [key[4 * i], key[4 * i + 1], key[4 * i + 2], key[4 * i + 3]]);
        KeyPart(key, i);
      }
      ScheduleStarts(key, nk, nk);
      assert key[..4 * nk] == key;
      for i := nk to 4 * (nr + 1)
        invariant roundKey[..4 * i] == Schedule(key, nk, i)
      {
        ScheduleWord(key, nk, i, i - 1);
        ScheduleWord(key, nk, i, i - nk);
        var temp := ReadWord(i, i - 1);
        temp := ChangeWord(temp, i);
        var earlier := ReadWord(i, i - nk);
        WriteWord(i, XorWord(earlier, temp));
        ScheduleNext(key, nk, i);
      }
      assert roundKey[..] == roundKey[..4 * (4 * (nr + 1))];
      AllExpandedBytes(bits, key, roundKey[..]);
    }

    /** A word among the first `n` ones. */
    method ReadWord(ghost n: nat, i: nat) returns (word: Word)
      requires Valid() && i < n <= 4 * (nr + 1)
      ensures word == roundKey[..4 * n][4 * i..4 * i + 4]
    {
      word := [roundKey[4 * i], roundKey[4 * i + 1], roundKey[4 * i + 2], roundKey[4 * i + 3]];
    }

    method WriteWord(i: nat, word: Word)
      requires Valid() && i < 4 * (nr + 1)
      modifies roundKey
      ensures roundKey[..4 * (i + 1)] == old(roundKey[..4 * i]) + word
    {
      roundKey[4 * i] := word[0];
      roundKey[4 * i + 1] := word[1];
      roundKey[4 * i + 2] := word[2];
      roundKey[4 * i + 3] := word[3];
    }

    /** The changes to `temp` in a round of the expansion loop. */
    method ChangeWord(word: Word, i: nat) returns (temp: Word)
      requires Valid() && nk <= i < 4 * (nr + 1)
      ensures temp == Temp(nk, i, word)
    {
      hide PowerOfX, Sbox, Add;
      temp := word;
      if i % nk == 0 {
        temp := [temp[1], temp[2], temp[3], temp[0]];
        temp := [Sbox(temp[0]), Sbox(temp[1]), Sbox(temp[2]), Sbox(temp[3])];
        QuotientPositive(i, nk);
        var c := Rcon(i / nk);
        NoChange(temp[1]);
        NoChange(temp[2]);
        NoChange(temp[3]);
        temp := [Add(temp[0], c), temp[1], temp[2], temp[3]];
      } else if nk > 6 && i % nk == 4 {
        temp := [Sbox(temp[0]), Sbox(temp[1]), Sbox(temp[2]), Sbox(temp[3])];
      }
    }

    /** `encrypt_block`, at a position of a buffer. */
    method EncryptBlock(block: array<bv8>, at: nat)
      requires Valid() && at + 16 <= block.Length && block != roundKey
      modifies block
      ensures block[at..at + 16] == Cipher(roundKey[..], nr, old(block[at..at + 16]))
      ensures block[..at] == old(block[..at]) && block[at + 16..] == old(block[at + 16..])
    {
      hide Xor, SubBytes, ShiftRows, MixColumns, RoundKey;
      var state := LoadBlock(block, at);
      ghost var s0 := state[..];
      AddRoundKey(state, roundKey, 0);
      for round := 1 to nr
        invariant block[..] == old(block[..])
        invariant state[..] == Rounds(roundKey[..], s0, round - 1)
      {
        SubBytesInPlace(state);
        ShiftRowsInPlace(state);
        MixColumnsInPlace(state);
        AddRoundKey(state, roundKey, round);
      }
      SubBytesInPlace(state);
      ShiftRowsInPlace(state);
      AddRoundKey(state, roundKey, nr);
      StoreBlock(block, at, state);
    }

    /** `decrypt_block`, at a position of a buffer. */
    method DecryptBlock(block: array<bv8>, at: nat)
      requires Valid() && at + 16 <= block.Length && block != roundKey
      modifies block
      ensures block[at..at + 16] == InvCipher(roundKey[..], nr, old(block[at..at + 16]))
      ensures block[..at] == old(block[..at]) && block[at + 16..] == old(block[at + 16..])
    {
      hide Xor, InvSubBytes, InvShiftRows, InvMixColumns, RoundKey;
      var state := LoadBlock(block, at);
      ghost var s0 := state[..];
      AddRoundKey(state, roundKey, nr);
      var round := nr;
      while round > 1
        invariant 1 <= round <= nr
        invariant block[..] == old(block[..])
        invariant state[..] == InvRounds(roundKey[..], nr, s0, round)
      {
        round := round - 1;
        InvShiftRowsInPlace(state);
        InvSubBytesInPlace(state);
        AddRoundKey(state, roundKey, round);
        InvMixColumnsInPlace(state);
      }
      InvShiftRowsInPlace(state);
      InvSubBytesInPlace(state);
      AddRoundKey(state, roundKey, 0);
      StoreBlock(block, at, state);
    }
  }

  lemma AllExpandedBytes(bits: KeyBits, key: seq<bv8>, w: seq<bv8>)
    requires |key| == bits.KeySize() && w == Expanded(bits, key)
    ensures |key| <= |w| && w[..|key|] == key
    ensures forall i, q, m, j ::
              i == q * bits.Nk() + m && 0 <= m < bits.Nk() && 1 <= q && i < 4 * (bits.Nr() + 1) && 0 <= j < 4 ==>
                0 < bits.Nk() <= i && 4 * i + 4 <= |w| && q <= 10 && ExpandedAt(w, bits.Nk(), i, q, m, j)
  {
    hide Expanded, ExpandedAt;
    var nk := bits.Nk();
    forall i, q, m, j | i == q * nk + m && 0 <= m < nk && 1 <= q && i < 4 * (bits.Nr() + 1) && 0 <= j < 4
      ensures 0 < nk <= i && 4 * i + 4 <= |w| && q <= 10 && ExpandedAt(w, nk, i, q, m, j)
    {
      ExpandedBytes(bits, key, i, q, m, j);
    }
    ExpandedBytes(bits, key, nk, 1, 0, 0);
  }

  lemma KeyPart(key: seq<bv8>, i: nat)
    requires 4 * i + 4 <= |key|
    ensures key[..4 * (i + 1)] == key[..4 * i] + [key[4 * i], key[4 * i + 1], key[4 * i + 2], key[4 * i + 3]]
  {
  }

  lemma NoChange(x: bv8)
    ensures Add(x, 0) == x
  {
  }

  lemma QuotientPositive(i: nat, nk: nat)
    requires 0 < nk <= i
    ensures i / nk > 0
  {
  }

  /** The first words of the schedule are the key. */
  lemma {:induction false} ScheduleStarts(key: seq<bv8>, nk: nat, n: nat)
    requires 0 < nk && |key| == 4 * nk && n <= nk
    ensures Schedule(key, nk, n) == key[..4 * n]
  {
    if n > 0 {
      ScheduleStarts(key, nk, n - 1);
      assert key[..4 * n] == key[..4 * (n - 1)] + key[4 * (n - 1)..4 * (n - 1) + 4];
    }
  }

  lemma {:induction false} ScheduleWord(key: seq<bv8>, nk: nat, n: nat, i: nat)
    requires 0 < nk && |key| == 4 * nk && i < n
    ensures Schedule(key, nk, n)[4 * i..4 * i + 4] == KeyWord(key, nk, i)
  {
    hide KeyWord;
    var front := Schedule(key, nk, n - 1);
    if i < n - 1 {
      ScheduleWord(key, nk, n - 1, i);
      assert (front + KeyWord(key, nk, n - 1))[4 * i..4 * i + 4] == front[4 * i..4 * i + 4];
    }
  }

  lemma ScheduleNext(key: seq<bv8>, nk: nat, i: nat)
    requires 0 < nk <= i && |key| == 4 * nk
    ensures Schedule(key, nk, i + 1)
         == Schedule(key, nk, i) + XorWord(KeyWord(key, nk, i - nk), Temp(nk, i, KeyWord(key, nk, i - 1)))
  {
  }

  /** Copies a block out of a buffer. */
  method LoadBlock(buf: array<bv8>, at: nat) returns (state: array<bv8>)
    requires at + 16 <= buf.Length
    ensures fresh(state) && state.Length == 16 && state[..] == buf[at..at + 16]
  {
    state := new bv8[16];
    CopyBlock(state, 0, buf, at);
  }

  method StoreBlock(buf: array<bv8>, at: nat, state: array<bv8>)
    requires at + 16 <= buf.Length && state.Length == 16 && state != buf
    modifies buf
    ensures buf[at..at + 16] == state[..]
    ensures buf[..at] == old(buf[..at]) && buf[at + 16..] == old(buf[at + 16..])
  {
    CopyBlock(buf, at, state, 0);
  }

  /** `memcpy` of a block. */
  method CopyBlock(dst: array<bv8>, to: nat, src: array<bv8>, from: nat)
    requires to + 16 <= dst.Length && from + 16 <= src.Length && src != dst
    modifies dst
    ensures dst[to..to + 16] == src[from..from + 16]
    ensures dst[..to] == old(dst[..to]) && dst[to + 16..] == old(dst[to + 16..])
  {
    for i := 0 to 16
      invariant dst[to..to + i] == src[from..from + i]
      invariant dst[..to] == old(dst[..to]) && dst[to + 16..] == old(dst[to + 16..])
    {
      dst[to + i] := src[from + i];
    }
  }

  // ---------------------------------------------------------------------------------------
  // Cipher block chaining (section 6.2 of NIST SP 800-38A)
  // ---------------------------------------------------------------------------------------

  function CbcEncrypt(w: seq<bv8>, nr: nat, iv: Block, p: seq<bv8>): (c: seq<bv8>)
    requires nr > 0 && 16 * nr + 16 <= |w| && |p| % 16 == 0
    ensures |c| == |p|
    decreases |p|
  {
    if p == [] then []
    else
      var c: seq<bv8> := Cipher(w, nr, Xor(p[..16], iv));
      c + CbcEncrypt(w, nr, c, p[16..])
  }

  function CbcDecrypt(w: seq<bv8>, nr: nat, iv: Block, c: seq<bv8>): (p: seq<bv8>)
    requires nr > 0 && 16 * nr + 16 <= |w| && |c| % 16 == 0
    ensures |p| == |c|
    decreases |c|
  {
    if c == [] then []
    else Xor(InvCipher(w, nr, c[..16]), iv) + CbcDecrypt(w, nr, c[..16], c[16..])
  }

  lemma {:induction false} CbcRoundTrip(w: seq<bv8>, nr: nat, iv: Block, p: seq<bv8>)
    requires nr > 0 && 16 * nr + 16 <= |w| && |p| % 16 == 0
    ensures CbcDecrypt(w, nr, iv, CbcEncrypt(w, nr, iv, p)) == p
    decreases |p|
  {
    hide Cipher, InvCipher, Xor;
    if p != [] {
      var c: seq<bv8> := Cipher(w, nr, Xor(p[..16], iv));
      var rest := CbcEncrypt(w, nr, c, p[16..]);
      assert (c + rest)[..16] == c && (c + rest)[16..] == rest;
      CipherUndone(w, nr, Xor(p[..16], iv));
      XorTwice(p[..16], iv);
      CbcRoundTrip(w, nr, c, p[16..]);
    }
  }

  /** The `i`-th block of a text. */
  function BlockOf(s: seq<bv8>, i: nat): Block
    requires 16 * i + 16 <= |s|
  {
    s[16 * i..16 * i + 16]
  }

  /** Every block of the ciphertext is the cipher of the block of the text at its place, combined
      with the block of the ciphertext before it, or with the initial vector. */
  lemma {:induction false} CbcBlock(w: seq<bv8>, nr: nat, iv: Block, p: seq<bv8>, i: nat)
    requires nr > 0 && 16 * nr + 16 <= |w| && |p| % 16 == 0 && 16 * i + 16 <= |p|
    ensures var c := CbcEncrypt(w, nr, iv, p);
            BlockOf(c, i) == Cipher(w, nr, Xor(BlockOf(p, i), if i == 0 then iv else BlockOf(c, i - 1)))
    decreases i
  {
    hide Cipher, Xor;
    var first: seq<bv8> := Cipher(w, nr, Xor(p[..16], iv));
    var rest := CbcEncrypt(w, nr, first, p[16..]);
    assert (first + rest)[0..16] == first && p[0..16] == p[..16];
    if i > 0 {
      CbcBlock(w, nr, first, p[16..], i - 1);
      assert BlockOf(p[16..], i - 1) == BlockOf(p, i);
      assert BlockOf(rest, i - 1) == BlockOf(first + rest, i);
      if i > 1 { assert BlockOf(rest, i - 2) == BlockOf(first + rest, i - 1); }
    }
  }

  /** The chaining value after a text. */
  function LastBlock(iv: Block, c: seq<bv8>): Block {
    if |c| < 16 then iv else c[|c| - 16..]
  }

  /** One more block at the end of a text. */
  lemma {:induction false} CbcEncryptAppend(w: seq<bv8>, nr: nat, iv: Block, p: seq<bv8>, b: Block)
    requires nr > 0 && 16 * nr + 16 <= |w| && |p| % 16 == 0
    ensures var c := CbcEncrypt(w, nr, iv, p);
            CbcEncrypt(w, nr, iv, p + b) == c + Cipher(w, nr, Xor(b, LastBlock(iv, c)))
    decreases |p|
  {
    hide Cipher, Xor;
    if p == [] {
      assert p + b == b && b[..16] == b && b[16..] == [];
      assert CbcEncrypt(w, nr, Cipher(w, nr, Xor(b, iv)), []) == [];
    } else {
      var c: seq<bv8> := Cipher(w, nr, Xor(p[..16], iv));
      assert (p + b)[..16] == p[..16] && (p + b)[16..] == p[16..] + b;
      CbcEncryptAppend(w, nr, c, p[16..], b);
      var rest := CbcEncrypt(w, nr, c, p[16..]);
      assert LastBlock(iv, c + rest) == LastBlock(c, rest);
    }
  }

  lemma {:induction false} CbcDecryptAppend(w: seq<bv8>, nr: nat, iv: Block, c: seq<bv8>, b: Block)
    requires nr > 0 && 16 * nr + 16 <= |w| && |c| % 16 == 0
    ensures CbcDecrypt(w, nr, iv, c + b) == CbcDecrypt(w, nr, iv, c) + Xor(InvCipher(w, nr, b), LastBlock(iv, c))
    decreases |c|
  {
    hide InvCipher, Xor;
    if c == [] {
      assert c + b == b && b[..16] == b && b[16..] == [];
    } else {
      assert (c + b)[..16] == c[..16] && (c + b)[16..] == c[16..] + b;
      CbcDecryptAppend(w, nr, c[..16], c[16..], b);
      assert LastBlock(iv, c) == LastBlock(c[..16], c[16..]);
    }
  }

  /** What a caller must get right. */
  predicate Acceptable(bits: KeyBits, key: seq<bv8>, iv: seq<bv8>, size: nat, outSize: nat) {
    |key| == bits.KeySize() && |iv| == 16 && size <= outSize && size % 16 == 0
  }

  /** `memcpy` of the input to the output. */
  method CopyInput(out: array<bv8>, input: seq<bv8>)
    requires |input| <= out.Length
    modifies out
    ensures out[..] == input + old(out[|input|..])
  {
    for i := 0 to |input|
      invariant out[..i] == input[..i] && out[i..] == old(out[i..])
    {
      out[i] := input[i];
    }
  }

  /** `aes::encrypt`: nothing is written unless the sizes are right. */
  method Encrypt(bits: KeyBits, key: seq<bv8>, iv: seq<bv8>, plaintext: seq<bv8>, out: array<bv8>) returns (ok: bool)
    modifies out
    ensures ok <==> Acceptable(bits, key, iv, |plaintext|, out.Length)
    ensures ok <==> |key| == (match bits case AES128 => 16 case AES192 => 24 case AES256 => 32)
                    && |iv| == 16 && |plaintext| <= out.Length && |plaintext| % 16 == 0
    ensures !ok ==> out[..] == old(out[..])
    ensures ok ==> out[..] == CbcEncrypt(Expanded(bits, key), bits.Nr(), iv, plaintext) + old(out[|plaintext|..])
  {
    hide Cipher, Xor, Schedule, EncryptedSoFar, CbcEncrypt, LastBlock;
    if |key| != bits.KeySize() {
      return false;
    }
    if |iv| != 16 {
      return false;
    }
    if out.Length < |plaintext| {
      return false;
    }
    var n := |plaintext|;
    if n % 16 != 0 {
      return false;
    }
    if n == 0 {
      return true;
    }
    ghost var tail := out[n..];
    CopyInput(out, plaintext);
    var core := new AesCore(bits);
    core.KeyExpansion(key);
    var chain := new bv8[16](i requires 0 <= i < 16 => iv[i]);
    assert chain[..] == iv;
    EncryptBlocks(core, out, n, chain, iv, plaintext, tail);
    return true;
  }

  /** The loop of `aes::encrypt`. */
  method EncryptBlocks(core: AesCore, out: array<bv8>, n: nat, chain: array<bv8>, ghost iv: Block,
                       ghost plaintext: seq<bv8>, ghost tail: seq<bv8>)
    requires core.Valid() && chain.Length == 16 && n == |plaintext| && n % 16 == 0
    requires core.roundKey != out && core.roundKey != chain && out != chain
    requires out[..] == plaintext + tail && chain[..] == iv
    modifies out, chain
    ensures out[..] == CbcEncrypt(core.roundKey[..], core.nr, iv, plaintext) + tail
  {
    hide Cipher, Xor, EncryptedSoFar, CbcEncrypt, LastBlock;
    ghost var w, nr := core.roundKey[..], core.nr;
    EncryptStart(w, nr, iv, plaintext, tail);
    var i := 0;
    while i < n
      invariant i <= n && i % 16 == 0
      invariant core.roundKey[..] == w
      invariant EncryptedSoFar(out[..], chain[..], w, nr, iv, plaintext, i, tail)
    {
      ghost var s0, chain0 := out[..], chain[..];
      EncryptStep(core, out, i, chain);
      EncryptProgress(s0, chain0, out[..], chain[..], w, nr, iv, plaintext, i, tail);
      i := i + 16;
    }
    EncryptEnd(out[..], chain[..], w, nr, iv, plaintext, tail);
  }

  /** The first `i` bytes of the buffer are encrypted. */
  ghost predicate EncryptedSoFar(s: seq<bv8>, chain: seq<bv8>, w: seq<bv8>, nr: nat, iv: Block, p: seq<bv8>, i: nat,
                                 tail: seq<bv8>)
    requires nr > 0 && 16 * nr + 16 <= |w| && i <= |p| && i % 16 == 0
  {
    var c := CbcEncrypt(w, nr, iv, p[..i]);
    s == c + p[i..] + tail && chain == LastBlock(iv, c)
  }

  lemma EncryptStart(w: seq<bv8>, nr: nat, iv: Block, p: seq<bv8>, tail: seq<bv8>)
    requires nr > 0 && 16 * nr + 16 <= |w|
    ensures EncryptedSoFar(p + tail, iv, w, nr, iv, p, 0, tail)
  {
    assert p[..0] == [] && p[0..] == p && [] + p + tail == p + tail;
  }

  lemma EncryptEnd(s: seq<bv8>, chain: seq<bv8>, w: seq<bv8>, nr: nat, iv: Block, p: seq<bv8>, tail: seq<bv8>)
    requires nr > 0 && 16 * nr + 16 <= |w| && |p| % 16 == 0 && EncryptedSoFar(s, chain, w, nr, iv, p, |p|, tail)
    ensures s == CbcEncrypt(w, nr, iv, p) + tail
  {
    assert p[..|p|] == p && p[|p|..] == [];
  }

  lemma EncryptProgress(s: seq<bv8>, chain: Block, s': seq<bv8>, chain': Block, w: seq<bv8>, nr: nat, iv: Block,
                        p: seq<bv8>, i: nat, tail: seq<bv8>)
    requires nr > 0 && 16 * nr + 16 <= |w| && i < |p| && i % 16 == 0 && |p| % 16 == 0
    requires EncryptedSoFar(s, chain, w, nr, iv, p, i, tail) && i + 16 <= |s|
    requires chain' == Cipher(w, nr, Xor(s[i..i + 16], chain)) && s' == s[..i] + chain' + s[i + 16..]
    ensures EncryptedSoFar(s', chain', w, nr, iv, p, i + 16, tail)
  {
    hide Cipher, Xor, CbcEncrypt;
    var c, block := CbcEncrypt(w, nr, iv, p[..i]), p[i..i + 16];
    NextBlock(s, c, p, i, tail);
    CbcEncryptAppend(w, nr, iv, p[..i], block);
    LastIs(iv, c, chain');
    Joined(c, chain', p[i + 16..], tail);
  }

  lemma Joined(a: seq<bv8>, b: seq<bv8>, c: seq<bv8>, d: seq<bv8>)
    ensures a + b + (c + d) == (a + b) + c + d
  {
  }

  /** The body of the loop in `aes::encrypt`. */
  method EncryptStep(core: AesCore, buf: array<bv8>, at: nat, chain: array<bv8>)
    requires core.Valid() && core.roundKey != buf && core.roundKey != chain && buf != chain
    requires at + 16 <= buf.Length && chain.Length == 16
    modifies buf, chain
    ensures chain[..] == Cipher(core.roundKey[..], core.nr, Xor(old(buf[at..at + 16]), old(chain[..])))
    ensures buf[..] == old(buf[..at]) + chain[..] + old(buf[at + 16..])
  {
    hide Cipher, Xor;
    XorBlock(buf, at, chain);
    core.EncryptBlock(buf, at);
    CopyBlock(chain, 0, buf, at);
    InParts(buf[..], at);
  }

  lemma InParts(s: seq<bv8>, at: nat)
    requires at + 16 <= |s|
    ensures s == s[..at] + s[at..at + 16] + s[at + 16..]
  {
  }

  /** The parts of a buffer in which the first `i` bytes are done. */
  lemma NextBlock(s: seq<bv8>, done: seq<bv8>, input: seq<bv8>, i: nat, tail: seq<bv8>)
    requires |done| == i && i + 16 <= |input| && s == done + input[i..] + tail
    ensures s[..i] == done && s[i..i + 16] == input[i..i + 16] && s[i + 16..] == input[i + 16..] + tail
    ensures input[..i + 16] == input[..i] + input[i..i + 16]
  {
    assert input[i..] == input[i..i + 16] + input[i + 16..];
  }

  lemma LastIs(iv: Block, c: seq<bv8>, b: Block)
    ensures LastBlock(iv, c + b) == b
  {
  }

  /** `aes::decrypt`. */
  method Decrypt(bits: KeyBits, key: seq<bv8>, iv: seq<bv8>, ciphertext: seq<bv8>, out: array<bv8>) returns (ok: bool)
    modifies out
    ensures ok <==> Acceptable(bits, key, iv, |ciphertext|, out.Length)
    ensures ok <==> |key| == (match bits case AES128 => 16 case AES192 => 24 case AES256 => 32)
                    && |iv| == 16 && |ciphertext| <= out.Length && |ciphertext| % 16 == 0
    ensures !ok ==> out[..] == old(out[..])
    ensures ok ==> out[..] == CbcDecrypt(Expanded(bits, key), bits.Nr(), iv, ciphertext) + old(out[|ciphertext|..])
  {
    hide InvCipher, Xor, Schedule, DecryptedSoFar, CbcDecrypt, LastBlock;
    if |key| != bits.KeySize() {
      return false;
    }
    if |iv| != 16 {
      return false;
    }
    if out.Length < |ciphertext| {
      return false;
    }
    var n := |ciphertext|;
    if n % 16 != 0 {
      return false;
    }
    if n == 0 {
      return true;
    }
    ghost var tail := out[n..];
    CopyInput(out, ciphertext);
    var core := new AesCore(bits);
    core.KeyExpansion(key);
    var prev := new bv8[16](i requires 0 <= i < 16 => iv[i]);
    var cur := new bv8[16];
    assert prev[..] == iv;
    DecryptBlocks(core, out, n, prev, cur, iv, ciphertext, tail);
    return true;
  }

  /** The loop of `aes::decrypt`. */
  method DecryptBlocks(core: AesCore, out: array<bv8>, n: nat, prev: array<bv8>, cur: array<bv8>, ghost iv: Block,
                       ghost ciphertext: seq<bv8>, ghost tail: seq<bv8>)
    requires core.Valid() && prev.Length == cur.Length == 16 && n == |ciphertext| && n % 16 == 0
    requires core.roundKey != out && core.roundKey != prev && core.roundKey != cur && out != prev && out != cur
             && prev != cur
    requires out[..] == ciphertext + tail && prev[..] == iv
    modifies out, prev, cur
    ensures out[..] == CbcDecrypt(core.roundKey[..], core.nr, iv, ciphertext) + tail
  {
    hide InvCipher, Xor, DecryptedSoFar, CbcDecrypt, LastBlock;
    ghost var w, nr := core.roundKey[..], core.nr;
    DecryptStart(w, nr, iv, ciphertext, tail);
    var i := 0;
    while i < n
      invariant i <= n && i % 16 == 0
      invariant core.roundKey[..] == w
      invariant DecryptedSoFar(out[..], prev[..], w, nr, iv, ciphertext, i, tail)
    {
      ghost var s0, prev0 := out[..], prev[..];
      DecryptStep(core, out, i, prev, cur);
      DecryptProgress(s0, prev0, out[..], prev[..], w, nr, iv, ciphertext, i, tail);
      i := i + 16;
    }
    DecryptEnd(out[..], prev[..], w, nr, iv, ciphertext, tail);
  }

  /** The first `i` bytes of the buffer are decrypted. */
  ghost predicate DecryptedSoFar(s: seq<bv8>, prev: seq<bv8>, w: seq<bv8>, nr: nat, iv: Block, c: seq<bv8>, i: nat,
                                 tail: seq<bv8>)
    requires nr > 0 && 16 * nr + 16 <= |w| && i <= |c| && i % 16 == 0
  {
    s == CbcDecrypt(w, nr, iv, c[..i]) + c[i..] + tail && prev == LastBlock(iv, c[..i])
  }

  lemma DecryptStart(w: seq<bv8>, nr: nat, iv: Block, c: seq<bv8>, tail: seq<bv8>)
    requires nr > 0 && 16 * nr + 16 <= |w|
    ensures DecryptedSoFar(c + tail, iv, w, nr, iv, c, 0, tail)
  {
    assert c[..0] == [] && c[0..] == c && [] + c + tail == c + tail;
  }

  lemma DecryptEnd(s: seq<bv8>, prev: seq<bv8>, w: seq<bv8>, nr: nat, iv: Block, c: seq<bv8>, tail: seq<bv8>)
    requires nr > 0 && 16 * nr + 16 <= |w| && |c| % 16 == 0 && DecryptedSoFar(s, prev, w, nr, iv, c, |c|, tail)
    ensures s == CbcDecrypt(w, nr, iv, c) + tail
  {
    assert c[..|c|] == c && c[|c|..] == [];
  }

  lemma DecryptProgress(s: seq<bv8>, prev: Block, s': seq<bv8>, prev': Block, w: seq<bv8>, nr: nat, iv: Block,
                        c: seq<bv8>, i: nat, tail: seq<bv8>)
    requires nr > 0 && 16 * nr + 16 <= |w| && i < |c| && i % 16 == 0 && |c| % 16 == 0
    requires DecryptedSoFar(s, prev, w, nr, iv, c, i, tail) && i + 16 <= |s|
    requires prev' == s[i..i + 16] && s' == s[..i] + Xor(InvCipher(w, nr, s[i..i + 16]), prev) + s[i + 16..]
    ensures DecryptedSoFar(s', prev', w, nr, iv, c, i + 16, tail)
  {
    hide InvCipher, Xor, CbcDecrypt;
    var p, block := CbcDecrypt(w, nr, iv, c[..i]), c[i..i + 16];
    NextBlock(s, p, c, i, tail);
    CbcDecryptAppend(w, nr, iv, c[..i], block);
    LastIs(iv, c[..i], block);
    Joined(p, Xor(InvCipher(w, nr, block), prev), c[i + 16..], tail);
  }

  /** The body of the loop in `aes::decrypt`. */
  method DecryptStep(core: AesCore, buf: array<bv8>, at: nat, prev: array<bv8>, cur: array<bv8>)
    requires core.Valid() && core.roundKey != buf && core.roundKey != prev && core.roundKey != cur
    requires buf != prev && buf != cur && prev != cur
    requires at + 16 <= buf.Length && prev.Length == cur.Length == 16
    modifies buf, prev, cur
    ensures prev[..] == old(buf[at..at + 16])
    ensures buf[..] == old(buf[..at]) + Xor(InvCipher(core.roundKey[..], core.nr, old(buf[at..at + 16])),
                                            old(prev[..])) + old(buf[at + 16..])
  {
    hide InvCipher, Xor;
    CopyBlock(cur, 0, buf, at);
    core.DecryptBlock(buf, at);
    XorBlock(buf, at, prev);
    CopyBlock(prev, 0, cur, 0);
    InParts(buf[..], at);
  }

  lemma NothingBehind(s: seq<bv8>)
    ensures s + [] == s
  {
  }

  /** Encrypting and decrypting, with keys of any size: the text comes back. */
  method EncryptDecrypt(bits: KeyBits, key: seq<bv8>, iv: seq<bv8>, plaintext: seq<bv8>)
    returns (ok: bool, back: seq<bv8>)
    ensures ok <==> |key| == bits.KeySize() && |iv| == 16 && |plaintext| % 16 == 0
    ensures ok ==> back == plaintext
  {
    hide CbcEncrypt, CbcDecrypt, Schedule;
    var n := |plaintext|;
    var cipher, plain := new bv8[n], new bv8[n];
    ok := Encrypt(bits, key, iv, plaintext, cipher);
    back := [];
    if ok {
      CbcRoundTrip(Expanded(bits, key), bits.Nr(), iv, plaintext);
      NothingBehind(CbcEncrypt(Expanded(bits, key), bits.Nr(), iv, plaintext));
      NothingBehind(plaintext);
      var again := Decrypt(bits, key, iv, cipher[..], plain);
      back := plain[..];
    }
  }
}
