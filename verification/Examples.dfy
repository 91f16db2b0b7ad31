/** A small key in all the forms that the modules read and write, byte by byte. */
module Examples {
  import opened Common
  import opened BigNum
  import opened ByteStrings
  import opened Bits
  import opened Arith
  import opened Primes
  import Rsa
  import Base64
  import SshKey
  import DerKey
  import Pem

  /** The key pair with the primes 13 and 11 and the exponents 17 and 113. */
  const PUBLIC: Rsa.PublicKey := Rsa.PublicKey([143], [17])
  const PRIVATE: Rsa.PrivateKey := Rsa.PrivateKey([143], [17], [113], [13], [11], [5], [3], [6])

  // ---------------------------------------------------------------------------------------
  // Encryption
  // ---------------------------------------------------------------------------------------

  lemma OneByte(b: Byte)
    ensures BeValue([b]) == b && BeValue([b]) % Pow2(32) == b
  {
    assert [b][..0] == [];
    Pow2Words();
  }

  lemma ElevenThirteen()
    ensures Prime(13) && Prime(11)
  {
  }

  /** It is a pair of matching keys. */
  lemma KeyPairExample()
    ensures Rsa.Matching(PUBLIC, PRIVATE, 13, 11)
  {
    ElevenThirteen();
    ExampleExponents();
    hide Prime, BeValue, Pow2;
    OneByte(143);
    assert (17 * 113 - 1) % 12 == 0 && (17 * 113 - 1) % 10 == 0;
  }

  lemma ExampleExponents()
    ensures Rsa.Exponent([17], [143]) == 17 && Rsa.Exponent([113], [143]) == 113
  {
    hide BeValue, Pow2;
    OneByte(17);
    OneByte(113);
  }

  lemma TwoToSeventeen()
    ensures Pow(2, 17) % 143 == 84
  {
    assert Pow(2, 8) == 256;
    assert Pow(2, 17) == 131072;
  }

  /** 2 is encrypted as 84, the remainder of its 17th power by 143, and 84 is decrypted as 2. */
  method EncryptExample(beyond: Byte) returns (ciphertext: seq<Byte>, plaintext: seq<Byte>)
    ensures ciphertext == [84] && plaintext == [2]
  {
    hide BeValue, Pow, Pow2, Rsa.Exponent;
    OneByte(2);
    OneByte(84);
    OneByte(143);
    KeyPairExample();
    ExampleExponents();
    TwoToSeventeen();
    var encrypted, decrypted;
    encrypted, ciphertext := Rsa.Encrypt(PUBLIC, [2]);
    OneByte(ciphertext[0]);
    assert ciphertext == [ciphertext[0]];
    Rsa.Undone(PUBLIC, PRIVATE, 13, 11, [2], ciphertext);
    decrypted, plaintext := Rsa.Decrypt(PRIVATE, ciphertext, beyond);
    MinimalInjective(plaintext, [2]);
  }

  // ---------------------------------------------------------------------------------------
  // The private key
  // ---------------------------------------------------------------------------------------

  /** The version and the eight integers; the modulus has a zero in front because of its high bit. */
  const BODY: seq<Byte> :=
    [2, 1, 0] + ([2, 2, 0, 143] + ([2, 1, 17] + ([2, 1, 113] + ([2, 1, 13] + ([2, 1, 11] + ([2, 1, 5]
    + ([2, 1, 3] + [2, 1, 6])))))))

  /** SEQUENCE of them. */
  const DER: seq<Byte> := [48, 28] + BODY

  lemma ExampleContents()
    ensures DerKey.Writable(PRIVATE)
    ensures var xs := DerKey.Contents(PRIVATE);
            && xs[1] == [0, 143] && xs[2] == [17] && xs[3] == [113] && xs[4] == [13]
            && xs[5] == [11] && xs[6] == [5] && xs[7] == [3] && xs[8] == [6]
  {
    ExampleWritable();
    hide SignedForm, DerKey.Writable;
    SignedExamples();
    var xs, key := DerKey.Contents(PRIVATE), DerKey.Integers(PRIVATE);
    assert xs[1] == SignedForm(key[0]) && xs[2] == SignedForm(key[1]) && xs[3] == SignedForm(key[2]);
    assert xs[4] == SignedForm(key[3]) && xs[5] == SignedForm(key[4]) && xs[6] == SignedForm(key[5]);
    assert xs[7] == SignedForm(key[6]) && xs[8] == SignedForm(key[7]);
  }

  lemma ExampleWritable()
    ensures DerKey.Writable(PRIVATE)
  {
  }

  lemma SignedExamples()
    ensures SignedForm([143]) == [0, 143]
    ensures SignedForm([17]) == [17] && SignedForm([113]) == [113] && SignedForm([13]) == [13]
    ensures SignedForm([11]) == [11] && SignedForm([5]) == [5] && SignedForm([3]) == [3] && SignedForm([6]) == [6]
  {
    assert [0] + [143] == [0, 143];
  }

  /** The integers `xs` are written as `w`. */
  ghost predicate WrittenAs(xs: seq<seq<Byte>>, w: seq<Byte>) {
    (forall x :: x in xs ==> |x| < 100) && DerKey.WriteIntegers(xs) == w
  }

  lemma NoneWritten()
    ensures WrittenAs([], [])
  {
  }

  lemma OneMore(xs: seq<seq<Byte>>, i: nat, b: Byte, w: seq<Byte>)
    requires i < |xs| && xs[i] == [b] && WrittenAs(xs[i + 1..], w)
    ensures WrittenAs(xs[i..], [2, 1, b] + w)
  {
    assert xs[i..][1..] == xs[i + 1..] && [2] + [1] + [b] == [2, 1, b];
    assert DerKey.WriteLength(1) == [1];
  }

  lemma OneMoreOfTwo(xs: seq<seq<Byte>>, i: nat, b: Byte, c: Byte, w: seq<Byte>)
    requires i < |xs| && xs[i] == [b, c] && WrittenAs(xs[i + 1..], w)
    ensures WrittenAs(xs[i..], [2, 2, b, c] + w)
  {
    assert xs[i..][1..] == xs[i + 1..] && [2] + [2] + [b, c] == [2, 2, b, c];
    assert DerKey.WriteLength(2) == [2];
  }

  lemma BodyWritten()
    ensures DerKey.Writable(PRIVATE) && WrittenAs(DerKey.Contents(PRIVATE), BODY)
  {
    hide WrittenAs, DerKey.Writable, DerKey.Contents;
    ExampleContents();
    NoneWritten();
    var xs := DerKey.Contents(PRIVATE);
    assert xs[9..] == [] && xs[0..] == xs;
    OneMore(xs, 8, 6, []);
    assert [2, 1, 6] + [] == [2, 1, 6];
    var w7 := [2, 1, 3] + [2, 1, 6];
    OneMore(xs, 7, 3, [2, 1, 6]);
    OneMore(xs, 6, 5, w7);
    var w5 := [2, 1, 11] + ([2, 1, 5] + w7);
    OneMore(xs, 5, 11, [2, 1, 5] + w7);
    OneMore(xs, 4, 13, w5);
    var w3 := [2, 1, 113] + ([2, 1, 13] + w5);
    OneMore(xs, 3, 113, [2, 1, 13] + w5);
    OneMore(xs, 2, 17, w3);
    OneMoreOfTwo(xs, 1, 0, 143, [2, 1, 17] + w3);
    OneMore(xs, 0, 0, [2, 2, 0, 143] + ([2, 1, 17] + w3));
  }

  lemma ShortLength(content: seq<Byte>)
    requires |content| == 28
    ensures DerKey.WriteTlv(48, content) == [48, 28] + content
  {
    assert DerKey.WriteLength(28) == [28];
    assert [48] + [28] == [48, 28];
  }

  lemma Written()
    ensures DerKey.Writable(PRIVATE) && DerKey.WriteKey(PRIVATE) == DER
  {
    BodyWritten();
    hide DerKey.WriteTlv, DerKey.WriteIntegers, DerKey.Contents, DerKey.Writable;
    ShortLength(BODY);
  }

  /** The example is read from its DER form. */
  lemma DerExample(beyond: Byte)
    ensures DerKey.PrivateKeyOf(DER, beyond) == Some(PRIVATE)
  {
    hide DerKey.Writable, DerKey.WriteKey, DerKey.PrivateKeyOf;
    Written();
    DerKey.KeyRoundTrip(PRIVATE, [], beyond);
    assert DER + [] == DER;
  }

  /** Its base64 form, on two lines: MBwCAQACAgCPAgERAgFxAgEN and AgELAgEFAgEDAgEG. */
  const LINE1: seq<Byte> :=
    [77, 66, 119, 67] + ([65, 81, 65, 67] + ([65, 103, 67, 80] + ([65, 103, 69, 82] + ([65, 103, 70, 120]
    + [65, 103, 69, 78]))))
  const LINE2: seq<Byte> := [65, 103, 69, 76] + ([65, 103, 69, 70] + ([65, 103, 69, 68] + [65, 103, 69, 71]))

  lemma Sextets(a: Byte, b: Byte, c: Byte)
    ensures Base64.Sextet0(a) == a / 4 && Base64.Sextet1(a, b) == a % 4 * 16 + b / 16
    ensures Base64.Sextet2(b, c) == b % 16 * 4 + c / 64 && Base64.Sextet3(c) == c % 64
  {
  }

  lemma Group(a: Byte, b: Byte, c: Byte, p: Byte, q: Byte, t: Byte, u: Byte, rest: seq<Byte>, w: seq<Byte>)
    requires Base64.Encode(rest) == w
    requires Base64.Alphabet(Base64.Sextet0(a)) == p && Base64.Alphabet(Base64.Sextet1(a, b)) == q
    requires Base64.Alphabet(Base64.Sextet2(b, c)) == t && Base64.Alphabet(Base64.Sextet3(c)) == u
    ensures Base64.Encode([a, b, c] + rest) == [p, q, t, u] + w
  {
    hide Base64.Encode, Base64.Alphabet, Base64.Sextet0, Base64.Sextet1, Base64.Sextet2, Base64.Sextet3;
    Base64.EncodeThree(a, b, c, rest);
  }

  lemma SmallInteger(b: Byte, letter: Byte, rest: seq<Byte>, w: seq<Byte>)
    requires b < 64 && letter == Base64.Alphabet(b) && Base64.Encode(rest) == w
    ensures Base64.Encode([2, 1, b] + rest) == [65, 103, 69, letter] + w
  {
    hide Base64.Encode;
    Group(2, 1, b, 65, 103, 69, letter, rest, w);
  }

  lemma Line2Encoded()
    ensures Base64.Encode([2, 1, 11] + ([2, 1, 5] + ([2, 1, 3] + [2, 1, 6]))) == LINE2
  {
    Base64.EncodeNone();
    hide Base64.Encode;
    assert [2, 1, 6] + [] == [2, 1, 6] && [65, 103, 69, 71] + [] == [65, 103, 69, 71];
    SmallInteger(6, 71, [], []);
    SmallInteger(3, 68, [2, 1, 6], [65, 103, 69, 71]);
    SmallInteger(5, 70, [2, 1, 3] + [2, 1, 6], [65, 103, 69, 68] + [65, 103, 69, 71]);
    SmallInteger(11, 76, [2, 1, 5] + ([2, 1, 3] + [2, 1, 6]),
                 [65, 103, 69, 70] + ([65, 103, 69, 68] + [65, 103, 69, 71]));
  }

  lemma Group0(r: seq<Byte>, w: seq<Byte>)
    requires Base64.Encode(r) == w
    ensures Base64.Encode([48, 28, 2] + r) == [77, 66, 119, 67] + w
  {
    hide Base64.Encode, Base64.Letter, Base64.Sextet0, Base64.Sextet1, Base64.Sextet2, Base64.Sextet3;
    Sextets(48, 28, 2);
    Group(48, 28, 2, 77, 66, 119, 67, r, w);
  }

  lemma Group1(r: seq<Byte>, w: seq<Byte>)
    requires Base64.Encode(r) == w
    ensures Base64.Encode([1, 0, 2] + r) == [65, 81, 65, 67] + w
  {
    hide Base64.Encode, Base64.Letter, Base64.Sextet0, Base64.Sextet1, Base64.Sextet2, Base64.Sextet3;
    Sextets(1, 0, 2);
    Group(1, 0, 2, 65, 81, 65, 67, r, w);
  }

  lemma Group2(r: seq<Byte>, w: seq<Byte>)
    requires Base64.Encode(r) == w
    ensures Base64.Encode([2, 0, 143] + r) == [65, 103, 67, 80] + w
  {
    hide Base64.Encode, Base64.Letter, Base64.Sextet0, Base64.Sextet1, Base64.Sextet2, Base64.Sextet3;
    Sextets(2, 0, 143);
    Group(2, 0, 143, 65, 103, 67, 80, r, w);
  }

  lemma FirstGroups(rest: seq<Byte>, w: seq<Byte>)
    requires Base64.Encode(rest) == w
    ensures Base64.Encode([48, 28] + ([2, 1, 0] + ([2, 2, 0, 143] + rest)))
         == [77, 66, 119, 67] + ([65, 81, 65, 67] + ([65, 103, 67, 80] + w))
  {
    hide Base64.Encode;
    Group2(rest, w);
    Group1([2, 0, 143] + rest, [65, 103, 67, 80] + w);
    Group0([1, 0, 2] + ([2, 0, 143] + rest), [65, 81, 65, 67] + ([65, 103, 67, 80] + w));
    Shift(rest);
  }

  lemma Shift(rest: seq<Byte>)
    ensures [48, 28] + ([2, 1, 0] + ([2, 2, 0, 143] + rest)) == [48, 28, 2] + ([1, 0, 2] + ([2, 0, 143] + rest))
  {
  }

  lemma LargeInteger(rest: seq<Byte>, w: seq<Byte>)
    requires Base64.Encode(rest) == w
    ensures Base64.Encode([2, 1, 113] + rest) == [65, 103, 70, 120] + w
  {
    hide Base64.Encode;
    Group(2, 1, 113, 65, 103, 70, 120, rest, w);
  }

  lemma Encoded()
    ensures Base64.Encode(DER) == LINE1 + LINE2
  {
    hide Base64.Encode, Base64.Alphabet;
    Line2Encoded();
    Letters();
    var r: seq<Byte> := [2, 1, 11] + ([2, 1, 5] + ([2, 1, 3] + [2, 1, 6]));
    SmallInteger(13, 78, r, LINE2);
    LargeInteger([2, 1, 13] + r, [65, 103, 69, 78] + LINE2);
    SmallInteger(17, 82, [2, 1, 113] + ([2, 1, 13] + r), [65, 103, 70, 120] + ([65, 103, 69, 78] + LINE2));
    FirstGroups([2, 1, 17] + ([2, 1, 113] + ([2, 1, 13] + r)),
                [65, 103, 69, 82] + ([65, 103, 70, 120] + ([65, 103, 69, 78] + LINE2)));
    Regrouped([77, 66, 119, 67], [65, 81, 65, 67], [65, 103, 67, 80], [65, 103, 69, 82], [65, 103, 70, 120],
              [65, 103, 69, 78], LINE2);
  }

  lemma Letters()
    ensures Base64.Alphabet(13) == 78 && Base64.Alphabet(17) == 82
  {
  }

  lemma Regrouped(a: seq<Byte>, b: seq<Byte>, c: seq<Byte>, d: seq<Byte>, e: seq<Byte>, f: seq<Byte>, g: seq<Byte>)
    ensures a + (b + (c + (d + (e + (f + g))))) == (a + (b + (c + (d + (e + f))))) + g
  {
  }

  /** The example is read from its file. */
  lemma PemExample(beyond: Byte)
    ensures Pem.PrivateKeyPem(Pem.HEADER + [10] + LINE1 + [10] + LINE2 + [10] + Pem.FOOTER, beyond) == Some(PRIVATE)
  {
    hide DerKey.Writable, DerKey.WriteKey, Pem.PrivateKeyPem;
    Written();
    Encoded();
    var lines := [LINE1, LINE2];
    TwoLines(LINE1, LINE2, []);
    TwoLines(LINE1, LINE2, [10]);
    Pem.PemLines(PRIVATE, [], lines, [10], [], beyond);
    Grouped(Pem.HEADER, LINE1, LINE2, Pem.FOOTER);
  }

  lemma TwoLines(a: seq<Byte>, b: seq<Byte>, eol: seq<Byte>)
    ensures Base64.Lines([a, b], eol) == a + eol + (b + eol)
    ensures Base64.Lines([a, b], []) == a + b
  {
    assert [a, b][1..] == [b] && [b][1..] == [];
    assert Base64.Lines([b], eol) == b + eol && Base64.Lines([b], []) == b;
  }

  lemma Grouped(h: seq<Byte>, a: seq<Byte>, b: seq<Byte>, f: seq<Byte>)
    ensures [] + h + [10] + (a + [10] + (b + [10])) + f + [] == h + [10] + a + [10] + b + [10] + f
  {
  }

  // ---------------------------------------------------------------------------------------
  // The public key
  // ---------------------------------------------------------------------------------------

  /** The strings "ssh-rsa", 17 and 143 with a zero in front, each behind its length. */
  const BLOB: seq<Byte> :=
    [0, 0, 0] + ([7, 115, 115] + ([104, 45, 114] + ([115, 97, 0] + ([0, 0, 1] + ([17, 0, 0] + ([0, 2, 0] + [143]))))))

  /** AAAAB3NzaC1yc2EAAAABEQAAAAIAjw== */
  const LETTERS: seq<Byte> :=
    [65, 65, 65, 65] + ([66, 51, 78, 122] + ([97, 67, 49, 121] + ([99, 50, 69, 65] + ([65, 65, 65, 66]
    + ([69, 81, 65, 65] + ([65, 65, 73, 65] + [106, 119, 61, 61]))))))

  lemma BlobWritten()
    ensures SshKey.WriteWire(PUBLIC) == BLOB
  {
    assert SshKey.U32(7) == [0, 0, 0, 7] && SshKey.U32(1) == [0, 0, 0, 1] && SshKey.U32(2) == [0, 0, 0, 2];
    assert SignedForm([143]) == [0, 143] && SignedForm([17]) == [17];
    hide SshKey.U32, SignedForm;
    Strings([0, 0, 0, 7] + SshKey.KEY_TYPE, [0, 0, 0, 1] + [17], [0, 0, 0, 2] + [0, 143]);
  }

  lemma Strings(a: seq<Byte>, b: seq<Byte>, c: seq<Byte>)
    requires a == [0, 0, 0, 7] + SshKey.KEY_TYPE && b == [0, 0, 0, 1] + [17] && c == [0, 0, 0, 2] + [0, 143]
    ensures a + b + c == BLOB
  {
    assert a == [0, 0, 0] + ([7, 115, 115] + ([104, 45, 114] + [115, 97]));
  }

  lemma LastByte()
    ensures Base64.Encode([143]) == [106, 119, 61, 61]
  {
  }

  lemma String0(r: seq<Byte>, w: seq<Byte>)
    requires Base64.Encode(r) == w
    ensures Base64.Encode([0, 0, 0] + r) == [65, 65, 65, 65] + w
  {
    hide Base64.Encode, Base64.Letter, Base64.Sextet0, Base64.Sextet1, Base64.Sextet2, Base64.Sextet3;
    Sextets(0, 0, 0);
    Group(0, 0, 0, 65, 65, 65, 65, r, w);
  }

  lemma String1(r: seq<Byte>, w: seq<Byte>)
    requires Base64.Encode(r) == w
    ensures Base64.Encode([7, 115, 115] + r) == [66, 51, 78, 122] + w
  {
    hide Base64.Encode, Base64.Letter, Base64.Sextet0, Base64.Sextet1, Base64.Sextet2, Base64.Sextet3;
    Sextets(7, 115, 115);
    Group(7, 115, 115, 66, 51, 78, 122, r, w);
  }

  lemma String2(r: seq<Byte>, w: seq<Byte>)
    requires Base64.Encode(r) == w
    ensures Base64.Encode([104, 45, 114] + r) == [97, 67, 49, 121] + w
  {
    hide Base64.Encode, Base64.Letter, Base64.Sextet0, Base64.Sextet1, Base64.Sextet2, Base64.Sextet3;
    Sextets(104, 45, 114);
    Group(104, 45, 114, 97, 67, 49, 121, r, w);
  }

  lemma String3(r: seq<Byte>, w: seq<Byte>)
    requires Base64.Encode(r) == w
    ensures Base64.Encode([115, 97, 0] + r) == [99, 50, 69, 65] + w
  {
    hide Base64.Encode, Base64.Letter, Base64.Sextet0, Base64.Sextet1, Base64.Sextet2, Base64.Sextet3;
    Sextets(115, 97, 0);
    Group(115, 97, 0, 99, 50, 69, 65, r, w);
  }

  lemma String4(r: seq<Byte>, w: seq<Byte>)
    requires Base64.Encode(r) == w
    ensures Base64.Encode([0, 0, 1] + r) == [65, 65, 65, 66] + w
  {
    hide Base64.Encode, Base64.Letter, Base64.Sextet0, Base64.Sextet1, Base64.Sextet2, Base64.Sextet3;
    Sextets(0, 0, 1);
    Group(0, 0, 1, 65, 65, 65, 66, r, w);
  }

  lemma String5(r: seq<Byte>, w: seq<Byte>)
    requires Base64.Encode(r) == w
    ensures Base64.Encode([17, 0, 0] + r) == [69, 81, 65, 65] + w
  {
    hide Base64.Encode, Base64.Letter, Base64.Sextet0, Base64.Sextet1, Base64.Sextet2, Base64.Sextet3;
    Sextets(17, 0, 0);
    Group(17, 0, 0, 69, 81, 65, 65, r, w);
  }

  lemma String6(r: seq<Byte>, w: seq<Byte>)
    requires Base64.Encode(r) == w
    ensures Base64.Encode([0, 2, 0] + r) == [65, 65, 73, 65] + w
  {
    hide Base64.Encode, Base64.Letter, Base64.Sextet0, Base64.Sextet1, Base64.Sextet2, Base64.Sextet3;
    Sextets(0, 2, 0);
    Group(0, 2, 0, 65, 65, 73, 65, r, w);
  }

  lemma BlobEncoded()
    ensures Base64.Encode(BLOB) == LETTERS
  {
    hide Base64.Encode;
    LastByte();
    var r6, w6: seq<Byte> := [0, 2, 0] + [143], [65, 65, 73, 65] + [106, 119, 61, 61];
    String6([143], [106, 119, 61, 61]);
    var r5, w5 := [17, 0, 0] + r6, [69, 81, 65, 65] + w6;
    String5(r6, w6);
    var r4, w4 := [0, 0, 1] + r5, [65, 65, 65, 66] + w5;
    String4(r5, w5);
    var r3, w3 := [115, 97, 0] + r4, [99, 50, 69, 65] + w4;
    String3(r4, w4);
    var r2, w2 := [104, 45, 114] + r3, [97, 67, 49, 121] + w3;
    String2(r3, w3);
    var r1, w1 := [7, 115, 115] + r2, [66, 51, 78, 122] + w2;
    String1(r2, w2);
    String0(r1, w1);
  }

  /** The example is read from its line, with a comment behind it. */
  lemma SshExample(comment: seq<Byte>, beyond: Byte)
    ensures SshKey.PublicKeyOf([115, 115, 104, 45, 114, 115, 97] + [32] + LETTERS + ([32] + comment), beyond)
         == Some(PUBLIC)
  {
    hide SshKey.WriteWire, SshKey.PublicKeyOf;
    BlobWritten();
    BlobEncoded();
    SshKey.PublicKeyRoundTrip(PUBLIC, [], [32], [32] + comment, beyond);
    assert [] + SshKey.KEY_TYPE == SshKey.KEY_TYPE;
  }
}
