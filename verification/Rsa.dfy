/** Raw RSA: encryption, decryption, and that the one undoes the other. */
module Rsa {
  import opened Bits
  import opened Arith
  import opened BigNum
  import opened ByteStrings
  import opened Primes

  /** Big-endian integers, as the key parsers leave them. */
  datatype PublicKey = PublicKey(n: seq<Byte>, e: seq<Byte>)
  datatype PrivateKey = PrivateKey(n: seq<Byte>, e: seq<Byte>, d: seq<Byte>, p: seq<Byte>, q: seq<Byte>,
                                   dp: seq<Byte>, dq: seq<Byte>, qinv: seq<Byte>)

  /** `limbs_for_bytes`. */
  function LimbsForBytes(bytes: nat): (l: nat)
    ensures bytes <= 4 * l < bytes + 4
  {
    (bytes + 3) / 4
  }

  /** The exponent that takes effect: its bytes beyond the limbs of the modulus are dropped. */
  function Exponent(e: seq<Byte>, n: seq<Byte>): nat {
    BeValue(e) % Pow2(32 * LimbsForBytes(|n|))
  }

  /** `be_to_fixed_limbs` into a new array. */
  method Load(l: nat, be: seq<Byte>) returns (x: array<Limb>)
    ensures fresh(x) && x.Length == l
    ensures Value(x[..]) == BeValue(be) % Pow2(32 * l)
    ensures |be| <= 4 * l ==> Value(x[..]) == BeValue(be)
  {
    hide Value, BeValue, Pow2;
    x := new Limb[l];
    Zero(x, l);
    FromBeBytes(x, l, be);
    if |be| <= 4 * l {
      BeBound(be);
      Pow2Monotone(8 * |be|, 32 * l);
      ModSmall(BeValue(be), Pow2(32 * l));
    }
  }

  /** `fixed_limbs_to_be_bytes`. */
  method Store(x: array<Limb>, l: nat, k: nat) returns (out: seq<Byte>)
    requires x.Length == l
    ensures |out| == k && BeValue(out) == Value(x[..]) % Pow2(8 * k)
  {
    var bytes := new Byte[k];
    ToBeBytes(x, l, bytes, k);
    out := bytes[..];
  }

  /** `fixed_limbs_to_min_be`; `beyond` is the byte behind the buffer, which is what comes out
      for the number zero. */
  method StoreMinimal(x: array<Limb>, l: nat, beyond: Byte) returns (out: seq<Byte>)
    requires x.Length == l
    ensures Value(x[..]) > 0 ==> Minimal(out) && BeValue(out) == Value(x[..])
    ensures Value(x[..]) == 0 ==> out == [beyond]
  {
    hide Value, BeValue, Pow2;
    var k := l * 4;
    var tmp := new Byte[k];
    ToBeBytes(x, l, tmp, k);
    ValueBound(x[..]);
    ModSmall(Value(x[..]), Pow2(8 * k));
    var i := 0;
    while i < k && tmp[i] == 0
      invariant i <= k && forall j :: 0 <= j < i ==> tmp[j] == 0
    {
      i := i + 1;
    }
    BeLeadingZeros(tmp[..], i);
    var n := if i == k then 1 else k - i;
    if i == k {
      assert tmp[..][k..] == [];
      BeEmpty();
      out := [beyond];
    } else {
      out := tmp[i..i + n];
      assert out == tmp[..][i..];
      MinimalPositive(out);
    }
  }

  lemma BeEmpty()
    ensures BeValue([]) == 0
  {
  }

  lemma MinimalPositive(s: seq<Byte>)
    requires Minimal(s)
    ensures BeValue(s) > 0
  {
    MinimalAtLeast(s);
  }

  lemma MinimalOne(s: seq<Byte>)
    requires Minimal(s) || |s| == 1
    ensures BeValue(s) == 1 <==> s == [1]
  {
    assert [1][..0] == [];
    assert BeValue([1]) == 1;
    if BeValue(s) == 1 {
      MinimalPositive([1]);
      MinimalInjective(s, [1]);
    }
  }

  /** What `encrypt` accepts. */
  predicate CanEncrypt(pub: PublicKey, plaintext: seq<Byte>) {
    && Minimal(plaintext)
    && pub.n != [] && pub.e != []
    && |plaintext| <= |pub.n|
    && BeValue(plaintext) < BeValue(pub.n)
  }

  /** What `decrypt` accepts. */
  predicate CanDecrypt(pri: PrivateKey, ciphertext: seq<Byte>) {
    && pri.n != [] && pri.d != []
    && |ciphertext| == |pri.n|
    && BeValue(ciphertext) < BeValue(pri.n)
  }

  /** `encrypt` (RSAEP, section 5.1.1 of RFC 8017). */
  method Encrypt(pub: PublicKey, plaintext: seq<Byte>) returns (ok: bool, out: seq<Byte>)
    requires plaintext != []
    ensures ok <==> CanEncrypt(pub, plaintext)
    ensures ok <==> plaintext[0] != 0 && |plaintext| <= |pub.n| && BeValue(plaintext) < BeValue(pub.n) && |pub.e| > 0
    ensures ok ==> |out| == |pub.n|
    ensures ok ==> BeValue(out) == Pow(BeValue(plaintext), Exponent(pub.e, pub.n)) % BeValue(pub.n)
  {
    hide Value, BeValue, Pow2, Pow;
    out := [];
    if plaintext[0] == 0 {
      return false, out;
    }
    if |pub.n| == 0 {
      return false, out;
    }
    if |pub.e| == 0 {
      return false, out;
    }
    var kBytes := |pub.n|;
    if |plaintext| > kBytes {
      return false, out;
    }
    var l := LimbsForBytes(kBytes);
    var nL := Load(l, pub.n);
    var eL := Load(l, pub.e);
    var mL := Load(l, plaintext);
    var c := Compare(mL, nL, l);
    if c >= 0 {
      return false, out;
    }
    MinimalPositive(plaintext);
    ghost var n, m, e := Value(nL[..]), Value(mL[..]), Value(eL[..]);
    var cL := PowInto(mL, eL, nL, l);
    out := Store(cL, l, kBytes);
    ReducedFits(Pow(m, e), pub.n, n);
    return true, out;
  }

  /** The working arrays of `encrypt` and `decrypt`, and the exponentiation. */
  method PowInto(a: array<Limb>, e: array<Limb>, m: array<Limb>, l: nat) returns (r: array<Limb>)
    requires a.Length == e.Length == m.Length == l && Value(a[..]) < Value(m[..])
    ensures fresh(r) && r.Length == l
    ensures Value(m[..]) > 1 || Value(e[..]) > 0 <==> Value(r[..]) == Pow(Value(a[..]), Value(e[..])) % Value(m[..])
    ensures Value(m[..]) == 1 && Value(e[..]) == 0 ==> Value(r[..]) == 1
  {
    hide Value, Pow;
    r := new Limb[l];
    var t0, t1, t2, t3 := new Limb[l], new Limb[l], new Limb[l], new Limb[l];
    ModPow(r, a, e, m, l, t0, t1, t2, t3);
  }

  /** A remainder by the modulus fits the bytes of the modulus. */
  lemma ReducedFits(x: nat, nBytes: seq<Byte>, n: nat)
    requires n == BeValue(nBytes) && n > 0
    ensures (x % n) % Pow2(8 * |nBytes|) == x % n
  {
    BeBound(nBytes);
    ModSmall(x % n, Pow2(8 * |nBytes|));
  }

  /** `decrypt` (RSADP, section 5.1.2 of RFC 8017); the result has no leading zeros. */
  method Decrypt(pri: PrivateKey, ciphertext: seq<Byte>, beyond: Byte) returns (ok: bool, out: seq<Byte>)
    ensures ok <==> CanDecrypt(pri, ciphertext)
    ensures ok <==> |ciphertext| == |pri.n| && BeValue(ciphertext) < BeValue(pri.n) && |pri.d| > 0
    ensures ok && (BeValue(pri.n) > 1 || Exponent(pri.d, pri.n) > 0) ==>
              var x := Pow(BeValue(ciphertext), Exponent(pri.d, pri.n)) % BeValue(pri.n);
              if x == 0 then out == [beyond] else Minimal(out) && BeValue(out) == x
    ensures ok && BeValue(pri.n) == 1 && Exponent(pri.d, pri.n) == 0 ==> out == [1]
  {
    hide Value, BeValue, Pow2, Pow;
    out := [];
    if |pri.n| == 0 {
      return false, out;
    }
    if |pri.d| == 0 {
      return false, out;
    }
    var kBytes := |pri.n|;
    if |ciphertext| != kBytes {
      return false, out;
    }
    var l := LimbsForBytes(kBytes);
    var nL := Load(l, pri.n);
    var dL := Load(l, pri.d);
    var cL := Load(l, ciphertext);
    var c := Compare(cL, nL, l);
    if c >= 0 {
      return false, out;
    }
    var mL := PowInto(cL, dL, nL, l);
    out := StoreMinimal(mL, l, beyond);
    MinimalOne(out);
    return true, out;
  }

  /** A key with modulus one whose exponent is cut off to zero: its one ciphertext is accepted. */
  const ONE: PrivateKey := PrivateKey([1], [1], [1, 0, 0, 0, 0], [1], [1], [1], [1], [1])

  /** Its plaintext is one, although there is no number below the modulus but zero. */
  method DecryptsToOne(beyond: Byte) returns (out: seq<Byte>)
    ensures BeValue(ONE.n) == 1 && out == [1]
  {
    OneExample();
    hide BeValue, Exponent;
    var ok: bool;
    ok, out := Decrypt(ONE, [0], beyond);
  }

  lemma OneExample()
    ensures BeValue(ONE.n) == 1 && Exponent(ONE.d, ONE.n) == 0 && CanDecrypt(ONE, [0])
  {
    var d: seq<Byte> := [1, 0, 0, 0, 0];
    assert d[..4] == [1, 0, 0, 0] && d[..4][..3] == [1, 0, 0] && d[..4][..3][..2] == [1, 0]
        && d[..4][..3][..2][..1] == [1];
    assert [1][..0] == [] && [0][..0] == [];
    assert BeValue([1]) == 1 && BeValue([0]) == 0;
    assert BeValue(d[..4][..3]) == 0x1_0000;
    assert BeValue(d) == LIMB;
    Pow2Words();
    ModUnique(LIMB, LIMB, 1, 0);
  }

  /** A public and a private key of one RSA key pair with the primes `p` and `q`. */
  ghost predicate Matching(pub: PublicKey, pri: PrivateKey, p: nat, q: nat) {
    && pub.n == pri.n
    && KeyPair(BeValue(pub.n), Exponent(pub.e, pub.n), Exponent(pri.d, pri.n), p, q)
  }

  /** Every accepted plaintext comes back, byte for byte. */
  method RoundTrip(pub: PublicKey, pri: PrivateKey, plaintext: seq<Byte>, beyond: Byte, ghost p: nat, ghost q: nat)
    returns (ok: bool, back: seq<Byte>)
    requires Matching(pub, pri, p, q) && plaintext != [] && pri.d != []
    ensures ok <==> CanEncrypt(pub, plaintext)
    ensures ok ==> back == plaintext
  {
    hide BeValue, Pow, Exponent, KeyPair;
    var encrypted, ciphertext := Encrypt(pub, plaintext);
    if !encrypted {
      return false, [];
    }
    Undone(pub, pri, p, q, plaintext, ciphertext);
    ok, back := Decrypt(pri, ciphertext, beyond);
    MinimalInjective(back, plaintext);
  }

  /** The number that decryption computes from an encryption is the one encrypted. */
  lemma Undone(pub: PublicKey, pri: PrivateKey, p: nat, q: nat, plaintext: seq<Byte>, ciphertext: seq<Byte>)
    requires Matching(pub, pri, p, q) && CanEncrypt(pub, plaintext)
    requires BeValue(ciphertext) == Pow(BeValue(plaintext), Exponent(pub.e, pub.n)) % BeValue(pub.n)
    ensures 0 < BeValue(plaintext) < BeValue(pub.n) && BeValue(ciphertext) < BeValue(pub.n)
    ensures Pow(BeValue(ciphertext), Exponent(pri.d, pri.n)) % BeValue(pri.n) == BeValue(plaintext)
  {
    MinimalPositive(plaintext);
    RsaUndone(BeValue(pub.n), Exponent(pub.e, pub.n), Exponent(pri.d, pri.n), p, q, BeValue(plaintext));
  }
}
