/** Fermat's little theorem, and the identity that makes RSA decryption undo encryption. */
module Primes {
  import opened Bits
  import opened Arith

  ghost predicate Prime(p: nat) {
    p >= 2 && forall d :: 1 < d < p ==> p % d != 0
  }

  lemma MultipleMod(p: nat, k: int)
    requires p > 0
    ensures (p * k) % p == 0
  {
    Commute(p, k);
    ModShift(0, k, p);
    ModSmall(0, p);
  }

  lemma DivideOut(x: nat, p: nat) returns (k: nat)
    requires p > 0 && x % p == 0
    ensures x == p * k
  {
    DivMod(x, p);
    k := x / p;
  }

  // ---------------------------------------------------------------------------------------
  // Euclid's lemma
  // ---------------------------------------------------------------------------------------

  lemma {:induction false} EuclidSmall(p: nat, a: nat, b: nat)
    requires Prime(p) && 0 < a < p && (a * b) % p == 0
    ensures b % p == 0
    decreases a
  {
    if a == 1 {
      assert a * b == b;
    } else {
      var q, r := p / a, p % a;
      DivMod(p, a);
      EuclidStep(p, a, b, q, r);
      EuclidSmall(p, r, b);
    }
  }

  lemma EuclidStep(p: nat, a: nat, b: nat, q: nat, r: nat)
    requires p > 0 && p == a * q + r && (a * b) % p == 0
    ensures (r * b) % p == 0
  {
    var k := DivideOut(a * b, p);
    Distribute(a * q, r, b);
    assert (a * q) * b == q * (a * b) by {
      Commute(a, q);
      MulAssoc(q, a, b);
    }
    MulAssoc(q, p, k);
    Commute(q, p);
    MulAssoc(p, q, k);
    assert r * b == p * b - p * (q * k);
    assert p * (b - q * k) == p * b - p * (q * k);
    MultipleMod(p, b - q * k);
  }

  /** A prime that divides a product divides one of the factors. */
  lemma Euclid(p: nat, a: nat, b: nat)
    requires Prime(p) && (a * b) % p == 0
    ensures a % p == 0 || b % p == 0
  {
    ModMulLeft(a, b, p);
    if a % p != 0 {
      EuclidSmall(p, a % p, b);
    }
  }

  // ---------------------------------------------------------------------------------------
  // Binomial coefficients
  // ---------------------------------------------------------------------------------------

  function Choose(n: nat, k: nat): nat {
    if k == 0 then 1 else if n == 0 then 0 else Choose(n - 1, k - 1) + Choose(n - 1, k)
  }

  lemma {:induction false} ChooseAbsorbs(n: nat, k: nat)
    requires n > 0 && k > 0
    ensures k * Choose(n, k) == n * Choose(n - 1, k - 1)
    decreases n
  {
    if n == 1 {
      assert Choose(1, k) == Choose(0, k - 1) + Choose(0, k);
      if k > 1 {
        assert Choose(0, k - 1) == 0;
      }
    } else if k == 1 {
      ChooseAbsorbs(n - 1, 1);
      assert Choose(n, 1) == Choose(n - 1, 0) + Choose(n - 1, 1);
      assert Choose(n - 2, 0) == 1 && Choose(n - 1, 0) == 1;
    } else {
      ChooseAbsorbs(n - 1, k);
      ChooseAbsorbs(n - 1, k - 1);
      var a, b := Choose(n - 1, k - 1), Choose(n - 1, k);
      assert a == Choose(n - 2, k - 2) + Choose(n - 2, k - 1);
      Commute(k, a + b);
      Distribute(a, b, k);
      Distribute(k - 1, 1, a);
      Distribute(n - 1, 1, a);
      Commute(a, k);
      Commute(b, k);
      Commute(n - 1, a);
      Distribute(Choose(n - 2, k - 2), Choose(n - 2, k - 1), n - 1);
      Commute(Choose(n - 2, k - 2), n - 1);
      Commute(Choose(n - 2, k - 1), n - 1);
    }
  }

  lemma PrimeDividesChoose(p: nat, k: nat)
    requires Prime(p) && 0 < k < p
    ensures Choose(p, k) % p == 0
  {
    ChooseAbsorbs(p, k);
    MultipleMod(p, Choose(p - 1, k - 1));
    Euclid(p, k, Choose(p, k));
    ModSmall(k, p);
  }

  lemma {:induction false} ChooseBeyond(n: nat, k: nat)
    requires k > n
    ensures Choose(n, k) == 0
  {
    if n > 0 {
      ChooseBeyond(n - 1, k - 1);
      ChooseBeyond(n - 1, k);
    }
  }

  lemma {:induction false} ChooseAll(n: nat)
    ensures Choose(n, n) == 1
  {
    if n > 0 {
      ChooseAll(n - 1);
      ChooseBeyond(n - 1, n);
    }
  }

  /** The terms `Choose(n, k) * x^k` for `k` up to `j`. */
  function BinomialSum(n: nat, x: nat, j: nat): nat {
    MulNonNegative(Choose(n, j), Pow(x, j));
    Choose(n, j) * Pow(x, j) + if j == 0 then 0 else BinomialSum(n, x, j - 1)
  }

  lemma {:induction false} BinomialSumGrows(n: nat, x: nat, j: nat)
    requires j > 0
    ensures BinomialSum(n + 1, x, j) == BinomialSum(n, x, j) + x * BinomialSum(n, x, j - 1)
    decreases j
  {
    SumTerm(n + 1, x, j);
    SumTerm(n, x, j);
    SumTerm(n, x, j - 1);
    SumTerm(n + 1, x, j - 1);
    NewTerm(n, x, j);
    var term := Choose(n, j - 1) * Pow(x, j - 1);
    assert j == 1 ==> Choose(n, 0) == 1 && Choose(n + 1, 0) == 1;
    hide BinomialSum, Choose, Pow;
    if j > 1 {
      BinomialSumGrows(n, x, j - 1);
      var s := BinomialSum(n, x, j - 2);
      Commute(x, term + s);
      Distribute(term, s, x);
      Commute(term, x);
      Commute(s, x);
    }
  }

  lemma SumTerm(n: nat, x: nat, j: nat)
    ensures BinomialSum(n, x, j) == Choose(n, j) * Pow(x, j) + if j == 0 then 0 else BinomialSum(n, x, j - 1)
  {
  }

  /** Pascal's rule, for one term. */
  lemma NewTerm(n: nat, x: nat, j: nat)
    requires j > 0
    ensures Choose(n + 1, j) * Pow(x, j) == Choose(n, j) * Pow(x, j) + x * (Choose(n, j - 1) * Pow(x, j - 1))
  {
    var c, d, y := Choose(n, j - 1), Choose(n, j), Pow(x, j - 1);
    assert Choose(n + 1, j) == c + d && Pow(x, j) == x * y;
    hide Choose, Pow;
    Distribute(c, d, x * y);
    MulAssoc(c, x, y);
    Commute(c, x);
    MulAssoc(x, c, y);
  }

  lemma {:induction false} BinomialTheorem(x: nat, n: nat)
    ensures Pow(x + 1, n) == BinomialSum(n, x, n)
  {
    if n == 0 {
      assert BinomialSum(0, x, 0) == 1 * Pow(x, 0);
    } else {
      BinomialTheorem(x, n - 1);
      BinomialSumGrows(n - 1, x, n);
      ChooseBeyond(n - 1, n);
      assert Choose(n - 1, n) * Pow(x, n) == 0;
      var s := BinomialSum(n - 1, x, n - 1);
      assert BinomialSum(n - 1, x, n) == s;
      Distribute(x, 1, s);
    }
  }

  /** Modulo a prime, only the constant term remains below the highest one. */
  lemma {:induction false} InnerTermsVanish(p: nat, x: nat, j: nat)
    requires Prime(p) && j < p
    ensures BinomialSum(p, x, j) % p == 1
  {
    if j == 0 {
      assert BinomialSum(p, x, 0) == 1 * Pow(x, 0);
      ModSmall(1, p);
    } else {
      InnerTermsVanish(p, x, j - 1);
      PrimeDividesChoose(p, j);
      ModMulLeft(Choose(p, j), Pow(x, j), p);
      ModAddLeft(Choose(p, j) * Pow(x, j), BinomialSum(p, x, j - 1), p);
      assert 0 * Pow(x, j) == 0;
      ModSmall(0, p);
    }
  }

  // ---------------------------------------------------------------------------------------
  // Fermat, and RSA
  // ---------------------------------------------------------------------------------------

  lemma {:induction false} PowZero(e: nat)
    requires e > 0
    ensures Pow(0, e) == 0
  {
  }

  /** Fermat's little theorem. */
  lemma {:induction false} Fermat(p: nat, x: nat)
    requires Prime(p)
    ensures Pow(x, p) % p == x % p
  {
    if x == 0 {
      PowZero(p);
    } else {
      Fermat(p, x - 1);
      BinomialTheorem(x - 1, p);
      ChooseAll(p);
      var s := BinomialSum(p, x - 1, p - 1);
      InnerTermsVanish(p, x - 1, p - 1);
      assert BinomialSum(p, x - 1, p) == 1 * Pow(x - 1, p) + s;
      ModAddLeft(s, Pow(x - 1, p), p);
      ModAddLeft(Pow(x - 1, p), 1, p);
      ModAddLeft(x - 1, 1, p);
    }
  }

  /** Exponents congruent to one modulo `p - 1` act as the identity modulo `p`. */
  lemma {:induction false} FermatPower(p: nat, x: nat, k: nat)
    requires Prime(p)
    ensures Pow(x, 1 + k * (p - 1)) % p == x % p
    decreases k
  {
    if k == 0 {
      assert 1 + 0 * (p - 1) == 1;
      assert Pow(x, 1) == x * Pow(x, 0) == x;
    } else {
      FermatPower(p, x, k - 1);
      var e := 1 + (k - 1) * (p - 1);
      Distribute(k - 1, 1, p - 1);
      MulNonNegative(k - 1, p - 1);
      assert 1 + k * (p - 1) == e + (p - 1);
      PowAdd(x, e, p - 1);
      ModMulLeft(Pow(x, e), Pow(x, p - 1), p);
      ModMulLeft(x, Pow(x, p - 1), p);
      assert x * Pow(x, p - 1) == Pow(x, p);
      Fermat(p, x);
    }
  }

  lemma DifferentPrimes(p: nat, q: nat)
    requires Prime(p) && Prime(q) && p != q
    ensures p % q != 0
  {
    if p < q { ModSmall(p, q); }
  }

  /** Numbers that agree modulo two primes agree modulo their product. */
  lemma AgreeModProduct(p: nat, q: nat, x: nat, y: nat)
    requires Prime(p) && Prime(q) && p != q && x <= y
    requires x % p == y % p && x % q == y % q
    ensures x % (p * q) == y % (p * q)
  {
    DifferenceDivides(x, y, p);
    DifferenceDivides(x, y, q);
    var t := DivideOut(y - x, p);
    Euclid(q, p, t);
    DifferentPrimes(p, q);
    var u := DivideOut(t, q);
    MulAssoc(p, q, u);
    Commute(p * q, u);
    ProductPositive(p, q);
    ModShift(x, u, p * q);
  }

  lemma ProductPositive(p: nat, q: nat)
    requires p > 0 && q > 0
    ensures p * q > 0
  {
  }

  lemma DifferenceDivides(x: nat, y: nat, p: nat)
    requires p > 0 && x <= y && x % p == y % p
    ensures (y - x) % p == 0
  {
    DivMod(x, p);
    DivMod(y, p);
    var a, b := x / p, y / p;
    assert y - x == p * b - p * a;
    assert p * (b - a) == p * b - p * a;
    MultipleMod(p, b - a);
  }

  /** An RSA key pair: `n` is a product of two primes, and the product of the exponents is one
      modulo `p - 1` and modulo `q - 1` (section 3 of RFC 8017). */
  ghost predicate KeyPair(n: nat, e: nat, d: nat, p: nat, q: nat) {
    && Prime(p) && Prime(q) && p != q && n == p * q
    && e * d >= 1 && (e * d - 1) % (p - 1) == 0 && (e * d - 1) % (q - 1) == 0
  }

  lemma ExponentSplits(f: nat, p: nat) returns (k: nat)
    requires p >= 2 && f >= 1 && (f - 1) % (p - 1) == 0
    ensures f == 1 + k * (p - 1)
  {
    k := DivideOut(f - 1, p - 1);
    Commute(p - 1, k);
  }

  /** Raising to `e` and then to `d` gives every number below the modulus back. */
  lemma RsaIdentity(n: nat, e: nat, d: nat, p: nat, q: nat, x: nat)
    requires KeyPair(n, e, d, p, q) && x < n
    ensures Pow(x, e * d) % n == x
  {
    var f := e * d;
    var k := ExponentSplits(f, p);
    FermatPower(p, x, k);
    var k' := ExponentSplits(f, q);
    FermatPower(q, x, k');
    var y := Pow(x, f);
    if x <= y {
      AgreeModProduct(p, q, x, y);
    } else {
      AgreeModProduct(p, q, y, x);
    }
    ModSmall(x, n);
  }

  /** The same for the two exponentiations modulo `n` one after the other. */
  lemma RsaUndone(n: nat, e: nat, d: nat, p: nat, q: nat, x: nat)
    requires KeyPair(n, e, d, p, q) && x < n
    ensures Pow(Pow(x, e) % n, d) % n == x
  {
    PowMod(Pow(x, e), d, n);
    PowMul(x, e, d);
    RsaIdentity(n, e, d, p, q, x);
  }
}
