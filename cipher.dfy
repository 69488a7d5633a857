/**
 * Textbook RSA on integers: encrypt_int and decrypt_int are both pow with the
 * key's exponent and modulus, and decryption undoes encryption when the key
 * comes from two different primes.
 */
module Cipher {
  import opened Wrappers
  import opened NumberTheory
  import opened ModExp

  /** encrypt_int(m, e, n): m raised to e modulo n, with no range check on m. */
  function EncryptInt(m: int, e: nat, n: int): (c: Option<int>)
    ensures c.None? <==> n == 0
    ensures n > 0 ==> c == Some(Pow(m, e) % n) && 0 <= c.value < n
    ensures n < 0 ==> n < c.value <= 0
  {
    PowMod(m, e, n)
  }

  /** decrypt_int(c, d, n): c raised to d modulo n. */
  function DecryptInt(c: int, d: nat, n: int): (m: Option<int>)
    ensures m.None? <==> n == 0
    ensures n > 0 ==> m == Some(Pow(c, d) % n) && 0 <= m.value < n
    ensures n < 0 ==> n < m.value <= 0
  {
    PowMod(c, d, n)
  }

  /** Encrypting with e and then decrypting with d is raising to e * d, modulo n. */
  lemma DecryptEncrypt(m: int, e: nat, d: nat, n: int)
    requires n > 0
    ensures DecryptInt(EncryptInt(m, e, n).value, d, n) == Some(Pow(m, e * d) % n)
  {
    PowCongruent(Pow(m, e), d, n);
    PowMul(m, e, d);
  }

  /**
   * The RSA identity ((x ** e) ** d) % n == x % n for n = p * q with p and q
   * two different primes and e * d == 1 modulo (p - 1) * (q - 1), for every
   * message x in [0, n).
   */
  lemma RsaRoundTrip(p: nat, q: nat, e: nat, d: nat, m: nat)
    requires IsPrime(p) && IsPrime(q) && p != q
    requires (e * d) % ((p - 1) * (q - 1)) == 1
    requires m < p * q
    ensures DecryptInt(EncryptInt(m, e, p * q).value, d, p * q) == Some(m)
  {
    var n, phi := p * q, (p - 1) * (q - 1);
    var ed := e * d;
    assert phi > 0 by { MulAtLeast(p - 1, q - 1); }
    var t := QuotientOfUnitResidue(ed, phi);
    var x := Pow(m, ed);
    Regroup(p - 1, q - 1, t);
    assert Divides(p, x - m) by { FermatDivides(p, m, (q - 1) * t); }
    assert Divides(q, x - m) by { FermatDivides(q, m, (p - 1) * t); }
    assert x % n == m by {
      DistinctPrimesDivideProduct(p, q, x - m);
      CongruentResidue(x, m, n);
    }
    DecryptEncrypt(m, e, d, n);
  }

  /** Fermat's little theorem as divisibility: p divides x^(1 + j(p - 1)) - x. */
  lemma FermatDivides(p: nat, x: nat, j: nat)
    requires IsPrime(p)
    ensures Divides(p, Pow(x, 1 + j * (p - 1)) - x)
  {
    var a := FermatRepeated(p, x, j);
    MultipleDivides(p, a);
  }

  /** A number congruent modulo n to some m in [0, n) has remainder m. */
  lemma CongruentResidue(x: int, m: int, n: int)
    requires 0 <= m < n && Divides(n, x - m)
    ensures x % n == m
  {
    DivisionEquation(x - m, n);
    DivModUnique(x, n, (x - m) / n, m);
  }

  /** A number that leaves remainder 1 modulo phi is 1 plus a multiple of phi. */
  lemma QuotientOfUnitResidue(ed: nat, phi: int) returns (t: nat)
    requires phi > 0 && ed % phi == 1
    ensures ed == 1 + t * phi
  {
    DivisionEquation(ed, phi);
    var k := ed / phi;
    if k < 0 {
      MulAtLeast(phi, -k);
    }
    t := k;
  }

  lemma Regroup(a: int, b: int, t: int)
    ensures 1 + t * (a * b) == 1 + (b * t) * a
    ensures 1 + t * (a * b) == 1 + (a * t) * b
  {
  }

  /**
   * With p == q the identity fails: the prime p itself encrypts and decrypts
   * to 0 modulo p * p whenever e * d >= 2.
   */
  lemma RepeatedPrimeBreaksRoundTrip(p: nat, e: nat, d: nat)
    requires IsPrime(p) && e * d >= 2
    ensures DecryptInt(EncryptInt(p, e, p * p).value, d, p * p) == Some(0)
  {
    var n := p * p;
    var ed := e * d;
    DecryptEncrypt(p, e, d, n);
    PowAdd(p, 2, ed - 2);
    assert Pow(p, 2) == p * (p * Pow(p, 0));
    MultipleDivides(n, Pow(p, ed - 2));
  }
}
