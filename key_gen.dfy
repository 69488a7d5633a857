/**
 * generate_key(k): a random prime e of k bits, a prime p of k // 2 bits and a
 * prime q of k - k // 2 bits (each redrawn while it is 1 modulo e), then
 * n = p * q, phi = (p - 1) * (q - 1) and d = mod_inverse(e, phi).
 *
 * The random source is a sequence of draws, one per call of gen_prime; a
 * sequence that runs out stops key generation with OutOfDraws, which bounds
 * the redraw loops.
 */
module KeyGen {
  import opened Wrappers
  import opened NumberTheory
  import opened PrimeSource
  import opened Inverse
  import opened Cipher

  /** The triple (n, e, d) that generate_key returns. */
  datatype Key = Key(n: nat, e: nat, d: nat)

  datatype KeyGenError =
    | NoPrimeInRange(bits: nat)  // randprime raised: no prime has `bits` bits
    | NoInverse                  // mod_inverse raised: e has no inverse modulo phi
    | OutOfDraws                 // the supply of random draws ran out

  /** gen_prime(bits) on the i-th random draw. */
  function Draw(bits: nat, draws: seq<nat>, i: nat): (r: Result<nat, KeyGenError>)
    ensures r.Ok? ==> i < |draws| && IsPrime(r.value) && Lo(bits) <= r.value < Hi(bits)
    ensures r.Ok? <==> i < |draws| && GenPrime(bits, draws[i]).Some?
    ensures r.Ok? ==> GenPrime(bits, draws[i]) == Some(r.value)
    ensures r == Err(OutOfDraws) <==> i >= |draws|
    ensures r == Err(NoPrimeInRange(bits)) <==> i < |draws| && !HasPrime(bits)
    ensures r.Err? ==> r.error == OutOfDraws || r.error == NoPrimeInRange(bits)
  {
    if i >= |draws| then Err(OutOfDraws)
    else match GenPrime(bits, draws[i])
      case Some(p) => Ok(p)
      case None => Err(NoPrimeInRange(bits))
  }

  /** The bit sizes generate_key asks of e, p and q for a k-bit key. */
  predicate PrimeSizes(k: nat, e: nat, p: nat, q: nat)
  {
    && IsPrime(e) && Lo(k) <= e < Hi(k)
    && IsPrime(p) && Lo(k / 2) <= p < Hi(k / 2)
    && IsPrime(q) && Lo(k - k / 2) <= q < Hi(k - k / 2)
  }

  /** n = p * q, and d is the inverse of e modulo phi = (p - 1) * (q - 1). */
  predicate KeyRelations(key: Key, p: nat, q: nat)
  {
    && key.n == p * q
    && key.d < (p - 1) * (q - 1)
    && (key.e * key.d) % ((p - 1) * (q - 1)) == 1
  }

  /**
   * What generate_key establishes between a k-bit key and the primes p and q
   * it was built from.
   */
  predicate KeyFromPrimes(k: nat, key: Key, p: nat, q: nat)
  {
    && PrimeSizes(k, key.e, p, q)
    && p % key.e != 1 && q % key.e != 1
    && KeyRelations(key, p, q)
  }

  lemma TotientAtLeastTwo(p: nat, q: nat)
    requires p >= 2 && q >= 2 && (p != 2 || q != 2)
    ensures (p - 1) * (q - 1) >= 2
  {
    if p > 2 {
      MulAtLeast(p - 1, q - 1);
    } else {
      MulAtLeast(q - 1, p - 1);
    }
  }

  /**
   * Once neither p nor q is 1 modulo the prime e, e is coprime to
   * (p - 1) * (q - 1), so its inverse exists whenever that modulus exceeds 1.
   */
  lemma CoprimeToTotient(e: nat, p: nat, q: nat)
    requires IsPrime(e) && p >= 2 && q >= 2
    requires p % e != 1 && q % e != 1
    ensures Gcd(e, (p - 1) * (q - 1)) == 1
  {
    assert !Divides(e, p - 1) by { NotOneModulo(e, p); }
    assert !Divides(e, q - 1) by { NotOneModulo(e, q); }
    PrimeCoprimeToProduct(e, p - 1, q - 1);
  }

  /** A prime dividing neither factor is coprime to the product. */
  lemma PrimeCoprimeToProduct(e: nat, a: nat, b: nat)
    requires IsPrime(e) && !Divides(e, a) && !Divides(e, b)
    ensures Gcd(e, a * b) == 1
  {
    var ab: nat := a * b;
    if Divides(e, ab) {
      EuclidLemma(e, a, b);
    }
    PrimeCoprime(e, ab);
  }

  /** A number that is not 1 modulo e is not 1 plus a multiple of e. */
  lemma NotOneModulo(e: nat, p: nat)
    requires e >= 2 && p >= 1 && p % e != 1
    ensures !Divides(e, p - 1)
  {
    if Divides(e, p - 1) {
      DivisionEquation(p - 1, e);
      DivModUnique(p, e, (p - 1) / e, 1);
    }
  }

  /**
   * The redraw loops never run: a prime of fewer than k bits is below the
   * k-bit prime e, so it is its own remainder modulo e, and that is not 1.
   */
  lemma RedrawNeverNeeded(k: nat, e: nat, p: nat, q: nat)
    requires k >= 2 && Lo(k) <= e
    requires IsPrime(p) && p < Hi(k / 2)
    requires IsPrime(q) && q < Hi(k - k / 2)
    ensures p % e == p && q % e == q
    ensures p % e != 1 && q % e != 1
  {
    PowMonotone(2, k / 2, k - 1);
    PowMonotone(2, k - k / 2, k - 1);
    DivModUnique(p, e, 0, p);
    DivModUnique(q, e, 0, q);
  }

  /**
   * The modulus of a k-bit key has k - 1 or k bits: the bit sizes of p and q
   * add up to k.
   */
  lemma ModulusSize(k: nat, key: Key, p: nat, q: nat)
    requires KeyFromPrimes(k, key, p, q)
    ensures k >= 2 && Pow(2, k - 2) <= key.n < Pow(2, k)
  {
    var h := k / 2;
    assert h >= 1;
    PowAdd(2, h, k - h);
    PowAdd(2, h - 1, k - h - 1);
    assert (h - 1) + (k - h - 1) == k - 2;
    MulMonotone(Lo(h), p, Lo(k - h), q);
    MulStrict(p, Hi(h), q, Hi(k - h));
  }

  lemma MulMonotone(a: nat, b: nat, c: nat, d: nat)
    requires a <= b && c <= d
    ensures a * c <= b * d
  {
  }

  lemma MulStrict(a: nat, b: nat, c: nat, d: nat)
    requires a < b && c < d
    ensures a * c < b * d
  {
  }

  /** The j-th draw gives a prime that the redraw loop throws back: 1 modulo e, or in `avoid`. */
  predicate Rejected(bits: nat, e: nat, avoid: set<nat>, draws: seq<nat>, j: nat)
    requires e > 0
  {
    Draw(bits, draws, j).Ok? && (Draw(bits, draws, j).value % e == 1 || Draw(bits, draws, j).value in avoid)
  }

  /**
   * What gen_prime followed by its redraw loop yields from the draws at index
   * i on, together with the index of the first draw left unused: the first
   * draw that gen_prime fails on or that the loop keeps.
   */
  function FirstAcceptable(bits: nat, e: nat, avoid: set<nat>, draws: seq<nat>, i: nat): (r: (Result<nat, KeyGenError>, nat))
    requires e > 0
    ensures r.0.Ok? ==> i < r.1 <= |draws| && Draw(bits, draws, r.1 - 1) == r.0
    ensures r.0.Ok? ==> r.0.value % e != 1 && r.0.value !in avoid
    ensures r.0.Err? ==> i <= r.1 && Draw(bits, draws, r.1) == r.0
    ensures r.0.Ok? ==> forall j :: i <= j < r.1 - 1 ==> Rejected(bits, e, avoid, draws, j)
    ensures r.0.Err? ==> forall j :: i <= j < r.1 ==> Rejected(bits, e, avoid, draws, j)
    decreases |draws| - i
  {
    match Draw(bits, draws, i)
    case Err(error) => (Err(error), i)
    case Ok(c) =>
      if c % e != 1 && c !in avoid then (Ok(c), i + 1)
      else FirstAcceptable(bits, e, avoid, draws, i + 1)
  }

  /**
   * A prime of `bits` bits that is not 1 modulo e and not in `avoid`:
   * gen_prime(bits) followed by the loop that redraws while the prime is 1
   * modulo e (or, in the corrected generator, equal to p). Draws are taken
   * from index i on; `next` is the index of the first draw left unused.
   */
  method DrawFactor(bits: nat, e: nat, avoid: set<nat>, draws: seq<nat>, i: nat) returns (r: Result<nat, KeyGenError>, next: nat)
    requires e > 0
    ensures (r, next) == FirstAcceptable(bits, e, avoid, draws, i)
    ensures r.Ok? ==> IsPrime(r.value) && Lo(bits) <= r.value < Hi(bits)
    ensures r.Ok? ==> r.value % e != 1 && r.value !in avoid
    ensures r.Ok? ==> i < next <= |draws|
    ensures r == Err(OutOfDraws) ==> next >= |draws|
    ensures r.Err? ==> r.error == OutOfDraws || (r.error == NoPrimeInRange(bits) && !HasPrime(bits))
  {
    var drawn := Draw(bits, draws, i);
    if drawn.Err? {
      return Err(drawn.error), i;
    }
    var c := drawn.value;
    next := i + 1;
    while c % e == 1 || c in avoid
      invariant i < next <= |draws|
      invariant Draw(bits, draws, next - 1) == Ok(c)
      invariant FirstAcceptable(bits, e, avoid, draws, i) == FirstAcceptable(bits, e, avoid, draws, next - 1)
      decreases |draws| - next
    {
      drawn := Draw(bits, draws, next);
      if drawn.Err? {
        return Err(drawn.error), next;
      }
      c := drawn.value;
      next := next + 1;
    }
    r := Ok(c);
  }

  /** A prime below the prime e is its own remainder modulo e, and so not 1 modulo e. */
  lemma BelowModulus(c: nat, e: nat)
    requires 2 <= c < e
    ensures c % e == c && c % e != 1
  {
    DivModUnique(c, e, 0, c);
  }

  /** A prime of `bits` bits with bits < k is below a k-bit e, so the redraw loop keeps the first draw. */
  lemma FirstDrawKept(k: nat, e: nat, bits: nat, avoid: set<nat>, draws: seq<nat>, i: nat)
    requires k >= 2 && bits < k && Lo(k) <= e
    requires Draw(bits, draws, i).Ok? ==> Draw(bits, draws, i).value !in avoid
    ensures FirstAcceptable(bits, e, avoid, draws, i) ==
      (Draw(bits, draws, i), if Draw(bits, draws, i).Ok? then i + 1 else i)
  {
    if Draw(bits, draws, i).Ok? {
      var c := Draw(bits, draws, i).value;
      PowMonotone(2, bits, k - 1);
      BelowModulus(c, e);
    }
  }

  /** A prime below 2**k has at least two bits. */
  lemma PrimeBitsAtLeastTwo(k: nat, e: nat)
    requires IsPrime(e) && e < Hi(k)
    ensures k >= 2
  {
    if k < 2 {
      assert Pow(2, 1) == 2 * Pow(2, 0);
      PowMonotone(2, k, 1);
    }
  }

  /**
   * The tail of generate_key: n = p * q, phi = (p - 1) * (q - 1) and
   * d = mod_inverse(e, phi), which fails exactly when p == q == 2 (phi == 1).
   */
  method AssembleKey(e: nat, p: nat, q: nat) returns (r: Result<Key, KeyGenError>)
    requires IsPrime(e) && IsPrime(p) && IsPrime(q)
    requires p % e != 1 && q % e != 1
    ensures r.Ok? <==> p != 2 || q != 2
    ensures r.Ok? ==> r.value.e == e && KeyRelations(r.value, p, q)
    ensures r.Err? ==> r.error == NoInverse
  {
    var n := p * q;
    MulAtLeast(p - 1, q - 1);
    var phi := (p - 1) * (q - 1);
    CoprimeToTotient(e, p, q);
    if p != 2 || q != 2 {
      TotientAtLeastTwo(p, q);
    }
    var inverse := ModInverse(e, phi);
    if inverse.None? {
      return Err(NoInverse);
    }
    r := Ok(Key(n, e, inverse.value));
  }

  /** Every key built from two different primes decrypts what it encrypts. */
  lemma KeyRoundTrip(k: nat, key: Key, p: nat, q: nat)
    requires KeyFromPrimes(k, key, p, q) && p != q
    ensures forall m :: 0 <= m < key.n ==>
      DecryptInt(EncryptInt(m, key.e, key.n).value, key.d, key.n) == Some(m)
  {
    forall m | 0 <= m < key.n
      ensures DecryptInt(EncryptInt(m, key.e, key.n).value, key.d, key.n) == Some(m)
    {
      RsaRoundTrip(p, q, key.e, key.d, m);
    }
  }

  /**
   * The first half of generate_key: e = gen_prime(k) on draw 0, then p =
   * gen_prime(k // 2) on draw 1, kept by the redraw loop because it is below e.
   */
  method DrawExponentAndFirstFactor(k: nat, draws: seq<nat>) returns (r: Result<(nat, nat), KeyGenError>)
    ensures r.Ok? ==> k >= 2 && |draws| >= 2
    ensures r.Ok? ==> Draw(k, draws, 0) == Ok(r.value.0) && Draw(k / 2, draws, 1) == Ok(r.value.1)
    ensures r.Ok? ==> GenPrime(k, draws[0]) == Some(r.value.0) && GenPrime(k / 2, draws[1]) == Some(r.value.1)
    ensures r.Ok? ==> IsPrime(r.value.0) && Lo(k) <= r.value.0 < Hi(k)
    ensures r.Ok? ==> IsPrime(r.value.1) && Lo(k / 2) <= r.value.1 < Hi(k / 2)
    ensures r.Ok? ==> r.value.1 % r.value.0 != 1
    ensures r.Err? ==> Err(r.error) == Draw(k, draws, 0) || (Draw(k, draws, 0).Ok? && k >= 2 && Err(r.error) == Draw(k / 2, draws, 1))
  {
    var drawn := Draw(k, draws, 0);
    if drawn.Err? {
      return Err(drawn.error);
    }
    var e := drawn.value;
    PrimeBitsAtLeastTwo(k, e);
    FirstDrawKept(k, e, k / 2, {}, draws, 1);
    var pc, _ := DrawFactor(k / 2, e, {}, draws, 1);
    if pc.Err? {
      return Err(pc.error);
    }
    r := Ok((e, pc.value));
  }

  /**
   * generate_key(k) as written: q may come out equal to p, and with
   * p == q == 2 the modulus phi is 1 and mod_inverse raises. The redraw loops
   * never run, so three draws always suffice: gen_prime's draws for e, p and q
   * are draws 0, 1 and 2.
   */
  method GenerateKeyAsWritten(k: nat, draws: seq<nat>) returns (r: Result<Key, KeyGenError>, ghost p: nat, ghost q: nat)
    ensures r.Ok? ==> KeyFromPrimes(k, r.value, p, q)
    ensures r.Ok? ==> |draws| >= 3 && GenPrime(k, draws[0]) == Some(r.value.e)
    ensures r.Ok? || r == Err(NoInverse) ==>
      |draws| >= 3 && GenPrime(k / 2, draws[1]) == Some(p) && GenPrime(k - k / 2, draws[2]) == Some(q)
    ensures r == Err(NoInverse) ==> p == 2 && q == 2
    ensures r == Err(OutOfDraws) ==> |draws| < 3
    ensures r.Err? && r.error.NoPrimeInRange? ==> !HasPrime(r.error.bits) && r.error.bits in {k, k / 2, k - k / 2}
  {
    var ep := DrawExponentAndFirstFactor(k, draws);
    if ep.Err? {
      return Err(ep.error), 0, 0;
    }
    var (e, pv) := ep.value;
    var qc := DrawSecondFactor(k, e, {}, draws);
    if qc.Err? {
      return Err(qc.error), 0, 0;
    }
    p, q := pv, qc.value;
    r := AssembleKey(e, pv, qc.value);
  }

  /**
   * generate_key(k) with q also redrawn while it equals p. Every key it
   * returns decrypts what it encrypts, for every message in [0, n), and
   * mod_inverse never fails. The draws run out only where every draw for q
   * gave p back.
   */
  method GenerateKey(k: nat, draws: seq<nat>) returns (r: Result<Key, KeyGenError>, ghost p: nat, ghost q: nat)
    ensures r.Ok? ==> KeyFromPrimes(k, r.value, p, q) && p != q
    ensures r.Ok? ==> forall m :: 0 <= m < r.value.n ==>
      DecryptInt(EncryptInt(m, r.value.e, r.value.n).value, r.value.d, r.value.n) == Some(m)
    ensures r.Ok? ==> |draws| >= 3 && GenPrime(k, draws[0]) == Some(r.value.e)
    ensures r.Ok? ==> GenPrime(k / 2, draws[1]) == Some(p)
    ensures r.Ok? ==> FirstAcceptable(k - k / 2, r.value.e, {p}, draws, 2).0 == Ok(q)
    ensures r == Err(OutOfDraws) && |draws| >= 2 ==>
      GenPrime(k / 2, draws[1]) == Some(p) && forall j :: 2 <= j < |draws| ==> GenPrime(k - k / 2, draws[j]) == Some(p)
    ensures r.Err? ==> r.error != NoInverse
    ensures r.Err? && r.error.NoPrimeInRange? ==> !HasPrime(r.error.bits) && r.error.bits in {k, k / 2, k - k / 2}
  {
    var ep := DrawExponentAndFirstFactor(k, draws);
    if ep.Err? {
      return Err(ep.error), 0, 0;
    }
    var (e, pv) := ep.value;
    var qc := DrawSecondFactor(k, e, {pv}, draws);
    if qc.Err? {
      return Err(qc.error), pv, 0;
    }
    p, q := pv, qc.value;
    r := AssembleKey(e, pv, qc.value);
    KeyRoundTrip(k, r.value, p, q);
  }

  /**
   * The q step of generate_key: gen_prime(k - k // 2) from draw 2 on, redrawn
   * while it is 1 modulo e or in `avoid` (empty as written, {p} corrected).
   * Since q is below e, the first draw is kept unless it is in `avoid`, and
   * the draws run out only where every one of them was in `avoid`.
   */
  method DrawSecondFactor(k: nat, e: nat, avoid: set<nat>, draws: seq<nat>) returns (r: Result<nat, KeyGenError>)
    requires k >= 2 && Lo(k) <= e
    ensures r == FirstAcceptable(k - k / 2, e, avoid, draws, 2).0
    ensures r.Ok? ==> IsPrime(r.value) && Lo(k - k / 2) <= r.value < Hi(k - k / 2)
    ensures r.Ok? ==> r.value % e != 1 && r.value !in avoid
    ensures (Draw(k - k / 2, draws, 2).Ok? ==> Draw(k - k / 2, draws, 2).value !in avoid) ==> r == Draw(k - k / 2, draws, 2)
    ensures r == Err(OutOfDraws) ==>
      forall j :: 2 <= j < |draws| ==> GenPrime(k - k / 2, draws[j]).Some? && GenPrime(k - k / 2, draws[j]).value in avoid
    ensures r.Err? ==> r.error == OutOfDraws || (r.error == NoPrimeInRange(k - k / 2) && !HasPrime(k - k / 2))
  {
    var bits := k - k / 2;
    var next;
    r, next := DrawFactor(bits, e, avoid, draws, 2);
    if Draw(bits, draws, 2).Ok? ==> Draw(bits, draws, 2).value !in avoid {
      FirstDrawKept(k, e, bits, avoid, draws, 2);
    }
    if r == Err(OutOfDraws) {
      OnlyAvoidedRejected(k, e, bits, avoid, draws);
    }
  }

  /**
   * The q loop throws back only what it must avoid: when the draws run out,
   * every draw from index 2 on gave a prime in `avoid`.
   */
  lemma OnlyAvoidedRejected(k: nat, e: nat, bits: nat, avoid: set<nat>, draws: seq<nat>)
    requires k >= 2 && Lo(k) <= e && bits == k - k / 2
    requires FirstAcceptable(bits, e, avoid, draws, 2).0 == Err(OutOfDraws)
    ensures forall j :: 2 <= j < |draws| ==> GenPrime(bits, draws[j]).Some? && GenPrime(bits, draws[j]).value in avoid
  {
    var last := FirstAcceptable(bits, e, avoid, draws, 2).1;
    assert |draws| <= last;
    forall j | 2 <= j < |draws|
      ensures GenPrime(bits, draws[j]).Some? && GenPrime(bits, draws[j]).value in avoid
    {
      assert Rejected(bits, e, avoid, draws, j);
      var c := Draw(bits, draws, j).value;
      PowMonotone(2, bits, k - 1);
      BelowModulus(c, e);
    }
  }

  lemma ElevenIsPrime()
    ensures IsPrime(11)
  {
    forall c | 2 <= c < 11
      ensures !Divides(c, 11)
    {
      assert c in {2, 3, 4, 5, 6, 7, 8, 9, 10};
    }
  }

  /**
   * generate_key(4) as written on the draws 3, 1, 1 picks e = 11 and
   * p = q = 3: both primes pass the p % e == 1 test, d = 3 inverts 11
   * modulo 4, and the key (9, 11, 3) sends the message 3 to 0 and back to 0.
   */
  lemma AsWrittenAdmitsRepeatedPrime()
    ensures GenPrime(4, 3) == Some(11) && GenPrime(2, 1) == Some(3)
    ensures KeyFromPrimes(4, Key(9, 11, 3), 3, 3)
    ensures DecryptInt(EncryptInt(3, 11, 9).value, 3, 9) == Some(0)
  {
    ElevenIsPrime();
    assert IsPrime(3) by {
      forall c | 2 <= c < 3 ensures !Divides(c, 3) { assert c == 2; }
    }
    assert Lo(4) == 8 && Hi(4) == 16;
    assert Lo(2) == 2 && Hi(2) == 4;
    assert PrimeAtOrAbove(11, 16) == Some(11);
    assert PrimeAtOrAbove(3, 4) == Some(3);
    RepeatedPrimeBreaksRoundTrip(3, 11, 3);
  }

  /** The run of generate_key(4) as written on the draws 3, 1, 1: it returns the key (9, 11, 3) from p = q = 3. */
  method AsWrittenRepeatedPrimeRun() returns (r: Result<Key, KeyGenError>)
    ensures r == Ok(Key(9, 11, 3))
    ensures DecryptInt(EncryptInt(3, r.value.e, r.value.n).value, r.value.d, r.value.n) == Some(0)
  {
    AsWrittenAdmitsRepeatedPrime();
    var draws := [3, 1, 1];
    ghost var p, q;
    r, p, q := GenerateKeyAsWritten(4, draws);
    assert HasPrime(4) && HasPrime(2);
    assert r.Ok? && p == 3 && q == 3;
    assert r.value.e == 11;
    OnlyInverse(r.value.d);
  }

  /** 3 is the only inverse of 11 modulo 4 in [0, 4). */
  lemma OnlyInverse(d: nat)
    requires d < 4 && (11 * d) % 4 == 1
    ensures d == 3
  {
    assert d in {0, 1, 2, 3};
  }
}
