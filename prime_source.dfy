/**
 * gen_prime(bits): a prime with exactly `bits` bits, drawn by sympy's
 * randprime(2**(bits-1), 2**bits). The random choice is a parameter: `draw`
 * picks a starting point in the range, and the prime returned is the first
 * one at or above it, or failing that the last one below it (the rule
 * randprime applies to its random point). The result is None where randprime
 * raises because the range holds no prime.
 */
module PrimeSource {
  import opened Wrappers
  import opened NumberTheory

  /** The least integer with `bits` bits: 2**(bits-1), or 1 for bits == 0 (the range is then empty). */
  function Lo(bits: nat): (r: nat)
    ensures r >= 1
  {
    if bits == 0 then 1 else PowPositive(2, bits - 1); Pow(2, bits - 1)
  }

  /** One past the greatest integer with `bits` bits: 2**bits. */
  function Hi(bits: nat): (r: nat)
    ensures r >= Lo(bits)
  {
    PowPositive(2, bits);
    Pow(2, bits)
  }

  /** The integers with exactly `bits` bits include a prime. */
  predicate HasPrime(bits: nat)
  {
    exists c :: Lo(bits) <= c < Hi(bits) && IsPrime(c)
  }

  /** The least prime in [c, hi), if there is one. */
  function PrimeAtOrAbove(c: nat, hi: nat): (r: Option<nat>)
    ensures r.Some? ==> c <= r.value < hi && IsPrime(r.value)
    ensures r.None? ==> forall x :: c <= x < hi ==> !IsPrime(x)
    decreases hi - c
  {
    if c >= hi then None
    else if IsPrime(c) then Some(c)
    else PrimeAtOrAbove(c + 1, hi)
  }

  /** The greatest prime in [lo, c), if there is one. */
  function PrimeBelow(c: nat, lo: nat): (r: Option<nat>)
    ensures r.Some? ==> lo <= r.value < c && IsPrime(r.value)
    ensures r.None? ==> forall x :: lo <= x < c ==> !IsPrime(x)
  {
    if c <= lo then None
    else if IsPrime(c - 1) then Some(c - 1)
    else PrimeBelow(c - 1, lo)
  }

  /**
   * gen_prime(bits) for the random draw `draw`: a prime in
   * [2**(bits-1), 2**bits), and None exactly when that range holds no prime.
   */
  function GenPrime(bits: nat, draw: nat): (r: Option<nat>)
    ensures r.Some? ==> IsPrime(r.value) && Lo(bits) <= r.value < Hi(bits)
    ensures r.None? <==> !HasPrime(bits)
  {
    var lo, hi := Lo(bits), Hi(bits);
    var start := lo + draw % (hi - lo + 1);
    match PrimeAtOrAbove(start, hi)
    case Some(p) => Some(p)
    case None => PrimeBelow(start, lo)
  }
}
