/**
 * The modular inverse that key generation asks of sympy's mod_inverse(a, m),
 * computed by the extended Euclidean algorithm.
 */
module Inverse {
  import opened Wrappers
  import opened NumberTheory

  /** The Bezout bookkeeping of one step of the extended Euclidean algorithm. */
  lemma EuclidStep(a: int, m: int, s0: int, t0: int, s1: int, t1: int, g: int, h: int, q: int)
    requires a * s0 + m * t0 == g && a * s1 + m * t1 == h
    ensures a * (s0 - q * s1) + m * (t0 - q * t1) == g - q * h
  {
  }

  /**
   * The inverse of a modulo m, or None where mod_inverse raises: for a modulus
   * of 0 or 1, and when a and m have a common factor.
   */
  method ModInverse(a: nat, m: nat) returns (r: Option<nat>)
    ensures r.Some? <==> m > 1 && Gcd(a, m) == 1
    ensures r.Some? ==> r.value < m && (a * r.value) % m == 1
  {
    if m <= 1 {
      return None;
    }
    var g: nat, h: nat := a, m;
    var s0, s1 := 1, 0;
    ghost var t0, t1 := 0, 1;
    while h != 0
      invariant Gcd(g, h) == Gcd(a, m)
      invariant a * s0 + m * t0 == g
      invariant a * s1 + m * t1 == h
      decreases h
    {
      var q := g / h;
      EuclidStep(a, m, s0, t0, s1, t1, g, h, q);
      DivisionEquation(g, h);
      g, h := h, g % h;
      s0, s1 := s1, s0 - q * s1;
      t0, t1 := t1, t0 - q * t1;
    }
    if g != 1 {
      return None;
    }
    var d := s0 % m;
    calc {
      (a * d) % m;
      { ModMod(s0, m); ModMulCongruent(a, a, d, s0, m); }
      (a * s0) % m;
      { assert a * s0 == m * (-t0) + 1; ModAddMultiple(1, -t0, m); }
      1 % m;
      { DivModUnique(1, m, 0, 1); }
      1;
    }
    r := Some(d);
  }

  /** Where a and m have a common factor, no x at all is an inverse of a modulo m. */
  lemma NoInverseWithoutCoprime(a: nat, m: nat, x: int)
    requires m > 1 && Gcd(a, m) != 1
    ensures (a * x) % m != 1
  {
    GcdDivides(a, m);
    var g := Gcd(a, m);
    if (a * x) % m == 1 {
      var ax, k := a * x, (a * x) / m;
      assert m * (-k) + ax == 1 by { DivisionEquation(ax, m); }
      assert Divides(g, ax) by { DividesLinear(g, a, 0, x); }
      assert Divides(g, m * (-k) + ax) by { DividesLinear(g, m, ax, -k); }
      DivModUnique(1, g, 0, 1);
    }
  }

  /** The inverse of a modulo m is unique in [0, m). */
  lemma InverseUnique(a: nat, m: nat, x: nat, y: nat)
    requires m > 1 && x < m && y < m
    requires (a * x) % m == 1 && (a * y) % m == 1
    ensures x == y
  {
    var ax, ay := a * x, a * y;
    var w := x * ay;
    assert w == y * ax by { Swap(a, x, y); }
    assert w % m == x % m by { CancelUnit(x, ay, m); }
    assert w % m == y % m by { CancelUnit(y, ax, m); }
    DivModUnique(x, m, 0, x);
    DivModUnique(y, m, 0, y);
  }

  /** Multiplying by a number that is 1 modulo m leaves the residue alone. */
  lemma CancelUnit(x: int, u: int, m: int)
    requires m > 1 && u % m == 1
    ensures (x * u) % m == x % m
  {
    ModMod(1, m);
    ModMulCongruent(x, x, u, 1, m);
  }

  lemma Swap(a: int, x: int, y: int)
    ensures x * (a * y) == y * (a * x)
  {
  }
}
