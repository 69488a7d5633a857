/**
 * Python's three-argument pow(b, x, n): modular exponentiation, specified by
 * the plain power and computed by square-and-multiply.
 */
module ModExp {
  import opened Wrappers
  import opened NumberTheory

  /**
   * Python's a % n: the remainder takes the sign of the divisor (floored
   * division), where Dafny's % is Euclidean.
   */
  function FloorMod(a: int, n: int): (r: int)
    requires n != 0
    ensures n > 0 ==> 0 <= r < n
    ensures n < 0 ==> n < r <= 0
    ensures (a - r) % (if n > 0 then n else -n) == 0
  {
    if n > 0 then
      DivModUnique(a - a % n, n, a / n, 0);
      a % n
    else
      var m := -n;
      var r := a % m;
      DivModUnique(a - r, m, a / m, 0);
      if r == 0 then 0 else
        DivModUnique(a - (r + n), m, a / m + 1, 0);
        r + n
  }

  /** pow(b, x, n) for a non-negative exponent: None where Python raises (n == 0). */
  function PowMod(b: int, x: nat, n: int): Option<int>
  {
    if n == 0 then None else Some(FloorMod(Pow(b, x), n))
  }

  /** One round of square-and-multiply keeps acc * base^e fixed modulo m. */
  lemma SquareMultiplyStep(acc: int, base: int, e: nat, m: int)
    requires m > 0 && e > 0
    ensures ((if e % 2 == 1 then (acc * base) % m else acc) * Pow((base * base) % m, e / 2)) % m
         == (acc * Pow(base, e)) % m
  {
    var k := e / 2;
    var sq := Pow((base * base) % m, k);
    PowCongruent(base * base, k, m);
    PowSquare(base, k);
    assert sq % m == Pow(base, 2 * k) % m;
    if e % 2 == 1 {
      assert Pow(base, e) == base * Pow(base, 2 * k);
      ModMod(acc * base, m);
      ModMulCongruent((acc * base) % m, acc * base, sq, Pow(base, 2 * k), m);
      assert (acc * base) * Pow(base, 2 * k) == acc * Pow(base, e);
    } else {
      assert e == 2 * k;
      ModMulCongruent(acc, acc, sq, Pow(base, 2 * k), m);
    }
  }

  /** Right-to-left binary exponentiation, reducing modulo |n| after every product. */
  method ModPow(b: int, x: nat, n: int) returns (r: Option<int>)
    ensures r == PowMod(b, x, n)
  {
    if n == 0 {
      return None;
    }
    var m := if n > 0 then n else -n;
    var base, acc, e := b % m, 1 % m, x;
    PowCongruent(b, x, m);
    ModMod(1, m);
    ModMulCongruent(1 % m, 1, Pow(base, e), Pow(b, x), m);
    while e > 0
      invariant 0 <= base < m && 0 <= acc < m
      invariant (acc * Pow(base, e)) % m == Pow(b, x) % m
      decreases e
    {
      SquareMultiplyStep(acc, base, e, m);
      acc := if e % 2 == 1 then (acc * base) % m else acc;
      base := (base * base) % m;
      e := e / 2;
    }
    assert acc * Pow(base, e) == acc;
    DivModUnique(acc, m, 0, acc);
    assert acc == Pow(b, x) % m;
    r := Some(if n > 0 || acc == 0 then acc else acc + n);
  }
}
