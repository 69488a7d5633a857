/**
 * The integer arithmetic that RSA rests on: powers, divisibility, primes,
 * the greatest common divisor with its Bezout coefficients, Euclid's lemma,
 * binomial coefficients and Fermat's little theorem.
 */
module NumberTheory {

  /** b raised to the x-th power. */
  function Pow(b: int, x: nat): int
  {
    if x == 0 then 1 else b * Pow(b, x - 1)
  }

  /** d is a positive divisor of n. */
  predicate Divides(d: int, n: int)
  {
    d > 0 && n % d == 0
  }

  /** n is a prime number: at least 2 and without a divisor strictly between 1 and n. */
  predicate IsPrime(n: int)
  {
    n >= 2 && forall d :: 2 <= d < n ==> !Divides(d, n)
  }

  /** Greatest common divisor, by Euclid's remainder sequence. */
  function Gcd(a: nat, b: nat): nat
    decreases b
  {
    if b == 0 then a else Gcd(b, a % b)
  }

  // ---------------------------------------------------------------------------
  // Euclidean division

  /** A quotient and remainder that satisfy the division equation are the ones Dafny computes. */
  lemma DivModUnique(a: int, m: int, q: int, r: int)
    requires m > 0 && a == m * q + r && 0 <= r < m
    ensures a / m == q && a % m == r
  {
    var q', r' := a / m, a % m;
    assert m * q' + r' == m * q + r;
    var t := q - q';
    assert m * t == r' - r;
    if t >= 1 {
      MulAtLeast(m, t);
    } else if t <= -1 {
      MulAtLeast(m, -t);
    }
  }

  lemma MulAtLeast(m: int, t: int)
    requires m > 0 && t >= 1
    ensures m * t >= m
  {
  }

  lemma DivisionEquation(a: int, m: int)
    requires m > 0
    ensures a - (a / m) * m == a % m
  {
  }

  lemma ModAddMultiple(x: int, k: int, m: int)
    requires m > 0
    ensures (m * k + x) % m == x % m
  {
    assert m * k + x == m * (k + x / m) + x % m;
    DivModUnique(m * k + x, m, k + x / m, x % m);
  }

  lemma MultipleDivides(m: int, k: int)
    requires m > 0
    ensures Divides(m, m * k)
  {
    DivModUnique(m * k, m, k, 0);
  }

  lemma ModMul(a: int, b: int, m: int)
    requires m > 0
    ensures (a * b) % m == ((a % m) * (b % m)) % m
  {
    var qa, ra := a / m, a % m;
    var qb, rb := b / m, b % m;
    calc {
      a * b;
      (m * qa + ra) * (m * qb + rb);
      m * (qa * m * qb + qa * rb + ra * qb) + ra * rb;
    }
    ModAddMultiple(ra * rb, qa * m * qb + qa * rb + ra * qb, m);
  }

  lemma ModMod(a: int, m: int)
    requires m > 0
    ensures (a % m) % m == a % m
  {
    DivModUnique(a % m, m, 0, a % m);
  }

  lemma ModMulCongruent(a: int, a': int, b: int, b': int, m: int)
    requires m > 0 && a % m == a' % m && b % m == b' % m
    ensures (a * b) % m == (a' * b') % m
  {
    ModMul(a, b, m);
    ModMul(a', b', m);
  }

  // ---------------------------------------------------------------------------
  // Powers

  lemma {:induction false} PowPositive(b: int, x: nat)
    requires b > 0
    ensures Pow(b, x) > 0
  {
    if x > 0 {
      PowPositive(b, x - 1);
    }
  }

  lemma {:induction false} PowAdd(b: int, x: nat, y: nat)
    ensures Pow(b, x + y) == Pow(b, x) * Pow(b, y)
  {
    if x > 0 {
      PowAdd(b, x - 1, y);
      var u, v := Pow(b, x - 1), Pow(b, y);
      assert Pow(b, x + y) == b * (u * v);
      assert b * (u * v) == (b * u) * v;
    }
  }

  lemma {:induction false} PowMul(b: int, x: nat, y: nat)
    ensures Pow(b, x * y) == Pow(Pow(b, x), y)
  {
    if y > 0 {
      calc {
        Pow(b, x * y);
        { assert x * y == x + x * (y - 1); }
        Pow(b, x + x * (y - 1));
        { PowAdd(b, x, x * (y - 1)); }
        Pow(b, x) * Pow(b, x * (y - 1));
        { PowMul(b, x, y - 1); }
        Pow(b, x) * Pow(Pow(b, x), y - 1);
      }
    }
  }

  /** Raising to the power 2k is raising the square to the power k. */
  lemma {:induction false} PowSquare(b: int, k: nat)
    ensures Pow(b, 2 * k) == Pow(b * b, k)
  {
    PowMul(b, 2, k);
    assert Pow(b, 2) == b * (b * Pow(b, 0));
  }

  /** Powers are compatible with congruence modulo m. */
  lemma {:induction false} PowCongruent(b: int, x: nat, m: int)
    requires m > 0
    ensures Pow(b % m, x) % m == Pow(b, x) % m
  {
    if x > 0 {
      PowCongruent(b, x - 1, m);
      assert (b % m) % m == b % m by { DivModUnique(b % m, m, 0, b % m); }
      ModMulCongruent(b % m, b, Pow(b % m, x - 1), Pow(b, x - 1), m);
    }
  }

  lemma {:induction false} PowMonotone(b: int, x: nat, y: nat)
    requires b >= 1 && x <= y
    ensures Pow(b, x) <= Pow(b, y)
  {
    if x < y {
      PowMonotone(b, x, y - 1);
      PowPositive(b, y - 1);
      assert Pow(b, y) == b * Pow(b, y - 1) >= Pow(b, y - 1);
    }
  }

  // ---------------------------------------------------------------------------
  // Divisibility, gcd and Euclid's lemma

  lemma DividesLinear(g: int, x: int, y: int, k: int)
    requires Divides(g, x) && Divides(g, y)
    ensures Divides(g, x * k + y)
  {
    var xq, yq := x / g, y / g;
    assert x == g * xq && y == g * yq;
    assert x * k + y == g * (xq * k + yq);
    MultipleDivides(g, xq * k + yq);
  }

  /** The gcd divides both arguments, and vanishes only when both do. */
  lemma {:induction false} GcdDivides(a: nat, b: nat)
    ensures Gcd(a, b) == 0 <==> a == 0 && b == 0
    ensures Gcd(a, b) > 0 ==> Divides(Gcd(a, b), a) && Divides(Gcd(a, b), b)
    decreases b
  {
    if b == 0 {
      if a > 0 { MultipleDivides(a, 0); MultipleDivides(a, 1); }
    } else {
      GcdDivides(b, a % b);
      var g := Gcd(a, b);
      assert a == b * (a / b) + a % b;
      DividesLinear(g, b, a % b, a / b);
    }
  }

  /** Bezout's identity: the gcd is an integer combination of the arguments. */
  lemma {:induction false} Bezout(a: nat, b: nat) returns (x: int, y: int)
    ensures a * x + b * y == Gcd(a, b)
    decreases b
  {
    if b == 0 {
      x, y := 1, 0;
    } else {
      var q, r := a / b, a % b;
      var x', y' := Bezout(b, r);
      BezoutStep(a, b, q, r, x', y');
      x, y := y', x' - q * y';
    }
  }

  lemma BezoutStep(a: int, b: int, q: int, r: int, x': int, y': int)
    requires a == b * q + r
    ensures a * y' + b * (x' - q * y') == b * x' + r * y'
  {
    assert a * y' == b * q * y' + r * y';
    assert b * (x' - q * y') == b * x' - b * q * y';
  }

  /** Every common divisor divides the gcd. */
  lemma CommonDivisorDividesGcd(c: int, a: nat, b: nat)
    requires Divides(c, a) && Divides(c, b)
    ensures Divides(c, Gcd(a, b))
  {
    var x, y := Bezout(a, b);
    DividesLinear(c, a, 0, x);
    DividesLinear(c, b, a * x, y);
  }

  /** The positive divisors of a prime are 1 and the prime itself. */
  lemma PrimeDivisor(p: int, d: int)
    requires IsPrime(p) && Divides(d, p)
    ensures d == 1 || d == p
  {
    if d > p {
      DivModUnique(p, d, 0, p);
    }
  }

  /** A prime that does not divide r is coprime to it. */
  lemma PrimeCoprime(p: nat, r: nat)
    requires IsPrime(p) && !Divides(p, r)
    ensures Gcd(p, r) == 1
  {
    GcdDivides(p, r);
    var g := Gcd(p, r);
    PrimeDivisor(p, g);
    assert g != p;
  }

  /** Euclid's lemma: a prime dividing a product divides one of its factors. */
  lemma EuclidLemma(p: int, a: int, b: int)
    requires IsPrime(p) && Divides(p, a * b)
    ensures Divides(p, a) || Divides(p, b)
  {
    var r := a % p;
    if r != 0 {
      assert !Divides(p, r) by { DivModUnique(r, p, 0, r); }
      PrimeCoprime(p, r);
      var x, y := Bezout(p, r);
      var t := (a * b) / p;
      var k := a / p;
      assert a * b == p * t;
      assert a == p * k + r;
      // b == b * (p * x + r * y) == p * (b * x) + (r * b) * y, and r * b == p * (t - k * b)
      var bx, s := b * x, t - k * b;
      assert b == p * bx + (r * b) * y by { ScaleUnit(p, x, r, y, b); }
      assert r * b == p * s by { ExpandRemainder(p, a, b, r, k, t); }
      assert b == p * (bx + s * y) by { Factor(p, bx, s, y); }
      MultipleDivides(p, bx + s * y);
    } else {
      assert Divides(p, a);
    }
  }

  lemma ScaleUnit(p: int, x: int, r: int, y: int, b: int)
    requires p * x + r * y == 1
    ensures b == p * (b * x) + (r * b) * y
  {
    assert b * (p * x + r * y) == b * (p * x) + b * (r * y);
  }

  lemma ExpandRemainder(p: int, a: int, b: int, r: int, k: int, t: int)
    requires a * b == p * t && a == p * k + r
    ensures r * b == p * (t - k * b)
  {
    assert a * b == (p * k) * b + r * b;
  }

  lemma Factor(p: int, s: int, u: int, y: int)
    ensures p * s + (p * u) * y == p * (s + u * y)
  {
  }

  /** Two different primes that both divide a number divide it together. */
  lemma DistinctPrimesDivideProduct(p: int, q: int, a: int)
    requires IsPrime(p) && IsPrime(q) && p != q
    requires Divides(p, a) && Divides(q, a)
    ensures Divides(p * q, a)
  {
    var s := a / p;
    assert a == p * s;
    EuclidLemma(q, p, s);
    if Divides(q, p) {
      PrimeDivisor(p, q);
      assert false;
    }
    var u := s / q;
    assert s == q * u;
    assert a == (p * q) * u;
    MultipleDivides(p * q, u);
  }

  // ---------------------------------------------------------------------------
  // Binomial coefficients and Fermat's little theorem

  /** Binomial coefficient, by Pascal's rule. */
  function Binom(n: nat, k: nat): nat
  {
    if k == 0 then 1 else if n == 0 then 0 else Binom(n - 1, k - 1) + Binom(n - 1, k)
  }

  lemma {:induction false} BinomAbove(n: nat, k: nat)
    requires k > n
    ensures Binom(n, k) == 0
  {
    if n > 0 {
      BinomAbove(n - 1, k - 1);
      BinomAbove(n - 1, k);
    }
  }

  lemma {:induction false} BinomDiagonal(n: nat)
    ensures Binom(n, n) == 1
  {
    if n > 0 {
      BinomDiagonal(n - 1);
      BinomAbove(n - 1, n);
    }
  }

  /** The absorption identity k * C(n, k) == n * C(n-1, k-1). */
  lemma {:induction false} BinomAbsorption(n: nat, k: nat)
    requires n >= 1 && k >= 1
    ensures k * Binom(n, k) == n * Binom(n - 1, k - 1)
  {
    if n == 1 {
      if k > 1 {
        BinomAbove(0, k - 1);
        BinomAbove(0, k);
      }
    } else if k == 1 {
      calc {
        1 * Binom(n, 1);
        Binom(n - 1, 0) + Binom(n - 1, 1);
        { BinomAbsorption(n - 1, 1); }
        1 + (n - 1) * Binom(n - 2, 0);
        n * Binom(n - 1, 0);
      }
    } else {
      BinomAbsorption(n - 1, k);
      BinomAbsorption(n - 1, k - 1);
      var a, b := Binom(n - 1, k - 1), Binom(n - 1, k);
      assert Binom(n, k) == a + b;
      assert a == Binom(n - 2, k - 2) + Binom(n - 2, k - 1);
      AbsorptionStep(n, k, a, b, Binom(n - 2, k - 2), Binom(n - 2, k - 1));
    }
  }

  /** The ring arithmetic of the inductive step of BinomAbsorption. */
  lemma AbsorptionStep(n: int, k: int, a: int, b: int, c: int, d: int)
    requires a == c + d && k * b == (n - 1) * d && (k - 1) * a == (n - 1) * c
    ensures k * (a + b) == n * a
  {
    calc {
      k * (a + b);
      (k - 1) * a + a + k * b;
      (n - 1) * c + a + (n - 1) * d;
      (n - 1) * (c + d) + a;
      n * a;
    }
  }

  /** A prime p divides C(p, k) for 0 < k < p. */
  lemma PrimeDividesBinom(p: nat, k: nat)
    requires IsPrime(p) && 0 < k < p
    ensures Divides(p, Binom(p, k))
  {
    BinomAbsorption(p, k);
    MultipleDivides(p, Binom(p - 1, k - 1));
    EuclidLemma(p, k, Binom(p, k));
    if Divides(p, k) {
      DivModUnique(k, p, 0, k);
    }
  }

  /** The partial binomial sum C(n,0) + C(n,1)*x + ... + C(n,m)*x^m. */
  function BinomSum(n: nat, x: int, m: nat): int
  {
    if m == 0 then 1 else BinomSum(n, x, m - 1) + Binom(n, m) * Pow(x, m)
  }

  lemma {:induction false} BinomSumPascal(n: nat, x: int, m: nat)
    requires m >= 1
    ensures BinomSum(n + 1, x, m) == BinomSum(n, x, m) + x * BinomSum(n, x, m - 1)
  {
    if m == 1 {
      assert Pow(x, 1) == x;
    } else {
      BinomSumPascal(n, x, m - 1);
      var s1, s2 := BinomSum(n, x, m - 1), BinomSum(n, x, m - 2);
      var c1, c2 := Binom(n, m - 1), Binom(n, m);
      var xm1 := Pow(x, m - 1);
      assert Pow(x, m) == x * xm1;
      assert BinomSum(n + 1, x, m - 1) == s1 + x * s2;
      assert Binom(n + 1, m) == c1 + c2;
      assert s1 == s2 + c1 * xm1;
      PascalStep(x, s1, s2, c1, c2, xm1);
    }
  }

  /** The ring arithmetic of the inductive step of BinomSumPascal. */
  lemma PascalStep(x: int, s1: int, s2: int, c1: int, c2: int, xm1: int)
    requires s1 == s2 + c1 * xm1
    ensures s1 + x * s2 + (c1 + c2) * (x * xm1) == s1 + c2 * (x * xm1) + x * s1
  {
  }

  /** The binomial theorem for (x + 1)^n. */
  lemma {:induction false} BinomialTheorem(n: nat, x: int)
    ensures Pow(x + 1, n) == BinomSum(n, x, n)
  {
    if n > 0 {
      BinomialTheorem(n - 1, x);
      var below := BinomSum(n - 1, x, n - 1);
      assert BinomSum(n - 1, x, n) == below by { BinomAbove(n - 1, n); }
      assert BinomSum(n, x, n) == below + x * below by { BinomSumPascal(n - 1, x, n); }
      assert below + x * below == (x + 1) * below;
    }
  }

  /** Every middle term of the binomial sum for a prime exponent is a multiple of p. */
  lemma {:induction false} BinomSumPrimeMiddle(p: nat, x: int, m: nat) returns (t: int)
    requires IsPrime(p) && m < p
    ensures BinomSum(p, x, m) == 1 + p * t
  {
    if m == 0 {
      t := 0;
    } else {
      var t' := BinomSumPrimeMiddle(p, x, m - 1);
      PrimeDividesBinom(p, m);
      var c := Binom(p, m) / p;
      assert Binom(p, m) == p * c;
      var w := Pow(x, m);
      assert BinomSum(p, x, m) == (1 + p * t') + (p * c) * w;
      t := t' + c * w;
      assert (1 + p * t') + (p * c) * w == 1 + p * t by { Distribute(p, t', c, w); }
    }
  }

  lemma Distribute(p: int, t: int, c: int, w: int)
    ensures (1 + p * t) + (p * c) * w == 1 + p * (t + c * w)
  {
  }

  /** The freshman's dream modulo a prime: (x + 1)^p == x^p + 1 + a multiple of p. */
  lemma FreshmansDream(p: nat, x: int) returns (t: int)
    requires IsPrime(p)
    ensures Pow(x + 1, p) == Pow(x, p) + 1 + p * t
  {
    BinomialTheorem(p, x);
    t := BinomSumPrimeMiddle(p, x, p - 1);
    BinomDiagonal(p);
  }

  /** Fermat's little theorem, in the form x^p == x + a multiple of p. */
  lemma {:induction false} Fermat(p: nat, x: nat) returns (t: int)
    requires IsPrime(p)
    ensures Pow(x, p) == x + p * t
  {
    if x == 0 {
      assert Pow(0, p) == 0 * Pow(0, p - 1);
      t := 0;
    } else {
      var t1 := Fermat(p, x - 1);
      var t2 := FreshmansDream(p, x - 1);
      t := t1 + t2;
    }
  }

  /** x^(1 + j*(p-1)) == x + a multiple of p, for every prime p. */
  lemma {:induction false} FermatRepeated(p: nat, x: nat, j: nat) returns (t: int)
    requires IsPrime(p)
    ensures Pow(x, 1 + j * (p - 1)) == x + p * t
  {
    if j == 0 {
      assert Pow(x, 1) == x * Pow(x, 0);
      t := 0;
    } else {
      var t1 := FermatRepeated(p, x, j - 1);
      var t2 := Fermat(p, x);
      var a := 1 + (j - 1) * (p - 1);
      assert 1 + j * (p - 1) == a + (p - 1);
      PowAdd(x, a, p - 1);
      var e := Pow(x, p - 1);
      assert Pow(x, p) == x * e;
      assert Pow(x, a) == x + p * t1;
      assert Pow(x, a + (p - 1)) == (x + p * t1) * e;
      FermatStep(x, p, e, t1, t2);
      t := t2 + t1 * Pow(x, p - 1);
    }
  }

  /** The ring arithmetic of the inductive step of FermatRepeated. */
  lemma FermatStep(x: int, p: int, e: int, t1: int, t2: int)
    requires x * e == x + p * t2
    ensures (x + p * t1) * e == x + p * (t2 + t1 * e)
  {
  }
}
