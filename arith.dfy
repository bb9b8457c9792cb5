/** Natural-number powers, divisibility and primality, with the facts about
    them that the RSA proofs rely on. */
module Arith {

  /** b raised to the power e, over the unbounded naturals. */
  function Pow(b: nat, e: nat): nat
    decreases e
  {
    if e == 0 then 1 else b * Pow(b, e - 1)
  }

  /** d divides n; zero divides only zero. */
  predicate Divides(d: nat, n: int) {
    if d == 0 then n == 0 else n % d == 0
  }

  /** p is a prime: at least 2 and without a divisor strictly between 1 and p. */
  predicate IsPrime(p: nat) {
    p >= 2 && forall k: nat :: 2 <= k < p ==> !Divides(k, p)
  }

  // ---------------------------------------------------------------------
  // Divisibility

  lemma MulAtLeast(n: nat, k: int)
    requires k >= 1
    ensures n * k >= n
  {
  }

  /** The only multiple of n strictly between -n and n is zero. */
  lemma MulSmall(n: nat, k: int)
    requires n > 0 && -(n as int) < n * k < n
    ensures k == 0
  {
    if k > 0 {
      MulAtLeast(n, k);
    } else if k < 0 {
      MulAtLeast(n, -k);
    }
  }

  /** Euclidean division is determined by its quotient-remainder equation. */
  lemma ModUnique(n: nat, a: int, q: int, r: int)
    requires n > 0 && a == n * q + r && 0 <= r < n
    ensures a % n == r && a / n == q
  {
    var q', r' := a / n, a % n;
    assert n * (q - q') == r' - r;
    MulSmall(n, q - q');
  }

  lemma DividesIntro(d: nat, n: int, t: int)
    requires n == d * t
    ensures Divides(d, n)
  {
    if d > 0 {
      ModUnique(d, n, t, 0);
    }
  }

  lemma DividesElim(d: nat, n: int)
    requires d > 0 && Divides(d, n)
    ensures n == d * (n / d)
  {
  }

  lemma DividesLinear(d: nat, a: int, b: int, x: int, y: int)
    requires Divides(d, a) && Divides(d, b)
    ensures Divides(d, a * x + b * y)
  {
    if d > 0 {
      var s, t := a / d, b / d;
      DividesElim(d, a);
      DividesElim(d, b);
      assert a * x == d * (s * x);
      assert b * y == d * (t * y);
      DividesIntro(d, a * x + b * y, s * x + t * y);
    }
  }

  lemma DividesAdd(d: nat, a: int, b: int)
    requires Divides(d, a) && Divides(d, b)
    ensures Divides(d, a + b)
  {
    DividesLinear(d, a, b, 1, 1);
  }

  lemma DividesMul(d: nat, a: int, x: int)
    requires Divides(d, a)
    ensures Divides(d, a * x)
  {
    DividesLinear(d, a, 0, x, 0);
  }

  /** A positive number's divisors are positive and no larger than it. */
  lemma DivisorBound(d: nat, n: nat)
    requires Divides(d, n) && n > 0
    ensures 0 < d <= n
  {
  }

  /** Divisibility on the naturals is antisymmetric. */
  lemma DividesAntisymmetric(a: nat, b: nat)
    requires Divides(a, b) && Divides(b, a)
    ensures a == b
  {
    if a > 0 && b > 0 {
      DivisorBound(a, b);
      DivisorBound(b, a);
    }
  }

  /** Adding a multiple of n does not change a residue modulo n. */
  lemma ModOfMultiplePlus(n: nat, x: int, m: int)
    requires n > 0 && Divides(n, x)
    ensures (x + m) % n == m % n
  {
    DividesElim(n, x);
    var k := x / n;
    var q, r := m / n, m % n;
    assert x + m == n * (k + q) + r;
    ModUnique(n, x + m, k + q, r);
  }

  lemma ModMulLeft(a: nat, b: nat, n: nat)
    requires n > 0
    ensures (a * (b % n)) % n == (a * b) % n
  {
    var qb, rb := b / n, b % n;
    assert a * b == n * (a * qb) + a * rb;
    var q, r := (a * rb) / n, (a * rb) % n;
    assert a * b == n * (a * qb + q) + r;
    ModUnique(n, a * b, a * qb + q, r);
  }

  lemma ModMul(a: nat, b: nat, n: nat)
    requires n > 0
    ensures ((a % n) * (b % n)) % n == (a * b) % n
  {
    ModMulLeft(a % n, b, n);
    ModMulLeft(b, a, n);
    assert (a % n) * b == b * (a % n);
  }

  // ---------------------------------------------------------------------
  // Powers

  lemma {:induction false} PowAdd(b: nat, x: nat, y: nat)
    ensures Pow(b, x + y) == Pow(b, x) * Pow(b, y)
    decreases y
  {
    if y > 0 {
      PowAdd(b, x, y - 1);
      assert Pow(b, x + y) == b * Pow(b, x + (y - 1));
    }
  }

  lemma {:induction false} PowMul(b: nat, x: nat, y: nat)
    ensures Pow(b, x * y) == Pow(Pow(b, x), y)
    decreases y
  {
    if y > 0 {
      PowMul(b, x, y - 1);
      PeelFactor(x, y);
      PowAdd(b, x * (y - 1), x);
      assert Pow(b, x * y) == Pow(b, x * (y - 1)) * Pow(b, x);
    }
  }

  lemma PeelFactor(x: nat, y: nat)
    requires y > 0
    ensures x * y == x * (y - 1) + x
  {
  }

  lemma {:induction false} PowPositive(b: nat, e: nat)
    requires b > 0
    ensures Pow(b, e) > 0
    decreases e
  {
    if e > 0 {
      PowPositive(b, e - 1);
    }
  }

  lemma {:induction false} PowMonotone(b: nat, x: nat, y: nat)
    requires b > 0 && x <= y
    ensures Pow(b, x) <= Pow(b, y)
    decreases y
  {
    if x < y {
      PowMonotone(b, x, y - 1);
      assert Pow(b, y) == Pow(b, y - 1) * b;
      MulAtLeast(Pow(b, y - 1), b);
    }
  }

  /** A power with a positive exponent is at least its base. */
  lemma PowAtLeastBase(b: nat, e: nat)
    requires e > 0
    ensures Pow(b, e) >= b
  {
    if b > 0 {
      PowPositive(b, e - 1);
      assert Pow(b, e) == b * Pow(b, e - 1);
    }
  }

  /** Reducing the base modulo n first does not change a power modulo n. */
  lemma {:induction false} PowModBase(b: nat, e: nat, n: nat)
    requires n > 0
    ensures Pow(b % n, e) % n == Pow(b, e) % n
    decreases e
  {
    if e > 0 {
      PowModBase(b, e - 1, n);
      calc {
        Pow(b % n, e) % n;
        ((b % n) * Pow(b % n, e - 1)) % n;
        { ModMulLeft(b % n, Pow(b % n, e - 1), n); }
        ((b % n) * (Pow(b % n, e - 1) % n)) % n;
        ((b % n) * (Pow(b, e - 1) % n)) % n;
        { ModMul(b, Pow(b, e - 1), n); }
        (b * Pow(b, e - 1)) % n;
      }
    }
  }

  lemma {:induction false} PowTwoEight(j: nat)
    ensures Pow(2, 8 * j) == Pow(256, j)
  {
    PowMul(2, 8, j);
  }
}
