/** Why textbook RSA decrypts what it encrypts: Fermat's little theorem,
    proved from the binomial theorem, and its combination over the two
    distinct primes of the modulus. */
module Fermat {
  import opened Arith
  import opened ModularArithmetic

  /** The binomial coefficient, by Pascal's rule. */
  function Binom(n: nat, k: nat): nat
    decreases n
  {
    if k == 0 then 1
    else if n == 0 then 0
    else Binom(n - 1, k - 1) + Binom(n - 1, k)
  }

  lemma {:induction false} BinomAbove(n: nat, k: nat)
    requires k > n
    ensures Binom(n, k) == 0
    decreases n
  {
    if n > 0 {
      BinomAbove(n - 1, k - 1);
      BinomAbove(n - 1, k);
    }
  }

  lemma {:induction false} BinomDiagonal(n: nat)
    ensures Binom(n, n) == 1
  {
    if n > 0 {
      BinomDiagonal(n - 1);
      BinomAbove(n - 1, n);
    }
  }

  lemma {:induction false} BinomOne(n: nat)
    ensures Binom(n, 1) == n
  {
    if n > 0 {
      BinomOne(n - 1);
    }
  }

  /** The absorption identity k * C(n, k) == n * C(n - 1, k - 1). */
  lemma {:induction false} Absorption(n: nat, k: nat)
    requires 1 <= k <= n
    ensures k * Binom(n, k) == n * Binom(n - 1, k - 1)
    decreases n
  {
    if k == 1 {
      BinomOne(n);
    } else {
      // C(n, k) == C(n-1, k-1) + C(n-1, k) and C(n-1, k-1) == C(n-2, k-2) + C(n-2, k-1)
      var a, b := Binom(n - 1, k - 1), Binom(n - 1, k);
      var c, d := Binom(n - 2, k - 2), Binom(n - 2, k - 1);
      assert a == c + d;
      Absorption(n - 1, k - 1);
      assert (k - 1) * a == (n - 1) * c;
      if k <= n - 1 {
        Absorption(n - 1, k);
      } else {
        BinomAbove(n - 1, k);
        BinomAbove(n - 2, k - 1);
      }
      assert k * b == (n - 1) * d;
      AbsorptionAlgebra(n, k, a, b, c, d);
    }
  }

  lemma AbsorptionAlgebra(n: int, k: int, a: int, b: int, c: int, d: int)
    requires a == c + d && (k - 1) * a == (n - 1) * c && k * b == (n - 1) * d
    ensures k * (a + b) == n * a
  {
  }

  /** A prime p divides every C(p, k) with 0 < k < p. */
  lemma PrimeDividesBinom(p: nat, k: nat)
    requires IsPrime(p) && 1 <= k < p
    ensures Divides(p, Binom(p, k))
  {
    Absorption(p, k);
    DividesIntro(p, k * Binom(p, k), Binom(p - 1, k - 1));
    EuclidLemma(p, k, Binom(p, k));
    assert !Divides(p, k) by {
      ModUnique(p, k, 0, k);
    }
  }

  /** The sum of C(n, i) * x^i for i from 0 to j. */
  function BinomSum(n: nat, x: nat, j: nat): nat
    decreases j
  {
    if j == 0 then 1 else BinomSum(n, x, j - 1) + Binom(n, j) * Pow(x, j)
  }

  /** Pascal's rule lifted to the partial sums. */
  lemma {:induction false} BinomSumPascal(n: nat, x: nat, j: nat)
    requires j >= 1
    ensures BinomSum(n + 1, x, j) == BinomSum(n, x, j) + x * BinomSum(n, x, j - 1)
    decreases j
  {
    if j == 1 {
      BinomOne(n + 1);
      BinomOne(n);
    } else {
      BinomSumPascal(n, x, j - 1);
      assert Binom(n + 1, j) == Binom(n, j - 1) + Binom(n, j);
      assert Pow(x, j) == x * Pow(x, j - 1);
      PascalAlgebra(x, BinomSum(n, x, j - 1), BinomSum(n, x, j - 2),
        Binom(n, j), Binom(n, j - 1), Pow(x, j), Pow(x, j - 1));
    }
  }

  lemma PascalAlgebra(x: int, a: int, b: int, cj: int, cj1: int, pj: int, pj1: int)
    requires pj == x * pj1
    ensures (a + x * b) + (cj1 + cj) * pj == (a + cj * pj) + x * (b + cj1 * pj1)
  {
  }

  /** The binomial theorem for (x + 1)^n. */
  lemma {:induction false} BinomialTheorem(n: nat, x: nat)
    ensures Pow(x + 1, n) == BinomSum(n, x, n)
  {
    if n > 0 {
      var m := n - 1;
      BinomialTheorem(m, x);
      BinomSumPascal(m, x, n);
      BinomAbove(m, n);
      var sum := BinomSum(m, x, m);
      assert BinomSum(m, x, n) == sum;
      assert Pow(x + 1, n) == (x + 1) * Pow(x + 1, m);
      SuccessorTimes(x, sum);
    }
  }

  lemma SuccessorTimes(x: int, s: int)
    ensures (x + 1) * s == s + x * s
  {
  }

  /** For a prime p, the middle terms of (x + 1)^p are all multiples of p. */
  lemma {:induction false} MiddleTermsDivisible(p: nat, x: nat, j: nat)
    requires IsPrime(p) && j < p
    ensures Divides(p, BinomSum(p, x, j) - 1)
    decreases j
  {
    if j > 0 {
      MiddleTermsDivisible(p, x, j - 1);
      PrimeDividesBinom(p, j);
      DividesMul(p, Binom(p, j), Pow(x, j));
      DividesAdd(p, BinomSum(p, x, j - 1) - 1, Binom(p, j) * Pow(x, j));
    }
  }

  /** The freshman's dream: (x + 1)^p == x^p + 1 modulo a prime p. */
  lemma Frobenius(p: nat, x: nat)
    requires IsPrime(p)
    ensures Divides(p, Pow(x + 1, p) - Pow(x, p) - 1)
  {
    BinomialTheorem(p, x);
    BinomDiagonal(p);
    MiddleTermsDivisible(p, x, p - 1);
  }

  /** Fermat's little theorem: x^p == x modulo a prime p, for every x. */
  lemma {:induction false} FermatLittle(p: nat, x: nat)
    requires IsPrime(p)
    ensures Divides(p, Pow(x, p) - x)
    decreases x
  {
    if x == 0 {
      assert Pow(0, p) == 0 * Pow(0, p - 1);
      DividesIntro(p, 0, 0);
    } else {
      FermatLittle(p, x - 1);
      Frobenius(p, x - 1);
      DividesAdd(p, Pow(x, p) - Pow(x - 1, p) - 1, Pow(x - 1, p) - (x - 1));
    }
  }

  /** m^(1 + j(p-1)) == m modulo a prime p, for every m, including multiples of p. */
  lemma {:induction false} FermatPower(p: nat, m: nat, j: nat)
    requires IsPrime(p)
    ensures Divides(p, Pow(m, 1 + j * (p - 1)) - m)
    decreases j
  {
    if j == 0 {
      assert Pow(m, 1) == m * Pow(m, 0);
      DividesIntro(p, 0, 0);
    } else {
      var k := (j - 1) * (p - 1);
      FermatPower(p, m, j - 1);
      FermatLittle(p, m);
      ExponentStep(j, p);
      PowAdd(m, k, p);
      PowAdd(m, k, 1);
      assert Pow(m, 1) == m * Pow(m, 0);
      FermatStep(p, Pow(m, k), Pow(m, p), m);
    }
  }

  lemma ExponentStep(j: nat, p: nat)
    requires j > 0 && p > 0
    ensures 1 + j * (p - 1) == (j - 1) * (p - 1) + p
    ensures 1 + (j - 1) * (p - 1) == (j - 1) * (p - 1) + 1
  {
  }

  /** If p divides a*m - m and b - m, it divides a*b - m, since
      a*b - m == a*(b - m) + (a*m - m). */
  lemma FermatStep(p: nat, a: int, b: int, m: int)
    requires Divides(p, a * m - m) && Divides(p, b - m)
    ensures Divides(p, a * b - m)
  {
    DividesMul(p, b - m, a);
    assert (b - m) * a + (a * m - m) == a * b - m;
    DividesAdd(p, (b - m) * a, a * m - m);
  }

  /** Two distinct primes that both divide x make their product divide x. */
  lemma DistinctPrimesDivide(p: nat, q: nat, x: nat)
    requires IsPrime(p) && IsPrime(q) && p != q
    requires Divides(p, x) && Divides(q, x)
    ensures Divides(p * q, x)
  {
    var t := x / p;
    DividesElim(p, x);
    DistinctPrimeNotDivides(p, q);
    EuclidLemma(q, p, t);
    DividesElim(q, t);
    var u := t / q;
    Reassociate(x, p, q, t, u);
    DividesIntro(p * q, x, u);
  }

  /** A prime does not divide another prime. */
  lemma DistinctPrimeNotDivides(p: nat, q: nat)
    requires IsPrime(p) && IsPrime(q) && p != q
    ensures !Divides(q, p)
  {
    if p < q {
      ModUnique(q, p, 0, p);
    }
  }

  lemma Reassociate(x: int, p: int, q: int, t: int, u: int)
    requires x == p * t && t == q * u
    ensures x == (p * q) * u
  {
  }

  /** The identity behind RSA: for n == p*q with distinct primes and m < n,
      m^(1 + k(p-1)(q-1)) mod n == m. */
  lemma RsaIdentity(p: nat, q: nat, m: nat, k: nat)
    requires IsPrime(p) && IsPrime(q) && p != q
    requires m < p * q
    ensures Pow(m, 1 + k * ((p - 1) * (q - 1))) % (p * q) == m
  {
    ModulusPositive(p, q);
    var x := 1 + k * ((p - 1) * (q - 1));
    var jp, jq := k * (q - 1), k * (p - 1);
    Regroup(k, p - 1, q - 1);
    assert x == 1 + jp * (p - 1) && x == 1 + jq * (q - 1);
    FermatPower(p, m, jp);
    FermatPower(q, m, jq);
    PowAtLeastBase(m, x);
    var y := Pow(m, x) - m;
    DistinctPrimesDivide(p, q, y);
    ModOfMultiplePlus(p * q, y, m);
    ModUnique(p * q, m, 0, m);
  }

  lemma Regroup(k: int, a: int, b: int)
    ensures k * (a * b) == (k * b) * a && k * (a * b) == (k * a) * b
  {
  }

  /** Textbook RSA correctness: with e*d == 1 modulo (p-1)(q-1), decrypting
      the encryption of any m < p*q gives m back. */
  lemma RsaCorrect(p: nat, q: nat, e: nat, d: nat, m: nat)
    requires IsPrime(p) && IsPrime(q) && p != q
    requires (e * d) % ((p - 1) * (q - 1)) == 1
    requires m < p * q
    ensures ModPow(ModPow(m, e, p * q), d, p * q) == m
  {
    ModulusPositive(p, q);
    var phi := (p - 1) * (q - 1);
    var k := (e * d) / phi;
    ModOneSplit(e * d, phi);
    PowChain(m, e, d, p * q, k, phi);
    RsaIdentity(p, q, m, k);
  }

  /** Both moduli of a key built from primes are positive. */
  lemma ModulusPositive(p: nat, q: nat)
    requires p >= 2 && q >= 2
    ensures p * q > 0 && (p - 1) * (q - 1) > 0
  {
    MulAtLeast(p, q);
    MulAtLeast(p - 1, q - 1);
  }

  /** Encrypting with e then decrypting with d raises m to the power e*d. */
  lemma PowChain(m: nat, e: nat, d: nat, n: nat, k: nat, phi: nat)
    requires n > 0 && e * d == 1 + k * phi
    ensures ModPow(ModPow(m, e, n), d, n) == Pow(m, 1 + k * phi) % n
  {
    PowModBase(Pow(m, e), d, n);
    PowMul(m, e, d);
  }

  lemma ModOneSplit(a: nat, n: nat)
    requires n > 0 && a % n == 1
    ensures a == 1 + (a / n) * n
  {
  }
}
