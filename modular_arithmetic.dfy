/** The number theory of rsa.py: the extended Euclidean algorithm, the
    modular inverse built on it, the gcd test of key generation and the
    modular exponentiation that Python's three-argument pow performs. */
module ModularArithmetic {
  import opened Arith
  import opened Wrappers

  /** Why a modular inverse could not be produced: the operands are not
      coprime (the ValueError of mod_inverse), or the modulus is zero (the
      ZeroDivisionError of the final x % phi). */
  datatype ArithError = NotInvertible | ZeroModulus

  /** Extended Euclid, recursing on (b mod a, a) until a is zero, then
      back-substituting. The result (g, x, y) holds the gcd g of a and b and
      Bezout coefficients with a*x + b*y == g. */
  function ExtendedGcd(a: nat, b: nat): (r: (nat, int, int))
    ensures a * r.1 + b * r.2 == r.0
    ensures Divides(r.0, a) && Divides(r.0, b)
    ensures a == 0 ==> r == (b, 0, 1)
    decreases a
  {
    if a == 0 then (b, 0, 1)
    else
      var (g, x1, y1) := ExtendedGcd(b % a, a);
      BezoutStep(a, b, g, x1, y1);
      (g, y1 - (b / a) * x1, x1)
  }

  /** The back-substitution keeps the Bezout identity and the common divisor. */
  lemma BezoutStep(a: nat, b: nat, g: nat, x1: int, y1: int)
    requires a > 0
    requires (b % a) * x1 + a * y1 == g
    requires Divides(g, b % a) && Divides(g, a)
    ensures a * (y1 - (b / a) * x1) + b * x1 == g
    ensures Divides(g, b)
  {
    var q, r := b / a, b % a;
    assert b == a * q + r;
    assert b * x1 == a * q * x1 + r * x1;
    DividesLinear(g, a, r, q, 1);
  }

  /** Every common divisor of a and b divides the g of ExtendedGcd, so g is
      the greatest common divisor. */
  lemma ExtendedGcdGreatest(a: nat, b: nat, c: nat)
    requires Divides(c, a) && Divides(c, b)
    ensures Divides(c, ExtendedGcd(a, b).0)
    ensures ExtendedGcd(a, b).0 > 0 ==> c <= ExtendedGcd(a, b).0
  {
    var (g, x, y) := ExtendedGcd(a, b);
    DividesLinear(c, a, b, x, y);
    if g > 0 {
      DivisorBound(c, g);
    }
  }

  /** Euclid's remainder algorithm for the gcd, the contract of math.gcd,
      used as an independent reference for ExtendedGcd. */
  function Gcd(a: nat, b: nat): (g: nat)
    ensures Divides(g, a) && Divides(g, b)
    decreases b
  {
    if b == 0 then a
    else
      var g := Gcd(b, a % b);
      RemainderStep(a, b, g);
      g
  }

  /** A common divisor of b and a mod b also divides a. */
  lemma RemainderStep(a: nat, b: nat, g: nat)
    requires b > 0 && Divides(g, b) && Divides(g, a % b)
    ensures Divides(g, a)
  {
    DividesLinear(g, b, a % b, a / b, 1);
    assert b * (a / b) + (a % b) * 1 == a;
  }

  lemma {:induction false} GcdGreatest(a: nat, b: nat, c: nat)
    requires Divides(c, a) && Divides(c, b)
    ensures Divides(c, Gcd(a, b))
    decreases b
  {
    if b > 0 {
      DividesLinear(c, a, b, 1, -(a / b));
      assert a * 1 + b * -(a / b) == a % b;
      GcdGreatest(b, a % b, c);
    }
  }

  /** math.gcd and the g of extended_gcd are the same number. */
  lemma GcdAgrees(a: nat, b: nat)
    ensures Gcd(a, b) == ExtendedGcd(a, b).0
  {
    var g := ExtendedGcd(a, b).0;
    ExtendedGcdGreatest(a, b, Gcd(a, b));
    GcdGreatest(a, b, g);
    DividesAntisymmetric(g, Gcd(a, b));
  }

  /** Gauss's lemma: if n divides a*k and a is coprime to n, n divides k. */
  lemma CoprimeDivides(n: nat, a: nat, k: int)
    requires ExtendedGcd(a, n).0 == 1
    requires Divides(n, a * k)
    ensures Divides(n, k)
  {
    var (_, x, y) := ExtendedGcd(a, n);
    BezoutScale(a, n, x, y, k);
    DividesIntro(n, n, 1);
    DividesLinear(n, a * k, n, x, k * y);
  }

  lemma BezoutScale(a: int, n: int, x: int, y: int, k: int)
    requires a * x + n * y == 1
    ensures k == (a * k) * x + n * (k * y)
  {
    assert k == k * (a * x + n * y);
  }

  /** Euclid's lemma: a prime dividing a product divides one of its factors. */
  lemma EuclidLemma(p: nat, a: nat, b: nat)
    requires IsPrime(p)
    requires Divides(p, a * b)
    ensures Divides(p, a) || Divides(p, b)
  {
    if !Divides(p, a) {
      var g := ExtendedGcd(a, p).0;
      DivisorBound(g, p);
      assert g == 1;
      CoprimeDivides(p, a, b);
    }
  }

  /** mod_inverse: the inverse of e modulo phi, reduced into [0, phi). */
  function ModInverse(e: nat, phi: nat): (r: Result<nat, ArithError>)
    ensures r.Err? <==> Gcd(e, phi) != 1 || phi == 0
    ensures r == Err(NotInvertible) <==> Gcd(e, phi) != 1
    ensures r.Ok? ==> r.value < phi && (e * r.value) % phi == 1 % phi
  {
    var (g, x, y) := ExtendedGcd(e, phi);
    GcdAgrees(e, phi);
    if g != 1 then Err(NotInvertible)
    else if phi == 0 then Err(ZeroModulus)
    else
      InverseResidue(e, phi, x, y);
      Ok(x % phi)
  }

  lemma InverseResidue(e: nat, phi: nat, x: int, y: int)
    requires phi > 0 && e * x + phi * y == 1
    ensures (e * (x % phi)) % phi == 1 % phi
  {
    var q := x / phi;
    assert x == phi * q + x % phi;
    assert e * (x % phi) == e * x - phi * (e * q);
    assert e * (x % phi) == phi * (-y - e * q) + 1;
    DividesIntro(phi, phi * (-y - e * q), -y - e * q);
    ModOfMultiplePlus(phi, phi * (-y - e * q), 1);
  }

  /** The inverse is unique in [0, phi): any other such d is the one returned. */
  lemma ModInverseUnique(e: nat, phi: nat, d: nat)
    requires ModInverse(e, phi).Ok?
    requires d < phi && (e * d) % phi == 1 % phi
    ensures ModInverse(e, phi).value == d
  {
    var d0 := ModInverse(e, phi).value;
    GcdAgrees(e, phi);
    SameResidueDivides(phi, e * d0, e * d);
    FactorDifference(e, d0, d);
    CoprimeDivides(phi, e, d0 - d);
    SmallMultipleIsZero(phi, d0 - d);
  }

  lemma FactorDifference(e: int, u: int, v: int)
    ensures e * u - e * v == e * (u - v)
  {
  }

  /** The only multiple of n strictly between -n and n is 0. */
  lemma SmallMultipleIsZero(n: nat, x: int)
    requires n > 0 && -(n as int) < x < n && Divides(n, x)
    ensures x == 0
  {
    DividesElim(n, x);
    MulSmall(n, x / n);
  }

  /** Two numbers with the same residue modulo n differ by a multiple of n. */
  lemma SameResidueDivides(n: nat, u: nat, v: nat)
    requires n > 0 && u % n == v % n
    ensures Divides(n, u - v)
  {
    var qu, qv := u / n, v / n;
    assert u - v == n * (qu - qv);
    DividesIntro(n, u - v, qu - qv);
  }

  /** pow(b, e, m) by square-and-multiply; it equals b^e reduced modulo m. */
  function ModPow(b: nat, e: nat, m: nat): (r: nat)
    requires m > 0
    ensures r == Pow(b, e) % m
    decreases e
  {
    if e == 0 then 1 % m
    else if e % 2 == 0 then
      var h := ModPow(b, e / 2, m);
      ModMul(Pow(b, e / 2), Pow(b, e / 2), m);
      PowAdd(b, e / 2, e / 2);
      (h * h) % m
    else
      var t := ModPow(b, e - 1, m);
      ModMulLeft(b, Pow(b, e - 1), m);
      (b * t) % m
  }
}
