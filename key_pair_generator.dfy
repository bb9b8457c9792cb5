/** The arithmetic of KeyGeneration: from two distinct primes, the modulus,
    the fixed public exponent and the private exponent. Drawing the primes
    is not modelled; they are the inputs. */
module KeyPairGenerator {
  import opened Arith
  import opened Wrappers
  import opened ModularArithmetic

  /** The public exponent every generated key uses. */
  const PublicExponent: nat := 65537

  /** An RSA key: the modulus n, the public exponent e, the private exponent d. */
  datatype KeyPair = KeyPair(n: nat, e: nat, d: nat)

  /** Why KeyGeneration could not produce a key: e is not coprime to the
      totient (the ValueError of its gcd test), or mod_inverse failed. */
  datatype KeyError = InvalidExponent | InverseFailed(cause: ArithError)

  /** The invariant of an RSA key: n is the product of the two distinct
      primes p and q (so positive, a usable modulus), and e*d == 1 modulo
      (p-1)(q-1). */
  ghost predicate ValidKey(k: KeyPair, p: nat, q: nat) {
    && IsPrime(p) && IsPrime(q) && p != q
    && k.n == p * q && k.n > 0
    && (k.e * k.d) % ((p - 1) * (q - 1)) == 1
  }

  /** The totient of two distinct primes is at least 2. */
  lemma TotientAtLeastTwo(p: nat, q: nat)
    requires IsPrime(p) && IsPrime(q) && p != q
    ensures (p - 1) * (q - 1) >= 2
  {
    if p == 2 {
      assert q >= 3;
    } else {
      assert p - 1 >= 2;
      MulAtLeast(p - 1, q - 1);
    }
  }

  /** KeyGeneration after its two primes are drawn: n = p*q, phi = (p-1)(q-1),
      e = 65537; rejects when gcd(e, phi) != 1, otherwise d = mod_inverse(e, phi). */
  function KeyGeneration(p: nat, q: nat): (r: Result<KeyPair, KeyError>)
    requires IsPrime(p) && IsPrime(q) && p != q
    ensures r.Ok? <==> Gcd(PublicExponent, (p - 1) * (q - 1)) == 1
    ensures r.Err? ==> r == Err(InvalidExponent)
    ensures r.Ok? ==> ValidKey(r.value, p, q)
    ensures r.Ok? ==> r.value.e == PublicExponent && r.value.d < (p - 1) * (q - 1)
  {
    var n := p * q;
    var phi := (p - 1) * (q - 1);
    var e := PublicExponent;
    TotientAtLeastTwo(p, q);
    if Gcd(e, phi) != 1 then Err(InvalidExponent)
    else
      match ModInverse(e, phi)
      case Ok(d) =>
        ModUnique(phi, 1, 0, 1);
        Ok(KeyPair(n, e, d))
      case Err(cause) => Err(InverseFailed(cause))
  }

  /** The d of a generated key is the only inverse of e in [0, phi). */
  lemma PrivateExponentUnique(p: nat, q: nat, d: nat)
    requires IsPrime(p) && IsPrime(q) && p != q
    requires KeyGeneration(p, q).Ok?
    requires d < (p - 1) * (q - 1) && (PublicExponent * d) % ((p - 1) * (q - 1)) == 1
    ensures KeyGeneration(p, q).value.d == d
  {
    var phi := (p - 1) * (q - 1);
    TotientAtLeastTwo(p, q);
    ModInverseUnique(PublicExponent, phi, d);
  }

  /** When 65537 divides the totient, KeyGeneration rejects the primes. */
  lemma RejectsWhenExponentDividesTotient(p: nat, q: nat)
    requires IsPrime(p) && IsPrime(q) && p != q
    requires Divides(PublicExponent, (p - 1) * (q - 1))
    ensures KeyGeneration(p, q) == Err(InvalidExponent)
  {
    var phi := (p - 1) * (q - 1);
    DividesIntro(PublicExponent, PublicExponent, 1);
    GcdGreatest(PublicExponent, phi, PublicExponent);
    assert !Divides(PublicExponent, 1);
  }
}
