/** SignMessage and VerifySignature: raw RSA signatures over the digest of a
    text. The digest, SHA-256 read as a big-endian integer in the source, is
    the parameter hash. */
module Signer {
  import opened Arith
  import opened ModularArithmetic
  import opened KeyPairGenerator
  import Cipher

  /** SignMessage: pow(hash(message), d, n). */
  function SignMessage(message: string, d: nat, n: nat, hash: string -> nat): (signature: nat)
    requires n > 0
    ensures signature < n
    ensures signature == Pow(hash(message), d) % n
  {
    ModPow(hash(message), d, n)
  }

  /** The decision of VerifySignature: does pow(signature, e, n) equal the
      digest of the message? */
  function VerifySignature(signature: nat, e: nat, n: nat, message: string, hash: string -> nat): (valid: bool)
    requires n > 0
    ensures valid <==> Pow(signature, e) % n == hash(message)
    ensures valid ==> hash(message) < n
  {
    ModPow(signature, e, n) == hash(message)
  }

  /** A genuine signature verifies exactly when the digest is below n. */
  lemma SignatureVerifies(key: KeyPair, p: nat, q: nat, message: string, hash: string -> nat)
    requires ValidKey(key, p, q)
    ensures VerifySignature(SignMessage(message, key.d, key.n, hash), key.e, key.n, message, hash)
        <==> hash(message) < key.n
  {
    if hash(message) < key.n {
      Cipher.ExponentsInverse(key, p, q, hash(message));
    }
  }

  /** The signature of one message verifies for another message exactly when
      their digests agree: altering the message (to a different digest) is
      detected. */
  lemma TamperedMessageRejected(key: KeyPair, p: nat, q: nat, signed: string, other: string,
                                hash: string -> nat)
    requires ValidKey(key, p, q)
    requires hash(signed) < key.n
    ensures VerifySignature(SignMessage(signed, key.d, key.n, hash), key.e, key.n, other, hash)
        <==> hash(other) == hash(signed)
  {
    Cipher.ExponentsInverse(key, p, q, hash(signed));
  }

  /** The only signature below n that verifies for a message is its own
      SignMessage: no other value can be passed off as a signature. */
  lemma SignatureUnique(key: KeyPair, p: nat, q: nat, message: string, signature: nat,
                        hash: string -> nat)
    requires ValidKey(key, p, q)
    requires signature < key.n
    requires VerifySignature(signature, key.e, key.n, message, hash)
    ensures signature == SignMessage(message, key.d, key.n, hash)
  {
    Cipher.ExponentsInverse(key, p, q, signature);
  }

  /** Signing with a key from KeyGeneration and verifying with its public half
      succeeds whenever the digest is below n. */
  lemma GeneratedKeySignatureVerifies(p: nat, q: nat, message: string, hash: string -> nat)
    requires IsPrime(p) && IsPrime(q) && p != q
    requires KeyGeneration(p, q).Ok?
    requires hash(message) < p * q
    ensures var key := KeyGeneration(p, q).value;
            VerifySignature(SignMessage(message, key.d, key.n, hash), key.e, key.n, message, hash)
  {
    SignatureVerifies(KeyGeneration(p, q).value, p, q, message, hash);
  }
}
