# Textbook RSA in Dafny

A model of `rsa.py`, a teaching implementation of textbook RSA, together with
proofs about it. The model covers the number theory: the recursive extended
Euclidean algorithm, the modular inverse on top of it, the `math.gcd` test and
Python's three-argument `pow`. It also covers the arithmetic of key generation
from two given primes, the text-to-integer codec, and the four protocol
operations: encrypt, decrypt, sign and verify.

The source is purely functional: nothing it models updates state, and its only
loop is the prime search, which is left out. So every operation is a Dafny
`function`, and the properties are `ensures` clauses and lemmas.

Modules, leaves first:

- `Wrappers` (`wrappers.dfy`): `Option` and `Result`, plain datatypes that
  stand for the source's exceptions.
- `Arith` (`arith.dfy`): `Pow`, `Divides` and `IsPrime`, with the facts about
  Euclidean division, divisibility and powers that the proofs use.
- `ModularArithmetic` (`modular_arithmetic.dfy`):
  - `ExtendedGcd` is `extended_gcd`.
  - `Gcd` is `math.gcd`, by Euclid's remainder algorithm.
  - `ModInverse` is `mod_inverse`.
  - `ModPow` is `pow(b, e, m)`, by square-and-multiply.
  - Gauss's lemma and Euclid's lemma are derived from the Bézout coefficients
    that `ExtendedGcd` returns.
- `Fermat` (`fermat.dfy`): the correctness of textbook RSA, proved in four
  steps: the binomial theorem, then `p | C(p, k)`, then Fermat's little
  theorem, then its combination over the two distinct primes of `n`.
- `KeyPairGenerator` (`key_pair_generator.dfy`): `KeyGeneration` after its two
  primes have been drawn.
- `Codec` (`codec.dfy`): `text_to_int` and `int_to_text`, modelled at the byte
  level.
- `Cipher` (`cipher.dfy`): `Encryption` and `Decryption`.
- `Signer` (`signer.dfy`): `SignMessage` and `VerifySignature`.

Modelling decisions:

- All numbers are naturals: Dafny's unbounded `nat` stands for Python's
  unbounded `int`. Every `%` and `//` in the source has non-negative operands
  here. On those, Python's floor division and Dafny's Euclidean division agree.
  The one exception is `x % phi` in `mod_inverse`, where `x` may be negative.
  For a positive `phi` both languages still give a result in `[0, phi)`.
- Bytes are `byte = b: int | 0 <= b < 256`.
- Inputs the model takes as parameters:
  - The two primes are inputs of `KeyGeneration`. The model says nothing about
    how they are drawn.
  - The SHA-256 digest is a parameter `hash: string -> nat`.
  - UTF-8 `str.encode()` is a parameter `encode: string -> seq<byte>`.
  - UTF-8 `bytes.decode()` is a parameter `decode: seq<byte> -> Option<string>`,
    where `None` stands for `UnicodeDecodeError`.
- `mod_inverse(e, 0)` with `e == 1` gets past the gcd test. It then fails in
  `x % 0` with a ZeroDivisionError. `ModInverse` returns `Err(ZeroModulus)`
  for this case.
- On success `ModInverse` promises `(e*d) % phi == 1 % phi`. The plain
  `== 1` fails for `phi == 1`, where the inverse is 0. Keys have
  `phi >= 2` (`TotientAtLeastTwo`), so `KeyGeneration` promises `== 1`.
- The source prints the result of `VerifySignature` and returns nothing. The
  model returns the decision as a `bool`.
- Where the design and the code disagree, the model follows the code:
  - On a decoding failure, `int_to_text` returns a fixed error string
    (`Codec.DecodeErrorText`), not a distinct error value. So a decryption
    whose plaintext is that very string cannot be told apart from a failure.
  - `extended_gcd` is recursive, not iterative, and the model keeps the
    recursion.
  - `KeyGeneration` asserts that `p != q`. It does not draw `q` again. The
    model makes this a precondition.
- The codec loses leading zero bytes. `int.from_bytes` ignores them
  (`LeadingZeroDropped`), and the minimal `to_bytes` never writes them. So a
  text whose UTF-8 encoding starts with a NUL byte does not survive the round
  trip. The round-trip lemmas require `NoLeadingZero`, and `RecoveredBytes`
  proves that the bytes come back exactly when the encoding has no leading
  zero byte and its integer is below `n`.

## Model

| member | source | states |
|---|---|---|
| `ModularArithmetic.ExtendedGcd` | rsa.py:30-37 | returns `(g, x, y)` with `a*x + b*y == g` and `g` dividing both `a` and `b`; the base case `a == 0` gives `(b, 0, 1)`; the recursion on `(b % a, a)` terminates |
| `ModularArithmetic.ExtendedGcdGreatest` | rsa.py:30-37 | every common divisor of `a` and `b` divides `g` and is at most `g`, so `g` is the gcd |
| `ModularArithmetic.Gcd` | rsa.py:62 | `math.gcd(a, b)` divides both `a` and `b` |
| `ModularArithmetic.GcdGreatest` | rsa.py:62 | every common divisor of `a` and `b` divides `math.gcd(a, b)` |
| `ModularArithmetic.GcdAgrees` | rsa.py:62 | `math.gcd(a, b)` equals the `g` of `extended_gcd(a, b)`, so the two gcd tests of the source agree |
| `ModularArithmetic.ModInverse` | rsa.py:40-45 | fails exactly when `gcd(e, phi) != 1` (`NotInvertible`) or `phi == 0` (`ZeroModulus`); on success `0 <= d < phi` and `(e*d) % phi == 1 % phi` |
| `ModularArithmetic.ModInverseUnique` | rsa.py:40-45 | any `d' < phi` with `(e*d') % phi == 1 % phi` is the value `mod_inverse` returns |
| `ModularArithmetic.ModPow` | rsa.py:92 | square-and-multiply `pow(b, e, m)` equals `b^e mod m`, so it lies in `[0, m)` |
| `KeyPairGenerator.TotientAtLeastTwo` | rsa.py:54-60 | for distinct primes, `phi = (p-1)(q-1) >= 2` |
| `KeyPairGenerator.KeyGeneration` | rsa.py:53-65 | accepts exactly when `gcd(65537, phi) == 1`, and otherwise rejects with `InvalidExponent` (the inverse step never fails); on success `n == p*q`, `e == 65537`, `d < phi` and `(e*d) % phi == 1`, so the key is valid |
| `KeyPairGenerator.PrivateExponentUnique` | rsa.py:65 | the generated `d` is the only inverse of 65537 in `[0, phi)` |
| `KeyPairGenerator.RejectsWhenExponentDividesTotient` | rsa.py:62-63 | when 65537 divides `phi`, key generation rejects the primes |
| `Fermat.RsaCorrect` | rsa.py:92-100 | for distinct primes `p, q`, `e*d == 1 (mod (p-1)(q-1))` and `m < p*q`: `pow(pow(m, e, n), d, n) == m` |
| `Codec.FromBytes` | rsa.py:77 | `int.from_bytes(s, 'big')` is below `256^len(s)` |
| `Codec.LeadingZeroDropped` | rsa.py:77 | a leading zero byte does not change the integer |
| `Codec.BitLength` | rsa.py:83 | `int.bit_length()`: `k < 2^r`; for `k > 0`, `2^(r-1) <= k`; and `bit_length(0) == 0` |
| `Codec.ToBytes` | rsa.py:83 | `k.to_bytes(len, 'big')` for `k < 256^len` has length `len` and reads back as `k` |
| `Codec.MinimalLength` | rsa.py:83 | `(bit_length + 7) // 8` bytes hold `k`, and for `k > 0` one byte fewer does not |
| `Codec.IntToBytes` | rsa.py:83 | the minimal big-endian bytes of `k` have length `(bit_length(k) + 7) // 8`, read back as `k` and have no leading zero byte; they are empty exactly when `k == 0` |
| `Codec.FromBytesRoundTrip` | rsa.py:77-83 | a byte string without a leading zero byte survives from-bytes then minimal to-bytes unchanged |
| `Codec.TextToInt` | rsa.py:75-77 | the integer of a text is below `256^len(bytes)`, and its minimal bytes equal the text's bytes exactly when those have no leading zero byte |
| `Codec.MinimalBytesUnique` | rsa.py:83 | the minimal bytes of `k` are the only byte string without a leading zero byte that reads back, through `int.from_bytes`, as `k` |
| `Codec.IntToText` | rsa.py:80-85 | for every byte string `b` without a leading zero byte that `int.from_bytes` reads as `k`, the result is the decoding of `b`, or the error text when `b` does not decode |
| `Codec.TextRoundTrip` | rsa.py:75-85 | a text that decodes back from its UTF-8 encoding, where that encoding has no leading zero byte, survives `text_to_int` then `int_to_text` |
| `Cipher.Encryption` | rsa.py:89-94 | the ciphertext is `text_to_int(message)^e mod n`, which lies in `[0, n)` |
| `Cipher.Decryption` | rsa.py:98-101 | the result decodes the minimal bytes of `c^d mod n`, or is the error text when those bytes do not decode |
| `Cipher.ExponentsInverse` | rsa.py:89-101 | for a valid key, encrypting then decrypting, and decrypting then encrypting, both give back every `m < n` |
| `Cipher.RecoveredBytes` | rsa.py:89-101 | decryption recovers exactly the message's bytes if and only if its integer is below `n` and its bytes have no leading zero |
| `Cipher.DecryptionRecoversMessage` | rsa.py:89-101 | `Decryption(Encryption(m))` returns the text `m` for a valid key, when `text_to_int(m) < n` and its encoding decodes back to it without a leading zero byte |
| `Cipher.GeneratedKeyRoundTrip` | rsa.py:143-152 | the same for the key that `KeyGeneration` derives from `p` and `q` |
| `Cipher.TamperedCiphertextRecoversOtherBytes` | rsa.py:98-101 | a ciphertext that differs from the genuine one modulo `n` never decrypts to the message's bytes |
| `Signer.SignMessage` | rsa.py:119-124 | the signature is `hash(message)^d mod n`, which lies in `[0, n)` |
| `Signer.VerifySignature` | rsa.py:128-136 | accepts exactly when `signature^e mod n` equals the digest, which needs the digest to be below `n` |
| `Signer.SignatureVerifies` | rsa.py:119-133 | for a valid key a genuine signature verifies if and only if the digest is below `n` |
| `Signer.TamperedMessageRejected` | rsa.py:155-161 | the signature of one message verifies for another message exactly when the two digests are equal |
| `Signer.SignatureUnique` | rsa.py:128-133 | the only value below `n` that verifies for a message is that message's own signature |
| `Signer.GeneratedKeySignatureVerifies` | rsa.py:143-158 | signing with a generated key and verifying with its public half succeeds whenever the digest is below `n` |

## Left out

- `generate_large_prime` (rsa.py:21-26) is not modelled. It makes unbounded
  random draws tested by a primality oracle. The primes are inputs instead,
  under an `IsPrime` precondition.
- The `assert isprime(p)`, `assert isprime(q)` and `assert p != q` checks
  (rsa.py:58-60) are preconditions of `KeyGeneration`.
- The internals of `hash_message` (SHA-256 through `hashlib`, rsa.py:115) are
  a foreign call. The digest is the parameter `hash`, and nothing bounds it
  to 256 bits.
- The UTF-8 `str.encode()` and `bytes.decode()` are foreign calls. They are
  the parameters `encode` and `decode`.
- Every `print`, the comparison-and-print step of `Decryption`
  (rsa.py:103-108) and `main` (rsa.py:140-165) are left out. They only present
  results. `Decryption` uses its `original_message` argument only in that
  comparison, so the model drops the parameter.
- Python's `pow` and big-integer arithmetic are replaced by the specified
  `ModPow` over unbounded naturals.
- Negative arguments to `extended_gcd`, `pow` and the codec are left out. The
  source never passes any, and Dafny's Euclidean division differs from
  Python's floor division on them.
- `KeyPairGenerator.RejectsWhenExponentDividesTotient`: only one direction is
  proved. The converse, that a rejection means 65537 divides `phi`, needs the
  primality of 65537, which the model does not establish.
- `Cipher.TamperedCiphertextRecoversOtherBytes`: this is stated for the
  recovered bytes, not the decoded text. Different bytes could still decode
  to the same text, or fall back to the error text, under a `decode` the
  model knows nothing about.
