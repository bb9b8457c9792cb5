/** Encryption and Decryption: raw textbook RSA over the integer encoding of
    a text. */
module Cipher {
  import opened Arith
  import opened Wrappers
  import opened ModularArithmetic
  import opened Codec
  import opened KeyPairGenerator
  import Fermat

  /** Encryption: pow(text_to_int(message), e, n). */
  function Encryption(message: string, e: nat, n: nat, encode: string -> seq<byte>): (c: nat)
    requires n > 0
    ensures c < n
    ensures c == Pow(TextToInt(message, encode), e) % n
  {
    ModPow(TextToInt(message, encode), e, n)
  }

  /** Decryption: int_to_text(pow(encrypted, d, n)); either the decoded text
      of the recovered bytes or, when they are not valid UTF-8, the error text. */
  function Decryption(encrypted: nat, d: nat, n: nat, decode: seq<byte> -> Option<string>): (text: string)
    requires n > 0
    ensures var recovered := IntToBytes(Pow(encrypted, d) % n);
            decode(recovered) == Some(text) || (decode(recovered) == None && text == DecodeErrorText)
  {
    IntToText(ModPow(encrypted, d, n), decode)
  }

  /** The exponents of a valid key undo each other in either order on [0, n). */
  lemma ExponentsInverse(key: KeyPair, p: nat, q: nat, m: nat)
    requires ValidKey(key, p, q) && m < key.n
    ensures ModPow(ModPow(m, key.e, key.n), key.d, key.n) == m
    ensures ModPow(ModPow(m, key.d, key.n), key.e, key.n) == m
  {
    Fermat.RsaCorrect(p, q, key.e, key.d, m);
    assert key.d * key.e == key.e * key.d;
    Fermat.RsaCorrect(p, q, key.d, key.e, m);
  }

  /** The bytes Decryption recovers from Encryption(message) are the message's
      own bytes exactly when its integer is below n and it has no leading
      zero byte; otherwise they differ (the integer aliases modulo n, or the
      leading zero bytes are lost). */
  lemma RecoveredBytes(key: KeyPair, p: nat, q: nat, message: string, encode: string -> seq<byte>)
    requires ValidKey(key, p, q)
    ensures IntToBytes(ModPow(Encryption(message, key.e, key.n, encode), key.d, key.n)) == encode(message)
        <==> TextToInt(message, encode) < key.n && NoLeadingZero(encode(message))
  {
    var m := TextToInt(message, encode);
    var r := ModPow(Encryption(message, key.e, key.n, encode), key.d, key.n);
    var bytes := encode(message);
    if m < key.n && NoLeadingZero(bytes) {
      ExponentsInverse(key, p, q, m);
    } else {
      OtherIntegerOtherBytes(r, bytes);
    }
  }

  /** Minimal bytes equal a byte string only when it is minimal and reads as
      the same integer. */
  lemma OtherIntegerOtherBytes(r: nat, bytes: seq<byte>)
    ensures IntToBytes(r) == bytes ==> FromBytes(bytes) == r && NoLeadingZero(bytes)
  {
  }

  /** Decrypting the encryption of a text gives the text back, for a valid key,
      a text whose integer is below n, whose encoding decodes back to it and
      has no leading zero byte. */
  lemma DecryptionRecoversMessage(key: KeyPair, p: nat, q: nat, message: string,
                                  encode: string -> seq<byte>, decode: seq<byte> -> Option<string>)
    requires ValidKey(key, p, q)
    requires TextToInt(message, encode) < key.n
    requires decode(encode(message)) == Some(message) && NoLeadingZero(encode(message))
    ensures Decryption(Encryption(message, key.e, key.n, encode), key.d, key.n, decode) == message
  {
    RecoveredBytes(key, p, q, message, encode);
  }

  /** The same, for the key KeyGeneration derives from p and q. */
  lemma GeneratedKeyRoundTrip(p: nat, q: nat, message: string,
                              encode: string -> seq<byte>, decode: seq<byte> -> Option<string>)
    requires IsPrime(p) && IsPrime(q) && p != q
    requires KeyGeneration(p, q).Ok?
    requires TextToInt(message, encode) < p * q
    requires decode(encode(message)) == Some(message) && NoLeadingZero(encode(message))
    ensures var key := KeyGeneration(p, q).value;
            Decryption(Encryption(message, key.e, key.n, encode), key.d, key.n, decode) == message
  {
    DecryptionRecoversMessage(KeyGeneration(p, q).value, p, q, message, encode, decode);
  }

  /** A ciphertext that differs from Encryption(message) modulo n (a tampered
      one, such as the ciphertext plus one) never decrypts to the message's bytes. */
  lemma TamperedCiphertextRecoversOtherBytes(key: KeyPair, p: nat, q: nat, message: string,
                                             encode: string -> seq<byte>, tampered: nat)
    requires ValidKey(key, p, q)
    requires TextToInt(message, encode) < key.n
    requires tampered % key.n != Encryption(message, key.e, key.n, encode)
    ensures IntToBytes(ModPow(tampered, key.d, key.n)) != encode(message)
  {
    var n := key.n;
    var c := tampered % n;
    PowModBase(tampered, key.d, n);
    assert ModPow(tampered, key.d, n) == ModPow(c, key.d, n);
    if IntToBytes(ModPow(c, key.d, n)) == encode(message) {
      ExponentsInverse(key, p, q, c);
    }
  }
}
