/** The part of the `rsa` package the server calls: PKCS#1 public keys, their DER
    serialisation, and RSAES-PKCS1-v1_5 encryption (section 7.2.1 of RFC 8017).

    The package is foreign code. Parsing, serialising and the randomised padding
    plus modular exponentiation enter the model as the `Crypto` record of function
    values, supplied by the caller. Only the message-length check that decides
    whether an encryption raises is written out, because it decides which path
    the encrypted read takes. */
module Rsa {
  import opened Wrappers
  import opened Octets

  /** An RSA public key: modulus `n` and public exponent `e`, the `RSAPublicKey`
      of appendix A.1.1 of RFC 8017. */
  datatype PublicKey = PublicKey(n: nat, e: nat)

  /** The random padding string one encryption draws; each read gets a fresh one. */
  type Nonce = nat

  /** The exceptions the foreign calls raise. */
  datatype CryptoError =
    | KeyParseError                          // `PublicKey.load_pkcs1` rejected the bytes
    | MessageTooLong(length: nat, limit: int) // `encrypt` raised `OverflowError`

  /** The foreign operations, as total functions the caller provides.
      - `loadPkcs1Der`: `rsa.PublicKey.load_pkcs1(bytes, 'DER')`; `None` is the raised exception.
      - `savePkcs1Der`: `PublicKey.save_pkcs1('DER')`.
      - `encryptBlock`: padding and exponentiation of a message that fits the key. */
  datatype Crypto = Crypto(
    loadPkcs1Der: Bytes -> Option<PublicKey>,
    savePkcs1Der: PublicKey -> Bytes,
    encryptBlock: (PublicKey, Bytes, Nonce) -> Bytes)

  /** Octets of padding PKCS#1 v1.5 encryption adds: `00 02`, at least eight random octets, `00`. */
  const PaddingOverhead: nat := 11

  /** 256 to the power `k`: the number of values `k` octets can hold. */
  function Pow256(k: nat): (p: nat)
    ensures p >= 1
  {
    if k == 0 then 1 else 256 * Pow256(k - 1)
  }

  /** The length `k` in octets of a modulus; a modulus below 256, zero included, takes one octet. */
  function OctetLength(n: nat): (k: nat)
    ensures k >= 1
  {
    if n < 256 then 1 else 1 + OctetLength(n / 256)
  }

  /** `OctetLength(n)` is the least number of octets that can hold `n`. */
  lemma {:induction false} OctetLengthBounds(n: nat)
    ensures n < Pow256(OctetLength(n))
    ensures OctetLength(n) > 1 ==> Pow256(OctetLength(n) - 1) <= n
  {
    if n >= 256 {
      OctetLengthBounds(n / 256);
    }
  }

  /** Powers of 256 grow with the exponent. */
  lemma {:induction false} Pow256Monotone(a: nat, b: nat)
    requires a <= b
    ensures Pow256(a) <= Pow256(b)
    decreases b
  {
    if a < b {
      Pow256Monotone(a, b - 1);
    }
  }

  /** A modulus spans at least `k > 1` octets exactly when it is at least 256 to the power `k - 1`. */
  lemma OctetLengthAtLeast(n: nat, k: nat)
    requires k > 1
    ensures OctetLength(n) >= k <==> Pow256(k - 1) <= n
  {
    OctetLengthBounds(n);
    if OctetLength(n) >= k {
      Pow256Monotone(k - 1, OctetLength(n) - 1);
    } else {
      Pow256Monotone(OctetLength(n), k - 1);
    }
  }

  /** The longest message a key can encrypt; negative when the key is too short for any. */
  function MaxMessageLength(key: PublicKey): (limit: int) {
    OctetLength(key.n) - PaddingOverhead
  }

  /** `rsa.encrypt(message, key)`: succeeds exactly when the modulus is at least
      256 to the power of the padded message length minus one, that is, when the
      message and its 11 octets of padding fit in the modulus's octets. */
  function Encrypt(c: Crypto, key: PublicKey, message: Bytes, nonce: Nonce): (r: Result<Bytes, CryptoError>)
    ensures r.Success? <==> Pow256(|message| + PaddingOverhead - 1) <= key.n
    ensures r.Success? ==> r.value == c.encryptBlock(key, message, nonce)
    ensures r.Failure? ==> r.error == MessageTooLong(|message|, MaxMessageLength(key))
  {
    OctetLengthAtLeast(key.n, |message| + PaddingOverhead);
    if |message| > MaxMessageLength(key) then
      Failure(MessageTooLong(|message|, MaxMessageLength(key)))
    else
      Success(c.encryptBlock(key, message, nonce))
  }

  /** The ciphertext is an octet string as long as the modulus (steps 3 and 4 of section 7.2.1). */
  ghost predicate FixedLengthCiphertext(c: Crypto) {
    forall key, m, nonce :: |c.encryptBlock(key, m, nonce)| == OctetLength(key.n)
  }

  /** Parsing the DER serialisation of a key gives the key back. */
  ghost predicate DerRoundTrip(c: Crypto) {
    forall key :: c.loadPkcs1Der(c.savePkcs1Der(key)) == Some(key)
  }
}
