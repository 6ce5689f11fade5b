/**
 * The cryptographic primitives the envelope is built from, kept opaque: scrypt (section 2 of
 * RFC 7914) and AES-GCM sealing and opening (NIST SP 800-38D). A `Suite` carries them as
 * function values, so every result below holds for any implementation of them; the only thing
 * assumed about them is stated by `Sound`, and the length of the GCM tag by `AppendsTag`.
 */
module Primitives {
  import opened Wrappers
  import opened GoStrings

  /** The cost parameters `scrypt.Key(password, salt, N, r, p, keyLen)` is called with. */
  datatype ScryptParams = ScryptParams(n: int, r: int, p: int, keyLen: int)

  datatype Suite = Suite(
    /** `scrypt.Key`; None is the error it returns for unusable parameters. */
    scryptKey: (Bytes, Bytes, ScryptParams) -> Option<Bytes>,
    /** `cipher.NewGCM(aes.NewCipher(key)).Seal(nil, nonce, plaintext, nil)`: no associated data. */
    seal: (Bytes, Bytes, Bytes) -> Bytes,
    /** `...Open(nil, nonce, ciphertext, nil)`; None when the tag does not verify. */
    open: (Bytes, Bytes, Bytes) -> Option<Bytes>)

  /** `aesGCM.NonceSize()` for the standard GCM construction. */
  const GcmNonceSize := 12
  /** The authentication tag GCM appends to every ciphertext. */
  const GcmTagSize := 16

  type Nonce = n: Bytes | |n| == GcmNonceSize witness [0, 0, 0, 0, 0, 0, 0, 0, 0, 0, 0, 0]

  /** AEAD correctness: opening what was sealed under the same key and nonce gives the plaintext back. */
  ghost predicate Sound(suite: Suite) {
    forall key, nonce, plaintext :: suite.open(key, nonce, suite.seal(key, nonce, plaintext)) == Some(plaintext)
  }

  /** GCM's ciphertext is as long as the plaintext plus the tag. */
  ghost predicate AppendsTag(suite: Suite) {
    forall key, nonce, plaintext :: |suite.seal(key, nonce, plaintext)| == |plaintext| + GcmTagSize
  }

  /** `aes.NewCipher` accepts AES-128, AES-192 and AES-256 keys and returns `KeySizeError` otherwise. */
  predicate IsAesKeySize(key: Bytes) {
    |key| == 16 || |key| == 24 || |key| == 32
  }
}
