/** What `encrypt` and `Decrypt` promise about each other. */
module EnvelopeLaws {
  import opened Wrappers
  import opened GoStrings
  import opened Primitives
  import Base64
  import Encryptonite
  import Decryptonite

  /** Both packages hard-code the same scrypt parameters. */
  lemma KdfParametersAgree()
    ensures Encryptonite.KdfParams == Decryptonite.KdfParams == ScryptParams(32768, 8, 1, 32)
  {
  }

  /** Round trip: under AEAD correctness, an envelope decrypts with its passphrase to the plaintext sealed in it. */
  lemma EncryptDecryptRoundTrip(suite: Suite, plaintext: Bytes, passphrase: Bytes, saltDraw: Option<Encryptonite.Salt>, nonceDraw: Option<Nonce>)
    requires Sound(suite)
    requires Encryptonite.Encrypt(suite, plaintext, passphrase, saltDraw, nonceDraw).Success?
    ensures Decryptonite.Decrypt(suite, Encryptonite.Encrypt(suite, plaintext, passphrase, saltDraw, nonceDraw).value, passphrase) == Success(plaintext)
  {
    var envelope := Encryptonite.Encrypt(suite, plaintext, passphrase, saltDraw, nonceDraw).value;
    var salt, nonce := saltDraw.value, nonceDraw.value;
    var key := suite.scryptKey(passphrase, salt, Encryptonite.KdfParams).value;
    var data := salt + nonce + suite.seal(key, nonce, plaintext);
    Encryptonite.EncryptFrames(suite, plaintext, passphrase, saltDraw, nonceDraw);
    assert Base64.DecodeString(envelope) == Some(data);
    assert data[..16] == salt && data[16..28] == nonce && data[28..] == suite.seal(key, nonce, plaintext);
  }
}
