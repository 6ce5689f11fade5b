/** The reading half of the vault: the envelope decoder and the interactive Get. */
module Decryptonite {
  import opened Wrappers
  import opened GoStrings
  import opened Primitives
  import opened SecretsStore
  import opened Prompt
  import Base64

  /** N=32768, r=8, p=1, a 32-byte key: the scrypt call of `Decrypt`. */
  const KdfParams := ScryptParams(32768, 8, 1, 32)

  /** Salt and nonce together: the shortest envelope `Decrypt` will look into. */
  const HeaderSize := 16 + 12

  datatype DecryptError = IllegalBase64 | TooShort | KeyDerivationFailed | CipherSetupFailed | AuthenticationFailed

  /** `data[:16]`, `data[16:16+12]`, `data[16+12:]`: the salt, the nonce and the sealed text, which together are `data`. */
  function SplitEnvelope(data: Bytes): (parts: (Bytes, Bytes, Bytes))
    requires |data| >= HeaderSize
    ensures |parts.0| == 16 && |parts.1| == 12
    ensures parts.0 + parts.1 + parts.2 == data
  {
    (data[..16], data[16..HeaderSize], data[HeaderSize..])
  }

  /**
   * `Decrypt(encryptedB64, passphrase)`. Text that is not base64, or decodes to fewer than 28
   * bytes, is refused before any key is derived; a plaintext comes back only when GCM opens
   * the sealed text under scrypt(passphrase, salt) and the stored nonce.
   */
  function Decrypt(suite: Suite, encryptedB64: Bytes, passphrase: Bytes): (r: Result<Bytes, DecryptError>)
    ensures Base64.DecodeString(encryptedB64).None? ==> r == Failure(IllegalBase64)
    ensures Base64.DecodeString(encryptedB64).Some? && |Base64.DecodeString(encryptedB64).value| < 28 ==> r == Failure(TooShort)
    ensures r.Success? ==>
      var data := Base64.DecodeString(encryptedB64).value;
      && |data| >= 28
      && var key := suite.scryptKey(passphrase, data[..16], ScryptParams(32768, 8, 1, 32));
         key.Some? && suite.open(key.value, data[16..28], data[28..]) == Some(r.value)
  {
    match Base64.DecodeString(encryptedB64)
    case None => Failure(IllegalBase64)
    case Some(data) =>
      if |data| < HeaderSize then Failure(TooShort)
      else
        var (salt, nonce, ciphertext) := SplitEnvelope(data);
        var key := suite.scryptKey(passphrase, salt, KdfParams);
        if key.None? then Failure(KeyDerivationFailed)
        else if !IsAesKeySize(key.value) then Failure(CipherSetupFailed)
        else
          match suite.open(key.value, nonce, ciphertext)
          case None => Failure(AuthenticationFailed)
          case Some(plaintext) => Success(plaintext)
  }

  /** A short envelope is refused the same way whatever the passphrase and primitives: no key is derived for it. */
  lemma ShortEnvelopeRefusedBeforeKeyDerivation(suite1: Suite, suite2: Suite, encryptedB64: Bytes, pass1: Bytes, pass2: Bytes)
    requires Base64.DecodeString(encryptedB64).Some? && |Base64.DecodeString(encryptedB64).value| < HeaderSize
    ensures Decrypt(suite1, encryptedB64, pass1) == Decrypt(suite2, encryptedB64, pass2) == Failure(TooShort)
  {
  }

  /** What the terminal supplies to a Get: the name line, the hidden passphrase read (None when it fails), the display answer. */
  datatype GetInput = GetInput(nameLine: Bytes, passphraseRead: Option<Bytes>, displayLine: Bytes)

  /** The answers a Get acts on. */
  datatype GetAnswers = GetAnswers(name: Bytes, passphrase: Bytes, display: bool)

  function GetAnswersOf(input: GetInput): GetAnswers {
    GetAnswers(TrimSpace(input.nameLine), TypedPassphrase(input.passphraseRead), IsConfirmed(input.displayLine))
  }

  datatype GetError =
    | LoadFailed(loadError: LoadError)
    | NotFound(name: Bytes)
    | DecryptFailed(decryptError: DecryptError)
    | DisplayDeclined

  /**
   * `GetTokenFromSecrets`, step by step: open and decode the vault, look the name up,
   * decrypt its envelope with the passphrase, and hand the token out only when display is
   * confirmed.
   */
  function GetResult(file: FileState, suite: Suite, answers: GetAnswers): (r: Result<Bytes, GetError>) {
    match LoadExisting(file)
    case Failure(e) => Failure(LoadFailed(e))
    case Success(secrets) =>
      if answers.name !in secrets.Entries() then Failure(NotFound(answers.name))
      else
        match Decrypt(suite, secrets.Entries()[answers.name], answers.passphrase)
        case Failure(e) => Failure(DecryptFailed(e))
        case Success(token) =>
          if !answers.display then Failure(DisplayDeclined) else Success(token)
  }

  /** `GetTokenFromSecrets()` against the vault file `f`, which it only reads. */
  method GetTokenFromSecrets(f: SecretsFile, suite: Suite, input: GetInput) returns (r: Result<Bytes, GetError>)
    ensures r == GetResult(f.state, suite, GetAnswersOf(input))
  {
    var loaded := LoadExisting(f.state);
    if loaded.Failure? {
      return Failure(LoadFailed(loaded.error));
    }
    var secrets := loaded.value.Entries();
    var tokenName := TrimSpace(input.nameLine);
    if tokenName !in secrets {
      return Failure(NotFound(tokenName));
    }
    var encryptedToken := secrets[tokenName];
    var passphrase := TypedPassphrase(input.passphraseRead);
    var token := Decrypt(suite, encryptedToken, passphrase);
    if token.Failure? {
      return Failure(DecryptFailed(token.error));
    }
    if !IsConfirmed(input.displayLine) {
      return Failure(DisplayDeclined);
    }
    r := Success(token.value);
  }

  /**
   * A Get hands out a token exactly when the vault decodes, holds the name, its envelope
   * decrypts under the passphrase and display is confirmed; the token is that plaintext.
   */
  lemma GetSucceedsIff(file: FileState, suite: Suite, answers: GetAnswers)
    ensures var r := GetResult(file, suite, answers);
      r.Success? <==>
        && LoadExisting(file).Success?
        && answers.name in LoadExisting(file).value.Entries()
        && Decrypt(suite, LoadExisting(file).value.Entries()[answers.name], answers.passphrase).Success?
        && answers.display
    ensures var r := GetResult(file, suite, answers);
      r.Success? ==> r.value == Decrypt(suite, LoadExisting(file).value.Entries()[answers.name], answers.passphrase).value
  {
  }

  /**
   * Unlike a Put, a Get treats a missing vault and an empty vault file as errors: the open
   * fails for the first, the decoder finds no value in the second.
   */
  lemma GetNeedsExistingVault(suite: Suite, answers: GetAnswers)
    ensures GetResult(Absent, suite, answers) == Failure(LoadFailed(OpenFailed))
    ensures GetResult(Empty, suite, answers) == Failure(LoadFailed(DecodeFailed))
  {
  }

  /** An unknown name is reported before the passphrase is used: the outcome depends on neither it nor the display answer. */
  lemma UnknownNameReportedFirst(file: FileState, suite1: Suite, suite2: Suite, answers1: GetAnswers, answers2: GetAnswers)
    requires LoadExisting(file).Success? && answers1.name !in LoadExisting(file).value.Entries()
    requires answers1.name == answers2.name
    ensures GetResult(file, suite1, answers1) == GetResult(file, suite2, answers2) == Failure(NotFound(answers1.name))
  {
  }

  /**
   * The display question comes after decryption: a passphrase that does not open the
   * envelope is reported whatever the answer, and a declined display hides even a token
   * that decrypted.
   */
  lemma DecryptBeforeDisplay(file: FileState, suite: Suite, answers: GetAnswers)
    requires LoadExisting(file).Success? && answers.name in LoadExisting(file).value.Entries()
    ensures var d := Decrypt(suite, LoadExisting(file).value.Entries()[answers.name], answers.passphrase);
      && (d.Failure? ==> GetResult(file, suite, answers) == Failure(DecryptFailed(d.error)))
      && (d.Success? && !answers.display ==> GetResult(file, suite, answers) == Failure(DisplayDeclined))
  {
  }

  /** A vault file holding `null` decodes to a nil map, in which every lookup misses. */
  lemma NullVaultHasNoTokens(suite: Suite, answers: GetAnswers)
    ensures GetResult(HoldsNull, suite, answers) == Failure(NotFound(answers.name))
  {
  }
}
