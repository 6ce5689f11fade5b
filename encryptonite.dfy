/** The writing half of the vault: the envelope encoder and the interactive Put. */
module Encryptonite {
  import opened Wrappers
  import opened GoStrings
  import opened Primitives
  import opened SecretsStore
  import opened Prompt
  import opened Utf8
  import Base64

  /** `make([]byte, 16)`: the salt drawn for every envelope. */
  const SaltSize := 16
  type Salt = s: Bytes | |s| == SaltSize witness [0, 0, 0, 0, 0, 0, 0, 0, 0, 0, 0, 0, 0, 0, 0, 0]

  /** N=32768, r=8, p=1, a 32-byte key: the scrypt call of `encrypt`. */
  const KdfParams := ScryptParams(32768, 8, 1, 32)

  datatype CryptoError = RandomnessUnavailable | KeyDerivationFailed | CipherSetupFailed

  /**
   * `encrypt(plaintext, passphrase)`. The salt and the nonce are what `crypto/rand` yields,
   * None when `io.ReadFull` fails. On success the envelope is the base64 text of
   * salt || nonce || Seal(key, nonce, plaintext) with key = scrypt(passphrase, salt); any
   * failing step returns an error and no envelope at all.
   */
  function Encrypt(suite: Suite, plaintext: Bytes, passphrase: Bytes, saltDraw: Option<Salt>, nonceDraw: Option<Nonce>)
    : (r: Result<Bytes, CryptoError>)
    ensures r.Success? <==>
      && saltDraw.Some? && nonceDraw.Some?
      && var key := suite.scryptKey(passphrase, saltDraw.value, ScryptParams(32768, 8, 1, 32));
         key.Some? && IsAesKeySize(key.value)
    ensures saltDraw.None? ==> r == Failure(RandomnessUnavailable)
  {
    if saltDraw.None? then Failure(RandomnessUnavailable)
    else
      var salt := saltDraw.value;
      var key := suite.scryptKey(passphrase, salt, KdfParams);
      if key.None? then Failure(KeyDerivationFailed)
      else if !IsAesKeySize(key.value) then Failure(CipherSetupFailed)
      else if nonceDraw.None? then Failure(RandomnessUnavailable)
      else
        var nonce := nonceDraw.value;
        var ciphertext := suite.seal(key.value, nonce, plaintext);
        Success(Base64.EncodeToString(salt + nonce + ciphertext))
  }

  /**
   * The envelope text is base64 that decodes to salt || nonce || Seal(key, nonce, plaintext),
   * the salt and nonce being the ones drawn and the key scrypt(passphrase, salt).
   */
  lemma EncryptFrames(suite: Suite, plaintext: Bytes, passphrase: Bytes, saltDraw: Option<Salt>, nonceDraw: Option<Nonce>)
    requires Encrypt(suite, plaintext, passphrase, saltDraw, nonceDraw).Success?
    ensures var key := suite.scryptKey(passphrase, saltDraw.value, ScryptParams(32768, 8, 1, 32)).value;
      Base64.DecodeString(Encrypt(suite, plaintext, passphrase, saltDraw, nonceDraw).value)
        == Some(saltDraw.value + nonceDraw.value + suite.seal(key, nonceDraw.value, plaintext))
  {
    var key := suite.scryptKey(passphrase, saltDraw.value, KdfParams).value;
    Base64.DecodeEncode(saltDraw.value + nonceDraw.value + suite.seal(key, nonceDraw.value, plaintext));
  }

  /** The envelope text is 4 * ceil((16 + 12 + |plaintext| + 16) / 3) characters long. */
  lemma EnvelopeLength(suite: Suite, plaintext: Bytes, passphrase: Bytes, saltDraw: Option<Salt>, nonceDraw: Option<Nonce>)
    requires AppendsTag(suite)
    requires Encrypt(suite, plaintext, passphrase, saltDraw, nonceDraw).Success?
    ensures |Encrypt(suite, plaintext, passphrase, saltDraw, nonceDraw).value| == 4 * ((SaltSize + GcmNonceSize + |plaintext| + GcmTagSize + 2) / 3)
  {
  }

  /** The envelope text is ASCII, so `encoding/json` writes it unchanged. */
  lemma EnvelopeIsValid(suite: Suite, plaintext: Bytes, passphrase: Bytes, saltDraw: Option<Salt>, nonceDraw: Option<Nonce>)
    requires Encrypt(suite, plaintext, passphrase, saltDraw, nonceDraw).Success?
    ensures IsValid(Encrypt(suite, plaintext, passphrase, saltDraw, nonceDraw).value)
  {
    var envelope := Encrypt(suite, plaintext, passphrase, saltDraw, nonceDraw).value;
    forall k | 0 <= k < |envelope|
      ensures envelope[k] < 0x80
    {
      assert Base64.IsEncodingChar(envelope[k]);
    }
    AsciiIsValid(envelope);
  }

  /**
   * `secrets[tokenName] = encrypted` as Go runs it: assigning into the nil map that a JSON
   * `null` file decodes to is a run-time panic, None here.
   */
  function StoreAsWritten(secrets: SecretsValue, name: Bytes, envelope: Bytes): (r: Option<Secrets>)
    ensures r.None? <==> secrets.Nil?
  {
    match secrets
    case Nil => None
    case Live(m) => Some(m[name := envelope])
  }

  /**
   * What the terminal supplies to a Put, one raw line per prompt (trailing newline included).
   * The overwrite answer is read only when the name is already taken; a hidden read that
   * fails is None.
   */
  datatype PutInput = PutInput(
    nameLine: Bytes,
    overwriteLine: Bytes,
    valueLine: Bytes,
    passphraseRead: Option<Bytes>,
    confirmationRead: Option<Bytes>)

  /** The answers a Put acts on: the name, value and both passphrases trimmed, the overwrite answer judged. */
  datatype PutAnswers = PutAnswers(
    name: Bytes,
    overwrite: bool,
    value: Bytes,
    passphrase: Bytes,
    confirmation: Bytes)

  function PutAnswersOf(input: PutInput): PutAnswers {
    PutAnswers(
      TrimSpace(input.nameLine),
      IsConfirmed(input.overwriteLine),
      TrimSpace(input.valueLine),
      TypedPassphrase(input.passphraseRead),
      TypedPassphrase(input.confirmationRead))
  }

  datatype PutError =
    | LoadFailed(loadError: LoadError)
    | InvalidName
    | PassphraseMismatch
    | EncryptionFailed(cryptoError: CryptoError)
    | PersistFailed(writeError: WriteError)

  /**
   * `nil` after saving, `nil` after "Aborted by user.", the run-time panic of an assignment
   * into a nil map, or the error returned.
   */
  datatype PutOutcome = Saved | Aborted | Panicked | PutFailed(error: PutError)

  /**
   * `EncryptTokenInteractive` as written, step by step: load (a missing or empty file is an
   * empty vault), ask before overwriting, compare the two passphrase entries, encrypt, store,
   * rewrite the file. Gives the file afterwards and the outcome.
   */
  function PutTransitionAsWritten(file: FileState, suite: Suite, answers: PutAnswers,
                                  saltDraw: Option<Salt>, nonceDraw: Option<Nonce>, fault: WriteFault)
    : (r: (FileState, PutOutcome))
    ensures r.1 == Panicked ==> file.HoldsNull? && r.0 == file
  {
    match LoadOrEmpty(file)
    case Failure(e) => (file, PutFailed(LoadFailed(e)))
    case Success(secrets) =>
      if answers.name in secrets.Entries() && !answers.overwrite then (file, Aborted)
      else if answers.passphrase != answers.confirmation then (file, PutFailed(PassphraseMismatch))
      else
        match Encrypt(suite, answers.value, answers.passphrase, saltDraw, nonceDraw)
        case Failure(e) => (file, PutFailed(EncryptionFailed(e)))
        case Success(envelope) =>
          match StoreAsWritten(secrets, answers.name, envelope)
          case None => (file, Panicked)
          case Some(stored) =>
            var after := AfterRewrite(file, stored, fault);
            match WriteErrorOf(fault)
            case Some(e) => (after, PutFailed(PersistFailed(e)))
            case None => (after, Saved)
  }

  /**
   * The Put as the design intends it: a file holding `null` is not a JSON object and so is
   * refused as corrupt, and a name that is not valid UTF-8 is refused before it is looked
   * up, since the file could only record it under another name. Otherwise as written.
   */
  function PutTransition(file: FileState, suite: Suite, answers: PutAnswers,
                         saltDraw: Option<Salt>, nonceDraw: Option<Nonce>, fault: WriteFault)
    : (r: (FileState, PutOutcome))
    ensures r.1 != Panicked
  {
    match LoadOrEmpty(file)
    case Failure(e) => (file, PutFailed(LoadFailed(e)))
    case Success(Nil) => (file, PutFailed(LoadFailed(DecodeFailed)))
    case Success(Live(m)) =>
      if !IsValid(answers.name) then (file, PutFailed(InvalidName))
      else if answers.name in m && !answers.overwrite then (file, Aborted)
      else if answers.passphrase != answers.confirmation then (file, PutFailed(PassphraseMismatch))
      else
        match Encrypt(suite, answers.value, answers.passphrase, saltDraw, nonceDraw)
        case Failure(e) => (file, PutFailed(EncryptionFailed(e)))
        case Success(envelope) =>
          var after := AfterRewrite(file, m[answers.name := envelope], fault);
          match WriteErrorOf(fault)
          case Some(e) => (after, PutFailed(PersistFailed(e)))
          case None => (after, Saved)
  }

  /** `EncryptTokenInteractive()` against the vault file `f`. */
  method EncryptTokenInteractive(f: SecretsFile, suite: Suite, input: PutInput,
                                 saltDraw: Option<Salt>, nonceDraw: Option<Nonce>, fault: WriteFault)
    returns (outcome: PutOutcome)
    modifies f
    ensures (f.state, outcome) == PutTransitionAsWritten(old(f.state), suite, PutAnswersOf(input), saltDraw, nonceDraw, fault)
  {
    var tokenName := TrimSpace(input.nameLine);
    var loaded := LoadOrEmpty(f.state);
    if loaded.Failure? {
      return PutFailed(LoadFailed(loaded.error));
    }
    var secrets := loaded.value;
    if tokenName in secrets.Entries() {
      if !IsConfirmed(input.overwriteLine) {
        return Aborted;
      }
    }
    var tokenValue := TrimSpace(input.valueLine);
    var passphrase := TypedPassphrase(input.passphraseRead);
    var confirmPassphrase := TypedPassphrase(input.confirmationRead);
    if passphrase != confirmPassphrase {
      return PutFailed(PassphraseMismatch);
    }
    var encrypted := Encrypt(suite, tokenValue, passphrase, saltDraw, nonceDraw);
    if encrypted.Failure? {
      return PutFailed(EncryptionFailed(encrypted.error));
    }
    var stored := StoreAsWritten(secrets, tokenName, encrypted.value);
    if stored.None? {
      return Panicked;
    }
    var err := f.Rewrite(stored.value, fault);
    if err.Some? {
      return PutFailed(PersistFailed(err.value));
    }
    outcome := Saved;
  }

  /** Off the two inputs the design refuses, the intended Put is the Put as written. */
  lemma PutAgreesAsWritten(file: FileState, suite: Suite, answers: PutAnswers,
                           saltDraw: Option<Salt>, nonceDraw: Option<Nonce>, fault: WriteFault)
    requires !file.HoldsNull? && IsValid(answers.name)
    ensures PutTransition(file, suite, answers, saltDraw, nonceDraw, fault)
      == PutTransitionAsWritten(file, suite, answers, saltDraw, nonceDraw, fault)
  {
  }

  /**
   * As written, a Put of a new name into a vault saves the store as `encoding/json` writes
   * it: whatever the name, the file afterwards holds the old vault and the new entry
   * reloaded, names repaired to valid UTF-8.
   */
  lemma PutAsWrittenSavesReloaded(secrets: DecodedSecrets, suite: Suite, answers: PutAnswers,
                                  saltDraw: Option<Salt>, nonceDraw: Option<Nonce>)
    requires answers.name !in secrets
    requires answers.passphrase == answers.confirmation
    requires Encrypt(suite, answers.value, answers.passphrase, saltDraw, nonceDraw).Success?
    ensures PutTransitionAsWritten(Holds(secrets), suite, answers, saltDraw, nonceDraw, NoFault)
      == (Holds(Reloaded(secrets[answers.name := Encrypt(suite, answers.value, answers.passphrase, saltDraw, nonceDraw).value])), Saved)
  {
  }

  /** A Put that neither saves nor fails in the rewrite leaves the vault file exactly as it was. */
  lemma PutChangesFileOnlyWhenRewriting(file: FileState, suite: Suite, answers: PutAnswers,
                                        saltDraw: Option<Salt>, nonceDraw: Option<Nonce>, fault: WriteFault)
    ensures var (after, outcome) := PutTransition(file, suite, answers, saltDraw, nonceDraw, fault);
      after != file ==> outcome == Saved || (outcome.PutFailed? && outcome.error.PersistFailed?)
    ensures var (after, outcome) := PutTransitionAsWritten(file, suite, answers, saltDraw, nonceDraw, fault);
      after != file ==> outcome == Saved || (outcome.PutFailed? && outcome.error.PersistFailed?)
  {
  }

  /**
   * A Put reports Saved exactly when the file held a vault, the name is valid UTF-8 and
   * new or its overwrite confirmed, both passphrase entries agree, encryption succeeded and
   * the rewrite did not fail.
   */
  lemma PutSavedIff(file: FileState, suite: Suite, answers: PutAnswers,
                    saltDraw: Option<Salt>, nonceDraw: Option<Nonce>, fault: WriteFault)
    ensures PutTransition(file, suite, answers, saltDraw, nonceDraw, fault).1 == Saved <==>
      && LoadOrEmpty(file).Success? && LoadOrEmpty(file).value.Live?
      && IsValid(answers.name)
      && (answers.name in LoadOrEmpty(file).value.m ==> answers.overwrite)
      && answers.passphrase == answers.confirmation
      && Encrypt(suite, answers.value, answers.passphrase, saltDraw, nonceDraw).Success?
      && fault == NoFault
  {
  }

  /**
   * After a saved Put the file, as the next load reads it, holds the vault it was loaded
   * from with the name bound to the new envelope: every other entry as it was.
   */
  lemma PutSavedContents(file: FileState, suite: Suite, answers: PutAnswers,
                         saltDraw: Option<Salt>, nonceDraw: Option<Nonce>, fault: WriteFault)
    requires PutTransition(file, suite, answers, saltDraw, nonceDraw, fault).1 == Saved
    ensures var after := PutTransition(file, suite, answers, saltDraw, nonceDraw, fault).0;
      var before := LoadOrEmpty(file).value.m;
      after.Holds? && after.secrets == before[answers.name := Encrypt(suite, answers.value, answers.passphrase, saltDraw, nonceDraw).value]
  {
    PutSavedIff(file, suite, answers, saltDraw, nonceDraw, fault);
    EnvelopeIsValid(suite, answers.value, answers.passphrase, saltDraw, nonceDraw);
    var envelope := Encrypt(suite, answers.value, answers.passphrase, saltDraw, nonceDraw).value;
    var before := LoadOrEmpty(file).value.m;
    var stored := before[answers.name := envelope];
    RewriteKeepsDecoded(file, stored);
    assert LoadOrEmpty(file) == Success(Live(before));
    assert fault == NoFault;
    assert PutTransition(file, suite, answers, saltDraw, nonceDraw, fault).0 == AfterRewrite(file, stored, fault);
  }

  /**
   * Declining to overwrite ends the Put before the passphrases, the randomness or the disk
   * are used, in both versions.
   */
  lemma DeclinedOverwriteKeepsVault(file: FileState, suite1: Suite, suite2: Suite, answers1: PutAnswers, answers2: PutAnswers,
                                    salt1: Option<Salt>, salt2: Option<Salt>, nonce1: Option<Nonce>, nonce2: Option<Nonce>,
                                    fault1: WriteFault, fault2: WriteFault)
    requires LoadOrEmpty(file).Success? && IsValid(answers1.name)
    requires answers1.name == answers2.name && answers1.overwrite == answers2.overwrite
    requires answers1.name in LoadOrEmpty(file).value.Entries() && !answers1.overwrite
    ensures PutTransition(file, suite1, answers1, salt1, nonce1, fault1) == (file, Aborted)
    ensures PutTransition(file, suite1, answers1, salt1, nonce1, fault1) == PutTransition(file, suite2, answers2, salt2, nonce2, fault2)
    ensures PutTransitionAsWritten(file, suite1, answers1, salt1, nonce1, fault1) == (file, Aborted)
  {
  }

  /**
   * Passphrase entries that differ end the Put with "passphrases do not match" before the
   * randomness or the disk are used, in both versions.
   */
  lemma PassphraseMismatchKeepsVault(file: FileState, suite1: Suite, suite2: Suite, answers: PutAnswers,
                                     salt1: Option<Salt>, salt2: Option<Salt>, nonce1: Option<Nonce>, nonce2: Option<Nonce>,
                                     fault1: WriteFault, fault2: WriteFault)
    requires LoadOrEmpty(file).Success?
    requires answers.name in LoadOrEmpty(file).value.Entries() ==> answers.overwrite
    requires answers.passphrase != answers.confirmation
    ensures PutTransitionAsWritten(file, suite1, answers, salt1, nonce1, fault1) == (file, PutFailed(PassphraseMismatch))
    ensures PutTransitionAsWritten(file, suite1, answers, salt1, nonce1, fault1)
      == PutTransitionAsWritten(file, suite2, answers, salt2, nonce2, fault2)
    ensures LoadOrEmpty(file).value.Live? && IsValid(answers.name) ==>
      PutTransition(file, suite1, answers, salt1, nonce1, fault1) == (file, PutFailed(PassphraseMismatch))
  {
  }

  /**
   * A failed rewrite can lose the whole vault: a marshal failure after `os.Create` leaves
   * an empty file, which the next Put loads as a vault with no entries.
   */
  lemma MarshalFailureEmptiesVault(secrets: DecodedSecrets, suite: Suite, answers: PutAnswers,
                                   saltDraw: Option<Salt>, nonceDraw: Option<Nonce>)
    requires answers.name !in secrets && IsValid(answers.name)
    requires answers.passphrase == answers.confirmation
    requires Encrypt(suite, answers.value, answers.passphrase, saltDraw, nonceDraw).Success?
    ensures PutTransition(Holds(secrets), suite, answers, saltDraw, nonceDraw, MarshalFails) == (Empty, PutFailed(PersistFailed(MarshalFailed)))
    ensures PutTransitionAsWritten(Holds(secrets), suite, answers, saltDraw, nonceDraw, MarshalFails) == (Empty, PutFailed(PersistFailed(MarshalFailed)))
    ensures LoadOrEmpty(Empty) == Success(Live(map[]))
  {
  }

  /**
   * As written, a Put into a vault file holding `null` finds no entry and, once the
   * passphrases agree and encryption succeeds, assigns into the nil map and panics before
   * the file is touched.
   */
  lemma NullVaultPanicsAsWritten(suite: Suite, answers: PutAnswers, saltDraw: Option<Salt>, nonceDraw: Option<Nonce>, fault: WriteFault)
    requires answers.passphrase == answers.confirmation
    requires Encrypt(suite, answers.value, answers.passphrase, saltDraw, nonceDraw).Success?
    ensures PutTransitionAsWritten(HoldsNull, suite, answers, saltDraw, nonceDraw, fault) == (HoldsNull, Panicked)
  {
  }

  /** The intended Put refuses a vault file holding `null` as corrupt, whatever is typed. */
  lemma NullVaultRefused(suite: Suite, answers: PutAnswers, saltDraw: Option<Salt>, nonceDraw: Option<Nonce>, fault: WriteFault)
    ensures PutTransition(HoldsNull, suite, answers, saltDraw, nonceDraw, fault) == (HoldsNull, PutFailed(LoadFailed(DecodeFailed)))
  {
  }

  /** The intended Put refuses a name that is not valid UTF-8 and leaves the file as it was. */
  lemma InvalidNameRefused(file: FileState, suite: Suite, answers: PutAnswers, saltDraw: Option<Salt>, nonceDraw: Option<Nonce>, fault: WriteFault)
    requires LoadOrEmpty(file).Success? && LoadOrEmpty(file).value.Live?
    requires !IsValid(answers.name)
    ensures PutTransition(file, suite, answers, saltDraw, nonceDraw, fault) == (file, PutFailed(InvalidName))
  {
  }
}
